/** Exactly which range headers are understood, and as what. */
module RangeForms {
  import opened Text
  import opened Ranges

  /** One range as it may be written: white space, and the digits before and behind the dash. */
  datatype Form = Form(space: string, first: string, last: string)

  predicate Digits(s: string) { forall i :: 0 <= i < |s| ==> '0' <= s[i] <= '9' }

  ghost predicate FormOk(f: Form) { Spaces(f.space) && Digits(f.first) && Digits(f.last) }

  /** Well-formed ranges, white space only behind a comma. */
  ghost predicate FormsOk(fs: seq<Form>) {
    fs != [] && fs[0].space == "" && forall i :: 0 <= i < |fs| ==> FormOk(fs[i])
  }

  function FormText(f: Form): string { f.space + (f.first + "-" + f.last) }

  function FormTexts(fs: seq<Form>): (ts: seq<string>)
    ensures |ts| == |fs| && forall i :: 0 <= i < |fs| ==> ts[i] == FormText(fs[i])
  {
    seq(|fs|, i requires 0 <= i < |fs| => FormText(fs[i]))
  }

  function HeaderOf(fs: seq<Form>): string { "bytes=" + Glue(FormTexts(fs), ",") }

  /** The number written, -1 where there is none. */
  function Written(s: string): int
    requires Digits(s)
  {
    if s == "" then -1 else Number(s)
  }

  /** The range a form stands for, if its ends fit in 63 bits and are in order. */
  ghost predicate Stands(f: Form, r: Range) {
    && Digits(f.first) && Digits(f.last) && r == Range(Written(f.first), Written(f.last))
    && r.first <= 0x7fff_ffff_ffff_ffff && r.last <= 0x7fff_ffff_ffff_ffff
    && (f.first == "" || f.last == "" || r.first <= r.last)
  }

  ghost predicate AllStand(fs: seq<Form>, rs: seq<Range>) {
    |fs| == |rs| && forall i :: 0 <= i < |fs| ==> Stands(fs[i], rs[i])
  }

  // ---------------------------------------------------------------- one piece

  lemma CoreShape(first: string, last: string)
    requires Digits(first) && Digits(last)
    ensures var core := first + "-" + last;
      && Ends(core) == Some((first, last)) && core != "" && !Spaces(core[..1]) && ',' !in core
      && core[0] != ' ' && core[0] != '\t' && core[|core| - 1] != ' ' && core[|core| - 1] != '\t'
  {
    DashReads(first, last);
    var core := first + "-" + last;
    assert core[..1][0] == core[0];
    assert core[0] == '-' || '0' <= core[0] <= '9';
  }

  /** Leading blanks may be gone already: the white space left is skipped. */
  lemma {:induction false} TrimmedForm(space: string, core: string) returns (left: string)
    requires Spaces(space) && core != "" && !Spaces(core[..1])
    requires core[0] != ' ' && core[0] != '\t' && core[|core| - 1] != ' ' && core[|core| - 1] != '\t'
    ensures Spaces(left) && Trim(space + core) == left + core && Kept(space + core) == [left + core]
  {
    var s := space + core;
    if space != "" && IsBlank(space[0]) {
      assert s[1..] == space[1..] + core;
      left := TrimmedForm(space[1..], core);
    } else {
      left := space;
      assert s[|s| - 1] == core[|core| - 1];
      assert s[0] == if space == "" then core[0] else space[0];
      TrimLeftShort(s);
      TrimRightShort(s);
    }
  }

  lemma PieceReadsAs(f: Form) returns (piece: string)
    requires FormOk(f)
    ensures Kept(FormText(f)) == [piece] && ',' !in FormText(f)
    ensures forall r :: PieceRange(piece) == Some([r]) <==> Stands(f, r)
    ensures PieceRange(piece).Some? ==> |PieceRange(piece).value| == 1
    ensures Ends(SkipSpace(FormText(f))) == Some((f.first, f.last))
    ensures f.space == "" ==> Ends(FormText(f)) == Some((f.first, f.last))
  {
    hide Ends, SkipSpace, Kept, Number;
    var core := f.first + "-" + f.last;
    CoreShape(f.first, f.last);
    var left := TrimmedForm(f.space, core);
    piece := left + core;
    SkipSpaces(left, core);
    SkipSpaces(f.space, core);
    assert "" + core == core;
  }

  // ---------------------------------------------------------------- whole headers

  lemma {:induction false} FormsSplit(fs: seq<Form>) returns (pieces: seq<string>)
    requires forall i :: 0 <= i < |fs| ==> FormOk(fs[i])
    ensures |pieces| == |fs|
    ensures fs != [] ==> SplitOn(Glue(FormTexts(fs), ","), ',') == pieces && Pieces(Glue(FormTexts(fs), ","), ',') == FormTexts(fs)
    ensures forall rs :: PiecesRanges(pieces) == Some(rs) <==> AllStand(fs, rs)
  {
    hide SplitOn, Pieces, PieceRange, FormText;
    if fs == [] {
      pieces := [];
    } else {
      var ts, more := FormTexts(fs), FormTexts(fs[1..]);
      assert ts[1..] == more;
      var p := PieceReadsAs(fs[0]);
      var ps := FormsSplit(fs[1..]);
      pieces := [p] + ps;
      if |fs| == 1 {
        SplitSingle(ts[0], ',');
        PiecesSingle(ts[0], ',');
        assert ps == [];
      } else {
        assert Glue(ts, ",") == ts[0] + "," + Glue(more, ",");
        SplitCons(ts[0], ',', Glue(more, ","));
        PiecesCons(ts[0], ',', Glue(more, ","));
        assert ts == [ts[0]] + more;
      }
      RangesCons(fs, p, ps);
    }
  }

  lemma RangesCons(fs: seq<Form>, p: string, ps: seq<string>)
    requires fs != []
    requires forall r :: PieceRange(p) == Some([r]) <==> Stands(fs[0], r)
    requires PieceRange(p).Some? ==> |PieceRange(p).value| == 1
    requires forall rs :: PiecesRanges(ps) == Some(rs) <==> AllStand(fs[1..], rs)
    ensures forall rs :: PiecesRanges([p] + ps) == Some(rs) <==> AllStand(fs, rs)
  {
    hide PieceRange, Stands;
    assert ([p] + ps)[1..] == ps;
    forall rs ensures PiecesRanges([p] + ps) == Some(rs) <==> AllStand(fs, rs) {
      if AllStand(fs, rs) {
        assert rs == [rs[0]] + rs[1..];
        assert AllStand(fs[1..], rs[1..]);
        assert PieceRange(p) == Some([rs[0]]);
      }
      if PiecesRanges([p] + ps) == Some(rs) {
        var q := PieceRange(p).value;
        assert q == [q[0]];
        var more := PiecesRanges(ps).value;
        assert AllStand(fs[1..], more) && rs == [q[0]] + more;
        assert forall i :: 0 < i < |fs| ==> rs[i] == more[i - 1] && fs[i] == fs[1..][i - 1];
      }
    }
  }

  /** Every well-formed header is understood as the ranges its forms stand for, or refused. */
  lemma FormsParsed(fs: seq<Form>)
    requires FormsOk(fs)
    ensures HeaderFits(HeaderOf(fs))
    ensures forall rs :: Parsed(HeaderOf(fs)) == Some(rs) <==> AllStand(fs, rs)
  {
    hide SplitOn, Pieces, PieceRange, FormText, Ends, SkipSpace;
    var s, body := HeaderOf(fs), Glue(FormTexts(fs), ",");
    var pieces := FormsSplit(fs);
    assert s[|BYTES|..] == body && BYTES <= s;
    forall i | 0 <= i < |fs|
      ensures Ends(SkipSpace(FormTexts(fs)[i])).Some? && (i == 0 ==> Ends(FormTexts(fs)[i]).Some?)
    {
      var p := PieceReadsAs(fs[i]);
    }
  }

  // ---------------------------------------------------------------- nothing else is understood

  lemma {:induction false} GluePieces(s: string, d: char)
    ensures Pieces(s, d) != [] && Glue(Pieces(s, d), [d]) == s
    decreases |s|
  {
    IndexLeast(s, d, 0);
    var i := IndexFrom(s, d, 0);
    if i < |s| {
      GluePieces(s[i + 1..], d);
      var ps := Pieces(s, d);
      assert ps[1..] == Pieces(s[i + 1..], d);
      assert s == s[..i] + [d] + s[i + 1..];
    }
  }

  lemma {:induction false} SkippedSpace(s: string) returns (w: string)
    ensures Spaces(w) && s == w + SkipSpace(s)
  {
    if s != "" && IsSpace(s[0]) {
      w := SkippedSpace(s[1..]);
      w := [s[0]] + w;
      assert s == [s[0]] + s[1..];
    } else {
      w := "";
      assert "" + s == s;
    }
  }

  lemma EndsShape(q: string)
    requires Ends(q).Some?
    ensures var (a, b) := Ends(q).value;
      Digits(a) && Digits(b) && q == a + "-" + b
  {
    IndexLeast(q, '-', 0);
    var k := IndexFrom(q, '-', 0);
    assert q == q[..k] + "-" + q[k + 1..];
  }

  lemma PieceShape(p: string) returns (f: Form)
    requires Ends(SkipSpace(p)).Some?
    ensures FormOk(f) && p == FormText(f) && (Ends(p).Some? ==> f.space == "")
  {
    hide Ends, SkipSpace;
    var w := SkippedSpace(p);
    var (a, b) := Ends(SkipSpace(p)).value;
    EndsShape(SkipSpace(p));
    f := Form(w, a, b);
    if Ends(p).Some? {
      EndsShape(p);
      var (c, d) := Ends(p).value;
      CoreShape(c, d);
      assert w != "" ==> p[..1][0] == w[0];
      NoLead(w, p);
    }
  }

  lemma NoLead(w: string, p: string)
    requires Spaces(w) && w <= p && p != "" && !Spaces(p[..1])
    ensures w == ""
  {
    assert p[..1][0] == p[0];
  }

  lemma {:induction false} PiecesShape(ps: seq<string>) returns (fs: seq<Form>)
    requires forall i :: 0 <= i < |ps| ==> Ends(SkipSpace(ps[i])).Some?
    ensures |fs| == |ps| && FormTexts(fs) == ps
    ensures forall i :: 0 <= i < |fs| ==> FormOk(fs[i]) && (Ends(ps[i]).Some? ==> fs[i].space == "")
  {
    hide Ends, SkipSpace, FormText;
    fs := [];
    if ps != [] {
      var f := PieceShape(ps[0]);
      var more := PiecesShape(ps[1..]);
      fs := [f] + more;
      assert FormTexts(fs) == [FormText(f)] + FormTexts(more);
    }
  }

  lemma FitsShape(s: string) returns (fs: seq<Form>)
    requires HeaderFits(s)
    ensures FormsOk(fs) && s == HeaderOf(fs)
  {
    hide Ends, SkipSpace, Pieces, FormText;
    var body := s[|BYTES|..];
    var ps := Pieces(body, ',');
    GluePieces(body, ',');
    FirstSkips(ps[0]);
    fs := PiecesShape(ps);
    assert s == BYTES + body;
  }

  lemma FirstSkips(p: string)
    requires Ends(p).Some?
    ensures SkipSpace(p) == p
  {
    hide Ends;
    EndsShape(p);
    var (a, b) := Ends(p).value;
    CoreShape(a, b);
    SkipSpaces("", p);
    assert "" + p == p;
  }

  /** MAIN RESULT.  A header is understood, as the ranges `rs`, if and only if it is `bytes=` and the ranges
      written in digits, a comma and any white space between them, every end fitting in 63 bits and
      none the wrong way round.  Everything else is refused. */
  lemma ParsedExact(s: string, rs: seq<Range>)
    ensures Parsed(s) == Some(rs) <==> exists fs :: FormsOk(fs) && s == HeaderOf(fs) && AllStand(fs, rs)
  {
    hide HeaderFits, SplitOn, PiecesRanges, HeaderOf, FormsOk, AllStand;
    if Parsed(s) == Some(rs) {
      var fs := FitsShape(s);
      FormsParsed(fs);
    }
    forall fs | FormsOk(fs) && s == HeaderOf(fs) && AllStand(fs, rs) ensures Parsed(s) == Some(rs) {
      FormsParsed(fs);
    }
  }

  // ---------------------------------------------------------------- printed ranges, any spacing

  /** A printed end: nothing for -1, and otherwise its decimal digits, without leading zeros. */
  lemma EndPrinted(v: int)
    requires v >= -1
    ensures Digits(EndText(v)) && Written(EndText(v)) == v && (EndText(v) == "" <==> v == -1)
    ensures v > 0 ==> EndText(v)[0] != '0'
  {
    if v >= 0 {
      DecimalReads(v);
      NoLeadingZero(v);
    }
  }

  lemma {:induction false} NoLeadingZero(n: nat)
    ensures n > 0 ==> Decimal(n)[0] != '0'
  {
    if n >= 10 { NoLeadingZero(n / 10); }
  }

  function Spaced(rs: seq<Range>, ws: seq<string>): (fs: seq<Form>)
    requires |ws| == |rs|
    ensures |fs| == |rs|
    ensures forall i :: 0 <= i < |rs| ==> fs[i] == Form(ws[i], EndText(rs[i].first), EndText(rs[i].last))
  {
    seq(|rs|, i requires 0 <= i < |rs| => Form(ws[i], EndText(rs[i].first), EndText(rs[i].last)))
  }

  /** Ranges that are in order and fit are understood however they are spaced. */
  lemma AnySpacing(rs: seq<Range>, ws: seq<string>)
    requires rs != [] && |ws| == |rs| && ws[0] == "" && forall i :: 0 <= i < |rs| ==> RangeOk(rs[i]) && Spaces(ws[i])
    ensures Parsed("bytes=" + Glue(FormTexts(Spaced(rs, ws)), ",")) == Some(rs)
  {
    hide EndText, Parsed;
    var fs := Spaced(rs, ws);
    forall i | 0 <= i < |rs| ensures FormOk(fs[i]) && Stands(fs[i], rs[i]) {
      EndPrinted(rs[i].first);
      EndPrinted(rs[i].last);
    }
    FormsParsed(fs);
  }

  /** What `make_range_header` prints has one blank behind each comma. */
  lemma HeaderPrinted(rs: seq<Range>)
    requires rs != []
    ensures HeaderText(rs) == HeaderOf(Spaced(rs, seq(|rs|, i => if i == 0 then "" else " ")))
  {
    hide EndText;
    var ws := seq(|rs|, i => if i == 0 then "" else " ");
    GlueBlanks(RangeTexts(rs), FormTexts(Spaced(rs, ws)));
    assert BYTES == "bytes=";
  }

  lemma {:induction false} GlueBlanks(ts: seq<string>, us: seq<string>)
    requires |ts| == |us| > 0 && us[0] == ts[0] && forall i :: 1 <= i < |ts| ==> us[i] == " " + ts[i]
    ensures Glue(ts, ", ") == Glue(us, ",")
  {
    if |ts| > 1 {
      var vs := [ts[1]] + us[2..];
      GlueBlanks(ts[1..], vs);
      GlueFirst(us[1..], vs, ts[1]);
      Joint(ts[0], Glue(ts[1..], ", "));
    }
  }

  lemma Joint(x: string, y: string)
    ensures x + ", " + y == x + "," + (" " + y)
  {
  }

  lemma GlueFirst(us: seq<string>, vs: seq<string>, t: string)
    requires |us| == |vs| > 0 && us[0] == " " + t && vs[0] == t && us[1..] == vs[1..]
    ensures Glue(us, ",") == " " + Glue(vs, ",")
  {
  }
}
