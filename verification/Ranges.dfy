/** Byte ranges: the `Range` header, and the body of a reply with several ranges. */
module Ranges {
  import opened Text

  /** `-1` stands for an end that is not given. */
  datatype Range = Range(first: int, last: int)

  const LLONG_MAX := 0x7fff_ffff_ffff_ffff

  // ---------------------------------------------------------------- decimal numbers

  function Digit(v: nat): char
    requires v < 10
  {
    ('0' as int + v) as char
  }

  function Decimal(n: nat): (d: string)
    ensures d != ""
  {
    if n < 10 then [Digit(n)] else Decimal(n / 10) + [Digit(n % 10)]
  }

  /** `std::to_string` */
  function ToString(n: int): string { if n < 0 then "-" + Decimal(-n) else Decimal(n) }

  predicate AllDigits(s: string) { forall i :: 0 <= i < |s| ==> '0' <= s[i] <= '9' }

  function Number(s: string): nat
    requires AllDigits(s)
  {
    if s == "" then 0 else 10 * Number(s[..|s| - 1]) + (s[|s| - 1] as int - '0' as int)
  }

  lemma {:induction false} DecimalReads(n: nat)
    ensures AllDigits(Decimal(n)) && Number(Decimal(n)) == n
  {
    if n < 10 {
      assert Decimal(n)[..0] == "" && Number("") == 0;
    } else {
      DecimalReads(n / 10);
      var d := Decimal(n);
      assert d[..|d| - 1] == Decimal(n / 10);
    }
  }

  // ---------------------------------------------------------------- the header

  function EndText(v: int): string { if v == -1 then "" else ToString(v) }

  function RangeText(r: Range): string { EndText(r.first) + "-" + EndText(r.last) }

  function RangeTexts(rs: seq<Range>): (ts: seq<string>)
    ensures |ts| == |rs| && forall i :: 0 <= i < |rs| ==> ts[i] == RangeText(rs[i])
  {
    seq(|rs|, i requires 0 <= i < |rs| => RangeText(rs[i]))
  }

  const BYTES := "bytes="

  /** What `make_range_header` builds. */
  function HeaderText(rs: seq<Range>): string { BYTES + Glue(RangeTexts(rs), ", ") }

  /** `(\d*)-(\d*)`: the two digit strings. */
  function Ends(p: string): Option<(string, string)> {
    var k := IndexFrom(p, '-', 0);
    if k < |p| && AllDigits(p[..k]) && AllDigits(p[k + 1..]) then Some((p[..k], p[k + 1..])) else None
  }

  /** The whole header fits `bytes=(\d*-\d*(?:,\s*\d*-\d*)*)`. */
  predicate HeaderFits(s: string) {
    && BYTES <= s
    && var ps := Pieces(s[|BYTES|..], ',');
       Ends(ps[0]).Some? && forall i :: 1 <= i < |ps| ==> Ends(SkipSpace(ps[i])).Some?
  }

  /** `stoll`, `None` when it throws; no digits give `-1`. */
  function EndOf(s: string): Option<int>
    requires AllDigits(s)
  {
    var n: int := if s == "" then -1 else Number(s);
    if n <= LLONG_MAX then Some(n) else None
  }

  /** One piece: a range, nothing if it does not look like one, or a refusal. */
  function PieceRange(p: string): Option<seq<Range>> {
    match Ends(SkipSpace(p))
    case None => Some([])
    case Some((a, b)) =>
      var first, last := EndOf(a), EndOf(b);
      if first.None? || last.None? then None
      else if first.value != -1 && last.value != -1 && first.value > last.value then None
      else Some([Range(first.value, last.value)])
  }

  function PiecesRanges(ps: seq<string>): Option<seq<Range>> {
    if ps == [] then Some([])
    else
      match PieceRange(ps[0])
      case None => None
      case Some(r) =>
        match PiecesRanges(ps[1..])
        case None => None
        case Some(rs) => Some(r + rs)
  }

  /** What `parse_range_header` makes of a header; `None` where it returns false. */
  function Parsed(s: string): Option<seq<Range>> {
    if HeaderFits(s) then PiecesRanges(SplitOn(s[|BYTES|..], ',')) else None
  }

  // ---------------------------------------------------------------- round trip

  predicate EndOk(v: int) { -1 <= v <= LLONG_MAX }

  predicate Ordered(r: Range) { r.first == -1 || r.last == -1 || r.first <= r.last }

  /** What the parser returns. */
  predicate RangeOk(r: Range) { EndOk(r.first) && EndOk(r.last) && Ordered(r) }

  lemma {:induction false} PiecesOk(ps: seq<string>, i: nat)
    requires PiecesRanges(ps).Some? && i < |PiecesRanges(ps).value|
    ensures RangeOk(PiecesRanges(ps).value[i])
  {
    hide Ends, SkipSpace, Number;
    var n := |PieceRange(ps[0]).value|;
    if i >= n { PiecesOk(ps[1..], i - n); }
  }

  /** Every range a header can ask for has ends that are absent or fit, in order. */
  lemma ParsedOk(s: string, i: nat)
    requires Parsed(s).Some? && i < |Parsed(s).value|
    ensures RangeOk(Parsed(s).value[i])
  {
    hide PiecesRanges, HeaderFits, SplitOn;
    BytesPrefix(s);
    PiecesOk(SplitOn(s[|BYTES|..], ','), i);
  }

  lemma EndReads(v: int)
    requires v >= -1
    ensures AllDigits(EndText(v)) && EndOf(EndText(v)) == if EndOk(v) then Some(v) else None
  {
    if v != -1 { DecimalReads(v); }
  }

  lemma DashReads(a: string, b: string)
    requires AllDigits(a) && AllDigits(b)
    ensures Ends(a + "-" + b) == Some((a, b))
  {
    var t := a + "-" + b;
    assert forall i :: 0 <= i < |a| ==> t[i] == a[i];
    IndexIs(t, '-', 0, |a|);
    assert t[..|a|] == a && t[|a| + 1..] == b;
  }

  lemma DashIsPiece(t: string)
    requires t != "" && forall i :: 0 <= i < |t| ==> t[i] == '-' || '0' <= t[i] <= '9'
    ensures PieceOk(t, ',') && SkipSpace(t) == t && SkipSpace(" " + t) == t
  {
    assert (" " + t)[1..] == t;
  }

  lemma RangeReads(r: Range)
    requires r.first >= -1 && r.last >= -1
    ensures Ends(RangeText(r)) == Some((EndText(r.first), EndText(r.last)))
    ensures PieceOk(RangeText(r), ',')
    ensures SkipSpace(RangeText(r)) == RangeText(r) && SkipSpace(" " + RangeText(r)) == RangeText(r)
  {
    hide EndOf, EndText, Ends, SkipSpace, PieceOk;
    EndReads(r.first);
    EndReads(r.last);
    DashReads(EndText(r.first), EndText(r.last));
    DashIsPiece(RangeText(r));
  }

  lemma PieceReads(r: Range)
    requires r.first >= -1 && r.last >= -1
    ensures PieceRange(RangeText(r)) == if RangeOk(r) then Some([r]) else None
  {
    hide EndOf, EndText, Ends, SkipSpace;
    EndReads(r.first);
    EndReads(r.last);
    RangeReads(r);
  }

  /** No end prints with a minus sign. */
  ghost predicate NoneBelow(rs: seq<Range>) {
    forall i :: 0 <= i < |rs| ==> rs[i].first >= -1 && rs[i].last >= -1
  }

  lemma {:induction false} PiecesRead(rs: seq<Range>)
    requires NoneBelow(rs)
    ensures PiecesRanges(RangeTexts(rs)) == if forall i :: 0 <= i < |rs| ==> RangeOk(rs[i]) then Some(rs) else None
  {
    hide PieceRange, RangeOk, RangeText;
    if rs != [] {
      PieceReads(rs[0]);
      assert RangeTexts(rs)[1..] == RangeTexts(rs[1..]);
      PiecesRead(rs[1..]);
      assert rs == [rs[0]] + rs[1..];
      if !forall i :: 0 <= i < |rs| ==> RangeOk(rs[i]) {
        var i :| 0 <= i < |rs| && !RangeOk(rs[i]);
        if i > 0 { assert rs[1..][i - 1] == rs[i]; }
      } else {
        assert forall i :: 0 <= i < |rs[1..]| ==> RangeOk(rs[1..][i]);
      }
    }
  }

  /** The raw pieces of a list joined with a comma and a blank. */
  lemma {:induction false} RawPieces(ts: seq<string>, lead: string)
    requires ts != [] && ',' !in lead && forall i :: 0 <= i < |ts| ==> ',' !in ts[i]
    ensures var ps := Pieces(lead + Glue(ts, ", "), ',');
      |ps| == |ts| && ps[0] == lead + ts[0] && forall i :: 1 <= i < |ts| ==> ps[i] == " " + ts[i]
    decreases |ts|
  {
    hide Pieces;
    if |ts| == 1 {
      PiecesSingle(lead + ts[0], ',');
    } else {
      var rest := " " + Glue(ts[1..], ", ");
      RawPieces(ts[1..], " ");
      assert lead + Glue(ts, ", ") == (lead + ts[0]) + "," + rest;
      PiecesCons(lead + ts[0], ',', rest);
      var ps := Pieces(rest, ',');
      forall i | 1 <= i < |ts| ensures ([lead + ts[0]] + ps)[i] == " " + ts[i] {
        assert ([lead + ts[0]] + ps)[i] == ps[i - 1] == " " + ts[1..][i - 1];
      }
    }
  }

  /** A printed range holds only digits and dashes, whatever its ends. */
  lemma TextChars(r: Range)
    ensures PieceOk(RangeText(r), ',') && SkipSpace(RangeText(r)) == RangeText(r)
    ensures SkipSpace(" " + RangeText(r)) == RangeText(r)
  {
    hide SkipSpace, PieceOk, EndText;
    EndChars(r.first);
    EndChars(r.last);
    DashIsPiece(RangeText(r));
  }

  lemma EndChars(v: int)
    ensures forall i :: 0 <= i < |EndText(v)| ==> EndText(v)[i] == '-' || '0' <= EndText(v)[i] <= '9'
    ensures v < -1 ==> EndText(v) != "" && EndText(v)[0] == '-'
  {
    DecimalReads(if v < 0 then -v else v);
  }

  /** A range with an end below -1 prints with two dashes, and is not recognised. */
  lemma BelowRefused(r: Range)
    requires r.first < -1 || r.last < -1
    ensures Ends(RangeText(r)).None?
  {
    hide EndText;
    var t, a := RangeText(r), EndText(r.first);
    EndChars(r.first);
    EndChars(r.last);
    IndexLeast(t, '-', 0);
    assert t[|a|] == '-';
    var k := IndexFrom(t, '-', 0);
    if r.first < -1 {
      assert t[0] == '-' && k == 0;
      assert t[1..][|a| - 1] == '-';
    } else {
      EndReads(r.first);
      assert forall i :: 0 <= i < |a| ==> t[i] == a[i];
      assert k == |a|;
      assert t[k + 1..][0] == '-';
    }
  }

  /** The pattern accepts exactly the headers of ranges without such ends. */
  lemma HeaderMatches(rs: seq<Range>)
    requires rs != []
    ensures HeaderText(rs)[|BYTES|..] == Glue(RangeTexts(rs), ", ")
    ensures HeaderFits(HeaderText(rs)) <==> NoneBelow(rs)
  {
    hide Ends, RangeText, SkipSpace, Pieces, Glue;
    var ts := RangeTexts(rs);
    var body := Glue(ts, ", ");
    assert HeaderText(rs)[|BYTES|..] == body;
    forall i | 0 <= i < |rs|
      ensures ',' !in ts[i] && SkipSpace(" " + ts[i]) == ts[i]
      ensures Ends(ts[i]).Some? <==> rs[i].first >= -1 && rs[i].last >= -1
    {
      TextChars(rs[i]);
      if rs[i].first >= -1 && rs[i].last >= -1 { RangeReads(rs[i]); } else { BelowRefused(rs[i]); }
    }
    RawPieces(ts, "");
    assert "" + body == body && "" + ts[0] == ts[0];
    var ps := Pieces(body, ',');
    assert forall i :: 1 <= i < |ps| ==> SkipSpace(ps[i]) == ts[i];
  }

  /** MAIN RESULT.  Parsing a built header gives the ranges back if there is at least one, every end is
      absent or fits in 63 bits, and none has its ends the wrong way round; any other list is refused. */
  lemma RangeHeaderRoundTrip(rs: seq<Range>)
    ensures Parsed(HeaderText(rs))
         == if rs != [] && forall i :: 0 <= i < |rs| ==> RangeOk(rs[i]) then Some(rs) else None
  {
    hide Ends, RangeText, SkipSpace, HeaderFits, PieceRange;
    if rs == [] {
      EmptyHeader();
      assert RangeTexts(rs) == [];
    } else {
      HeaderMatches(rs);
      if NoneBelow(rs) {
        forall i | 0 <= i < |rs| ensures PieceOk(RangeTexts(rs)[i], ',') { TextChars(rs[i]); }
        SplitGlue(RangeTexts(rs), ',', ", ", "");
        assert "" + Glue(RangeTexts(rs), ", ") == Glue(RangeTexts(rs), ", ");
        PiecesRead(rs);
      }
    }
  }

  lemma EmptyHeader()
    ensures !HeaderFits(BYTES + Glue([], ", "))
  {
    assert (BYTES + "")[|BYTES|..] == "";
    PiecesSingle("", ',');
  }

  // ---------------------------------------------------------------- the loops

  /** `make_range_header` */
  method MakeRangeHeader(ranges: seq<Range>) returns (field: string)
    ensures field == HeaderText(ranges)
  {
    hide Glue, EndText;
    ghost var ts := RangeTexts(ranges);
    field := BYTES;
    GlueStep(ts, 0, ", ");
    var i := 0;
    while i < |ranges|
      invariant 0 <= i <= |ranges| && field == BYTES + Glue(ts[..i], ", ")
    {
      GlueStep(ts, i, ", ");
      ghost var g := Glue(ts[..i], ", ");
      ghost var before := if i == 0 then "" else g + ", ";
      if i != 0 { field := field + ", "; }
      assert field == BYTES + before;
      Assoc(BYTES, before, ts[i]);
      field := field + (EndText(ranges[i].first) + "-" + EndText(ranges[i].last));
      i := i + 1;
    }
    assert ts[..i] == ts;
  }

  /** `parse_range_header`: the pieces in turn, up to the first refusal. */
  method ParseRangeHeader(s: string) returns (ok: bool, ranges: seq<Range>)
    ensures ok <==> Parsed(s).Some?
    ensures ok ==> Parsed(s) == Some(ranges)
  {
    hide HeaderFits, PieceRange, SplitOn;
    ranges := [];
    if !HeaderFits(s) { return false, []; }
    BytesPrefix(s);
    var pieces := Split(s[|BYTES|..], ',');
    ghost var whole := PiecesRanges(pieces);
    var i := 0;
    assert pieces[0..] == pieces;
    assert whole.Some? ==> ranges + whole.value == whole.value;
    while i < |pieces|
      invariant 0 <= i <= |pieces|
      invariant whole.None? <==> PiecesRanges(pieces[i..]).None?
      invariant whole.Some? ==> whole.value == ranges + PiecesRanges(pieces[i..]).value
    {
      assert pieces[i..][1..] == pieces[i + 1..];
      var r := PieceRange(pieces[i]);
      if r.None? { return false, ranges; }
      if whole.Some? { Assoc(ranges, r.value, PiecesRanges(pieces[i + 1..]).value); }
      ranges := ranges + r.value;
      i := i + 1;
    }
    assert pieces[i..] == [] && ranges + [] == ranges;
    ok := true;
  }

  lemma BytesPrefix(s: string)
    requires HeaderFits(s)
    ensures |BYTES| <= |s|
  {
  }
}
