/** How much of a body the first piece must hold: state by state, a parser that started late stays on a
    course on which it never has the body's items. */
module FirstPiece {
  import opened Text
  import opened MultipartSpec
  import opened MultipartHeaders
  import opened MultipartRoundTrip
  import opened MultipartLate
  import MultipartParser

  // ---------------------------------------------------------------- the course

  /** Something collected is not as it should be, and will stay so; the content of an item still open may
      grow. */
  predicate WrongAt(items: seq<Item>, cs: seq<Item>, open: bool, i: nat)
    requires i < |cs|
  {
    || i >= |items| || cs[i].file != items[i].file
    || (!(open && i == |cs| - 1) && cs[i].content != items[i].content)
  }

  ghost predicate Wrong(items: seq<Item>, cs: seq<Item>, open: bool) {
    exists i: nat :: i < |cs| && WrongAt(items, cs, open, i)
  }

  /** A header section that began behind the place where the content of item `n` does. */
  ghost predicate LateHeaders(items: seq<Item>, b: string, n: nat, text: string) {
    n < |items| && |text| < ContentLeft(items, b, n) && IsSuffix(CRLF + text, Body(items, b))
  }

  /** The header section of the first item, without its header lines. */
  ghost predicate EmptyRecord(items: seq<Item>, b: string, p: Parser, text: string) {
    && items != [] && Collect(p.events) == [] && text == CRLF + AfterHeaders(items, b, 0)
    && items[0].file.contentType != "" && (p.state == 2 ==> p.file == NO_FILE)
  }

  /** A delimiter read behind the blank line of item `n`. */
  ghost predicate LateDelimiter(items: seq<Item>, b: string, n: nat, text: string) {
    n < |items| && |text| < ContentLeft(items, b, n) + 2
  }

  /** A content that began too late: `c` is what was delivered of it.  If it began before the end of the
      proper one, it will end there; if it is the last and began behind it, the proper one holds a
      line end, which the few bytes left do not. */
  ghost predicate LateContent(items: seq<Item>, b: string, k: nat, c: string, text: string) {
    && k < |items|
    && IsSuffix(c + text, Body(items, b)) && |c + text| < ContentLeft(items, b, k)
    && (|c + text| >= EndLeft(items, b, k) ==> |text| >= EndLeft(items, b, k))
    && (k == |items| - 1 && |c + text| < EndLeft(items, b, k) ==>
          && '\r' in items[k].content && |c + text| == EndLeft(items, b, k) - 2
          && (c == "" || |text| >= |Delimiter(b)|))
  }

  ghost predicate Late(items: seq<Item>, b: string, p: Parser, text: string) {
    var cs := Collect(p.events);
    match p.state
    case 0 => cs == [] && |text| < |Body(items, b)|
    case 1 => LateHeaders(items, b, |cs|, text) || EmptyRecord(items, b, p, text)
    case 2 => LateHeaders(items, b, |cs|, text) || EmptyRecord(items, b, p, text)
    case 3 => cs != [] && LateContent(items, b, |cs| - 1, cs[|cs| - 1].content, text)
    case 4 => LateDelimiter(items, b, |cs|, text)
    case _ => false
  }

  ghost predicate Doomed(items: seq<Item>, b: string, p: Parser, rest: string) {
    && IsSuffix(p.window + rest, Body(items, b))
    && (Wrong(items, Collect(p.events), p.state == 3) || Late(items, b, p, p.window + rest))
  }

  /** On that course what is collected is never the body's items. */
  lemma DoomedDiffers(items: seq<Item>, b: string, p: Parser, rest: string)
    requires items != [] && Doomed(items, b, p, rest) && BoundaryChars(b)
    ensures Collect(p.events) != items
  {
    hide Collect, AfterHeaders, Body, Tail, FromBoundary, Delimiter;
    var cs, text := Collect(p.events), p.window + rest;
    if !Wrong(items, cs, p.state == 3) && p.state == 3 && |cs| == |items| {
      var k := |cs| - 1;
      var c := cs[k].content;
      PartSuffix(items, b, k);
      if |c + text| < EndLeft(items, b, k) && c != "" { LastBytes(items, b, c, text); }
    }
  }

  /** What may have been delivered behind the last content is part of the dashes. */
  lemma LastBytes(items: seq<Item>, b: string, c: string, text: string)
    requires items != [] && BoundaryChars(b) && IsSuffix(c + text, Body(items, b))
    requires |c + text| == EndLeft(items, b, |items| - 1) - 2 && |text| >= |Delimiter(b)|
    ensures '\r' !in c
  {
    hide Body, AfterHeaders;
    var n := |items|;
    PartSuffix(items, b, n - 1);
    BoundarySuffix(items, b, n);
    SuffixInner(c + text, FromBoundary(items, b, n), Body(items, b));
    assert c + text == "--" + b + ("--" + CRLF);
    assert |c| <= 2;
    assert c == (c + text)[..|c|];
  }

  // ---------------------------------------------------------------- small steps

  lemma WindowDrop(w: string, rest: string, i: nat)
    requires i <= |w|
    ensures w[i..] + rest == (w + rest)[i..] && |w[i..] + rest| == |w + rest| - i
  {
  }

  lemma WrongHeader(items: seq<Item>, cs: seq<Item>, f: FileInfo)
    requires Wrong(items, cs, false)
    ensures Wrong(items, cs + [Item(f, "")], true)
  {
    var i: nat :| i < |cs| && WrongAt(items, cs, false, i);
    assert WrongAt(items, cs + [Item(f, "")], true, i);
  }

  function Grown(cs: seq<Item>, d: string): seq<Item>
    requires cs != []
  {
    var k := |cs| - 1;
    cs[..k] + [cs[k].(content := cs[k].content + d)]
  }

  lemma WrongContent(items: seq<Item>, cs: seq<Item>, d: string, open: bool)
    requires cs != [] && Wrong(items, cs, true)
    ensures Wrong(items, Grown(cs, d), open)
  {
    var i: nat :| i < |cs| && WrongAt(items, cs, true, i);
    assert WrongAt(items, Grown(cs, d), open, i);
  }

  lemma CollectGrown(es: seq<Event>, d: string)
    requires Collect(es) != []
    ensures Collect(es + [ContentSeen(d)]) == Grown(Collect(es), d)
  {
    hide Collect;
    var cs := Collect(es);
    var k := |cs| - 1;
    assert cs == cs[..k] + [cs[k]];
    CollectContent(es, cs[..k], cs[k], d);
  }

  // ---------------------------------------------------------------- state 0

  lemma DoomedStart(items: seq<Item>, b: string, p: Parser, rest: string)
    requires FormOk(items, b) && items != [] && BoundaryChars(b) && p.state == 0 && Doomed(items, b, p, rest)
    ensures Doomed(items, b, InitialBoundary(b, p).p, rest)
  {
    hide FirstDelimiter, FindFrom, FormOk, BoundaryChars, Doomed;
    var d := FirstDelimiter(b);
    var pos := Find(p.window, d);
    FirstNonEmpty(b);
    FindFromLeast(p.window, d, 0);
    if |d| > |p.window[pos..]| {
      DoomedDropped(items, b, p, rest, pos);
    } else {
      assert p.window[pos..][|d|..] == p.window[pos + |d|..];
      DoomedFound(items, b, p, rest, pos);
    }
  }

  lemma DoomedDropped(items: seq<Item>, b: string, p: Parser, rest: string, pos: nat)
    requires p.state == 0 && Doomed(items, b, p, rest) && pos <= |p.window|
    ensures Doomed(items, b, Erase(p, pos), rest)
  {
    hide Collect, Body, Wrong;
    WindowDrop(p.window, rest, pos);
    SuffixDrop(p.window + rest, Body(items, b), pos);
  }

  lemma DoomedFound(items: seq<Item>, b: string, p: Parser, rest: string, pos: nat)
    requires FormOk(items, b) && items != [] && BoundaryChars(b) && p.state == 0 && Doomed(items, b, p, rest)
    requires HasAt(p.window, FirstDelimiter(b), pos)
    ensures Doomed(items, b, p.(window := p.window[pos + |FirstDelimiter(b)|..], state := 1), rest)
  {
    hide Collect, Body, FirstDelimiter, FormOk, BoundaryChars, Wrong, LateHeaders, EmptyRecord;
    var i := pos + |FirstDelimiter(b)|;
    WindowDrop(p.window, rest, i);
    SuffixDrop(p.window + rest, Body(items, b), i);
    if !Wrong(items, Collect(p.events), false) {
      FoundLate(items, b, p, rest, pos);
    }
  }

  lemma FirstNonEmpty(b: string)
    ensures |FirstDelimiter(b)| >= 4
  {
  }

  lemma FoundLate(items: seq<Item>, b: string, p: Parser, rest: string, pos: nat)
    requires FormOk(items, b) && items != [] && BoundaryChars(b) && IsSuffix(p.window + rest, Body(items, b))
    requires |p.window + rest| < |Body(items, b)| && HasAt(p.window, FirstDelimiter(b), pos) && Collect(p.events) == []
    ensures var q := p.(window := p.window[pos + |FirstDelimiter(b)|..], state := 1);
      Late(items, b, q, q.window + rest)
  {
    hide Collect, Body, AfterHeaders, Tail, FormOk, BoundaryChars, FirstDelimiter;
    var d, body, text := FirstDelimiter(b), Body(items, b), p.window + rest;
    var i := |body| - |text| + pos;
    assert HasAt(text, d, pos) by { assert text[pos..pos + |d|] == p.window[pos..pos + |d|]; }
    SuffixHas(text, body, d, pos);
    FirstLate(items, b, i);
    var left := p.window[pos + |d|..] + rest;
    WindowDrop(p.window, rest, pos + |d|);
    SuffixDrop(text, body, pos + |d|);
    if |left| < ContentLeft(items, b, 0) {
      EndsLine(text, b, pos);
      BehindEnd(text, body, pos + |d|);
    } else {
      AllSuffixes(items, b, 0);
      SuffixInner(left, CRLF + AfterHeaders(items, b, 0), body);
    }
  }

  lemma EndsLine(text: string, b: string, pos: nat)
    requires HasAt(text, FirstDelimiter(b), pos)
    ensures var i := pos + |FirstDelimiter(b)|;
      2 <= i <= |text| && text[i - 2..i] == CRLF
  {
    var d := FirstDelimiter(b);
    var i := pos + |d|;
    assert text[i - 2..i] == text[pos..i][|d| - 2..] == d[|d| - 2..];
  }

  /** The text behind a line end that was read. */
  lemma BehindEnd(text: string, body: string, i: nat)
    requires IsSuffix(text, body) && 2 <= i <= |text| && text[i - 2..i] == CRLF
    ensures IsSuffix(CRLF + text[i..], body)
  {
    assert text[i - 2..] == CRLF + text[i..];
    SuffixDrop(text, body, i - 2);
  }

  // ---------------------------------------------------------------- states 1 and 2

  /** The blank line of a late header section: the content begins too late. */
  lemma BlankLate(items: seq<Item>, b: string, n: nat, text: string)
    requires items != [] && BoundaryChars(b) && LateHeaders(items, b, n, text) && CRLF <= text
    ensures LateContent(items, b, n, "", text[2..])
  {
    hide Body, AfterHeaders, Tail, FromBoundary, Delimiter;
    var body := Body(items, b);
    assert "" + text[2..] == text[2..];
    SuffixOf(CRLF, text);
    SuffixTrans(text, CRLF + text, body);
    SuffixDrop(text, body, 2);
    if n == |items| - 1 && |text[2..]| < EndLeft(items, b, n) {
      AllSuffixes(items, b, n);
      PartSuffix(items, b, n);
      LastBlank(items, b, text);
    }
  }

  /** A blank line that leaves less than the last delimiter is the line end of that delimiter, and comes
      behind a line end in the last content. */
  lemma LastBlank(items: seq<Item>, b: string, text: string)
    requires items != [] && BoundaryChars(b) && LateHeaders(items, b, |items| - 1, text) && CRLF <= text
    requires |text| - 2 < EndLeft(items, b, |items| - 1)
    ensures '\r' in items[|items| - 1].content && |text| - 2 == EndLeft(items, b, |items| - 1) - 2
  {
    hide Body, AfterHeaders, Tail, FromBoundary;
    var n := |items| - 1;
    var body, content, from := Body(items, b), items[n].content, FromBoundary(items, b, n + 1);
    AllSuffixes(items, b, n);
    PartSuffix(items, b, n);
    ContentParts(items, b, n);
    var end := CRLF + from;
    var a := content + end;
    assert a == AfterHeaders(items, b, n);
    ClosingText(items, b);
    var both := CRLF + text;
    SuffixInner(both, CRLF + a, body);
    NotAtNewline(both, a, 0);
    SuffixInner(both, a, body);
    LineClean(b);
    LastBlankIn(content, "--" + b + "--", both);
  }

  lemma LineClean(b: string)
    requires BoundaryChars(b)
    ensures '\r' !in "--" + b + "--" && '\n' !in "--" + b + "--"
  {
  }

  lemma ClosingText(items: seq<Item>, b: string)
    ensures FromBoundary(items, b, |items|) == "--" + b + "--" + CRLF
  {
    Assoc("--" + b, "--", CRLF);
  }

  /** Two line ends in a row, the second not before the end of `content`. */
  lemma LastBlankIn(content: string, line: string, both: string)
    requires '\r' !in line && '\n' !in line && line != ""
    requires IsSuffix(both, content + (CRLF + (line + CRLF))) && CRLF + CRLF <= both && |both| - 4 < |line| + 4
    ensures '\r' in content && |both| - 4 == |line| + 2
  {
    var a := content + (CRLF + (line + CRLF));
    var o := |a| - |both|;
    assert both == a[o..];
    assert a[o] == '\r' && a[o + 1] == '\n' && a[o + 2] == '\r' && a[o + 3] == '\n';
    var e := |content|;
    assert a[e] == '\r' && a[e + 1] == '\n';
    forall x | e + 2 <= x < e + 2 + |line| ensures a[x] != '\r' && a[x] != '\n' {
      assert a[x] == line[x - e - 2];
    }
    assert o + 2 <= e;
    assert content[o] == a[o];
  }

  lemma DoomedBlank(items: seq<Item>, b: string, p: Parser, rest: string)
    requires items != [] && BoundaryChars(b) && p.state == 2 && Doomed(items, b, p, rest) && HasAt(p.window, CRLF, 0)
    ensures Doomed(items, b, Erase(Emit(p, HeaderSeen(p.file)), 2).(state := 3), rest)
  {
    hide Collect, Body, AfterHeaders, Tail, BoundaryChars, Wrong, LateContent;
    var cs, text := Collect(p.events), p.window + rest;
    CollectHeader(p.events, p.file);
    WindowDrop(p.window, rest, 2);
    SuffixDrop(text, Body(items, b), 2);
    if Wrong(items, cs, false) {
      WrongHeader(items, cs, p.file);
    } else if LateHeaders(items, b, |cs|, text) {
      assert CRLF <= text by { assert p.window[0..2] == text[..2]; }
      BlankLate(items, b, |cs|, text);
    } else {
      WrongFirst(items, p.file);
    }
  }

  lemma WrongFirst(items: seq<Item>, f: FileInfo)
    requires items != [] && items[0].file != f
    ensures Wrong(items, [] + [Item(f, "")], true)
  {
    var cs := [] + [Item(f, "")];
    assert WrongAt(items, cs, true, 0);
  }

  lemma DoomedLine(items: seq<Item>, b: string, p: Parser, rest: string, pos: nat, f: FileInfo)
    requires items != [] && p.state == 2 && Doomed(items, b, p, rest)
    requires 0 < pos == Find(p.window, CRLF) < |p.window|
    ensures HasAt(p.window, CRLF, pos) && Doomed(items, b, Erase(p, pos + 2).(file := f), rest)
  {
    hide Collect, Body, AfterHeaders, Tail, Wrong, FindFrom;
    var text, body := p.window + rest, Body(items, b);
    FindFromLeast(p.window, CRLF, 0);
    WindowDrop(p.window, rest, pos + 2);
    SuffixDrop(text, body, pos + 2);
    assert text[pos..pos + 2] == p.window[pos..pos + 2];
    BehindEnd(text, body, pos + 2);
    if EmptyRecord(items, b, p, text) {
      var a := AfterHeaders(items, b, 0);
      NoCr("");
      assert "" + CRLF + a == CRLF + a;
      FindDelimiter(p.window, rest, "", CRLF, a);
    }
  }

  lemma {:induction false} DoomedHeaders(items: seq<Item>, b: string, p: Parser, rest: string)
    requires items != [] && BoundaryChars(b) && p.state == 2 && Doomed(items, b, p, rest)
    ensures var r := Headers(ServerReceiver, p);
      r.Go? || r.ok ==> Doomed(items, b, r.p, rest)
    decreases |p.window|
  {
    hide Headers, Doomed, OnHeader, FindFrom, Collect, BoundaryChars;
    var pos := Find(p.window, CRLF);
    MultipartParser.HeadersUnfold(ServerReceiver, p);
    if pos < |p.window| {
      FindFromLeast(p.window, CRLF, 0);
      if pos == 0 {
        DoomedBlank(items, b, p, rest);
      } else {
        var f := OnHeader(p.file, p.window[..pos]);
        if f.Some? {
          DoomedLine(items, b, p, rest, pos, f.value);
          DoomedHeaders(items, b, Erase(p, pos + 2).(file := f.value), rest);
        }
      }
    }
  }

  // ---------------------------------------------------------------- state 3

  /** A late content that reaches the end of the proper one is shorter. */
  lemma ShortContent(items: seq<Item>, b: string, cs: seq<Item>, d: string, text: string)
    requires FormOk(items, b) && cs != [] && |cs| <= |items|
    requires LateContent(items, b, |cs| - 1, cs[|cs| - 1].content, text)
    requires |text| == |d| + EndLeft(items, b, |cs| - 1)
    ensures Wrong(items, Grown(cs, d), false)
  {
    hide Body, AfterHeaders, Tail, FromBoundary, FormOk;
    var k := |cs| - 1;
    PartSuffix(items, b, k);
    var all := Grown(cs, d);
    assert |all[k].content| < |items[k].content|;
    assert WrongAt(items, all, false, k);
  }

  /** Where the next delimiter is, in a late content that began before the end of the proper one. */
  lemma NextEnd(items: seq<Item>, b: string, k: nat, w: string, rest: string)
    requires FormOk(items, b) && k < |items| && IsSuffix(w + rest, Body(items, b))
    requires EndLeft(items, b, k) <= |w + rest| < ContentLeft(items, b, k)
    ensures var i := |w + rest| - EndLeft(items, b, k);
      Find(w, Delimiter(b)) == if i + |Delimiter(b)| <= |w| then i else |w|
  {
    hide Body, AfterHeaders, Tail, FromBoundary, Find, Delimiter;
    var content, d, t := items[k].content, Delimiter(b), Tail(items, b, k + 1);
    AllSuffixes(items, b, k);
    ContentParts(items, b, k);
    PartSuffix(items, b, k);
    var a := AfterHeaders(items, b, k);
    SuffixInner(w + rest, a, Body(items, b));
    var m := |a| - |w + rest|;
    assert ItemOk(items[k], b);
    TailFree(content, m, d);
    assert a[m..] == content[m..] + (d + t);
    Assoc(content[m..], d, t);
    DelimiterShape(b);
    FindDelimiter(w, rest, content[m..], d, t);
  }

  lemma TakesContent(es: seq<Event>, d: string)
    ensures ServerReceiver(es + [ContentSeen(d)])
  {
  }

  lemma DoomedOpen(items: seq<Item>, b: string, p: Parser, rest: string)
    requires p.state == 3 && Doomed(items, b, p, rest)
    ensures Collect(p.events) != []
  {
    hide Collect;
  }

  lemma DoomedEnds(items: seq<Item>, b: string, p: Parser, rest: string, pos: nat)
    requires FormOk(items, b) && p.state == 3 && Doomed(items, b, p, rest)
    requires pos == Find(p.window, Delimiter(b)) < |p.window| && HasAt(p.window, Delimiter(b), pos)
    ensures var q := Erase(Emit(p, ContentSeen(p.window[..pos])), pos + |Delimiter(b)|).(state := 4);
      Doomed(items, b, q, rest)
  {
    hide Collect, Body, AfterHeaders, Tail, FromBoundary, Wrong, FormOk, Find, Delimiter;
    var cs, text, d := Collect(p.events), p.window + rest, Delimiter(b);
    DoomedOpen(items, b, p, rest);
    var head := p.window[..pos];
    CollectGrown(p.events, head);
    WindowDrop(p.window, rest, pos + |d|);
    SuffixDrop(text, Body(items, b), pos + |d|);
    if Wrong(items, cs, true) {
      WrongContent(items, cs, head, false);
    } else {
      var k, c := |cs| - 1, cs[|cs| - 1].content;
      if |c + text| >= EndLeft(items, b, k) {
        NextEnd(items, b, k, p.window, rest);
        ShortContent(items, b, cs, head, text);
      } else {
        assert HasAt(text, d, pos) by { assert text[pos..pos + |d|] == p.window[pos..pos + |d|]; }
        DelimiterShape(b);
        DelimiterFar(items, b, k + 1, text, pos);
      }
    }
  }

  lemma DoomedGoesOn(items: seq<Item>, b: string, p: Parser, rest: string)
    requires FormOk(items, b) && p.state == 3 && Doomed(items, b, p, rest)
    requires Find(p.window, Delimiter(b)) == |p.window| > |Delimiter(b)|
    ensures var len := |p.window| - |Delimiter(b)|;
      Doomed(items, b, Erase(Emit(p, ContentSeen(p.window[..len])), len), rest)
  {
    hide Collect, Body, AfterHeaders, Tail, FromBoundary, Wrong, FormOk, Find, Delimiter;
    var cs, text, d := Collect(p.events), p.window + rest, Delimiter(b);
    var len := |p.window| - |d|;
    DoomedOpen(items, b, p, rest);
    var head := p.window[..len];
    CollectGrown(p.events, head);
    WindowDrop(p.window, rest, len);
    SuffixDrop(text, Body(items, b), len);
    if Wrong(items, cs, true) {
      WrongContent(items, cs, head, true);
    } else {
      var k, c := |cs| - 1, cs[|cs| - 1].content;
      assert text == head + text[len..];
      Assoc(c, head, text[len..]);
      if |c + text| >= EndLeft(items, b, k) { NextEnd(items, b, k, p.window, rest); }
    }
  }

  lemma DoomedContent(items: seq<Item>, b: string, p: Parser, rest: string)
    requires FormOk(items, b) && p.state == 3 && Doomed(items, b, p, rest)
    ensures Doomed(items, b, Content(b, ServerReceiver, p).p, rest)
  {
    hide Doomed, FormOk, FindFrom, Delimiter, Collect, ServerReceiver;
    var d := Delimiter(b);
    DelimiterShape(b);
    if |d| <= |p.window| {
      var pos := Find(p.window, d);
      FindFromLeast(p.window, d, 0);
      if pos < |p.window| {
        TakesContent(p.events, p.window[..pos]);
        DoomedEnds(items, b, p, rest, pos);
      } else if |p.window| > |d| {
        TakesContent(p.events, p.window[..|p.window| - |d|]);
        DoomedGoesOn(items, b, p, rest);
      }
    }
  }

  // ---------------------------------------------------------------- state 4, and the whole loop

  lemma DoomedBoundary(items: seq<Item>, b: string, p: Parser, rest: string)
    requires p.state == 4 && Doomed(items, b, p, rest)
    ensures Doomed(items, b, Boundary(p).p, rest)
  {
    hide Collect, Body, AfterHeaders, Tail, Wrong;
    var text, body := p.window + rest, Body(items, b);
    if |p.window| >= 2 {
      WindowDrop(p.window, rest, 2);
      SuffixDrop(text, body, 2);
      WindowDrop(p.window, rest, |p.window|);
      SuffixDrop(text, body, |p.window|);
      assert p.window[|p.window|..] == "";
      assert text[0..2] == p.window[..2];
      if p.window[..2] == CRLF { BehindEnd(text, body, 2); }
    }
  }

  lemma DoomedTurn(items: seq<Item>, b: string, p: Parser, rest: string)
    requires FormOk(items, b) && items != [] && BoundaryChars(b) && p.state <= 4 && p.window != ""
    requires Doomed(items, b, p, rest)
    ensures var r := Turn(b, ServerReceiver, p);
      r.Go? || r.ok ==> Doomed(items, b, r.p, rest)
  {
    hide InitialBoundary, Headers, Content, Boundary, FormOk, BoundaryChars, Find, Collect, Wrong, Body, ServerReceiver;
    match p.state {
      case 0 => DoomedStart(items, b, p, rest);
      case 1 =>
      case 2 => DoomedHeaders(items, b, p, rest);
      case 3 => DoomedContent(items, b, p, rest);
      case 4 => DoomedBoundary(items, b, p, rest);
    }
  }

  lemma {:induction false} DoomedRun(items: seq<Item>, b: string, p: Parser, rest: string)
    requires FormOk(items, b) && items != [] && BoundaryChars(b) && p.state <= 4 && Doomed(items, b, p, rest)
    ensures var (q, ok) := Run(b, ServerReceiver, p);
      ok ==> Doomed(items, b, q, rest)
    decreases Rank(p)
  {
    hide Turn, Doomed, FormOk, BoundaryChars, ServerReceiver;
    if p.window != "" {
      DoomedTurn(items, b, p, rest);
      var r := Turn(b, ServerReceiver, p);
      if r.Go? { DoomedRun(items, b, r.p, rest); }
    }
  }

  lemma {:induction false} DoomedFeedAll(items: seq<Item>, b: string, p: Parser, pieces: seq<string>)
    requires FormOk(items, b) && items != [] && BoundaryChars(b) && p.state <= 4
    requires Doomed(items, b, p, Flatten(pieces))
    ensures var (q, ok) := FeedAll(b, ServerReceiver, p, pieces);
      ok ==> Doomed(items, b, q, "")
    decreases |pieces|
  {
    hide Run, FormOk, BoundaryChars, ServerReceiver, Collect, Body, Wrong;
    if pieces != [] {
      var piece, rest := pieces[0], Flatten(pieces[1..]);
      var fed := p.(window := p.window + piece);
      Assoc(p.window, piece, rest);
      assert Doomed(items, b, fed, rest);
      hide Doomed;
      DoomedRun(items, b, fed, rest);
      var (q, ok) := Run(b, ServerReceiver, fed);
      if ok { DoomedFeedAll(items, b, q, pieces[1..]); }
    }
  }

  /** A first piece too short to hold the first delimiter line is thrown away. */
  lemma {:induction false} ShortFirst(items: seq<Item>, b: string, pieces: seq<string>)
    requires FormOk(items, b) && items != [] && BoundaryChars(b)
    requires Flatten(pieces) == Body(items, b) && FirstLength(pieces) < |FirstDelimiter(b)|
    ensures !RoundTrips(items, b, pieces)
    decreases |pieces|
  {
    hide FormOk, BoundaryChars, ServerReceiver, Collect, Body, Feed, FirstDelimiter;
    var body := Body(items, b);
    NonEmpty(items, b);
    var piece, tail := pieces[0], pieces[1..];
    if piece == "" {
      assert Flatten(tail) == body;
      ShortFirst(items, b, tail);
      EmptyPiece(b, pieces);
    } else {
      FeedShort(b, piece);
      var rest := Flatten(tail);
      assert "" + rest == rest;
      SuffixOf(piece, rest);
      CollectNone();
      assert Doomed(items, b, START, rest);
      DoomedFeedAll(items, b, START, tail);
      var (q, ok) := FeedAll(b, ServerReceiver, START, tail);
      if ok { DoomedDiffers(items, b, q, ""); }
    }
  }

  lemma NonEmpty(items: seq<Item>, b: string)
    ensures Body(items, b) != ""
  {
  }

  lemma CollectNone()
    ensures Collect([]) == []
  {
  }

  /** MAIN RESULT.  For every form the conditions allow, of at most as many items as the server takes, and
      every way of cutting its body: the server collects exactly the items if and only if the first
      non-empty piece holds the whole first delimiter line. */
  lemma FirstPieceExact(items: seq<Item>, b: string, pieces: seq<string>)
    requires FormOk(items, b) && 0 < |items| <= 1024 && BoundaryChars(b) && Flatten(pieces) == Body(items, b)
    ensures RoundTrips(items, b, pieces) <==> FirstLength(pieces) >= |FirstDelimiter(b)|
  {
    hide RoundTrips, FormOk, BoundaryChars, Body, FirstDelimiter, FirstLength;
    if FirstLength(pieces) >= |FirstDelimiter(b)| {
      AnyCutRoundTrips(items, b, pieces);
    } else {
      ShortFirst(items, b, pieces);
    }
  }
}
