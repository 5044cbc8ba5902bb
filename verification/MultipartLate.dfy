/** A parser that has thrown away the beginning of a body never collects its items, whatever follows:
    state 0 discards a window without a complete delimiter line, and may take a later text for one. */
module MultipartLate {
  import opened Text
  import opened MultipartSpec
  import opened MultipartHeaders
  import opened MultipartRoundTrip
  import UrlCodec

  // ---------------------------------------------------------------- suffixes

  ghost predicate IsSuffix(t: string, s: string) { |t| <= |s| && s[|s| - |t|..] == t }

  lemma SuffixOf(a: string, t: string)
    ensures IsSuffix(t, a + t)
  {
  }

  lemma SuffixTrans(t: string, u: string, s: string)
    requires IsSuffix(t, u) && IsSuffix(u, s)
    ensures IsSuffix(t, s)
  {
    assert s[|s| - |t|..] == s[|s| - |u|..][|u| - |t|..];
  }

  /** Of two suffixes the shorter one is a suffix of the longer one. */
  lemma SuffixInner(t: string, u: string, s: string)
    requires IsSuffix(t, s) && IsSuffix(u, s) && |t| <= |u|
    ensures IsSuffix(t, u) && t == u[|u| - |t|..]
  {
    assert s[|s| - |t|..] == s[|s| - |u|..][|u| - |t|..];
  }

  lemma SuffixDrop(t: string, s: string, i: nat)
    requires IsSuffix(t, s) && i <= |t|
    ensures IsSuffix(t[i..], s)
  {
    assert s[|s| - |t[i..]|..] == s[|s| - |t|..][i..];
  }

  /** An occurrence in a suffix, seen from its end. */
  lemma SuffixHas(t: string, s: string, p: string, i: nat)
    requires IsSuffix(t, s) && i <= |t|
    ensures HasAt(t, p, i) <==> HasAt(s, p, |s| - |t| + i)
  {
    var o := |s| - |t|;
    if i + |p| <= |t| { assert t[i..i + |p|] == s[o + i..o + i + |p|]; }
  }

  // ---------------------------------------------------------------- places in the body

  /** How much of the body is left where the content of item `k` begins, and where it ends. */
  function ContentLeft(items: seq<Item>, b: string, k: nat): nat
    requires k < |items|
  {
    |AfterHeaders(items, b, k)|
  }

  function EndLeft(items: seq<Item>, b: string, k: nat): nat
    requires k < |items|
  {
    |Delimiter(b)| + |Tail(items, b, k + 1)|
  }

  /** The text from the boundary of delimiter `k` on. */
  function FromBoundary(items: seq<Item>, b: string, k: nat): string
    requires k <= |items|
  {
    "--" + b + Tail(items, b, k)
  }

  lemma PartSuffix(items: seq<Item>, b: string, k: nat)
    requires k < |items|
    ensures IsSuffix(CRLF + AfterHeaders(items, b, k), FromBoundary(items, b, k))
    ensures IsSuffix(AfterHeaders(items, b, k), CRLF + AfterHeaders(items, b, k))
    ensures IsSuffix(Delimiter(b) + Tail(items, b, k + 1), AfterHeaders(items, b, k))
    ensures Delimiter(b) + Tail(items, b, k + 1) == CRLF + FromBoundary(items, b, k + 1)
    ensures ContentLeft(items, b, k) == |items[k].content| + EndLeft(items, b, k)
    ensures EndLeft(items, b, k) == |FromBoundary(items, b, k + 1)| + 2
  {
    hide Lines, HeaderLines, AfterHeaders;
    var a, ls := AfterHeaders(items, b, k), Lines(HeaderLines(items[k].file));
    SuffixOf("--" + b, Tail(items, b, k));
    SuffixOf(CRLF, ls + (CRLF + a));
    SuffixOf(ls, CRLF + a);
    SuffixTrans(CRLF + a, ls + (CRLF + a), Tail(items, b, k));
    SuffixTrans(CRLF + a, Tail(items, b, k), FromBoundary(items, b, k));
    SuffixOf(CRLF, a);
    ContentParts(items, b, k);
    Assoc(CRLF, "--" + b, Tail(items, b, k + 1));
  }

  lemma ContentParts(items: seq<Item>, b: string, k: nat)
    requires k < |items|
    ensures AfterHeaders(items, b, k) == items[k].content + (Delimiter(b) + Tail(items, b, k + 1))
    ensures IsSuffix(Delimiter(b) + Tail(items, b, k + 1), AfterHeaders(items, b, k))
  {
    SuffixOf(items[k].content, Delimiter(b) + Tail(items, b, k + 1));
  }

  lemma {:induction false} BoundarySuffix(items: seq<Item>, b: string, k: nat)
    requires k <= |items|
    ensures IsSuffix(FromBoundary(items, b, k), Body(items, b))
  {
    hide AfterHeaders, Tail, ItemTexts;
    if k == 0 {
      BodyFrom(items, b, 0);
      assert items[0..] == items;
    } else {
      BoundarySuffix(items, b, k - 1);
      PartSuffix(items, b, k - 1);
      var a := AfterHeaders(items, b, k - 1);
      SuffixTrans(CRLF + a, FromBoundary(items, b, k - 1), Body(items, b));
      SuffixTrans(a, CRLF + a, Body(items, b));
      SuffixTrans(CRLF + FromBoundary(items, b, k), a, Body(items, b));
      SuffixOf(CRLF, FromBoundary(items, b, k));
      SuffixTrans(FromBoundary(items, b, k), CRLF + FromBoundary(items, b, k), Body(items, b));
    }
  }

  lemma AllSuffixes(items: seq<Item>, b: string, k: nat)
    requires k < |items|
    ensures IsSuffix(CRLF + AfterHeaders(items, b, k), Body(items, b))
    ensures IsSuffix(AfterHeaders(items, b, k), Body(items, b))
    ensures IsSuffix(CRLF + FromBoundary(items, b, k + 1), Body(items, b))
  {
    hide AfterHeaders, Tail, Body, FromBoundary, Delimiter;
    var a := AfterHeaders(items, b, k);
    BoundarySuffix(items, b, k);
    PartSuffix(items, b, k);
    SuffixTrans(CRLF + a, FromBoundary(items, b, k), Body(items, b));
    SuffixTrans(a, CRLF + a, Body(items, b));
    SuffixTrans(CRLF + FromBoundary(items, b, k + 1), a, Body(items, b));
  }

  // ---------------------------------------------------------------- where delimiters are

  /** A line without CRLF inside, and its end: no delimiter begins here, unless one follows at once. */
  lemma LineFree(line: string, t: string, b: string, o: nat)
    requires !Occurs(line, CRLF) && (t != "" ==> t[0] != '-') && o < |line| + 2
    ensures !HasAt(line + CRLF + t, Delimiter(b), o)
  {
    var s, d := line + CRLF + t, Delimiter(b);
    CrlfAt(line, t, o);
    if HasAt(s, d, o) { DelimiterChars(s, b, o); }
  }

  lemma DelimiterChars(s: string, b: string, o: nat)
    requires HasAt(s, Delimiter(b), o)
    ensures o + 2 < |s| && s[o] == '\r' && s[o + 1] == '\n' && s[o + 2] == '-'
  {
    var d := Delimiter(b);
    var w := s[o..o + |d|];
    assert s[o] == w[0] && s[o + 1] == w[1] && s[o + 2] == w[2];
  }

  /** The first line end. */
  lemma CrlfAt(line: string, t: string, o: nat)
    requires !Occurs(line, CRLF) && o < |line| + 2
    ensures var s := line + CRLF + t;
      o + 2 <= |s| && s[o] == '\r' && s[o + 1] == '\n' ==> o == |line|
  {
    var s := line + CRLF + t;
    if o + 2 <= |line| {
      assert line[o..o + 2] == [s[o], s[o + 1]];
      assert !HasAt(line, CRLF, o);
    }
  }

  /** Behind the line: the same question about the rest. */
  lemma LineSkip(line: string, t: string, p: string, o: nat)
    requires o >= |line| + 2
    ensures HasAt(line + CRLF + t, p, o) <==> HasAt(t, p, o - |line| - 2)
  {
    var s, k := line + CRLF + t, |line| + 2;
    assert s[k..] == t;
    if o + |p| <= |s| { assert s[o..o + |p|] == t[o - k..o - k + |p|]; }
  }

  lemma NoCr(line: string)
    requires '\r' !in line
    ensures !Occurs(line, CRLF)
  {
    assert forall i :: HasAt(line, CRLF, i) ==> line[i] == CRLF[0];
  }

  /** The header lines and what they look like. */
  lemma LinesShape(file: FileInfo, content: string, b: string)
    requires ItemOk(Item(file, content), b)
    ensures var d, t := DispositionLine(file), CONTENT_TYPE + " " + file.contentType;
      && d != "" && !Occurs(d, CRLF) && d[0] == 'C' && d[|d| - 1] == '"'
      && (file.contentType != "" ==> !Occurs(t, CRLF) && t[0] == 'C')
      && forall rest :: Lines(HeaderLines(file)) + rest
           == d + CRLF + (if file.contentType == "" then rest else t + CRLF + rest)
  {
    hide DispositionLine, Occurs;
    DispositionEnd(file);
    DispositionRead(file);
    if file.contentType != "" { TypeRead(file); }
    forall rest ensures Lines(HeaderLines(file)) + rest
      == DispositionLine(file) + CRLF
         + (if file.contentType == "" then rest else CONTENT_TYPE + " " + file.contentType + CRLF + rest)
    {
      LinesText(file, rest);
    }
  }

  lemma LinesText(file: FileInfo, rest: string)
    ensures Lines(HeaderLines(file)) + rest
      == DispositionLine(file) + CRLF
         + (if file.contentType == "" then rest else CONTENT_TYPE + " " + file.contentType + CRLF + rest)
  {
    hide DispositionLine;
    var ls := HeaderLines(file);
    LinesFrom(ls, 0, rest);
    assert ls[0..] == ls;
    if file.contentType == "" {
      assert ls[1..] == [] && Lines([]) + rest == rest;
    } else {
      LinesFrom(ls, 1, rest);
      assert ls[2..] == [] && Lines([]) + rest == rest;
    }
  }

  lemma DispositionEnd(file: FileInfo)
    ensures var d := DispositionLine(file);
      d != "" && d[0] == 'C' && d[|d| - 1] == '"'
  {
    hide Glue;
    var t := Glue(Settings(file), "; ");
    SettingsEnd(file);
    var d := DispositionLine(file);
    assert d[|d| - 1] == t[|t| - 1];
  }

  lemma SettingsEnd(file: FileInfo)
    ensures var t := Glue(Settings(file), "; ");
      t != "" && t[|t| - 1] == '"'
  {
    var n, f := Setting("name", file.name), Setting("filename", file.filename);
    if file.filename == "" {
      assert Settings(file) == [n];
    } else {
      assert Settings(file) == [n, f] && [n, f][1..] == [f];
      assert Glue([n, f], "; ") == n + "; " + f;
    }
  }

  /** Between the boundary of delimiter `k` and the blank line behind its headers no delimiter begins; nor
      behind the boundary of the closing one. */
  lemma HeadersFree(items: seq<Item>, b: string, k: nat, o: nat)
    requires FormOk(items, b) && k <= |items|
    requires k < |items| ==> o + 2 + ContentLeft(items, b, k) < |FromBoundary(items, b, k)|
    ensures !HasAt(FromBoundary(items, b, k), Delimiter(b), o)
  {
    hide AfterHeaders, Delimiter, Lines, HeaderLines, DispositionLine;
    var line := "--" + b;
    if k == |items| {
      assert FromBoundary(items, b, k) == line + "--" + CRLF + "";
      NoCr(line + "--");
      ShortEnd(line + "--", b, o);
    } else {
      var file, rest := items[k].file, CRLF + AfterHeaders(items, b, k);
      var t := Lines(HeaderLines(file)) + rest;
      assert ItemOk(items[k], b);
      LinesShape(file, items[k].content, b);
      NoCr(line);
      assert FromBoundary(items, b, k) == line + CRLF + t by { Assoc(line, CRLF, t); }
      if o < |line| + 2 {
        LineFree(line, t, b, o);
      } else {
        LineSkip(line, t, Delimiter(b), o);
        LinesFree(file, items[k].content, rest, b, o - |line| - 2);
      }
    }
  }

  lemma ShortEnd(line: string, b: string, o: nat)
    requires !Occurs(line, CRLF)
    ensures !HasAt(line + CRLF + "", Delimiter(b), o)
  {
    if o < |line| + 2 { LineFree(line, "", b, o); }
  }

  lemma LinesFree(file: FileInfo, content: string, rest: string, b: string, o: nat)
    requires ItemOk(Item(file, content), b) && rest != "" && rest[0] == '\r'
    requires o + |rest| < |Lines(HeaderLines(file)) + rest|
    ensures !HasAt(Lines(HeaderLines(file)) + rest, Delimiter(b), o)
  {
    hide Delimiter, Lines, HeaderLines, DispositionLine;
    LinesShape(file, content, b);
    var d, t := DispositionLine(file), CONTENT_TYPE + " " + file.contentType;
    var more := if file.contentType == "" then rest else t + CRLF + rest;
    assert Lines(HeaderLines(file)) + rest == d + CRLF + more;
    if o < |d| + 2 {
      LineFree(d, more, b, o);
    } else {
      LineSkip(d, more, Delimiter(b), o);
      LineFree(t, rest, b, o - |d| - 2);
    }
  }

  /** The same, for a text that is a suffix of the body and begins behind the content of item `k - 1`. */
  lemma DelimiterFar(items: seq<Item>, b: string, k: nat, text: string, i: nat)
    requires FormOk(items, b) && 0 < k <= |items| && IsSuffix(text, Body(items, b))
    requires |text| < EndLeft(items, b, k - 1) && HasAt(text, Delimiter(b), i)
    ensures k < |items| && |text| - i <= ContentLeft(items, b, k) + 2
  {
    hide AfterHeaders, Tail, Body, FromBoundary;
    var from := FromBoundary(items, b, k);
    PartSuffix(items, b, k - 1);
    AllSuffixes(items, b, k - 1);
    SuffixInner(text, CRLF + from, Body(items, b));
    DelimiterChars(text, b, i);
    NotAtNewline(text, from, i);
    var o := |from| - (|text| - i);
    SuffixHas(text, CRLF + from, Delimiter(b), i);
    SuffixOf(CRLF, from);
    SuffixHas(from, CRLF + from, Delimiter(b), o);
    if k == |items| || o + 2 + ContentLeft(items, b, k) < |from| { HeadersFree(items, b, k, o); }
  }

  lemma NotAtNewline(text: string, from: string, i: nat)
    requires IsSuffix(text, CRLF + from) && |text| < |CRLF + from| && i < |text| && text[i] == '\r'
    ensures |text| - i <= |from|
  {
    var u := CRLF + from;
    assert text[i] == u[|u| - |text| + i];
  }

  // ---------------------------------------------------------------- where a late start can be

  /** A first delimiter line found behind the start of the body lies behind the header lines of the first
      item; or it ends its type line, and the blank line follows. */
  lemma FirstLate(items: seq<Item>, b: string, i: nat)
    requires FormOk(items, b) && items != [] && BoundaryChars(b) && i > 0
    requires HasAt(Body(items, b), FirstDelimiter(b), i)
    ensures var left := |Body(items, b)| - i - |FirstDelimiter(b)|;
      || left < ContentLeft(items, b, 0)
      || (left == ContentLeft(items, b, 0) + 2 && items[0].file.contentType != "")
  {
    hide AfterHeaders, Body, Lines, HeaderLines, DispositionLine, Occurs, FirstDelimiter, BoundaryChars;
    var line, file, rest := "--" + b, items[0].file, CRLF + AfterHeaders(items, b, 0);
    var body, t := Body(items, b), Lines(HeaderLines(file)) + rest;
    BodyLines(items, b);
    assert ItemOk(items[0], b);
    LinesStart(file, items[0].content, b, rest);
    BoundaryLast(b);
    var c := i + |line|;
    FoundChars(body, b, i);
    SecondEnd(line, t, c);
    var c' := c - |line| - 2;
    assert t[c'] == body[c] && t[c' + 1] == body[c + 1] && t[c' - 1] == body[c - 1];
    LineEndLate(file, items[0].content, rest, b, t, c');
  }

  /** A line end behind the first line is not at the beginning of the second. */
  lemma SecondEnd(line: string, t: string, c: nat)
    requires '\r' !in line && t != "" && t[0] != '\r' && c > |line|
    requires var s := line + CRLF + t;
      c + 2 <= |s| && s[c] == '\r'
    ensures c > |line| + 2
  {
  }

  lemma LinesStart(file: FileInfo, content: string, b: string, rest: string)
    requires ItemOk(Item(file, content), b)
    ensures var t := Lines(HeaderLines(file)) + rest;
      t != "" && t[0] == 'C'
  {
    hide Lines, HeaderLines, DispositionLine, Occurs;
    LinesShape(file, content, b);
    var d, y := DispositionLine(file), CONTENT_TYPE + " " + file.contentType;
    assert Lines(HeaderLines(file)) + rest == d + CRLF + (if file.contentType == "" then rest else y + CRLF + rest);
  }

  lemma BodyLines(items: seq<Item>, b: string)
    requires items != []
    ensures Body(items, b)
      == "--" + b + CRLF + (Lines(HeaderLines(items[0].file)) + (CRLF + AfterHeaders(items, b, 0)))
  {
    hide AfterHeaders, Lines, HeaderLines, ItemTexts;
    BodyFrom(items, b, 0);
    assert items[0..] == items;
    Assoc("--" + b, CRLF, Lines(HeaderLines(items[0].file)) + (CRLF + AfterHeaders(items, b, 0)));
  }

  /** The last character of a boundary line: no quote, no line end. */
  lemma BoundaryLast(b: string)
    requires BoundaryChars(b)
    ensures var line := "--" + b;
      '\r' !in line && line[|line| - 1] != '"' && line[|line| - 1] != '\n'
  {
    var line := "--" + b;
    assert b != "" ==> line[|line| - 1] == b[|b| - 1];
  }

  lemma FoundChars(body: string, b: string, i: nat)
    requires HasAt(body, FirstDelimiter(b), i)
    ensures var line, c := "--" + b, i + |"--" + b|;
      && c + 2 <= |body| && body[c] == '\r' && body[c + 1] == '\n' && body[c - 1] == line[|line| - 1]
      && |FirstDelimiter(b)| == |line| + 2
  {
    var d, line := FirstDelimiter(b), "--" + b;
    var c := i + |line|;
    var w := body[i..i + |d|];
    assert w[|line|] == body[c] && w[|line| + 1] == body[c + 1] && w[|line| - 1] == body[c - 1];
  }

  /** A line end in the headers that a boundary could stand before is that of the type line. */
  lemma LineEndLate(file: FileInfo, content: string, rest: string, b: string, t: string, c: nat)
    requires ItemOk(Item(file, content), b) && CRLF <= rest && t == Lines(HeaderLines(file)) + rest
    requires 0 < c && c + 2 <= |t| && t[c] == '\r' && t[c + 1] == '\n' && t[c - 1] != '"' && t[c - 1] != '\n'
    ensures |t| - c - 2 < |rest| - 2 || (|t| - c - 2 == |rest| && file.contentType != "")
  {
    hide Lines, HeaderLines, DispositionLine, Occurs;
    LinesShape(file, content, b);
    var d, y := DispositionLine(file), CONTENT_TYPE + " " + file.contentType;
    var more := if file.contentType == "" then rest else y + CRLF + rest;
    assert t == d + CRLF + more;
    assert t[|d| - 1] == '"' && t[|d| + 1] == '\n';
    if c < |d| + 2 {
      CrlfAt(d, more, c);
    } else {
      var c' := c - |d| - 2;
      assert t[c] == more[c'] && t[c + 1] == more[c' + 1];
      if file.contentType == "" {
        RestEnd(rest, c');
      } else {
        assert more[|y| + 1] == '\n' && t[|d| + 2 + |y| + 1] == more[|y| + 1];
        if c' < |y| + 2 {
          CrlfAt(y, rest, c');
        } else {
          assert more[c'] == rest[c' - |y| - 2];
          RestEnd(rest, c' - |y| - 2);
        }
      }
    }
  }

  lemma RestEnd(rest: string, c: nat)
    requires CRLF <= rest && c + 2 <= |rest| && c > 0 && rest[c] == '\r'
    ensures c >= 2
  {
  }
}
