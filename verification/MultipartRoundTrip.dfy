/** The parser undoes the serializer however the body is cut into pieces. */
module MultipartRoundTrip {
  import opened Text
  import opened MultipartSpec
  import opened MultipartHeaders
  import UrlCodec

  /** `CPPHTTPLIB_MULTIPART_FORM_DATA_FILE_MAX_COUNT` */
  const MAX_FILES := 1024

  // ---------------------------------------------------------------- what the server collects

  function Collect(es: seq<Event>): seq<Item> {
    if es == [] then []
    else
      var items := Collect(es[..|es| - 1]);
      match es[|es| - 1]
      case HeaderSeen(f) => items + [Item(f, "")]
      case ContentSeen(d) =>
        if items == [] then []
        else
          var last := items[|items| - 1];
          items[..|items| - 1] + [last.(content := last.content + d)]
  }

  /** The server's callbacks: a header beyond the file limit is refused. */
  function ServerReceiver(es: seq<Event>): bool {
    es != [] && es[|es| - 1].HeaderSeen? ==> |Collect(es)| <= MAX_FILES
  }

  lemma CollectHeader(es: seq<Event>, f: FileInfo)
    ensures Collect(es + [HeaderSeen(f)]) == Collect(es) + [Item(f, "")]
  {
    assert (es + [HeaderSeen(f)])[..|es|] == es;
  }

  lemma CollectContent(es: seq<Event>, done: seq<Item>, last: Item, d: string)
    requires Collect(es) == done + [last]
    ensures Collect(es + [ContentSeen(d)]) == done + [last.(content := last.content + d)]
  {
    assert (es + [ContentSeen(d)])[..|es|] == es;
    assert (done + [last])[..|done|] == done;
  }

  // ---------------------------------------------------------------- items that survive

  ghost predicate ItemOk(item: Item, b: string) {
    && NameOk(item.file.name) && NameOk(item.file.filename)
    && NoOuterBlanks(item.file.contentType) && !Occurs(item.file.contentType, CRLF)
    && |DispositionLine(item.file)| < MAX_HEADER
    && |CONTENT_TYPE| + 1 + |item.file.contentType| < MAX_HEADER
    && !Occurs(item.content, Delimiter(b))
  }

  ghost predicate FormOk(items: seq<Item>, b: string) {
    && '\r' !in b
    && forall k :: 0 <= k < |items| ==> ItemOk(items[k], b)
  }

  // ---------------------------------------------------------------- the body by place

  /** The text after the boundary of delimiter `k`. */
  function Tail(items: seq<Item>, b: string, k: nat): string
    requires k <= |items|
    decreases |items| - k, 1
  {
    if k == |items| then "--" + CRLF
    else CRLF + (Lines(HeaderLines(items[k].file)) + (CRLF + AfterHeaders(items, b, k)))
  }

  function AfterHeaders(items: seq<Item>, b: string, k: nat): string
    requires k < |items|
    decreases |items| - k, 0
  {
    items[k].content + (Delimiter(b) + Tail(items, b, k + 1))
  }

  lemma ItemBefore(d: string, c: string, ls: string, x: string, t: string)
    ensures (d + (c + (ls + (c + (x + c))))) + (d + t) == d + (c + (ls + (c + (x + ((c + d) + t)))))
  {
    hide *;
    var r := d + t;
    Assoc(c, d, t);
    Assoc(x, c, r);
    Assoc(c, x + c, r);
    Assoc(ls, c + (x + c), r);
    Assoc(c, ls + (c + (x + c)), r);
    Assoc(d, c + (ls + (c + (x + c))), r);
  }

  /** The body from item `k` on. */
  lemma {:induction false} BodyFrom(items: seq<Item>, b: string, k: nat)
    requires k <= |items|
    ensures ItemTexts(items[k..], b) + Closing(b) == "--" + b + Tail(items, b, k)
    decreases |items| - k
  {
    if k == |items| {
      assert items[k..] == [];
      assert [] + Closing(b) == Closing(b);
    } else {
      BodyFrom(items, b, k + 1);
      ItemBefore("--" + b, CRLF, Lines(HeaderLines(items[k].file)), items[k].content, Tail(items, b, k + 1));
      ItemTextsFrom(items, b, k);
      Assoc(ItemText(items[k], b), ItemTexts(items[k + 1..], b), Closing(b));
    }
  }

  lemma ItemTextsFrom(items: seq<Item>, b: string, k: nat)
    requires k < |items|
    ensures ItemTexts(items[k..], b) == ItemText(items[k], b) + ItemTexts(items[k + 1..], b)
  {
    assert items[k..][1..] == items[k + 1..];
  }

  // ---------------------------------------------------------------- where the parser is

  /** The file record once `j` of an item's header lines are read. */
  function FileAfter(file: FileInfo, j: nat): FileInfo {
    if j == 0 then NO_FILE else if j == 1 then file.(contentType := "") else file
  }

  /** Nothing of the body is consumed yet. */
  ghost predicate AtStart(items: seq<Item>, b: string, p: Parser, rest: string) {
    && p.state == 0 && items != [] && p.window + rest == Body(items, b) && Collect(p.events) == []
    && (p.window == "" || |FirstDelimiter(b)| <= |p.window|)
  }

  /** `j` header lines of item `k` are read. */
  ghost predicate AtHeaders(items: seq<Item>, b: string, k: nat, j: nat, p: Parser, rest: string) {
    && k < |items| && j <= |HeaderLines(items[k].file)|
    && ((p.state == 2 && p.file == FileAfter(items[k].file, j)) || (p.state == 1 && j == 0))
    && p.window + rest == Lines(HeaderLines(items[k].file)[j..]) + (CRLF + AfterHeaders(items, b, k))
    && Collect(p.events) == items[..k] && k <= MAX_FILES
  }

  /** `m` content bytes of item `k` are delivered. */
  ghost predicate AtContent(items: seq<Item>, b: string, k: nat, m: nat, p: Parser, rest: string) {
    && k < |items| && m <= |items[k].content| && k < MAX_FILES
    && p.state == 3
    && p.window + rest == items[k].content[m..] + (Delimiter(b) + Tail(items, b, k + 1))
    && Collect(p.events) == items[..k] + [items[k].(content := items[k].content[..m])]
  }

  /** Delimiter `k` is read, but not what follows its boundary. */
  ghost predicate AtDelimiter(items: seq<Item>, b: string, k: nat, p: Parser, rest: string) {
    && 0 < k <= |items| && k <= MAX_FILES && p.state == 4
    && p.window + rest == Tail(items, b, k) && Collect(p.events) == items[..k]
  }

  /** The closing delimiter is read. */
  ghost predicate AtClosed(items: seq<Item>, p: Parser, rest: string) {
    && items != [] && |items| <= MAX_FILES && p.valid && Collect(p.events) == items
    && ((p.state == 4 && p.window + rest in [CRLF, "\n", ""]) || (p.state == 1 && p.window + rest == ""))
  }

  // ---------------------------------------------------------------- one turn keeps the place

  lemma TurnStart(items: seq<Item>, b: string, p: Parser, rest: string)
    requires AtStart(items, b, p, rest) && p.window != ""
    ensures var r := InitialBoundary(b, p);
      r.Go? && AtHeaders(items, b, 0, 0, r.p, rest)
  {
    hide Collect, Lines, ItemTexts, AfterHeaders;
    var d := FirstDelimiter(b);
    BodyFrom(items, b, 0);
    assert items[0..] == items;
    var ls := HeaderLines(items[0].file);
    assert ls[0..] == ls;
    var after := Lines(ls) + (CRLF + AfterHeaders(items, b, 0));
    Assoc("--" + b, CRLF, after);
    Cut(p.window, rest, d, after);
    FindIs(p.window, d, 0);
    assert p.window[0..] == p.window;
    assert items[..0] == [];
  }

  lemma TailFree(c: string, m: nat, d: string)
    requires m <= |c| && !Occurs(c, d)
    ensures !Occurs(c[m..], d)
  {
    var l := c[m..];
    forall i ensures !HasAt(l, d, i) {
      if 0 <= i && i + |d| <= |l| {
        assert l[i..i + |d|] == c[m + i..m + i + |d|];
        assert !HasAt(c, d, m + i);
      }
    }
  }

  lemma DelimiterShape(b: string)
    ensures |Delimiter(b)| >= 4 && ('\r' !in b ==> Delimiter(b)[0] !in Delimiter(b)[1..])
  {
    assert Delimiter(b)[1..] == "\n--" + b;
  }

  /** The whole remaining content and its delimiter are in the window. */
  lemma TurnContentEnds(items: seq<Item>, b: string, k: nat, m: nat, p: Parser, rest: string)
    requires AtContent(items, b, k, m, p, rest)
    requires |items[k].content| - m + |Delimiter(b)| <= |p.window|
    requires Find(p.window, Delimiter(b)) == |items[k].content| - m
    ensures var r := Content(b, ServerReceiver, p);
      r.Go? && AtDelimiter(items, b, k + 1, r.p, rest)
  {
    hide Collect, Tail, Find, Delimiter;
    DelimiterShape(b);
    var d, c := Delimiter(b), items[k].content;
    var l, t := c[m..], Tail(items, b, k + 1);
    Cut(p.window, rest, l, d + t);
    Assoc(l, d, t);
    Cut(p.window, rest, l + d, t);
    CollectContent(p.events, items[..k], items[k].(content := c[..m]), l);
    assert c[..m] + l == c;
    assert items[..k + 1] == items[..k] + [items[k]];
  }

  /** Otherwise all but the last bytes of the window are content. */
  lemma TurnContentGoesOn(items: seq<Item>, b: string, k: nat, m: nat, p: Parser, rest: string)
    requires AtContent(items, b, k, m, p, rest)
    requires |Delimiter(b)| <= |p.window| < |items[k].content| - m + |Delimiter(b)|
    requires Find(p.window, Delimiter(b)) == |p.window|
    ensures var r := Content(b, ServerReceiver, p);
      r.Stop? && r.ok && AtContent(items, b, k, m + |p.window| - |Delimiter(b)|, r.p, rest)
  {
    hide Collect, Tail, Find, Delimiter;
    var d, c := Delimiter(b), items[k].content;
    var len := |p.window| - |d|;
    var l, t := c[m..m + len], Tail(items, b, k + 1);
    if len > 0 {
      assert c[m..] == l + c[m + len..];
      Assoc(l, c[m + len..], d + t);
      Cut(p.window, rest, l, c[m + len..] + (d + t));
      CollectContent(p.events, items[..k], items[k].(content := c[..m]), l);
      assert c[..m] + l == c[..m + len];
    }
  }

  lemma TurnContent(items: seq<Item>, b: string, k: nat, m: nat, p: Parser, rest: string) returns (m': nat)
    requires FormOk(items, b) && AtContent(items, b, k, m, p, rest)
    ensures var r := Content(b, ServerReceiver, p);
      if r.Go? then AtDelimiter(items, b, k + 1, r.p, rest)
      else r.ok && rest != "" && AtContent(items, b, k, m', r.p, rest)
  {
    hide Collect, Tail, Find, Delimiter;
    var d, c := Delimiter(b), items[k].content;
    var t := Tail(items, b, k + 1);
    DelimiterShape(b);
    assert ItemOk(items[k], b);
    TailFree(c, m, d);
    assert c[m..] + d + t == p.window + rest by { Assoc(c[m..], d, t); }
    FindDelimiter(p.window, rest, c[m..], d, t);
    m' := m;
    if |c| - m + |d| <= |p.window| {
      TurnContentEnds(items, b, k, m, p, rest);
    } else if |d| <= |p.window| {
      TurnContentGoesOn(items, b, k, m, p, rest);
      m' := m + |p.window| - |d|;
    }
  }

  // ---------------------------------------------------------------- headers

  /** Each header line is read as the serializer meant it, and is short enough. */
  lemma LineRead(file: FileInfo, j: nat, b: string, content: string)
    requires ItemOk(Item(file, content), b) && j < |HeaderLines(file)|
    ensures var line := HeaderLines(file)[j];
      && line != "" && !Occurs(line, CRLF) && |line| < MAX_HEADER
      && OnHeader(FileAfter(file, j), line) == Some(FileAfter(file, j + 1))
  {
    hide OnHeader, Glue, Settings;
    if j == 0 {
      DispositionRead(file);
    } else {
      TypeRead(file);
    }
  }

  /** All of an item's header lines fill the file record. */
  lemma FileComplete(file: FileInfo)
    ensures FileAfter(file, |HeaderLines(file)|) == file
  {
  }

  lemma LinesFrom(ls: seq<string>, j: nat, t: string)
    requires j < |ls|
    ensures Lines(ls[j..]) + t == ls[j] + (CRLF + (Lines(ls[j + 1..]) + t))
    ensures Lines(ls[j..]) + t == ls[j] + CRLF + (Lines(ls[j + 1..]) + t)
  {
    assert ls[j..][1..] == ls[j + 1..];
    Assoc(ls[j], CRLF, Lines(ls[j + 1..]));
    Assoc(CRLF, Lines(ls[j + 1..]), t);
    Assoc(ls[j], CRLF + Lines(ls[j + 1..]), t);
    Assoc(ls[j], CRLF, Lines(ls[j + 1..]) + t);
  }

  /** What the next CRLF ends: header line `j`, or the blank line after the last one. */
  lemma HeaderFound(items: seq<Item>, b: string, k: nat, j: nat, p: Parser, rest: string)
    returns (line: string, after: string)
    requires FormOk(items, b) && AtHeaders(items, b, k, j, p, rest)
    ensures var ls := HeaderLines(items[k].file);
      if j < |ls| then line == ls[j] && after == Lines(ls[j + 1..]) + (CRLF + AfterHeaders(items, b, k))
      else line == "" && after == AfterHeaders(items, b, k)
    ensures p.window + rest == line + CRLF + after && |line| < MAX_HEADER
    ensures Find(p.window, CRLF) == if |line| + 2 <= |p.window| then |line| else |p.window|
  {
    hide Find, Lines, HeaderLines, AfterHeaders, Collect, OnHeader;
    var ls := HeaderLines(items[k].file);
    assert ItemOk(items[k], b);
    if j < |ls| {
      LineRead(items[k].file, j, b, items[k].content);
      LinesFrom(ls, j, CRLF + AfterHeaders(items, b, k));
      line, after := ls[j], Lines(ls[j + 1..]) + (CRLF + AfterHeaders(items, b, k));
    } else {
      LinesEnd(ls);
      line, after := "", AfterHeaders(items, b, k);
      assert "" + (CRLF + after) == CRLF + after == "" + CRLF + after;
    }
    FindDelimiter(p.window, rest, line, CRLF, after);
  }

  lemma LinesEnd(ls: seq<string>)
    ensures Lines(ls[|ls|..]) == ""
  {
  }

  /** The blank line: the file record is reported, unless the limit is reached. */
  lemma TurnBlankLine(items: seq<Item>, b: string, k: nat, j: nat, p: Parser, rest: string)
    requires AtHeaders(items, b, k, j, p, rest) && j == |HeaderLines(items[k].file)|
    requires p.window + rest == CRLF + AfterHeaders(items, b, k)
    requires Find(p.window, CRLF) == 0 && 2 <= |p.window| && p.state == 2
    ensures var r := Headers(ServerReceiver, p);
      if r.Go? then AtContent(items, b, k, 0, r.p, rest) else !r.ok && |items| > MAX_FILES
  {
    hide Find, Lines, Tail, Delimiter, Collect;
    FileComplete(items[k].file);
    assert j > 0;
    Cut(p.window, rest, CRLF, AfterHeaders(items, b, k));
    CollectHeader(p.events, p.file);
    assert items[k].content[..0] == "" && items[k].content[0..] == items[k].content;
    assert items[k].(content := "") == Item(p.file, "");
    assert (p.events + [HeaderSeen(p.file)])[|p.events|] == HeaderSeen(p.file);
  }

  lemma {:induction false} TurnHeaders(items: seq<Item>, b: string, k: nat, j: nat, p: Parser, rest: string)
    returns (j': nat)
    requires FormOk(items, b) && AtHeaders(items, b, k, j, p, rest) && p.state == 2
    ensures var r := Headers(ServerReceiver, p);
      if r.Go? then AtContent(items, b, k, 0, r.p, rest)
      else if r.ok then rest != "" && AtHeaders(items, b, k, j', r.p, rest)
      else |items| > MAX_FILES
    decreases |p.window|
  {
    hide Find, Lines, HeaderLines, AfterHeaders, Collect, OnHeader;
    var ls := HeaderLines(items[k].file);
    var line, after := HeaderFound(items, b, k, j, p, rest);
    j' := j;
    if |line| + 2 <= |p.window| {
      if j == |ls| {
        assert "" + CRLF + after == CRLF + after;
        TurnBlankLine(items, b, k, j, p, rest);
      } else {
        assert ItemOk(items[k], b);
        LineRead(items[k].file, j, b, items[k].content);
        Assoc(line, CRLF, after);
        Cut(p.window, rest, line, CRLF + after);
        Cut(p.window, rest, line + CRLF, after);
        var q := Erase(p, |line| + 2).(file := FileAfter(items[k].file, j + 1));
        j' := TurnHeaders(items, b, k, j + 1, q, rest);
      }
    }
  }

  // ---------------------------------------------------------------- delimiters

  lemma TurnDelimiter(items: seq<Item>, b: string, k: nat, p: Parser, rest: string)
    requires AtDelimiter(items, b, k, p, rest)
    ensures match Boundary(p)
      case Go(q) => if k < |items| then AtHeaders(items, b, k, 0, q, rest) else AtClosed(items, q, rest)
      case Stop(q, ok) => ok && q == p && rest != ""
  {
    hide Lines, AfterHeaders, Collect;
    if 2 <= |p.window| {
      if k < |items| {
        var ls := HeaderLines(items[k].file);
        assert ls[0..] == ls;
        Cut(p.window, rest, CRLF, Lines(ls) + (CRLF + AfterHeaders(items, b, k)));
      } else {
        Cut(p.window, rest, "--", CRLF);
        assert items[..k] == items;
        ClosingRest(p.window[2..], rest);
      }
    }
  }

  lemma ClosingRest(w: string, rest: string)
    requires w + rest == CRLF
    ensures rest in [CRLF, "\n", ""] && "" + rest == rest
  {
    if |w| == 0 {
      assert rest == w + rest;
    } else if |w| == 1 {
      assert rest[0] == (w + rest)[1];
      assert rest == "\n";
    }
  }

  lemma TurnClosed(items: seq<Item>, p: Parser, rest: string)
    requires AtClosed(items, p, rest) && p.window != ""
    ensures p.state == 4 && AtClosed(items, Boundary(p).p, rest) && (Boundary(p).Stop? ==> Boundary(p).ok)
  {
    hide Collect;
    var text := p.window + rest;
    assert |text| <= 2;
    if 2 <= |p.window| {
      assert rest == "" && text == p.window;
      assert p.window[..2] == CRLF && p.window[2..] == "";
    }
  }

  // ---------------------------------------------------------------- the whole loop

  datatype Where = Start | InHeaders(k: nat, j: nat) | InContent(k: nat, m: nat) | AfterDelimiter(k: nat) | Closed

  ghost predicate At(items: seq<Item>, b: string, w: Where, p: Parser, rest: string) {
    match w
    case Start => AtStart(items, b, p, rest)
    case InHeaders(k, j) => AtHeaders(items, b, k, j, p, rest)
    case InContent(k, m) => AtContent(items, b, k, m, p, rest)
    case AfterDelimiter(k) => AtDelimiter(items, b, k, p, rest)
    case Closed => AtClosed(items, p, rest)
  }

  lemma TextLeft(items: seq<Item>, b: string, w: Where, p: Parser, rest: string)
    requires At(items, b, w, p, rest) && !w.Closed?
    ensures p.window + rest != ""
  {
    hide Lines, Collect, Content, ItemTexts;
  }

  /** `parse` keeps the parser's place in the body; once nothing is left to arrive it has closed,
      and it refuses only when there are too many files. */
  lemma {:induction false} RunAt(items: seq<Item>, b: string, w: Where, p: Parser, rest: string)
    returns (w': Where)
    requires FormOk(items, b) && At(items, b, w, p, rest) && p.state <= 4
    ensures w'.Start? ==> w.Start? && p.window == ""
    ensures var (q, ok) := Run(b, ServerReceiver, p);
      if ok then At(items, b, w', q, rest) && (rest == "" ==> w'.Closed?) else |items| > MAX_FILES
    decreases Rank(p)
  {
    hide InitialBoundary, HeaderBlock, Headers, Content, Boundary, Collect, FormOk, Find;
    hide AtStart, AtHeaders, AtContent, AtDelimiter, AtClosed;
    w' := w;
    if p.window == "" {
      if !w.Closed? { TextLeft(items, b, w, p, rest); }
    } else {
      var r := Turn(b, ServerReceiver, p);
      var next := TurnAt(items, b, w, p, rest);
      if r.Go? {
        w' := RunAt(items, b, next, r.p, rest);
      } else {
        w' := next;
      }
    }
  }

  lemma TurnAt(items: seq<Item>, b: string, w: Where, p: Parser, rest: string) returns (next: Where)
    requires FormOk(items, b) && At(items, b, w, p, rest) && p.state <= 4 && p.window != ""
    ensures !next.Start?
    ensures match Turn(b, ServerReceiver, p)
      case Go(q) => At(items, b, next, q, rest)
      case Stop(q, ok) => if ok then At(items, b, next, q, rest) && (rest == "" ==> next.Closed?) else |items| > MAX_FILES
  {
    hide InitialBoundary, Headers, Content, Boundary, Collect, FormOk, Find, Lines, AfterHeaders, HeaderLines, Tail;
    next := w;
    match w {
      case Start =>
        TurnStart(items, b, p, rest);
        next := InHeaders(0, 0);
      case InHeaders(k, j) =>
        if p.state == 2 {
          var line, after := HeaderFound(items, b, k, j, p, rest);
          var j' := TurnHeaders(items, b, k, j, p, rest);
          next := if Headers(ServerReceiver, p).Go? then InContent(k, 0) else InHeaders(k, j');
        }
      case InContent(k, m) =>
        var m' := TurnContent(items, b, k, m, p, rest);
        next := if Content(b, ServerReceiver, p).Go? then AfterDelimiter(k + 1) else InContent(k, m');
      case AfterDelimiter(k) =>
        TurnDelimiter(items, b, k, p, rest);
        next := if Boundary(p).Stop? then w else if k < |items| then InHeaders(k, 0) else Closed;
      case Closed =>
        TurnClosed(items, p, rest);
    }
  }

  // ---------------------------------------------------------------- every cut of the body

  /** The length of the first non-empty piece. */
  function FirstLength(pieces: seq<string>): nat {
    if pieces == [] then 0 else if pieces[0] != "" then |pieces[0]| else FirstLength(pieces[1..])
  }

  /** The server accepts the pieces and collects exactly the items. */
  ghost predicate RoundTrips(items: seq<Item>, b: string, pieces: seq<string>) {
    var (p, ok) := FeedAll(b, ServerReceiver, START, pieces);
    ok && p.valid && Collect(p.events) == items
  }

  lemma {:induction false} FeedAllAt(items: seq<Item>, b: string, w: Where, p: Parser, pieces: seq<string>)
    requires FormOk(items, b) && At(items, b, w, p, Flatten(pieces)) && p.state <= 4 && !w.Start?
    requires pieces == [] ==> w.Closed?
    ensures var (q, ok) := FeedAll(b, ServerReceiver, p, pieces);
      if ok then AtClosed(items, q, "") else |items| > MAX_FILES
    decreases |pieces|
  {
    hide AtHeaders, AtContent, AtDelimiter, AtStart, Run, FormOk, Collect;
    if pieces != [] {
      var rest := Flatten(pieces[1..]);
      var fed := p.(window := p.window + pieces[0]);
      WindowGrows(items, b, w, p, pieces[0], rest);
      var w' := RunAt(items, b, w, fed, rest);
      var (q, ok) := Run(b, ServerReceiver, fed);
      if ok {
        assert pieces[1..] == [] ==> rest == "";
        FeedAllAt(items, b, w', q, pieces[1..]);
      }
    }
  }

  lemma WindowGrows(items: seq<Item>, b: string, w: Where, p: Parser, piece: string, rest: string)
    requires At(items, b, w, p, piece + rest)
    requires w.Start? ==> p.window == "" && (piece == "" || |piece| >= |FirstDelimiter(b)|)
    ensures At(items, b, w, p.(window := p.window + piece), rest)
  {
    hide Collect, Body, Lines, AfterHeaders, Delimiter, FirstDelimiter, Tail, HeaderLines;
    Assoc(p.window, piece, rest);
  }

  /** From the start: empty pieces change nothing, the first non-empty one is the test. */
  lemma {:induction false} FeedAllFromStart(items: seq<Item>, b: string, pieces: seq<string>)
    requires FormOk(items, b) && items != []
    requires Flatten(pieces) == Body(items, b) && FirstLength(pieces) >= |FirstDelimiter(b)|
    ensures var (q, ok) := FeedAll(b, ServerReceiver, START, pieces);
      if ok then AtClosed(items, q, "") else |items| > MAX_FILES
    decreases |pieces|
  {
    hide Run, FormOk, Body, AtClosed;
    var piece, rest := pieces[0], Flatten(pieces[1..]);
    if piece == "" {
      assert "" + rest == rest;
      EmptyPiece(b, pieces);
      FeedAllFromStart(items, b, pieces[1..]);
    } else {
      var fed := START.(window := piece);
      assert START.window + piece == piece;
      assert START.window + (piece + rest) == piece + rest;
      WindowGrows(items, b, Start, START, piece, rest);
      var w' := RunAt(items, b, Start, fed, rest);
      var (q, ok) := Run(b, ServerReceiver, fed);
      if ok {
        assert pieces[1..] == [] ==> rest == "";
        FeedAllAt(items, b, w', q, pieces[1..]);
      }
    }
  }

  lemma EmptyPiece(b: string, pieces: seq<string>)
    requires pieces != [] && pieces[0] == ""
    ensures FeedAll(b, ServerReceiver, START, pieces) == FeedAll(b, ServerReceiver, START, pieces[1..])
  {
    assert START.(window := "" + "") == START;
  }

  /** MAIN RESULT.  For every form the conditions allow and every way of cutting its body into
      pieces whose first non-empty piece holds the first delimiter line, the server collects
      exactly the items, in order, and the parser ends valid; and it refuses the body exactly
      when there are more items than the file limit. */
  lemma AnyCutRoundTrips(items: seq<Item>, b: string, pieces: seq<string>)
    requires FormOk(items, b) && items != []
    requires Flatten(pieces) == Body(items, b) && FirstLength(pieces) >= |FirstDelimiter(b)|
    ensures RoundTrips(items, b, pieces) <==> |items| <= 1024
    ensures FeedAll(b, ServerReceiver, START, pieces).1 <==> |items| <= 1024
  {
    hide FormOk, FeedAll, Body;
    FeedAllFromStart(items, b, pieces);
  }

  // ---------------------------------------------------------------- the first piece

  /** `is_multipart_boundary_chars_valid` */
  predicate BoundaryChars(b: string) {
    forall i :: 0 <= i < |b| ==> UrlCodec.IsAlnum(b[i]) || b[i] == '-' || b[i] == '_'
  }

  lemma FindFromShort(s: string, d: string)
    requires |s| < |d|
    ensures Find(s, d) == |s|
  {
  }

  /** A first piece that is shorter than the first delimiter line is thrown away. */
  lemma FeedShort(b: string, piece: string)
    requires 0 < |piece| < |FirstDelimiter(b)|
    ensures Feed(b, ServerReceiver, START, piece) == (START, true)
  {
    FindFromShort(piece, FirstDelimiter(b));
    assert START.window + piece == piece;
  }
}
