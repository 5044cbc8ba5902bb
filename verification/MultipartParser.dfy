/** `MultipartFormDataParser`: the parser object, its sliding window and the loop in `parse`. */
module MultipartParser {
  import opened Text
  import opened MultipartSpec
  import opened MultipartRoundTrip
  import UrlCodec

  /** `start_with`: does `b` stand at `spos` of `a`, before `epos`? */
  method StartWith(a: string, spos: nat, epos: nat, b: string) returns (r: bool)
    requires spos <= epos <= |a|
    ensures r <==> HasAt(a[spos..epos], b, 0)
  {
    if epos - spos < |b| { return false; }
    var i := 0;
    while i < |b|
      invariant 0 <= i <= |b|
      invariant forall j :: 0 <= j < i ==> a[spos + j] == b[j]
    {
      if a[i + spos] != b[i] {
        assert a[spos..epos][0..|b|][i] == a[i + spos];
        return false;
      }
      i := i + 1;
    }
    r := true;
  }

  lemma WindowAt(a: string, spos: nat, pos: nat, epos: nat, s: string)
    requires spos <= pos <= epos <= |a|
    ensures HasAt(a[pos..epos], s, 0) <==> HasAt(a[spos..epos], s, pos - spos)
  {
    if pos + |s| <= epos {
      assert a[pos..epos][0..|s|] == a[pos..pos + |s|] == a[spos..epos][pos - spos..pos - spos + |s|];
    }
  }

  class MultipartFormDataParser {
    const boundary: string
    const dashBoundaryCrlf: string
    const crlfDashBoundary: string

    var state: nat
    var isValid: bool
    var file: FileInfo

    // The window is buf[spos..epos].
    var buf: string
    var spos: nat
    var epos: nat

    // The callbacks made so far.
    var events: seq<Event>

    ghost predicate Valid()
      reads this
    {
      && spos <= epos <= |buf| && state <= 4
      && dashBoundaryCrlf == FirstDelimiter(boundary)
      && crlfDashBoundary == Delimiter(boundary)
    }

    ghost function Window(): string
      requires spos <= epos <= |buf|
      reads `buf, `spos, `epos
    {
      buf[spos..epos]
    }

    ghost function View(): Parser
      requires Valid()
      reads this
    {
      Parser(state, Window(), file, isValid, events)
    }

    constructor (boundary: string)
      ensures Valid() && View() == START && this.boundary == boundary
    {
      this.boundary := boundary;
      dashBoundaryCrlf := "--" + boundary + CRLF;
      crlfDashBoundary := CRLF + ("--" + boundary);
      state, isValid, file := 0, false, NO_FILE;
      buf, spos, epos, events := "", 0, 0, [];
    }

    function BufSize(): (n: nat)
      requires spos <= epos <= |buf|
      reads `buf, `spos, `epos
      ensures n == |Window()|
    {
      epos - spos
    }

    /** `buf_find`: the least match position in the window, or the window's size. */
    method BufFind(s: string) returns (r: nat)
      requires Valid() && s != ""
      ensures r == Find(Window(), s)
    {
      hide FindFrom;
      var c := s[0];
      var off := spos;
      while off < epos
        invariant spos <= off <= epos
        invariant forall i :: 0 <= i < off - spos ==> !HasAt(Window(), s, i)
      {
        var pos := off;
        while pos != epos && buf[pos] != c
          invariant off <= pos <= epos
          invariant forall i :: 0 <= i < pos - spos ==> !HasAt(Window(), s, i)
        {
          assert Window()[pos - spos] == buf[pos];
          pos := pos + 1;
        }
        if pos == epos || |s| > epos - pos {
          FindNone(Window(), s);
          return epos - spos;
        }
        var found := StartWith(buf, pos, epos, s);
        WindowAt(buf, spos, pos, epos, s);
        if found {
          FindIs(Window(), s, pos - spos);
          return pos - spos;
        }
        off := pos + 1;
      }
      FindNone(Window(), s);
      r := epos - spos;
    }

    /** The copying loop of `buf_append`: move the window to the front of the buffer. */
    method Compact()
      requires Valid()
      modifies `buf, `spos, `epos
      ensures Valid() && Window() == old(Window()) && spos == 0
    {
      var remaining := epos - spos;
      if remaining > 0 && spos > 0 {
        var i := 0;
        while i < remaining
          invariant 0 <= i <= remaining && |buf| == |old(buf)| && spos == old(spos) && epos == old(epos)
          invariant forall j :: 0 <= j < i ==> buf[j] == old(buf)[spos + j]
          invariant forall j :: i <= j < |buf| ==> buf[j] == old(buf)[j]
        {
          buf := buf[i := buf[spos + i]];
          i := i + 1;
        }
      }
      spos, epos := 0, remaining;
    }

    /** `buf_append`: compact, grow the buffer where it is too small, copy the piece in. */
    method BufAppend(data: string)
      requires Valid()
      modifies `buf, `spos, `epos
      ensures Valid() && Window() == old(Window()) + data && spos == 0
    {
      Compact();
      ghost var w := Window();
      var remaining := epos;
      if remaining + |data| > |buf| {
        buf := buf + seq(remaining + |data| - |buf|, _ => '\0');
      }
      var i := 0;
      while i < |data|
        invariant 0 <= i <= |data| && remaining + |data| <= |buf| && spos == 0 && epos == remaining == |w|
        invariant forall j :: 0 <= j < remaining ==> buf[j] == w[j]
        invariant forall j :: 0 <= j < i ==> buf[remaining + j] == data[j]
      {
        buf := buf[epos + i := data[i]];
        i := i + 1;
      }
      epos := epos + |data|;
    }

    /** `buf_head`: the first bytes of the window. */
    method BufHead(size: nat) returns (head: string)
      requires Valid() && size <= |Window()|
      ensures head == Window()[..size]
    {
      head := buf[spos..spos + size];
    }

    method BufErase(size: nat)
      requires Valid() && size <= |Window()|
      modifies `spos
      ensures Valid() && View() == Erase(old(View()), size)
    {
      spos := spos + size;
    }

    /** A turn of the loop did what `Turn` says. */
    twostate predicate Did(r: Step, go: bool, ok: bool)
      requires old(Valid()) && Valid()
      reads this
    {
      View() == r.p && match r case Go(_) => go case Stop(_, k) => !go && ok == k
    }

    /** Make a callback; a refusal makes the body invalid. */
    method Call(accept: Receiver, e: Event) returns (answer: bool)
      requires Valid()
      modifies `events, `isValid
      ensures Valid() && answer == accept(old(events) + [e])
      ensures View() == if answer then Emit(old(View()), e) else Emit(old(View()), e).(valid := false)
    {
      events := events + [e];
      answer := accept(events);
      if !answer { isValid := false; }
    }

    method BufStartWith(s: string) returns (r: bool)
      requires Valid()
      ensures r <==> HasAt(Window(), s, 0)
    {
      r := StartWith(buf, spos, epos, s);
    }

    // State 0
    method ReadInitialBoundary() returns (go: bool, ok: bool)
      requires Valid()
      modifies `spos, `state
      ensures Valid() && Did(InitialBoundary(boundary, old(View())), go, ok)
    {
      hide Window, Find, FindFrom, FirstDelimiter, Delimiter, HasAt;
      ghost var v := View();
      DelimiterNonEmpty(boundary);
      var pos := BufFind(dashBoundaryCrlf);
      FindFits(v.window, dashBoundaryCrlf);
      BufErase(pos);
      if |dashBoundaryCrlf| > BufSize() { return false, true; }
      var starts := BufStartWith(dashBoundaryCrlf);
      if !starts {
        assert false by { FoundStarts(v.window, dashBoundaryCrlf); }
        return false, false;
      }
      BufErase(|dashBoundaryCrlf|);
      state := 1;
      go, ok := true, true;
    }

    // State 2
    method ReadHeaders(accept: Receiver) returns (go: bool, ok: bool)
      requires Valid() && state == 2
      modifies `spos, `state, `file, `isValid, `events
      ensures Valid() && Did(HeaderBlock(accept, old(View())), go, ok)
    {
      hide Window, Find, FindFrom, OnHeader, Headers, FirstDelimiter, Delimiter;
      ghost var v := View();
      var pos := BufFind(CRLF);
      if pos > MAX_HEADER { return false, false; }
      while pos < BufSize()
        invariant Valid() && state == 2 && pos == Find(Window(), CRLF)
        invariant Headers(accept, v) == Headers(accept, View())
        decreases BufSize()
      {
        HeadersUnfold(accept, View());
        if pos == 0 {
          go := EndHeaders(accept);
          return go, go;
        }
        var taken := TakeHeader(pos);
        if !taken { return false, false; }
        pos := BufFind(CRLF);
      }
      HeadersUnfold(accept, View());
      go, ok := false, true;
    }

    /** The empty line behind the headers. */
    method EndHeaders(accept: Receiver) returns (answer: bool)
      requires Valid() && 2 <= |Window()|
      modifies `spos, `state, `isValid, `events
      ensures Valid() && answer == accept(old(events) + [HeaderSeen(file)])
      ensures var q := Emit(old(View()), HeaderSeen(file));
        View() == if answer then Erase(q, 2).(state := 3) else q.(valid := false)
    {
      hide Window, FirstDelimiter, Delimiter;
      answer := Call(accept, HeaderSeen(file));
      if !answer { return; }
      BufErase(2);
      state := 3;
    }

    /** The header line at the front of the window, which ends at `pos`. */
    method TakeHeader(pos: nat) returns (taken: bool)
      requires Valid() && pos + 2 <= |Window()|
      modifies `spos, `file, `isValid
      ensures Valid()
      ensures match OnHeader(old(file), old(Window())[..pos])
        case None => !taken && View() == old(View()).(valid := false)
        case Some(f) => taken && View() == Erase(old(View()), pos + 2).(file := f)
    {
      hide Window, FirstDelimiter, Delimiter, OnHeader;
      var header := BufHead(pos);
      var f := ReadHeader(header);
      if f.None? {
        isValid := false;
        return false;
      }
      file := f.value;
      BufErase(pos + 2);
      taken := true;
    }

    /** One header line. */
    method ReadHeader(header: string) returns (f: Option<FileInfo>)
      ensures f == OnHeader(file, header)
    {
      if StartsWithIgnoreCase(header, CONTENT_TYPE) {
        return Some(file.(contentType := Trim(header[|CONTENT_TYPE|..])));
      } else if StartsWithIgnoreCase(header, "Content-Length:") {
        return Some(file);
      }
      var tail := DispositionTail(header);
      if tail.None? { return None; }
      var params := UrlCodec.CollectPairs(tail.value, ';', TrimQuotes);
      f := WithParams(file, params);
    }

    // State 3
    method ReadContent(accept: Receiver) returns (go: bool, ok: bool)
      requires Valid() && state == 3
      modifies `spos, `state, `isValid, `events
      ensures Valid() && Did(Content(boundary, accept, old(View())), go, ok)
    {
      hide Window, Find, FindFrom, Delimiter, FirstDelimiter, HasAt;
      if |crlfDashBoundary| > BufSize() { return false, true; }
      DelimiterNonEmpty(boundary);
      var pos := BufFind(crlfDashBoundary);
      FindFits(Window(), crlfDashBoundary);
      if pos < BufSize() {
        var head := BufHead(pos);
        var answer := Call(accept, ContentSeen(head));
        if !answer { return false, false; }
        BufErase(pos + |crlfDashBoundary|);
        state := 4;
        return true, true;
      }
      var len := BufSize() - |crlfDashBoundary|;
      if len > 0 {
        var head := BufHead(len);
        var answer := Call(accept, ContentSeen(head));
        if !answer { return false, false; }
        BufErase(len);
      }
      go, ok := false, true;
    }

    // State 4
    method ReadBoundary() returns (go: bool, ok: bool)
      requires Valid() && state == 4
      modifies `spos, `state, `isValid
      ensures Valid() && Did(Boundary(old(View())), go, ok)
    {
      if 2 > BufSize() { return false, true; }
      var crlf := BufStartWith(CRLF);
      assert Window()[0..2] == Window()[..2];
      if crlf {
        BufErase(2);
        state := 1;
        return true, true;
      }
      var dash := BufStartWith("--");
      if !dash { return false, true; }
      BufErase(2);
      isValid := true;
      BufErase(BufSize());
      go, ok := true, true;
    }

    /** `parse`: append the piece, then turn until the window is empty or a state returns. */
    method Parse(data: string, accept: Receiver) returns (ok: bool)
      requires Valid()
      modifies this
      ensures Valid() && (View(), ok) == Feed(boundary, accept, old(View()), data)
    {
      hide InitialBoundary, HeaderBlock, Content, Boundary;
      BufAppend(data);
      ghost var v := View();
      assert v == old(View()).(window := old(Window()) + data);
      while BufSize() > 0
        invariant Valid()
        invariant Run(boundary, accept, v) == Run(boundary, accept, View())
        decreases Rank(View())
      {
        var go;
        if state == 0 {
          go, ok := ReadInitialBoundary();
        } else if state == 1 {
          file := NO_FILE;
          state := 2;
          go := true;
        } else if state == 2 {
          go, ok := ReadHeaders(accept);
        } else if state == 3 {
          go, ok := ReadContent(accept);
        } else {
          go, ok := ReadBoundary();
        }
        if !go { return; }
      }
      ok := true;
    }
  }

  lemma FindFits(w: string, d: string)
    requires d != ""
    ensures Find(w, d) == |w| || Find(w, d) + |d| <= |w|
  {
    FindFromLeast(w, d, 0);
  }

  lemma HeadersUnfold(accept: Receiver, p: Parser)
    ensures var pos := Find(p.window, CRLF);
      && (pos == |p.window| || pos + 2 <= |p.window|)
      && Headers(accept, p) ==
        if pos == |p.window| then Stop(p, true)
        else if pos == 0 then
          var q := Emit(p, HeaderSeen(p.file));
          if accept(q.events) then Go(Erase(q, 2).(state := 3)) else Stop(q.(valid := false), false)
        else match OnHeader(p.file, p.window[..pos])
          case None => Stop(p.(valid := false), false)
          case Some(f) => Headers(accept, Erase(p, pos + 2).(file := f))
  {
    hide OnHeader, FindFrom;
    FindFits(p.window, CRLF);
  }

  lemma DelimiterNonEmpty(b: string)
    ensures Delimiter(b) != "" && FirstDelimiter(b) != ""
  {
  }

  lemma FoundStarts(w: string, d: string)
    requires d != "" && Find(w, d) + |d| <= |w|
    ensures HasAt(w[Find(w, d)..], d, 0)
  {
    FindFromLeast(w, d, 0);
    var pos := Find(w, d);
    assert w[pos..][0..|d|] == w[pos..pos + |d|];
  }

  /** `serialize_multipart_formdata` with its closing delimiter. */
  method Serialize(items: seq<Item>, b: string) returns (body: string)
    ensures body == Body(items, b)
  {
    hide ItemTexts, ItemText;
    body := "";
    ItemTextsPrefix(items, b, 0);
    var i := 0;
    while i < |items|
      invariant 0 <= i <= |items|
      invariant body == ItemTexts(items[..i], b)
    {
      ItemTextsPrefix(items, b, i);
      var begin := SerializeItemBegin(items[i].file, b);
      ItemTextSplit(items[i], b, body);
      body := body + begin;
      body := body + (items[i].content + CRLF);
      i := i + 1;
    }
    assert items[..i] == items;
    body := body + Closing(b);
  }

  lemma ItemTextSplit(item: Item, b: string, body: string)
    ensures body + ItemText(item, b)
         == body + ("--" + b + (CRLF + (Lines(HeaderLines(item.file)) + CRLF))) + (item.content + CRLF)
  {
    var d, ls, t := "--" + b, Lines(HeaderLines(item.file)), item.content + CRLF;
    Assoc(ls, CRLF, t);
    Assoc(CRLF, ls + CRLF, t);
    Assoc(d, CRLF + (ls + CRLF), t);
    Assoc(body, d + (CRLF + (ls + CRLF)), t);
  }

  /** `serialize_multipart_formdata_item_begin` */
  method SerializeItemBegin(file: FileInfo, b: string) returns (head: string)
    ensures head == "--" + b + (CRLF + (Lines(HeaderLines(file)) + CRLF))
  {
    var lines := DISPOSITION + " " + (FORM_DATA + " " + Glue(Settings(file), "; ")) + CRLF;
    if file.contentType != "" {
      lines := lines + (CONTENT_TYPE + " " + file.contentType + CRLF);
    }
    LinesOf(file);
    head := "--" + b + (CRLF + (lines + CRLF));
  }

  lemma LinesOf(file: FileInfo)
    ensures var first := DispositionLine(file) + CRLF;
      Lines(HeaderLines(file))
        == if file.contentType == "" then first else first + (CONTENT_TYPE + " " + file.contentType + CRLF)
  {
    hide DispositionLine;
    var ls := HeaderLines(file);
    assert ls[1..] == TypeLines(file);
    if file.contentType == "" {
      assert Lines(TypeLines(file)) == "";
    } else {
      var t := CONTENT_TYPE + " " + file.contentType;
      assert TypeLines(file) == [t] && [t][1..] == [];
      assert Lines([t]) == t + CRLF;
    }
  }

  lemma {:induction false} ItemTextsPrefix(items: seq<Item>, b: string, i: nat)
    requires i <= |items|
    ensures i == 0 ==> ItemTexts(items[..i], b) == ""
    ensures i < |items| ==> ItemTexts(items[..i + 1], b) == ItemTexts(items[..i], b) + ItemText(items[i], b)
  {
    hide ItemText;
    if i < |items| {
      if i == 0 {
        assert items[..1][1..] == [] && items[..0] == [];
        assert ItemTexts(items[..1], b) == ItemText(items[0], b);
      } else {
        var rest := items[1..];
        ItemTextsPrefix(rest, b, i - 1);
        assert items[..i + 1][1..] == rest[..i] && items[..i][1..] == rest[..i - 1];
        Assoc(ItemText(items[0], b), ItemTexts(rest[..i - 1], b), ItemText(items[i], b));
      }
    }
  }

  /** A server reading a form: one parser fed with the pieces as they arrive. */
  method Receive(b: string, pieces: seq<string>) returns (ok: bool, valid: bool, items: seq<Item>)
    ensures forall sent | FormOk(sent, b) && sent != [] && Flatten(pieces) == Body(sent, b)
                          && FirstLength(pieces) >= |FirstDelimiter(b)| ::
              (ok <==> |sent| <= 1024) && (ok ==> valid && items == sent)
  {
    hide FeedAll, Feed, Collect, FormOk, Body, Flatten, FirstLength, FirstDelimiter, Delimiter, ServerReceiver;
    var parser := new MultipartFormDataParser(b);
    ok := true;
    var i := 0;
    ghost var whole := FeedAll(b, ServerReceiver, START, pieces);
    assert pieces[0..] == pieces;
    while i < |pieces| && ok
      invariant 0 <= i <= |pieces| && parser.Valid() && parser.boundary == b && fresh(parser)
      invariant parser.View().state <= 4
      invariant ok ==> whole == FeedAll(b, ServerReceiver, parser.View(), pieces[i..])
      invariant !ok ==> whole == (parser.View(), false)
    {
      FeedAllStep(b, parser.View(), pieces, i);
      ok := parser.Parse(pieces[i], ServerReceiver);
      i := i + 1;
    }
    valid, items := parser.isValid, Collect(parser.events);
    if ok { FeedAllEnd(b, parser.View(), pieces); }
    forall sent | FormOk(sent, b) && sent != [] && Flatten(pieces) == Body(sent, b)
                  && FirstLength(pieces) >= |FirstDelimiter(b)|
      ensures (ok <==> |sent| <= MAX_FILES) && (ok ==> valid && items == sent)
    {
      AnyCutRoundTrips(sent, b, pieces);
    }
  }

  lemma FeedAllStep(b: string, p: Parser, pieces: seq<string>, i: nat)
    requires p.state <= 4 && i < |pieces|
    ensures var (q, ok) := Feed(b, ServerReceiver, p, pieces[i]);
      FeedAll(b, ServerReceiver, p, pieces[i..]) == if ok then FeedAll(b, ServerReceiver, q, pieces[i + 1..]) else (q, false)
  {
    hide Feed;
    assert pieces[i..][1..] == pieces[i + 1..];
  }

  lemma FeedAllEnd(b: string, p: Parser, pieces: seq<string>)
    requires p.state <= 4
    ensures FeedAll(b, ServerReceiver, p, pieces[|pieces|..]) == (p, true)
  {
  }
}
