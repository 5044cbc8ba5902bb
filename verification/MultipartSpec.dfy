/** multipart/form-data as values: the serializer's text, and the parser as a function from its
    pending window to the window, file record and callbacks that `parse` leaves behind. */
module MultipartSpec {
  import opened Text
  import UrlCodec

  datatype FileInfo = FileInfo(name: string, filename: string, contentType: string)

  const NO_FILE := FileInfo("", "", "")

  datatype Item = Item(file: FileInfo, content: string)

  // ---------------------------------------------------------------- serializer

  const DISPOSITION := "Content-Disposition:"
  const FORM_DATA := "form-data;"
  const CONTENT_TYPE := "Content-Type:"

  function Quote(value: string): string { "\"" + value + "\"" }

  function Setting(key: string, value: string): string { key + "=" + Quote(value) }

  function Settings(file: FileInfo): seq<string> {
    [Setting("name", file.name)] + if file.filename == "" then [] else [Setting("filename", file.filename)]
  }

  function DispositionLine(file: FileInfo): string {
    DISPOSITION + " " + (FORM_DATA + " " + Glue(Settings(file), "; "))
  }

  function TypeLines(file: FileInfo): seq<string> {
    if file.contentType == "" then [] else [CONTENT_TYPE + " " + file.contentType]
  }

  function HeaderLines(file: FileInfo): seq<string> { [DispositionLine(file)] + TypeLines(file) }

  function Lines(ls: seq<string>): string {
    if ls == [] then "" else ls[0] + CRLF + Lines(ls[1..])
  }

  function ItemText(item: Item, b: string): string {
    "--" + b + (CRLF + (Lines(HeaderLines(item.file)) + (CRLF + (item.content + CRLF))))
  }

  function ItemTexts(items: seq<Item>, b: string): string {
    if items == [] then "" else ItemText(items[0], b) + ItemTexts(items[1..], b)
  }

  /** The complete body: every item, then the closing delimiter. */
  function Body(items: seq<Item>, b: string): string { ItemTexts(items, b) + Closing(b) }

  function Closing(b: string): string { "--" + b + ("--" + CRLF) }

  // ---------------------------------------------------------------- header lines

  predicate StartsWithIgnoreCase(a: string, b: string) {
    |b| <= |a| && forall i :: 0 <= i < |b| ==> Lower(a[i]) == Lower(b[i])
  }

  function AfterPrefix(s: string, prefix: string): Option<string> {
    if StartsWithIgnoreCase(s, prefix) then Some(SkipSpace(s[|prefix|..])) else None
  }

  /** The captured part of `^Content-Disposition:\s*form-data;\s*(.*)$`, case ignored. */
  function DispositionTail(line: string): Option<string> {
    match AfterPrefix(line, DISPOSITION)
    case None => None
    case Some(s) =>
      match AfterPrefix(s, FORM_DATA)
      case None => None
      case Some(t) => if '\n' in t || '\r' in t then None else Some(t)
  }

  function TrimQuotes(s: string): string {
    if |s| >= 2 && s[0] == '"' && s[|s| - 1] == '"' then s[1..|s| - 1] else s
  }

  /** `parse_disposition_params` */
  function DispositionParams(s: string): UrlCodec.Params {
    UrlCodec.Collected(SplitOn(s, ';'), {}, TrimQuotes)
  }

  /** `find` on the multimap: the first pair with that key. */
  function Lookup(ps: UrlCodec.Params, key: string): Option<string> {
    if ps == [] then None
    else if ps[0].0 == key then Some(ps[0].1)
    else Lookup(ps[1..], key)
  }

  /** The captured part of `^UTF-8''(.+?)$`, case ignored. */
  function ExtendedValue(s: string): Option<string> {
    if StartsWithIgnoreCase(s, "UTF-8''") && |s| > 7 && '\n' !in s[7..] && '\r' !in s[7..]
    then Some(s[7..]) else None
  }

  function WithParams(file: FileInfo, ps: UrlCodec.Params): Option<FileInfo> {
    var name := Lookup(ps, "name");
    if name.None? then None
    else
      var filename := Lookup(ps, "filename");
      var f := FileInfo(name.value, if filename.Some? then filename.value else file.filename, file.contentType);
      var extended := Lookup(ps, "filename*");
      if extended.None? then Some(f)
      else match ExtendedValue(extended.value)
        case None => None
        case Some(v) => Some(f.(filename := UrlCodec.Decoded(v, false)))
  }

  /** What one non-empty header line does to the file record; `None` refuses the body. */
  function OnHeader(file: FileInfo, line: string): Option<FileInfo> {
    if StartsWithIgnoreCase(line, CONTENT_TYPE) then
      Some(file.(contentType := Trim(line[|CONTENT_TYPE|..])))
    else if StartsWithIgnoreCase(line, "Content-Length:") then Some(file)
    else match DispositionTail(line)
      case None => None
      case Some(tail) => WithParams(file, DispositionParams(tail))
  }

  // ---------------------------------------------------------------- parser

  /** The callbacks made, in order. */
  datatype Event = HeaderSeen(file: FileInfo) | ContentSeen(data: string)

  /** The receiver's answer to the last callback of a history. */
  type Receiver = seq<Event> -> bool

  datatype Parser = Parser(state: nat, window: string, file: FileInfo, valid: bool, events: seq<Event>)

  const START := Parser(0, "", NO_FILE, false, [])

  /** Either the loop goes on, or `parse` returns. */
  datatype Step = Go(p: Parser) | Stop(p: Parser, ok: bool)

  function Delimiter(b: string): string { CRLF + ("--" + b) }
  function FirstDelimiter(b: string): string { "--" + b + CRLF }

  function Erase(p: Parser, n: nat): Parser
    requires n <= |p.window|
  {
    p.(window := p.window[n..])
  }

  /** Make a callback; a receiver that refuses it ends the parse as invalid. */
  function Emit(p: Parser, e: Event): Parser { p.(events := p.events + [e]) }

  function InitialBoundary(b: string, p: Parser): (r: Step)
    ensures r.Go? ==> |r.p.window| < |p.window| && r.p.state == 1
    ensures r.Stop? ==> r.p.state == p.state
  {
    var d := FirstDelimiter(b);
    var pos := Find(p.window, d);
    FindFromLeast(p.window, d, 0);
    var q := Erase(p, pos);
    if |d| > |q.window| then Stop(q, true) else Go(Erase(q, |d|).(state := 1))
  }

  /** The inner loop over complete header lines. */
  function Headers(accept: Receiver, p: Parser): (r: Step)
    ensures r.Go? ==> |r.p.window| < |p.window| && r.p.state == 3
    ensures r.Stop? ==> r.p.state == p.state
    decreases |p.window|
  {
    var pos := Find(p.window, CRLF);
    FindFromLeast(p.window, CRLF, 0);
    if pos == |p.window| then Stop(p, true)
    else if pos == 0 then
      var q := Emit(p, HeaderSeen(p.file));
      if accept(q.events) then Go(Erase(q, 2).(state := 3)) else Stop(q.(valid := false), false)
    else
      match OnHeader(p.file, p.window[..pos])
      case None => Stop(p.(valid := false), false)
      case Some(f) => Headers(accept, Erase(p, pos + 2).(file := f))
  }

  function HeaderBlock(accept: Receiver, p: Parser): (r: Step)
    ensures r.Go? ==> |r.p.window| < |p.window| && r.p.state == 3
    ensures r.Stop? ==> r.p.state == p.state
  {
    if Find(p.window, CRLF) > MAX_HEADER then Stop(p, false) else Headers(accept, p)
  }

  function Content(b: string, accept: Receiver, p: Parser): (r: Step)
    ensures r.Go? ==> |r.p.window| < |p.window| && r.p.state == 4
    ensures r.Stop? ==> r.p.state == p.state
  {
    var d := Delimiter(b);
    if |d| > |p.window| then Stop(p, true)
    else
      var pos := Find(p.window, d);
      FindFromLeast(p.window, d, 0);
      if pos < |p.window| then
        var q := Emit(p, ContentSeen(p.window[..pos]));
        if accept(q.events) then Go(Erase(q, pos + |d|).(state := 4)) else Stop(q.(valid := false), false)
      else
        var len := |p.window| - |d|;
        if len == 0 then Stop(p, true)
        else
          var q := Emit(p, ContentSeen(p.window[..len]));
          if accept(q.events) then Stop(Erase(q, len), true) else Stop(q.(valid := false), false)
  }

  function Boundary(p: Parser): Step {
    if |p.window| < 2 then Stop(p, true)
    else if p.window[..2] == CRLF then Go(Erase(p, 2).(state := 1))
    else if p.window[..2] == "--" then Go(p.(window := "", valid := true))
    else Stop(p, true)
  }

  /** One turn of the loop in `parse`, on a non-empty window. */
  function Turn(b: string, accept: Receiver, p: Parser): (r: Step)
    requires p.state <= 4 && p.window != ""
    ensures r.p.state <= 4
    ensures r.Go? ==> Rank(r.p) < Rank(p)
  {
    match p.state
    case 0 => InitialBoundary(b, p)
    case 1 => Go(p.(file := NO_FILE, state := 2))
    case 2 => HeaderBlock(accept, p)
    case 3 => Content(b, accept, p)
    case 4 => Boundary(p)
  }

  /** Every turn that goes on shrinks the window, or leaves state 1 with the window unchanged. */
  function Rank(p: Parser): nat { 2 * |p.window| + if p.state == 1 then 1 else 0 }

  function Run(b: string, accept: Receiver, p: Parser): (r: (Parser, bool))
    requires p.state <= 4
    ensures r.0.state <= 4
    decreases Rank(p)
  {
    if p.window == "" then (p, true)
    else match Turn(b, accept, p)
      case Stop(q, ok) => (q, ok)
      case Go(q) => Run(b, accept, q)
  }

  /** `parse`: append a piece, then loop. */
  function Feed(b: string, accept: Receiver, p: Parser, piece: string): (r: (Parser, bool))
    requires p.state <= 4
    ensures r.0.state <= 4
  {
    Run(b, accept, p.(window := p.window + piece))
  }

  /** A body fed piece by piece, up to the first refusal. */
  function FeedAll(b: string, accept: Receiver, p: Parser, pieces: seq<string>): (Parser, bool)
    requires p.state <= 4
    decreases |pieces|
  {
    if pieces == [] then (p, true)
    else
      var (q, ok) := Feed(b, accept, p, pieces[0]);
      if ok then FeedAll(b, accept, q, pieces[1..]) else (q, false)
  }
}
