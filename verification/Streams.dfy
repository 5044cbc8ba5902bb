/** The streaming layer: a socket with arbitrary short reads and writes, the read-ahead buffer of
    `SocketStream`, the two-tier line reader, and the body readers and writers built on them. */
module Streams {
  import opened Text
  import opened Chunked
  import Fields

  /** A `recv`-like result: an error, or some bytes (none at the end of the stream). */
  datatype Received = Failed | Data(bytes: string)

  /** A connection.  `incoming` is what the peer has sent or will send and is not received yet;
      `sent` is what was accepted for sending.  `broken` records that some call failed, which none
      does on a healthy connection. */
  class Socket {
    const healthy: bool
    var incoming: string
    var sent: string
    ghost var broken: bool

    constructor (incoming: string, healthy: bool)
      ensures this.incoming == incoming && sent == "" && !broken && this.healthy == healthy
    {
      this.incoming, this.sent, this.broken, this.healthy := incoming, "", false, healthy;
    }

    /** `recv`: any non-empty amount that is there and fits, or a failure. */
    method Recv(size: nat) returns (r: Received)
      modifies `incoming, `broken
      ensures healthy ==> broken == old(broken)
      ensures r.Failed? ==> broken && incoming == old(incoming)
      ensures r.Data? ==> broken == old(broken) && |r.bytes| <= size && old(incoming) == r.bytes + incoming
      ensures r.Data? && r.bytes == "" ==> size == 0 || incoming == ""
    {
      var fails: bool := *;
      if !healthy && fails {
        broken := true;
        return Failed;
      }
      var most := if size < |incoming| then size else |incoming|;
      var n: nat :| n <= most && (most > 0 ==> n > 0);
      r := Data(incoming[..n]);
      incoming := incoming[n..];
    }

    /** `select` for reading or writing: a time-out counts as a failure. */
    method IsReady() returns (ready: bool)
      modifies `broken
      ensures healthy ==> broken == old(broken)
      ensures ready ==> broken == old(broken)
      ensures !ready ==> broken
    {
      ready := true;
      var fails: bool := *;
      if !healthy && fails {
        ready, broken := false, true;
      }
    }

    /** `send`: any non-empty part of the data, or a failure. */
    method Send(data: string) returns (n: int)
      requires data != ""
      modifies `sent, `broken
      ensures healthy ==> broken == old(broken)
      ensures n < 0 ==> broken && sent == old(sent)
      ensures n >= 0 ==> broken == old(broken) && 0 < n <= |data| && sent == old(sent) + data[..n]
    {
      var fails: bool := *;
      if !healthy && fails {
        broken := true;
        return -1;
      }
      var k: nat :| 0 < k <= |data|;
      sent := sent + data[..k];
      n := k;
    }
  }

  /** `read_buff_size_` */
  const READ_BUFFER := 4096
  /** `CPPHTTPLIB_RECV_BUFSIZ` */
  const RECV_BUFFER := 4096

  class SocketStream {
    const sock: Socket
    const readBuff: array<char>
    var off: nat
    var contentSize: nat

    ghost predicate Valid()
      reads this, readBuff
    {
      readBuff.Length == READ_BUFFER && off <= contentSize <= READ_BUFFER
    }

    /** Every byte still to be delivered, in order: first the buffered, then the unreceived. */
    ghost function Pending(): string
      requires Valid()
      reads this, readBuff, sock
    {
      readBuff[off..contentSize] + sock.incoming
    }

    constructor (sock: Socket)
      ensures Valid() && this.sock == sock && Pending() == sock.incoming && fresh(readBuff)
    {
      this.sock := sock;
      readBuff := new char[READ_BUFFER](_ => '\0');
      off, contentSize := 0, 0;
    }

    /** Fill the read-ahead buffer. */
    method Fill(bytes: string)
      requires Valid() && |bytes| <= READ_BUFFER
      modifies readBuff
      ensures readBuff[..|bytes|] == bytes
    {
      var i := 0;
      while i < |bytes|
        invariant 0 <= i <= |bytes|
        invariant forall j :: 0 <= j < i ==> readBuff[j] == bytes[j]
      {
        readBuff[i] := bytes[i];
        i := i + 1;
      }
    }

    /** Receive into the read-ahead buffer and hand out at most `size` of it. */
    method ReadAhead(size: nat) returns (r: Received)
      requires Valid() && off == contentSize == 0 && size < READ_BUFFER
      modifies this, readBuff, sock`incoming, sock`broken
      ensures sock.healthy ==> sock.broken == old(sock.broken)
      ensures Valid()
      ensures r.Failed? ==> sock.broken && Pending() == old(sock.incoming)
      ensures r.Data? ==> sock.broken == old(sock.broken) && |r.bytes| <= size && old(sock.incoming) == r.bytes + Pending()
      ensures r.Data? && r.bytes == "" ==> size == 0 || Pending() == ""
    {
      r := sock.Recv(READ_BUFFER);
      if r.Failed? || r.bytes == "" { return; }
      ghost var got := r.bytes;
      Fill(r.bytes);
      if |r.bytes| > size {
        off, contentSize := size, |r.bytes|;
        assert readBuff[size..|got|] == readBuff[..|got|][size..];
        assert got == got[..size] + got[size..];
        r := Data(readBuff[..size]);
        assert readBuff[..size] == readBuff[..|got|][..size];
      }
    }

    /** `read`: the next bytes of the stream, whatever pieces they arrived in. */
    method Read(size: nat) returns (r: Received)
      requires Valid()
      modifies this, readBuff, sock`incoming, sock`broken
      ensures sock.healthy ==> sock.broken == old(sock.broken)
      ensures Valid()
      ensures r.Failed? ==> sock.broken && Pending() == old(Pending())
      ensures r.Data? ==> sock.broken == old(sock.broken) && |r.bytes| <= size && old(Pending()) == r.bytes + Pending()
      ensures r.Data? && r.bytes == "" ==> size == 0 || Pending() == ""
    {
      if off < contentSize {
        var remaining := contentSize - off;
        var n := if size <= remaining then size else remaining;
        r := Data(readBuff[off..off + n]);
        assert readBuff[off..contentSize] == readBuff[off..off + n] + readBuff[off + n..contentSize];
        off := off + n;
        return;
      }
      assert Pending() == sock.incoming;
      var ready := sock.IsReady();
      if !ready { return Failed; }
      off, contentSize := 0, 0;
      if size < READ_BUFFER {
        r := ReadAhead(size);
      } else {
        r := sock.Recv(size);
      }
    }
  }

  /** `stream_line_reader`: a caller's fixed buffer first, a growing one when that is full. */
  class LineReader {
    const strm: SocketStream
    const fixedBuffer: array<char>
    var used: nat
    var growable: string

    ghost predicate Valid()
      reads this, fixedBuffer
    {
      && fixedBuffer.Length >= 2 && used < fixedBuffer.Length
      && fixedBuffer != strm.readBuff
      && (used > 0 ==> fixedBuffer[used] == '\0')
      && (growable != "" ==> used == fixedBuffer.Length - 1)
    }

    /** The line read so far, as one string: what `ptr` and `size` give. */
    ghost function Line(): string
      requires Valid()
      reads this, fixedBuffer
    {
      if growable == "" then fixedBuffer[..used] else growable
    }

    constructor (strm: SocketStream, fixedBuffer: array<char>)
      requires fixedBuffer.Length >= 2 && fixedBuffer != strm.readBuff
      ensures Valid() && Line() == "" && this.strm == strm && this.fixedBuffer == fixedBuffer
    {
      this.strm, this.fixedBuffer := strm, fixedBuffer;
      used, growable := 0, "";
    }

    /** `append`: both tiers together are a plain growing string. */
    method Append(c: char)
      requires Valid()
      modifies this, fixedBuffer
      ensures Valid() && Line() == old(Line()) + [c]
    {
      if used < fixedBuffer.Length - 1 {
        fixedBuffer[used] := c;
        used := used + 1;
        fixedBuffer[used] := '\0';
      } else {
        if growable == "" {
          assert fixedBuffer[used] == '\0';
          growable := fixedBuffer[..used];
        }
        growable := growable + [c];
      }
    }

    method Clear()
      requires Valid()
      modifies this
      ensures Valid() && Line() == ""
    {
      used, growable := 0, "";
    }

    /** `ptr` and `size` */
    method Text() returns (s: string)
      requires Valid()
      ensures s == Line()
    {
      s := if growable == "" then fixedBuffer[..used] else growable;
    }

    /** One byte from the stream to the line. */
    method ReadByte() returns (r: Received)
      requires Valid() && strm.Valid()
      modifies this, fixedBuffer, strm, strm.readBuff, strm.sock`incoming, strm.sock`broken
      ensures strm.sock.healthy ==> strm.sock.broken == old(strm.sock.broken)
      ensures Valid() && strm.Valid()
      ensures r.Failed? ==> strm.sock.broken
      ensures r.Data? ==> strm.sock.broken == old(strm.sock.broken) && |r.bytes| <= 1
      ensures r.Data? ==> Line() == old(Line()) + r.bytes && old(strm.Pending()) == r.bytes + strm.Pending()
      ensures r.Data? && r.bytes == "" ==> strm.Pending() == ""
    {
      r := strm.Read(1);
      if r.Data? && r.bytes != "" {
        assert r.bytes == [r.bytes[0]];
        Append(r.bytes[0]);
      }
    }

    /** `getline`: the next line of the stream, the last one possibly without a newline. */
    method GetLine() returns (ok: bool)
      requires Valid() && strm.Valid()
      modifies this, fixedBuffer, strm, strm.readBuff, strm.sock`incoming, strm.sock`broken
      ensures strm.sock.healthy ==> strm.sock.broken == old(strm.sock.broken)
      ensures Valid() && strm.Valid() && (old(strm.sock.broken) ==> strm.sock.broken)
      ensures ok ==> old(strm.Pending()) != "" && strm.sock.broken == old(strm.sock.broken)
      ensures ok ==> Line() == FirstLine(old(strm.Pending())) && strm.Pending() == AfterLine(old(strm.Pending()))
      ensures !ok && !strm.sock.broken ==> old(strm.Pending()) == ""
    {
      hide FirstLine, AfterLine, SocketStream.Pending, SocketStream.Valid, Line, Valid;
      ghost var text := strm.Pending();
      Clear();
      assert text == strm.Pending();
      var i := 0;
      while true
        invariant Valid() && strm.Valid() && strm.sock.broken == old(strm.sock.broken)
        invariant text == Line() + strm.Pending() && |Line()| == i && '\n' !in Line()
        decreases |text| - i
      {
        ghost var line := Line();
        var r := ReadByte();
        if r.Failed? { return false; }
        if r.bytes == "" {
          if i == 0 { return false; }
          LineEnds(text, Line(), "");
          return true;
        }
        assert Line()[..i] == line;
        assert text == Line() + strm.Pending();
        if r.bytes[0] == '\n' {
          LineEnds(text, Line(), strm.Pending());
          return true;
        }
        i := i + 1;
      }
    }
  }

  lemma LineEnds(text: string, line: string, rest: string)
    requires text == line + rest && line != ""
    requires '\n' !in line[..|line| - 1] && (line[|line| - 1] == '\n' || rest == "")
    ensures FirstLine(text) == line && AfterLine(text) == rest
  {
    var k := |line| - 1;
    assert forall i :: 0 <= i < k ==> text[i] == line[..k][i];
    if line[k] == '\n' {
      assert text[k] == '\n';
      IndexIs(text, '\n', 0, k);
      assert text[..k + 1] == line;
    } else {
      assert text == line;
      IndexIs(text, '\n', 0, |text|);
    }
  }

  // ---------------------------------------------------------------- body readers

  /** A receiver's answer to the last of the pieces handed to it, the progress callback included. */
  type Receiver = seq<string> -> bool

  /** It took every piece after the first `from`. */
  ghost predicate TookAll(accept: Receiver, from: nat, pieces: seq<string>) {
    forall k :: from < k <= |pieces| ==> accept(pieces[..k])
  }

  /** It refused the last piece. */
  predicate Refused(accept: Receiver, from: nat, pieces: seq<string>) { from < |pieces| && !accept(pieces) }

  lemma TookOne(accept: Receiver, from: nat, pieces: seq<string>, piece: string)
    requires TookAll(accept, from, pieces) && accept(pieces + [piece])
    ensures TookAll(accept, from, pieces + [piece])
  {
    var all := pieces + [piece];
    forall k | from < k <= |all| ensures accept(all[..k]) {
      assert all[..k] == if k <= |pieces| then pieces[..k] else all;
    }
  }

  /** `read_content_with_length`: exactly the next `len` bytes, in however many reads, are handed to
      the receiver behind the `given` pieces; unless it refuses one, or there are not as many. */
  method ReadContentWithLength(strm: SocketStream, len: nat, accept: Receiver, given: seq<string>)
    returns (ok: bool, pieces: seq<string>)
    requires strm.Valid()
    modifies strm, strm.readBuff, strm.sock`incoming, strm.sock`broken
    ensures strm.sock.healthy ==> strm.sock.broken == old(strm.sock.broken)
    ensures strm.Valid() && (old(strm.sock.broken) ==> strm.sock.broken)
    ensures given <= pieces && old(strm.Pending()) == Flatten(pieces[|given|..]) + strm.Pending()
    ensures ok ==> strm.sock.broken == old(strm.sock.broken) && |Flatten(pieces[|given|..])| == len
    ensures ok ==> TookAll(accept, |given|, pieces)
    ensures !ok && !strm.sock.broken ==> |old(strm.Pending())| < len || Refused(accept, |given|, pieces)
  {
    hide SocketStream.Pending, SocketStream.Valid, Flatten, TookAll;
    ghost var text := strm.Pending();
    pieces := given;
    ghost var new_: seq<string> := [];
    FlattenNone(text);
    assert pieces[|given|..] == [];
    NothingTaken(accept, pieces);
    var r := 0;
    while r < len
      invariant strm.Valid() && strm.sock.broken == old(strm.sock.broken)
      invariant given <= pieces && new_ == pieces[|given|..]
      invariant r == |Flatten(new_)| <= len && text == Flatten(new_) + strm.Pending()
      invariant TookAll(accept, |given|, pieces)
    {
      var want := if len - r < RECV_BUFFER then len - r else RECV_BUFFER;
      var got := strm.Read(want);
      if got.Failed? || got.bytes == "" { return false, pieces; }
      FlattenSnoc(new_, got.bytes);
      Assoc(Flatten(new_), got.bytes, strm.Pending());
      ghost var before := pieces;
      pieces := pieces + [got.bytes];
      new_ := new_ + [got.bytes];
      assert new_ == pieces[|given|..];
      if !accept(pieces) { return false, pieces; }
      TookOne(accept, |given|, before, got.bytes);
      r := r + |got.bytes|;
    }
    ok := true;
  }

  lemma NothingTaken(accept: Receiver, pieces: seq<string>)
    ensures TookAll(accept, |pieces|, pieces) && Flatten([]) == ""
  {
  }

  /** The reader stands behind the first line of `s`. */
  ghost predicate LineTaken(reader: LineReader, s: string)
    requires reader.Valid() && reader.strm.Valid()
    reads reader, reader.fixedBuffer, reader.strm, reader.strm.readBuff, reader.strm.sock
  {
    s != "" && reader.Line() == FirstLine(s) && reader.strm.Pending() == AfterLine(s)
  }

  /** `read_content_chunked`: what the bytes mean does not depend on how they arrive.  Without a
      failing read or a refusal the outcome is the one `Chunks` gives. */
  method ReadContentChunked(strm: SocketStream, accept: Receiver)
    returns (ok: bool, pieces: seq<string>, trailers: seq<(string, string)>)
    requires strm.Valid()
    modifies strm, strm.readBuff, strm.sock`incoming, strm.sock`broken
    ensures strm.sock.healthy ==> strm.sock.broken == old(strm.sock.broken)
    ensures strm.Valid() && (old(strm.sock.broken) ==> strm.sock.broken)
    ensures ok ==> Chunks("", old(strm.Pending())) == Good(Flatten(pieces), trailers, strm.Pending())
    ensures ok ==> TookAll(accept, 0, pieces) && strm.sock.broken == old(strm.sock.broken)
    ensures !ok && !strm.sock.broken ==> Chunks("", old(strm.Pending())) == Bad || Refused(accept, 0, pieces)
  {
    hide FirstLine, AfterLine, Strtoul, Chunks, SocketStream.Pending, SocketStream.Valid, LineReader.Line, LineReader.Valid;
    hide Flatten, TookAll;
    ghost var text := strm.Pending();
    var buf := new char[16](_ => '\0');
    var reader := new LineReader(strm, buf);
    pieces, trailers := [], [];
    NothingTaken(accept, []);
    ok := reader.GetLine();
    if !ok {
      ChunksUnfold("", text);
      return;
    }
    ghost var s := text;
    var more := true;
    while more
      invariant reader.Valid() && strm.Valid() && reader.strm == strm && fresh(reader) && fresh(reader.fixedBuffer)
      invariant strm.sock.broken == old(strm.sock.broken)
      invariant LineTaken(reader, s) && TookAll(accept, 0, pieces)
      invariant Chunks("", text) == Chunks(Flatten(pieces), s)
      invariant !more ==> Strtoul(FirstLine(s)) == Some(0)
      decreases |s|, more
    {
      ChunksUnfold(Flatten(pieces), s);
      var line := reader.Text();
      var n := Strtoul(line);
      if n.None? || n.value == ULONG_MAX { return false, pieces, trailers; }
      if n.value == 0 {
        more := false;
      } else {
        ok, pieces := ReadChunkBody(reader, n.value, s, accept, pieces);
        if !ok { return; }
        s := AfterLine(AfterLine(s)[n.value..]);
        ok := reader.GetLine();
        if !ok {
          ChunksUnfold(Flatten(pieces), s);
          return;
        }
      }
    }
    ChunksUnfold(Flatten(pieces), s);
    ok, trailers := ReadTrailers(reader, Flatten(pieces), AfterLine(s));
  }

  lemma ChunksUnfold(p: string, s: string)
    ensures s == "" ==> Chunks(p, s) == Bad
    ensures s != "" ==> var r, t := Strtoul(FirstLine(s)), AfterLine(s);
      && (r.None? || r.value == ULONG_MAX ==> Chunks(p, s) == Bad)
      && (r == Some(0) ==> Chunks(p, s) == Trailers(p, [], t))
      && (r.Some? && 0 < r.value != ULONG_MAX ==>
           Chunks(p, s) == if |t| < r.value || t[r.value..] == "" || FirstLine(t[r.value..]) != CRLF then Bad
                           else Chunks(p + t[..r.value], AfterLine(t[r.value..])))
  {
    hide FirstLine, AfterLine, Strtoul;
  }

  /** The data of one chunk and the line end behind it. */
  method ReadChunkBody(reader: LineReader, n: nat, ghost s: string, accept: Receiver, given: seq<string>)
    returns (ok: bool, pieces: seq<string>)
    requires reader.Valid() && reader.strm.Valid() && LineTaken(reader, s) && TookAll(accept, 0, given)
    modifies reader, reader.fixedBuffer, reader.strm, reader.strm.readBuff
    modifies reader.strm.sock`incoming, reader.strm.sock`broken
    ensures reader.strm.sock.healthy ==> reader.strm.sock.broken == old(reader.strm.sock.broken)
    ensures reader.Valid() && reader.strm.Valid() && (old(reader.strm.sock.broken) ==> reader.strm.sock.broken)
    ensures var t := AfterLine(s);
      if ok then
        && reader.strm.sock.broken == old(reader.strm.sock.broken) && TookAll(accept, 0, pieces)
        && n < |t| && Flatten(pieces) == Flatten(given) + t[..n]
        && FirstLine(t[n..]) == CRLF && reader.strm.Pending() == AfterLine(t[n..])
      else
        || reader.strm.sock.broken || Refused(accept, 0, pieces)
        || |t| < n || t[n..] == "" || FirstLine(t[n..]) != CRLF
  {
    hide FirstLine, AfterLine, SocketStream.Pending, SocketStream.Valid, LineReader.Line, Flatten, TookAll;
    ok, pieces := ReadContentWithLength(reader.strm, n, accept, given);
    if !ok { return; }
    ghost var t, new_ := AfterLine(s), pieces[|given|..];
    assert Flatten(new_) == t[..n] && reader.strm.Pending() == t[n..];
    assert pieces == given + new_;
    FlattenAppend(given, new_);
    TookBoth(accept, given, pieces);
    ok := reader.GetLine();
    if !ok { return; }
    var line := reader.Text();
    ok := line == CRLF;
  }

  lemma TookBoth(accept: Receiver, given: seq<string>, pieces: seq<string>)
    requires given <= pieces && TookAll(accept, 0, given) && TookAll(accept, |given|, pieces)
    ensures TookAll(accept, 0, pieces)
  {
    forall k | 0 < k <= |pieces| ensures accept(pieces[..k]) {
      if k <= |given| { assert pieces[..k] == given[..k]; }
    }
  }

  /** The trailer section. */
  method ReadTrailers(reader: LineReader, ghost payload: string, ghost s: string)
    returns (ok: bool, fields: seq<(string, string)>)
    requires reader.Valid() && reader.strm.Valid() && reader.strm.Pending() == s
    modifies reader, reader.fixedBuffer, reader.strm, reader.strm.readBuff
    modifies reader.strm.sock`incoming, reader.strm.sock`broken
    ensures reader.strm.sock.healthy ==> reader.strm.sock.broken == old(reader.strm.sock.broken)
    ensures reader.Valid() && reader.strm.Valid() && (old(reader.strm.sock.broken) ==> reader.strm.sock.broken)
    ensures ok ==> Trailers(payload, [], s) == Good(payload, fields, reader.strm.Pending())
    ensures ok ==> reader.strm.sock.broken == old(reader.strm.sock.broken)
    ensures !ok && !reader.strm.sock.broken ==> Trailers(payload, [], s) == Bad
  {
    hide FirstLine, AfterLine, SocketStream.Pending, SocketStream.Valid, LineReader.Line, LineReader.Valid;
    hide Fields.Parsed;
    fields := [];
    ok := reader.GetLine();
    if !ok { return; }
    ghost var u := s;
    var line := reader.Text();
    while line != CRLF
      invariant reader.Valid() && reader.strm.Valid() && reader.strm.sock.broken == old(reader.strm.sock.broken)
      invariant LineTaken(reader, u) && line == FirstLine(u) && ok
      invariant Trailers(payload, [], s) == Trailers(payload, fields, u)
      decreases |u|
    {
      if |line| > MAX_HEADER { return false, fields; }
      var field := Fields.ParseHeader(line);
      fields := fields + field;
      u := AfterLine(u);
      ok := reader.GetLine();
      if !ok { return; }
      line := reader.Text();
    }
  }

  /** One use of a stream. */
  datatype Request = UpTo(size: nat) | NextLine | Exactly(size: nat)

  /** What a request may be given when `s` is still to be delivered. */
  predicate Answers(q: Request, bytes: string, s: string) {
    match q
    case UpTo(n) => bytes <= s && |bytes| <= n && (bytes == "" ==> n == 0 || s == "")
    case NextLine => s != "" && bytes == FirstLine(s)
    case Exactly(n) => bytes <= s && |bytes| == n
  }

  /** The only way a request fails over a connection that works: what is left is too short for it. */
  predicate TooShort(q: Request, s: string) {
    match q
    case UpTo(_) => false
    case NextLine => s == ""
    case Exactly(n) => |s| < n
  }

  /** Each piece answers its request, at the place of `s` where the pieces before it end. */
  predicate AllAnswered(qs: seq<Request>, ps: seq<string>, s: string)
    requires |ps| <= |qs|
    decreases |ps|
  {
    ps == [] ||
    (var last := |ps| - 1;
     AllAnswered(qs, ps[..last], s) && Answers(qs[last], ps[last], Behind(s, |Flatten(ps[..last])|)))
  }

  function Behind(s: string, n: nat): string { if n <= |s| then s[n..] else "" }

  lemma AnsweredOne(qs: seq<Request>, ps: seq<string>, bytes: string, s: string, left: string)
    requires |ps| < |qs| && AllAnswered(qs, ps, s) && s == Flatten(ps) + left && Answers(qs[|ps|], bytes, left)
    ensures AllAnswered(qs, ps + [bytes], s)
  {
    hide Answers, Flatten;
    assert (ps + [bytes])[..|ps|] == ps;
    assert Behind(s, |Flatten(ps)|) == left;
  }

  method Serve(strm: SocketStream, reader: LineReader, q: Request) returns (ok: bool, bytes: string)
    requires strm.Valid() && reader.Valid() && reader.strm == strm
    modifies strm, strm.readBuff, reader, reader.fixedBuffer, strm.sock`incoming, strm.sock`broken
    ensures strm.sock.healthy ==> strm.sock.broken == old(strm.sock.broken)
    ensures strm.Valid() && reader.Valid()
    ensures old(strm.sock.broken) ==> strm.sock.broken
    ensures ok ==> Answers(q, bytes, old(strm.Pending())) && old(strm.Pending()) == bytes + strm.Pending()
    ensures !ok ==> strm.sock.broken || TooShort(q, old(strm.Pending()))
  {
    hide FirstLine, AfterLine, SocketStream.Pending, SocketStream.Valid, LineReader.Line;
    match q {
      case UpTo(n) =>
        var r := strm.Read(n);
        ok, bytes := r.Data?, if r.Data? then r.bytes else "";
      case NextLine =>
        ok := reader.GetLine();
        bytes := reader.Text();
      case Exactly(n) =>
        var pieces;
        ok, pieces := ReadContentWithLength(strm, n, _ => true, []);
        bytes := Flatten(pieces);
        assert pieces[0..] == pieces;
    }
  }

  /** MAIN RESULT.  Any mix of reads, lines and fixed-length bodies on one stream delivers, up to the
      first that fails, consecutive slices of the bytes the peer sent, each the answer to its request,
      however the bytes were split on the way. */
  method Mix(strm: SocketStream, reader: LineReader, requests: seq<Request>) returns (pieces: seq<string>)
    requires strm.Valid() && reader.Valid() && reader.strm == strm
    modifies strm, strm.readBuff, reader, reader.fixedBuffer, strm.sock`incoming, strm.sock`broken
    ensures strm.sock.healthy ==> strm.sock.broken == old(strm.sock.broken)
    ensures strm.Valid() && reader.Valid()
    ensures |pieces| <= |requests| && AllAnswered(requests, pieces, old(strm.Pending()))
    ensures Flatten(pieces) <= old(strm.Pending())
    ensures |pieces| < |requests| ==>
      strm.sock.broken || TooShort(requests[|pieces|], Behind(old(strm.Pending()), |Flatten(pieces)|))
    ensures |pieces| == |requests| ==> old(strm.Pending()) == Flatten(pieces) + strm.Pending()
  {
    hide SocketStream.Pending, SocketStream.Valid, LineReader.Valid, Flatten, Answers, FirstLine;
    ghost var text := strm.Pending();
    pieces := [];
    FlattenNone(text);
    while |pieces| < |requests|
      invariant strm.Valid() && reader.Valid() && |pieces| <= |requests|
      invariant text == Flatten(pieces) + strm.Pending() && AllAnswered(requests, pieces, text)
      invariant strm.sock.healthy ==> strm.sock.broken == old(strm.sock.broken)
    {
      ghost var left := strm.Pending();
      var ok, bytes := Serve(strm, reader, requests[|pieces|]);
      assert Behind(text, |Flatten(pieces)|) == left;
      if !ok { return; }
      AnsweredOne(requests, pieces, bytes, text, left);
      FlattenSnoc(pieces, bytes);
      Assoc(Flatten(pieces), bytes, strm.Pending());
      pieces := pieces + [bytes];
    }
  }

  lemma {:induction false} FlattenAppend(a: seq<string>, b: seq<string>)
    ensures Flatten(a + b) == Flatten(a) + Flatten(b)
  {
    if a == [] {
      assert a + b == b;
    } else {
      assert (a + b)[1..] == a[1..] + b;
      FlattenAppend(a[1..], b);
      Assoc(a[0], Flatten(a[1..]), Flatten(b));
    }
  }

  lemma FlattenNone(t: string)
    ensures Flatten([]) + t == t
  {
  }

  // ---------------------------------------------------------------- body writers

  /** `write_data`: all of it, in however many writes. */
  method WriteData(sock: Socket, d: string) returns (ok: bool)
    modifies sock`sent, sock`broken
    ensures sock.healthy ==> sock.broken == old(sock.broken)
    ensures ok ==> sock.broken == old(sock.broken) && sock.sent == old(sock.sent) + d
    ensures !ok ==> sock.broken
  {
    var offset := 0;
    assert d[..0] == "";
    while offset < |d|
      invariant 0 <= offset <= |d| && sock.broken == old(sock.broken)
      invariant sock.sent == old(sock.sent) + d[..offset]
    {
      var length := sock.Send(d[offset..]);
      if length < 0 { return false; }
      assert d[..offset] + d[offset..][..length] == d[..offset + length];
      Assoc(old(sock.sent), d[..offset], d[offset..][..length]);
      offset := offset + length;
    }
    assert d[..offset] == d;
    ok := true;
  }

  /** `from_i_to_hex`: digits are put in front, the low one first. */
  method FromIToHex(number: nat) returns (ret: string)
    ensures ret == Hex(number)
  {
    var n := number;
    ret := [HexChar(n % 16)];
    n := n / 16;
    while n > 0
      invariant Hex(number) == if n > 0 then Hex(n) + ret else ret
    {
      var c := [HexChar(n % 16)];
      if n >= 16 { Assoc(Hex(n / 16), c, ret); }
      ret := c + ret;
      n := n / 16;
    }
  }

  /** The `DataSink` of `write_content_chunked`, with the compressor that changes nothing. */
  class ChunkedSink {
    const sock: Socket
    var dataAvailable: bool
    var ok: bool

    constructor (sock: Socket)
      ensures this.sock == sock && dataAvailable && ok
    {
      this.sock, dataAvailable, ok := sock, true, true;
    }

    /** `write`; after a failure nothing is done. */
    method Write(d: string)
      modifies this, sock`sent, sock`broken
      ensures sock.healthy ==> sock.broken == old(sock.broken)
      ensures Does(Put(d))
    {
      hide Hex;
      if !ok { return; }
      dataAvailable := |d| > 0;
      if |d| > 0 {
        var size := FromIToHex(|d|);
        var chunk := size + CRLF + d + CRLF;
        var writable := sock.IsReady();
        if !writable {
          ok := false;
        } else {
          ok := WriteData(sock, chunk);
        }
      }
    }

    /** A call on the sink: its text is sent, or the connection is broken. */
    twostate predicate Does(op: Op)
      reads this, sock
    {
      if !old(ok) then !ok && dataAvailable == old(dataAvailable) && sock.broken == old(sock.broken)
      else if ok then
        dataAvailable == GoesOn(op) && sock.broken == old(sock.broken) && sock.sent == old(sock.sent) + OpText(op)
      else sock.broken
    }

    /** `done_with_trailer`: a failing write is noted, the later ones are made all the same. */
    method Done(trailers: seq<(string, string)>)
      modifies this, sock`sent, sock`broken
      ensures sock.healthy ==> sock.broken == old(sock.broken)
      ensures Does(Op.Done(trailers))
    {
      hide FieldLine;
      if !ok { return; }
      dataAvailable := false;
      ghost var before := sock.sent;
      ok := WriteData(sock, "0\r\n");
      var i := 0;
      assert trailers[0..] == trailers;
      while i < |trailers|
        invariant 0 <= i <= |trailers| && !dataAvailable
        invariant ok ==> sock.broken == old(sock.broken)
        invariant ok ==> before + "0\r\n" + FieldLines(trailers) == sock.sent + FieldLines(trailers[i..])
        invariant !ok ==> sock.broken
        invariant sock.healthy ==> sock.broken == old(sock.broken)
      {
        ghost var sent := sock.sent;
        var wrote := WriteData(sock, FieldLine(trailers[i]));
        assert trailers[i..][1..] == trailers[i + 1..];
        Assoc(sent, FieldLine(trailers[i]), FieldLines(trailers[i + 1..]));
        if !wrote { ok := false; }
        i := i + 1;
      }
      var wrote := WriteData(sock, CRLF);
      if !wrote { ok := false; }
      Assoc(before, "0\r\n", FieldLines(trailers));
      Assoc(before, "0\r\n" + FieldLines(trailers), CRLF);
      Assoc("0\r\n", FieldLines(trailers), CRLF);
    }
  }

  /** The calls a provider makes in one turn. */
  method Provide(sink: ChunkedSink, ops: seq<Op>)
    requires sink.ok
    modifies sink, sink.sock`sent, sink.sock`broken
    ensures sink.sock.healthy ==> sink.sock.broken == old(sink.sock.broken)
    ensures sink.ok ==> sink.sock.broken == old(sink.sock.broken)
    ensures sink.ok ==> sink.sock.sent == old(sink.sock.sent) + OpsText(ops)
    ensures sink.ok ==> sink.dataAvailable == if ops == [] then old(sink.dataAvailable) else Available(ops)
    ensures !sink.ok ==> sink.sock.broken
  {
    hide OpText, OpsText;
    var i := 0;
    OneText();
    assert ops[..0] == [];
    while i < |ops|
      invariant 0 <= i <= |ops|
      invariant sink.ok ==> sink.sock.broken == old(sink.sock.broken)
      invariant sink.ok ==> sink.sock.sent == old(sink.sock.sent) + OpsText(ops[..i])
      invariant sink.ok ==> sink.dataAvailable == if i == 0 then old(sink.dataAvailable) else GoesOn(ops[i - 1])
      invariant !sink.ok ==> sink.sock.broken
      invariant sink.sock.healthy ==> sink.sock.broken == old(sink.sock.broken)
    {
      match ops[i] {
        case Put(d) => sink.Write(d);
        case Done(trailers) => sink.Done(trailers);
      }
      TextSnoc(ops, i);
      Assoc(old(sink.sock.sent), OpsText(ops[..i]), OpText(ops[i]));
      i := i + 1;
    }
    assert ops[..i] == ops;
  }

  lemma OneText()
    ensures OpsText([]) == ""
  {
  }

  lemma TextSnoc(ops: seq<Op>, i: nat)
    requires i < |ops|
    ensures OpsText(ops[..i + 1]) == OpsText(ops[..i]) + OpText(ops[i])
  {
    hide OpText;
    assert ops[..i + 1] == ops[..i] + [ops[i]];
    OpsTextAppend(ops[..i], [ops[i]]);
    assert [ops[i]][1..] == [];
    assert OpsText([ops[i]]) == OpText(ops[i]) + OpsText([]) == OpText(ops[i]);
  }

  /** `write_content_chunked`: turn after turn, until no data is available, the server shuts down or
      the provider cancels.  Over a connection that works, exactly the calls made are sent. */
  method WriteContentChunked(sock: Socket, script: seq<Turn>) returns (ok: bool)
    requires Ends(script)
    modifies sock`sent, sock`broken
    ensures sock.healthy ==> sock.broken == old(sock.broken)
    ensures old(sock.broken) ==> sock.broken
    ensures ok ==> sock.broken == old(sock.broken)
    ensures !sock.broken ==> sock.sent == old(sock.sent) + OpsText(Executed(script))
    ensures !sock.broken ==> (ok <==> !Cancelled(script))
  {
    hide OpsText, Available;
    var sink := new ChunkedSink(sock);
    var i := 0;
    assert script[0..] == script;
    while sink.dataAvailable && !script[i].shuttingDown
      invariant 0 <= i <= |script| && sink.ok && sink.sock == sock && fresh(sink)
      invariant sock.broken == old(sock.broken)
      invariant sink.dataAvailable ==> Ends(script[i..])
      invariant Cancelled(script) <==> sink.dataAvailable && Cancelled(script[i..])
      invariant old(sock.sent) + OpsText(Executed(script)) == sock.sent + if sink.dataAvailable then OpsText(Executed(script[i..])) else ""
      decreases sink.dataAvailable, |script| - i
    {
      var writable := sock.IsReady();
      if !writable { return false; }
      ghost var sent := sock.sent;
      ExecutedStep(script, i, sent);
      Provide(sink, script[i].ops);
      if !script[i].result { return false; }
      if !sink.ok { return false; }
      i := i + 1;
    }
    OneText();
    ok := true;
  }

  /** What is sent from turn `i` on. */
  lemma ExecutedStep(script: seq<Turn>, i: nat, sent: string)
    requires i < |script| && !script[i].shuttingDown
    ensures var all := sent + OpsText(Executed(script[i..]));
      all == if Last(script[i]) then sent + OpsText(script[i].ops)
             else sent + OpsText(script[i].ops) + OpsText(Executed(script[i + 1..]))
    ensures Ends(script[i..]) <==> Last(script[i]) || Ends(script[i + 1..])
    ensures Cancelled(script[i..]) <==>
      !script[i].result || (Available(script[i].ops) && Cancelled(script[i + 1..]))
    ensures script[i].ops == [] ==> Available(script[i].ops)
  {
    hide OpsText;
    var turn := script[i];
    assert script[i..][0] == turn && script[i..][1..] == script[i + 1..];
    if Last(turn) {
      assert turn.ops + [] == turn.ops;
    } else {
      OpsTextAppend(turn.ops, Executed(script[i + 1..]));
      Assoc(sent, OpsText(turn.ops), OpsText(Executed(script[i + 1..])));
    }
  }

  /** A body written in chunks on one connection and read from another that carries the same bytes,
      into a receiver that takes everything.  Where no write fails, what arrives is what was written
      before the first `done`; where no read fails either, it arrives if and only if there is one. */
  method Transfer(from: Socket, to: Socket, script: seq<Turn>)
    returns (arrived: bool, pieces: seq<string>, trailers: seq<(string, string)>)
    requires Ends(script) && OpsOk(Executed(script))
    requires from != to && from.sent == "" && to.incoming == "" && !from.broken && !to.broken
    modifies from, to
    ensures (from.healthy ==> !from.broken) && (to.healthy ==> !to.broken)
    ensures var ops := Executed(script);
      var k := FirstDone(ops);
      && (arrived && !from.broken ==> k < |ops| && Flatten(pieces) == Payload(ops[..k]) && trailers == FieldsRead(ops[k].trailers))
      && (!from.broken && !to.broken ==> (arrived <==> k < |ops|))
  {
    hide Chunks, OpsText, Executed, Ends, Payload, FieldsRead, Flatten, TookAll, OpsOk, FirstDone;
    hide SocketStream.Pending, SocketStream.Valid;
    ghost var sent := OpsText(Executed(script));
    assert "" + sent == sent;
    var wrote := WriteContentChunked(from, script);
    assert !from.broken ==> from.sent == sent;
    to.incoming := from.sent;
    var strm := new SocketStream(to);
    ghost var ops := Executed(script);
    ChunkedRoundTrip(script, "");
    assert OpsText(ops) + "" == OpsText(ops);
    arrived, pieces, trailers := ReadContentChunked(strm, _ => true);
  }
}
