/** Chunked transfer coding (section 4.1 of RFC 7230) as values: what the writer sends and what
    the reader makes of a byte stream. */
module Chunked {
  import opened Text
  import Fields

  const ULONG_MAX := 0xffff_ffff_ffff_ffff

  // ---------------------------------------------------------------- hexadecimal

  function HexChar(v: nat): char
    requires v < 16
  {
    if v < 10 then ('0' as int + v) as char else ('a' as int + v - 10) as char
  }

  /** `from_i_to_hex` */
  function Hex(n: nat): (h: string)
    ensures |h| >= 1
  {
    if n < 16 then [HexChar(n)] else Hex(n / 16) + [HexChar(n % 16)]
  }

  /** The longest run of hexadecimal digits at the head of `s`. */
  function DigitRun(s: string): (n: nat)
    ensures n <= |s|
  {
    if s == "" || DigitValue(s[0]) < 0 then 0 else 1 + DigitRun(s[1..])
  }

  function ValueOf(ds: string): nat
    requires forall i :: 0 <= i < |ds| ==> DigitValue(ds[i]) >= 0
  {
    if ds == "" then 0 else 16 * ValueOf(ds[..|ds| - 1]) + DigitValue(ds[|ds| - 1])
  }

  lemma DigitRunAll(s: string)
    ensures forall i :: 0 <= i < DigitRun(s) ==> DigitValue(s[i]) >= 0
  {
  }

  /** An optional `0x`, taken only when a digit follows it. */
  function SkipPrefix(s: string): string {
    if |s| >= 3 && s[0] == '0' && s[1] in "xX" && DigitValue(s[2]) >= 0 then s[2..] else s
  }

  /** `strtoul(line, &end, 16)`: `None` when nothing is converted; too large a number saturates;
      a minus sign negates in 64 bits. */
  function Strtoul(line: string): Option<nat> {
    var s := SkipSpace(line);
    var negative := s != "" && s[0] == '-';
    var t := SkipPrefix(if s != "" && s[0] in "+-" then s[1..] else s);
    var n := DigitRun(t);
    if n == 0 then None
    else
      DigitRunAll(t);
      var v := ValueOf(t[..n]);
      if v > ULONG_MAX then Some(ULONG_MAX)
      else if negative && v > 0 then Some(ULONG_MAX + 1 - v)
      else Some(v)
  }

  // ---------------------------------------------------------------- writer

  /** A call on the data sink: something is written, or the body is said to be done. */
  datatype Op = Put(data: string) | Done(trailers: seq<(string, string)>)

  /** One turn of the writing loop: whether the server is shutting down; the calls the provider makes
      on the sink; and what it returns. */
  datatype Turn = Turn(shuttingDown: bool, ops: seq<Op>, result: bool)

  function Chunk(data: string): string { Hex(|data|) + CRLF + data + CRLF }

  function FieldLine(kv: (string, string)): string { kv.0 + ": " + kv.1 + CRLF }

  function FieldLines(kvs: seq<(string, string)>): string {
    if kvs == [] then "" else FieldLine(kvs[0]) + FieldLines(kvs[1..])
  }

  function Terminator(kvs: seq<(string, string)>): string { "0\r\n" + (FieldLines(kvs) + CRLF) }

  /** A non-empty write leaves `data_available` set. */
  predicate GoesOn(op: Op) { op.Put? && op.data != "" }

  /** Whether it is still set after the calls of one turn. */
  predicate Available(ops: seq<Op>) { ops == [] || GoesOn(ops[|ops| - 1]) }

  /** The loop ends with this turn. */
  predicate Last(turn: Turn) { turn.shuttingDown || !turn.result || !Available(turn.ops) }

  /** The loop ends within the script. */
  predicate Ends(script: seq<Turn>) { script != [] && (Last(script[0]) || Ends(script[1..])) }

  /** The provider cancels the body. */
  predicate Cancelled(script: seq<Turn>) {
    && script != [] && !script[0].shuttingDown
    && (!script[0].result || (Available(script[0].ops) && Cancelled(script[1..])))
  }

  /** The calls made on the sink until the loop ends. */
  function Executed(script: seq<Turn>): seq<Op> {
    if script == [] || script[0].shuttingDown then []
    else script[0].ops + if Last(script[0]) then [] else Executed(script[1..])
  }

  function OpText(op: Op): string {
    match op
    case Put(d) => if d == "" then "" else Chunk(d)
    case Done(kvs) => Terminator(kvs)
  }

  function OpsText(ops: seq<Op>): string { if ops == [] then "" else OpText(ops[0]) + OpsText(ops[1..]) }

  lemma {:induction false} OpsTextAppend(a: seq<Op>, b: seq<Op>)
    ensures OpsText(a + b) == OpsText(a) + OpsText(b)
  {
    hide OpText;
    if a == [] {
      assert a + b == b && "" + OpsText(b) == OpsText(b);
    } else {
      assert (a + b)[1..] == a[1..] + b;
      OpsTextAppend(a[1..], b);
      Assoc(OpText(a[0]), OpsText(a[1..]), OpsText(b));
    }
  }

  function Payload(ops: seq<Op>): string {
    if ops == [] then "" else (if ops[0].Put? then ops[0].data else "") + Payload(ops[1..])
  }

  /** The first `done`, or the number of calls. */
  function FirstDone(ops: seq<Op>): (k: nat)
    ensures k <= |ops| && (k < |ops| ==> ops[k].Done?) && forall i :: 0 <= i < k ==> ops[i].Put?
  {
    if ops == [] || ops[0].Done? then 0 else 1 + FirstDone(ops[1..])
  }

  // ---------------------------------------------------------------- reader

  /** Up to and including the first newline, or everything. */
  function FirstLine(s: string): (l: string)
    ensures l <= s && (s != "" ==> l != "")
  {
    var i := IndexFrom(s, '\n', 0);
    if i < |s| then s[..i + 1] else s
  }

  function AfterLine(s: string): (t: string)
    ensures s != "" ==> |t| < |s|
    ensures s == FirstLine(s) + t
  {
    s[|FirstLine(s)|..]
  }

  datatype Read = Bad | Good(payload: string, trailers: seq<(string, string)>, rest: string)

  /** Trailer lines up to the blank line. */
  function Trailers(payload: string, fields: seq<(string, string)>, s: string): Read
    decreases |s|
  {
    if s == "" then Bad
    else if FirstLine(s) == CRLF then Good(payload, fields, AfterLine(s))
    else if |FirstLine(s)| > MAX_HEADER then Bad
    else Trailers(payload, fields + Fields.Parsed(FirstLine(s)), AfterLine(s))
  }

  /** `read_content_chunked`, `payload` being what was delivered before. */
  function Chunks(payload: string, s: string): Read
    decreases |s|
  {
    if s == "" then Bad
    else
      var t := AfterLine(s);
      match Strtoul(FirstLine(s))
      case None => Bad
      case Some(n) =>
        if n == ULONG_MAX then Bad
        else if n == 0 then Trailers(payload, [], t)
        else if |t| < n then Bad
        else
          var u := t[n..];
          if u == "" || FirstLine(u) != CRLF then Bad
          else Chunks(payload + t[..n], AfterLine(u))
  }

  // ---------------------------------------------------------------- hex printing and parsing

  lemma {:induction false} HexDigits(n: nat)
    ensures forall i :: 0 <= i < |Hex(n)| ==> DigitValue(Hex(n)[i]) >= 0
    ensures ValueOf(Hex(n)) == n
    ensures n > 0 ==> Hex(n)[0] != '0'
  {
    if n >= 16 {
      HexDigits(n / 16);
      var h, c := Hex(n / 16), HexChar(n % 16);
      assert (h + [c])[..|h + [c]| - 1] == h;
    } else {
      assert Hex(n)[..0] == "";
      assert ValueOf("") == 0;
    }
  }

  lemma {:induction false} DigitRunIs(ds: string, rest: string)
    requires forall i :: 0 <= i < |ds| ==> DigitValue(ds[i]) >= 0
    requires rest == "" || DigitValue(rest[0]) < 0
    ensures DigitRun(ds + rest) == |ds|
  {
    if ds == "" {
      assert ds + rest == rest;
    } else {
      assert (ds + rest)[1..] == ds[1..] + rest;
      DigitRunIs(ds[1..], rest);
    }
  }

  /** Parsing undoes printing. */
  lemma HexRoundTrip(n: nat)
    requires n <= ULONG_MAX
    ensures Strtoul(Hex(n) + CRLF) == Some(n)
  {
    hide Hex, DigitRun, ValueOf;
    var h := Hex(n);
    var line := h + CRLF;
    HexDigits(n);
    DigitRunIs(h, CRLF);
    assert line[0] == h[0];
    assert SkipSpace(line) == line;
    assert |h| >= 3 ==> line[1] == h[1];
    assert |h| == 2 ==> line[1] == h[1];
    assert |h| == 1 ==> line[1] == '\r';
    assert SkipPrefix(line) == line;
    assert line[..|h|] == h;
  }

  // ---------------------------------------------------------------- round trip

  lemma LineIs(l: string, rest: string)
    requires '\n' !in l
    ensures FirstLine(l + CRLF + rest) == l + CRLF && AfterLine(l + CRLF + rest) == rest
  {
    var s := l + CRLF + rest;
    var k := |l| + 1;
    assert s[k] == '\n';
    assert forall i :: 0 <= i < |l| ==> s[i] == l[i];
    assert s[|l|] == '\r';
    IndexIs(s, '\n', 0, k);
    assert s[..k + 1] == l + CRLF;
    assert s[k + 1..] == rest;
  }

  lemma ChunkRead(p: string, d: string, rest: string)
    requires 0 < |d| < ULONG_MAX
    ensures Chunks(p, Chunk(d) + rest) == Chunks(p + d, rest)
  {
    hide Hex, FirstLine, AfterLine, Strtoul;
    var h, n := Hex(|d|), |d|;
    HexRoundTrip(n);
    HexDigits(n);
    var t := d + (CRLF + rest);
    assert Chunk(d) + rest == h + CRLF + t;
    LineIs(h, t);
    assert t[..n] == d && t[n..] == CRLF + rest;
    assert "" + CRLF + rest == CRLF + rest && "" + CRLF == CRLF;
    LineIs("", rest);
  }

  ghost predicate TrailerOk(kv: (string, string)) {
    '\n' !in kv.0 && '\n' !in kv.1 && |kv.0| + |kv.1| + 4 <= MAX_HEADER
  }

  /** What is read of the trailers: those that `parse_header` keeps, as it reads them. */
  function FieldsRead(kvs: seq<(string, string)>): seq<(string, string)> {
    if kvs == [] then [] else Fields.Parsed(FieldLine(kvs[0])) + FieldsRead(kvs[1..])
  }

  /** They are read as written when each of them is. */
  lemma {:induction false} FieldsKept(kvs: seq<(string, string)>)
    requires forall i :: 0 <= i < |kvs| ==> Fields.FieldOk(kvs[i])
    ensures FieldsRead(kvs) == kvs
  {
    if kvs != [] {
      FieldsKept(kvs[1..]);
      Fields.FieldExact(kvs[0]);
      assert kvs == [kvs[0]] + kvs[1..];
    }
  }

  lemma {:induction false} TrailersRead(p: string, fields: seq<(string, string)>, kvs: seq<(string, string)>, rest: string)
    requires forall i :: 0 <= i < |kvs| ==> TrailerOk(kvs[i])
    ensures Trailers(p, fields, FieldLines(kvs) + (CRLF + rest)) == Good(p, fields + FieldsRead(kvs), rest)
    decreases |kvs|
  {
    hide FirstLine, AfterLine, Fields.Parsed;
    if kvs == [] {
      assert "" + (CRLF + rest) == "" + CRLF + rest && "" + CRLF == CRLF;
      LineIs("", rest);
      assert fields + [] == fields;
    } else {
      var kv := kvs[0];
      assert TrailerOk(kv);
      var l, more := kv.0 + ": " + kv.1, FieldLines(kvs[1..]) + (CRLF + rest);
      LineIs(l, more);
      Assoc(FieldLine(kv), FieldLines(kvs[1..]), CRLF + rest);
      TrailersRead(p, fields + Fields.Parsed(FieldLine(kv)), kvs[1..], rest);
      Assoc(fields, Fields.Parsed(FieldLine(kv)), FieldsRead(kvs[1..]));
      assert |FieldLine(kv)| > 2;
    }
  }

  lemma TerminatorRead(p: string, kvs: seq<(string, string)>, rest: string)
    requires forall i :: 0 <= i < |kvs| ==> TrailerOk(kvs[i])
    ensures Chunks(p, Terminator(kvs) + rest) == Good(p, FieldsRead(kvs), rest)
  {
    hide FirstLine, AfterLine, FieldLines, Strtoul, FieldsRead;
    var t := FieldLines(kvs) + (CRLF + rest);
    Assoc(FieldLines(kvs), CRLF, rest);
    Assoc("0\r\n", FieldLines(kvs) + CRLF, rest);
    assert "0" + CRLF == "0\r\n";
    LineIs("0", t);
    HexRoundTrip(0);
    assert Hex(0) == "0";
    TrailersRead(p, [], kvs, rest);
    assert [] + FieldsRead(kvs) == FieldsRead(kvs);
  }

  ghost predicate OpsOk(ops: seq<Op>) {
    forall i :: 0 <= i < |ops| ==> match ops[i]
      case Put(d) => |d| < ULONG_MAX
      case Done(kvs) => forall j :: 0 <= j < |kvs| ==> TrailerOk(kvs[j])
  }

  /** The reader goes over the written chunks up to the first terminator. */
  lemma {:induction false} OpsRead(p: string, ops: seq<Op>, rest: string)
    requires OpsOk(ops)
    ensures var k := FirstDone(ops);
      Chunks(p, OpsText(ops) + rest) ==
        if k < |ops| then Good(p + Payload(ops[..k]), FieldsRead(ops[k].trailers), OpsText(ops[k + 1..]) + rest)
        else Chunks(p + Payload(ops), rest)
    decreases |ops|
  {
    hide Chunks, Chunk, Terminator, FieldsRead;
    if ops == [] {
      assert "" + rest == rest && p + "" == p;
    } else {
      var op, more := ops[0], ops[1..];
      var k := FirstDone(ops);
      Assoc(OpText(op), OpsText(more), rest);
      match op {
        case Done(kvs) =>
          TerminatorRead(p, kvs, OpsText(more) + rest);
          assert p + "" == p && ops[..0] == [];
        case Put(d) =>
          if d == "" {
            assert "" + (OpsText(more) + rest) == OpsText(more) + rest && p + d == p;
          } else {
            ChunkRead(p, d, OpsText(more) + rest);
          }
          OpsRead(p + d, more, rest);
          if k < |ops| {
            assert ops[..k][1..] == more[..k - 1] && ops[k + 1..] == more[k..];
          }
          Assoc(p, d, Payload(if k < |ops| then more[..k - 1] else more));
      }
    }
  }

  /** MAIN RESULT.  Whatever calls a provider makes, in whatever turns: what is sent is a complete
      message if and only if one of the calls before the loop ends is `done`.  The reader then
      delivers exactly what was written before the first `done`, and stops right behind its
      terminator; nothing but `rest` is left there if and only if every later call is an empty write. */
  lemma ChunkedRoundTrip(script: seq<Turn>, rest: string)
    requires OpsOk(Executed(script))
    ensures var ops := Executed(script);
      var k := FirstDone(ops);
      && (Chunks("", OpsText(ops)).Good? <==> k < |ops|)
      && (k < |ops| ==>
           && Chunks("", OpsText(ops) + rest)
              == Good(Payload(ops[..k]), FieldsRead(ops[k].trailers), OpsText(ops[k + 1..]) + rest)
           && (OpsText(ops[k + 1..]) == "" <==> forall i :: k < i < |ops| ==> ops[i] == Put("")))
  {
    hide Executed, Payload, OpText, FieldsRead, OpsText, Chunks;
    var ops := Executed(script);
    var k := FirstDone(ops);
    OpsRead("", ops, rest);
    OpsRead("", ops, "");
    assert OpsText(ops) + "" == OpsText(ops);
    NothingRead(Payload(ops));
    assert "" + Payload(ops) == Payload(ops);
    if k < |ops| {
      assert "" + Payload(ops[..k]) == Payload(ops[..k]);
      NothingSent(ops[k + 1..]);
      assert forall i :: k < i < |ops| ==> ops[i] == ops[k + 1..][i - k - 1];
    }
  }

  lemma NothingRead(p: string)
    ensures Chunks(p, "") == Bad
  {
  }

  lemma {:induction false} NothingSent(ops: seq<Op>)
    ensures OpsText(ops) == "" <==> forall i :: 0 <= i < |ops| ==> ops[i] == Put("")
  {
    if ops != [] {
      NothingSent(ops[1..]);
      assert forall i :: 0 < i < |ops| ==> ops[i] == ops[1..][i - 1];
    }
  }

  /** An empty write as the last call of a turn ends the loop successfully, and leaves an incomplete
      message. */
  lemma EmptyWriteEnds()
    ensures var script := [Turn(false, [Put("")], true)];
      Ends(script) && !Cancelled(script) && Chunks("", OpsText(Executed(script))) == Bad
  {
    hide Chunks;
    var script := [Turn(false, [Put("")], true)];
    assert Executed(script) == [Put("")];
    ChunkedRoundTrip(script, "");
    assert FirstDone([Put("")]) == 1;
  }

  /** A `write` and a `done` in one turn, as FRS's own providers end a body, is complete. */
  lemma WriteThenDone(data: string, rest: string)
    requires 0 < |data| < ULONG_MAX
    ensures var script := [Turn(false, [Put(data), Done([])], true)];
      Ends(script) && Chunks("", OpsText(Executed(script)) + rest) == Good(data, [], rest)
  {
    hide Chunks, OpText;
    var ops := [Put(data), Done([])];
    var script := [Turn(false, ops, true)];
    assert Executed(script) == ops by { assert ops + [] == ops; }
    OpsRead("", ops, rest);
    assert FirstDone(ops) == 1;
    assert ops[..1] == [Put(data)] && [Put(data)][1..] == [] && ops[2..] == [];
    assert Payload(ops[..1]) == data + "" == data && "" + data == data;
    assert OpsText([]) + rest == rest;
  }
}
