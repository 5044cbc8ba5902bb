/** A reply with several ranges, taken from a content provider: the counting pass that announces its
    length, and the writing pass. */
module MultiRange {
  import opened Text
  import opened Ranges

  /** `size_t` counts modulo this. */
  const TWO64 := 0x1_0000_0000_0000_0000

  /** A length a `ssize_t` can hold. */
  predicate LengthOk(len: nat) { len <= LLONG_MAX }

  // ---------------------------------------------------------------- offsets

  /** `get_range_offset_and_length`; the length is a `size_t`, so a negative one stands for its value
      modulo 2^64. */
  function OffsetAndLength(r: Range, len: nat): (int, int) {
    if r.first == -1 && r.last == -1 then (0, len)
    else
      var first := if r.first != -1 then r.first else if len - r.last > 0 then len - r.last else 0;
      var last := if r.first == -1 || r.last == -1 then len - 1 else r.last;
      (first, last - first + 1)
  }

  /** What a range asks for: from its first byte to its last, to the end, or a number of last bytes; as
      far as the content goes. */
  function Wanted(r: Range, content: string): string {
    if r.first == -1 then
      if 0 <= r.last < |content| then content[|content| - r.last..] else content
    else
      var end := if 0 <= r.last < |content| then r.last + 1 else |content|;
      if 0 <= r.first <= end then content[r.first..end] else ""
  }

  /** The range does not reach beyond the content. */
  predicate EndsInside(r: Range, len: nat) { r.first != -1 && r.last != -1 ==> r.last < len }

  /** By how much a range that is open at the end begins beyond it. */
  function Overshoot(r: Range, len: nat): nat {
    if r.first != -1 && r.last == -1 && r.first > len then r.first - len else 0
  }

  /** Offset and length lie inside the content exactly when the range neither ends nor begins beyond it;
      they name then exactly the slice asked for.  `0-5` of three bytes is not such a range. */
  lemma SliceExact(r: Range, content: string)
    requires RangeOk(r)
    ensures var (offset, length) := OffsetAndLength(r, |content|);
      && ((0 <= offset && 0 <= length && offset + length <= |content|)
          <==> EndsInside(r, |content|) && Overshoot(r, |content|) == 0)
      && (EndsInside(r, |content|) && Overshoot(r, |content|) == 0 ==>
            content[offset..offset + length] == Wanted(r, content))
    ensures OffsetAndLength(Range(0, 5), 3) == (0, 6)
  {
  }

  /** The length counted, compared with what is wanted. */
  lemma LengthCounted(r: Range, content: string)
    requires RangeOk(r) && EndsInside(r, |content|)
    ensures OffsetAndLength(r, |content|).1 == |Wanted(r, content)| - Overshoot(r, |content|)
  {
  }

  // ---------------------------------------------------------------- the reply

  /** `make_content_range_header_field` */
  function ContentRange(r: Range, len: nat): string {
    "bytes " + EndText(r.first) + "-" + EndText(r.last) + "/" + ToString(len)
  }

  function PartHead(b: string, contentType: string, r: Range, len: nat): string {
    "--" + b + CRLF
    + (if contentType == "" then "" else "Content-Type: " + contentType + CRLF)
    + ("Content-Range: " + ContentRange(r, len) + CRLF + CRLF)
  }

  function Part(b: string, contentType: string, r: Range, content: string): string {
    PartHead(b, contentType, r, |content|) + (Wanted(r, content) + CRLF)
  }

  /** One part, letter by letter. */
  lemma PartWritten(b: string, contentType: string, r: Range, content: string)
    ensures Part(b, contentType, r, content)
         == "--" + b + "\r\n"
            + (if contentType == "" then "" else "Content-Type: " + contentType + "\r\n")
            + ("Content-Range: " + ("bytes " + EndText(r.first) + "-" + EndText(r.last) + "/" + EndText(|content|))
               + "\r\n" + "\r\n")
            + (Wanted(r, content) + "\r\n")
  {
    hide Wanted;
    assert EndText(|content|) == ToString(|content|);
  }

  /** The whole body. */
  function Reply(b: string, contentType: string, rs: seq<Range>, content: string): string {
    if rs == [] then "--" + b + "--"
    else Part(b, contentType, rs[0], content) + Reply(b, contentType, rs[1..], content)
  }

  ghost predicate AllOk(rs: seq<Range>) { forall i :: 0 <= i < |rs| ==> RangeOk(rs[i]) }

  predicate AllEndInside(rs: seq<Range>, len: nat) { forall i :: 0 <= i < |rs| ==> EndsInside(rs[i], len) }

  function AllOvershoot(rs: seq<Range>, len: nat): nat {
    if rs == [] then 0 else Overshoot(rs[0], len) + AllOvershoot(rs[1..], len)
  }

  // ---------------------------------------------------------------- the two passes

  /** What `process_multipart_ranges_data` hands to its callbacks. */
  datatype Piece = Token(text: string) | Content(offset: int, length: int)

  /** The template's loop, the callbacks made recorded in order. */
  method Process(rs: seq<Range>, len: nat, b: string, contentType: string) returns (pieces: seq<Piece>)
    ensures pieces == Calls(rs, len, b, contentType)
  {
    hide PartHead, OffsetAndLength;
    pieces := [];
    var i := 0;
    assert rs[0..] == rs;
    while i < |rs|
      invariant 0 <= i <= |rs|
      invariant Calls(rs, len, b, contentType) == pieces + Calls(rs[i..], len, b, contentType)
    {
      assert rs[i..][1..] == rs[i + 1..];
      var (offset, length) := OffsetAndLength(rs[i], len);
      var three := [Token(PartHead(b, contentType, rs[i], len)), Content(offset, length), Token(CRLF)];
      Assoc(pieces, three, Calls(rs[i + 1..], len, b, contentType));
      pieces := pieces + three;
      i := i + 1;
    }
    pieces := pieces + [Token("--" + b + "--")];
  }

  function Calls(rs: seq<Range>, len: nat, b: string, contentType: string): seq<Piece> {
    if rs == [] then [Token("--" + b + "--")]
    else
      var (offset, length) := OffsetAndLength(rs[0], len);
      [Token(PartHead(b, contentType, rs[0], len)), Content(offset, length), Token(CRLF)]
      + Calls(rs[1..], len, b, contentType)
  }

  /** `get_multipart_ranges_data_length`: add up the sizes, in a `size_t`. */
  method CountReply(rs: seq<Range>, len: nat, b: string, contentType: string) returns (total: nat)
    ensures total == Size(Calls(rs, len, b, contentType)) % TWO64
  {
    hide Calls;
    var pieces := Process(rs, len, b, contentType);
    total := 0;
    var i := 0;
    while i < |pieces|
      invariant 0 <= i <= |pieces| && total == Size(pieces[..i]) % TWO64
    {
      SizeSnoc(pieces[..i], pieces[i]);
      assert pieces[..i + 1] == pieces[..i] + [pieces[i]];
      AddModulo(Size(pieces[..i]), PieceSize(pieces[i]));
      match pieces[i] {
        case Token(text) => total := (total + |text| % TWO64) % TWO64;
        case Content(_, length) => total := (total + length % TWO64) % TWO64;
      }
      i := i + 1;
    }
    assert pieces[..i] == pieces;
  }

  lemma AddModulo(x: int, y: int)
    ensures (x % TWO64 + y % TWO64) % TWO64 == (x + y) % TWO64
  {
    var a, b := x / TWO64, y / TWO64;
    assert x + y == x % TWO64 + y % TWO64 + TWO64 * (a + b);
    SameModulo(x % TWO64 + y % TWO64, a + b);
  }

  lemma SameModulo(x: int, k: int)
    ensures (x + TWO64 * k) % TWO64 == x % TWO64
  {
    var q, q' := x / TWO64, (x + TWO64 * k) / TWO64;
    var m, m' := x % TWO64, (x + TWO64 * k) % TWO64;
    assert m' - m == TWO64 * (q + k - q');
  }

  function PieceSize(p: Piece): int { match p case Token(t) => |t| case Content(_, n) => n }

  function Size(ps: seq<Piece>): int { if ps == [] then 0 else PieceSize(ps[0]) + Size(ps[1..]) }

  lemma {:induction false} SizeSnoc(ps: seq<Piece>, p: Piece)
    ensures Size(ps + [p]) == Size(ps) + PieceSize(p)
  {
    if ps == [] {
      assert [p][1..] == [];
    } else {
      assert (ps + [p])[1..] == ps[1..] + [p];
      SizeSnoc(ps[1..], p);
    }
  }

  /** What the counting pass counts: the reply, less what open ranges begin beyond the content. */
  lemma {:induction false} CountedIsReply(rs: seq<Range>, b: string, contentType: string, content: string)
    requires AllOk(rs) && AllEndInside(rs, |content|)
    ensures Size(Calls(rs, |content|, b, contentType))
         == |Reply(b, contentType, rs, content)| - AllOvershoot(rs, |content|)
  {
    hide PartHead, OffsetAndLength, Wanted, RangeOk, EndsInside, Overshoot, Size;
    if rs == [] {
      OneSize(Token("--" + b + "--"));
    } else {
      var (offset, length) := OffsetAndLength(rs[0], |content|);
      LengthCounted(rs[0], content);
      CountedIsReply(rs[1..], b, contentType, content);
      ThreeSizes(Token(PartHead(b, contentType, rs[0], |content|)), Content(offset, length), Token(CRLF),
                 Calls(rs[1..], |content|, b, contentType));
    }
  }

  lemma OneSize(p: Piece)
    ensures Size([p]) == PieceSize(p)
  {
    assert [p][1..] == [];
  }

  lemma ThreeSizes(a: Piece, b: Piece, c: Piece, ps: seq<Piece>)
    ensures Size([a, b, c] + ps) == PieceSize(a) + PieceSize(b) + PieceSize(c) + Size(ps)
  {
    Spread(a, b, c, ps);
    SizeCons(c, ps);
    SizeCons(b, [c] + ps);
    SizeCons(a, [b] + ([c] + ps));
  }

  lemma SizeCons(p: Piece, ps: seq<Piece>)
    ensures Size([p] + ps) == PieceSize(p) + Size(ps)
  {
    assert ([p] + ps)[1..] == ps;
  }

  lemma Spread<T>(a: T, b: T, c: T, ps: seq<T>)
    ensures [a, b, c] + ps == [a] + ([b] + ([c] + ps))
  {
  }

  // ---------------------------------------------------------------- writing

  /** `write_content`: the provider is asked again and again until everything asked for is written.
      Each time it writes some of what it is asked for and has; it refuses where it has nothing. */
  method WriteContent(content: string, start: nat, length: nat) returns (ok: bool, out: string)
    requires LengthOk(|content|) && start <= LLONG_MAX && length < TWO64
    ensures var end := (start + length) % TWO64;
      && (ok <==> end <= start || end <= |content|)
      && (ok ==> out == if end <= start then "" else content[start..end])
  {
    var offset, end := start, (start + length) % TWO64;
    out := "";
    while offset < end
      invariant start <= offset && (end <= start ==> offset == start)
      invariant offset > start ==> offset <= end && offset <= |content|
      invariant out == if start < offset then content[start..offset] else ""
      decreases end - offset
    {
      if offset >= |content| { return false, out; }
      var there := if end < |content| then end - offset else |content| - offset;
      var k: nat :| 0 < k <= there;
      assert content[start..offset + k] == content[start..offset] + content[offset..offset + k];
      out := out + content[offset..offset + k];
      offset := offset + k;
    }
    ok := true;
  }

  /** A piece the provider can deliver; its length may be a negative number modulo 2^64. */
  predicate Deliverable(p: Piece, content: string) {
    p.Content? ==> 0 <= p.offset <= LLONG_MAX && 0 <= p.offset + p.length <= |content|
  }

  /** Offsets and ends, as they come out of ranges. */
  predicate Placed(p: Piece) {
    p.Content? ==> 0 <= p.offset <= LLONG_MAX && 0 <= p.offset + p.length <= LLONG_MAX + 1
  }

  function PieceText(p: Piece, content: string): string
    requires Deliverable(p, content)
  {
    match p
    case Token(t) => t
    case Content(o, n) => if n <= 0 then "" else content[o..o + n]
  }

  method WritePiece(p: Piece, content: string) returns (ok: bool, out: string)
    requires LengthOk(|content|) && Placed(p) && (p.Content? && p.length <= 0 ==> Deliverable(p, content))
    ensures ok <==> Deliverable(p, content)
    ensures ok ==> out == PieceText(p, content)
  {
    match p {
      case Token(text) => ok, out := true, text;
      case Content(offset, length) =>
        EndOffset(offset, length);
        ok, out := WriteContent(content, offset, length % TWO64);
    }
  }

  lemma EndOffset(offset: int, length: int)
    requires 0 <= offset <= LLONG_MAX && 0 <= offset + length <= LLONG_MAX + 1
    ensures 0 <= length % TWO64 < TWO64 && (offset + length % TWO64) % TWO64 == offset + length
  {
    AddModulo(offset, length);
  }

  /** The pieces of a range: deliverable exactly when it does not reach beyond the content. */
  lemma RangeDelivers(r: Range, content: string)
    requires RangeOk(r) && LengthOk(|content|)
    ensures var (offset, length) := OffsetAndLength(r, |content|);
      var p := Content(offset, length);
      && Placed(p) && (length <= 0 ==> Deliverable(p, content))
      && (Deliverable(p, content) <==> EndsInside(r, |content|))
      && (EndsInside(r, |content|) ==> PieceText(p, content) == Wanted(r, content))
  {
  }

  /** `write_multipart_ranges_data`, on a stream that takes everything: the template's loop, ended by
      the first content the provider cannot deliver. */
  method WriteReply(rs: seq<Range>, content: string, b: string, contentType: string) returns (ok: bool, out: string)
    requires AllOk(rs) && LengthOk(|content|)
    ensures ok <==> AllEndInside(rs, |content|)
    ensures ok ==> out == Reply(b, contentType, rs, content)
  {
    hide PartHead, OffsetAndLength, Wanted, RangeOk, EndsInside, PieceText, Deliverable, Placed, Part;
    out := "";
    var i := 0;
    ghost var whole := Reply(b, contentType, rs, content);
    assert rs[0..] == rs && "" + whole == whole;
    while i < |rs|
      invariant 0 <= i <= |rs| && forall j :: 0 <= j < i ==> EndsInside(rs[j], |content|)
      invariant out + Reply(b, contentType, rs[i..], content) == whole
    {
      var (offset, length) := OffsetAndLength(rs[i], |content|);
      RangeDelivers(rs[i], content);
      ghost var before := out;
      var head := PartHead(b, contentType, rs[i], |content|);
      var part;
      ok, part := WritePiece(Content(offset, length), content);
      if !ok { return false, out + head + part; }
      out := out + head + part + CRLF;
      ReplyStep(rs, i, b, contentType, content, before);
      PartJoin(before, head, part);
      i := i + 1;
    }
    assert rs[i..] == [];
    out := out + ("--" + b + "--");
    ok := true;
  }

  lemma ReplyStep(rs: seq<Range>, i: nat, b: string, contentType: string, content: string, before: string)
    requires i < |rs|
    ensures before + Reply(b, contentType, rs[i..], content)
         == before + (PartHead(b, contentType, rs[i], |content|) + (Wanted(rs[i], content) + CRLF))
            + Reply(b, contentType, rs[i + 1..], content)
  {
    hide PartHead, Wanted;
    assert rs[i..][0] == rs[i] && rs[i..][1..] == rs[i + 1..];
    Assoc(before, Part(b, contentType, rs[i], content), Reply(b, contentType, rs[i + 1..], content));
  }

  lemma PartJoin(before: string, head: string, part: string)
    ensures before + head + part + CRLF == before + (head + (part + CRLF))
  {
    Assoc(before + head, part, CRLF);
    Assoc(before, head, part + CRLF);
  }

  /** MAIN RESULT.  For every list of ranges a header can ask for: the reply is sent completely, each
      part being exactly the slice its range asks for, if and only if no range reaches beyond the
      content; and the length announced by the counting pass is then the number of bytes sent if and
      only if what open ranges begin beyond the content adds up to nothing, modulo 2^64. */
  method SendReply(rs: seq<Range>, content: string, b: string, contentType: string)
    returns (announced: nat, ok: bool, sent: string)
    requires AllOk(rs) && |content| <= 0x7fff_ffff_ffff_ffff
    ensures ok <==> AllEndInside(rs, |content|)
    ensures ok ==> sent == Reply(b, contentType, rs, content)
    ensures ok && |sent| < 0x1_0000_0000_0000_0000 ==> (announced == |sent| <==> AllOvershoot(rs, |content|) % 0x1_0000_0000_0000_0000 == 0)
  {
    hide Calls, Size, Reply, AllOvershoot, AllEndInside, AllOk;
    announced := CountReply(rs, |content|, b, contentType);
    ok, sent := WriteReply(rs, content, b, contentType);
    if ok {
      CountedIsReply(rs, b, contentType, content);
      if |sent| < TWO64 { DifferenceModulo(|sent|, AllOvershoot(rs, |content|)); }
    }
  }

  lemma DifferenceModulo(n: nat, x: nat)
    requires n < TWO64
    ensures (n - x) % TWO64 == n <==> x % TWO64 == 0
  {
    var q, m := x / TWO64, x % TWO64;
    assert n - x == n - m + TWO64 * (-q);
    SameModulo(n - m, -q);
    if n < m { SameModulo(n - m, 1); }
  }

  /** Ranges that begin inside the content add up to nothing. */
  lemma {:induction false} NoOvershoot(rs: seq<Range>, len: nat)
    requires forall i :: 0 <= i < |rs| ==> rs[i].first <= len
    ensures AllOvershoot(rs, len) == 0
  {
    if rs != [] { NoOvershoot(rs[1..], len); }
  }
}
