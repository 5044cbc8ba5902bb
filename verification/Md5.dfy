/** Streaming MD5: `MD5Transform` unrolled, and the context updated piece by piece. */
module Md5 {
  import opened Md5Spec
  import opened Text

  // ---------------------------------------------------------------- MD5Transform

  /** Four consecutive steps written out: the registers are back in their places. */
  lemma Quad(i: nat, s: State, x: seq<Word>)
    requires |x| == 16 && i % 4 == 0 && i + 4 <= 64
    ensures var r := i / 16;
      var a := Mix(Aux(r, s.b, s.c, s.d), s.a, s.b, x[WordIndex(i)], Shift(r, 0), Sine(i));
      var d := Mix(Aux(r, a, s.b, s.c), s.d, a, x[WordIndex(i + 1)], Shift(r, 1), Sine(i + 1));
      var c := Mix(Aux(r, d, a, s.b), s.c, d, x[WordIndex(i + 2)], Shift(r, 2), Sine(i + 2));
      var b := Mix(Aux(r, c, d, a), s.b, c, x[WordIndex(i + 3)], Shift(r, 3), Sine(i + 3));
      StepsFrom(i, 64 - i, s, x) == StepsFrom(i + 4, 60 - i, State(a, b, c, d), x)
  {
    hide Mix, Aux, WordIndex, Shift, Sine, StepsFrom;
    QuadPlaces(i);
    var s1 := StepOf(i, s, x);
    var s2 := StepOf(i + 1, s1, x);
    var s3 := StepOf(i + 2, s2, x);
    StepsUnfold(i, 64 - i, s, x);
    StepsUnfold(i + 1, 63 - i, s1, x);
    StepsUnfold(i + 2, 62 - i, s2, x);
    StepsUnfold(i + 3, 61 - i, s3, x);
  }

  lemma QuadPlaces(i: nat)
    requires i % 4 == 0
    ensures (i + 1) / 16 == (i + 2) / 16 == (i + 3) / 16 == i / 16
    ensures (i + 1) % 4 == 1 && (i + 2) % 4 == 2 && (i + 3) % 4 == 3
  {
  }

  lemma StepsUnfold(i: nat, n: nat, s: State, x: seq<Word>)
    requires |x| == 16 && n > 0
    ensures StepsFrom(i, n, s, x) == StepsFrom(i + 1, n - 1, StepOf(i, s, x), x)
  {
  }

  method Round1(s: State, x: seq<Word>) returns (a: Word, b: Word, c: Word, d: Word)
    requires |x| == 16
    ensures StepsFrom(0, 64, s, x) == StepsFrom(16, 48, State(a, b, c, d), x)
  {
    hide Mix, StepsFrom, F, G, H, I;
    a, b, c, d := s.a, s.b, s.c, s.d;
    Quad(0, State(a, b, c, d), x);
    a := Mix(F(b, c, d), a, b, x[0], 7, 0xd76aa478);
    d := Mix(F(a, b, c), d, a, x[1], 12, 0xe8c7b756);
    c := Mix(F(d, a, b), c, d, x[2], 17, 0x242070db);
    b := Mix(F(c, d, a), b, c, x[3], 22, 0xc1bdceee);
    Quad(4, State(a, b, c, d), x);
    a := Mix(F(b, c, d), a, b, x[4], 7, 0xf57c0faf);
    d := Mix(F(a, b, c), d, a, x[5], 12, 0x4787c62a);
    c := Mix(F(d, a, b), c, d, x[6], 17, 0xa8304613);
    b := Mix(F(c, d, a), b, c, x[7], 22, 0xfd469501);
    Quad(8, State(a, b, c, d), x);
    a := Mix(F(b, c, d), a, b, x[8], 7, 0x698098d8);
    d := Mix(F(a, b, c), d, a, x[9], 12, 0x8b44f7af);
    c := Mix(F(d, a, b), c, d, x[10], 17, 0xffff5bb1);
    b := Mix(F(c, d, a), b, c, x[11], 22, 0x895cd7be);
    Quad(12, State(a, b, c, d), x);
    a := Mix(F(b, c, d), a, b, x[12], 7, 0x6b901122);
    d := Mix(F(a, b, c), d, a, x[13], 12, 0xfd987193);
    c := Mix(F(d, a, b), c, d, x[14], 17, 0xa679438e);
    b := Mix(F(c, d, a), b, c, x[15], 22, 0x49b40821);
  }

  method Round2(s: State, x: seq<Word>) returns (a: Word, b: Word, c: Word, d: Word)
    requires |x| == 16
    ensures StepsFrom(16, 48, s, x) == StepsFrom(32, 32, State(a, b, c, d), x)
  {
    hide Mix, StepsFrom, F, G, H, I;
    a, b, c, d := s.a, s.b, s.c, s.d;
    Quad(16, State(a, b, c, d), x);
    a := Mix(G(b, c, d), a, b, x[1], 5, 0xf61e2562);
    d := Mix(G(a, b, c), d, a, x[6], 9, 0xc040b340);
    c := Mix(G(d, a, b), c, d, x[11], 14, 0x265e5a51);
    b := Mix(G(c, d, a), b, c, x[0], 20, 0xe9b6c7aa);
    Quad(20, State(a, b, c, d), x);
    a := Mix(G(b, c, d), a, b, x[5], 5, 0xd62f105d);
    d := Mix(G(a, b, c), d, a, x[10], 9, 0x2441453);
    c := Mix(G(d, a, b), c, d, x[15], 14, 0xd8a1e681);
    b := Mix(G(c, d, a), b, c, x[4], 20, 0xe7d3fbc8);
    Quad(24, State(a, b, c, d), x);
    a := Mix(G(b, c, d), a, b, x[9], 5, 0x21e1cde6);
    d := Mix(G(a, b, c), d, a, x[14], 9, 0xc33707d6);
    c := Mix(G(d, a, b), c, d, x[3], 14, 0xf4d50d87);
    b := Mix(G(c, d, a), b, c, x[8], 20, 0x455a14ed);
    Quad(28, State(a, b, c, d), x);
    a := Mix(G(b, c, d), a, b, x[13], 5, 0xa9e3e905);
    d := Mix(G(a, b, c), d, a, x[2], 9, 0xfcefa3f8);
    c := Mix(G(d, a, b), c, d, x[7], 14, 0x676f02d9);
    b := Mix(G(c, d, a), b, c, x[12], 20, 0x8d2a4c8a);
  }

  method Round3(s: State, x: seq<Word>) returns (a: Word, b: Word, c: Word, d: Word)
    requires |x| == 16
    ensures StepsFrom(32, 32, s, x) == StepsFrom(48, 16, State(a, b, c, d), x)
  {
    hide Mix, StepsFrom, F, G, H, I;
    a, b, c, d := s.a, s.b, s.c, s.d;
    Quad(32, State(a, b, c, d), x);
    a := Mix(H(b, c, d), a, b, x[5], 4, 0xfffa3942);
    d := Mix(H(a, b, c), d, a, x[8], 11, 0x8771f681);
    c := Mix(H(d, a, b), c, d, x[11], 16, 0x6d9d6122);
    b := Mix(H(c, d, a), b, c, x[14], 23, 0xfde5380c);
    Quad(36, State(a, b, c, d), x);
    a := Mix(H(b, c, d), a, b, x[1], 4, 0xa4beea44);
    d := Mix(H(a, b, c), d, a, x[4], 11, 0x4bdecfa9);
    c := Mix(H(d, a, b), c, d, x[7], 16, 0xf6bb4b60);
    b := Mix(H(c, d, a), b, c, x[10], 23, 0xbebfbc70);
    Quad(40, State(a, b, c, d), x);
    a := Mix(H(b, c, d), a, b, x[13], 4, 0x289b7ec6);
    d := Mix(H(a, b, c), d, a, x[0], 11, 0xeaa127fa);
    c := Mix(H(d, a, b), c, d, x[3], 16, 0xd4ef3085);
    b := Mix(H(c, d, a), b, c, x[6], 23, 0x4881d05);
    Quad(44, State(a, b, c, d), x);
    a := Mix(H(b, c, d), a, b, x[9], 4, 0xd9d4d039);
    d := Mix(H(a, b, c), d, a, x[12], 11, 0xe6db99e5);
    c := Mix(H(d, a, b), c, d, x[15], 16, 0x1fa27cf8);
    b := Mix(H(c, d, a), b, c, x[2], 23, 0xc4ac5665);
  }

  method Round4(s: State, x: seq<Word>) returns (a: Word, b: Word, c: Word, d: Word)
    requires |x| == 16
    ensures StepsFrom(48, 16, s, x) == StepsFrom(64, 0, State(a, b, c, d), x)
  {
    hide Mix, StepsFrom, F, G, H, I;
    a, b, c, d := s.a, s.b, s.c, s.d;
    Quad(48, State(a, b, c, d), x);
    a := Mix(I(b, c, d), a, b, x[0], 6, 0xf4292244);
    d := Mix(I(a, b, c), d, a, x[7], 10, 0x432aff97);
    c := Mix(I(d, a, b), c, d, x[14], 15, 0xab9423a7);
    b := Mix(I(c, d, a), b, c, x[5], 21, 0xfc93a039);
    Quad(52, State(a, b, c, d), x);
    a := Mix(I(b, c, d), a, b, x[12], 6, 0x655b59c3);
    d := Mix(I(a, b, c), d, a, x[3], 10, 0x8f0ccc92);
    c := Mix(I(d, a, b), c, d, x[10], 15, 0xffeff47d);
    b := Mix(I(c, d, a), b, c, x[1], 21, 0x85845dd1);
    Quad(56, State(a, b, c, d), x);
    a := Mix(I(b, c, d), a, b, x[8], 6, 0x6fa87e4f);
    d := Mix(I(a, b, c), d, a, x[15], 10, 0xfe2ce6e0);
    c := Mix(I(d, a, b), c, d, x[6], 15, 0xa3014314);
    b := Mix(I(c, d, a), b, c, x[13], 21, 0x4e0811a1);
    Quad(60, State(a, b, c, d), x);
    a := Mix(I(b, c, d), a, b, x[4], 6, 0xf7537e82);
    d := Mix(I(a, b, c), d, a, x[11], 10, 0xbd3af235);
    c := Mix(I(d, a, b), c, d, x[2], 15, 0x2ad7d2bb);
    b := Mix(I(c, d, a), b, c, x[9], 21, 0xeb86d391);
  }

  /** `Decode`: sixteen little-endian words. */
  method Decode(block: seq<Byte>) returns (x: seq<Word>)
    requires |block| == 64
    ensures x == WordsOf(block)
  {
    x := [];
    var i, j := 0, 0;
    while j < 64
      invariant 0 <= i <= 16 && j == 4 * i && |x| == i
      invariant forall k :: 0 <= k < i ==> x[k] == WordsOf(block)[k]
    {
      var b0: int, b1: int, b2: int, b3: int := block[j], block[j + 1], block[j + 2], block[j + 3];
      assert block[4 * i..4 * i + 4] == [block[j], block[j + 1], block[j + 2], block[j + 3]];
      x := x + [b0 + 0x100 * b1 + 0x1_0000 * b2 + 0x100_0000 * b3];
      i, j := i + 1, j + 4;
    }
  }

  /** `MD5Transform`: the 64 unrolled operations are the 64 steps of the specification. */
  method Transform(s: State, block: seq<Byte>) returns (t: State)
    requires |block| == 64
    ensures t == Compress(s, block)
  {
    hide StepsFrom, WordsOf;
    var x := Decode(block);
    var a, b, c, d := Round1(s, x);
    a, b, c, d := Round2(State(a, b, c, d), x);
    a, b, c, d := Round3(State(a, b, c, d), x);
    a, b, c, d := Round4(State(a, b, c, d), x);
    StepsEnd(64, State(a, b, c, d), x);
    t := State(Sum(s.a, a), Sum(s.b, b), Sum(s.c, c), Sum(s.d, d));
  }

  lemma StepsEnd(i: nat, s: State, x: seq<Word>)
    requires |x| == 16
    ensures StepsFrom(i, 0, s, x) == s
  {
  }

  // ---------------------------------------------------------------- whole blocks

  lemma {:induction false} BlocksAppend(s: State, m: seq<Byte>, t: seq<Byte>)
    requires |m| % 64 == 0
    ensures Blocks(s, m + t) == Blocks(Blocks(s, m), t)
    decreases |m|
  {
    hide Compress;
    if |m| == 0 {
      assert m + t == t;
    } else {
      assert (m + t)[..64] == m[..64] && (m + t)[64..] == m[64..] + t;
      BlocksAppend(Compress(s, m[..64]), m[64..], t);
    }
  }

  lemma BlocksOne(s: State, block: seq<Byte>)
    requires |block| == 64
    ensures Blocks(s, block) == Compress(s, block)
  {
    hide Compress;
    assert block[..64] == block && block[64..] == [];
  }

  /** One more complete block, at position `k` of the message. */
  lemma NextBlock(m: seq<Byte>, k: nat)
    requires k % 64 == 0 && k + 64 <= |m|
    ensures Blocks(INITIAL, m[..k + 64]) == Compress(Blocks(INITIAL, m[..k]), m[k..k + 64])
  {
    hide Compress, Blocks;
    assert m[..k + 64] == m[..k] + m[k..k + 64];
    BlocksAppend(INITIAL, m[..k], m[k..k + 64]);
    BlocksOne(Blocks(INITIAL, m[..k]), m[k..k + 64]);
  }

  /** An incomplete tail does not count yet. */
  lemma TailWaits(m: seq<Byte>, k: nat)
    requires k % 64 == 0 && k <= |m| < k + 64
    ensures Blocks(INITIAL, m) == Blocks(INITIAL, m[..k])
  {
    assert m == m[..k] + m[k..];
    BlocksAppend(INITIAL, m[..k], m[k..]);
  }

  // ---------------------------------------------------------------- the bit counter

  /** The two counter words hold the bit length modulo 2^64. */
  ghost predicate Counts(c0: Word, c1: Word, n: nat) { c0 + TWO32 * c1 == 8 * n % TWO64 }

  function CountLow(c0: Word, len: Word): Word { Sum(c0, len * 8 % TWO32) }

  function CountHigh(c0: Word, c1: Word, len: Word): Word {
    Sum(if CountLow(c0, len) < len * 8 % TWO32 then Sum(c1, 1) else c1, len / 0x2000_0000)
  }

  lemma WithoutCarry(v: nat, over: int, n: nat, len: nat)
    requires v < TWO64 && v + TWO64 * over == 8 * n % TWO64 + 8 * len
    ensures v == 8 * (n + len) % TWO64
  {
    var q := 8 * n / TWO64;
    assert 8 * (n + len) == v + TWO64 * (over + q);
  }

  /** The low word wraps exactly when the carry is detected. */
  lemma LowCarry(c0: Word, lo: Word)
    ensures var carry := if Sum(c0, lo) < lo then 1 else 0;
      Sum(c0, lo) == c0 + lo - TWO32 * carry
  {
  }

  lemma HighCarry(c1: Word, carry: nat, hi: nat)
    requires carry <= 1 && hi < 8
    ensures exists over: int ::
      Sum(if carry == 1 then Sum(c1, 1) else c1, hi) == c1 + carry + hi - TWO32 * over
  {
    var over: int := if c1 + carry + hi >= TWO32 then 1 else 0;
    assert Sum(if carry == 1 then Sum(c1, 1) else c1, hi) == c1 + carry + hi - TWO32 * over;
  }

  /** The carry works: adding a length to the counter adds its bits modulo 2^64. */
  lemma CountAdds(c0: Word, c1: Word, n: nat, len: Word)
    requires Counts(c0, c1, n)
    ensures Counts(CountLow(c0, len), CountHigh(c0, c1, len), n + len)
  {
    hide Sum;
    var lo, hi := len * 8 % TWO32, len / 0x2000_0000;
    assert len * 8 == lo + TWO32 * hi;
    var carry := if Sum(c0, lo) < lo then 1 else 0;
    LowCarry(c0, lo);
    HighCarry(c1, carry, hi);
    var c0', c1' := CountLow(c0, len), CountHigh(c0, c1, len);
    var over: int :| c1' == c1 + carry + hi - TWO32 * over;
    assert c0' + TWO32 * c1' + TWO64 * over == c0 + TWO32 * c1 + 8 * len;
    WithoutCarry(c0' + TWO32 * c1', over, n, len);
  }

  lemma EighthModulo(c: int, n: int, k: int)
    requires c == 8 * (n - 64 * k)
    ensures c / 8 % 64 == n % 64
  {
    assert c / 8 == n - 64 * k;
  }

  /** `(count[0] >> 3) & 0x3F` is how much of the buffer is filled. */
  lemma CountIndex(c0: Word, c1: Word, n: nat, full: nat)
    requires Counts(c0, c1, n) && full % 64 == 0 && full <= n < full + 64
    ensures c0 / 8 % 64 == n - full
  {
    var q := 8 * n / TWO64;
    assert 8 * n % TWO64 == 8 * n - TWO64 * q;
    EighthModulo(c0, n, 0x80_0000_0000_0000 * q + 0x80_0000 * c1);
    InBlock(n, full);
  }

  lemma InBlock(n: nat, full: nat)
    requires full % 64 == 0 && full <= n < full + 64
    ensures n % 64 == n - full
  {
  }

  // ---------------------------------------------------------------- MD5Update

  /** The first `i` at which the loop test `i + 63 < len` must fail. */
  function LastTested(index: nat, len: nat): nat
    requires index < 64 && 64 - index <= len
  {
    64 - index + (len - (64 - index)) / 64 * 64
  }

  /** No test of the block loop wraps around in 32 bits. */
  predicate Fits(index: nat, len: nat)
    requires index < 64
  {
    len < 64 - index || LastTested(index, len) + 63 < TWO32
  }

  /** The loop test as it is computed, in 32-bit arithmetic. */
  predicate LoopTest(i: Word, len: Word) { Sum(i, 63) < len }

  /** The loop reads only inside the input, at every test it makes, exactly when `Fits` holds:
      otherwise the last test wraps and lets the loop run past the end. */
  lemma LoopStaysInside(index: nat, len: Word)
    requires index < 64 && 64 - index <= len
    ensures Fits(index, len) <==>
      forall k: nat :: var i := 64 - index + 64 * k;
        i <= LastTested(index, len) && LoopTest(i, len) ==> i + 64 <= len
  {
    var last := LastTested(index, len);
    var k := (len - (64 - index)) / 64;
    assert last == 64 - index + 64 * k && last <= len < last + 64;
    if !Fits(index, len) {
      assert LoopTest(last, len) && last + 64 > len;
    }
  }

  /** A length of at most 2^32 - 64 always fits. */
  lemma ShortFits(index: nat, len: nat)
    requires index < 64 && len <= TWO32 - 64
    ensures Fits(index, len)
  {
  }

  /** Of the longest input: with one byte buffered the last test wraps to 62, and the loop runs past the
      end; with an empty buffer it does not. */
  lemma LongestInput()
    ensures !Fits(1, 0xFFFF_FFFF) && LastTested(1, 0xFFFF_FFFF) == 0xFFFF_FFFF && LoopTest(0xFFFF_FFFF, 0xFFFF_FFFF)
    ensures Fits(0, 0xFFFF_FFFF)
  {
  }

  class Context {
    var state: State
    var count0: Word
    var count1: Word
    const buffer: array<Byte>

    // Everything hashed so far; the first `full` bytes are in whole blocks, the rest is buffered.
    ghost var message: seq<Byte>
    ghost var full: nat

    ghost predicate Valid()
      reads this, buffer
    {
      && buffer.Length == 64
      && full % 64 == 0 && full <= |message| < full + 64
      && state == Blocks(INITIAL, message)
      && buffer[..|message| - full] == message[full..]
      && Counts(count0, count1, |message|)
    }

    constructor ()
      ensures Valid() && message == [] && fresh(buffer)
    {
      state := INITIAL;
      count0, count1 := 0, 0;
      buffer := new Byte[64](_ => 0);
      message, full := [], 0;
    }

    /** `memcpy(&context->buffer[at], data, n)` */
    method CopyIn(at: nat, data: seq<Byte>)
      requires buffer.Length == 64 && at + |data| <= 64
      modifies buffer
      ensures buffer[..at + |data|] == old(buffer[..at]) + data
    {
      var i := 0;
      while i < |data|
        invariant 0 <= i <= |data|
        invariant forall j :: 0 <= j < at ==> buffer[j] == old(buffer[j])
        invariant forall j :: 0 <= j < i ==> buffer[at + j] == data[j]
      {
        buffer[at + i] := data[i];
        i := i + 1;
      }
    }

    /** The part of `MD5Update` that transforms blocks: first the filled-up buffer, then whole
        blocks straight from the input; `i` is where the rest of the input starts. */
    method Absorb(input: seq<Byte>, index: nat) returns (i: nat)
      requires Valid() && index == |message| - full
      requires 64 - index <= |input| < TWO32 && Fits(index, |input|)
      modifies `state, buffer
      ensures state == Blocks(INITIAL, message + input)
      ensures i <= |input| < i + 64 && (|message| + i) % 64 == 0
    {
      hide Blocks, Compress, Counts, LoopTest, LastTested, Fits;
      ghost var all := message + input;
      var len: Word, partLen := |input|, 64 - index;
      FirstBlock(message, input, full);
      CopyIn(index, input[..partLen]);
      assert buffer[..] == buffer[..64];
      state := Transform(state, buffer[..]);
      i := partLen;
      ghost var k := 0;
      while LoopTest(i, len)
        invariant i == partLen + 64 * k <= len && full + 64 + 64 * k == |message| + i
        invariant state == Blocks(INITIAL, all[..|message| + i])
        decreases len - i
      {
        LoopGoesOn(index, len, k);
        BlockAt(message, input, full + 64 + 64 * k, i);
        state := Transform(state, input[i..i + 64]);
        i := i + 64;
        k := k + 1;
      }
      LoopEnds(index, len, k);
      TailWaits(all, full + 64 + 64 * k);
    }

    /** `MD5Update`: the context goes on as if the whole message had come at once. */
    method Update(input: seq<Byte>)
      requires Valid() && |input| < TWO32 && Fits(|message| - full, |input|)
      modifies this, buffer
      ensures Valid() && message == old(message) + input
    {
      hide Blocks, CountLow, CountHigh, Fits, Counts;
      ghost var all := message + input;
      var len: Word := |input|;
      CountIndex(count0, count1, |message|, full);
      var index := count0 / 8 % 64;
      CountAdds(count0, count1, |message|, len);
      var i := 0;
      if len >= 64 - index {
        i := Absorb(input, index);
        index := 0;
        full := |message| + i;
        assert all[full..] == input[i..];
      } else {
        StillShort(message, input, full);
        assert all[full..] == message[full..] + input;
      }
      count0, count1 := CountLow(count0, len), CountHigh(count0, count1, len);
      CopyIn(index, input[i..]);
      message := all;
    }

    /** `MD5Final`: the digest of everything hashed; the context is wiped. */
    method Final() returns (digest: seq<Byte>)
      requires Valid()
      modifies this, buffer
      ensures digest == Digest(old(message))
      ensures state == State(0, 0, 0, 0) && count0 == 0 && count1 == 0
      ensures buffer[..] == Zeros(64)
    {
      hide Blocks, Counts, Fits, AllBytes;
      ghost var m := message;
      var bits := Encode([count0, count1]);
      CountIndex(count0, count1, |m|, full);
      CountWords(count0, count1, |m|);
      var index := count0 / 8 % 64;
      var padLen := if index < 56 then 56 - index else 120 - index;
      PadIs(|m|, full, padLen);
      ShortFits(index, padLen);
      Update(([0x80] + Zeros(63))[..padLen]);
      assert message == m + ([0x80] + Zeros(padLen - 1)) by {
        assert ([0x80] + Zeros(63))[..padLen] == [0x80] + Zeros(padLen - 1);
      }
      ShortFits(|message| - full, 8);
      Update(bits);
      digest := Encode([state.a, state.b, state.c, state.d]);
      state, count0, count1 := State(0, 0, 0, 0), 0, 0;
      forall i | 0 <= i < 64 { buffer[i] := 0; }
    }
  }

  /** `Encode`: words to bytes, low-order byte first. */
  method Encode(input: seq<Word>) returns (output: seq<Byte>)
    ensures output == AllBytes(input)
  {
    output := [];
    var i := 0;
    assert input[0..] == input;
    while i < |input|
      invariant 0 <= i <= |input|
      invariant AllBytes(input) == output + AllBytes(input[i..])
    {
      assert input[i..][1..] == input[i + 1..];
      var w := input[i];
      var four := [w % 0x100, w / 0x100 % 0x100, w / 0x1_0000 % 0x100, w / 0x100_0000 % 0x100];
      assert output + (four + AllBytes(input[i + 1..])) == output + four + AllBytes(input[i + 1..]);
      output := output + four;
      i := i + 1;
    }
  }

  lemma CountWords(c0: Word, c1: Word, n: nat)
    requires Counts(c0, c1, n)
    ensures c0 == 8 * n % TWO64 % TWO32 && c1 == 8 * n % TWO64 / TWO32
  {
    var v := 8 * n % TWO64;
    assert v == c0 + TWO32 * c1;
  }

  lemma PadIs(n: nat, full: nat, padLen: nat)
    requires full % 64 == 0 && full <= n < full + 64
    requires padLen == if n - full < 56 then 56 - (n - full) else 120 - (n - full)
    ensures padLen == PadLength(n)
  {
    InBlock(n, full);
  }

  /** Every piece has a 32-bit length and fits behind what the earlier ones leave in the buffer. */
  ghost predicate AllFit(pieces: seq<seq<Byte>>) {
    forall i :: 0 <= i < |pieces| ==> |pieces[i]| < TWO32 && Fits(|Flatten(pieces[..i])| % 64, |pieces[i]|)
  }

  lemma ShortPiecesFit(pieces: seq<seq<Byte>>)
    requires forall i :: 0 <= i < |pieces| ==> |pieces[i]| <= TWO32 - 64
    ensures AllFit(pieces)
  {
    hide Fits;
    forall i | 0 <= i < |pieces| ensures Fits(|Flatten(pieces[..i])| % 64, |pieces[i]|) {
      ShortFits(|Flatten(pieces[..i])| % 64, |pieces[i]|);
    }
  }

  /** MAIN RESULT.  However a message is cut into updates that stay inside their input, the digest is
      that of the whole. */
  method HashPieces(pieces: seq<seq<Byte>>) returns (digest: seq<Byte>)
    requires AllFit(pieces)
    ensures digest == Digest(Flatten(pieces))
  {
    hide Digest, Fits, Blocks, Counts;
    var context := new Context();
    var i := 0;
    while i < |pieces|
      invariant 0 <= i <= |pieces| && context.Valid() && fresh(context) && fresh(context.buffer)
      invariant context.message == Flatten(pieces[..i])
    {
      InBlock(|context.message|, context.full);
      context.Update(pieces[i]);
      FlattenSnoc(pieces[..i], pieces[i]);
      assert pieces[..i + 1] == pieces[..i] + [pieces[i]];
      i := i + 1;
    }
    assert pieces[..i] == pieces;
    digest := context.Final();
  }

  lemma StillShort(m: seq<Byte>, input: seq<Byte>, k: nat)
    requires k % 64 == 0 && k <= |m| && |m| + |input| < k + 64
    ensures Blocks(INITIAL, m + input) == Blocks(INITIAL, m)
  {
    hide Blocks;
    TailWaits(m, k);
    TailWaits(m + input, k);
    assert (m + input)[..k] == m[..k];
  }

  lemma LoopGoesOn(index: nat, len: Word, k: nat)
    requires index < 64 && 64 - index + 64 * k <= len
    requires LoopTest(64 - index + 64 * k, len) && Fits(index, len)
    ensures 64 - index + 64 * k + 64 <= len
  {
  }

  lemma LoopEnds(index: nat, len: Word, k: nat)
    requires index < 64 && 64 - index + 64 * k <= len
    requires !LoopTest(64 - index + 64 * k, len)
    ensures len < 64 - index + 64 * k + 64
  {
  }

  lemma BlockAt(m: seq<Byte>, input: seq<Byte>, at: nat, i: nat)
    requires at == |m| + i && at % 64 == 0 && i + 64 <= |input|
    ensures Blocks(INITIAL, (m + input)[..at + 64]) == Compress(Blocks(INITIAL, (m + input)[..at]), input[i..i + 64])
  {
    hide Blocks, Compress;
    assert (m + input)[at..at + 64] == input[i..i + 64];
    NextBlock(m + input, at);
  }

  /** The block made of the buffered tail and the head of the input. */
  lemma FirstBlock(m: seq<Byte>, input: seq<Byte>, k: nat)
    requires k % 64 == 0 && k <= |m| < k + 64 <= |m| + |input|
    ensures Blocks(INITIAL, (m + input)[..k + 64])
         == Compress(Blocks(INITIAL, m), m[k..] + input[..64 - (|m| - k)])
  {
    hide Blocks, Compress;
    var all := m + input;
    TailWaits(m, k);
    assert all[..k] == m[..k];
    NextBlock(all, k);
    assert all[k..k + 64] == m[k..] + input[..64 - (|m| - k)];
  }

}
