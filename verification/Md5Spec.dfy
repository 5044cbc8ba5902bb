/** MD5 as RFC 1321 defines it (sections 3.1 to 3.5), on whole messages. */
module Md5Spec {

  const TWO32 := 0x1_0000_0000
  const TWO64 := 0x1_0000_0000_0000_0000

  type Byte = x: int | 0 <= x < 256
  type Word = x: int | 0 <= x < TWO32

  datatype State = State(a: Word, b: Word, c: Word, d: Word)

  const INITIAL := State(0x67452301, 0xefcdab89, 0x98badcfe, 0x10325476)

  // ---------------------------------------------------------------- words

  function Sum(x: Word, y: Word): Word { (x + y) % TWO32 }

  function Bits(x: Word): bv32 { x as bv32 }

  function Value(v: bv32): Word { v as int }

  function RotateLeft(x: Word, n: nat): Word
    requires n <= 32
  {
    Value((Bits(x) << n) | (Bits(x) >> (32 - n)))
  }

  function F(x: Word, y: Word, z: Word): Word { Value((Bits(x) & Bits(y)) | (!Bits(x) & Bits(z))) }
  function G(x: Word, y: Word, z: Word): Word { Value((Bits(x) & Bits(z)) | (Bits(y) & !Bits(z))) }
  function H(x: Word, y: Word, z: Word): Word { Value(Bits(x) ^ Bits(y) ^ Bits(z)) }
  function I(x: Word, y: Word, z: Word): Word { Value(Bits(y) ^ (Bits(x) | !Bits(z))) }

  // ---------------------------------------------------------------- one block

  /** The four rounds' auxiliary function. */
  function Aux(round: nat, x: Word, y: Word, z: Word): Word {
    match round case 0 => F(x, y, z) case 1 => G(x, y, z) case 2 => H(x, y, z) case _ => I(x, y, z)
  }

  /** Which word of the block step `i` uses. */
  function WordIndex(i: nat): (k: nat)
    ensures k < 16
  {
    match i / 16 case 0 => i % 16 case 1 => (5 * i + 1) % 16 case 2 => (3 * i + 5) % 16 case _ => 7 * i % 16
  }

  function Shift(round: nat, j: nat): (n: nat)
    ensures n <= 32
  {
    match round
    case 0 => (match j case 0 => 7 case 1 => 12 case 2 => 17 case _ => 22)
    case 1 => (match j case 0 => 5 case 1 => 9 case 2 => 14 case _ => 20)
    case 2 => (match j case 0 => 4 case 1 => 11 case 2 => 16 case _ => 23)
    case _ => (match j case 0 => 6 case 1 => 10 case 2 => 15 case _ => 21)
  }

  /** T[i + 1]: the integer part of 2^32 times the absolute sine of i + 1. */
  function Sine(i: nat): Word {
    match i
    case 0 => 0xd76aa478 case 1 => 0xe8c7b756 case 2 => 0x242070db case 3 => 0xc1bdceee
    case 4 => 0xf57c0faf case 5 => 0x4787c62a case 6 => 0xa8304613 case 7 => 0xfd469501
    case 8 => 0x698098d8 case 9 => 0x8b44f7af case 10 => 0xffff5bb1 case 11 => 0x895cd7be
    case 12 => 0x6b901122 case 13 => 0xfd987193 case 14 => 0xa679438e case 15 => 0x49b40821
    case 16 => 0xf61e2562 case 17 => 0xc040b340 case 18 => 0x265e5a51 case 19 => 0xe9b6c7aa
    case 20 => 0xd62f105d case 21 => 0x02441453 case 22 => 0xd8a1e681 case 23 => 0xe7d3fbc8
    case 24 => 0x21e1cde6 case 25 => 0xc33707d6 case 26 => 0xf4d50d87 case 27 => 0x455a14ed
    case 28 => 0xa9e3e905 case 29 => 0xfcefa3f8 case 30 => 0x676f02d9 case 31 => 0x8d2a4c8a
    case 32 => 0xfffa3942 case 33 => 0x8771f681 case 34 => 0x6d9d6122 case 35 => 0xfde5380c
    case 36 => 0xa4beea44 case 37 => 0x4bdecfa9 case 38 => 0xf6bb4b60 case 39 => 0xbebfbc70
    case 40 => 0x289b7ec6 case 41 => 0xeaa127fa case 42 => 0xd4ef3085 case 43 => 0x04881d05
    case 44 => 0xd9d4d039 case 45 => 0xe6db99e5 case 46 => 0x1fa27cf8 case 47 => 0xc4ac5665
    case 48 => 0xf4292244 case 49 => 0x432aff97 case 50 => 0xab9423a7 case 51 => 0xfc93a039
    case 52 => 0x655b59c3 case 53 => 0x8f0ccc92 case 54 => 0xffeff47d case 55 => 0x85845dd1
    case 56 => 0x6fa87e4f case 57 => 0xfe2ce6e0 case 58 => 0xa3014314 case 59 => 0x4e0811a1
    case 60 => 0xf7537e82 case 61 => 0xbd3af235 case 62 => 0x2ad7d2bb case 63 => 0xeb86d391
    case _ => 0
  }

  function Mix(f: Word, a: Word, b: Word, x: Word, n: nat, t: Word): Word
    requires n <= 32
  {
    Sum(RotateLeft(Sum(a, Sum(Sum(f, x), t)), n), b)
  }

  /** Step `i` of 64: the registers turn by one place. */
  function StepOf(i: nat, s: State, x: seq<Word>): State
    requires |x| == 16
  {
    var f := Aux(i / 16, s.b, s.c, s.d);
    State(s.d, Mix(f, s.a, s.b, x[WordIndex(i)], Shift(i / 16, i % 4), Sine(i)), s.b, s.c)
  }

  function StepsFrom(i: nat, n: nat, s: State, x: seq<Word>): State
    requires |x| == 16
    decreases n
  {
    if n == 0 then s else StepsFrom(i + 1, n - 1, StepOf(i, s, x), x)
  }

  function LittleEndian(b: seq<Byte>): Word
    requires |b| == 4
  {
    var b0: int, b1: int, b2: int, b3: int := b[0], b[1], b[2], b[3];
    b0 + 0x100 * b1 + 0x1_0000 * b2 + 0x100_0000 * b3
  }

  function WordsOf(block: seq<Byte>): (x: seq<Word>)
    requires |block| == 64
    ensures |x| == 16
  {
    seq(16, k requires 0 <= k < 16 => LittleEndian(block[4 * k..4 * k + 4]))
  }

  function Compress(s: State, block: seq<Byte>): State
    requires |block| == 64
  {
    var t := StepsFrom(0, 64, s, WordsOf(block));
    State(Sum(s.a, t.a), Sum(s.b, t.b), Sum(s.c, t.c), Sum(s.d, t.d))
  }

  // ---------------------------------------------------------------- messages

  /** The state after every complete block of `m`. */
  function Blocks(s: State, m: seq<Byte>): State
    decreases |m|
  {
    if |m| < 64 then s else Blocks(Compress(s, m[..64]), m[64..])
  }

  function Zeros(n: nat): (z: seq<Byte>)
    ensures |z| == n
  {
    seq(n, _ => 0)
  }

  function BytesOf(w: Word): (b: seq<Byte>)
    ensures |b| == 4
  {
    [w % 0x100, w / 0x100 % 0x100, w / 0x1_0000 % 0x100, w / 0x100_0000 % 0x100]
  }

  /** How many padding bytes bring a message of length `n` to 56 modulo 64. */
  function PadLength(n: nat): (k: nat)
    ensures 1 <= k <= 64 && (n + k) % 64 == 56
  {
    1 + (119 - n % 64) % 64
  }

  /** A single 1 bit, zeros, and the bit length modulo 2^64, low-order word first. */
  function Padded(m: seq<Byte>): seq<Byte> {
    var bits := 8 * |m| % TWO64;
    m + ([0x80] + Zeros(PadLength(|m|) - 1)) + AllBytes([bits % TWO32, bits / TWO32])
  }

  function AllBytes(ws: seq<Word>): (b: seq<Byte>)
    ensures |b| == 4 * |ws|
  {
    if ws == [] then [] else BytesOf(ws[0]) + AllBytes(ws[1..])
  }

  function Digest(m: seq<Byte>): seq<Byte> {
    var s := Blocks(INITIAL, Padded(m));
    AllBytes([s.a, s.b, s.c, s.d])
  }
}
