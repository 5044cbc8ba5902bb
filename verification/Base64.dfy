/** `base64_encode`, against section 4 of RFC 4648. */
module Base64 {
  import opened Text

  type Byte = x: int | 0 <= x < 256
  type Sextet = x: int | 0 <= x < 64

  // ---------------------------------------------------------------- specification

  /** The alphabet by position: upper-case letters, lower-case letters, digits, `+`, `/`. */
  function Letter(v: Sextet): char {
    if v < 26 then ('A' as int + v) as char
    else if v < 52 then ('a' as int + v - 26) as char
    else if v < 62 then ('0' as int + v - 52) as char
    else if v == 62 then '+' else '/'
  }

  /** A 24-bit group as four 6-bit groups, high-order first. */
  function Quad(n: int): (q: seq<Sextet>)
    requires 0 <= n < 0x100_0000
    ensures |q| == 4
  {
    [n / 0x4_0000, n / 0x1000 % 64, n / 64 % 64, n % 64]
  }

  // The same groups in terms of the bytes.
  function S0(a: Byte): Sextet { a / 4 }
  function S1(a: Byte, b: Byte): Sextet { a % 4 * 16 + b / 16 }
  function S2(b: Byte, c: Byte): Sextet { b % 16 * 4 + c / 64 }
  function S3(c: Byte): Sextet { c % 64 }

  function Letters(vs: seq<Sextet>): (t: string)
    ensures |t| == |vs| && forall i :: 0 <= i < |vs| ==> t[i] == Letter(vs[i])
  {
    seq(|vs|, i requires 0 <= i < |vs| => Letter(vs[i]))
  }

  /** Three bytes at a time; a last group of one or two bytes is filled with zero bits, and the
      characters that carry none of its bits are `=`. */
  function Encoded(s: seq<Byte>): string
    decreases |s|
  {
    if s == [] then ""
    else if |s| == 1 then Letters(Quad(Value(s[0], 0, 0))[..2]) + "=="
    else if |s| == 2 then Letters(Quad(Value(s[0], s[1], 0))[..3]) + "="
    else Letters(Quad(Value(s[0], s[1], s[2]))) + Encoded(s[3..])
  }

  function Value(a: int, b: int, c: int): (n: int)
    requires 0 <= a < 256 && 0 <= b < 256 && 0 <= c < 256
    ensures 0 <= n < 0x100_0000
  {
    0x1_0000 * a + 0x100 * b + c
  }

  lemma Div18(q: int, r: int)
    requires 0 <= r < 0x4_0000
    ensures (0x4_0000 * q + r) / 0x4_0000 == q
  {
  }

  lemma Div12(q: int, r: int)
    requires 0 <= r < 0x1000
    ensures (0x1000 * q + r) / 0x1000 == q
  {
  }

  lemma Div6(q: int, r: int)
    requires 0 <= r < 64
    ensures (64 * q + r) / 64 == q && (64 * q + r) % 64 == r
  {
  }

  lemma FirstSextet(a: int, b: int, c: int)
    requires 0 <= a < 256 && 0 <= b < 256 && 0 <= c < 256
    ensures Value(a, b, c) / 0x4_0000 == a / 4
  {
    Div18(a / 4, 0x1_0000 * (a % 4) + 0x100 * b + c);
  }

  lemma SecondSextet(a: int, b: int, c: int)
    requires 0 <= a < 256 && 0 <= b < 256 && 0 <= c < 256
    ensures Value(a, b, c) / 0x1000 % 64 == a % 4 * 16 + b / 16
  {
    Div12(16 * a + b / 16, 0x100 * (b % 16) + c);
    Div6(a / 4, a % 4 * 16 + b / 16);
  }

  lemma ThirdSextet(a: int, b: int, c: int)
    requires 0 <= a < 256 && 0 <= b < 256 && 0 <= c < 256
    ensures Value(a, b, c) / 64 % 64 == b % 16 * 4 + c / 64
  {
    Div6(0x400 * a + 4 * b + c / 64, c % 64);
    Div6(16 * a + b / 16, b % 16 * 4 + c / 64);
  }

  lemma FourthSextet(a: int, b: int, c: int)
    requires 0 <= a < 256 && 0 <= b < 256 && 0 <= c < 256
    ensures Value(a, b, c) % 64 == c % 64
  {
    Div6(0x400 * a + 4 * b + c / 64, c % 64);
  }

  /** The sextets in terms of the bytes. */
  lemma QuadIs(a: Byte, b: Byte, c: Byte)
    ensures Quad(Value(a, b, c)) == [S0(a), S1(a, b), S2(b, c), S3(c)]
  {
    hide Value;
    FirstSextet(a, b, c);
    SecondSextet(a, b, c);
    ThirdSextet(a, b, c);
    FourthSextet(a, b, c);
  }

  // ---------------------------------------------------------------- decoding, length

  function IndexOf(c: char): int {
    if 'A' <= c <= 'Z' then c as int - 'A' as int
    else if 'a' <= c <= 'z' then c as int - 'a' as int + 26
    else if '0' <= c <= '9' then c as int - '0' as int + 52
    else if c == '+' then 62 else if c == '/' then 63 else 0
  }

  lemma IndexOfLetter(v: Sextet)
    ensures IndexOf(Letter(v)) == v && Letter(v) != '='
  {
  }

  /** The bytes four sextets carry. */
  function Triple(a: int, b: int, c: int, d: int): seq<int> {
    [a * 4 + b / 16, b % 16 * 16 + c / 4, c % 4 * 64 + d]
  }

  function Decoded(t: string): seq<int>
    decreases |t|
  {
    if |t| < 4 then []
    else
      var bytes := Triple(IndexOf(t[0]), IndexOf(t[1]), IndexOf(t[2]), IndexOf(t[3]));
      if t[2] == '=' then bytes[..1] else if t[3] == '=' then bytes[..2] else bytes + Decoded(t[4..])
  }

  lemma TripleIs(a: Byte, b: Byte, c: Byte)
    ensures Triple(S0(a), S1(a, b), S2(b, c), S3(c)) == [a, b, c]
    ensures b == 0 && c == 0 ==> S2(b, c) == 0
    ensures c == 0 ==> S3(c) == 0
  {
    By16(a % 4, b / 16);
    By4(b % 16, c / 64);
  }

  lemma By16(q: int, r: int)
    requires 0 <= r < 16
    ensures (q * 16 + r) / 16 == q && (q * 16 + r) % 16 == r
  {
  }

  lemma By4(q: int, r: int)
    requires 0 <= r < 4
    ensures (q * 4 + r) / 4 == q && (q * 4 + r) % 4 == r
  {
  }

  /** Four letters give their three bytes back. */
  lemma GroupDecodes(a: Byte, b: Byte, c: Byte)
    ensures var t := Letters(Quad(Value(a, b, c)));
      && (forall i :: 0 <= i < 4 ==> t[i] != '=')
      && Triple(IndexOf(t[0]), IndexOf(t[1]), IndexOf(t[2]), IndexOf(t[3])) == [a, b, c]
      && (b == 0 && c == 0 ==> IndexOf(t[2]) == 0) && (c == 0 ==> IndexOf(t[3]) == 0)
  {
    hide Letter, IndexOf, Triple, Value, S0, S1, S2, S3;
    QuadIs(a, b, c);
    TripleIs(a, b, c);
    var q := Quad(Value(a, b, c));
    IndexOfLetter(q[0]);
    IndexOfLetter(q[1]);
    IndexOfLetter(q[2]);
    IndexOfLetter(q[3]);
  }

  lemma ShortDecodes(s: seq<Byte>)
    requires 1 <= |s| <= 2
    ensures Decoded(Encoded(s)) == s && |Encoded(s)| == 4
  {
    hide Letter, Quad, Value, Triple;
    GroupDecodes(s[0], if |s| > 1 then s[1] else 0, 0);
    assert IndexOf('=') == 0;
  }

  lemma LongDecodes(a: Byte, b: Byte, c: Byte, t: string)
    ensures Decoded(Letters(Quad(Value(a, b, c))) + t) == [a, b, c] + Decoded(t)
  {
    hide Letter, Quad, Value, Triple, IndexOf;
    GroupDecodes(a, b, c);
    var u := Letters(Quad(Value(a, b, c))) + t;
    assert u[4..] == t;
  }

  /** Decoding undoes encoding, and the length is four characters for every three bytes begun. */
  lemma {:induction false} Base64RoundTrip(s: seq<Byte>)
    ensures Decoded(Encoded(s)) == s && |Encoded(s)| == (|s| + 2) / 3 * 4
    decreases |s|
  {
    hide Decoded, Quad, Value;
    if s == [] {
      NothingDecodes();
    } else if |s| < 3 {
      ShortDecodes(s);
    } else {
      Base64RoundTrip(s[3..]);
      LongDecodes(s[0], s[1], s[2], Encoded(s[3..]));
      assert s == [s[0], s[1], s[2]] + s[3..];
    }
  }

  lemma NothingDecodes()
    ensures Decoded("") == []
  {
  }

  // ---------------------------------------------------------------- the loop

  const TWO31 := 0x8000_0000
  const TWO32 := 0x1_0000_0000

  /** An `int` after overflow: the value modulo 2^32 that is in range. */
  function Wrap(x: int): int { (x + TWO31) % TWO32 - TWO31 }

  /** `(x >> k) & 0x3F` on a signed value. */
  function Bits(x: int, k: int): Sextet
    requires k in {0, 2, 4, 6}
  {
    x / (match k case 0 => 1 case 2 => 4 case 4 => 16 case _ => 64) % 64
  }

  lemma WrapIs(x: int) returns (q: int)
    ensures Wrap(x) == x - TWO32 * q
  {
    q := (x + TWO31) / TWO32;
  }

  lemma Low0(x: int, q: int)
    ensures (x - TWO32 * q) % 64 == x % 64
  {
    assert x - TWO32 * q == x + 64 * (-0x400_0000 * q);
  }

  lemma Low2(x: int, q: int)
    ensures (x - TWO32 * q) / 4 % 64 == x / 4 % 64
  {
    assert (x - TWO32 * q) / 4 == x / 4 + 64 * (-0x100_0000 * q);
  }

  lemma Low4(x: int, q: int)
    ensures (x - TWO32 * q) / 16 % 64 == x / 16 % 64
  {
    assert (x - TWO32 * q) / 16 == x / 16 + 64 * (-0x40_0000 * q);
  }

  lemma Low6(x: int, q: int)
    ensures (x - TWO32 * q) / 64 % 64 == x / 64 % 64
  {
    assert (x - TWO32 * q) / 64 == x / 64 + 64 * (-0x10_0000 * q);
  }

  /** The number of 32 bits that is the same modulo 2^32. */
  lemma WrapExact(x: int)
    ensures -0x8000_0000 <= Wrap(x) < 0x8000_0000 && (x - Wrap(x)) % 0x1_0000_0000 == 0
  {
    var y := x + TWO31;
    assert x - Wrap(x) == TWO32 * (y / TWO32);
    Whole(y / TWO32);
  }

  lemma Whole(k: int)
    ensures TWO32 * k % TWO32 == 0
  {
  }

  /** What overflow drops never reaches the twelve bits that are read. */
  lemma WrapKeeps(x: int, k: int)
    requires k in {0, 2, 4, 6}
    ensures Bits(Wrap(x), k) == Bits(x, k)
  {
    hide Wrap;
    var q := WrapIs(x);
    Low0(x, q);
    Low2(x, q);
    Low4(x, q);
    Low6(x, q);
  }

  /** The letters put out once the bytes `s` are read, a last group possibly incomplete. */
  function Emitted(s: seq<Byte>): string
    decreases |s|
  {
    if s == [] then ""
    else if |s| == 1 then [Letter(S0(s[0]))]
    else if |s| == 2 then [Letter(S0(s[0])), Letter(S1(s[0], s[1]))]
    else Letters(Quad(Value(s[0], s[1], s[2]))) + Emitted(s[3..])
  }

  /** What reading one more byte puts out, `p` being the byte before it. */
  function Next(place: nat, p: Byte, c: Byte): string
    requires place < 3
  {
    if place == 0 then [Letter(S0(c))]
    else if place == 1 then [Letter(S1(p, c))]
    else [Letter(S2(p, c)), Letter(S3(c))]
  }

  function Last(s: seq<Byte>): Byte { if s == [] then 0 else s[|s| - 1] }

  lemma EmittedGroup(s: seq<Byte>, t: seq<Byte>)
    requires |s| == 3
    ensures Emitted(s + t) == Letters(Quad(Value(s[0], s[1], s[2]))) + Emitted(t)
    ensures Encoded(s + t) == Letters(Quad(Value(s[0], s[1], s[2]))) + Encoded(t)
  {
    hide Letter, Quad, Value;
    assert (s + t)[3..] == t;
  }

  lemma FourLetters(a: Byte, b: Byte, c: Byte)
    ensures Letters(Quad(Value(a, b, c)))
         == [Letter(S0(a)), Letter(S1(a, b)), Letter(S2(b, c)), Letter(S3(c))]
  {
    hide Letter, Quad, S0, S1, S2, S3;
    QuadIs(a, b, c);
  }

  lemma EmittedOf(a: Byte, b: Byte, c: Byte)
    ensures Emitted([a]) == [Letter(S0(a))]
    ensures Emitted([a, b]) == [Letter(S0(a)), Letter(S1(a, b))]
    ensures Emitted([a, b, c]) == Letters(Quad(Value(a, b, c)))
  {
    hide Letter, Letters, Quad, S0, S1;
    assert [a, b, c][3..] == [];
  }

  lemma Emitted1(a: Byte, c: Byte)
    ensures Emitted([a, c]) == Emitted([a]) + Next(1, a, c)
  {
    hide Letter, Letters, Quad, Value, Emitted, S0, S1, S2, S3;
    EmittedOf(a, c, 0);
  }

  lemma Emitted2(a: Byte, b: Byte, c: Byte)
    ensures Emitted([a, b, c]) == Emitted([a, b]) + Next(2, b, c)
  {
    hide Letter, Letters, Quad, Value, Emitted, S0, S1, S2, S3;
    EmittedOf(a, b, c);
    FourLetters(a, b, c);
  }

  lemma EmittedShort(s: seq<Byte>, c: Byte)
    requires |s| < 3
    ensures Emitted(s + [c]) == Emitted(s) + Next(|s| % 3, Last(s), c)
  {
    hide Emitted, Next;
    if |s| == 0 {
      assert s == [] && s + [c] == [c];
      EmittedFirst(c);
    } else if |s| == 1 {
      assert s == [s[0]] && s + [c] == [s[0], c];
      Emitted1(s[0], c);
    } else {
      assert s == [s[0], s[1]] && s + [c] == [s[0], s[1], c];
      Emitted2(s[0], s[1], c);
    }
  }

  lemma EmittedFirst(c: Byte)
    ensures Emitted([c]) == Emitted([]) + Next(0, 0, c)
  {
  }

  lemma {:induction false} EmittedSnoc(s: seq<Byte>, c: Byte)
    ensures Emitted(s + [c]) == Emitted(s) + Next(|s| % 3, Last(s), c)
    decreases |s|
  {
    hide Emitted, Next, Letters, Value, Quad;
    if |s| < 3 {
      EmittedShort(s, c);
    } else {
      var g, t := s[..3], s[3..];
      assert s == g + t && s + [c] == g + (t + [c]);
      EmittedGroup(g, t);
      EmittedGroup(g, t + [c]);
      EmittedSnoc(t, c);
      if t == [] { LastFree(Last(s), c); }
      Assoc(Letters(Quad(Value(g[0], g[1], g[2]))), Emitted(t), Next(|s| % 3, Last(t), c));
    }
  }

  lemma LastFree(p: Byte, c: Byte)
    ensures Next(0, p, c) == Next(0, 0, c) && Ending(0, p) == Ending(0, 0)
  {
  }

  /** What is left to put out at the end. */
  function Ending(place: nat, p: Byte): string
    requires place < 3
  {
    if place == 0 then "" else if place == 1 then [Letter(S1(p, 0))] + "==" else [Letter(S2(p, 0))] + "="
  }

  lemma Encoded1(a: Byte)
    ensures Encoded([a]) == Emitted([a]) + Ending(1, a) && |Emitted([a])| == 1
  {
    hide Letter, Letters, Quad, Value, S0, S1, S2, S3;
    FirstLetters(a, 0);
  }

  lemma Encoded2(a: Byte, b: Byte)
    ensures Encoded([a, b]) == Emitted([a, b]) + Ending(2, b) && |Emitted([a, b])| == 2
  {
    hide Letter, Letters, Quad, Value, S0, S1, S2, S3;
    FirstLetters(a, b);
  }

  lemma EncodedShort(s: seq<Byte>)
    requires |s| < 3
    ensures Encoded(s) == Emitted(s) + Ending(|s| % 3, Last(s)) && |Emitted(s)| == |s|
  {
    hide Encoded, Emitted, Ending;
    if |s| == 0 {
      assert s == [];
      NothingEncoded();
    } else if |s| == 1 {
      assert s == [s[0]];
      Encoded1(s[0]);
    } else {
      assert s == [s[0], s[1]];
      Encoded2(s[0], s[1]);
    }
  }

  lemma NothingEncoded()
    ensures Encoded([]) == "" && Emitted([]) == "" && Ending(0, 0) == ""
  {
  }

  lemma FirstLetters(a: Byte, b: Byte)
    ensures Letters(Quad(Value(a, b, 0))[..3]) == [Letter(S0(a)), Letter(S1(a, b)), Letter(S2(b, 0))]
    ensures Letters(Quad(Value(a, 0, 0))[..2]) == [Letter(S0(a)), Letter(S1(a, 0))]
  {
    hide Letter, Quad, S0, S1, S2;
    QuadIs(a, b, 0);
    QuadIs(a, 0, 0);
  }

  lemma {:induction false} EncodedEnds(s: seq<Byte>)
    ensures Encoded(s) == Emitted(s) + Ending(|s| % 3, Last(s))
    ensures |Emitted(s)| % 4 == |s| % 3
    decreases |s|
  {
    hide Emitted, Encoded, Ending, Value, Quad;
    if |s| < 3 {
      EncodedShort(s);
    } else {
      var g, t := s[..3], s[3..];
      assert s == g + t;
      EmittedGroup(g, t);
      EncodedEnds(t);
      if t == [] { LastFree(Last(s), 0); }
      Assoc(Letters(Quad(Value(g[0], g[1], g[2]))), Emitted(t), Ending(|s| % 3, Last(t)));
    }
  }

  /** What the accumulator holds of the byte before, once `place` bytes of a group are read. */
  ghost predicate Carries(val: int, place: nat, p: Byte) {
    (place == 1 ==> val % 4 == p % 4) && (place == 2 ==> val % 16 == p % 16)
  }

  lemma WrapCarries(x: int, val: int, c: Byte, place: nat)
    requires x == val * 256 + c
    ensures Carries(Wrap(x), place, c)
  {
    hide Wrap;
    var q := WrapIs(x);
    assert Wrap(x) == 16 * (16 * val - 0x1000_0000 * q) + c;
    SameLow(Wrap(x), 16 * val - 0x1000_0000 * q, c);
  }

  lemma SameLow(y: int, k: int, c: int)
    requires y == 16 * k + c
    ensures y % 4 == c % 4 && y % 16 == c % 16
  {
    By16(k + c / 16, c % 16);
    By4(4 * k + c / 4, c % 4);
  }

  lemma Shifts(val: int, c: int)
    requires 0 <= c < 256
    ensures (val * 256 + c) / 4 == 64 * val + c / 4
    ensures (val * 256 + c) / 16 == 16 * val + c / 16
    ensures (val * 256 + c) / 64 == 4 * val + c / 64
  {
  }

  lemma Bits2(val: int, c: Byte)
    ensures Bits(val * 256 + c, 2) == S0(c)
  {
    Shifts(val, c);
    Div6(val, c / 4);
  }

  lemma Bits4(val: int, c: Byte, p: Byte)
    requires val % 4 == p % 4
    ensures Bits(val * 256 + c, 4) == S1(p, c)
  {
    Shifts(val, c);
    var m, u := p % 4, c / 16;
    assert val == 4 * (val / 4) + m;
    assert 16 * val + u == 64 * (val / 4) + (m * 16 + u);
    Div6(val / 4, m * 16 + u);
  }

  lemma Bits6(val: int, c: Byte, p: Byte)
    requires val % 16 == p % 16
    ensures Bits(val * 256 + c, 6) == S2(p, c)
  {
    Shifts(val, c);
    var m, u := p % 16, c / 64;
    assert val == 16 * (val / 16) + m;
    assert 4 * val + u == 64 * (val / 16) + (m * 4 + u);
    Div6(val / 16, m * 4 + u);
  }

  lemma Bits0(val: int, c: Byte)
    ensures Bits(val * 256 + c, 0) == S3(c)
  {
    assert val * 256 + c == 64 * (4 * val + c / 64) + c % 64;
    Div6(4 * val + c / 64, c % 64);
  }

  /** The letters still to come for one byte, while `valb` counts down. */
  function Due(x: int, valb: int): string
    requires valb in {-6, -4, -2, 0, 2, 4, 6}
  {
    if valb < 0 then "" else [Letter(Bits(x, valb))] + Due(x, valb - 6)
  }

  lemma DueIsNext(val: int, place: nat, p: Byte, c: Byte)
    requires place < 3 && Carries(val, place, p)
    ensures Due(val * 256 + c, 2 + 2 * place) == Next(place, p, c)
  {
    hide Bits, Letter, S0, S1, S2, S3;
    var x := val * 256 + c;
    if place == 0 {
      Bits2(val, c);
      assert Due(x, -4) == "";
    } else if place == 1 {
      Bits4(val, c, p);
      assert Due(x, -2) == "";
    } else {
      Bits6(val, c, p);
      Bits0(val, c);
      assert Due(x, -6) == "";
    }
  }

  lemma EndingIs(val: int, place: nat, p: Byte)
    requires 1 <= place < 3 && Carries(val, place, p)
    ensures Ending(place, p) == [Letter(Bits(val * 256, 2 + 2 * place))] + if place == 1 then "==" else "="
  {
    hide Bits, Letter, S0, S1, S2, S3;
    if place == 1 {
      Bits4(val, 0, p);
    } else {
      Bits6(val, 0, p);
    }
  }

  /** The inner loop: put out what the accumulator has complete. */
  method PutOut(val: int, start: int, ghost x: int, before: string) returns (out: string, valb: int)
    requires val == Wrap(x) && start in {2, 4, 6}
    ensures out == before + Due(x, start)
    ensures valb == if start == 2 then -4 else if start == 4 then -2 else -6
  {
    hide Letter, Bits, Wrap;
    out, valb := before, start;
    while valb >= 0
      invariant valb in {-6, -4, -2, 0, 2, 4, 6} && (valb == start || valb == start - 6 || (start == 6 && valb == -6))
      invariant before + Due(x, start) == out + Due(x, valb)
    {
      WrapKeeps(x, valb);
      Assoc(out, [Letter(Bits(x, valb))], Due(x, valb - 6));
      out := out + [Letter(Bits(val, valb))];
      valb := valb - 6;
    }
  }

  /** Filling up with `=`. */
  method PadOut(before: string) returns (out: string)
    requires |before| % 4 != 1
    ensures out == before + Padding(|before| % 4)
  {
    out := before;
    var r := |before| % 4;
    while |out| % 4 != 0
      invariant |before| <= |out| && |out| % 4 != 1
      invariant before + Padding(r) == out + Padding(|out| % 4)
      decreases 4 - |out| % 4
    {
      assert Padding(|out| % 4) == "=" + Padding((|out| + 1) % 4);
      Assoc(out, "=", Padding((|out| + 1) % 4));
      out := out + "=";
      if |out| % 4 == 0 { break; }
    }
  }

  /** One more byte moves on by one place in its group. */
  lemma PlaceAfter(i: nat)
    ensures (i + 1) % 3 == if i % 3 == 2 then 0 else i % 3 + 1
  {
  }

  /** MAIN RESULT.  `base64_encode`, with a 32-bit accumulator that is never cleared, gives the
      encoding of RFC 4648. */
  method Encode(input: seq<Byte>) returns (out: string)
    ensures out == Encoded(input)
  {
    hide Letter, Bits, Emitted, Encoded, Wrap, Carries, Ending, Next, Due;
    out := "";
    var val, valb := 0, -6;
    NothingYet();
    ghost var place := 0;
    for i := 0 to |input|
      invariant place == i % 3 && valb == 2 * place - 6
      invariant out == Emitted(input[..i]) && Carries(val, place, Last(input[..i]))
    {
      var c := input[i];
      ghost var x := val * 256 + c;
      EmittedSnoc(input[..i], c);
      assert input[..i + 1] == input[..i] + [c];
      DueIsNext(val, place, Last(input[..i]), c);
      PlaceAfter(i);
      place := if place == 2 then 0 else place + 1;
      WrapCarries(x, val, c, place);
      val := Wrap(val * 256 + c);
      out, valb := PutOut(val, valb + 8, x, out);
    }
    assert input[..|input|] == input;
    EncodedEnds(input);
    NoEnding(Last(input));
    ghost var emitted := out;
    if valb > -6 {
      EndingIs(val, place, Last(input));
      WrapKeeps(val * 256, valb + 8);
      Assoc(out, [Letter(Bits(val * 256, valb + 8))], Padding(place + 1));
      out := out + [Letter(Bits(Wrap(val * 256), valb + 8))];
    }
    assert |out| % 4 == if place == 0 then 0 else place + 1;
    out := PadOut(out);
  }

  function Padding(r: int): string { if r == 2 then "==" else if r == 3 then "=" else "" }

  lemma NoEnding(p: Byte)
    ensures Ending(0, p) == ""
  {
  }

  lemma NothingYet()
    ensures Emitted([]) == "" && forall p :: Carries(0, 0, p)
  {
  }
}
