/** The alphabets and escapes of the codecs, written out. */
module CodecTables {
  import opened Text
  import UrlCodec
  import Base64

  // ---------------------------------------------------------------- percent-encoding

  /** The characters a query value keeps: letters, digits and nine marks. */
  lemma KeptExact(c: char)
    requires c as int < 256
    ensures UrlCodec.Encoded([c]) == [c] <==>
      || c in "ABCDEFGHIJKLMNOPQRSTUVWXYZ" || c in "abcdefghijklmnopqrstuvwxyz" || c in "0123456789" || c in "-_.!~*'()"
  {
    OneEncoded(c);
  }

  /** Any other byte becomes a percent sign and two digits, the letters among them in upper case. */
  lemma EscapedExact(c: char)
    requires c as int < 256
    ensures var hex := "0123456789ABCDEF";
      UrlCodec.Encoded([c]) == [c] || UrlCodec.Encoded([c]) == ['%', hex[c as int / 16], hex[c as int % 16]]
  {
    OneEncoded(c);
    UpperExact(c as int / 16);
    UpperExact(c as int % 16);
  }

  lemma UpperExact(v: nat)
    requires v < 16
    ensures UrlCodec.UpperHex(v) == "0123456789ABCDEF"[v]
  {
  }

  lemma OneEncoded(c: char)
    requires c as int < 256
    ensures UrlCodec.Encoded([c]) == UrlCodec.EncodedChar(c)
  {
    hide UrlCodec.EncodedChar;
    assert [c][1..] == "";
    assert UrlCodec.Encoded([c]) == UrlCodec.EncodedChar(c) + "";
  }

  // ---------------------------------------------------------------- decoding

  predicate Hex(c: char) { c in "0123456789abcdef" || c in "0123456789ABCDEF" }

  lemma HexIs(c: char)
    ensures Hex(c) <==> DigitValue(c) >= 0
  {
  }

  /** MAIN RESULT, first part: two digits behind a percent sign give their byte. */
  lemma ShortDecoded(s: string, plus: bool, u: nat, v: nat)
    requires |s| >= 3 && s[0] == '%' && u < 16 && v < 16 && DigitValue(s[1]) == u && DigitValue(s[2]) == v
    ensures UrlCodec.Decoded(s, plus) == [(16 * u + v) as char] + UrlCodec.Decoded(s[3..], plus)
  {
    hide DigitValue, UrlCodec.Utf8, UrlCodec.HexValue;
    NotDigit();
    TwoDigits(s, 1);
  }

  /** Second part: a `u` and four digits give the UTF-8 form of their code. */
  lemma LongDecoded(s: string, plus: bool, a: nat, b: nat, c: nat, d: nat)
    requires |s| >= 6 && s[0] == '%' && s[1] == 'u' && a < 16 && b < 16 && c < 16 && d < 16
    requires DigitValue(s[2]) == a && DigitValue(s[3]) == b && DigitValue(s[4]) == c && DigitValue(s[5]) == d
    ensures UrlCodec.Decoded(s, plus)
         == UrlCodec.Utf8(0x1000 * a + 0x100 * b + 0x10 * c + d) + UrlCodec.Decoded(s[6..], plus)
  {
    hide DigitValue, UrlCodec.Utf8, UrlCodec.HexValue;
    FourDigits(s);
  }

  /** Third part: anything else stays, but a plus sign gives a blank where that is asked for. */
  lemma OtherDecoded(s: string, plus: bool)
    requires s != ""
    requires !(|s| >= 3 && s[0] == '%' && Hex(s[1]) && Hex(s[2]))
    requires !(|s| >= 6 && s[0] == '%' && s[1] == 'u' && Hex(s[2]) && Hex(s[3]) && Hex(s[4]) && Hex(s[5]))
    ensures UrlCodec.Decoded(s, plus) == [if plus && s[0] == '+' then ' ' else s[0]] + UrlCodec.Decoded(s[1..], plus)
  {
    hide DigitValue, UrlCodec.Utf8, Hex, UrlCodec.HexValue;
    HexThere(s);
    TwoDigits(s, 1);
    FourDigits(s);
  }

  lemma HexThere(s: string)
    ensures forall i :: 0 <= i < |s| ==> (Hex(s[i]) <==> DigitValue(s[i]) >= 0)
  {
    hide DigitValue, Hex;
    forall i | 0 <= i < |s| ensures Hex(s[i]) <==> DigitValue(s[i]) >= 0 { HexIs(s[i]); }
  }

  lemma NotDigit()
    ensures DigitValue('u') < 0
  {
  }

  lemma TwoDigits(s: string, i: nat)
    ensures UrlCodec.HexValue(s, i, 2, 0)
      == if i + 2 <= |s| && DigitValue(s[i]) >= 0 && DigitValue(s[i + 1]) >= 0
         then Some(16 * DigitValue(s[i]) + DigitValue(s[i + 1])) else None
  {
    hide DigitValue;
    UrlCodec.HexFits(s, i);
    if i < |s| && DigitValue(s[i]) >= 0 {
      var v := DigitValue(s[i]);
      assert UrlCodec.HexValue(s, i, 2, 0) == UrlCodec.HexValue(s, i + 1, 1, v);
      if i + 1 < |s| && DigitValue(s[i + 1]) >= 0 {
        var w := 16 * v + DigitValue(s[i + 1]);
        assert UrlCodec.HexValue(s, i + 2, 0, w) == Some(w);
      }
    }
  }

  lemma FourDigits(s: string)
    requires |s| >= 1
    ensures UrlCodec.HexValue(s, 2, 4, 0)
      == if |s| >= 6 && DigitValue(s[2]) >= 0 && DigitValue(s[3]) >= 0 && DigitValue(s[4]) >= 0 && DigitValue(s[5]) >= 0
         then Some(0x1000 * DigitValue(s[2]) + 0x100 * DigitValue(s[3]) + 16 * DigitValue(s[4]) + DigitValue(s[5]))
         else None
  {
    hide DigitValue;
    if |s| > 2 && DigitValue(s[2]) >= 0 {
      var v2 := DigitValue(s[2]);
      OneDigit(s, 2, 4, 0);
      OneDigit(s, 3, 3, v2);
      if |s| > 3 && DigitValue(s[3]) >= 0 {
        var v3 := 16 * v2 + DigitValue(s[3]);
        OneDigit(s, 4, 2, v3);
        if |s| > 4 && DigitValue(s[4]) >= 0 {
          var v4 := 16 * v3 + DigitValue(s[4]);
          OneDigit(s, 5, 1, v4);
          if |s| > 5 && DigitValue(s[5]) >= 0 {
            var v5 := 16 * v4 + DigitValue(s[5]);
            assert UrlCodec.HexValue(s, 6, 0, v5) == Some(v5);
          }
        }
      }
    } else {
      OneDigit(s, 2, 4, 0);
    }
  }

  lemma OneDigit(s: string, i: nat, cnt: nat, acc: nat)
    requires cnt > 0
    ensures UrlCodec.HexValue(s, i, cnt, acc)
      == if i < |s| && DigitValue(s[i]) >= 0 then UrlCodec.HexValue(s, i + 1, cnt - 1, acc * 16 + DigitValue(s[i])) else None
  {
    hide DigitValue;
  }

  // ---------------------------------------------------------------- UTF-8

  predicate Continues(c: char) { 0x80 <= c as int < 0xC0 }

  /** The code a UTF-8 sequence of up to three bytes stands for (section 3 of RFC 3629). */
  function CodeOf(t: string): int {
    if |t| == 1 then t[0] as int
    else if |t| == 2 then (t[0] as int - 0xC0) * 0x40 + (t[1] as int - 0x80)
    else if |t| == 3 then (t[0] as int - 0xE0) * 0x1000 + (t[1] as int - 0x80) * 0x40 + (t[2] as int - 0x80)
    else -1
  }

  /** A code gives its shortest UTF-8 sequence; a surrogate gives nothing. */
  lemma Utf8Exact(code: nat)
    requires code < 0x10000
    ensures var t := UrlCodec.Utf8(code);
      if 0xD800 <= code <= 0xDFFF then t == ""
      else
        && CodeOf(t) == code
        && |t| == (if code < 0x80 then 1 else if code < 0x800 then 2 else 3)
        && (|t| == 2 ==> 0xC2 <= t[0] as int <= 0xDF && Continues(t[1]))
        && (|t| == 3 ==> 0xE0 <= t[0] as int <= 0xEF && Continues(t[1]) && Continues(t[2]))
  {
  }

  // ---------------------------------------------------------------- base64

  /** The base64 alphabet (table 1 of RFC 4648). */
  lemma AlphabetExact(v: nat)
    ensures v < 26 ==> Base64.Letter(v) == "ABCDEFGHIJKLMNOPQRSTUVWXYZ"[v]
    ensures 26 <= v < 52 ==> Base64.Letter(v) == "abcdefghijklmnopqrstuvwxyz"[v - 26]
    ensures 52 <= v < 62 ==> Base64.Letter(v) == "0123456789"[v - 52]
    ensures Base64.Letter(62) == '+' && Base64.Letter(63) == '/'
  {
  }

  /** Test vectors of section 10 of RFC 4648. */
  lemma Base64Vectors()
    ensures Base64.Encoded([]) == "" && Base64.Encoded([0x66]) == "Zg==" && Base64.Encoded([0x66, 0x6f]) == "Zm8="
    ensures Base64.Encoded([0x66, 0x6f, 0x6f, 0x62, 0x61, 0x72]) == "Zm9vYmFy"
  {
    hide Base64.Letters, Base64.Quad;
    Groups();
    LettersIs("Zm9v", [25, 38, 61, 47]);
    LettersIs("YmFy", [24, 38, 5, 50]);
    LettersIs("Zg", [25, 32]);
    LettersIs("Zm8", [25, 38, 60]);
    var six := [0x66, 0x6f, 0x6f, 0x62, 0x61, 0x72];
    assert six[3..] == [0x62, 0x61, 0x72] && six[3..][3..] == [];
    assert [25, 32, 0, 0][..2] == [25, 32] && [25, 38, 60, 0][..3] == [25, 38, 60];
  }

  lemma Groups()
    ensures Base64.Quad(Base64.Value(0x66, 0, 0)) == [25, 32, 0, 0]
    ensures Base64.Quad(Base64.Value(0x66, 0x6f, 0)) == [25, 38, 60, 0]
    ensures Base64.Quad(Base64.Value(0x66, 0x6f, 0x6f)) == [25, 38, 61, 47]
    ensures Base64.Quad(Base64.Value(0x62, 0x61, 0x72)) == [24, 38, 5, 50]
  {
  }

  lemma LettersIs(t: string, q: seq<Base64.Sextet>)
    requires |t| == |q| && forall i :: 0 <= i < |q| ==> t[i] == Base64.Letter(q[i])
    ensures Base64.Letters(q) == t
  {
    hide Base64.Letter;
  }
}
