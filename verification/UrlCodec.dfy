/** Percent-encoding and query strings: `encode_query_param`, `decode_url`,
    `params_to_query_str` and `parse_query_text`. */
module UrlCodec {
  import opened Text

  /** Every character is a byte. */
  ghost predicate IsBytes(s: string) {
    forall i :: 0 <= i < |s| ==> s[i] as int < 256
  }

  // ---------------------------------------------------------------- encoding

  predicate IsAlnum(c: char) {
    '0' <= c <= '9' || 'A' <= c <= 'Z' || 'a' <= c <= 'z'
  }

  /** The characters a query value keeps as they are. */
  predicate IsPlain(c: char) {
    IsAlnum(c) || c in "-_.!~*'()"
  }

  function UpperHex(v: nat): char
    requires v < 16
  {
    if v < 10 then ('0' as int + v) as char else ('A' as int + v - 10) as char
  }

  function EncodedChar(c: char): string
    requires c as int < 256
  {
    if IsPlain(c) then [c] else ['%', UpperHex(c as int / 16), UpperHex(c as int % 16)]
  }

  function Encoded(s: string): string
    requires IsBytes(s)
  {
    if s == "" then "" else EncodedChar(s[0]) + Encoded(s[1..])
  }

  // ---------------------------------------------------------------- decoding

  /** `from_hex_to_i`: exactly `cnt` hexadecimal digits from position `i`; running off the end
      meets the terminating NUL and fails. */
  function HexValue(s: string, i: nat, cnt: nat, acc: nat): (r: Option<nat>)
    ensures r.Some? ==> i + cnt <= |s| || cnt == 0
    decreases cnt
  {
    if cnt == 0 then Some(acc)
    else if i >= |s| then None
    else if DigitValue(s[i]) < 0 then None
    else HexValue(s, i + 1, cnt - 1, acc * 16 + DigitValue(s[i]))
  }

  /** `to_utf8`; the surrogates give nothing. */
  function Utf8(code: nat): string
    requires code < 0x10000
  {
    if code < 0x80 then [code as char]
    else if code < 0x800 then [(0xC0 + code / 64) as char, (0x80 + code % 64) as char]
    else if 0xD800 <= code < 0xE000 then []
    else [(0xE0 + code / 4096) as char, (0x80 + code / 64 % 64) as char, (0x80 + code % 64) as char]
  }

  lemma HexBound(s: string, i: nat, cnt: nat, acc: nat, bound: nat)
    requires acc < bound
    ensures HexValue(s, i, cnt, acc).Some? ==> HexValue(s, i, cnt, acc).value < bound * Pow16(cnt)
    decreases cnt
  {
    if cnt > 0 && i < |s| && DigitValue(s[i]) >= 0 {
      HexBound(s, i + 1, cnt - 1, acc * 16 + DigitValue(s[i]), bound * 16);
      assert bound * 16 * Pow16(cnt - 1) == bound * Pow16(cnt);
    }
  }

  lemma HexFits(s: string, i: nat)
    ensures HexValue(s, i, 2, 0).Some? ==> HexValue(s, i, 2, 0).value < 0x100
    ensures HexValue(s, i, 4, 0).Some? ==> HexValue(s, i, 4, 0).value < 0x10000
  {
    HexBound(s, i, 2, 0, 1);
    HexBound(s, i, 4, 0, 1);
    assert Pow16(4) == 0x10000;
  }

  function Pow16(n: nat): nat { if n == 0 then 1 else 16 * Pow16(n - 1) }

  /** The text an escape at the head of `s` stands for, and how much of `s` it takes up. */
  function Unescaped(s: string, plus: bool): (r: (string, nat))
    requires s != ""
    ensures 1 <= r.1 <= |s|
  {
    if s[0] == '%' && 1 < |s| then
      if s[1] == 'u' then
        HexFits(s, 2);
        match HexValue(s, 2, 4, 0)
        case Some(v) => (Utf8(v), 6)
        case None => ([s[0]], 1)
      else
        HexFits(s, 1);
        match HexValue(s, 1, 2, 0)
        case Some(v) => ([v as char], 3)
        case None => ([s[0]], 1)
    else if plus && s[0] == '+' then (" ", 1)
    else ([s[0]], 1)
  }

  function Decoded(s: string, plus: bool): string {
    if s == "" then ""
    else
      var (t, n) := Unescaped(s, plus);
      t + Decoded(s[n..], plus)
  }

  // ---------------------------------------------------------------- round trip

  lemma EscapeDecodes(c: char, rest: string, plus: bool)
    requires c as int < 256
    ensures var s := EncodedChar(c) + rest;
            Unescaped(s, plus) == ([c], |EncodedChar(c)|)
  {
    var s := EncodedChar(c) + rest;
    if !IsPlain(c) {
      var hi, lo := c as int / 16, c as int % 16;
      assert s[0] == '%' && s[1] == UpperHex(hi) && s[2] == UpperHex(lo);
      assert DigitValue(UpperHex(hi)) == hi && DigitValue(UpperHex(lo)) == lo;
      assert HexValue(s, 3, 0, hi * 16 + lo) == Some(hi * 16 + lo);
      assert HexValue(s, 2, 1, hi) == Some(hi * 16 + lo);
      assert HexValue(s, 1, 2, 0) == Some(c as int);
    }
  }

  /** Decoding undoes encoding on every byte string, whatever the plus flag. */
  lemma {:induction false} DecodeUndoesEncode(s: string, plus: bool)
    requires IsBytes(s)
    ensures Decoded(Encoded(s), plus) == s
  {
    hide Unescaped, EncodedChar;
    if s != "" {
      var rest := Encoded(s[1..]);
      EscapeDecodes(s[0], rest, plus);
      assert Encoded(s)[|EncodedChar(s[0])|..] == rest;
      DecodeUndoesEncode(s[1..], plus);
      assert [s[0]] + s[1..] == s;
    }
  }

  /** An encoded value never contains a separator, a blank or a plus sign. */
  lemma {:induction false} EncodedIsClean(s: string)
    requires IsBytes(s)
    ensures forall i :: 0 <= i < |Encoded(s)| ==> Encoded(s)[i] == '%' || IsPlain(Encoded(s)[i])
  {
    if s != "" {
      EncodedIsClean(s[1..]);
    }
  }

  // ---------------------------------------------------------------- loops

  method EncodeQueryParam(value: string) returns (escaped: string)
    requires IsBytes(value)
    ensures escaped == Encoded(value)
  {
    escaped := "";
    var i := 0;
    assert value[0..] == value;
    while i < |value|
      invariant 0 <= i <= |value|
      invariant Encoded(value) == escaped + Encoded(value[i..])
    {
      assert value[i..][1..] == value[i + 1..];
      Assoc(escaped, EncodedChar(value[i]), Encoded(value[i + 1..]));
      var c := value[i];
      if IsPlain(c) {
        escaped := escaped + [c];
      } else {
        escaped := escaped + ['%', UpperHex(c as int / 16), UpperHex(c as int % 16)];
      }
      i := i + 1;
    }
  }

  method FromHexToI(s: string, start: nat, digits: nat) returns (r: Option<nat>)
    requires digits > 0
    ensures r == HexValue(s, start, digits, 0)
  {
    if start >= |s| { return None; }
    var i, cnt, val := start, digits, 0;
    while cnt > 0
      invariant start <= i && val >= 0
      invariant HexValue(s, start, digits, 0) == HexValue(s, i, cnt, val)
    {
      if i >= |s| { return None; }
      var d := DigitValue(s[i]);
      if d < 0 { return None; }
      val := val * 16 + d;
      i, cnt := i + 1, cnt - 1;
    }
    r := Some(val);
  }

  lemma HexShift(s: string, k: nat, i: nat, cnt: nat, acc: nat)
    requires k <= |s|
    ensures HexValue(s[k..], i, cnt, acc) == HexValue(s, k + i, cnt, acc)
    decreases cnt
  {
    if cnt > 0 && i < |s[k..]| {
      assert s[k..][i] == s[k + i];
    }
  }

  lemma DecodedStep(s: string, k: nat, plus: bool, done: string)
    requires k < |s|
    ensures var (t, n) := Unescaped(s[k..], plus);
            k + n <= |s| && done + Decoded(s[k..], plus) == done + t + Decoded(s[k + n..], plus)
  {
    var (t, n) := Unescaped(s[k..], plus);
    assert s[k..][n..] == s[k + n..];
    Assoc(done, t, Decoded(s[k + n..], plus));
  }

  lemma DecodedEnds(s: string, plus: bool)
    ensures Decoded(s[0..], plus) == Decoded(s, plus) && Decoded(s[|s|..], plus) == ""
  {
    assert s[0..] == s;
  }

  method DecodeUrl(s: string, convertPlusToSpace: bool) returns (result: string)
    ensures result == Decoded(s, convertPlusToSpace)
  {
    hide Decoded, HexValue, Utf8;
    result := "";
    var i := 0;
    DecodedEnds(s, convertPlusToSpace);
    while i < |s|
      invariant 0 <= i <= |s|
      invariant Decoded(s, convertPlusToSpace) == result + Decoded(s[i..], convertPlusToSpace)
    {
      DecodedStep(s, i, convertPlusToSpace, result);
      HexShift(s, i, 2, 4, 0);
      HexShift(s, i, 1, 2, 0);
      HexFits(s, i + 1);
      HexFits(s, i + 2);
      if s[i] == '%' && i + 1 < |s| {
        if s[i + 1] == 'u' {
          var val := FromHexToI(s, i + 2, 4);
          if val.Some? {
            result := result + Utf8(val.value);
            i := i + 5;
          } else {
            result := result + [s[i]];
          }
        } else {
          var val := FromHexToI(s, i + 1, 2);
          if val.Some? {
            result := result + [val.value as char];
            i := i + 2;
          } else {
            result := result + [s[i]];
          }
        }
      } else if convertPlusToSpace && s[i] == '+' {
        result := result + " ";
      } else {
        result := result + [s[i]];
      }
      i := i + 1;
    }
  }

  // ---------------------------------------------------------------- query strings

  /** A multimap listed in iteration order. */
  type Params = seq<(string, string)>

  function PairText(kv: (string, string)): string
    requires IsBytes(kv.1)
  {
    kv.0 + "=" + Encoded(kv.1)
  }

  ghost predicate BytesValues(ps: Params) {
    forall i :: 0 <= i < |ps| ==> IsBytes(ps[i].1)
  }

  function PairTexts(ps: Params): (ts: seq<string>)
    requires BytesValues(ps)
    ensures |ts| == |ps| && forall i :: 0 <= i < |ts| ==> ts[i] == PairText(ps[i])
  {
    seq(|ps|, i requires 0 <= i < |ps| => PairText(ps[i]))
  }

  /** `params_to_query_str` appends pair after pair. */
  method ParamsToQueryStr(ps: Params) returns (query: string)
    requires BytesValues(ps)
    ensures query == Glue(PairTexts(ps), "&")
  {
    hide *;
    ghost var ts := PairTexts(ps);
    query := "";
    GlueStep(ts, 0, "&");
    var i := 0;
    while i < |ps|
      invariant 0 <= i <= |ps|
      invariant query == Glue(ts[..i], "&")
    {
      GlueStep(ts, i, "&");
      assert IsBytes(ps[i].1) by { ValueIsBytes(ps, i); }
      PairTextAfter(if i == 0 then "" else query + "&", ps[i]);
      if i != 0 { query := query + "&"; }
      query := query + ps[i].0 + "=";
      var escaped := EncodeQueryParam(ps[i].1);
      query := query + escaped;
      i := i + 1;
    }
    assert ts[..i] == ts;
  }

  lemma ValueIsBytes(ps: Params, i: nat)
    requires BytesValues(ps) && i < |ps|
    ensures IsBytes(ps[i].1)
  {
  }

  lemma PairTextAfter(q: string, kv: (string, string))
    requires IsBytes(kv.1)
    ensures q + PairText(kv) == q + kv.0 + "=" + Encoded(kv.1)
  {
  }

  /** The key and value one `key=value` piece stands for: the first sub-piece, and the last of
      the others. */
  function PairOf(kv: string): (string, string) {
    var parts := SplitOn(kv, '=');
    (if parts == [] then "" else parts[0], if |parts| < 2 then "" else parts[|parts| - 1])
  }

  /** What one piece adds to the multimap, `f` being how keys and values are unquoted. */
  function Entry(kv: string, f: string -> string): Params {
    if PairOf(kv).0 == "" then [] else [(f(PairOf(kv).0), f(PairOf(kv).1))]
  }

  /** The multimap collected from the pieces not met before. */
  function Collected(kvs: seq<string>, cache: set<string>, f: string -> string): Params {
    if kvs == [] then []
    else if kvs[0] in cache then Collected(kvs[1..], cache, f)
    else Entry(kvs[0], f) + Collected(kvs[1..], cache + {kvs[0]}, f)
  }

  function DecodedPlus(s: string): string { Decoded(s, true) }

  /** What `parse_query_text` makes of a query. */
  function ParamsOf(s: string): Params { Collected(SplitOn(s, '&'), {}, DecodedPlus) }

  method ParseQueryText(s: string) returns (params: Params)
    ensures params == ParamsOf(s)
  {
    params := CollectPairs(s, '&', DecodedPlus);
  }

  /** The loop shared by `parse_query_text` and `parse_disposition_params`. */
  method CollectPairs(s: string, sep: char, f: string -> string) returns (params: Params)
    ensures params == Collected(SplitOn(s, sep), {}, f)
  {
    hide SplitOn, Entry;
    var kvs := Split(s, sep);
    ghost var whole := Collected(kvs, {}, f);
    params := [];
    var cache: set<string> := {};
    var i := 0;
    assert kvs[0..] == kvs;
    while i < |kvs|
      invariant 0 <= i <= |kvs|
      invariant whole == params + Collected(kvs[i..], cache, f)
    {
      CollectedStep(kvs, i, cache, f, params);
      if kvs[i] !in cache {
        cache := cache + {kvs[i]};
        var entry := ParsePair(kvs[i], f);
        params := params + entry;
      }
      i := i + 1;
    }
  }

  /** The inner loop over one piece: the first sub-piece becomes the key, each later one
      overwrites the value. */
  method ParsePair(kv: string, f: string -> string) returns (entry: Params)
    ensures entry == Entry(kv, f)
  {
    hide SplitOn, Entry;
    var parts := Split(kv, '=');
    var key, val := "", "";
    var j := 0;
    while j < |parts|
      invariant 0 <= j <= |parts|
      invariant j == 0 ==> key == "" && val == ""
      invariant j > 0 ==> key == parts[0] && key != ""
      invariant j > 0 ==> val == if j == 1 then "" else parts[j - 1]
    {
      SplitPiecesNonEmpty(kv, '=', j);
      if key == "" { key := parts[j]; } else { val := parts[j]; }
      j := j + 1;
    }
    EntryOfParts(kv, f);
    if key == "" { return []; }
    entry := [(f(key), f(val))];
  }

  lemma SplitPiecesNonEmpty(s: string, d: char, j: nat)
    requires j < |SplitOn(s, d)|
    ensures SplitOn(s, d)[j] != ""
  {
    TrimAllNonEmpty(Pieces(s, d), j);
  }

  lemma {:induction false} TrimAllNonEmpty(ps: seq<string>, j: nat)
    requires j < |TrimAll(ps)|
    ensures TrimAll(ps)[j] != ""
  {
    if j >= |Kept(ps[0])| {
      TrimAllNonEmpty(ps[1..], j - |Kept(ps[0])|);
    }
  }

  lemma EntryOfParts(kv: string, f: string -> string)
    ensures var parts := SplitOn(kv, '=');
      Entry(kv, f) == if parts == [] || parts[0] == "" then []
                      else [(f(parts[0]), f(if |parts| < 2 then "" else parts[|parts| - 1]))]
  {
  }

  lemma CollectedStep(kvs: seq<string>, i: nat, cache: set<string>, f: string -> string, done: Params)
    requires i < |kvs|
    ensures done + Collected(kvs[i..], cache, f)
         == if kvs[i] in cache then done + Collected(kvs[i + 1..], cache, f)
            else done + Entry(kvs[i], f) + Collected(kvs[i + 1..], cache + {kvs[i]}, f)
  {
    hide Entry;
    assert kvs[i..][1..] == kvs[i + 1..];
    Assoc(done, Entry(kvs[i], f), Collected(kvs[i + 1..], cache + {kvs[i]}, f));
  }

  // ---------------------------------------------------------------- query round trip

  /** No `%` begins a complete escape; and no plus sign, where that means a blank. */
  predicate Raw(s: string, plus: bool) {
    s == "" || (!(plus && s[0] == '+') && (s[0] == '%' ==> Unescaped(s, plus).1 == 1) && Raw(s[1..], plus))
  }

  /** A key that the unescaped left-hand side of a pair can carry. */
  ghost predicate KeyOk(k: string) {
    k != "" && NoOuterBlanks(k) && '&' !in k && '=' !in k && Raw(k, true)
  }

  /** A list with exact repetitions removed, the first occurrence kept. */
  function Dedup<T(==)>(xs: seq<T>, seen: set<T>): seq<T> {
    if xs == [] then []
    else if xs[0] in seen then Dedup(xs[1..], seen)
    else [xs[0]] + Dedup(xs[1..], seen + {xs[0]})
  }

  /** Decoding never lengthens, and leaves a text as it is exactly when that is raw. */
  lemma {:induction false} RawExact(s: string, plus: bool)
    ensures |Decoded(s, plus)| <= |s| && (Decoded(s, plus) == s <==> Raw(s, plus))
  {
    hide HexValue, Utf8;
    if s != "" {
      var (t, n) := Unescaped(s, plus);
      UnescapedShort(s, plus);
      RawExact(s[n..], plus);
      assert [s[0]] + s[1..] == s;
      if n == 1 {
        assert Decoded(s, plus)[0] == t[0];
        assert Decoded(s, plus)[1..] == Decoded(s[1..], plus);
      }
    }
  }

  /** An escape stands for a shorter text; any other character stands for one. */
  lemma UnescapedShort(s: string, plus: bool)
    requires s != ""
    ensures var (t, n) := Unescaped(s, plus);
      if n == 1 then t == [if plus && s[0] == '+' then ' ' else s[0]] else |t| < n && s[0] == '%'
  {
    hide HexValue;
    HexFits(s, 2);
    HexFits(s, 1);
  }

  lemma PairSplit(k: string, v: string)
    requires k != "" && NoOuterBlanks(k) && NoOuterBlanks(v) && '=' !in k && '=' !in v
    ensures PairOf(k + "=" + v) == (k, v)
  {
    hide SplitOn, Kept;
    SplitCons(k, '=', v);
    SplitSingle(v, '=');
    KeptIs(k, "");
    assert "" + k == k;
    if v == "" {
      KeptNothing();
    } else {
      KeptIs(v, "");
      assert "" + v == v;
    }
  }

  /** One pair survives being printed and parsed. */
  lemma PairRoundTrip(kv: (string, string))
    requires KeyOk(kv.0) && IsBytes(kv.1)
    ensures PairOf(PairText(kv)).0 == kv.0 && Entry(PairText(kv), DecodedPlus) == [kv]
    ensures PieceOk(PairText(kv), '&')
  {
    hide SplitOn, Encoded, Decoded, PairOf;
    var e := Encoded(kv.1);
    EncodedIsClean(kv.1);
    assert '=' !in e && '&' !in e;
    assert NoOuterBlanks(e);
    PairSplit(kv.0, e);
    RawExact(kv.0, true);
    DecodeUndoesEncode(kv.1, true);
  }

  lemma KeptNothing()
    ensures Kept("") == []
  {
  }

  ghost predicate AllKeysOk(ps: Params) {
    forall i :: 0 <= i < |ps| ==> KeyOk(ps[i].0) && IsBytes(ps[i].1)
  }

  lemma {:induction false} CollectedIsDedup(ps: Params, seen: set<(string, string)>, cache: set<string>)
    requires AllKeysOk(ps)
    requires forall i :: 0 <= i < |ps| ==> (PairText(ps[i]) in cache <==> ps[i] in seen)
    ensures Collected(PairTexts(ps), cache, DecodedPlus) == Dedup(ps, seen)
  {
    if ps != [] {
      assert PairTexts(ps)[1..] == PairTexts(ps[1..]);
      PairRoundTrip(ps[0]);
      if ps[0] in seen {
        CollectedIsDedup(ps[1..], seen, cache);
      } else {
        var t := PairText(ps[0]);
        forall i | 0 <= i < |ps[1..]|
          ensures PairText(ps[1..][i]) in cache + {t} <==> ps[1..][i] in seen + {ps[0]}
        {
          PairRoundTrip(ps[1..][i]);
        }
        CollectedIsDedup(ps[1..], seen + {ps[0]}, cache + {t});
      }
    }
  }

  /** Parsing a printed query gives the multimap back, exact duplicate pairs removed. */
  lemma QueryRoundTrip(ps: Params)
    requires AllKeysOk(ps)
    ensures ParamsOf(Glue(PairTexts(ps), "&")) == Dedup(ps, {})
  {
    if ps == [] {
      assert SplitOn("", '&') == [] by { SplitSingle("", '&'); }
    } else {
      forall i | 0 <= i < |ps| ensures PieceOk(PairTexts(ps)[i], '&') {
        PairRoundTrip(ps[i]);
      }
      SplitGlue(PairTexts(ps), '&', "&", "");
      assert "" + Glue(PairTexts(ps), "&") == Glue(PairTexts(ps), "&");
      CollectedIsDedup(ps, {}, {});
    }
  }
}
