/** Which keys a query string can carry: `params_to_query_str` escapes values but not keys. */
module QueryExact {
  import opened Text
  import opened UrlCodec

  lemma TrimShort(s: string)
    ensures |Trim(s)| <= |s| && (!NoOuterBlanks(s) ==> |Trim(s)| < |s|)
  {
    hide TrimLeft, TrimRight;
    TrimLeftShort(s);
    TrimRightShort(TrimLeft(s));
  }

  /** Trimming the left end leaves what stands behind the separator alone. */
  lemma {:induction false} TrimLeftBefore(k: string, d: char, e: string)
    requires !IsBlank(d)
    ensures TrimLeft(k + [d] + e) == TrimLeft(k) + [d] + e
  {
    var s := k + [d] + e;
    if k == "" {
      assert s[0] == d;
    } else {
      assert s[1..] == k[1..] + [d] + e;
      TrimLeftBefore(k[1..], d, e);
    }
  }

  lemma KeptBefore(k: string, e: string)
    requires NoOuterBlanks(e)
    ensures Kept(k + "=" + e) == [TrimLeft(k) + "=" + e]
  {
    hide TrimLeft, TrimRight;
    TrimLeftBefore(k, '=', e);
    TrimRightShort(TrimLeft(k) + "=" + e);
  }

  /** Everything up to the first separator, and the rest. */
  lemma FirstCut(s: string, d: char) returns (x: string, rest: string)
    requires d in s
    ensures s == x + [d] + rest && d !in x
  {
    IndexLeast(s, d, 0);
    var i := IndexFrom(s, d, 0);
    x, rest := s[..i], s[i + 1..];
  }

  /** No reported piece is longer than the text, and it is shorter where there is a separator. */
  lemma {:induction false} PieceShort(s: string, d: char, j: nat)
    requires j < |SplitOn(s, d)|
    ensures |SplitOn(s, d)[j]| <= |s| && (d in s || !NoOuterBlanks(s) ==> |SplitOn(s, d)[j]| < |s|)
    decreases |s|
  {
    hide SplitOn, Trim, NoOuterBlanks;
    if d in s {
      var x, rest := FirstCut(s, d);
      SplitCons(x, d, rest);
      TrimShort(x);
      if j >= |Kept(x)| { PieceShort(rest, d, j - |Kept(x)|); }
    } else {
      SplitSingle(s, d);
      TrimShort(s);
    }
  }

  /** A last piece without separator is reported last. */
  lemma {:induction false} SplitLast(k: string, d: char, e: string)
    requires d !in e
    ensures SplitOn(k + [d] + e, d) == SplitOn(k, d) + Kept(e)
    decreases |k|
  {
    hide SplitOn, Kept;
    SplitSingle(e, d);
    if d in k {
      var x, rest := FirstCut(k, d);
      SplitLast(rest, d, e);
      SplitCons(x, d, rest);
      SplitCons(x, d, rest + [d] + e);
      assert k + [d] + e == x + [d] + (rest + [d] + e);
      Assoc(Kept(x), SplitOn(rest, d), Kept(e));
    } else {
      SplitSingle(k, d);
      SplitCons(k, d, e);
    }
  }

  /** The key read from a piece is empty, shorter than `n`, or the escaped value standing alone. */
  predicate Small(kv: string, e: string, n: nat) {
    PairOf(kv).0 == "" || |PairOf(kv).0| < n || PairOf(kv) == (e, "")
  }

  lemma PieceKey(k: string, e: string)
    requires '=' !in e && NoOuterBlanks(e)
    ensures Small(k + "=" + e, e, |k|) || (PairOf(k + "=" + e).0 == k && '=' !in k && NoOuterBlanks(k))
  {
    hide SplitOn, NoOuterBlanks, Kept;
    SplitLast(k, '=', e);
    KeptClean(e);
    var parts := SplitOn(k, '=');
    if parts != [] {
      assert PairOf(k + "=" + e).0 == parts[0];
      PieceShort(k, '=', 0);
      if '=' !in k && NoOuterBlanks(k) {
        SplitSingle(k, '=');
        KeptClean(k);
      }
    } else if e != "" {
      assert PairOf(k + "=" + e) == (e, "");
    }
  }

  lemma KeptClean(e: string)
    requires NoOuterBlanks(e)
    ensures Kept(e) == if e == "" then [] else [e]
  {
    TrimKeeps(e);
  }

  lemma PlainKey(x: string)
    ensures |PairOf(x).0| <= |x|
  {
    hide SplitOn;
    if SplitOn(x, '=') != [] { PieceShort(x, '=', 0); }
  }

  lemma WholeKey(k: string, e: string)
    requires '=' !in e && NoOuterBlanks(e)
    ensures var kv := TrimLeft(k) + "=" + e;
      Small(kv, e, |k|) || (PairOf(kv).0 == k && '=' !in k && NoOuterBlanks(k))
  {
    hide TrimLeft, PairOf;
    TrimLeftShort(k);
    PieceKey(TrimLeft(k), e);
  }

  /** Every piece of the query of one pair gives a small key, or the pair's own where that is free of
      separators and outer blanks. */
  lemma {:induction false} QueryKeys(k: string, e: string, j: nat)
    requires '=' !in e && '&' !in e && NoOuterBlanks(e) && j < |SplitOn(k + "=" + e, '&')|
    ensures var kv := SplitOn(k + "=" + e, '&')[j];
      Small(kv, e, |k|) || (PairOf(kv).0 == k && '&' !in k && '=' !in k && NoOuterBlanks(k))
    decreases |k|
  {
    hide SplitOn, NoOuterBlanks, PairOf, TrimLeft, Trim;
    var s := k + "=" + e;
    if '&' in k {
      var x, rest := FirstCut(k, '&');
      assert s == x + "&" + (rest + "=" + e);
      SplitCons(x, '&', rest + "=" + e);
      if j >= |Kept(x)| {
        QueryKeys(rest, e, j - |Kept(x)|);
      } else {
        PlainKey(Trim(x));
        TrimShort(x);
      }
    } else {
      SplitSingle(s, '&');
      KeptBefore(k, e);
      WholeKey(k, e);
    }
  }

  /** Whatever is collected comes from one of the pieces. */
  lemma {:induction false} CollectedFrom(kvs: seq<string>, cache: set<string>, f: string -> string, i: nat)
    returns (j: nat)
    requires i < |Collected(kvs, cache, f)|
    ensures j < |kvs| && PairOf(kvs[j]).0 != ""
    ensures Collected(kvs, cache, f)[i] == (f(PairOf(kvs[j]).0), f(PairOf(kvs[j]).1))
  {
    hide PairOf;
    if kvs[0] in cache {
      j := CollectedFrom(kvs[1..], cache, f, i);
      j := j + 1;
    } else if i < |Entry(kvs[0], f)| {
      j := 0;
    } else {
      j := CollectedFrom(kvs[1..], cache + {kvs[0]}, f, i - |Entry(kvs[0], f)|);
      j := j + 1;
    }
  }

  /** MAIN RESULT.  A pair printed as a query is read back exactly when its key is not empty, has no
      outer blanks, no `&`, no `=`, no `+` and no complete escape. */
  lemma QueryExact(k: string, v: string)
    requires IsBytes(v)
    ensures ParamsOf(Glue(PairTexts([(k, v)]), "&")) == [(k, v)] <==> KeyOk(k)
  {
    hide Raw, NoOuterBlanks, Collected, SplitOn, PairOf, Encoded, Decoded;
    if KeyOk(k) {
      QueryRoundTrip([(k, v)]);
      DedupOne((k, v));
    }
    if ParamsOf(Glue(PairTexts([(k, v)]), "&")) == [(k, v)] {
      KeyCarried(k, v);
    }
  }

  lemma DedupOne<T>(x: T)
    ensures Dedup([x], {}) == [x]
  {
    assert [x][1..] == [];
  }

  lemma KeyCarried(k: string, v: string)
    requires IsBytes(v) && ParamsOf(k + "=" + Encoded(v)) == [(k, v)]
    ensures KeyOk(k)
  {
    hide Raw, NoOuterBlanks, Collected, SplitOn, PairOf, Encoded, Decoded;
    var e := Encoded(v);
    CleanValue(v);
    var kvs := SplitOn(k + "=" + e, '&');
    var j := CollectedFrom(kvs, {}, DecodedPlus, 0);
    var key := PairOf(kvs[j]).0;
    QueryKeys(k, e, j);
    RawExact(key, true);
    RawExact(k, true);
    DecodeUndoesEncode(v, true);
    assert Decoded("", true) == "" by { RawExact("", true); }
    if PairOf(kvs[j]) == (e, "") {
      NothingEncoded(v);
    }
  }

  lemma NothingEncoded(v: string)
    requires IsBytes(v) && v == ""
    ensures Encoded(v) == ""
  {
  }

  lemma CleanValue(v: string)
    requires IsBytes(v)
    ensures var e := Encoded(v);
      '=' !in e && '&' !in e && NoOuterBlanks(e)
  {
    EncodedIsClean(v);
  }
}
