/** `PathParamsMatcher`: compiling a route pattern and matching request paths against it. */
module Routes {
  import opened Text

  const MARKER := ':'
  const SEPARATOR := '/'

  // ---------------------------------------------------------------- compiling

  /** Where the first parameter's name ends. */
  function NameEnd(p: string): (sep: nat)
    requires MARKER in p
    ensures IndexFrom(p, MARKER, 0) < sep <= |p|
  {
    IndexLeast(p, MARKER, 0);
    IndexFrom(p, SEPARATOR, IndexFrom(p, MARKER, 0) + 1)
  }

  /** The pattern behind the first parameter and its separator. */
  function Behind(p: string): (q: string)
    requires MARKER in p
    ensures |q| < |p|
  {
    if NameEnd(p) < |p| then p[NameEnd(p) + 1..] else ""
  }

  /** What stands before the first parameter. */
  function Head(p: string): string { p[..IndexFrom(p, MARKER, 0)] }

  function FirstName(p: string): string
    requires MARKER in p
  {
    var end := NameEnd(p);
    p[IndexFrom(p, MARKER, 0) + 1..end]
  }

  function Fragments(p: string): seq<string>
    decreases |p|
  {
    if MARKER in p then [Head(p)] + Fragments(Behind(p))
    else if p == "" then [] else [p]
  }

  function Names(p: string): seq<string>
    decreases |p|
  {
    if MARKER in p then [FirstName(p)] + Names(Behind(p)) else []
  }

  /** The path a pattern stands for: every `:name` replaced by a value. */
  function Instance(p: string, vs: seq<string>): string
    requires |vs| == |Names(p)|
    decreases |p|
  {
    if MARKER !in p then p
    else Head(p) + (vs[0] + if NameEnd(p) < |p| then "/" + Instance(Behind(p), vs[1..]) else "")
  }

  // ---------------------------------------------------------------- matching

  /** `strncmp(a, b, n) == 0` on strings of length n: a NUL in both ends the comparison. */
  predicate SameUpToNul(a: string, b: string)
    requires |a| == |b|
  {
    a == "" || (a[0] == b[0] && (a[0] == '\0' || SameUpToNul(a[1..], b[1..])))
  }

  /** The captures, in order, when the fragments and parameters fit the path from `start` on. */
  function Captures(fs: seq<string>, n: nat, path: string, start: nat): Option<seq<string>>
    decreases |fs|
  {
    if fs == [] then (if start >= |path| then Some([]) else None)
    else
      var at := start + |fs[0]|;
      if at > |path| || !SameUpToNul(path[start..at], fs[0]) then None
      else if n == 0 then Captures(fs[1..], 0, path, at)
      else
        var sep := IndexFrom(path, SEPARATOR, at);
        match Captures(fs[1..], n - 1, path, sep + 1)
        case None => None
        case Some(cs) => Some([path[at..sep]] + cs)
  }

  /** `emplace` keeps the first value of a repeated name. */
  function ParamMap(names: seq<string>, vs: seq<string>): map<string, string>
    requires |vs| <= |names|
  {
    if vs == [] then map[]
    else
      var last := |vs| - 1;
      var m := ParamMap(names, vs[..last]);
      if names[last] in m then m else m[names[last] := vs[last]]
  }

  // ---------------------------------------------------------------- the matcher

  class PathParamsMatcher {
    const pattern: string
    const fragments: seq<string>
    const names: seq<string>

    ghost predicate Valid() { fragments == Fragments(pattern) && names == Names(pattern) }

    constructor (pattern: string)
      ensures Valid() && this.pattern == pattern
    {
      var fs, ns := Compile(pattern);
      this.pattern, fragments, names := pattern, fs, ns;
    }

    /** `match`: whether the path fits, and the parameters it gives. */
    method Match(path: string) returns (ok: bool, params: map<string, string>)
      requires Valid()
      ensures ok <==> Captures(fragments, |names|, path, 0).Some?
      ensures ok ==> |Captures(fragments, |names|, path, 0).value| <= |names|
      ensures ok ==> params == ParamMap(names, Captures(fragments, |names|, path, 0).value)
    {
      hide Captures, SameUpToNul, ParamMap, Fragments, Names;
      ghost var whole := Captures(fragments, |names|, path, 0);
      ghost var vs: seq<string> := [];
      params := map[];
      ParamMapStep(names, vs);
      assert fragments[0..] == fragments;
      assert whole.Some? ==> vs + whole.value == whole.value;
      var start := 0;
      for i := 0 to |fragments|
        invariant 0 <= start <= |path| + 1 && |vs| == if i < |names| then i else |names|
        invariant whole == Prepend(vs, Captures(fragments[i..], |names| - |vs|, path, start))
        invariant params == ParamMap(names, vs)
      {
        var fragment := fragments[i];
        CapturesStep(fragments, i, |names| - |vs|, path, start);
        if start + |fragment| > |path| { return false, params; }
        if !SameUpToNul(path[start..start + |fragment|], fragment) { return false, params; }
        start := start + |fragment|;
        if i < |names| {
          var sep := IndexFrom(path, SEPARATOR, start);
          var value := path[start..sep];
          ParamMapStep(names, vs + [value]);
          assert (vs + [value])[..i] == vs;
          if names[i] !in params {
            params := params[names[i] := value];
          }
          PrependMore(vs, value, Captures(fragments[i + 1..], |names| - |vs| - 1, path, sep + 1));
          vs := vs + [value];
          start := sep + 1;
        }
      }
      CapturesEnd(fragments, |names| - |vs|, path, start);
      ok := start >= |path|;
      assert vs + [] == vs;
    }
  }

  function Prepend(vs: seq<string>, r: Option<seq<string>>): Option<seq<string>> {
    if r.None? then None else Some(vs + r.value)
  }

  lemma PrependMore(vs: seq<string>, v: string, r: Option<seq<string>>)
    ensures Prepend(vs, Prepend([v], r)) == Prepend(vs + [v], r)
  {
    if r.Some? { Assoc(vs, [v], r.value); }
  }

  lemma CapturesStep(fs: seq<string>, i: nat, n: nat, path: string, start: nat)
    requires i < |fs|
    ensures var at := start + |fs[i]|;
      Captures(fs[i..], n, path, start) ==
        if at > |path| || !SameUpToNul(path[start..at], fs[i]) then None
        else if n == 0 then Captures(fs[i + 1..], 0, path, at)
        else
          var sep := IndexFrom(path, SEPARATOR, at);
          Prepend([path[at..sep]], Captures(fs[i + 1..], n - 1, path, sep + 1))
  {
    hide SameUpToNul;
    assert fs[i..][1..] == fs[i + 1..];
  }

  lemma CapturesEnd(fs: seq<string>, n: nat, path: string, start: nat)
    ensures Captures(fs[|fs|..], n, path, start) == if start >= |path| then Some([]) else None
  {
  }

  lemma ParamMapStep(names: seq<string>, vs: seq<string>)
    requires |vs| <= |names|
    ensures vs == [] ==> ParamMap(names, vs) == map[]
    ensures vs != [] ==> var last := |vs| - 1;
      var m := ParamMap(names, vs[..last]);
      ParamMap(names, vs) == if names[last] in m then m else m[names[last] := vs[last]]
  {
  }

  /** `find` from a position that may lie one past the end. */
  function FindFromMarker(p: string, k: nat): nat { if k <= |p| then IndexFrom(p, MARKER, k) else |p| }

  function Rest(p: string, k: nat): string { if k <= |p| then p[k..] else "" }

  /** Compile a pattern.  The test for repeated names looks into a set that stays empty, so no
      pattern is refused. */
  method Compile(pattern: string) returns (fs: seq<string>, ns: seq<string>)
    ensures fs == Fragments(pattern) && ns == Names(pattern)
  {
    hide Fragments, Names;
    fs, ns := [], [];
    var lastEnd := 0;
    assert Rest(pattern, 0) == pattern;
    var marker := FindFromMarker(pattern, 0);
    while marker < |pattern|
      invariant 0 <= lastEnd <= |pattern| + 1 && marker == FindFromMarker(pattern, lastEnd)
      invariant Fragments(pattern) == fs + Fragments(Rest(pattern, lastEnd))
      invariant Names(pattern) == ns + Names(Rest(pattern, lastEnd))
      decreases |pattern| + 1 - lastEnd
    {
      CompileStep(pattern, lastEnd);
      var sep := IndexFrom(pattern, SEPARATOR, marker + 1);
      Assoc(fs, [pattern[lastEnd..marker]], Fragments(Rest(pattern, sep + 1)));
      Assoc(ns, [pattern[marker + 1..sep]], Names(Rest(pattern, sep + 1)));
      fs := fs + [pattern[lastEnd..marker]];
      ns := ns + [pattern[marker + 1..sep]];
      lastEnd := sep + 1;
      marker := FindFromMarker(pattern, lastEnd);
    }
    if lastEnd <= |pattern| { IndexLeast(pattern, MARKER, lastEnd); }
    assert MARKER !in Rest(pattern, lastEnd);
    NoMarker(Rest(pattern, lastEnd));
    if lastEnd < |pattern| {
      fs := fs + [pattern[lastEnd..]];
    }
  }

  lemma NoMarker(rest: string)
    requires MARKER !in rest
    ensures Names(rest) == [] && Fragments(rest) == if rest == "" then [] else [rest]
  {
  }

  /** Searching from `k` on is searching the rest. */
  lemma {:induction false} IndexShift(s: string, c: char, k: nat, from: nat)
    requires k + from <= |s|
    ensures IndexFrom(s[k..], c, from) + k == IndexFrom(s, c, k + from)
    decreases |s| - from
  {
    if k + from < |s| && s[k + from] != c {
      IndexShift(s, c, k, from + 1);
    }
  }

  lemma CompileUnfold(p: string)
    requires MARKER in p
    ensures Fragments(p) == [Head(p)] + Fragments(Behind(p))
    ensures Names(p) == [FirstName(p)] + Names(Behind(p))
  {
  }

  lemma CompilePlaces(p: string, k: nat)
    requires k <= |p| && IndexFrom(p, MARKER, k) < |p|
    ensures var m, rest := IndexFrom(p, MARKER, k), p[k..];
      var sep := IndexFrom(p, SEPARATOR, m + 1);
      && MARKER in rest && IndexFrom(rest, MARKER, 0) == m - k && NameEnd(rest) == sep - k
  {
    var m, rest := IndexFrom(p, MARKER, k), p[k..];
    IndexLeast(p, MARKER, k);
    assert rest[m - k] == MARKER;
    IndexShift(p, MARKER, k, 0);
    IndexShift(p, SEPARATOR, k, m - k + 1);
  }

  lemma CompileParts(p: string, k: nat)
    requires k <= |p| && IndexFrom(p, MARKER, k) < |p|
    ensures var m, rest := IndexFrom(p, MARKER, k), p[k..];
      var sep := IndexFrom(p, SEPARATOR, m + 1);
      && MARKER in rest && Head(rest) == p[k..m] && FirstName(rest) == p[m + 1..sep]
      && Behind(rest) == Rest(p, sep + 1)
  {
    hide IndexFrom, NameEnd, Rest, Behind, Head, FirstName;
    var m := IndexFrom(p, MARKER, k);
    CompilePlaces(p, k);
    PartsOf(p, k, p[k..], m, IndexFrom(p, SEPARATOR, m + 1));
  }

  lemma PartsOf(p: string, k: nat, rest: string, m: nat, sep: nat)
    requires k <= m < sep <= |p| && rest == p[k..] && MARKER in rest
    requires IndexFrom(rest, MARKER, 0) == m - k && NameEnd(rest) == sep - k
    ensures Head(rest) == p[k..m] && FirstName(rest) == p[m + 1..sep] && Behind(rest) == Rest(p, sep + 1)
  {
    hide IndexFrom, NameEnd;
  }

  lemma CompileStep(p: string, k: nat)
    requires k <= |p| && IndexFrom(p, MARKER, k) < |p|
    ensures var m := IndexFrom(p, MARKER, k);
      var sep := IndexFrom(p, SEPARATOR, m + 1);
      && Fragments(p[k..]) == [p[k..m]] + Fragments(Rest(p, sep + 1))
      && Names(p[k..]) == [p[m + 1..sep]] + Names(Rest(p, sep + 1))
  {
    hide *;
    CompileParts(p, k);
    CompileUnfold(p[k..]);
  }

  // ---------------------------------------------------------------- instances match

  lemma SameIsSame(a: string)
    ensures SameUpToNul(a, a)
  {
  }

  /** A NUL ends the fragment, if there is one. */
  predicate NulEnds(f: string) { forall i :: 0 <= i < |f| - 1 ==> f[i] != '\0' }

  /** No static fragment has a NUL before its last character. */
  ghost predicate Plain(p: string) { forall i :: 0 <= i < |Fragments(p)| ==> NulEnds(Fragments(p)[i]) }

  lemma {:induction false} SameMeansEqual(a: string, b: string)
    requires |a| == |b| && NulEnds(b) && SameUpToNul(a, b)
    ensures a == b
  {
    if a != "" {
      SameMeansEqual(a[1..], b[1..]);
      assert a == [a[0]] + a[1..] && b == [b[0]] + b[1..];
    }
  }

  lemma IndexAfter(pre: string, v: string, rest: string)
    requires SEPARATOR !in v && (rest == "" || rest[0] == SEPARATOR)
    ensures IndexFrom(pre + v + rest, SEPARATOR, |pre|) == |pre| + |v|
  {
    var s := pre + v + rest;
    assert forall i :: |pre| <= i < |pre| + |v| ==> s[i] == v[i - |pre|];
    assert rest != "" ==> s[|pre| + |v|] == rest[0];
    IndexIs(s, SEPARATOR, |pre|, |pre| + |v|);
  }

  lemma ParamPlaces(pre: string, f: string, v: string, rest: string)
    requires SEPARATOR !in v && (rest == "" || rest[0] == SEPARATOR)
    ensures var path, at := pre + (f + (v + rest)), |pre| + |f|;
      && path[|pre|..at] == f
      && IndexFrom(path, SEPARATOR, at) == at + |v|
      && path[at..at + |v|] == v
  {
    hide IndexFrom;
    var path := pre + (f + (v + rest));
    assert path == (pre + f) + v + rest;
    IndexAfter(pre + f, v, rest);
  }

  /** One fragment and one parameter match, whatever came before. */
  lemma CapturesParam(fs: seq<string>, n: nat, pre: string, f: string, v: string, rest: string)
    requires n > 0 && fs != [] && |f| == |fs[0]| && SameUpToNul(f, fs[0])
    requires SEPARATOR !in v && (rest == "" || rest[0] == SEPARATOR)
    ensures var path := pre + (f + (v + rest));
      var next := Captures(fs[1..], n - 1, path, |pre| + |f| + |v| + 1);
      Captures(fs, n, path, |pre|) == if next.None? then None else Some([v] + next.value)
  {
    hide SameUpToNul, IndexFrom;
    ParamPlaces(pre, f, v, rest);
  }

  lemma CapturesLast(pre: string, f: string)
    ensures Captures(if f == "" then [] else [f], 0, pre + f, |pre|) == Some([])
  {
    hide SameUpToNul;
    if f != "" {
      var path := pre + f;
      assert path[|pre|..|pre| + |f|] == f;
      SameIsSame(f);
      assert [f][1..] == [];
      assert Captures([], 0, path, |path|) == Some([]);
    }
  }

  // ---------------------------------------------------------------- what matches

  /** The pattern ends in a parameter, with or without a separator behind it. */
  predicate EndsInParam(p: string)
    decreases |p|
  {
    MARKER in p && (Behind(p) == "" || EndsInParam(Behind(p)))
  }

  /** The instance without that last separator. */
  function Stem(p: string, vs: seq<string>): string
    requires |vs| == |Names(p)|
    decreases |p|
  {
    if MARKER !in p then p
    else Head(p) + (vs[0] + if Behind(p) == "" then "" else "/" + Stem(Behind(p), vs[1..]))
  }

  /** `s` is the pattern with the values put in; a separator may follow a parameter at its end. */
  predicate Accepted(p: string, vs: seq<string>, s: string)
    requires |vs| == |Names(p)|
  {
    s == Stem(p, vs) || (EndsInParam(p) && s == Stem(p, vs) + "/")
  }

  ghost predicate ValuesOk(p: string, vs: seq<string>) {
    |vs| == |Names(p)| && forall i :: 0 <= i < |vs| ==> SEPARATOR !in vs[i]
  }

  lemma AcceptedPlain(p: string, s: string)
    requires MARKER !in p
    ensures Names(p) == [] && (Accepted(p, [], s) <==> s == p)
  {
    NoMarker(p);
  }

  /** The last parameter. */
  lemma AcceptedEnd(p: string, v: string, s: string)
    requires MARKER in p && Behind(p) == ""
    ensures |Names(p)| == 1 && (Accepted(p, [v], s) <==> s == Head(p) + v || s == Head(p) + v + "/")
  {
    hide NameEnd, IndexFrom, Head;
    CompileUnfold(p);
    NoMarker("");
    assert v + "" == v;
  }

  /** A parameter with more of the pattern behind it. */
  lemma AcceptedMore(p: string, v: string, vs: seq<string>, s: string)
    requires MARKER in p && Behind(p) != "" && |vs| == |Names(Behind(p))|
    ensures |Names(p)| == |vs| + 1
    ensures Accepted(p, [v] + vs, Head(p) + (v + ("/" + s))) <==> Accepted(Behind(p), vs, s)
    ensures Accepted(p, [v] + vs, s) ==> |Head(p) + v| < |s| && s == Head(p) + (v + ("/" + s[|Head(p) + v| + 1..]))
  {
    hide NameEnd, IndexFrom, Head, Behind, Stem, Names, EndsInParam;
    StemUnfold(p, v, vs);
    StemMore(Head(p), v, Stem(Behind(p), vs), s);
  }

  lemma StemUnfold(p: string, v: string, vs: seq<string>)
    requires MARKER in p && Behind(p) != "" && |vs| == |Names(Behind(p))|
    ensures |Names(p)| == |vs| + 1 && (EndsInParam(p) <==> EndsInParam(Behind(p)))
    ensures Stem(p, [v] + vs) == Head(p) + (v + ("/" + Stem(Behind(p), vs)))
  {
    hide NameEnd, IndexFrom, Head, Behind;
    CompileUnfold(p);
    assert ([v] + vs)[1..] == vs;
  }

  lemma StemMore(f: string, v: string, stem: string, s: string)
    ensures f + (v + ("/" + s)) == f + (v + ("/" + stem)) <==> s == stem
    ensures f + (v + ("/" + s)) == f + (v + ("/" + stem)) + "/" <==> s == stem + "/"
    ensures s == f + (v + ("/" + stem)) ==> s == f + (v + ("/" + s[|f + v| + 1..]))
    ensures s == f + (v + ("/" + stem)) + "/" ==> s == f + (v + ("/" + s[|f + v| + 1..]))
  {
    TailOf(f, v, s);
    TailOf(f, v, stem);
    TailOf(f, v, stem + "/");
    Assoc("/", stem, "/");
    Assoc(v, "/" + stem, "/");
    Assoc(f, v + ("/" + stem), "/");
  }

  lemma TailOf(f: string, v: string, s: string)
    ensures var t := f + (v + ("/" + s));
      |f + v| < |t| && t[|f + v| + 1..] == s
  {
  }

  /** An accepted text is matched from where it starts. */
  lemma {:induction false} AcceptedCaptured(p: string, vs: seq<string>, pre: string, s: string)
    requires ValuesOk(p, vs) && Accepted(p, vs, s)
    ensures Captures(Fragments(p), |Names(p)|, pre + s, |pre|) == Some(vs)
    decreases |p|
  {
    hide Captures, NameEnd, IndexFrom, Fragments, Names, Accepted, Head, Behind;
    if MARKER !in p {
      AcceptedPlain(p, s);
      NoMarker(p);
      CapturesLast(pre, p);
    } else {
      CompileUnfold(p);
      var f, v, q := Head(p), vs[0], Behind(p);
      assert Fragments(p)[1..] == Fragments(q);
      assert vs == [v] + vs[1..];
      var rest := AcceptedRest(p, vs, s);
      SameIsSame(f);
      CapturesParam(Fragments(p), |Names(p)|, pre, f, v, rest);
      if q == "" {
        NoMarker(q);
        CapturesNone(pre + s, |pre| + |f| + |v| + 1);
      } else {
        var pre' := pre + (f + (v + "/"));
        assert pre + s == pre' + rest[1..] by { Slashed(pre, f, v, rest); }
        AcceptedCaptured(q, vs[1..], pre', rest[1..]);
      }
    }
  }

  lemma Slashed(pre: string, f: string, v: string, rest: string)
    requires rest != "" && rest[0] == SEPARATOR
    ensures pre + (f + (v + rest)) == pre + (f + (v + "/")) + rest[1..]
  {
    assert rest == "/" + rest[1..];
  }

  /** What follows the first value in an accepted text. */
  lemma AcceptedRest(p: string, vs: seq<string>, s: string) returns (rest: string)
    requires MARKER in p && |vs| == |Names(p)| > 0 && Accepted(p, vs, s)
    ensures s == Head(p) + (vs[0] + rest) && (rest != "" ==> rest[0] == SEPARATOR)
    ensures Behind(p) == "" ==> |rest| <= 1
    ensures Behind(p) != "" ==>
      rest != "" && |vs[1..]| == |Names(Behind(p))| && Accepted(Behind(p), vs[1..], rest[1..])
  {
    hide NameEnd, IndexFrom, Accepted, Head, Behind;
    var f, v := Head(p), vs[0];
    CompileUnfold(p);
    assert vs == [v] + vs[1..];
    if Behind(p) == "" {
      NoMarker("");
      assert vs == [v];
      AcceptedEnd(p, v, s);
      rest := if s == f + v then "" else "/";
      assert v + "" == v;
      Assoc(f, v, "/");
    } else {
      AcceptedMore(p, v, vs[1..], s);
      var s' := s[|f + v| + 1..];
      AcceptedMore(p, v, vs[1..], s');
      rest := "/" + s';
      assert rest[1..] == s';
    }
  }

  lemma CapturesNone(path: string, start: nat)
    requires start >= |path|
    ensures Captures([], 0, path, start) == Some([])
  {
  }

  /** And what is matched is accepted. */
  lemma {:induction false} CapturedAccepted(p: string, path: string, start: nat)
    requires Plain(p) && start <= |path| && Captures(Fragments(p), |Names(p)|, path, start).Some?
    ensures var vs := Captures(Fragments(p), |Names(p)|, path, start).value;
      ValuesOk(p, vs) && Accepted(p, vs, path[start..])
    decreases |p|
  {
    hide NameEnd, IndexFrom, Fragments, Names, Captures, Accepted, Head, Behind;
    if MARKER !in p {
      NoMarker(p);
      assert p != "" ==> NulEnds(Fragments(p)[0]);
      CapturedFragment(p, path, start);
      AcceptedPlain(p, path[start..]);
    } else {
      CompileUnfold(p);
      PlainParts(p);
      var f, q := Head(p), Behind(p);
      assert Fragments(p)[1..] == Fragments(q);
      var at, sep, vs := CapturedHead(Fragments(p), |Names(p)|, path, start);
      var v := path[at..sep];
      if q == "" {
        NoMarker(q);
        CapturedEnd(path, sep + 1);
        EndSplit(path, start, at, sep);
        AcceptedEnd(p, v, path[start..]);
        assert [v] + vs == [v];
      } else {
        NotBeyond(q, path, sep + 1);
        CapturedAccepted(q, path, sep + 1);
        MoreSplit(path, start, at, sep);
        AcceptedMore(p, v, vs, path[sep + 1..]);
      }
    }
  }

  lemma PlainParts(p: string)
    requires MARKER in p
    ensures Plain(p) <==> NulEnds(Head(p)) && Plain(Behind(p))
  {
    hide IndexFrom, Fragments, Names, Head, Behind, NulEnds;
    CompileUnfold(p);
    var fs := Fragments(Behind(p));
    assert Fragments(p)[0] == Head(p);
    assert forall i :: 0 <= i < |fs| ==> Fragments(p)[i + 1] == fs[i];
  }

  lemma CapturedEnd(path: string, start: nat)
    requires Captures([], 0, path, start).Some?
    ensures start >= |path| && Captures([], 0, path, start) == Some([])
  {
  }

  lemma EndSplit(path: string, start: nat, at: nat, sep: nat)
    requires start <= at <= sep <= |path| <= sep + 1 && (sep < |path| ==> path[sep] == SEPARATOR)
    ensures var s := path[start..at] + path[at..sep];
      path[start..] == s || path[start..] == s + "/"
  {
    assert path[start..sep] == path[start..at] + path[at..sep];
    if sep < |path| { assert path[start..] == path[start..sep] + "/"; }
  }

  lemma MoreSplit(path: string, start: nat, at: nat, sep: nat)
    requires start <= at <= sep < |path| && path[sep] == SEPARATOR
    ensures path[start..] == path[start..at] + (path[at..sep] + ("/" + path[sep + 1..]))
  {
    assert path[sep..] == "/" + path[sep + 1..];
    assert path[at..] == path[at..sep] + path[sep..];
  }

  /** A further fragment does not match beyond the end of the path. */
  lemma NotBeyond(q: string, path: string, start: nat)
    requires q != "" && Captures(Fragments(q), |Names(q)|, path, start).Some?
    ensures start <= |path|
  {
    hide SameUpToNul, IndexFrom, Head, Names, NameEnd, Behind;
    assert Fragments(q) != [];
  }

  lemma CapturedHead(fs: seq<string>, n: nat, path: string, start: nat) returns (at: nat, sep: nat, cs: seq<string>)
    requires fs != [] && n > 0 && NulEnds(fs[0]) && Captures(fs, n, path, start).Some?
    ensures start <= at <= sep <= |path| && path[start..at] == fs[0]
    ensures SEPARATOR !in path[at..sep] && (sep < |path| ==> path[sep] == SEPARATOR)
    ensures Captures(fs[1..], n - 1, path, sep + 1) == Some(cs)
    ensures Captures(fs, n, path, start) == Some([path[at..sep]] + cs)
  {
    hide SameUpToNul;
    at := start + |fs[0]|;
    SameMeansEqual(path[start..at], fs[0]);
    sep := IndexFrom(path, SEPARATOR, at);
    IndexLeast(path, SEPARATOR, at);
    cs := Captures(fs[1..], n - 1, path, sep + 1).value;
  }

  lemma CapturedFragment(p: string, path: string, start: nat)
    requires NulEnds(p) && start <= |path| && Captures(if p == "" then [] else [p], 0, path, start).Some?
    ensures path[start..] == p && Captures(if p == "" then [] else [p], 0, path, start) == Some([])
  {
    hide SameUpToNul, IndexFrom;
    if p != "" {
      LastFragment(p, path, start);
      SameMeansEqual(path[start..start + |p|], p);
    }
  }

  lemma LastFragment(f: string, path: string, start: nat)
    requires f != "" && Captures([f], 0, path, start).Some?
    ensures start + |f| == |path| && SameUpToNul(path[start..start + |f|], f)
    ensures Captures([f], 0, path, start) == Some([])
  {
    hide SameUpToNul, IndexFrom;
    assert [f][1..] == [];
  }

  lemma MatchExact(p: string, path: string, vs: seq<string>)
    requires Plain(p)
    ensures Captures(Fragments(p), |Names(p)|, path, 0) == Some(vs) <==> ValuesOk(p, vs) && Accepted(p, vs, path)
  {
    hide Captures, Fragments, Names, Accepted, Plain;
    if ValuesOk(p, vs) && Accepted(p, vs, path) {
      AcceptedCaptured(p, vs, "", path);
      assert "" + path == path;
    }
    if Captures(Fragments(p), |Names(p)|, path, 0) == Some(vs) {
      CapturedAccepted(p, path, 0);
      assert path[0..] == path;
    }
  }

  /** Another text that a fragment with an early NUL is taken to equal. */
  lemma {:induction false} NulHides(f: string) returns (g: string)
    requires !NulEnds(f)
    ensures |g| == |f| && g != f && SameUpToNul(g, f)
  {
    if f[0] == '\0' {
      g := f[1 := if f[1] == 'x' then 'y' else 'x'];
      assert g[1] != f[1];
    } else {
      var i :| 0 <= i < |f| - 1 && f[i] == '\0';
      assert f[1..][i - 1] == '\0';
      var h := NulHides(f[1..]);
      g := [f[0]] + h;
      assert g[1..] == h;
    }
  }

  /** A path that matches although it is not the pattern with the captures put in. */
  lemma {:induction false} NulFools(p: string, pre: string) returns (vs: seq<string>, s: string)
    requires !Plain(p)
    ensures ValuesOk(p, vs) && |s| == |Stem(p, vs)| && s != Stem(p, vs)
    ensures Captures(Fragments(p), |Names(p)|, pre + s, |pre|) == Some(vs)
    decreases |p|
  {
    hide Captures, NameEnd, IndexFrom, Fragments, Names, Accepted, Head, Behind, Stem, NulEnds;
    if MARKER !in p {
      NoMarker(p);
      StemPlain(p);
      vs := [];
      s := NulHides(p);
      CapturesSame(pre, s, p);
    } else {
      CompileUnfold(p);
      PlainParts(p);
      var f, q := Head(p), Behind(p);
      assert Fragments(p)[1..] == Fragments(q);
      var g := f;
      SameIsSame(f);
      var pre' := pre + (f + "/");
      var ws, inner := FoolRest(q);
      if NulEnds(f) {
        ws, inner := NulFools(q, pre');
      } else {
        g := NulHides(f);
        pre' := pre + (g + "/");
        AcceptedCaptured(q, ws, pre', inner);
      }
      vs := [""] + ws;
      assert vs[1..] == ws;
      var rest := if q == "" then "" else "/" + inner;
      s := g + ("" + rest);
      StemParts(p, ws);
      CapturesParam(Fragments(p), |Names(p)|, pre, g, "", rest);
      if q == "" {
        NoMarker(q);
        CapturesNone(pre + s, |pre| + |f| + 1);
        assert s == g && f + "" == f;
      } else {
        assert pre + s == pre' + inner;
        assert s[..|f|] == g && (f + ("" + ("/" + Stem(q, ws))))[..|f|] == f;
        assert g + "" == g && f + "" == f;
        TailOf(g, "", inner);
        TailOf(f, "", Stem(q, ws));
      }
    }
  }

  lemma FoolRest(q: string) returns (ws: seq<string>, inner: string)
    ensures ValuesOk(q, ws) && inner == Stem(q, ws) && Accepted(q, ws, inner)
  {
    ws := seq(|Names(q)|, _ => "");
    inner := Stem(q, ws);
  }

  lemma StemPlain(p: string)
    requires MARKER !in p
    ensures Names(p) == [] && Stem(p, []) == p
  {
  }

  lemma StemParts(p: string, ws: seq<string>)
    requires MARKER in p && |ws| == |Names(Behind(p))|
    ensures |Names(p)| == |ws| + 1
    ensures Stem(p, [""] + ws) == Head(p) + ("" + if Behind(p) == "" then "" else "/" + Stem(Behind(p), ws))
  {
    hide NameEnd, IndexFrom, Head, Behind;
    CompileUnfold(p);
    assert ([""] + ws)[1..] == ws;
  }

  lemma CapturesSame(pre: string, s: string, f: string)
    requires |s| == |f| > 0 && SameUpToNul(s, f)
    ensures Captures([f], 0, pre + s, |pre|) == Some([])
  {
    hide SameUpToNul, IndexFrom, Captures;
    var path := pre + s;
    assert path[|pre|..|pre| + |f|] == s;
    CapturesStep([f], 0, 0, path, |pre|);
    assert [f][0..] == [f] && [f][0 + 1..] == [f][1..];
    CapturesEnd([f], 0, path, |path|);
  }

  /** MAIN RESULT.  Paths match a pattern, with captures `vs`, exactly when they are the pattern with the
      `vs` put in for its parameters, none of them holding a separator; only a separator behind a
      parameter that ends the pattern may be there or not.  That is so of a pattern if and only if
      no static fragment has a NUL before its last character: `strncmp` stops at one. */
  lemma RouteExact(p: string)
    ensures
      (forall path, vs ::
        Captures(Fragments(p), |Names(p)|, path, 0) == Some(vs) <==> ValuesOk(p, vs) && Accepted(p, vs, path))
      <==> Plain(p)
  {
    hide Captures, Fragments, Names, Stem, Plain;
    if Plain(p) {
      forall path, vs
        ensures Captures(Fragments(p), |Names(p)|, path, 0) == Some(vs) <==> ValuesOk(p, vs) && Accepted(p, vs, path)
      {
        MatchExact(p, path, vs);
      }
    } else {
      var vs, s := NulFools(p, "");
      assert "" + s == s;
      assert !Accepted(p, vs, s);
    }
  }

  /** In particular every instance of the pattern matches, with exactly the values put in. */
  lemma InstanceMatches(p: string, vs: seq<string>)
    requires ValuesOk(p, vs)
    ensures Captures(Fragments(p), |Names(p)|, Instance(p, vs), 0) == Some(vs)
  {
    hide Captures, Fragments, Names, Accepted, Instance;
    InstanceAccepted(p, vs);
    AcceptedCaptured(p, vs, "", Instance(p, vs));
    assert "" + Instance(p, vs) == Instance(p, vs);
  }

  lemma {:induction false} InstanceAccepted(p: string, vs: seq<string>)
    requires |vs| == |Names(p)|
    ensures Accepted(p, vs, Instance(p, vs))
    decreases |p|
  {
    hide NameEnd, IndexFrom, Fragments, Names, Accepted, Head;
    if MARKER !in p {
      AcceptedPlain(p, p);
      assert vs == [];
    } else {
      CompileUnfold(p);
      var f, v, q := Head(p), vs[0], Behind(p);
      assert vs == [v] + vs[1..];
      if q == "" {
        NoMarker(q);
        assert Instance(q, vs[1..]) == "";
        assert vs == [v];
        InstanceEnds(f, v);
        AcceptedEnd(p, v, Instance(p, vs));
      } else {
        InstanceAccepted(q, vs[1..]);
        AcceptedMore(p, v, vs[1..], Instance(q, vs[1..]));
      }
    }
  }

  lemma InstanceEnds(f: string, v: string)
    ensures f + (v + "") == f + v && f + (v + ("/" + "")) == f + v + "/"
  {
    assert v + "" == v && "/" + "" == "/";
    Assoc(f, v, "/");
  }

  // ---------------------------------------------------------------- repeated names

  lemma {:induction false} ParamHas(names: seq<string>, vs: seq<string>, i: nat) returns (f: nat)
    requires i < |vs| <= |names|
    ensures f <= i && names[f] == names[i] && names[i] in ParamMap(names, vs) && ParamMap(names, vs)[names[i]] == vs[f]
    decreases |vs|
  {
    hide ParamMap;
    ParamMapStep(names, vs);
    var last := |vs| - 1;
    if i < last {
      f := ParamHas(names, vs[..last], i);
    } else {
      f := i;
      if names[last] in ParamMap(names, vs[..last]) {
        f := ParamFrom(names, vs[..last], names[last]);
      }
    }
  }

  lemma {:induction false} ParamFrom(names: seq<string>, vs: seq<string>, name: string) returns (f: nat)
    requires |vs| <= |names| && name in ParamMap(names, vs)
    ensures f < |vs| && names[f] == name && ParamMap(names, vs)[name] == vs[f]
    decreases |vs|
  {
    hide ParamMap;
    ParamMapStep(names, vs);
    var last := |vs| - 1;
    if name in ParamMap(names, vs[..last]) {
      f := ParamFrom(names, vs[..last], name);
    } else {
      f := last;
    }
  }

  /** Every name gives its own value exactly when places with the same name got the same value --
      always, therefore, when the names are distinct. */
  lemma ParamsExact(names: seq<string>, vs: seq<string>)
    requires |vs| <= |names|
    ensures
      (forall i :: 0 <= i < |vs| ==> names[i] in ParamMap(names, vs) && ParamMap(names, vs)[names[i]] == vs[i])
      <==> (forall i, j :: 0 <= i < j < |vs| && names[i] == names[j] ==> vs[i] == vs[j])
  {
    hide ParamMap;
    if forall i, j :: 0 <= i < j < |vs| && names[i] == names[j] ==> vs[i] == vs[j] {
      forall i | 0 <= i < |vs|
        ensures names[i] in ParamMap(names, vs) && ParamMap(names, vs)[names[i]] == vs[i]
      {
        var f := ParamHas(names, vs, i);
      }
    }
  }

  /** With a fragment for every parameter, every parameter is captured. */
  lemma {:induction false} CapturesCount(fs: seq<string>, n: nat, path: string, start: nat)
    requires n <= |fs| && Captures(fs, n, path, start).Some?
    ensures |Captures(fs, n, path, start).value| == n
    decreases |fs|
  {
    hide SameUpToNul, IndexFrom;
    if fs != [] {
      var at := start + |fs[0]|;
      if n == 0 {
        CapturesCount(fs[1..], 0, path, at);
      } else {
        CapturesCount(fs[1..], n - 1, path, IndexFrom(path, SEPARATOR, at) + 1);
      }
    }
  }

  lemma {:induction false} NamesFit(p: string)
    ensures |Names(p)| <= |Fragments(p)|
    decreases |p|
  {
    hide NameEnd, IndexFrom, Fragments, Names;
    if MARKER in p {
      CompileUnfold(p);
      NamesFit(Behind(p));
    } else {
      NoMarker(p);
    }
  }

  /** Every name of the pattern gives the value captured in its place. */
  ghost predicate EachItsOwn(p: string, vs: seq<string>) {
    && |vs| == |Names(p)|
    && forall i :: 0 <= i < |vs| ==> Names(p)[i] in ParamMap(Names(p), vs) && ParamMap(Names(p), vs)[Names(p)[i]] == vs[i]
  }

  ghost predicate Distinct(names: seq<string>) {
    forall i, j :: 0 <= i < j < |names| ==> names[i] != names[j]
  }

  /** MAIN RESULT.  A pattern gives every name its own value, on every path it matches, if and only if
      its names are pairwise distinct. */
  lemma NamesExact(p: string)
    ensures (forall path, vs :: Captures(Fragments(p), |Names(p)|, path, 0) == Some(vs) ==> EachItsOwn(p, vs))
       <==> Distinct(Names(p))
  {
    hide Captures, Fragments, Names, ParamMap, Instance;
    var names := Names(p);
    if Distinct(names) {
      forall path, vs | Captures(Fragments(p), |names|, path, 0) == Some(vs) ensures EachItsOwn(p, vs) {
        NamesFit(p);
        CapturesCount(Fragments(p), |names|, path, 0);
        ParamsExact(names, vs);
      }
    } else {
      var i, j :| 0 <= i < j < |names| && names[i] == names[j];
      var vs := seq(|names|, k => if k == i then "x" else "y");
      InstanceMatches(p, vs);
      ParamsExact(names, vs);
      assert vs[i] != vs[j];
      assert !EachItsOwn(p, vs);
    }
  }

  lemma RepeatedNameInstance()
    ensures Names("/:a/:a") == ["a", "a"] && Instance("/:a/:a", ["x", "y"]) == "/x/y"
  {
    var p := "/:a/:a";
    assert IndexFrom(p, MARKER, 0) == 1 by { IndexIs(p, MARKER, 0, 1); }
    assert NameEnd(p) == 3 by { IndexIs(p, SEPARATOR, 2, 3); }
    var q := Behind(p);
    assert q == ":a" && Head(p) == "/" && FirstName(p) == "a";
    assert IndexFrom(q, MARKER, 0) == 0 by { IndexIs(q, MARKER, 0, 0); }
    assert NameEnd(q) == 2 by { IndexIs(q, SEPARATOR, 1, 2); }
    assert Head(q) == "" && FirstName(q) == "a" && Behind(q) == "";
    NoMarker("");
    hide IndexFrom, NameEnd, Captures;
    CompileUnfold(p);
    CompileUnfold(q);
    var vs := ["x", "y"];
    assert vs[1..] == ["y"] && vs[1..][0] == "y";
    assert NameEnd(p) < |p| && NameEnd(q) == |q|;
    assert Instance(q, vs[1..]) == "" + ("y" + "");
    assert Instance(p, vs) == "/" + ("x" + ("/" + "y"));
    assert Instance(p, vs) == "/x/y";
  }

  /** `/:a/:a` is accepted, and the second value is lost. */
  lemma RepeatedNameLoses()
    ensures Names("/:a/:a") == ["a", "a"]
    ensures Captures(Fragments("/:a/:a"), 2, "/x/y", 0) == Some(["x", "y"])
    ensures ParamMap(["a", "a"], ["x", "y"]) == map["a" := "x"]
  {
    hide Captures, Fragments, Names, Instance, ParamMap;
    var p, vs := "/:a/:a", ["x", "y"];
    RepeatedNameInstance();
    InstanceMatches(p, vs);
    assert vs[..1] == ["x"] && vs[..1][..0] == [];
    ParamMapStep(["a", "a"], vs);
    ParamMapStep(["a", "a"], vs[..1]);
    ParamMapStep(["a", "a"], []);
  }
}
