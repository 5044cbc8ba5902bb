/** Byte strings and the small text helpers the HTTP engine shares: substring search,
    blank trimming and splitting.  A C++ byte string is a Dafny `string`. */
module Text {

  datatype Option<+T> = None | Some(value: T)

  const CRLF := "\r\n"

  /** `CPPHTTPLIB_HEADER_MAX_LENGTH` */
  const MAX_HEADER := 8192

  lemma Assoc<T>(a: seq<T>, b: seq<T>, c: seq<T>)
    ensures a + (b + c) == a + b + c
  {
  }

  /** Cutting a received prefix `w` of `l + t` after `l`. */
  lemma Cut<T>(w: seq<T>, r: seq<T>, l: seq<T>, t: seq<T>)
    requires w + r == l + t && |l| <= |w|
    ensures w[..|l|] == l && w[|l|..] + r == t
  {
    assert w[..|l|] == (w + r)[..|l|] == l;
    assert w[|l|..] + r == (w + r)[|l|..] == t;
  }

  /** The pieces put together, whatever they are made of. */
  function Flatten<T>(pieces: seq<seq<T>>): seq<T> {
    if pieces == [] then [] else pieces[0] + Flatten(pieces[1..])
  }

  lemma {:induction false} FlattenSnoc<T>(pieces: seq<seq<T>>, last: seq<T>)
    ensures Flatten(pieces + [last]) == Flatten(pieces) + last
  {
    if pieces == [] {
      assert [last][1..] == [];
    } else {
      assert (pieces + [last])[1..] == pieces[1..] + [last];
      FlattenSnoc(pieces[1..], last);
      Assoc(pieces[0], Flatten(pieces[1..]), last);
    }
  }

  // ---------------------------------------------------------------- characters

  /** The value of a hexadecimal digit, or -1. */
  function DigitValue(c: char): int {
    if '0' <= c <= '9' then c as int - '0' as int
    else if 'a' <= c <= 'f' then c as int - 'a' as int + 10
    else if 'A' <= c <= 'F' then c as int - 'A' as int + 10
    else -1
  }

  function Lower(c: char): char {
    if 'A' <= c <= 'Z' then (c as int + 32) as char else c
  }

  // ---------------------------------------------------------------- searching

  /** `p` occurs in `s` at position `i`. */
  predicate HasAt(s: string, p: string, i: int) {
    0 <= i && i + |p| <= |s| && s[i..i + |p|] == p
  }

  ghost predicate Occurs(s: string, p: string) {
    exists i :: HasAt(s, p, i)
  }

  /** The first position at or after `from` where `p` occurs, or `|s|` when there is none. */
  function FindFrom(s: string, p: string, from: nat): (pos: nat)
    requires from <= |s|
    decreases |s| - from
  {
    if from + |p| > |s| then |s|
    else if HasAt(s, p, from) then from
    else FindFrom(s, p, from + 1)
  }

  function Find(s: string, p: string): nat { FindFrom(s, p, 0) }

  /** `FindFrom` is the least match position, and `|s|` exactly when nothing matches. */
  lemma {:induction false} FindFromLeast(s: string, p: string, from: nat)
    requires from <= |s| && p != ""
    ensures from <= FindFrom(s, p, from) <= |s|
    ensures FindFrom(s, p, from) < |s| ==> HasAt(s, p, FindFrom(s, p, from))
    ensures forall i :: from <= i < FindFrom(s, p, from) ==> !HasAt(s, p, i)
    decreases |s| - from
  {
    if from + |p| <= |s| && !HasAt(s, p, from) {
      FindFromLeast(s, p, from + 1);
    }
  }

  /** Any least match position is the one `Find` returns. */
  lemma FindIs(s: string, p: string, pos: nat)
    requires p != "" && HasAt(s, p, pos)
    requires forall i :: 0 <= i < pos ==> !HasAt(s, p, i)
    ensures Find(s, p) == pos
  {
    FindFromLeast(s, p, 0);
  }

  lemma FindNone(s: string, p: string)
    requires p != "" && forall i :: 0 <= i < |s| ==> !HasAt(s, p, i)
    ensures Find(s, p) == |s|
  {
    FindFromLeast(s, p, 0);
  }

  /** Searching a prefix `w` of `l + p + t` for a delimiter `p` whose first character is not
      repeated in it: when `l` is free of `p`, the delimiter is found right after `l`, and
      only once all of it has arrived. */
  lemma FindDelimiter(w: string, r: string, l: string, p: string, t: string)
    requires w + r == l + p + t
    requires p != "" && p[0] !in p[1..] && !Occurs(l, p)
    ensures Find(w, p) == if |l| + |p| <= |w| then |l| else |w|
  {
    var s := l + p + t;
    assert w == s[..|w|];
    forall i | 0 <= i < |l| && i + |p| <= |w| ensures !HasAt(w, p, i) {
      var j := |l| - i;
      if |p| <= j {
        assert w[i..i + |p|] == l[i..i + |p|];
        assert !HasAt(l, p, i);
      } else {
        assert w[i..i + |p|][j] == s[|l|] == p[0];
        assert p[j] == p[1..][j - 1] != p[0];
      }
    }
    if |l| + |p| <= |w| {
      assert w[|l|..|l| + |p|] == s[|l|..|l| + |p|] == p;
      FindIs(w, p, |l|);
    } else {
      FindNone(w, p);
    }
  }

  /** The first position at or after `from` holding `c`, or `|s|`. */
  function IndexFrom(s: string, c: char, from: nat): (pos: nat)
    requires from <= |s|
    ensures from <= pos <= |s|
    decreases |s| - from
  {
    if from == |s| || s[from] == c then from else IndexFrom(s, c, from + 1)
  }

  lemma {:induction false} IndexLeast(s: string, c: char, from: nat)
    requires from <= |s|
    ensures var pos := IndexFrom(s, c, from);
      && (pos < |s| ==> s[pos] == c)
      && forall i :: from <= i < pos ==> s[i] != c
    decreases |s| - from
  {
    if from < |s| && s[from] != c {
      IndexLeast(s, c, from + 1);
    }
  }

  lemma IndexIs(s: string, c: char, from: nat, pos: nat)
    requires from <= pos <= |s| && (pos < |s| ==> s[pos] == c)
    requires forall i :: from <= i < pos ==> s[i] != c
    ensures IndexFrom(s, c, from) == pos
  {
    IndexLeast(s, c, from);
  }

  // ---------------------------------------------------------------- trimming

  /** `isspace`, and `\s` in a regular expression. */
  predicate IsSpace(c: char) { c in " \t\n\r" || c == '\U{b}' || c == '\U{c}' }

  function SkipSpace(s: string): string {
    if s != "" && IsSpace(s[0]) then SkipSpace(s[1..]) else s
  }

  /** White space and nothing else. */
  ghost predicate Spaces(w: string) {
    forall i :: 0 <= i < |w| ==> w[i] == ' ' || w[i] == '\t' || w[i] == '\r' || w[i] == '\n' || w[i] == '\U{b}' || w[i] == '\U{c}'
  }

  lemma {:induction false} SkipSpaces(w: string, t: string)
    requires Spaces(w) && (t == "" || !Spaces(t[..1]))
    ensures SkipSpace(w + t) == t
  {
    if w == "" {
      assert w + t == t;
      assert t != "" ==> t[..1][0] == t[0];
    } else {
      assert (w + t)[1..] == w[1..] + t;
      SkipSpaces(w[1..], t);
    }
  }

  predicate IsBlank(c: char) { c == ' ' || c == '\t' }

  function TrimLeft(s: string): string {
    if s != "" && IsBlank(s[0]) then TrimLeft(s[1..]) else s
  }

  function TrimRight(s: string): string {
    if s != "" && IsBlank(s[|s| - 1]) then TrimRight(s[..|s| - 1]) else s
  }

  function Trim(s: string): string { TrimRight(TrimLeft(s)) }

  lemma {:induction false} TrimLeftShort(s: string)
    ensures if s == "" || !IsBlank(s[0]) then TrimLeft(s) == s else |TrimLeft(s)| < |s|
  {
    if s != "" && IsBlank(s[0]) { TrimLeftShort(s[1..]); }
  }

  lemma {:induction false} TrimRightShort(s: string)
    ensures TrimRight(s) <= s
    ensures if s == "" || !IsBlank(s[|s| - 1]) then TrimRight(s) == s else |TrimRight(s)| < |s|
  {
    if s != "" && IsBlank(s[|s| - 1]) { TrimRightShort(s[..|s| - 1]); }
  }

  ghost predicate NoOuterBlanks(s: string) {
    s != "" ==> !IsBlank(s[0]) && !IsBlank(s[|s| - 1])
  }

  lemma TrimKeeps(s: string)
    requires NoOuterBlanks(s)
    ensures Trim(s) == s && Trim(" " + s) == s
  {
    assert (" " + s)[1..] == s;
    assert TrimLeft(" " + s) == TrimLeft(s) == s;
  }

  // ---------------------------------------------------------------- splitting

  /** The raw pieces of `s` between occurrences of `d`. */
  function Pieces(s: string, d: char): seq<string> {
    var i := IndexFrom(s, d, 0);
    if i == |s| then [s] else [s[..i]] + Pieces(s[i + 1..], d)
  }

  function Kept(piece: string): seq<string> { if Trim(piece) == "" then [] else [Trim(piece)] }

  /** Each piece trimmed, empty results dropped. */
  function TrimAll(ps: seq<string>): seq<string> {
    if ps == [] then [] else Kept(ps[0]) + TrimAll(ps[1..])
  }

  /** What `split` reports: the trimmed non-empty pieces. */
  function SplitOn(s: string, d: char): seq<string> { TrimAll(Pieces(s, d)) }

  function Glue(ps: seq<string>, d: string): string {
    if ps == [] then ""
    else if |ps| == 1 then ps[0]
    else ps[0] + d + Glue(ps[1..], d)
  }

  lemma {:induction false} GlueSnoc(ts: seq<string>, t: string, sep: string)
    ensures Glue(ts + [t], sep) == if ts == [] then t else Glue(ts, sep) + sep + t
  {
    if |ts| >= 1 {
      assert (ts + [t])[1..] == ts[1..] + [t];
      GlueSnoc(ts[1..], t, sep);
    }
  }

  lemma GlueStep(ts: seq<string>, i: nat, sep: string)
    requires i <= |ts|
    ensures i == 0 ==> Glue(ts[..i], sep) == ""
    ensures i < |ts| ==> Glue(ts[..i + 1], sep) == (if i == 0 then "" else Glue(ts[..i], sep) + sep) + ts[i]
  {
    if i < |ts| {
      GlueSnoc(ts[..i], ts[i], sep);
      assert ts[..i + 1] == ts[..i] + [ts[i]];
    }
  }

  ghost predicate PieceOk(s: string, d: char) {
    s != "" && d !in s && NoOuterBlanks(s)
  }

  lemma PiecesCons(x: string, d: char, rest: string)
    requires d !in x
    ensures Pieces(x + [d] + rest, d) == [x] + Pieces(rest, d)
  {
    var s := x + [d] + rest;
    assert s[|x|] == d;
    assert forall i :: 0 <= i < |x| ==> s[i] == x[i];
    IndexIs(s, d, 0, |x|);
    assert s[..|x|] == x && s[|x| + 1..] == rest;
  }

  lemma PiecesSingle(x: string, d: char)
    requires d !in x
    ensures Pieces(x, d) == [x]
  {
    IndexIs(x, d, 0, |x|);
  }

  /** One more raw piece in front adds its trimmed form, if any. */
  lemma SplitCons(x: string, d: char, rest: string)
    requires d !in x
    ensures SplitOn(x + [d] + rest, d) == Kept(x) + SplitOn(rest, d)
  {
    PiecesCons(x, d, rest);
    assert ([x] + Pieces(rest, d))[1..] == Pieces(rest, d);
  }

  lemma SplitSingle(x: string, d: char)
    requires d !in x
    ensures SplitOn(x, d) == Kept(x)
  {
    PiecesSingle(x, d);
    assert TrimAll([x]) == Kept(x) + TrimAll([]) == Kept(x);
  }

  /** Splitting undoes joining, with or without a blank after each separator. */
  lemma {:induction false} SplitGlue(ps: seq<string>, d: char, sep: string, lead: string)
    requires sep == [d] || sep == [d] + " "
    requires lead == "" || lead == " "
    requires ps != [] && d != ' '
    requires forall i :: 0 <= i < |ps| ==> PieceOk(ps[i], d)
    ensures SplitOn(lead + Glue(ps, sep), d) == ps
  {
    hide SplitOn, Kept;
    var x := lead + ps[0];
    assert PieceOk(ps[0], d);
    assert d !in x;
    KeptIs(ps[0], lead);
    if |ps| == 1 {
      SplitSingle(x, d);
    } else {
      var next := sep[1..];
      var rest := next + Glue(ps[1..], sep);
      assert sep == [d] + next;
      assert lead + Glue(ps, sep) == x + [d] + rest;
      SplitGlue(ps[1..], d, sep, next);
      SplitCons(x, d, rest);
    }
  }

  lemma KeptIs(s: string, lead: string)
    requires s != "" && NoOuterBlanks(s) && (lead == "" || lead == " ")
    ensures Kept(lead + s) == [s]
  {
    TrimKeeps(s);
    assert lead == "" ==> lead + s == s;
  }

  // ---------------------------------------------------------------- the loops

  lemma TrimLeftSlice(s: string, left: nat, end: nat)
    requires left < end <= |s|
    ensures IsBlank(s[left]) ==> TrimLeft(s[left..end]) == TrimLeft(s[left + 1..end])
    ensures !IsBlank(s[left]) ==> TrimLeft(s[left..end]) == s[left..end]
  {
    assert s[left..end][1..] == s[left + 1..end];
  }

  lemma TrimRightSlice(s: string, left: nat, right: nat)
    requires left < right <= |s|
    ensures IsBlank(s[right - 1]) ==> TrimRight(s[left..right]) == TrimRight(s[left..right - 1])
    ensures !IsBlank(s[right - 1]) ==> TrimRight(s[left..right]) == s[left..right]
  {
    var t := s[left..right];
    assert t[..|t| - 1] == s[left..right - 1];
  }

  lemma TrimNothing(s: string, end: nat)
    requires end <= |s|
    ensures TrimLeft(s[end..end]) == "" && TrimLeft("") == "" && TrimRight("") == ""
  {
  }

  /** `trim`: the two scans move inward from both ends of the given span, each bounded only by
      the ends of the whole text; they cross where the span is blank. */
  method TrimSpan(s: string, beg: nat, end: nat) returns (left: nat, right: nat)
    requires beg <= end <= |s|
    ensures Kept(s[beg..end]) == if left < right <= |s| then [s[left..right]] else []
    ensures left < right ==> right <= |s|
  {
    hide TrimLeft, TrimRight;
    left, right := beg, end;
    TrimNothing(s, end);
    while left < |s| && IsBlank(s[left])
      invariant beg <= left <= |s|
      invariant TrimLeft(s[beg..end]) == if left <= end then TrimLeft(s[left..end]) else ""
    {
      if left < end { TrimLeftSlice(s, left, end); }
      left := left + 1;
    }
    ghost var t := if left < end then s[left..end] else "";
    assert Trim(s[beg..end]) == TrimRight(t) by {
      if left < end { TrimLeftSlice(s, left, end); }
    }
    while right > 0 && IsBlank(s[right - 1])
      invariant right <= end
      invariant left < end ==> left < right && TrimRight(t) == TrimRight(s[left..right])
    {
      if left < end { TrimRightSlice(s, left, right); }
      right := right - 1;
    }
    if left < end { TrimRightSlice(s, left, right); }
  }

  /** The spans `split` cuts between `beg` and the next separator, or the end. */
  lemma SplitSpan(s: string, d: char, beg: nat, i: nat)
    requires beg <= i <= |s|
    requires forall j :: beg <= j < i ==> s[j] != d
    ensures i < |s| && s[i] == d ==> SplitOn(s[beg..], d) == Kept(s[beg..i]) + SplitOn(s[i + 1..], d)
    ensures i == |s| ==> SplitOn(s[beg..], d) == Kept(s[beg..i])
    ensures beg == i ==> Kept(s[beg..i]) == []
  {
    if i == |s| {
      assert s[beg..i] == s[beg..];
      SplitSingle(s[beg..], d);
    } else if s[i] == d {
      assert s[beg..] == s[beg..i] + [d] + s[i + 1..];
      SplitCons(s[beg..i], d, s[i + 1..]);
    }
  }

  /** `split`: reports the trimmed non-empty pieces, in order. */
  method Split(s: string, d: char) returns (out: seq<string>)
    ensures out == SplitOn(s, d)
  {
    hide *;
    out := [];
    var i, beg := 0, 0;
    assert s[beg..] == s;
    while i < |s|
      invariant 0 <= beg <= i <= |s|
      invariant forall j :: beg <= j < i ==> s[j] != d
      invariant SplitOn(s, d) == out + SplitOn(s[beg..], d)
    {
      if s[i] == d {
        ghost var rest := SplitOn(s[i + 1..], d);
        SplitSpan(s, d, beg, i);
        Assoc(out, Kept(s[beg..i]), rest);
        var l, r := TrimSpan(s, beg, i);
        out := out + (if l < r then [s[l..r]] else []);
        beg := i + 1;
      }
      i := i + 1;
    }
    SplitSpan(s, d, beg, i);
    if i > 0 {
      var l, r := TrimSpan(s, beg, i);
      out := out + (if l < r then [s[l..r]] else []);
    }
  }
}
