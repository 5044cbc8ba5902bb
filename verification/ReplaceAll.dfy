/** `replace_all`: replaces the first occurrence and searches again from the start, until there is
    none left. */
module ReplaceAll {
  import opened Text

  predicate Disjoint(a: string, b: string) { forall c :: c in a ==> c !in b }

  /** The first occurrence replaced; the string itself where there is none. */
  function Once(s: string, old_: string, new_: string): string {
    var pos := Find(s, old_);
    if HasAt(s, old_, pos) then s[..pos] + new_ + s[pos + |old_|..] else s
  }

  function Times(s: string, old_: string, new_: string, n: nat): string {
    if n == 0 then s else Once(Times(s, old_, new_, n - 1), old_, new_)
  }

  /** One pass from left to right over non-overlapping occurrences. */
  function OnePass(s: string, old_: string, new_: string): string
    requires old_ != ""
    decreases |s|
  {
    var pos := Find(s, old_);
    if HasAt(s, old_, pos) then s[..pos] + new_ + OnePass(s[pos + |old_|..], old_, new_) else s
  }

  /** `Find` answers whether there is an occurrence at all. */
  lemma FindDecides(s: string, p: string)
    ensures HasAt(s, p, Find(s, p)) <==> Occurs(s, p)
    ensures HasAt(s, p, Find(s, p)) ==> forall i :: 0 <= i < Find(s, p) ==> !HasAt(s, p, i)
  {
    if p == "" {
      assert HasAt(s, p, 0);
    } else {
      FindFromLeast(s, p, 0);
      if Find(s, p) == |s| {
        forall i ensures !HasAt(s, p, i) {
        }
      }
    }
  }

  // ---------------------------------------------------------------- why it ends

  /** How many characters of `s` occur in `p`. */
  function CountIn(s: string, p: string): nat {
    if s == "" then 0 else (if s[0] in p then 1 else 0) + CountIn(s[1..], p)
  }

  lemma {:induction false} CountAppend(a: string, b: string, p: string)
    ensures CountIn(a + b, p) == CountIn(a, p) + CountIn(b, p)
  {
    if a == "" {
      assert a + b == b;
    } else {
      assert (a + b)[1..] == a[1..] + b;
      CountAppend(a[1..], b, p);
    }
  }

  lemma {:induction false} CountSelf(s: string, p: string)
    requires forall c :: c in s ==> c in p
    ensures CountIn(s, p) == |s|
  {
    if s != "" { CountSelf(s[1..], p); }
  }

  lemma {:induction false} CountNone(s: string, p: string)
    requires forall c :: c in s ==> c !in p
    ensures CountIn(s, p) == 0
  {
    if s != "" { CountNone(s[1..], p); }
  }

  /** The string read as a number, each character a digit; `flip` complements the digits. */
  function Value(s: string, flip: bool): nat {
    if s == "" then 0 else Value(s[..|s| - 1], flip) * 0x110000 + Digit(s[|s| - 1], flip)
  }

  function Digit(c: char, flip: bool): (d: nat)
    ensures d < 0x110000
  {
    if flip then 0x10FFFF - c as int else c as int
  }

  lemma {:induction false} LessAfter(a: string, x: string, y: string, flip: bool)
    requires |x| == |y| && Value(x, flip) < Value(y, flip)
    ensures Value(a + x, flip) < Value(a + y, flip)
  {
    if x != "" {
      var x', y' := x[..|x| - 1], y[..|y| - 1];
      assert (a + x)[..|a + x| - 1] == a + x' && (a + y)[..|a + y| - 1] == a + y';
      if Value(x', flip) < Value(y', flip) {
        LessAfter(a, x', y', flip);
      } else {
        SameValue(x', y', flip);
      }
    }
  }

  lemma {:induction false} LessBefore(x: string, y: string, b: string, flip: bool)
    requires Value(x, flip) < Value(y, flip)
    ensures Value(x + b, flip) < Value(y + b, flip)
  {
    if b == "" {
      assert x + b == x && y + b == y;
    } else {
      var b' := b[..|b| - 1];
      assert (x + b)[..|x + b| - 1] == x + b' && (y + b)[..|y + b| - 1] == y + b';
      LessBefore(x, y, b', flip);
    }
  }

  lemma {:induction false} SameValue(x: string, y: string, flip: bool)
    requires |x| == |y| && Value(x, flip) == Value(y, flip)
    ensures x == y
  {
    if x != "" {
      var x', y' := x[..|x| - 1], y[..|y| - 1];
      var c, d := x[|x| - 1], y[|y| - 1];
      SameDigits(Value(x', flip), Value(y', flip), Digit(c, flip), Digit(d, flip));
      SameValue(x', y', flip);
      assert x == x' + [c] && y == y' + [d];
    }
  }

  lemma SameDigits(a: nat, b: nat, c: nat, d: nat)
    requires a * 0x110000 + c == b * 0x110000 + d && c < 0x110000 && d < 0x110000
    ensures a == b && c == d
  {
  }

  /** Of two different strings of one length, the second is the smaller under some reading. */
  lemma {:induction false} SomeOrder(x: string, y: string)
    requires |x| == |y| && x != y
    ensures Value(y, false) < Value(x, false) || Value(y, true) < Value(x, true)
  {
    var x', y' := x[..|x| - 1], y[..|y| - 1];
    assert x == x' + [x[|x| - 1]] && y == y' + [y[|y| - 1]];
    if x' != y' { SomeOrder(x', y'); }
  }

  /** What every replacement makes smaller. */
  function Measure(s: string, old_: string, new_: string): nat {
    if |new_| < |old_| then |s|
    else if |new_| > |old_| then CountIn(s, old_)
    else Value(s, Value(new_, false) >= Value(old_, false))
  }

  /** Enough for the loop to stop on every string. */
  predicate Stops(old_: string, new_: string) {
    if |new_| <= |old_| then new_ != old_ else old_ != "" && Disjoint(old_, new_)
  }

  lemma OnceSmaller(s: string, old_: string, new_: string)
    requires Stops(old_, new_) && HasAt(s, old_, Find(s, old_))
    ensures Measure(Once(s, old_, new_), old_, new_) < Measure(s, old_, new_)
  {
    hide Find;
    var pos := Find(s, old_);
    var a, b := s[..pos], s[pos + |old_|..];
    assert s == a + old_ + b && Once(s, old_, new_) == a + new_ + b;
    if |new_| > |old_| {
      FewerOld(a, b, old_, new_);
    } else if |new_| == |old_| {
      var flip := Value(new_, false) >= Value(old_, false);
      SomeOrder(old_, new_);
      LessAfter(a, new_, old_, flip);
      LessBefore(a + new_, a + old_, b, flip);
    }
  }

  lemma FewerOld(a: string, b: string, old_: string, new_: string)
    requires old_ != "" && Disjoint(old_, new_)
    ensures CountIn(a + new_ + b, old_) < CountIn(a + old_ + b, old_)
  {
    CountAppend(a + old_, b, old_);
    CountAppend(a, old_, old_);
    CountAppend(a + new_, b, old_);
    CountAppend(a, new_, old_);
    CountSelf(old_, old_);
    CountNone(new_, old_);
  }

  /** The loop ends: after some number of replacements there is nothing left to replace. */
  ghost predicate Ends(s: string, old_: string, new_: string) {
    exists n: nat :: !Occurs(Times(s, old_, new_, n), old_)
  }

  lemma {:induction false} StopsEnds(s: string, old_: string, new_: string)
    requires Stops(old_, new_)
    ensures Ends(s, old_, new_)
    decreases Measure(s, old_, new_)
  {
    hide Once, Measure, Find, Stops;
    FindDecides(s, old_);
    if Occurs(s, old_) {
      OnceSmaller(s, old_, new_);
      StopsEnds(Once(s, old_, new_), old_, new_);
      var n: nat :| !Occurs(Times(Once(s, old_, new_), old_, new_, n), old_);
      TimesShift(s, old_, new_, n);
      assert !Occurs(Times(s, old_, new_, n + 1), old_);
    } else {
      assert Times(s, old_, new_, 0) == s;
    }
  }

  lemma {:induction false} TimesShift(s: string, old_: string, new_: string, n: nat)
    ensures Times(Once(s, old_, new_), old_, new_, n) == Times(s, old_, new_, n + 1)
  {
    hide Once;
    if n == 0 {
      assert Times(s, old_, new_, 0) == s;
    } else {
      TimesShift(s, old_, new_, n - 1);
    }
  }

  /** A new value no longer than the old one: the loop ends on every string exactly when the two
      values differ. */
  lemma EndsExact(old_: string, new_: string)
    requires |new_| <= |old_|
    ensures (forall s :: Ends(s, old_, new_)) <==> new_ != old_
  {
    hide Times;
    if new_ != old_ {
      forall s ensures Ends(s, old_, new_) { StopsEnds(s, old_, new_); }
    } else {
      assert HasAt(old_, old_, 0);
      forall n: nat ensures Occurs(Times(old_, old_, new_, n), old_) { NeverStops(old_, old_, new_, n); }
      assert !Ends(old_, old_, new_);
    }
  }

  /** It does not stop once the old value is found, if that is empty or part of the new one. */
  lemma {:induction false} NeverStops(s: string, old_: string, new_: string, n: nat)
    requires Occurs(s, old_) && Occurs(new_, old_)
    ensures Occurs(Times(s, old_, new_, n), old_)
  {
    hide Once;
    if n > 0 {
      NeverStops(s, old_, new_, n - 1);
      OnceKeeps(Times(s, old_, new_, n - 1), old_, new_);
    }
  }

  lemma OnceKeeps(s: string, old_: string, new_: string)
    requires Occurs(s, old_) && Occurs(new_, old_)
    ensures Occurs(Once(s, old_, new_), old_)
  {
    hide Find;
    FindDecides(s, old_);
    var pos := Find(s, old_);
    var i :| HasAt(new_, old_, i);
    var t := s[..pos] + new_ + s[pos + |old_|..];
    assert t[pos + i..pos + i + |old_|] == new_[i..i + |old_|];
    assert HasAt(t, old_, pos + i);
  }

  // ---------------------------------------------------------------- rescanning is one pass

  /** No occurrence of `p` starts in `done`, whatever follows it. */
  ghost predicate Sealed(done: string, p: string) {
    (done != "" ==> done[|done| - 1] !in p) && !Occurs(done, p)
  }

  lemma SealedFind(done: string, rest: string, p: string)
    requires p != "" && Sealed(done, p)
    ensures Occurs(done + rest, p) <==> Occurs(rest, p)
    ensures Occurs(rest, p) ==> Find(done + rest, p) == |done| + Find(rest, p)
  {
    hide Find;
    var s := done + rest;
    forall i | 0 <= i < |done| ensures !HasAt(s, p, i) {
      if i + |p| <= |done| {
        assert s[i..i + |p|] == done[i..i + |p|];
        assert !HasAt(done, p, i);
      } else if i + |p| <= |s| {
        var j := |done| - 1 - i;
        assert s[i..i + |p|][j] == done[|done| - 1];
        assert p[j] in p;
      }
    }
    FindDecides(rest, p);
    FindDecides(s, p);
    if Occurs(rest, p) {
      var k := Find(rest, p);
      ShiftAt(done, rest, p, k);
      forall i | 0 <= i < |done| + k ensures !HasAt(s, p, i) {
        ShiftAt(done, rest, p, i - |done|);
      }
      FindIs(s, p, |done| + k);
    } else {
      forall i ensures !HasAt(s, p, i) {
        ShiftAt(done, rest, p, i - |done|);
      }
    }
  }

  lemma ShiftAt(done: string, rest: string, p: string, i: int)
    ensures i >= 0 ==> (HasAt(done + rest, p, |done| + i) <==> HasAt(rest, p, i))
  {
    if 0 <= i && i + |p| <= |rest| {
      assert (done + rest)[|done| + i..|done| + i + |p|] == rest[i..i + |p|];
    }
  }

  /** All characters are the same. */
  predicate Uniform(p: string) { forall i :: 0 < i < |p| ==> p[i] == p[0] }

  /** Replacing the next occurrence leaves a sealed part that ends behind the new value. */
  lemma SealMore(done: string, rest: string, old_: string, new_: string)
    requires old_ != "" && Disjoint(old_, new_) && (new_ != "" || Uniform(old_))
    requires Sealed(done, old_) && HasAt(rest, old_, Find(rest, old_))
    ensures Sealed(done + rest[..Find(rest, old_)] + new_, old_)
  {
    hide Find;
    var pos := Find(rest, old_);
    var s, more := done + rest, done + rest[..pos] + new_;
    FindDecides(rest, old_);
    SealedFind(done, rest, old_);
    FindDecides(s, old_);
    forall i ensures !HasAt(more, old_, i) {
      if 0 <= i && i + |old_| <= |done| + pos {
        assert more[i..i + |old_|] == s[i..i + |old_|];
        assert !HasAt(s, old_, i);
      } else if 0 <= i && i + |old_| <= |more| {
        TouchesNew(more, |done| + pos, old_, new_, i);
      }
    }
    SealEnd(done, rest, old_, new_);
  }

  lemma TouchesNew(more: string, k: nat, old_: string, new_: string, i: nat)
    requires old_ != "" && Disjoint(old_, new_) && k + |new_| == |more| && more[k..] == new_
    requires k < i + |old_| <= |more|
    ensures !HasAt(more, old_, i)
  {
    var last := i + |old_| - 1;
    assert more[last] == new_[last - k];
    assert more[last] == more[i..i + |old_|][|old_| - 1];
    assert old_[|old_| - 1] in old_;
  }

  lemma SealEnd(done: string, rest: string, old_: string, new_: string)
    requires old_ != "" && Disjoint(old_, new_) && (new_ != "" || Uniform(old_))
    requires Sealed(done, old_) && HasAt(rest, old_, Find(rest, old_))
    ensures var more := done + rest[..Find(rest, old_)] + new_;
      more != "" ==> more[|more| - 1] !in old_
  {
    hide Find;
    var pos := Find(rest, old_);
    if new_ == "" && pos > 0 {
      FindDecides(rest, old_);
      assert !HasAt(rest, old_, pos - 1);
      if rest[pos - 1] == old_[0] { UniformShift(rest, old_, pos); }
      assert forall c :: c in old_ ==> c == old_[0];
    }
  }

  lemma UniformShift(rest: string, p: string, pos: nat)
    requires p != "" && Uniform(p) && HasAt(rest, p, pos) && pos > 0 && rest[pos - 1] == p[0]
    ensures HasAt(rest, p, pos - 1)
  {
    forall j | 0 <= j < |p| ensures rest[pos - 1 + j] == p[j] {
      if j > 0 { assert rest[pos..pos + |p|][j - 1] == p[j - 1]; }
    }
    assert rest[pos - 1..pos - 1 + |p|] == p;
  }

  /** What rescanning reaches from a sealed part and the rest is what one pass makes of the rest. */
  lemma {:induction false} RescanOnePass(done: string, rest: string, old_: string, new_: string, n: nat)
    requires old_ != "" && Disjoint(old_, new_) && (new_ != "" || Uniform(old_))
    requires Sealed(done, old_) && !Occurs(Times(done + rest, old_, new_, n), old_)
    ensures Times(done + rest, old_, new_, n) == done + OnePass(rest, old_, new_)
    decreases n
  {
    hide Find, Once, Sealed;
    SealedFind(done, rest, old_);
    FindDecides(rest, old_);
    FindDecides(done + rest, old_);
    if Occurs(rest, old_) {
      var pos := Find(rest, old_);
      var more, left := done + rest[..pos] + new_, rest[pos + |old_|..];
      OnceSealed(done, rest, old_, new_);
      assert n > 0 by { assert Times(done + rest, old_, new_, 0) == done + rest; }
      TimesShift(done + rest, old_, new_, n - 1);
      SealMore(done, rest, old_, new_);
      RescanOnePass(more, left, old_, new_, n - 1);
      Regroup(done, rest[..pos], new_, OnePass(left, old_, new_));
    } else {
      TimesStays(done + rest, old_, new_, n);
    }
  }

  lemma Regroup(a: string, b: string, c: string, d: string)
    ensures a + b + c + d == a + (b + c + d)
  {
  }

  lemma OnceSealed(done: string, rest: string, old_: string, new_: string)
    requires old_ != "" && Sealed(done, old_) && Occurs(rest, old_)
    ensures HasAt(rest, old_, Find(rest, old_))
    ensures var pos := Find(rest, old_);
      Once(done + rest, old_, new_) == done + rest[..pos] + new_ + rest[pos + |old_|..]
  {
    hide Find, Sealed;
    SealedFind(done, rest, old_);
    FindDecides(rest, old_);
    FindDecides(done + rest, old_);
  }

  lemma {:induction false} TimesStays(s: string, old_: string, new_: string, n: nat)
    requires !Occurs(s, old_)
    ensures Times(s, old_, new_, n) == s
  {
    hide Find;
    if n > 0 {
      TimesStays(s, old_, new_, n - 1);
      FindDecides(s, old_);
    }
  }

  /** Where the loop ends, it always ends with the result of one pass. */
  ghost predicate IsOnePass(old_: string, new_: string)
    requires old_ != ""
  {
    forall s, n: nat :: !Occurs(Times(s, old_, new_, n), old_) ==> Times(s, old_, new_, n) == OnePass(s, old_, new_)
  }

  /** For values that share no character, rescanning from the start is one left-to-right pass
      exactly when the new value is not empty or the old one repeats a single character. */
  lemma RescanExact(old_: string, new_: string)
    requires old_ != "" && Disjoint(old_, new_)
    ensures IsOnePass(old_, new_) <==> new_ != "" || Uniform(old_)
  {
    hide Find, Once, OnePass, Times;
    if new_ != "" || Uniform(old_) {
      forall s, n: nat | !Occurs(Times(s, old_, new_, n), old_)
        ensures Times(s, old_, new_, n) == OnePass(s, old_, new_)
      {
        assert "" + s == s;
        RescanOnePass("", s, old_, new_, n);
        assert "" + OnePass(s, old_, new_) == OnePass(s, old_, new_);
      }
    } else {
      NestedDiffers(old_);
    }
  }

  /** An occurrence wrapped in another: rescanning erases both, one pass erases the inner one. */
  lemma NestedDiffers(old_: string)
    requires old_ != "" && !Uniform(old_)
    ensures var s := old_[..1] + old_ + old_[1..];
      Times(s, old_, "", 2) == "" && OnePass(s, old_, "") == old_
    ensures !IsOnePass(old_, "")
  {
    hide Find, FindFrom;
    var s := old_[..1] + old_ + old_[1..];
    NestedFind(old_);
    assert s[..1] + "" + s[1 + |old_|..] == old_;
    assert Once(s, old_, "") == old_;
    FindIs(old_, old_, 0);
    assert Once(old_, old_, "") == "";
    assert Times(s, old_, "", 0) == s;
    assert Times(s, old_, "", 1) == old_;
    assert Times(s, old_, "", 2) == "";
    assert s[1 + |old_|..] == old_[1..];
    assert OnePass(old_[1..], old_, "") == old_[1..];
    assert !Occurs("", old_);
  }

  lemma NestedFind(old_: string)
    requires old_ != "" && !Uniform(old_)
    ensures var s := old_[..1] + old_ + old_[1..];
      Find(s, old_) == 1 && HasAt(s, old_, 1)
  {
    hide Find;
    var s := old_[..1] + old_ + old_[1..];
    assert s[1..1 + |old_|] == old_;
    if HasAt(s, old_, 0) {
      forall i: nat | i < |old_| ensures old_[i] == old_[0] { Repeats(old_, i); }
    }
    FindIs(s, old_, 1);
  }

  lemma {:induction false} Repeats(p: string, i: nat)
    requires i < |p| && HasAt(p[..1] + p + p[1..], p, 0)
    ensures p[i] == p[0]
  {
    if i > 0 {
      var s := p[..1] + p + p[1..];
      assert s[..|p|][i] == p[i] && s[i] == p[i - 1];
      Repeats(p, i - 1);
    }
  }

  // ---------------------------------------------------------------- the loop

  /** The string is edited in place; here it is the variable that becomes the result. */
  method ReplaceAll(str: string, old_: string, new_: string) returns (r: string)
    requires Ends(str, old_, new_)
    ensures !Occurs(r, old_)
    ensures exists n: nat :: r == Times(str, old_, new_, n)
    ensures Disjoint(old_, new_) && old_ != "" && (new_ != "" || Uniform(old_)) ==> r == OnePass(str, old_, new_)
  {
    hide Find, FindFrom, OnePass, Uniform;
    ghost var left: nat :| !Occurs(Times(str, old_, new_, left), old_);
    ghost var n: nat := 0;
    r := str;
    while true
      invariant r == Times(str, old_, new_, n)
      invariant !Occurs(Times(r, old_, new_, left), old_)
      decreases left
    {
      var pos := Find(r, old_);
      FindDecides(r, old_);
      if !HasAt(r, old_, pos) { break; }
      assert left > 0;
      TimesShift(r, old_, new_, left - 1);
      r, left, n := r[..pos] + new_ + r[pos + |old_|..], left - 1, n + 1;
    }
    if Disjoint(old_, new_) && old_ != "" && (new_ != "" || Uniform(old_)) {
      assert "" + str == str;
      RescanOnePass("", str, old_, new_, n);
      assert "" + OnePass(str, old_, new_) == OnePass(str, old_, new_);
    }
  }
}
