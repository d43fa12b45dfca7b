/** Repeat-free lists and sizes of finite sets. */
module Collections {
  predicate NoRepeats<T(==)>(s: seq<T>) {
    forall i, j :: 0 <= i < j < |s| ==> s[i] != s[j]
  }

  function Elements<T>(s: seq<T>): set<T> {
    set x | x in s
  }

  lemma {:induction false} ElementsPush<T>(s: seq<T>, x: T)
    ensures Elements(s + [x]) == Elements(s) + {x}
  {
  }

  lemma {:induction false} NoRepeatsSize<T>(s: seq<T>)
    requires NoRepeats(s)
    ensures |Elements(s)| == |s|
  {
    if s != [] {
      NoRepeatsSize(s[1..]);
      assert Elements(s) == {s[0]} + Elements(s[1..]);
    }
  }

  lemma {:induction false} SubsetSize<T>(a: set<T>, b: set<T>)
    requires a <= b
    ensures |a| <= |b|
  {
    assert b == a + (b - a);
  }

  /** Two subsets of a set of n elements share at least |a| + |b| - n of them. */
  lemma {:induction false} Overlap<T>(a: set<T>, b: set<T>, whole: set<T>)
    requires a <= whole && b <= whole
    ensures |a * b| >= |a| + |b| - |whole|
  {
    assert |a + b| + |a * b| == |a| + |b|;
    SubsetSize(a + b, whole);
  }

  /** How many i below m have the property. */
  function Count(f: nat -> bool, m: nat): nat {
    if m == 0 then 0 else Count(f, m - 1) + if f(m - 1) then 1 else 0
  }

  lemma {:induction false} CountSame(f: nat -> bool, g: nat -> bool, m: nat)
    requires forall i: nat :: i < m ==> f(i) == g(i)
    ensures Count(f, m) == Count(g, m)
  {
    if m > 0 {
      CountSame(f, g, m - 1);
    }
  }

  /** A number that grows by one for f and by one for g. */
  lemma {:induction false} CountBoth(numbers: seq<nat>, f: nat -> bool, g: nat -> bool, m: nat)
    requires m < |numbers| && numbers[0] == 0
    requires forall i :: 0 <= i < m ==> numbers[i + 1] == numbers[i] + (if f(i) then 1 else 0) + (if g(i) then 1 else 0)
    ensures numbers[m] == Count(f, m) + Count(g, m)
  {
    if m > 0 {
      CountBoth(numbers, f, g, m - 1);
    }
  }

  function Bit(b: bool): nat {
    if b then 1 else 0
  }

  /** A state that f switches on and g and h switch off. */
  lemma {:induction false} CountBalance(on: nat -> bool, f: nat -> bool, g: nat -> bool, h: nat -> bool, m: nat)
    requires !on(0)
    requires forall i: nat {:trigger f(i)} :: i < m ==> Bit(on(i + 1)) + Bit(g(i)) + Bit(h(i)) == Bit(on(i)) + Bit(f(i))
    ensures Count(f, m) == Count(g, m) + Count(h, m) + Bit(on(m))
  {
    if m > 0 {
      CountBalance(on, f, g, h, m - 1);
    }
  }

  lemma {:induction false} CountFewer(f: nat -> bool, g: nat -> bool, m: nat)
    requires forall i: nat :: i < m && f(i) ==> g(i)
    ensures Count(f, m) <= Count(g, m)
  {
    if m > 0 {
      CountFewer(f, g, m - 1);
    }
  }
}
