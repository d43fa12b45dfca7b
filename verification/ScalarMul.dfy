/** Double-and-add in any group (point_mul of kips/kip-0005/reference.py). */
module ScalarMul {
  import Congruence
  import Powers

  const BITS: nat := 256

  /** A carrier `on`, an addition and its identity. */
  datatype Group<!T> = Group(on: T -> bool, add: (T, T) -> T, zero: T)

  ghost predicate Laws<T(!new)>(g: Group<T>) {
    && g.on(g.zero)
    && (forall a :: g.add(g.zero, a) == a && g.add(a, g.zero) == a)
    && (forall a, b {:trigger g.add(a, b)} :: g.on(a) && g.on(b) ==> g.on(g.add(a, b)))
    && (forall a, b, c :: Associates(g, a, b, c))
  }

  ghost predicate Associates<T>(g: Group<T>, a: T, b: T, c: T) {
    g.on(a) && g.on(b) && g.on(c) ==> g.add(g.add(a, b), c) == g.add(a, g.add(b, c))
  }

  /** k times a, by definition. */
  function Times<T>(g: Group<T>, k: nat, a: T): T {
    if k == 0 then g.zero else g.add(Times(g, k - 1, a), a)
  }

  /** What `bits` more rounds of the loop make of r and a when the rest of the scalar is n. */
  function DoubleAndAdd<T>(g: Group<T>, bits: nat, r: T, a: T, n: int): T {
    if bits == 0 then r
    else DoubleAndAdd(g, bits - 1, if n % 2 == 1 then g.add(r, a) else r, g.add(a, a), n / 2)
  }

  function Mul<T>(g: Group<T>, a: T, n: int): T {
    DoubleAndAdd(g, BITS, g.zero, a, n)
  }

  /** n >> i */
  function Shift(n: int, i: nat): int {
    if i == 0 then n else Shift(n, i - 1) / 2
  }

  method PointMul<T>(g: Group<T>, a: T, n: int) returns (r: T)
    ensures r == Mul(g, a, n)
  {
    r := g.zero;
    var q := a;
    for i := 0 to BITS
      invariant DoubleAndAdd(g, BITS - i, r, q, Shift(n, i)) == Mul(g, a, n)
    {
      if Shift(n, i) % 2 == 1 {
        r := g.add(r, q);
      }
      q := g.add(q, q);
    }
  }

  lemma {:induction false} TimesOn<T(!new)>(g: Group<T>, k: nat, a: T)
    requires Laws(g) && g.on(a)
    ensures g.on(Times(g, k, a))
  {
    if k > 0 {
      TimesOn(g, k - 1, a);
    }
  }

  lemma {:induction false} TimesAdd<T(!new)>(g: Group<T>, j: nat, k: nat, a: T)
    requires Laws(g) && g.on(a)
    ensures Times(g, j + k, a) == g.add(Times(g, j, a), Times(g, k, a))
  {
    if k > 0 {
      TimesAdd(g, j, k - 1, a);
      TimesOn(g, j, a);
      TimesOn(g, k - 1, a);
      assert Associates(g, Times(g, j, a), Times(g, k - 1, a), a);
    }
  }

  lemma {:induction false} TimesTimes<T(!new)>(g: Group<T>, j: nat, k: nat, a: T)
    requires Laws(g) && g.on(a)
    ensures Times(g, j, Times(g, k, a)) == Times(g, j * k, a)
  {
    if j > 0 {
      TimesTimes(g, j - 1, k, a);
      var m := (j - 1) * k;
      assert m + k == j * k;
      TimesAdd(g, m, k, a);
    } else {
      assert j * k == 0;
    }
  }

  lemma {:induction false} TimesZero<T(!new)>(g: Group<T>, k: nat)
    requires Laws(g)
    ensures Times(g, k, g.zero) == g.zero
  {
    if k > 0 {
      TimesZero(g, k - 1);
    }
  }

  lemma {:induction false} HalveMod(n: int, bits: nat)
    requires bits > 0
    ensures n % Powers.Pow(2, bits) == 2 * ((n / 2) % Powers.Pow(2, bits - 1)) + n % 2
  {
    var m := Powers.Pow(2, bits - 1);
    var q, r := (n / 2) / m, (n / 2) % m;
    var s := 2 * r + n % 2;
    assert n == (2 * m) * q + s by {
      assert 2 * (m * q) == (2 * m) * q;
    }
    Congruence.MultipleMod(q, 2 * m);
    Congruence.CongEq(n, s, 2 * m);
    Congruence.CongEq(s, s % (2 * m), 2 * m) by { Congruence.CongMod(s, 2 * m); }
  }

  lemma {:induction false} TimesTwo<T(!new)>(g: Group<T>, m: nat, a: T)
    requires Laws(g) && g.on(a)
    ensures Times(g, 1, a) == a
    ensures Times(g, m, g.add(a, a)) == Times(g, 2 * m, a)
  {
    assert Times(g, 1, a) == g.add(Times(g, 0, a), a);
    assert Times(g, 2, a) == g.add(Times(g, 1, a), a);
    TimesTimes(g, m, 2, a);
  }

  /** `bits` rounds add (n mod 2^bits) copies of a to r. */
  lemma {:induction false} RoundsAdd<T(!new)>(g: Group<T>, bits: nat, r: T, a: T, n: int)
    requires Laws(g) && g.on(r) && g.on(a)
    ensures DoubleAndAdd(g, bits, r, a, n) == g.add(r, Times(g, n % Powers.Pow(2, bits), a))
    decreases bits
  {
    if bits > 0 {
      var m := (n / 2) % Powers.Pow(2, bits - 1);
      HalveMod(n, bits);
      TimesTwo(g, m, a);
      TimesAdd(g, 1, 2 * m, a);
      TimesOn(g, 2 * m, a);
      assert Associates(g, r, a, Times(g, 2 * m, a));
      RoundsAdd(g, bits - 1, if n % 2 == 1 then g.add(r, a) else r, g.add(a, a), n / 2);
    } else {
      assert n % 1 == 0;
    }
  }

  /** point_mul gives the (n mod 2^256)-fold sum, for every integer n. */
  lemma {:induction false} MulIsTimes<T(!new)>(g: Group<T>, a: T, n: int)
    requires Laws(g) && g.on(a)
    ensures Mul(g, a, n) == Times(g, n % Powers.Pow(2, BITS), a)
    ensures g.on(Mul(g, a, n))
  {
    RoundsAdd(g, BITS, g.zero, a, n);
    TimesOn(g, n % Powers.Pow(2, BITS), a);
  }
}
