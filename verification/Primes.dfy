/** Prime moduli: Euclid's lemma, cancellation, Fermat's little theorem, and the
    modular inverse and square root that three-argument `pow` computes. */
module Primes {
  import Collections
  import opened Congruence
  import opened Powers

  ghost predicate IsPrime(p: nat) {
    p > 1 && forall d :: 1 < d < p ==> p % d != 0
  }

  /** Python's pow(b, e, m) for a non-negative exponent. */
  function ModPow(b: int, e: nat, m: nat): int
    requires m > 0
  {
    Pow(b, e) % m
  }

  /** Some positive multiple of b that p divides, and the least such multiplier. */
  lemma {:induction false} LeastMultiplier(p: nat, b: int, bound: nat) returns (d: nat)
    requires p > 0 && bound > 0 && (bound * b) % p == 0
    ensures 0 < d <= bound && (d * b) % p == 0
    ensures forall k :: 0 < k < d ==> (k * b) % p != 0
    decreases bound
  {
    if k: nat :| 0 < k < bound && (k * b) % p == 0 {
      d := LeastMultiplier(p, b, k);
    } else {
      d := bound;
    }
  }

  lemma {:induction false} LeastDivides(p: nat, b: int, d: nat, a: nat)
    requires p > 0 && 0 < d && (d * b) % p == 0
    requires forall k :: 0 < k < d ==> (k * b) % p != 0
    requires (a * b) % p == 0
    ensures a % d == 0
  {
    var q, r := a / d, a % d;
    ZeroMul(d * b, q, p);
    ZeroAdd(a * b, d * b * q, p);
    assert a == d * q + r;
    assert r * b == a * b - d * b * q;
  }

  /** Euclid's lemma. */
  lemma {:induction false} Euclid(p: nat, a: int, b: int)
    requires IsPrime(p)
    requires (a * b) % p == 0
    ensures a % p == 0 || b % p == 0
  {
    var a' := a % p;
    CongMod(a, p);
    CongMul(a', a, b, b, p);
    CongEq(a' * b, a * b, p);
    MultipleMod(b, p);
    var d := LeastMultiplier(p, b, p);
    LeastDivides(p, b, d, p);
    LeastDivides(p, b, d, a');
    if d == 1 {
      assert (1 * b) % p == 0;
    } else {
      assert d == p;
      assert a' % p == 0;
    }
  }

  lemma {:induction false} SmallMod(a: nat, p: nat)
    requires a < p
    ensures a % p == a
  {
  }

  lemma {:induction false} ProductNonZero(p: nat, a: int, b: int)
    requires IsPrime(p) && a % p != 0 && b % p != 0
    ensures (a * b) % p != 0
  {
    if (a * b) % p == 0 {
      Euclid(p, a, b);
    }
  }

  lemma {:induction false} Cancel(p: nat, c: int, a: int, b: int)
    requires IsPrime(p)
    requires c % p != 0
    requires Cong(c * a, c * b, p)
    ensures Cong(a, b, p)
  {
    assert c * a - c * b == c * (a - b);
    Euclid(p, c, a - b);
  }

  lemma {:induction false} PowCong(a: int, b: int, e: nat, m: nat)
    requires m > 0
    requires Cong(a, b, m)
    ensures Cong(Pow(a, e), Pow(b, e), m)
  {
    if e > 0 {
      PowCong(a, b, e - 1, m);
      CongMul(a, b, Pow(a, e - 1), Pow(b, e - 1), m);
    }
  }

  lemma {:induction false} MulExchange(a: int, b: int, c: int, d: int)
    ensures (a * b) * (c * d) == (b * c) * (a * d)
  {
  }

  lemma {:induction false} PowSquare(z: int, e: nat)
    ensures Pow(z * z, e) == Pow(z, 2 * e)
  {
    if e > 0 {
      PowSquare(z, e - 1);
      var t := Pow(z, 2 * e - 2);
      assert Pow(z, 2 * e - 1) == z * t;
      MulAssoc(z, z, t);
    }
  }

  // --- Fermat: multiplying by a permutes the non-zero residues ---

  function Product(s: seq<int>): int {
    if s == [] then 1 else s[0] * Product(s[1..])
  }

  lemma {:induction false} ProductSplit(s: seq<int>, i: nat)
    requires i < |s|
    ensures Product(s) == s[i] * Product(s[..i] + s[i + 1..])
  {
    var rest := s[..i] + s[i + 1..];
    if i == 0 {
      assert rest == s[1..];
    } else {
      ProductSplit(s[1..], i - 1);
      assert s[1..][..i - 1] + s[1..][i..] == rest[1..];
      assert s[1..][i - 1] == s[i];
    }
  }

  lemma {:induction false} ProductPermuted(s: seq<int>, t: seq<int>)
    requires multiset(s) == multiset(t)
    ensures Product(s) == Product(t)
  {
    if s == [] {
      assert |multiset(t)| == 0;
    } else {
      assert s[0] in multiset(t);
      var i :| 0 <= i < |t| && t[i] == s[0];
      var rest := t[..i] + t[i + 1..];
      ProductSplit(t, i);
      assert t == t[..i] + [t[i]] + t[i + 1..];
      assert s == [s[0]] + s[1..];
      assert multiset(rest) == multiset(t) - multiset{t[i]};
      ProductPermuted(s[1..], rest);
    }
  }

  /** [1, 2, ..., k] */
  function UpTo(k: nat): seq<int> {
    seq(k, i requires 0 <= i => i + 1)
  }

  /** [a % p, 2a % p, ..., ka % p] */
  function Multiples(a: int, p: nat, k: nat): seq<int>
    requires p > 0
  {
    seq(k, i requires 0 <= i => ((i + 1) * a) % p)
  }

  /** A repeat-free list of k numbers from 1..k is a permutation of 1..k. */
  lemma {:induction false} Pigeonhole(s: seq<int>, k: nat)
    requires |s| == k
    requires Collections.NoRepeats(s)
    requires forall i :: 0 <= i < |s| ==> 1 <= s[i] <= k
    ensures multiset(s) == multiset(UpTo(k))
    decreases k
  {
    if k > 0 {
      var up := UpTo(k);
      assert up == UpTo(k - 1) + [k];
      if i :| 0 <= i < k && s[i] == k {
        var rest := s[..i] + s[i + 1..];
        assert s == s[..i] + [s[i]] + s[i + 1..];
        Pigeonhole(rest, k - 1);
        assert multiset(s) == multiset(rest) + multiset{k};
      } else {
        NoInjection(s, k - 1);
      }
    }
  }

  function Interval(k: nat): (r: set<int>)
    ensures |r| == k
    ensures forall x :: x in r <==> 1 <= x <= k
  {
    if k == 0 then {} else Interval(k - 1) + {k}
  }

  lemma {:induction false} NoInjection(s: seq<int>, k: nat)
    requires |s| > k
    requires forall i :: 0 <= i < |s| ==> 1 <= s[i] <= k
    ensures !Collections.NoRepeats(s)
  {
    if Collections.NoRepeats(s) {
      Collections.NoRepeatsSize(s);
      Collections.SubsetSize(Collections.Elements(s), Interval(k));
    }
  }

  lemma {:induction false} MulSub(a: int, b: int, c: int)
    ensures (a - b) * c == a * c - b * c
  {
  }

  lemma {:induction false} SameRemainder(a: int, b: int, p: nat)
    requires p > 0 && a % p == b % p
    ensures (a - b) % p == 0
  {
    CongMod(a, p);
    CongMod(b, p);
    CongTrans(a, a % p, b, p);
  }

  lemma {:induction false} MultiplesDistinct(a: int, p: nat, i: nat, j: nat)
    requires IsPrime(p) && a % p != 0
    requires i < j < p
    ensures (i * a) % p != (j * a) % p
  {
    var d := j - i;
    MulSub(j, i, a);
    SmallMod(d, p);
    ProductNonZero(p, d, a);
    if (i * a) % p == (j * a) % p {
      SameRemainder(j * a, i * a, p);
    }
  }

  lemma {:induction false} MultipleInRange(a: int, p: nat, i: nat)
    requires IsPrime(p) && a % p != 0 && 1 <= i < p
    ensures 1 <= (i * a) % p <= p - 1
  {
    SmallMod(i, p);
    ProductNonZero(p, i, a);
  }

  lemma {:induction false} MultiplesPermute(a: int, p: nat)
    requires IsPrime(p) && a % p != 0
    ensures multiset(Multiples(a, p, p - 1)) == multiset(UpTo(p - 1))
  {
    var s := Multiples(a, p, p - 1);
    forall i | 0 <= i < |s| ensures 1 <= s[i] <= p - 1 {
      MultipleInRange(a, p, i + 1);
    }
    forall i, j | 0 <= i < j < |s| ensures s[i] != s[j] {
      MultiplesDistinct(a, p, i + 1, j + 1);
    }
    Pigeonhole(s, p - 1);
  }

  /** The product of a, 2a, ..., ka is a^k times the product of 1..k, modulo p. */
  lemma {:induction false} MultiplesProduct(a: int, p: nat, k: nat)
    requires p > 0
    ensures Cong(Product(Multiples(a, p, k)), Pow(a, k) * Product(UpTo(k)), p)
  {
    if k > 0 {
      MultiplesProduct(a, p, k - 1);
      FactorialStep(k);
      var s := Multiples(a, p, k);
      ProductSplit(s, k - 1);
      assert s[..k - 1] + s[k..] == Multiples(a, p, k - 1);
      CongMod(k * a, p);
      var m, n, w := Product(Multiples(a, p, k - 1)), Product(UpTo(k - 1)), Pow(a, k - 1);
      CongMul((k * a) % p, k * a, m, w * n, p);
      MulExchange(k, a, w, n);
    }
  }

  lemma {:induction false} FactorialStep(k: nat)
    requires k > 0
    ensures Product(UpTo(k)) == k * Product(UpTo(k - 1))
  {
    var u := UpTo(k);
    ProductSplit(u, k - 1);
    assert u[..k - 1] + u[k..] == UpTo(k - 1);
  }

  lemma {:induction false} FactorialNonZero(p: nat, k: nat)
    requires IsPrime(p) && k < p
    ensures Product(UpTo(k)) % p != 0
  {
    if k == 0 {
      assert Product(UpTo(0)) == 1;
      SmallMod(1, p);
    } else {
      FactorialNonZero(p, k - 1);
      FactorialStep(k);
      SmallMod(k, p);
      ProductNonZero(p, k, Product(UpTo(k - 1)));
    }
  }

  /** Fermat's little theorem. */
  lemma {:induction false} Fermat(a: int, p: nat)
    requires IsPrime(p) && a % p != 0
    ensures Cong(Pow(a, p - 1), 1, p)
  {
    var f := Product(UpTo(p - 1));
    MultiplesPermute(a, p);
    ProductPermuted(Multiples(a, p, p - 1), UpTo(p - 1));
    MultiplesProduct(a, p, p - 1);
    FactorialNonZero(p, p - 1);
    CongSym(f, Pow(a, p - 1) * f, p);
    assert Pow(a, p - 1) * f == f * Pow(a, p - 1) && f == f * 1;
    Cancel(p, f, Pow(a, p - 1), 1);
  }

  /** pow(a, p - 2, p) is the inverse of a. */
  lemma {:induction false} Inverse(a: int, p: nat)
    requires IsPrime(p) && a % p != 0
    ensures Cong(ModPow(a, p - 2, p) * a, 1, p)
  {
    Fermat(a, p);
    PowAdd(a, p - 2, 1);
    assert Pow(a, 1) == a;
    CongMod(Pow(a, p - 2), p);
    CongMul(ModPow(a, p - 2, p), Pow(a, p - 2), a, a, p);
    CongTrans(ModPow(a, p - 2, p) * a, Pow(a, p - 2) * a, 1, p);
  }

  lemma {:induction false} PowTwoMore(z: int, e: nat)
    ensures Pow(z, e + 2) == (z * z) * Pow(z, e)
  {
    var w := Pow(z, e);
    assert Pow(z, e + 1) == z * w;
    assert Pow(z, e + 2) == z * Pow(z, e + 1);
    MulAssoc(z, z, w);
  }

  lemma {:induction false} TimesOne(x: int, w: int, p: nat)
    requires p > 0 && Cong(w, 1, p)
    ensures Cong(x * w, x, p)
  {
    ZeroMul(w - 1, x, p);
    assert x * w - x == (w - 1) * x;
  }

  /** z^(p + 1) = z^2 */
  lemma {:induction false} PowPPlusOne(z: int, p: nat)
    requires IsPrime(p)
    ensures Cong(Pow(z, p + 1), z * z, p)
  {
    var w, x := Pow(z, p - 1), z * z;
    PowTwoMore(z, p - 1);
    if z % p == 0 {
      ZeroMul(z, z, p);
      ZeroMul(x, w, p);
      ZeroAdd(x * w, x, p);
    } else {
      Fermat(z, p);
      TimesOne(x, w, p);
    }
  }

  /** For p = 3 mod 4, pow(c, (p + 1) / 4, p) is a square root of c whenever c has one. */
  lemma {:induction false} SquareRoot(c: int, z: int, p: nat)
    requires IsPrime(p) && p % 4 == 3
    requires Cong(z * z, c, p)
    ensures var y := ModPow(c, (p + 1) / 4, p); Cong(y * y, c, p)
  {
    var e := (p + 1) / 4;
    var y, w := ModPow(c, e, p), Pow(c, e);
    CongMod(w, p);
    CongMul(y, w, y, w, p);
    PowAdd(c, e, e);
    CongSym(z * z, c, p);
    PowCong(c, z * z, e + e, p);
    PowSquare(z, e + e);
    PowPPlusOne(z, p);
    CongTrans(y * y, Pow(c, e + e), Pow(z, p + 1), p);
    CongTrans(y * y, Pow(z, p + 1), z * z, p);
    CongTrans(y * y, z * z, c, p);
  }
}
