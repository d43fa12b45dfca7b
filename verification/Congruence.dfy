/** Integers modulo m, written the way Python computes with them: `%` on a
    positive modulus, and the three-argument `pow`. */
module Congruence {

  /** a and b leave the same remainder. */
  predicate Cong(a: int, b: int, m: nat)
    requires m > 0
  {
    (a - b) % m == 0
  }

  lemma DivMod(a: int, m: nat)
    requires m > 0
    ensures a == m * (a / m) + a % m
  {
  }

  lemma ProductFarFromZero(m: nat, d: int)
    requires m > 0
    ensures d > 0 ==> m * d >= m
    ensures d < 0 ==> m * d + m <= 0
  {
  }

  /** A multiple of m leaves remainder 0. */
  lemma MultipleMod(k: int, m: nat)
    requires m > 0
    ensures (m * k) % m == 0
  {
    var a := m * k;
    var d := k - a / m;
    assert m * d == a % m by {
      DivMod(a, m);
      assert m * d == m * k - m * (a / m);
    }
    ProductFarFromZero(m, d);
  }

  lemma Witness(a: int, m: nat) returns (k: int)
    requires m > 0
    requires a % m == 0
    ensures a == m * k
  {
    k := a / m;
    DivMod(a, m);
  }

  lemma ZeroAdd(a: int, b: int, m: nat)
    requires m > 0
    requires a % m == 0 && b % m == 0
    ensures (a + b) % m == 0 && (a - b) % m == 0
  {
    var j := Witness(a, m);
    var k := Witness(b, m);
    MultipleMod(j + k, m);
    MultipleMod(j - k, m);
    assert a + b == m * (j + k) && a - b == m * (j - k);
  }

  lemma ZeroMul(a: int, b: int, m: nat)
    requires m > 0
    requires a % m == 0
    ensures (a * b) % m == 0 && (b * a) % m == 0
  {
    var k := Witness(a, m);
    MultipleMod(k * b, m);
    assert a * b == m * (k * b);
  }

  lemma CongMod(a: int, m: nat)
    requires m > 0
    ensures Cong(a % m, a, m) && Cong(a, a % m, m)
  {
    DivMod(a, m);
    MultipleMod(a / m, m);
    MultipleMod(-(a / m), m);
    assert a % m - a == m * -(a / m);
  }

  lemma CongSym(a: int, b: int, m: nat)
    requires m > 0
    requires Cong(a, b, m)
    ensures Cong(b, a, m)
  {
    ZeroMul(a - b, -1, m);
    assert (a - b) * -1 == b - a;
  }

  lemma CongTrans(a: int, b: int, c: int, m: nat)
    requires m > 0
    requires Cong(a, b, m) && Cong(b, c, m)
    ensures Cong(a, c, m)
  {
    ZeroAdd(a - b, b - c, m);
  }

  lemma CongAdd(a: int, b: int, c: int, d: int, m: nat)
    requires m > 0
    requires Cong(a, b, m) && Cong(c, d, m)
    ensures Cong(a + c, b + d, m) && Cong(a - c, b - d, m)
  {
    ZeroAdd(a - b, c - d, m);
    assert (a + c) - (b + d) == (a - b) + (c - d);
    assert (a - c) - (b - d) == (a - b) - (c - d);
  }

  lemma CongMul(a: int, b: int, c: int, d: int, m: nat)
    requires m > 0
    requires Cong(a, b, m) && Cong(c, d, m)
    ensures Cong(a * c, b * d, m)
  {
    ZeroMul(a - b, c, m);
    ZeroMul(c - d, b, m);
    ZeroAdd((a - b) * c, b * (c - d), m);
    assert a * c - b * d == (a - b) * c + b * (c - d);
  }

  /** Residues in [0, m) are determined by their class. */
  lemma CongEq(a: int, b: int, m: nat)
    requires m > 0
    requires Cong(a, b, m)
    ensures a % m == b % m
    ensures 0 <= a < m && 0 <= b < m ==> a == b
  {
    var k := Witness(a - b, m);
    DivMod(a, m);
    DivMod(b, m);
    var d := k - a / m + b / m;
    assert a % m - b % m == m * d;
    ProductFarFromZero(m, d);
  }
}
