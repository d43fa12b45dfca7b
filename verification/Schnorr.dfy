/** BIP-340 key generation, signing and verification (kips/kip-0005/reference.py). */
module Schnorr {
  import Types
  import Congruence
  import opened Powers
  import Primes
  import opened Curve
  import opened ScalarMul

  type Byte = b: int | 0 <= b < 256

  /** tag and message to digest; any function will do. */
  type TaggedHash = (string, seq<Byte>) -> seq<Byte>

  /** What key generation, signing and verification use of the curve: the field
      prime, the order, the generator, point addition and lift_x. */
  datatype Params = Params(p: Modulus, n: nat, g: Point, group: Group<Point>, lift: nat -> Point)

  // --- bytes ---

  /** Bytes in a field element or scalar. */
  const SIZE: nat := 32

  /** x.to_bytes(k, "big"); Python raises when x does not fit, here x is cut. */
  function ToBytes(k: nat, x: int): (b: seq<Byte>)
    ensures |b| == k
  {
    if k == 0 then [] else ToBytes(k - 1, x / 256) + [x % 256]
  }

  function FromBytes(b: seq<Byte>): nat {
    if b == [] then 0 else FromBytes(b[..|b| - 1]) * 256 + b[|b| - 1]
  }

  function XorBits(bits: nat, a: nat, b: nat): (r: nat)
    ensures r < Pow(2, bits)
  {
    if bits == 0 then 0 else 2 * XorBits(bits - 1, a / 2, b / 2) + (a + b) % 2
  }

  /** zip stops at the shorter argument. */
  function XorBytes(a: seq<Byte>, b: seq<Byte>): seq<Byte> {
    if a == [] || b == [] then []
    else
      var x := XorBits(8, a[0], b[0]);
      assert Pow(2, 8) == 256;
      [x] + XorBytes(a[1..], b[1..])
  }

  lemma {:induction false} BytesRoundTrip(k: nat, x: nat)
    requires x < Pow(256, k)
    ensures FromBytes(ToBytes(k, x)) == x
  {
    if k > 0 {
      assert x / 256 < Pow(256, k - 1);
      BytesRoundTrip(k - 1, x / 256);
      var b := ToBytes(k, x);
      assert b[..k - 1] == ToBytes(k - 1, x / 256);
    }
  }

  lemma {:induction false} ByteCapacity(size: nat)
    requires size == SIZE
    ensures Pow(256, size) == Types.U256
  {
    assert Pow(256, 1) == 256 * Pow(256, 0);
    PowDouble(256, 1, 0x100);
    PowDouble(256, 2, 0x10000);
    PowDouble(256, 4, 0x100000000);
    PowDouble(256, 8, 0x10000000000000000);
    PowDouble(256, 16, 0x100000000000000000000000000000000);
  }

  lemma {:induction false} BitCapacity(bits: nat)
    requires bits == BITS
    ensures Pow(2, bits) == Types.U256
  {
    assert Pow(2, 1) == 2 * Pow(2, 0);
    PowDouble(2, 1, 0x2);
    PowDouble(2, 2, 0x4);
    PowDouble(2, 4, 0x10);
    PowDouble(2, 8, 0x100);
    PowDouble(2, 16, 0x10000);
    PowDouble(2, 32, 0x100000000);
    PowDouble(2, 64, 0x10000000000000000);
    PowDouble(2, 128, 0x100000000000000000000000000000000);
  }

  lemma {:induction false} SizedRoundTrip(x: nat)
    requires x < Types.U256
    ensures FromBytes(ToBytes(SIZE, x)) == x
  {
    ByteCapacity(SIZE);
    BytesRoundTrip(SIZE, x);
  }

  lemma {:induction false} SizedScalar(k: nat)
    requires k < Types.U256
    ensures k % Pow(2, BITS) == k
  {
    BitCapacity(BITS);
  }

  lemma {:induction false} BytesInjective(a: seq<Byte>, b: seq<Byte>)
    requires |a| == |b| && FromBytes(a) == FromBytes(b)
    ensures a == b
  {
    if a != [] {
      var k := |a| - 1;
      assert a[k] == FromBytes(a) % 256 && b[k] == FromBytes(b) % 256;
      BytesInjective(a[..k], b[..k]);
      assert a == a[..k] + [a[k]] && b == b[..k] + [b[k]];
    }
  }

  /** The first byte weighs most. */
  lemma {:induction false} BigEndian(x: Byte, b: seq<Byte>)
    ensures FromBytes([x] + b) == x * Pow(256, |b|) + FromBytes(b)
  {
    var a := [x] + b;
    if b == [] {
      assert a[..0] == [];
    } else {
      var k := |b| - 1;
      assert a[..k + 1] == [x] + b[..k];
      BigEndian(x, b[..k]);
      MulAssoc(256, x, Pow(256, k));
      MulAssoc(x, 256, Pow(256, k));
    }
  }

  lemma {:induction false} XorStep(bits: nat, a: nat, b: nat)
    requires bits > 0
    ensures XorBits(bits, a, b) / 2 == XorBits(bits - 1, a / 2, b / 2)
    ensures XorBits(bits, a, b) % 2 == 1 <==> (a % 2 == 1) != (b % 2 == 1)
  {
  }

  lemma {:induction false} XorBitsExact(bits: nat, a: nat, b: nat, j: nat)
    requires j < bits
    ensures Shift(XorBits(bits, a, b), j) % 2 == 1 <==> (Shift(a, j) % 2 == 1) != (Shift(b, j) % 2 == 1)
  {
    var x := XorBits(bits, a, b);
    XorStep(bits, a, b);
    if j > 0 {
      XorBitsExact(bits - 1, a / 2, b / 2, j - 1);
      ShiftHalf(a, j - 1);
      ShiftHalf(b, j - 1);
      ShiftHalf(x, j - 1);
    }
  }

  lemma {:induction false} ShiftHalf(n: int, i: nat)
    ensures Shift(n, i + 1) == Shift(n / 2, i)
  {
    if i > 0 {
      ShiftHalf(n, i - 1);
    }
  }

  /** xor_bytes stops at the shorter argument and sets the bits in which the two differ. */
  lemma {:induction false} XorBytesExact(a: seq<Byte>, b: seq<Byte>, i: nat, j: nat)
    requires i < |a| && i < |b| && j < 8
    ensures |XorBytes(a, b)| == if |a| < |b| then |a| else |b|
    ensures Shift(XorBytes(a, b)[i], j) % 2 == 1 <==> (Shift(a[i], j) % 2 == 1) != (Shift(b[i], j) % 2 == 1)
  {
    XorLength(a, b);
    if i == 0 {
      XorBitsExact(8, a[0], b[0], j);
    } else {
      XorBytesExact(a[1..], b[1..], i - 1, j);
    }
  }

  lemma {:induction false} XorLength(a: seq<Byte>, b: seq<Byte>)
    ensures |XorBytes(a, b)| == if |a| < |b| then |a| else |b|
  {
    if a != [] && b != [] {
      XorLength(a[1..], b[1..]);
    }
  }

  // --- keys and signatures ---

  datatype KeyResult = PublicKey(bytes: seq<Byte>) | KeyRange | KeyAssertion

  function PubkeyGen(c: Params, seckey: seq<Byte>): KeyResult {
    var d0 := FromBytes(seckey);
    if !(1 <= d0 <= c.n - 1) then KeyRange
    else
      var pub := Mul(c.group, c.g, d0);
      if pub.Infinity? then KeyAssertion else PublicKey(ToBytes(SIZE, pub.x))
  }

  datatype VerifyResult = BadPublicKey | BadSignatureLength | Checked(ok: bool)

  function Challenge(c: Params, tagged: TaggedHash, r: seq<Byte>, pubkey: seq<Byte>, msg: seq<Byte>): int
    requires c.n > 0
  {
    FromBytes(tagged("BIP0340/challenge", r + pubkey + msg)) % c.n
  }

  function Verify(c: Params, tagged: TaggedHash, msg: seq<Byte>, pubkey: seq<Byte>, sig: seq<Byte>): VerifyResult
    requires c.n > 0
  {
    if |pubkey| != 32 then BadPublicKey
    else if |sig| != 64 then BadSignatureLength
    else
      var pub := c.lift(FromBytes(pubkey));
      var r := FromBytes(sig[0..32]);
      var s := FromBytes(sig[32..64]);
      if pub.Infinity? || r >= c.p || s >= c.n then Checked(false)
      else
        var e := Challenge(c, tagged, sig[0..32], pubkey, msg);
        var rp := c.group.add(Mul(c.group, c.g, s), Mul(c.group, pub, c.n - e));
        Checked(!(rp.Infinity? || rp.y % 2 != 0 || rp.x != r))
  }

  datatype SignResult =
    | Signature(sig: seq<Byte>) | SecretKeyRange | AuxLength | ZeroNonce | SelfCheckFailed | SignAssertion

  /** The nonce of sign before its parity is fixed. */
  function Nonce(c: Params, tagged: TaggedHash, msg: seq<Byte>, d: int, px: int, aux: seq<Byte>): int
    requires c.n > 0
  {
    var t := XorBytes(ToBytes(SIZE, d), tagged("BIP0340/aux", aux));
    FromBytes(tagged("BIP0340/nonce", t + ToBytes(SIZE, px) + msg)) % c.n
  }

  /** The scalar, or its opposite, whose multiple of g has even y. */
  function EvenScalar(c: Params, k: nat, a: Point): int
    requires a.Affine?
  {
    if a.y % 2 == 0 then k else c.n - k
  }

  /** The second half of a signature. */
  function Response(c: Params, k: int, e: int, d: int): int
    requires c.n > 0
  {
    (k + e * d) % c.n
  }

  function Sign(c: Params, tagged: TaggedHash, msg: seq<Byte>, seckey: seq<Byte>, aux: seq<Byte>): SignResult
    requires c.n > 0
  {
    var d0 := FromBytes(seckey);
    if !(1 <= d0 <= c.n - 1) then SecretKeyRange
    else if |aux| != 32 then AuxLength
    else
      var pub := Mul(c.group, c.g, d0);
      if pub.Infinity? then SignAssertion
      else
        var d := EvenScalar(c, d0, pub);
        var k0 := Nonce(c, tagged, msg, d, pub.x, aux);
        if k0 == 0 then ZeroNonce
        else
          var rp := Mul(c.group, c.g, k0);
          if rp.Infinity? then SignAssertion
          else
            var k := EvenScalar(c, k0, rp);
            var e := Challenge(c, tagged, ToBytes(SIZE, rp.x), ToBytes(SIZE, pub.x), msg);
            var sig := ToBytes(SIZE, rp.x) + ToBytes(SIZE, Response(c, k, e, d));
            if Verify(c, tagged, msg, ToBytes(SIZE, pub.x), sig) == Checked(true) then Signature(sig)
            else SelfCheckFailed
  }

  // --- correctness ---

  /** What correctness needs of that interface. */
  ghost predicate Sound(c: Params) {
    && Laws(c.group) && c.group.zero == Infinity
    && (forall a :: c.group.on(a) && a.Affine? ==> 0 <= a.x < c.p)
    && (forall a, b :: c.group.on(a) && c.group.on(b) ==> SameXOpposite(a, b))
    && (forall a, b {:trigger c.group.add(a, b)} ::
          c.group.on(a) && c.group.on(b) && c.group.add(a, b) == Infinity ==> Opposites(a, b))
    && (forall a {:trigger Negate(a, c.p)} :: c.group.on(a) ==>
          c.group.on(Negate(a, c.p)) && c.group.add(a, Negate(a, c.p)) == Infinity)
    && (forall a :: c.group.on(a) && a.Affine? && a.y % 2 == 0 ==> c.lift(a.x) == a)
    && (forall x :: c.group.on(c.lift(x)))
    && Generates(c) && Sized(c)
  }

  function Negate(a: Point, p: Modulus): Point {
    if a.Infinity? then a else Affine(a.x, p - a.y)
  }

  ghost predicate SameXOpposite(a: Point, b: Point) {
    a.Affine? && b.Affine? && a.x == b.x && a != b ==> (a.y % 2 == 0 <==> b.y % 2 != 0)
  }

  ghost predicate Opposites(a: Point, b: Point) {
    a.Affine? ==> b.Affine? && a.x == b.x && a != b
  }

  /** g has order n. */
  ghost predicate Generates(c: Params) {
    && c.group.on(c.g)
    && 1 < c.n
    && Times(c.group, c.n, c.g) == c.group.zero
    && (forall k :: 0 < k < c.n ==> Times(c.group, k, c.g) != c.group.zero)
  }

  /** Field elements and scalars fit in 32 bytes. */
  ghost predicate Sized(c: Params) {
    c.p <= Types.U256 && c.n < Types.U256
  }

  lemma {:induction false} MultiplesVanish(c: Params, q: nat)
    requires Sound(c)
    ensures Times(c.group, q * c.n, c.g) == Infinity
  {
    TimesTimes(c.group, q, c.n, c.g);
    TimesZero(c.group, q);
  }

  /** Scalars only matter modulo the order. */
  lemma {:induction false} TimesMod(c: Params, q: nat, r: nat)
    requires Sound(c)
    ensures Times(c.group, q * c.n + r, c.g) == Times(c.group, r, c.g)
  {
    var m := q * c.n;
    MultiplesVanish(c, q);
    TimesAdd(c.group, m, r, c.g);
  }

  /** Every scalar point_mul meets here is below 2^256. */
  lemma {:induction false} ScalarPoint(c: Params, k: nat, a: Point)
    requires Sound(c) && c.group.on(a) && k <= c.n
    ensures Mul(c.group, a, k) == Times(c.group, k, a)
    ensures c.group.on(Times(c.group, k, a))
  {
    MulIsTimes(c.group, a, k);
    SizedScalar(k);
  }

  lemma {:induction false} OppositeMultiples(c: Params, k: nat, k': nat)
    requires Sound(c) && k + k' == c.n && Times(c.group, k, c.g).Affine?
    ensures var a, b := Times(c.group, k, c.g), Times(c.group, k', c.g);
      b.Affine? && a.x == b.x && (a.y % 2 == 0 <==> b.y % 2 != 0)
  {
    var a, b := Times(c.group, k, c.g), Times(c.group, k', c.g);
    TimesOn(c.group, k, c.g);
    TimesOn(c.group, k', c.g);
    TimesAdd(c.group, k, k', c.g);
    assert Opposites(a, b) && SameXOpposite(a, b);
  }

  lemma {:induction false} EvenScalarPoint(c: Params, k0: nat)
    requires Sound(c) && 0 < k0 < c.n
    ensures var a := Times(c.group, k0, c.g); a.Affine? && c.group.on(a)
    ensures
      var a := Times(c.group, k0, c.g);
      var k := EvenScalar(c, k0, a);
      && 0 < k < c.n
      && var b := Times(c.group, k, c.g);
      b.Affine? && c.group.on(b) && b.x == a.x && b.y % 2 == 0
  {
    TimesOn(c.group, k0, c.g);
    TimesOn(c.group, c.n - k0, c.g);
    OppositeMultiples(c, k0, c.n - k0);
  }

  lemma {:induction false} SigningScalars(k: nat, e: nat, d: nat, n: nat) returns (m: nat, f: nat, q: nat)
    requires e < n
    ensures m == k + e * d && f == (n - e) * d
    ensures m + f == d * n + k
    ensures m == q * n + m % n
  {
    Primes.MulSub(n, e, d);
    m, f := k + e * d, (n - e) * d;
    q := m / n;
  }

  lemma {:induction false} SumOfScalars(c: Params, m: nat, f: nat, q: nat, s: nat, q': nat, k: nat)
    requires Sound(c) && m == q * c.n + s && m + f == q' * c.n + k
    ensures c.group.add(Times(c.group, s, c.g), Times(c.group, f, c.g)) == Times(c.group, k, c.g)
  {
    TimesMod(c, q, s);
    TimesAdd(c.group, m, f, c.g);
    TimesMod(c, q', k);
  }

  /** s G + (n - e) (d G) = k G when s = k + e d modulo n. */
  lemma {:induction false} SigningEquation(c: Params, k: nat, e: nat, d: nat, s: nat)
    requires Sound(c) && e < c.n && s == Response(c, k, e, d)
    ensures c.group.add(Times(c.group, s, c.g), Times(c.group, c.n - e, Times(c.group, d, c.g)))
         == Times(c.group, k, c.g)
  {
    var m, f, q := SigningScalars(k, e, d, c.n);
    SumOfScalars(c, m, f, q, s, d, k);
    TimesTimes(c.group, c.n - e, d, c.g);
  }

  /** The same, as verify computes it. */
  lemma {:induction false} VerifyPoint(c: Params, k: nat, e: nat, d: nat, s: nat)
    requires Sound(c) && e < c.n && s == Response(c, k, e, d)
    ensures c.group.add(Mul(c.group, c.g, s), Mul(c.group, Times(c.group, d, c.g), c.n - e)) == Times(c.group, k, c.g)
  {
    TimesOn(c.group, d, c.g);
    ScalarPoint(c, s, c.g);
    ScalarPoint(c, c.n - e, Times(c.group, d, c.g));
    SigningEquation(c, k, e, d, s);
  }

  lemma {:induction false} XRoundTrip(c: Params, k: nat)
    requires Sound(c) && Times(c.group, k, c.g).Affine?
    ensures var a := Times(c.group, k, c.g);
      && 0 <= a.x < c.p && FromBytes(ToBytes(SIZE, a.x)) == a.x
      && (a.y % 2 == 0 ==> c.lift(FromBytes(ToBytes(SIZE, a.x))) == a)
  {
    TimesOn(c.group, k, c.g);
    SizedRoundTrip(Times(c.group, k, c.g).x);
  }

  /** The parts of a signature, put together, make verify answer true. */
  lemma {:induction false} VerifyParts(c: Params, tagged: TaggedHash, msg: seq<Byte>, px: seq<Byte>,
                                       rx: seq<Byte>, sx: seq<Byte>, rp: Point)
    requires c.n > 0 && |px| == 32 && |rx| == 32 && |sx| == 32
    requires var pub := c.lift(FromBytes(px));
      && pub.Affine?
      && rp == c.group.add(Mul(c.group, c.g, FromBytes(sx)), Mul(c.group, pub, c.n - Challenge(c, tagged, rx, px, msg)))
    requires rp.Affine? && rp.y % 2 == 0 && rp.x == FromBytes(rx) < c.p && FromBytes(sx) < c.n
    ensures Verify(c, tagged, msg, px, rx + sx) == Checked(true)
  {
    var sig := rx + sx;
    assert sig[0..32] == rx && sig[32..64] == sx;
  }

  /** What sign puts together passes the check of verify. */
  lemma {:induction false} AssembledVerifies(c: Params, tagged: TaggedHash, msg: seq<Byte>, d: nat, k: nat,
                                             e: nat, s: nat)
    requires Sound(c)
    requires var pub := Times(c.group, d, c.g); pub.Affine? && pub.y % 2 == 0
    requires var rp := Times(c.group, k, c.g); rp.Affine? && rp.y % 2 == 0
    requires e == Challenge(c, tagged, ToBytes(SIZE, Times(c.group, k, c.g).x),
                            ToBytes(SIZE, Times(c.group, d, c.g).x), msg)
    requires s == Response(c, k, e, d)
    ensures
      var px, rx := ToBytes(SIZE, Times(c.group, d, c.g).x), ToBytes(SIZE, Times(c.group, k, c.g).x);
      Verify(c, tagged, msg, px, rx + ToBytes(SIZE, s)) == Checked(true)
  {
    var pub, rp := Times(c.group, d, c.g), Times(c.group, k, c.g);
    XRoundTrip(c, d);
    XRoundTrip(c, k);
    SizedRoundTrip(s);
    VerifyPoint(c, k, e, d, s);
    VerifyParts(c, tagged, msg, ToBytes(SIZE, pub.x), ToBytes(SIZE, rp.x), ToBytes(SIZE, s), rp);
  }

  /** The run of sign once the values it computes are known. */
  lemma {:induction false} SignRun(c: Params, tagged: TaggedHash, msg: seq<Byte>, seckey: seq<Byte>, aux: seq<Byte>,
                                   pub: Point, rp: Point, d: int, k0: int, k: int, s: int)
    requires c.n > 0 && 1 <= FromBytes(seckey) <= c.n - 1 && |aux| == 32
    requires pub == Mul(c.group, c.g, FromBytes(seckey)) && pub.Affine?
    requires d == EvenScalar(c, FromBytes(seckey), pub)
    requires k0 == Nonce(c, tagged, msg, d, pub.x, aux) != 0
    requires rp == Mul(c.group, c.g, k0) && rp.Affine?
    requires k == EvenScalar(c, k0, rp)
    requires s == Response(c, k, Challenge(c, tagged, ToBytes(SIZE, rp.x), ToBytes(SIZE, pub.x), msg), d)
    requires Verify(c, tagged, msg, ToBytes(SIZE, pub.x), ToBytes(SIZE, rp.x) + ToBytes(SIZE, s)) == Checked(true)
    ensures Sign(c, tagged, msg, seckey, aux) == Signature(ToBytes(SIZE, rp.x) + ToBytes(SIZE, s))
  {
  }

  /** BIP-340 correctness: for every secret key in range, message and auxiliary
      input, sign either meets the zero nonce or returns a signature that verify
      accepts under the generated public key. Its own final check never fails. */
  lemma {:induction false} SignVerifies(c: Params, tagged: TaggedHash, msg: seq<Byte>, seckey: seq<Byte>,
                                        aux: seq<Byte>)
    requires Sound(c) && 1 <= FromBytes(seckey) <= c.n - 1 && |aux| == 32
    ensures PubkeyGen(c, seckey).PublicKey?
    ensures
      var d0 := FromBytes(seckey);
      var pub := Times(c.group, d0, c.g);
      var r := Sign(c, tagged, msg, seckey, aux);
      && pub.Affine?
      && (r.ZeroNonce? <==> Nonce(c, tagged, msg, EvenScalar(c, d0, pub), pub.x, aux) == 0)
      && (!r.ZeroNonce? ==>
            r.Signature? && Verify(c, tagged, msg, PubkeyGen(c, seckey).bytes, r.sig) == Checked(true))
  {
    var d0 := FromBytes(seckey);
    var pub := Times(c.group, d0, c.g);
    ScalarPoint(c, d0, c.g);
    EvenScalarPoint(c, d0);
    var d := EvenScalar(c, d0, pub);
    var k0 := Nonce(c, tagged, msg, d, pub.x, aux);
    if k0 != 0 {
      ScalarPoint(c, k0, c.g);
      EvenScalarPoint(c, k0);
      var rp := Times(c.group, k0, c.g);
      var k := EvenScalar(c, k0, rp);
      var e := Challenge(c, tagged, ToBytes(SIZE, rp.x), ToBytes(SIZE, pub.x), msg);
      var s := Response(c, k, e, d);
      AssembledVerifies(c, tagged, msg, d, k, e, s);
      SignRun(c, tagged, msg, seckey, aux, pub, rp, d, k0, k, s);
    }
  }

  // --- the values key generation and signing return ---

  /** pubkey_gen fails exactly on a key out of range, and otherwise gives the 32 bytes
      of the x of that multiple of the generator. */
  lemma {:induction false} PubkeyExact(c: Params, seckey: seq<Byte>)
    requires Sound(c)
    ensures PubkeyGen(c, seckey).KeyRange? <==> !(1 <= FromBytes(seckey) < c.n)
    ensures 1 <= FromBytes(seckey) < c.n ==>
      && PubkeyGen(c, seckey).PublicKey?
      && |PubkeyGen(c, seckey).bytes| == 32
      && Times(c.group, FromBytes(seckey), c.g).Affine?
      && FromBytes(PubkeyGen(c, seckey).bytes) == Times(c.group, FromBytes(seckey), c.g).x
  {
    var d0 := FromBytes(seckey);
    if 1 <= d0 < c.n {
      ScalarPoint(c, d0, c.g);
      EvenScalarPoint(c, d0);
      XRoundTrip(c, d0);
    }
  }

  /** k or its opposite, whichever makes the y of that multiple of the generator even. */
  ghost predicate EvenMultiple(c: Params, k0: nat, k: nat) {
    && (k == k0 || k + k0 == c.n)
    && var a := Times(c.group, k, c.g); a.Affine? && a.y % 2 == 0
  }

  /** The scalar sign works with, by that definition. */
  lemma {:induction false} EvenMultipleIs(c: Params, k0: nat, k: nat)
    requires Sound(c) && 0 < k0 < c.n && EvenMultiple(c, k0, k)
    ensures Mul(c.group, c.g, k0) == Times(c.group, k0, c.g)
    ensures
      var a, b := Times(c.group, k0, c.g), Times(c.group, k, c.g);
      && a.Affine? && b.Affine? && b.y % 2 == 0
      && k == EvenScalar(c, k0, a) && b.x == a.x && FromBytes(ToBytes(SIZE, b.x)) == b.x
  {
    ScalarPoint(c, k0, c.g);
    if k + k0 == c.n {
      OppositeMultiples(c, k, k0);
    }
    XRoundTrip(c, k);
  }

  /** The secret scalar d, the first nonce k0, the nonce k, the challenge e and the response s,
      by their definitions. */
  ghost predicate SigningValues(c: Params, tagged: TaggedHash, msg: seq<Byte>, seckey: seq<Byte>, aux: seq<Byte>,
                                d: nat, k0: nat, k: nat, e: nat, s: nat)
    requires c.n > 0
  {
    && EvenMultiple(c, FromBytes(seckey), d)
    && var px := ToBytes(SIZE, Times(c.group, d, c.g).x);
    && k0 == FromBytes(tagged("BIP0340/nonce", XorBytes(ToBytes(SIZE, d), tagged("BIP0340/aux", aux)) + px + msg)) % c.n
    && (k0 > 0 ==>
          && EvenMultiple(c, k0, k)
          && e == FromBytes(tagged("BIP0340/challenge", ToBytes(SIZE, Times(c.group, k, c.g).x) + px + msg)) % c.n
          && s == (k + e * d) % c.n)
  }

  /** There are such values for every key in range. */
  lemma {:induction false} SigningValuesExist(c: Params, tagged: TaggedHash, msg: seq<Byte>, seckey: seq<Byte>,
                                              aux: seq<Byte>)
    returns (d: nat, k0: nat, k: nat, e: nat, s: nat)
    requires Sound(c) && 1 <= FromBytes(seckey) < c.n
    ensures SigningValues(c, tagged, msg, seckey, aux, d, k0, k, e, s)
  {
    var d0 := FromBytes(seckey);
    EvenScalarPoint(c, d0);
    d := EvenScalar(c, d0, Times(c.group, d0, c.g));
    k0 := Nonce(c, tagged, msg, d, Times(c.group, d, c.g).x, aux);
    k, e, s := 0, 0, 0;
    if k0 > 0 {
      EvenScalarPoint(c, k0);
      k := EvenScalar(c, k0, Times(c.group, k0, c.g));
      var px, rx := ToBytes(SIZE, Times(c.group, d, c.g).x), ToBytes(SIZE, Times(c.group, k, c.g).x);
      e := Challenge(c, tagged, rx, px, msg);
      s := Response(c, k, e, d);
    }
  }

  /** The signature as a value: its halves are the x of k G and s. */
  lemma {:induction false} SignExact(c: Params, tagged: TaggedHash, msg: seq<Byte>, seckey: seq<Byte>,
                                     aux: seq<Byte>, d: nat, k0: nat, k: nat, e: nat, s: nat)
    requires Sound(c) && 1 <= FromBytes(seckey) < c.n && |aux| == 32
    requires SigningValues(c, tagged, msg, seckey, aux, d, k0, k, e, s)
    ensures Sign(c, tagged, msg, seckey, aux).ZeroNonce? <==> k0 == 0
    ensures k0 > 0 ==>
      var r := Sign(c, tagged, msg, seckey, aux);
      && r.Signature? && |r.sig| == 64
      && FromBytes(r.sig[..32]) == Times(c.group, k, c.g).x
      && FromBytes(r.sig[32..]) == s
  {
    if k0 == 0 {
      ZeroNonceRun(c, tagged, msg, seckey, aux, d);
    } else {
      SignedValue(c, tagged, msg, seckey, aux, d, k0, k, e);
      SignedHalves(c, k0, k, s);
    }
  }

  lemma {:induction false} SignedHalves(c: Params, k0: nat, k: nat, s: nat)
    requires Sound(c) && 0 < k0 < c.n && EvenMultiple(c, k0, k) && s < c.n
    ensures var sig := ToBytes(SIZE, Times(c.group, k, c.g).x) + ToBytes(SIZE, s);
      && |sig| == 64
      && FromBytes(sig[..32]) == Times(c.group, k, c.g).x
      && FromBytes(sig[32..]) == s
  {
    EvenMultipleIs(c, k0, k);
    SizedRoundTrip(s);
  }

  lemma {:induction false} SignedValue(c: Params, tagged: TaggedHash, msg: seq<Byte>, seckey: seq<Byte>,
                                       aux: seq<Byte>, d: nat, k0: nat, k: nat, e: nat)
    requires Sound(c) && 1 <= FromBytes(seckey) < c.n && |aux| == 32
    requires EvenMultiple(c, FromBytes(seckey), d) && EvenMultiple(c, k0, k)
    requires k0 == Nonce(c, tagged, msg, d, Times(c.group, d, c.g).x, aux) > 0
    requires e == Challenge(c, tagged, ToBytes(SIZE, Times(c.group, k, c.g).x),
                            ToBytes(SIZE, Times(c.group, d, c.g).x), msg)
    ensures Sign(c, tagged, msg, seckey, aux)
         == Signature(ToBytes(SIZE, Times(c.group, k, c.g).x) + ToBytes(SIZE, Response(c, k, e, d)))
  {
    var d0 := FromBytes(seckey);
    EvenMultipleIs(c, d0, d);
    EvenMultipleIs(c, k0, k);
    var s := Response(c, k, e, d);
    AssembledVerifies(c, tagged, msg, d, k, e, s);
    SignRun(c, tagged, msg, seckey, aux, Times(c.group, d0, c.g), Times(c.group, k0, c.g), d, k0, k, s);
  }

  lemma {:induction false} ZeroNonceRun(c: Params, tagged: TaggedHash, msg: seq<Byte>, seckey: seq<Byte>,
                                        aux: seq<Byte>, d: nat)
    requires Sound(c) && 1 <= FromBytes(seckey) < c.n && |aux| == 32
    requires EvenMultiple(c, FromBytes(seckey), d)
    requires Nonce(c, tagged, msg, d, Times(c.group, d, c.g).x, aux) == 0
    ensures Sign(c, tagged, msg, seckey, aux) == ZeroNonce
  {
    EvenMultipleIs(c, FromBytes(seckey), d);
  }

  /** The errors sign can report, the secret key first; no other error is reachable. */
  lemma {:induction false} SignErrors(c: Params, tagged: TaggedHash, msg: seq<Byte>, seckey: seq<Byte>, aux: seq<Byte>)
    requires Sound(c)
    ensures Sign(c, tagged, msg, seckey, aux).SecretKeyRange? <==> !(1 <= FromBytes(seckey) <= c.n - 1)
    ensures Sign(c, tagged, msg, seckey, aux).AuxLength? <==> 1 <= FromBytes(seckey) <= c.n - 1 && |aux| != 32
    ensures !Sign(c, tagged, msg, seckey, aux).SignAssertion? && !Sign(c, tagged, msg, seckey, aux).SelfCheckFailed?
  {
    if 1 <= FromBytes(seckey) <= c.n - 1 && |aux| == 32 {
      SignVerifies(c, tagged, msg, seckey, aux);
    }
  }

  // --- a signature is determined by its first half ---

  lemma {:induction false} CancelPoint(c: Params, a: Point, b: Point, x: Point)
    requires Sound(c) && c.group.on(a) && c.group.on(b) && c.group.on(x)
    requires c.group.add(a, x) == c.group.add(b, x)
    ensures a == b
  {
    var y := Negate(x, c.p);
    assert Associates(c.group, a, x, y) && Associates(c.group, b, x, y);
  }

  lemma {:induction false} ScalarsDiffer(c: Params, s: nat, t: nat)
    requires Sound(c) && s < t < c.n
    ensures Times(c.group, s, c.g) != Times(c.group, t, c.g)
  {
    TimesAdd(c.group, t - s, s, c.g);
    TimesOn(c.group, t - s, c.g);
    TimesOn(c.group, s, c.g);
    if Times(c.group, s, c.g) == Times(c.group, t, c.g) {
      CancelPoint(c, Infinity, Times(c.group, t - s, c.g), Times(c.group, s, c.g));
    }
  }

  /** What an accepted signature says. */
  lemma {:induction false} Accepted(c: Params, tagged: TaggedHash, msg: seq<Byte>, pubkey: seq<Byte>, sig: seq<Byte>)
    returns (s: nat, e: nat, pub: Point, rp: Point)
    requires c.n > 0 && Verify(c, tagged, msg, pubkey, sig) == Checked(true)
    ensures |sig| == 64 && s == FromBytes(sig[32..64]) && s < c.n
    ensures e == Challenge(c, tagged, sig[..32], pubkey, msg) && e < c.n
    ensures pub == c.lift(FromBytes(pubkey))
    ensures rp == c.group.add(Mul(c.group, c.g, s), Mul(c.group, pub, c.n - e))
    ensures rp.Affine? && rp.y % 2 == 0 && rp.x == FromBytes(sig[..32])
  {
    assert sig[0..32] == sig[..32];
    s, pub := FromBytes(sig[32..64]), c.lift(FromBytes(pubkey));
    e := Challenge(c, tagged, sig[..32], pubkey, msg);
    rp := c.group.add(Mul(c.group, c.g, s), Mul(c.group, pub, c.n - e));
  }

  lemma {:induction false} SameScalar(c: Params, s: nat, s': nat, x: Point)
    requires Sound(c) && s < c.n && s' < c.n && c.group.on(x)
    requires c.group.add(Times(c.group, s, c.g), x) == c.group.add(Times(c.group, s', c.g), x)
    ensures s == s'
  {
    TimesOn(c.group, s, c.g);
    TimesOn(c.group, s', c.g);
    CancelPoint(c, Times(c.group, s, c.g), Times(c.group, s', c.g), x);
    if s < s' {
      ScalarsDiffer(c, s, s');
    } else if s' < s {
      ScalarsDiffer(c, s', s);
    }
  }

  lemma {:induction false} SameResponse(c: Params, s: nat, s': nat, e: nat, px: nat, a: Point, b: Point)
    requires Sound(c) && s < c.n && s' < c.n && e <= c.n
    requires a == c.group.add(Mul(c.group, c.g, s), Mul(c.group, c.lift(px), c.n - e))
    requires b == c.group.add(Mul(c.group, c.g, s'), Mul(c.group, c.lift(px), c.n - e))
    requires a.Affine? && b.Affine? && a.x == b.x && a.y % 2 == 0 && b.y % 2 == 0
    ensures s == s'
  {
    var pub := c.lift(px);
    ScalarPoint(c, s, c.g);
    ScalarPoint(c, s', c.g);
    ScalarPoint(c, c.n - e, pub);
    assert SameXOpposite(a, b);
    SameScalar(c, s, s', Times(c.group, c.n - e, pub));
  }

  /** For one key and message verify accepts at most one second half per first half. */
  lemma {:induction false} SecondHalfUnique(c: Params, tagged: TaggedHash, msg: seq<Byte>, pubkey: seq<Byte>,
                                            sig: seq<Byte>, sig': seq<Byte>)
    requires Sound(c)
    requires Verify(c, tagged, msg, pubkey, sig) == Checked(true)
    requires Verify(c, tagged, msg, pubkey, sig') == Checked(true)
    requires sig[..32] == sig'[..32]
    ensures sig == sig'
  {
    var s, e, pub, a := Accepted(c, tagged, msg, pubkey, sig);
    var s', e', pub', b := Accepted(c, tagged, msg, pubkey, sig');
    SameResponse(c, s, s', e, FromBytes(pubkey), a, b);
    SameHalves(sig, sig');
  }

  lemma {:induction false} SameHalves(sig: seq<Byte>, sig': seq<Byte>)
    requires |sig| == |sig'| == 64 && sig[..32] == sig'[..32]
    requires FromBytes(sig[32..64]) == FromBytes(sig'[32..64])
    ensures sig == sig'
  {
    BytesInjective(sig[32..64], sig'[32..64]);
    assert sig == sig[..32] + sig[32..64] && sig' == sig'[..32] + sig'[32..64];
  }

  // --- what verify accepts ---

  /** The point verify recomputes is r exactly when r + e P = s G + n P. */
  lemma {:induction false} VerifyPointExact(c: Params, pub: Point, s: nat, e: nat, r: Point)
    requires Sound(c) && c.group.on(pub) && c.group.on(r) && s < c.n && e < c.n
    ensures c.group.on(c.group.add(Mul(c.group, c.g, s), Mul(c.group, pub, c.n - e)))
    ensures r == c.group.add(Mul(c.group, c.g, s), Mul(c.group, pub, c.n - e))
       <==> c.group.add(r, Times(c.group, e, pub)) == c.group.add(Times(c.group, s, c.g), Times(c.group, c.n, pub))
  {
    ScalarPoint(c, s, c.g);
    ScalarPoint(c, c.n - e, pub);
    TimesOn(c.group, e, pub);
    TimesAdd(c.group, c.n - e, e, pub);
    var a, b, x := Times(c.group, s, c.g), Times(c.group, c.n - e, pub), Times(c.group, e, pub);
    assert Associates(c.group, a, b, x);
    if c.group.add(r, x) == c.group.add(c.group.add(a, b), x) {
      CancelPoint(c, r, c.group.add(a, b), x);
    }
  }

  /** r is a point that verify can meet for a signature and a challenge e. */
  ghost predicate Witnesses(c: Params, pub: Point, s: nat, e: nat, x: nat, r: Point) {
    && c.group.on(r) && r.Affine? && r.y % 2 == 0 && r.x == x
    && c.group.add(r, Times(c.group, e, pub)) == c.group.add(Times(c.group, s, c.g), Times(c.group, c.n, pub))
  }

  /** The run of verify once the values it computes are known. */
  lemma {:induction false} VerifyRun(c: Params, tagged: TaggedHash, msg: seq<Byte>, pubkey: seq<Byte>, sig: seq<Byte>,
                                     e: nat, rp: Point)
    requires c.n > 0 && |pubkey| == 32 && |sig| == 64
    requires e == FromBytes(tagged("BIP0340/challenge", sig[..32] + pubkey + msg)) % c.n
    requires rp == c.group.add(Mul(c.group, c.g, FromBytes(sig[32..])),
                               Mul(c.group, c.lift(FromBytes(pubkey)), c.n - e))
    ensures Verify(c, tagged, msg, pubkey, sig) == Checked(true) <==>
      && c.lift(FromBytes(pubkey)).Affine? && FromBytes(sig[..32]) < c.p && FromBytes(sig[32..]) < c.n
      && rp.Affine? && rp.y % 2 == 0 && rp.x == FromBytes(sig[..32])
  {
    assert sig[0..32] == sig[..32] && sig[32..64] == sig[32..];
    assert e == Challenge(c, tagged, sig[..32], pubkey, msg);
  }

  lemma {:induction false} WitnessIsThePoint(c: Params, pub: Point, s: nat, e: nat, x: nat)
    requires Sound(c) && c.group.on(pub) && s < c.n && e < c.n
    ensures var rp := c.group.add(Mul(c.group, c.g, s), Mul(c.group, pub, c.n - e));
      (exists r :: Witnesses(c, pub, s, e, x, r)) <==> rp.Affine? && rp.y % 2 == 0 && rp.x == x
  {
    var rp := c.group.add(Mul(c.group, c.g, s), Mul(c.group, pub, c.n - e));
    VerifyPointExact(c, pub, s, e, c.g);
    VerifyPointExact(c, pub, s, e, rp);
    if rp.Affine? && rp.y % 2 == 0 && rp.x == x {
      assert Witnesses(c, pub, s, e, x, rp);
    }
    if r :| Witnesses(c, pub, s, e, x, r) {
      VerifyPointExact(c, pub, s, e, r);
    }
  }

  /** verify reports its two argument errors exactly on them, and accepts exactly the signatures
      whose first half is the x of a point R with even y and R + e P = s G + n P, for the
      challenge e of first half, key and message. */
  lemma {:induction false} VerifyExact(c: Params, tagged: TaggedHash, msg: seq<Byte>, pubkey: seq<Byte>, sig: seq<Byte>)
    requires Sound(c)
    ensures Verify(c, tagged, msg, pubkey, sig).BadPublicKey? <==> |pubkey| != 32
    ensures Verify(c, tagged, msg, pubkey, sig).BadSignatureLength? <==> |pubkey| == 32 && |sig| != 64
    ensures Verify(c, tagged, msg, pubkey, sig) == Checked(true) <==>
      && |pubkey| == 32 && |sig| == 64
      && c.lift(FromBytes(pubkey)).Affine?
      && FromBytes(sig[..32]) < c.p && FromBytes(sig[32..]) < c.n
      && var e := FromBytes(tagged("BIP0340/challenge", sig[..32] + pubkey + msg)) % c.n;
      exists r :: Witnesses(c, c.lift(FromBytes(pubkey)), FromBytes(sig[32..]), e, FromBytes(sig[..32]), r)
  {
    if |pubkey| == 32 && |sig| == 64 {
      var pub, s := c.lift(FromBytes(pubkey)), FromBytes(sig[32..]);
      var e := FromBytes(tagged("BIP0340/challenge", sig[..32] + pubkey + msg)) % c.n;
      VerifyRun(c, tagged, msg, pubkey, sig, e, c.group.add(Mul(c.group, c.g, s), Mul(c.group, pub, c.n - e)));
      if s < c.n {
        WitnessIsThePoint(c, pub, s, e, FromBytes(sig[..32]));
      }
    }
  }

  lemma {:induction false} CancelLeft(c: Params, x: Point, a: Point, b: Point)
    requires Sound(c) && c.group.on(a) && c.group.on(b) && c.group.on(x)
    requires c.group.add(x, a) == c.group.add(x, b)
    ensures a == b
  {
    var y := Negate(x, c.p);
    var z := Negate(y, c.p);
    assert Associates(c.group, x, y, z);
    assert x == z;
    assert Associates(c.group, y, x, a) && Associates(c.group, y, x, b);
  }

  /** For an accepted signature that equation is R + e P = s G exactly when n P is the identity. */
  lemma {:induction false} StandardIffOrder(c: Params, pub: Point, s: nat, e: nat, x: nat, r: Point)
    requires Sound(c) && c.group.on(pub) && Witnesses(c, pub, s, e, x, r)
    ensures Standard(c, pub, s, e, x, r) <==> Times(c.group, c.n, pub) == Infinity
  {
    var a, m := Times(c.group, s, c.g), Times(c.group, c.n, pub);
    TimesOn(c.group, s, c.g);
    TimesOn(c.group, c.n, pub);
    if c.group.add(a, m) == a {
      CancelLeft(c, a, m, Infinity);
    }
  }

  /** The equation of BIP-340, R + e P = s G, for a key P whose n-fold sum is the identity. */
  lemma {:induction false} VerifyStandard(c: Params, tagged: TaggedHash, msg: seq<Byte>, pubkey: seq<Byte>,
                                          sig: seq<Byte>)
    requires Sound(c) && |pubkey| == 32
    requires Times(c.group, c.n, c.lift(FromBytes(pubkey))) == Infinity
    ensures Verify(c, tagged, msg, pubkey, sig) == Checked(true) <==>
      && |sig| == 64 && c.lift(FromBytes(pubkey)).Affine?
      && FromBytes(sig[..32]) < c.p && FromBytes(sig[32..]) < c.n
      && var e := FromBytes(tagged("BIP0340/challenge", sig[..32] + pubkey + msg)) % c.n;
      exists r :: Standard(c, c.lift(FromBytes(pubkey)), FromBytes(sig[32..]), e, FromBytes(sig[..32]), r)
  {
    VerifyExact(c, tagged, msg, pubkey, sig);
    if |sig| == 64 {
      var pub, s, x := c.lift(FromBytes(pubkey)), FromBytes(sig[32..]), FromBytes(sig[..32]);
      var e := FromBytes(tagged("BIP0340/challenge", sig[..32] + pubkey + msg)) % c.n;
      forall r ensures Witnesses(c, pub, s, e, x, r) <==> Standard(c, pub, s, e, x, r) {
      }
    }
  }

  ghost predicate Standard(c: Params, pub: Point, s: nat, e: nat, x: nat, r: Point) {
    && c.group.on(r) && r.Affine? && r.y % 2 == 0 && r.x == x
    && c.group.add(r, Times(c.group, e, pub)) == Times(c.group, s, c.g)
  }

  /** Every generated key is such a key. */
  lemma {:induction false} GeneratedKeyOrder(c: Params, seckey: seq<Byte>)
    requires Sound(c) && PubkeyGen(c, seckey).PublicKey?
    ensures var pub := c.lift(FromBytes(PubkeyGen(c, seckey).bytes));
      pub.Affine? && Times(c.group, c.n, pub) == Infinity
  {
    var d0 := FromBytes(seckey);
    var d := EvenScalar(c, d0, Times(c.group, d0, c.g));
    ScalarPoint(c, d0, c.g);
    EvenScalarPoint(c, d0);
    XRoundTrip(c, d);
    TimesTimes(c.group, c.n, d, c.g);
    MultiplesVanish(c, d);
    assert c.n * d == d * c.n;
  }
}
