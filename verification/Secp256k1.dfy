/** BIP-340 over the curve of the source: what is known of secp256k1, and the
    results of Schnorr for it (kips/kip-0005/reference.py). */
module Secp256k1 {
  import Types
  import Primes
  import opened Curve
  import ScalarMul
  import opened Schnorr

  const P: nat := 0xFFFFFFFFFFFFFFFFFFFFFFFFFFFFFFFFFFFFFFFFFFFFFFFFFFFFFFFEFFFFFC2F
  const N: nat := 0xFFFFFFFFFFFFFFFFFFFFFFFFFFFFFFFEBAAEDCE6AF48A03BBFD25E8CD0364141
  const G: Point := Affine(0x79BE667EF9DCBBAC55A06295CE870B07029BFCDB2DCE28D959F2815B16F81798,
                           0x483ADA7726A3C4655DA4FBFC0E1108A8FD17B448A68554199C47D08FFB10D4B8)

  function CurveGroup(p: Modulus): ScalarMul.Group<Point> {
    ScalarMul.Group(a => OnCurve(a, p), (a, b) => PointAdd(a, b, p), Infinity)
  }

  /** The module-level functions of the source, as the interface signing uses. */
  function OverCurve(p: Modulus, n: nat, g: Point): Params {
    Params(p, n, g, CurveGroup(p), (x: nat) => LiftX(x, p))
  }

  /** Associativity of point_add at three points of the curve. */
  ghost predicate AssociatesAt(a: Point, b: Point, c: Point, p: Modulus) {
    OnCurve(a, p) && OnCurve(b, p) && OnCurve(c, p) ==>
      PointAdd(PointAdd(a, b, p), c, p) == PointAdd(a, PointAdd(b, c, p), p)
  }

  /** The group law, and that the group has no point of order two. */
  ghost predicate GroupLaw(p: Modulus) {
    && (forall a :: OnCurve(a, p) ==> !HalfPoint(a))
    && (forall a, b, c :: AssociatesAt(a, b, c, p))
  }

  lemma {:induction false} CurveLaws(p: Modulus)
    requires Primes.IsPrime(p) && 63 % p != 0 && GroupLaw(p)
    ensures ScalarMul.Laws(CurveGroup(p))
  {
    var group := CurveGroup(p);
    forall a, b {:trigger group.add(a, b)} | group.on(a) && group.on(b)
      ensures group.on(group.add(a, b))
    {
      AddClosed(a, b, p);
    }
    forall a, b, c ensures ScalarMul.Associates(group, a, b, c) {
      assert AssociatesAt(a, b, c, p);
    }
  }

  lemma {:induction false} PairFacts(p: Modulus, a: Point, b: Point)
    requires Primes.IsPrime(p) && OnCurve(a, p) && OnCurve(b, p)
    ensures SameXOpposite(a, b)
    ensures PointAdd(a, b, p) == Infinity ==> Opposites(a, b)
  {
    if a.Affine? && b.Affine? && a.x == b.x {
      SameX(a, b, p);
    }
  }

  lemma {:induction false} Negation(p: Modulus, a: Point)
    requires Primes.IsPrime(p) && OnCurve(a, p) && !HalfPoint(a)
    ensures OnCurve(Negate(a, p), p) && PointAdd(a, Negate(a, p), p) == Infinity
  {
    if a.Affine? {
      OppositeSolves(a.x, a.y, p);
      OneIsEven(a.y, p - a.y, p);
    }
  }

  /** Every curve with these known properties meets what correctness needs. */
  lemma {:induction false} CurveIsSound(p: Modulus, n: nat, g: Point)
    requires Primes.IsPrime(p) && p % 4 == 3 && 63 % p != 0 && GroupLaw(p)
    requires Generates(OverCurve(p, n, g)) && p <= Types.U256 && n < Types.U256
    ensures Sound(OverCurve(p, n, g))
  {
    var c := OverCurve(p, n, g);
    var group := c.group;
    CurveLaws(p);
    forall a, b | group.on(a) && group.on(b)
      ensures SameXOpposite(a, b)
      ensures group.add(a, b) == Infinity ==> Opposites(a, b)
    {
      PairFacts(p, a, b);
    }
    forall a {:trigger Negate(a, p)} | group.on(a)
      ensures group.on(Negate(a, p)) && group.add(a, Negate(a, p)) == Infinity
    {
      Negation(p, a);
    }
    forall a | group.on(a) && a.Affine? && a.y % 2 == 0 ensures c.lift(a.x) == a {
      LiftXOfPoint(a, p);
    }
    forall x ensures group.on(c.lift(x)) {
      LiftXExact(x, p);
    }
  }

  /** The parts of those properties that are arithmetic on the constants. */
  lemma {:induction false} Constants()
    ensures P == Types.U256 - Types.U32 - 977 && N == Types.U256 - 0x14551231950B75FC4402DA1732FC9BEBF
    ensures P % 4 == 3 && 63 % P != 0 && P <= Types.U256
    ensures 1 < N < Types.U256
    ensures OnCurve(G, P) && G.y % 2 == 0
  {
  }

  /** The result for secp256k1. Taken as known: P is prime, point addition is the
      group law, and G has order N. */
  lemma {:induction false} Secp256k1SignVerifies(tagged: TaggedHash, msg: seq<Byte>, seckey: seq<Byte>, aux: seq<Byte>)
    requires Primes.IsPrime(P) && GroupLaw(P) && Generates(OverCurve(P, N, G))
    requires 1 <= FromBytes(seckey) <= N - 1 && |aux| == 32
    ensures
      var c := OverCurve(P, N, G);
      var d0, r := FromBytes(seckey), Sign(c, tagged, msg, seckey, aux);
      var pub := ScalarMul.Times(c.group, d0, c.g);
      && PubkeyGen(c, seckey).PublicKey? && pub.Affine?
      && (r.ZeroNonce? <==> Nonce(c, tagged, msg, EvenScalar(c, d0, pub), pub.x, aux) == 0)
      && (!r.ZeroNonce? ==>
            r.Signature? && Verify(c, tagged, msg, PubkeyGen(c, seckey).bytes, r.sig) == Checked(true))
  {
    Constants();
    CurveIsSound(P, N, G);
    SignVerifies(OverCurve(P, N, G), tagged, msg, seckey, aux);
  }

  /** The point of the curve with that x and an even y. */
  predicate EvenPoint(a: Point, x: int, p: Modulus) {
    OnCurve(a, p) && a.Affine? && a.x == x && a.y % 2 == 0
  }

  lemma {:induction false} LiftIsEvenPoint(x: nat, a: Point, p: Modulus)
    requires Primes.IsPrime(p) && p % 4 == 3
    ensures EvenPoint(a, x, p) <==> a == LiftX(x, p) && a.Affine?
  {
    LiftXExact(x, p);
    if EvenPoint(a, x, p) {
      LiftXOfPoint(a, p);
    }
  }

  /** r + e P = s G for an x-only key, the way BIP-340 states it. */
  ghost predicate Equation(c: Params, px: nat, rx: nat, s: nat, e: nat, pub: Point, r: Point) {
    && EvenPoint(pub, px, c.p) && EvenPoint(r, rx, c.p)
    && c.group.add(r, ScalarMul.Times(c.group, e, pub)) == ScalarMul.Times(c.group, s, c.g)
  }

  /** verify over a curve whose points all have an order dividing n accepts exactly the 64-byte
      signatures whose halves are the x of an even point R and an s below n with
      R + e P = s G, where P is the even point of the 32-byte key. */
  lemma {:induction false} VerifiesIff(p: Modulus, n: nat, g: Point, tagged: TaggedHash, msg: seq<Byte>,
                                       pubkey: seq<Byte>, sig: seq<Byte>)
    requires Primes.IsPrime(p) && p % 4 == 3 && 63 % p != 0 && GroupLaw(p) && p <= Types.U256 && n < Types.U256
    requires Generates(OverCurve(p, n, g))
    requires forall a :: OnCurve(a, p) ==> ScalarMul.Times(CurveGroup(p), n, a) == Infinity
    ensures Verify(OverCurve(p, n, g), tagged, msg, pubkey, sig) == Checked(true) <==>
      && |pubkey| == 32 && |sig| == 64 && FromBytes(sig[32..]) < n
      && var e := FromBytes(tagged("BIP0340/challenge", sig[..32] + pubkey + msg)) % n;
      exists pub, r ::
        Equation(OverCurve(p, n, g), FromBytes(pubkey), FromBytes(sig[..32]), FromBytes(sig[32..]), e, pub, r)
  {
    var c := OverCurve(p, n, g);
    CurveIsSound(p, n, g);
    VerifyExact(c, tagged, msg, pubkey, sig);
    if |pubkey| == 32 && |sig| == 64 {
      var pub := LiftX(FromBytes(pubkey), p);
      LiftXExact(FromBytes(pubkey), p);
      VerifyStandard(c, tagged, msg, pubkey, sig);
      EquationIff(p, n, g, FromBytes(pubkey), FromBytes(sig[..32]), FromBytes(sig[32..]),
                  FromBytes(tagged("BIP0340/challenge", sig[..32] + pubkey + msg)) % n);
    }
  }

  lemma {:induction false} EquationIff(p: Modulus, n: nat, g: Point, px: nat, rx: nat, s: nat, e: nat)
    requires Primes.IsPrime(p) && p % 4 == 3
    ensures var c, pub := OverCurve(p, n, g), LiftX(px, p);
      (exists pub', r :: Equation(c, px, rx, s, e, pub', r))
        <==> pub.Affine? && rx < p && exists r :: Standard(c, pub, s, e, rx, r)
  {
    var c, pub := OverCurve(p, n, g), LiftX(px, p);
    LiftIsEvenPoint(px, pub, p);
    if pub', r :| Equation(c, px, rx, s, e, pub', r) {
      LiftIsEvenPoint(px, pub', p);
      assert Standard(c, pub, s, e, rx, r);
    }
    if pub.Affine? {
      if r :| Standard(c, pub, s, e, rx, r) {
        assert Equation(c, px, rx, s, e, pub, r);
      }
    }
  }
}
