/** The quorum threshold of a committee (calf/src/settings/parser.rs). */
module Committee {
  import Collections
  import opened Types

  /** quorum_threshold for n authorities; the cast to u32 cuts off high bits. */
  function QuorumThreshold(n: nat): nat {
    if n == 2 then 2 else ((n / 3) * 2 + 1) % U32
  }

  /** The largest number of faulty authorities the protocol is meant to bear. */
  function MaxFaulty(n: nat): nat
    requires n > 0
  {
    (n - 1) / 3
  }

  /** The threshold: two for a committee of two, and otherwise the one odd number next to two
      thirds of the committee, of which the cast keeps the low 32 bits. */
  lemma {:induction false} ThresholdExact(n: nat) returns (u: nat)
    ensures n == 2 ==> QuorumThreshold(n) == 2
    ensures n != 2 ==>
      && u % 2 == 1 && 2 * n - 1 <= 3 * u <= 2 * n + 3
      && QuorumThreshold(n) == u % 0x1_0000_0000
      && forall v :: v % 2 == 1 && 2 * n - 1 <= 3 * v <= 2 * n + 3 ==> v == u
  {
    u := (n / 3) * 2 + 1;
  }

  /** The threshold is a majority exactly while the cast to u32 loses nothing. */
  lemma {:induction false} MajorityIffNoTruncation(n: nat)
    requires n >= 1
    ensures 1 <= QuorumThreshold(n) <= n
    ensures 2 * QuorumThreshold(n) > n <==> n < 3 * (U32 / 2)
  {
  }

  /** The authorities outside any set of at most f faulty ones suffice for a quorum. */
  lemma {:induction false} QuorumReachable(n: nat, authorities: set<PeerId>, faulty: set<PeerId>)
    requires n >= 1 && |authorities| == n
    requires faulty <= authorities && |faulty| <= MaxFaulty(n)
    ensures |authorities - faulty| >= QuorumThreshold(n)
  {
    assert authorities == (authorities - faulty) + faulty;
  }

  /** Any two quorums of the same committee share at least 2q - n members. */
  lemma {:induction false} QuorumsOverlap(authorities: set<PeerId>, a: set<PeerId>, b: set<PeerId>)
    requires a <= authorities && b <= authorities
    requires |a| >= QuorumThreshold(|authorities|) && |b| >= QuorumThreshold(|authorities|)
    ensures |a * b| >= 2 * QuorumThreshold(|authorities|) - |authorities|
  {
    Collections.Overlap(a, b, authorities);
  }

  /** Every two quorums share an authority outside every set of at most f. */
  ghost predicate HonestOverlap(authorities: set<PeerId>)
    requires authorities != {}
  {
    forall a, b, faulty ::
      (IsQuorum(a, authorities) && IsQuorum(b, authorities) && Tolerated(faulty, authorities)) ==>
        !(a * b <= faulty)
  }

  ghost predicate Tolerated(faulty: set<PeerId>, authorities: set<PeerId>)
    requires authorities != {}
  {
    faulty <= authorities && |faulty| <= MaxFaulty(|authorities|)
  }

  ghost predicate IsQuorum(a: set<PeerId>, authorities: set<PeerId>) {
    a <= authorities && |a| >= QuorumThreshold(|authorities|)
  }

  lemma {:induction false} Choose(k: nat, from: set<PeerId>) returns (a: set<PeerId>)
    requires k <= |from|
    ensures a <= from && |a| == k
  {
    if k == 0 {
      a := {};
    } else {
      var x :| x in from;
      a := Choose(k - 1, from - {x});
      a := a + {x};
    }
  }

  /** Two quorums that share no more members than they must. */
  lemma {:induction false} LeastOverlap(authorities: set<PeerId>) returns (a: set<PeerId>, b: set<PeerId>)
    requires authorities != {}
    ensures IsQuorum(a, authorities) && IsQuorum(b, authorities)
    ensures var d := 2 * QuorumThreshold(|authorities|) - |authorities|; |a * b| == if d > 0 then d else 0
  {
    var n := |authorities|;
    var q := QuorumThreshold(n);
    MajorityIffNoTruncation(n);
    a := Choose(q, authorities);
    var rest := authorities - a;
    assert authorities == a + rest;
    if 2 * q <= n {
      b := Choose(q, rest);
      assert a * b == {};
    } else {
      var shared := Choose(2 * q - n, a);
      b := rest + shared;
      assert a * b == shared;
    }
  }

  /** The threshold protects against f faulty authorities exactly for these sizes:
      with n = 5, 8, 11, ... two quorums may meet in faulty authorities only. */
  lemma {:induction false} HonestOverlapIff(authorities: set<PeerId>)
    requires authorities != {}
    ensures var n := |authorities|;
      HonestOverlap(authorities) <==> n < 3 * (U32 / 2) && (n % 3 != 2 || n == 2)
  {
    var n := |authorities|;
    var q := QuorumThreshold(n);
    MajorityIffNoTruncation(n);
    if n < 3 * (U32 / 2) && (n % 3 != 2 || n == 2) {
      assert 2 * q - n > MaxFaulty(n);
      forall a, b, faulty | IsQuorum(a, authorities) && IsQuorum(b, authorities) && Tolerated(faulty, authorities)
        ensures !(a * b <= faulty)
      {
        QuorumsOverlap(authorities, a, b);
        if a * b <= faulty {
          Collections.SubsetSize(a * b, faulty);
        }
      }
    } else {
      var a, b := LeastOverlap(authorities);
      assert Tolerated(a * b, authorities);
    }
  }

  /** Some quorum has no member in `silent`. */
  ghost predicate Avoidable(silent: set<PeerId>, authorities: set<PeerId>) {
    exists a :: IsQuorum(a, authorities) && a * silent == {}
  }

  lemma {:induction false} AvoidableIff(silent: set<PeerId>, authorities: set<PeerId>)
    requires silent <= authorities
    ensures Avoidable(silent, authorities) <==> |silent| <= |authorities| - QuorumThreshold(|authorities|)
  {
    var others := authorities - silent;
    assert authorities == others + silent;
    if a :| IsQuorum(a, authorities) && a * silent == {} {
      assert a <= others;
      Collections.SubsetSize(a, others);
    }
    if |others| >= QuorumThreshold(|authorities|) {
      assert IsQuorum(others, authorities) && others * silent == {};
    }
  }

  /** Every f + 1 members can stop the protocol by their silence. */
  ghost predicate AnyBlock(authorities: set<PeerId>)
    requires authorities != {}
  {
    forall silent :: silent <= authorities && |silent| == MaxFaulty(|authorities|) + 1 ==>
      !Avoidable(silent, authorities)
  }

  /** One more silent member than the tolerated f stops every quorum exactly for the sizes for
      which any two quorums share an honest member; with n = 5, 8, 11, ... none does. */
  lemma {:induction false} AnyBlockIff(authorities: set<PeerId>)
    requires authorities != {}
    ensures var n := |authorities|; AnyBlock(authorities) <==> n < 3 * (U32 / 2) && (n % 3 != 2 || n == 2)
  {
    var n := |authorities|;
    var some := Choose(MaxFaulty(n) + 1, authorities);
    forall silent | silent <= authorities && |silent| == MaxFaulty(n) + 1
      ensures Avoidable(silent, authorities) <==> MaxFaulty(n) + 1 <= n - QuorumThreshold(n)
    {
      AvoidableIff(silent, authorities);
    }
  }
}
