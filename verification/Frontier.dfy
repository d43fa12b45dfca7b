/** The round frontier: what current_round is after every pass of the loop
    (calf/src/primary/dag_processor.rs). */
module Frontier {
  import Collections
  import opened Types
  import Committee
  import Dag
  import opened DagProcessor

  function Quorum(env: Env): nat {
    Committee.QuorumThreshold(env.authorities)
  }

  /** Rounds 1 to round - 1 are complete, round is not, nothing is above it, and the
      height is round or one less. */
  ghost predicate AtFrontier(env: Env, s: Proc) {
    && s.round >= 1
    && (forall l: nat :: 1 <= l < s.round ==> s.dag.LayerSize(l) >= Quorum(env))
    && s.dag.LayerSize(s.round) < Quorum(env)
    && (forall l: nat :: l > s.round ==> s.dag.Layer(l) == {})
    && s.dag.Layer(0) != {}
    && s.dag.height == if s.dag.Layer(s.round) == {} then s.round - 1 else s.round
  }

  /** The parent list of the certificate names no parent twice. */
  predicate DistinctParents(c: Certificate) {
    c.Derived? ==> Collections.NoRepeats(c.parentList)
  }

  lemma {:induction false} AdmittedLayer(env: Env, s: Proc, e: Event)
    requires Accepts(env, s, e)
    ensures e.cert.Derived?
    ensures e.cert.Round() >= 1 ==> e.cert.Parents() <= s.dag.Layer(e.cert.Round() - 1)
    ensures e.cert.Round() >= 2 ==> e.cert.Parents() != {}
    ensures e.cert.Round() >= 2 && DistinctParents(e.cert) ==>
      s.dag.LayerSize(e.cert.Round() - 1) >= |e.cert.Parents()| >= Quorum(env)
  {
    var c := e.cert;
    if c.Round() >= 2 {
      assert c.parentList[0] in c.Parents();
      Collections.SubsetSize(c.Parents(), s.dag.Layer(c.Round() - 1));
      if DistinctParents(c) {
        Collections.NoRepeatsSize(c.parentList);
      }
    }
  }

  /** What one insertion does to the layers. */
  lemma {:induction false} InsertedLayers(s: Dag.State<Certificate>, v: Dag.Vertex<Certificate>)
    ensures forall l: nat :: s.Insert(v).Layer(l) == if l == v.layer then s.Layer(l) + {v.id} else s.Layer(l)
    ensures forall l: nat :: s.Layer(l) <= s.Insert(v).Layer(l)
    ensures forall l: nat :: s.LayerSize(l) <= s.Insert(v).LayerSize(l)
    ensures s.Insert(v).LayerSize(v.layer) <= s.LayerSize(v.layer) + 1
    ensures s.Insert(v).Layer(v.layer) != {}
  {
    forall l: nat ensures s.LayerSize(l) <= s.Insert(v).LayerSize(l) {
      Collections.SubsetSize(s.Layer(l), s.Insert(v).Layer(l));
    }
    assert v.id in s.Insert(v).Layer(v.layer);
  }

  lemma {:induction false} AcceptWithinKeeps(env: Env, s: Proc, e: Event)
    requires AtFrontier(env, s) && Accepts(env, s, e) && e.cert.Round() <= s.round
    ensures AtFrontier(env, Step(env, s, e))
  {
    InsertedLayers(s.dag, VertexOf(env, e.cert));
    var t := Admit(env, s, e);
    assert t.dag == s.dag.Insert(VertexOf(env, e.cert)) && t.round == s.round;
    assert t.dag.LayerSize(s.round) <= s.dag.LayerSize(s.round) + 1;
    assert t.dag.Layer(s.round + 1) == {};
    assert t.dag.height == if t.dag.Layer(s.round) == {} then s.round - 1 else s.round;
  }

  /** An accepted certificate keeps the frontier exactly when its round is not past
      the current one. */
  lemma {:induction false} AcceptKeepsFrontierIff(env: Env, s: Proc, e: Event)
    requires AtFrontier(env, s) && Accepts(env, s, e)
    ensures AtFrontier(env, Step(env, s, e)) <==> e.cert.Round() <= s.round
  {
    if e.cert.Round() <= s.round {
      AcceptWithinKeeps(env, s, e);
    }
  }

  /** Distinct parents are enough for that. */
  lemma {:induction false} AcceptedNotPastFrontier(env: Env, s: Proc, e: Event)
    requires AtFrontier(env, s) && Accepts(env, s, e) && DistinctParents(e.cert)
    ensures e.cert.Round() <= s.round
  {
    AdmittedLayer(env, s, e);
  }

  lemma {:induction false} StepWithinKeeps(env: Env, s: Proc, e: Event)
    requires AtFrontier(env, s) && (Accepts(env, s, e) ==> e.cert.Round() <= s.round)
    ensures AtFrontier(env, Step(env, s, e))
  {
    if Accepts(env, s, e) {
      AcceptKeepsFrontierIff(env, s, e);
    }
  }

  lemma {:induction false} StepKeepsFrontier(env: Env, s: Proc, e: Event)
    requires AtFrontier(env, s) && DistinctParents(e.cert)
    ensures AtFrontier(env, Step(env, s, e))
  {
    if Accepts(env, s, e) {
      AcceptedNotPastFrontier(env, s, e);
    }
    StepWithinKeeps(env, s, e);
  }

  /** The state before event k of a run. */
  ghost function Before(env: Env, events: seq<Event>, k: nat): Proc
    requires k <= |events|
  {
    Run(env, events[..k])
  }

  lemma {:induction false} BeforeNext(env: Env, events: seq<Event>, k: nat)
    requires k < |events|
    ensures Before(env, events, k + 1) == Step(env, Before(env, events, k), events[k])
  {
    assert events[..k + 1][..k] == events[..k];
  }

  /** Event k is not accepted, or its round is at most the current one. */
  ghost predicate WithinRound(env: Env, events: seq<Event>, k: nat)
    requires k < |events|
  {
    Accepts(env, Before(env, events, k), events[k]) ==> events[k].cert.Round() <= Before(env, events, k).round
  }

  lemma {:induction false} WithinRoundsAtFrontier(env: Env, events: seq<Event>, k: nat)
    requires k <= |events| && forall j :: 0 <= j < k ==> WithinRound(env, events, j)
    ensures AtFrontier(env, Before(env, events, k))
  {
    if k == 0 {
    } else {
      WithinRoundsAtFrontier(env, events, k - 1);
      BeforeNext(env, events, k - 1);
      assert WithinRound(env, events, k - 1);
      StepWithinKeeps(env, Before(env, events, k - 1), events[k - 1]);
    }
  }

  /** A run is at the frontier all along exactly when no certificate is accepted whose
      round is past the current one at that moment. */
  lemma {:induction false} RunAtFrontierIff(env: Env, events: seq<Event>)
    ensures (forall k :: 0 <= k <= |events| ==> AtFrontier(env, Before(env, events, k)))
       <==> (forall k :: 0 <= k < |events| ==> WithinRound(env, events, k))
  {
    if forall k :: 0 <= k < |events| ==> WithinRound(env, events, k) {
      forall k | 0 <= k <= |events| ensures AtFrontier(env, Before(env, events, k)) {
        WithinRoundsAtFrontier(env, events, k);
      }
    }
    if forall k :: 0 <= k <= |events| ==> AtFrontier(env, Before(env, events, k)) {
      forall k | 0 <= k < |events| ensures WithinRound(env, events, k) {
        BeforeNext(env, events, k);
        assert AtFrontier(env, Before(env, events, k + 1));
        if Accepts(env, Before(env, events, k), events[k]) {
          AcceptKeepsFrontierIff(env, Before(env, events, k), events[k]);
        }
      }
    }
  }

  /** The certificates that a run accepts name no parent twice. */
  ghost predicate AcceptedDistinct(env: Env, events: seq<Event>) {
    forall k :: 0 <= k < |events| && Accepts(env, Before(env, events, k), events[k]) ==> DistinctParents(events[k].cert)
  }

  lemma {:induction false} DistinctWithinRounds(env: Env, events: seq<Event>, k: nat)
    requires k <= |events| && AcceptedDistinct(env, events)
    ensures forall j :: 0 <= j < k ==> WithinRound(env, events, j)
  {
    if k > 0 {
      DistinctWithinRounds(env, events, k - 1);
      WithinRoundsAtFrontier(env, events, k - 1);
      if Accepts(env, Before(env, events, k - 1), events[k - 1]) {
        AcceptedNotPastFrontier(env, Before(env, events, k - 1), events[k - 1]);
      }
    }
  }

  /** After every pass of every run, current_round is the least round >= 1 with fewer
      than a quorum of certificates, and everything above it is empty. */
  lemma {:induction false} RoundFrontier(env: Env, events: seq<Event>, k: nat)
    requires k <= |events| && AcceptedDistinct(env, events)
    ensures
      var s := Before(env, events, k);
      AtFrontier(env, s) && forall l: nat :: l >= 1 && s.dag.LayerSize(l) < Quorum(env) ==> l >= s.round
  {
    DistinctWithinRounds(env, events, k);
    WithinRoundsAtFrontier(env, events, k);
  }

  /** Without distinct parents it fails: with four authorities, one certificate of
      round 1 named three times as a parent lets a peer's round 2 certificate in while
      round 1 is still short of its quorum of 3. Both carry a quorum of valid votes. */
  lemma {:induction false} RepeatedParentPassesFrontier(env: Env, first: Certificate, second: Certificate, v: Vote)
    requires env.authorities == 4 && env.verify(v, 0).Valid?
    requires first == Derived(1, 1, [v, v, v], 0, [0]) && second == Derived(2, 2, [v, v, v], 0, [7, 7, 7])
    requires env.digest(GENESIS) == 0 && env.digest(first) == 7 && env.digest(second) == 8
    ensures
      var s := Run(env, [Peer(first, 1), Peer(second, 2)]);
      s.round == 1 && s.dag.Layer(2) == {8} && s.dag.LayerSize(1) == 1 && !AtFrontier(env, s)
  {
    var one, two := Peer(first, 1), Peer(second, 2);
    FirstStep(env, first, v);
    var s1, vertex := Step(env, Init(env), one), VertexOf(env, second);
    SameParents(second, 7);
    FirstInLayer(s1.dag, vertex);
    assert Accepts(env, s1, two);
    assert [one, two][..1] == [one] && [one][..0] == [];
    assert Run(env, [one]) == s1;
    assert Run(env, [one, two]) == Step(env, s1, two);
  }

  lemma {:induction false} SameParents(c: Certificate, parent: Digest)
    requires c.Derived? && c.parentList != [] && forall p :: p in c.parentList ==> p == parent
    ensures c.Parents() == {parent}
  {
    assert c.parentList[0] in c.Parents();
  }

  lemma {:induction false} FirstStep(env: Env, first: Certificate, v: Vote)
    requires env.authorities == 4 && env.verify(v, 0).Valid? && first == Derived(1, 1, [v, v, v], 0, [0])
    requires env.digest(GENESIS) == 0 && env.digest(first) == 7
    ensures
      var s := Step(env, Init(env), Peer(first, 1));
      s.dag.layers == map[0 := {0}, 1 := {7}] && s.dag.height == 1 && s.round == 1
  {
    var s0, vertex := Init(env), VertexOf(env, first);
    assert Dag.Empty<Certificate>(0).Layer(0) + {0} == {0};
    assert s0.dag.layers == map[0 := {0}];
    SameParents(first, 0);
    FirstInLayer(s0.dag, vertex);
    assert Accepts(env, s0, Peer(first, 1));
  }

  lemma {:induction false} FirstInLayer(s: Dag.State<Certificate>, v: Dag.Vertex<Certificate>)
    requires s.Layer(v.layer) == {}
    ensures s.Insert(v).layers == s.layers[v.layer := {v.id}]
  {
    assert {} + {v.id} == {v.id};
  }
}
