/** What every DAG the processor can reach holds, and who is an ancestor of whom in it
    (calf/src/primary/dag_processor.rs, calf/src/types/dag.rs). */
module Causality {
  import Collections
  import opened Types
  import Committee
  import opened Dag
  import opened DagIndex
  import opened DagProcessor
  import opened Frontier

  /** The certificates a run can store: genesis and the derived ones it is sent. */
  ghost function Seen(events: seq<Event>): set<Certificate> {
    {GENESIS} + set e | e in events && e.cert.Derived? :: e.cert
  }

  ghost predicate CollisionFree(env: Env, certs: set<Certificate>) {
    forall a, b :: a in certs && b in certs && env.digest(a) == env.digest(b) ==> a == b
  }

  /** Every entry is the vertex of a seen certificate under its own digest; the layer
      index agrees; parents sit exactly one layer below; the database holds the same
      certificates. */
  ghost predicate Stored(env: Env, s: Proc, seen: set<Certificate>) {
    && VerticesFrom(env, s.dag, seen)
    && Agrees(s.dag)
    && ParentsBelow(s.dag)
    && SameCertificates(s)
  }

  ghost predicate VerticesFrom(env: Env, d: State<Certificate>, seen: set<Certificate>) {
    forall id | id in d.vertices :: StoredVertex(env, d.vertices[id], id, seen)
  }

  ghost predicate SameCertificates(s: Proc) {
    && s.db.Keys == s.dag.vertices.Keys
    && (forall id | id in s.db :: s.db[id] == s.dag.vertices[id].data)
  }

  ghost predicate StoredVertex(env: Env, v: Vertex<Certificate>, id: Digest, seen: set<Certificate>) {
    && v == VertexOf(env, v.data) && v.id == id && v.data in seen
    && (v.data.Derived? || v.data == GENESIS)
    && (v.layer >= 2 ==> v.data.ParentsNumber() >= Quorum(env))
  }

  lemma {:induction false} AcceptSameCertificates(env: Env, s: Proc, e: Event)
    requires Accepts(env, s, e) && SameCertificates(s) && e.cert.Derived?
    ensures SameCertificates(Admit(env, s, e))
  {
  }

  lemma {:induction false} AcceptAgrees(env: Env, s: Proc, c: Certificate, seen: set<Certificate>)
    requires Stored(env, s, seen) && CollisionFree(env, seen) && c in seen
    ensures Agrees(s.dag.Insert(VertexOf(env, c)))
  {
    InsertAgreesIff(s.dag, VertexOf(env, c));
  }

  lemma {:induction false} AcceptStores(env: Env, s: Proc, e: Event, seen: set<Certificate>)
    requires Stored(env, s, seen) && CollisionFree(env, seen)
    requires Accepts(env, s, e) && e.cert in seen
    ensures Stored(env, Admit(env, s, e), seen)
  {
    AdmittedLayer(env, s, e);
    AcceptAgrees(env, s, e.cert, seen);
    AcceptedParentsBelow(s.dag, VertexOf(env, e.cert));
    AcceptSameCertificates(env, s, e);
  }

  /** Causal closure: over every run without hash collisions, each stored certificate
      of round L >= 1 has all its parents stored at exactly round L - 1. */
  lemma {:induction false} CausalClosure(env: Env, events: seq<Event>)
    requires CollisionFree(env, Seen(events))
    ensures Stored(env, Run(env, events), Seen(events))
  {
    if events == [] {
      var d := Init(env).dag;
      assert Empty<Certificate>(0).Layer(0) + {env.digest(GENESIS)} == {env.digest(GENESIS)};
      assert d.layers == map[0 := {env.digest(GENESIS)}];
    } else {
      var n := |events| - 1;
      var e, before := events[n], Run(env, events[..n]);
      assert Seen(events[..n]) <= Seen(events);
      CausalClosure(env, events[..n]);
      if Accepts(env, before, e) {
        AdmittedLayer(env, before, e);
        AcceptStores(env, before, e, Seen(events));
      }
    }
  }

  // --- ancestry ---

  /** b is a parent of a; parents of round 0 certificates are never looked at. */
  ghost predicate ParentOf(s: State<Certificate>, b: Digest, a: Digest) {
    a in s.vertices && s.vertices[a].layer >= 1 && b in s.vertices[a].parents
  }

  /** b is reached from a by k parent steps. */
  ghost predicate Reaches(s: State<Certificate>, a: Digest, b: Digest, k: nat)
    decreases k
  {
    if k == 0 then a == b
    else exists c :: ParentOf(s, c, a) && Reaches(s, c, b, k - 1)
  }

  /** Ancestry stays inside the DAG and goes down one round a step: it is acyclic and
      no deeper than the round it starts from. */
  lemma {:induction false} AncestryDescends(s: State<Certificate>, a: Digest, b: Digest, k: nat)
    requires Agrees(s) && ParentsBelow(s)
    requires a in s.vertices && Reaches(s, a, b, k)
    ensures k <= s.vertices[a].layer
    ensures b in s.vertices && s.vertices[b].layer == s.vertices[a].layer - k
    ensures k > 0 ==> a != b
    decreases k
  {
    if k > 0 {
      var c :| ParentOf(s, c, a) && Reaches(s, c, b, k - 1);
      assert c in s.Layer(s.vertices[a].layer - 1);
      AncestryDescends(s, c, b, k - 1);
    }
  }

  /** The parents of a certificate of round >= 2 that names none twice are a quorum of the
      round below. */
  lemma {:induction false} QuorumOfParents(env: Env, s: Proc, seen: set<Certificate>, l: nat, a: Digest)
    requires Stored(env, s, seen) && l >= 2 && a in s.dag.Layer(l)
    ensures a in s.dag.vertices
    ensures DistinctParents(s.dag.vertices[a].data) ==>
      s.dag.vertices[a].parents <= s.dag.Layer(l - 1) && |s.dag.vertices[a].parents| >= Quorum(env)
  {
    var v := s.dag.vertices[a];
    assert StoredVertex(env, v, a, seen);
    if DistinctParents(v.data) {
      Collections.NoRepeatsSize(v.data.parentList);
    }
  }

  /** No round holds more than one certificate per authority's worth of them. */
  ghost predicate BoundedRounds(env: Env, s: Proc) {
    forall l: nat :: l >= 1 ==> s.dag.LayerSize(l) <= env.authorities
  }

  /** The certificate stored under the id names no parent twice. */
  predicate NamesEachOnce(s: Proc, a: Digest) {
    a in s.dag.vertices ==> DistinctParents(s.dag.vertices[a].data)
  }

  /** Any two such certificates of one round >= 2 share at least 2q - n >= 1 parents. */
  lemma {:induction false} SharedParents(env: Env, s: Proc, seen: set<Certificate>, l: nat, a: Digest, b: Digest)
    requires Stored(env, s, seen) && BoundedRounds(env, s) && 1 <= env.authorities < 3 * (U32 / 2)
    requires l >= 2 && a in s.dag.Layer(l) && b in s.dag.Layer(l) && NamesEachOnce(s, a) && NamesEachOnce(s, b)
    ensures a in s.dag.vertices && b in s.dag.vertices
    ensures |s.dag.vertices[a].parents * s.dag.vertices[b].parents| >= 2 * Quorum(env) - env.authorities >= 1
  {
    QuorumOfParents(env, s, seen, l, a);
    QuorumOfParents(env, s, seen, l, b);
    Committee.MajorityIffNoTruncation(env.authorities);
    Collections.Overlap(s.dag.vertices[a].parents, s.dag.vertices[b].parents, s.dag.Layer(l - 1));
    assert s.dag.LayerSize(l - 1) <= env.authorities;
  }

  /** The certificates of round l + 1 that name x as a parent. */
  ghost function Supporters(s: State<Certificate>, x: Digest, l: nat): set<Digest> {
    set y | y in s.Layer(l + 1) && ParentOf(s, x, y)
  }

  /** A certificate of round r with n - q + 1 supporters in round r + 1 is an ancestor of
      every certificate two or more rounds above it, if those of round r + 2 name no parent
      twice. */
  lemma {:induction false} SupportedIsAncestor(env: Env, s: Proc, seen: set<Certificate>, r: nat, x: Digest,
                                               l: nat, c: Digest)
    requires Stored(env, s, seen) && BoundedRounds(env, s)
    requires forall y :: y in s.dag.Layer(r + 2) ==> NamesEachOnce(s, y)
    requires |Supporters(s.dag, x, r)| >= env.authorities - Quorum(env) + 1
    requires l >= r + 2 && c in s.dag.Layer(l)
    ensures Reaches(s.dag, c, x, l - r)
    decreases l
  {
    if l == r + 2 {
      var y := SupporterAmongParents(env, s, seen, r, x, c);
      assert Reaches(s.dag, x, x, l - r - 2);
    } else {
      var y := SomeParent(env, s, seen, l, c);
      SupportedIsAncestor(env, s, seen, r, x, l - 1, y);
    }
  }

  lemma {:induction false} SomeParent(env: Env, s: Proc, seen: set<Certificate>, l: nat, c: Digest) returns (y: Digest)
    requires Stored(env, s, seen) && l >= 2 && c in s.dag.Layer(l)
    ensures ParentOf(s.dag, y, c) && y in s.dag.Layer(l - 1)
  {
    var v := s.dag.vertices[c];
    assert StoredVertex(env, v, c, seen) && v.layer == l;
    y := v.data.parentList[0];
    assert y in v.parents;
  }

  lemma {:induction false} SupporterAmongParents(env: Env, s: Proc, seen: set<Certificate>, r: nat, x: Digest,
                                                 c: Digest)
    returns (y: Digest)
    requires Stored(env, s, seen) && BoundedRounds(env, s)
    requires |Supporters(s.dag, x, r)| >= env.authorities - Quorum(env) + 1
    requires c in s.dag.Layer(r + 2) && NamesEachOnce(s, c)
    ensures ParentOf(s.dag, y, c) && ParentOf(s.dag, x, y)
  {
    QuorumOfParents(env, s, seen, r + 2, c);
    var parents := s.dag.vertices[c].parents;
    assert s.dag.vertices[c].layer == r + 2;
    Collections.Overlap(parents, Supporters(s.dag, x, r), s.dag.Layer(r + 1));
    assert s.dag.LayerSize(r + 1) <= env.authorities;
    y :| y in parents * Supporters(s.dag, x, r);
  }

  /** Every stored certificate names no parent twice. */
  predicate AllNameEachOnce(s: Proc) {
    forall a | a in s.dag.vertices :: DistinctParents(s.dag.vertices[a].data)
  }

  lemma {:induction false} StepNamesEachOnce(env: Env, s: Proc, e: Event)
    requires AllNameEachOnce(s) && (Accepts(env, s, e) ==> DistinctParents(e.cert))
    ensures AllNameEachOnce(Step(env, s, e))
  {
  }

  /** What a run stores names no parent twice if what it accepts does not. */
  lemma {:induction false} StoredDistinct(env: Env, events: seq<Event>, k: nat)
    requires k <= |events| && AcceptedDistinct(env, events)
    ensures AllNameEachOnce(Before(env, events, k))
  {
    if k > 0 {
      StoredDistinct(env, events, k - 1);
      BeforeNext(env, events, k - 1);
      StepNamesEachOnce(env, Before(env, events, k - 1), events[k - 1]);
    }
  }

  lemma {:induction false} RunDistinct(env: Env, events: seq<Event>)
    requires AcceptedDistinct(env, events)
    ensures AllNameEachOnce(Run(env, events))
  {
    StoredDistinct(env, events, |events|);
    assert events[..|events|] == events;
  }

  lemma {:induction false} AncestorsOfAll(env: Env, s: Proc, seen: set<Certificate>, l: nat, a: Digest)
    requires Stored(env, s, seen) && BoundedRounds(env, s) && AllNameEachOnce(s) && a in s.dag.Layer(l)
    ensures forall r: nat, x ::
      l >= r + 2 && |Supporters(s.dag, x, r)| >= env.authorities - Quorum(env) + 1 ==> Reaches(s.dag, a, x, l - r)
  {
    forall r: nat, x | l >= r + 2 && |Supporters(s.dag, x, r)| >= env.authorities - Quorum(env) + 1
      ensures Reaches(s.dag, a, x, l - r)
    {
      SupportedIsAncestor(env, s, seen, r, x, l, a);
    }
  }

  /** Both theorems hold in every state the processor reaches, if no certificate that it
      accepts names a parent twice. */
  lemma {:induction false} AncestorTheorem(env: Env, events: seq<Event>, s: Proc, l: nat, a: Digest, b: Digest)
    requires s == Run(env, events) && BoundedRounds(env, s) && 1 <= env.authorities < 3 * (U32 / 2)
    requires CollisionFree(env, Seen(events)) && AcceptedDistinct(env, events)
    requires l >= 2 && a in s.dag.Layer(l) && b in s.dag.Layer(l)
    ensures a in s.dag.vertices && b in s.dag.vertices
    ensures |s.dag.vertices[a].parents * s.dag.vertices[b].parents| >= 2 * Quorum(env) - env.authorities >= 1
    ensures forall r: nat, x ::
      l >= r + 2 && |Supporters(s.dag, x, r)| >= env.authorities - Quorum(env) + 1 ==> Reaches(s.dag, a, x, l - r)
  {
    CausalClosure(env, events);
    RunDistinct(env, events);
    SharedParents(env, s, Seen(events), l, a, b);
    AncestorsOfAll(env, s, Seen(events), l, a);
  }

  // --- two primaries ---

  lemma {:induction false} ParentAtBoth(env: Env, s: Proc, s': Proc, seen: set<Certificate>, a: Digest, c: Digest)
    requires Stored(env, s, seen) && Stored(env, s', seen) && CollisionFree(env, seen)
    requires a in s'.dag.vertices && ParentOf(s.dag, c, a)
    ensures ParentOf(s'.dag, c, a) && c in s.dag.vertices && c in s'.dag.vertices
  {
    ParentStored(s.dag, c, a);
    ParentStored(s'.dag, c, a);
  }

  lemma {:induction false} ParentStored(d: State<Certificate>, c: Digest, a: Digest)
    requires Agrees(d) && ParentsBelow(d) && ParentOf(d, c, a)
    ensures c in d.vertices
  {
    assert c in d.Layer(d.vertices[a].layer - 1);
  }

  /** The parent steps from vertices of d' that d has, d' has, too. */
  ghost predicate StepsCarryOver(d: State<Certificate>, d': State<Certificate>) {
    forall a, c :: a in d'.vertices && ParentOf(d, c, a) ==> ParentOf(d', c, a) && c in d'.vertices
  }

  lemma {:induction false} ReachesCarryOver(d: State<Certificate>, d': State<Certificate>, a: Digest, b: Digest, k: nat)
    requires StepsCarryOver(d, d') && a in d'.vertices && Reaches(d, a, b, k)
    ensures Reaches(d', a, b, k)
    decreases k
  {
    if k > 0 {
      var c :| ParentOf(d, c, a) && Reaches(d, c, b, k - 1);
      ReachesCarryOver(d, d', c, b, k - 1);
    }
  }

  lemma {:induction false} StoredStepsCarryOver(env: Env, s: Proc, s': Proc, seen: set<Certificate>)
    requires Stored(env, s, seen) && Stored(env, s', seen) && CollisionFree(env, seen)
    ensures StepsCarryOver(s.dag, s'.dag)
  {
    forall a, c | a in s'.dag.vertices && ParentOf(s.dag, c, a)
      ensures ParentOf(s'.dag, c, a) && c in s'.dag.vertices
    {
      ParentAtBoth(env, s, s', seen, a, c);
    }
  }

  /** Whatever two primaries have received, a certificate in both their DAGs has the same
      ancestors in both, at the same distances. */
  lemma {:induction false} SameAncestry(env: Env, events: seq<Event>, events': seq<Event>, a: Digest, b: Digest, k: nat)
    requires CollisionFree(env, Seen(events) + Seen(events'))
    requires a in Run(env, events).dag.vertices && a in Run(env, events').dag.vertices
    ensures Reaches(Run(env, events).dag, a, b, k) <==> Reaches(Run(env, events').dag, a, b, k)
  {
    var s, s', seen := Run(env, events), Run(env, events'), Seen(events) + Seen(events');
    CausalClosure(env, events);
    CausalClosure(env, events');
    StoredStepsCarryOver(env, s, s', seen);
    StoredStepsCarryOver(env, s', s, seen);
    if Reaches(s.dag, a, b, k) {
      ReachesCarryOver(s.dag, s'.dag, a, b, k);
    }
    if Reaches(s'.dag, a, b, k) {
      ReachesCarryOver(s'.dag, s.dag, a, b, k);
    }
  }
}
