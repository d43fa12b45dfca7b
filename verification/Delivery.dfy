/** Which certificates a primary stores, by the order in which they are delivered to it
    (calf/src/primary/dag_processor.rs). */
module Delivery {
  import opened Types
  import opened Dag
  import DagIndex
  import opened DagProcessor
  import opened Frontier
  import opened Causality

  // --- delivery in order, by the events alone ---

  /** The event passes every check but the one on parents. */
  predicate Admissible(env: Env, e: Event) {
    !Continues(env, e)
  }

  /** Event k is admissible, and each of its parents was delivered in order before, one round
      below. The parents of a certificate of round 0 are not looked at. */
  predicate InOrder(env: Env, events: seq<Event>, k: nat)
    requires k < |events|
    decreases k, 1
  {
    var c := events[k].cert;
    && Admissible(env, events[k])
    && (c.Round() == 0 || forall p | p in c.Parents() :: Supplied(env, events, c.Round() - 1, p, k))
  }

  /** Event j delivers p in order, as a certificate of round l. */
  predicate Delivers(env: Env, events: seq<Event>, l: nat, p: Digest, j: nat)
    requires j < |events|
    decreases j, 2
  {
    InOrder(env, events, j) && env.digest(events[j].cert) == p && events[j].cert.Round() == l
  }

  /** One of the first k events does, or p is the root. */
  predicate Supplied(env: Env, events: seq<Event>, l: nat, p: Digest, k: nat)
    requires k <= |events|
    decreases k, 0
  {
    || (l == 0 && p == env.digest(GENESIS))
    || exists j | 0 <= j < k :: Delivers(env, events, l, p, j)
  }

  lemma {:induction false} SuppliedNext(env: Env, events: seq<Event>, l: nat, p: Digest, k: nat)
    requires k < |events|
    ensures Supplied(env, events, l, p, k + 1) <==> Supplied(env, events, l, p, k) || Delivers(env, events, l, p, k)
  {
    if Delivers(env, events, l, p, k) {
      assert Supplied(env, events, l, p, k + 1);
    }
  }

  // --- what the processor stores ---

  lemma {:induction false} AdmissibleShape(env: Env, e: Event)
    requires Admissible(env, e)
    ensures e.cert.Derived? && (e.cert.Round() >= 2 ==> e.cert.Parents() != {})
  {
    if e.cert.Round() >= 2 {
      assert e.cert.parentList[0] in e.cert.Parents();
    }
  }

  /** With a root, the check of an admissible certificate is about its parents only. */
  lemma {:induction false} AcceptsIff(env: Env, s: Proc, e: Event)
    requires s.dag.Layer(0) != {}
    ensures Accepts(env, s, e)
       <==> Admissible(env, e) && (e.cert.Round() == 0 || e.cert.Parents() <= s.dag.Layer(e.cert.Round() - 1))
  {
    if Admissible(env, e) {
      AdmissibleShape(env, e);
    }
  }

  lemma {:induction false} InsertedKeys(d: State<Certificate>, v: Vertex<Certificate>)
    ensures d.Insert(v).vertices.Keys == d.vertices.Keys + {v.id}
  {
  }

  lemma {:induction false} FirstLayers(env: Env, l: nat)
    ensures Init(env).dag.Layer(l) == if l == 0 then {env.digest(GENESIS)} else {}
    ensures Init(env).dag.vertices.Keys == {env.digest(GENESIS)}
  {
    InsertedLayers(Empty<Certificate>(0), Vertex(GENESIS, 0, {}, env.digest(GENESIS)));
  }

  /** A round lists exactly the ids that were delivered in order for it. */
  lemma {:induction false} LayerExact(env: Env, events: seq<Event>, k: nat, l: nat, p: Digest)
    requires k <= |events|
    ensures p in Before(env, events, k).dag.Layer(l) <==> Supplied(env, events, l, p, k)
    decreases k, 0
  {
    if k == 0 {
      FirstLayers(env, l);
    } else {
      LayerExact(env, events, k - 1, l, p);
      AcceptedIffInOrder(env, events, k - 1);
      BeforeNext(env, events, k - 1);
      SuppliedNext(env, events, l, p, k - 1);
    }
  }

  /** An event is accepted exactly when it is delivered in order. */
  lemma {:induction false} AcceptedIffInOrder(env: Env, events: seq<Event>, k: nat)
    requires k < |events|
    ensures Accepts(env, Before(env, events, k), events[k]) <==> InOrder(env, events, k)
    decreases k, 1
  {
    var s, c := Before(env, events, k), events[k].cert;
    LayerExact(env, events, k, 0, env.digest(GENESIS));
    AcceptsIff(env, s, events[k]);
    if c.Round() > 0 {
      var l := c.Round() - 1;
      forall p ensures p in s.dag.Layer(l) <==> Supplied(env, events, l, p, k) {
        LayerExact(env, events, k, l, p);
      }
    }
  }

  /** The root, or an id that some event delivers in order. */
  predicate Delivered(env: Env, events: seq<Event>, id: Digest, k: nat)
    requires k <= |events|
  {
    || id == env.digest(GENESIS)
    || exists j | 0 <= j < k :: DeliversId(env, events, id, j)
  }

  predicate DeliversId(env: Env, events: seq<Event>, id: Digest, j: nat)
    requires j < |events|
  {
    InOrder(env, events, j) && env.digest(events[j].cert) == id
  }

  lemma {:induction false} DeliveredNext(env: Env, events: seq<Event>, id: Digest, k: nat)
    requires k < |events|
    ensures Delivered(env, events, id, k + 1) <==> Delivered(env, events, id, k) || DeliversId(env, events, id, k)
  {
    if DeliversId(env, events, id, k) {
      assert Delivered(env, events, id, k + 1);
    }
  }

  lemma {:induction false} StoredBefore(env: Env, events: seq<Event>, id: Digest, k: nat)
    requires k <= |events|
    ensures id in Before(env, events, k).dag.vertices <==> Delivered(env, events, id, k)
  {
    if k == 0 {
      FirstLayers(env, 0);
    } else {
      StoredBefore(env, events, id, k - 1);
      AcceptedIffInOrder(env, events, k - 1);
      BeforeNext(env, events, k - 1);
      DeliveredNext(env, events, id, k - 1);
    }
  }

  /** At the end of a run an id is stored exactly when it is the root or some event delivered
      its certificate in order; nothing that came too early is taken up later. */
  lemma {:induction false} StoredIff(env: Env, events: seq<Event>, id: Digest)
    ensures id in Run(env, events).dag.vertices <==> Delivered(env, events, id, |events|)
  {
    StoredBefore(env, events, id, |events|);
    assert events[..|events|] == events;
  }

  // --- two primaries ---

  lemma {:induction false} BaseStays(env: Env, events: seq<Event>)
    ensures Run(env, events).dag.baseLayer == 0
  {
    if events != [] {
      BaseStays(env, events[..|events| - 1]);
    }
  }

  lemma {:induction false} SameLayer(d: State<Certificate>, d': State<Certificate>, l: nat)
    requires DagIndex.Agrees(d) && DagIndex.Agrees(d') && d.vertices == d'.vertices
    ensures d.Layer(l) == d'.Layer(l) && (l in d.layers <==> l in d'.layers)
  {
    forall id ensures id in d.Layer(l) <==> id in d'.Layer(l) {
      assert id in d.Layer(l) <==> id in d.vertices && d.vertices[id].layer == l;
      assert id in d'.Layer(l) <==> id in d'.vertices && d'.vertices[id].layer == l;
    }
  }

  /** The vertices determine the rest of a DAG whose index agrees. */
  lemma {:induction false} SameVerticesSameDag(d: State<Certificate>, d': State<Certificate>)
    requires DagIndex.Agrees(d) && DagIndex.Agrees(d') && d.vertices == d'.vertices && d.baseLayer == d'.baseLayer
    ensures d == d'
  {
    forall l: nat ensures d.Layer(l) == d'.Layer(l) && (l in d.layers <==> l in d'.layers) {
      SameLayer(d, d', l);
    }
    forall l | l in d.layers ensures d.layers[l] == d'.layers[l] {
      assert d.Layer(l) == d'.Layer(l);
    }
    assert d.layers == d'.layers;
  }

  /** Two primaries hold the same DAG exactly when the same ids were delivered to both in
      order, whatever else they received. */
  lemma {:induction false} SameDagIff(env: Env, events: seq<Event>, events': seq<Event>)
    requires CollisionFree(env, Seen(events) + Seen(events'))
    ensures Run(env, events).dag == Run(env, events').dag
       <==> forall id :: Delivered(env, events, id, |events|) <==> Delivered(env, events', id, |events'|)
  {
    var s, s' := Run(env, events), Run(env, events');
    forall id
      ensures id in s.dag.vertices <==> Delivered(env, events, id, |events|)
      ensures id in s'.dag.vertices <==> Delivered(env, events', id, |events'|)
    {
      StoredIff(env, events, id);
      StoredIff(env, events', id);
    }
    if forall id :: Delivered(env, events, id, |events|) <==> Delivered(env, events', id, |events'|) {
      assert forall id :: id in s.dag.vertices.Keys <==> id in s'.dag.vertices.Keys;
      SameIdsSameDag(env, events, events');
    }
  }

  lemma {:induction false} SameIdsSameVertices(env: Env, s: Proc, s': Proc, seen: set<Certificate>)
    requires Stored(env, s, seen) && Stored(env, s', seen) && CollisionFree(env, seen)
    requires s.dag.vertices.Keys == s'.dag.vertices.Keys
    ensures s.dag.vertices == s'.dag.vertices
  {
    forall id | id in s.dag.vertices ensures s.dag.vertices[id] == s'.dag.vertices[id] {
      assert id in s'.dag.vertices.Keys;
    }
    SameMaps(s.dag.vertices, s'.dag.vertices);
  }

  lemma {:induction false} SameMaps<K, V>(m: map<K, V>, m': map<K, V>)
    requires m.Keys == m'.Keys && forall k | k in m :: m[k] == m'[k]
    ensures m == m'
  {
  }

  lemma {:induction false} SameIdsSameDag(env: Env, events: seq<Event>, events': seq<Event>)
    requires CollisionFree(env, Seen(events) + Seen(events'))
    requires Run(env, events).dag.vertices.Keys == Run(env, events').dag.vertices.Keys
    ensures Run(env, events).dag == Run(env, events').dag
  {
    var s, s', seen := Run(env, events), Run(env, events'), Seen(events) + Seen(events');
    CausalClosure(env, events);
    CausalClosure(env, events');
    SameIdsSameVertices(env, s, s', seen);
    BaseStays(env, events);
    BaseStays(env, events');
    SameVerticesSameDag(s.dag, s'.dag);
  }

  // --- the same certificates in different orders ---

  function AdmissibleCertificates(env: Env, events: seq<Event>): set<Certificate> {
    set e | e in events && Admissible(env, e) :: e.cert
  }

  /** Some order of delivery of these certificates would get this one stored: each of its
      parents is among them one round below, and so on down to the root. */
  predicate Deliverable(env: Env, certs: set<Certificate>, c: Certificate)
    decreases c.Round(), 0
  {
    && c in certs
    && (c.Round() == 0 || forall p | p in c.Parents() :: HasSource(env, certs, c.Round() - 1, p))
  }

  predicate HasSource(env: Env, certs: set<Certificate>, l: nat, p: Digest)
    decreases l, 1
  {
    || (l == 0 && p == env.digest(GENESIS))
    || exists d | d in certs :: env.digest(d) == p && d.Round() == l && Deliverable(env, certs, d)
  }

  lemma {:induction false} InOrderDeliverable(env: Env, events: seq<Event>, k: nat)
    requires k < |events| && InOrder(env, events, k)
    ensures Deliverable(env, AdmissibleCertificates(env, events), events[k].cert)
    decreases k
  {
    var c, certs := events[k].cert, AdmissibleCertificates(env, events);
    if c.Round() > 0 {
      var l := c.Round() - 1;
      forall p | p in c.Parents() ensures HasSource(env, certs, l, p) {
        assert Supplied(env, events, l, p, k);
        if j :| 0 <= j < k && Delivers(env, events, l, p, j) {
          InOrderDeliverable(env, events, j);
        }
      }
    }
  }

  /** Some event delivers this certificate in order. */
  predicate DeliveredInOrder(env: Env, events: seq<Event>, c: Certificate) {
    exists j | 0 <= j < |events| :: events[j].cert == c && InOrder(env, events, j)
  }

  /** Every certificate that some order would get stored is delivered in order here, too:
      once more after its parents, if it came too early. */
  ghost predicate Complete(env: Env, events: seq<Event>) {
    forall c :: Deliverable(env, AdmissibleCertificates(env, events), c) ==> DeliveredInOrder(env, events, c)
  }

  /** A primary holds every deliverable certificate exactly when its run is complete. */
  lemma {:induction false} HoldsAllIff(env: Env, events: seq<Event>)
    requires CollisionFree(env, Seen(events))
    ensures (forall c :: Deliverable(env, AdmissibleCertificates(env, events), c) ==>
               env.digest(c) in Run(env, events).dag.vertices)
       <==> Complete(env, events)
  {
    forall c | Deliverable(env, AdmissibleCertificates(env, events), c)
      ensures env.digest(c) in Run(env, events).dag.vertices <==> DeliveredInOrder(env, events, c)
    {
      StoredCertificateIff(env, events, c);
    }
  }

  lemma {:induction false} StoredCertificateIff(env: Env, events: seq<Event>, c: Certificate)
    requires CollisionFree(env, Seen(events)) && c in AdmissibleCertificates(env, events)
    ensures env.digest(c) in Run(env, events).dag.vertices <==> DeliveredInOrder(env, events, c)
  {
    var id := env.digest(c);
    StoredIff(env, events, id);
    var e :| e in events && Admissible(env, e) && e.cert == c;
    AdmissibleShape(env, e);
    assert c in Seen(events);
    if DeliveredInOrder(env, events, c) {
      var j :| 0 <= j < |events| && events[j].cert == c && InOrder(env, events, j);
      assert DeliversId(env, events, id, j);
    }
    if Delivered(env, events, id, |events|) {
      var j :| 0 <= j < |events| && DeliversId(env, events, id, j);
      AdmissibleShape(env, events[j]);
      assert events[j].cert in Seen(events);
    }
  }

  lemma {:induction false} CarriesOver(env: Env, events: seq<Event>, events': seq<Event>, id: Digest)
    requires AdmissibleCertificates(env, events) == AdmissibleCertificates(env, events') && Complete(env, events')
    requires Delivered(env, events, id, |events|)
    ensures Delivered(env, events', id, |events'|)
  {
    if id != env.digest(GENESIS) {
      var j :| 0 <= j < |events| && DeliversId(env, events, id, j);
      InOrderDeliverable(env, events, j);
      assert DeliveredInOrder(env, events', events[j].cert);
      var j' :| 0 <= j' < |events'| && events'[j'].cert == events[j].cert && InOrder(env, events', j');
      assert DeliversId(env, events', id, j');
    }
  }

  lemma {:induction false} BothComplete(env: Env, events: seq<Event>, events': seq<Event>)
    requires CollisionFree(env, Seen(events) + Seen(events'))
    requires AdmissibleCertificates(env, events) == AdmissibleCertificates(env, events')
    requires Complete(env, events) && Complete(env, events')
    ensures Run(env, events).dag == Run(env, events').dag
  {
    forall id ensures Delivered(env, events, id, |events|) <==> Delivered(env, events', id, |events'|) {
      if Delivered(env, events, id, |events|) {
        CarriesOver(env, events, events', id);
      }
      if Delivered(env, events', id, |events'|) {
        CarriesOver(env, events', events, id);
      }
    }
    SameDagIff(env, events, events');
  }

  /** Two primaries receive the same admissible certificates, in whatever orders and however
      often, and one run is complete: they hold the same DAG exactly when the other is, too. */
  lemma {:induction false} ConvergeIff(env: Env, events: seq<Event>, events': seq<Event>)
    requires CollisionFree(env, Seen(events) + Seen(events')) && Complete(env, events)
    requires AdmissibleCertificates(env, events) == AdmissibleCertificates(env, events')
    ensures Run(env, events).dag == Run(env, events').dag <==> Complete(env, events')
  {
    HoldsAllIff(env, events);
    HoldsAllIff(env, events');
    if Complete(env, events') {
      BothComplete(env, events, events');
    }
  }

  lemma {:induction false} OneVote(env: Env, c: Certificate, v: Vote, sender: PeerId)
    requires env.authorities == 1 && c.Derived? && c.votes == [v] && env.verify(v, c.headerHash).Valid?
    requires |c.parentList| == 1
    ensures Admissible(env, Peer(c, sender))
  {
    assert forall w :: w in c.votes ==> w == v;
  }

  lemma {:induction false} OneParent(c: Certificate, p: Digest)
    requires c.Derived? && c.parentList == [p]
    ensures c.Parents() == {p}
  {
    assert c.parentList[0] in c.Parents();
  }

  /** A certificate delivered before its parent is not stored, not even once the parent has
      come; in the other order both are. */
  lemma {:induction false} TooEarlyIsLost(env: Env, first: Certificate, second: Certificate, v: Vote, sender: PeerId)
    requires env.authorities == 1 && env.verify(v, 0).Valid?
    requires first == Derived(1, 1, [v], 0, [0]) && second == Derived(1, 2, [v], 0, [7])
    requires env.digest(GENESIS) == 0 && env.digest(first) == 7 && env.digest(second) == 8
    ensures
      var early := Run(env, [Peer(second, sender), Peer(first, sender)]);
      var late := Run(env, [Peer(first, sender), Peer(second, sender)]);
      && early.dag.vertices.Keys == {0, 7} && late.dag.vertices.Keys == {0, 7, 8}
  {
    var one, two := Peer(first, sender), Peer(second, sender);
    OneVote(env, first, v, sender);
    OneVote(env, second, v, sender);
    OneParent(first, 0);
    OneParent(second, 7);
    var early, late := [two, one], [one, two];
    assert !Supplied(env, early, 1, 7, 0) && Supplied(env, late, 0, 0, 0);
    assert InOrder(env, late, 0);
    assert Delivers(env, late, 1, 7, 0);
    assert InOrder(env, late, 1);
    assert !InOrder(env, early, 0);
    assert InOrder(env, early, 1);
    forall id
      ensures Delivered(env, early, id, 2) <==> id == 0 || id == 7
      ensures Delivered(env, late, id, 2) <==> id == 0 || id == 7 || id == 8
    {
      DeliveredNext(env, early, id, 0);
      DeliveredNext(env, early, id, 1);
      DeliveredNext(env, late, id, 0);
      DeliveredNext(env, late, id, 1);
    }
    forall id
      ensures id in Run(env, early).dag.vertices.Keys <==> id in {0, 7}
      ensures id in Run(env, late).dag.vertices.Keys <==> id in {0, 7, 8}
    {
      StoredIff(env, early, id);
      StoredIff(env, late, id);
    }
  }
}
