/** What the processor announces on its rounds channel, and what becomes of a
    certificate built from an announcement (calf/src/primary/dag_processor.rs,
    calf/src/primary/header_builder.rs). */
module Publication {
  import opened Collections
  import opened Types
  import Dag
  import opened DagProcessor
  import opened Frontier
  import opened Causality
  import opened Delivery
  import opened HeaderBuilder

  /** Entry i announces round i + 1 with certificates of round i. */
  ghost predicate PublishedAt(env: Env, d: Dag.State<Certificate>, seen: set<Certificate>, i: nat,
                              entry: (nat, set<Certificate>))
  {
    && entry.0 == i + 1
    && entry.1 != {} && (i >= 1 ==> |entry.1| >= Quorum(env))
    && forall c :: c in entry.1 ==> InRound(env, d, seen, i, c)
  }

  ghost predicate InRound(env: Env, d: Dag.State<Certificate>, seen: set<Certificate>, l: nat, c: Certificate) {
    (c.Derived? || c == GENESIS) && c in seen && c.Round() == l && env.digest(c) in d.Layer(l)
  }

  /** One entry per round reached, in order. */
  ghost predicate AllPublished(env: Env, s: Proc, seen: set<Certificate>) {
    && |s.published| == s.round
    && forall i :: 0 <= i < |s.published| ==> PublishedAt(env, s.dag, seen, i, s.published[i])
  }

  /** Mapping a set cannot make it larger. */
  lemma {:induction false} ImageSize(certs: set<Certificate>, digest: Certificate -> Digest)
    ensures |Digests(certs, digest)| <= |certs|
  {
    if certs != {} {
      var c :| c in certs;
      ImageSize(certs - {c}, digest);
      assert Digests(certs, digest) == Digests(certs - {c}, digest) + {digest(c)};
    }
  }

  ghost function Digests(certs: set<Certificate>, digest: Certificate -> Digest): set<Digest> {
    set c | c in certs :: digest(c)
  }

  lemma {:induction false} LayerDataInRound(env: Env, s: Proc, seen: set<Certificate>, l: nat)
    requires Stored(env, s, seen)
    ensures forall c :: c in s.dag.LayerData(l) ==> InRound(env, s.dag, seen, l, c)
  {
    forall c | c in s.dag.LayerData(l) ensures InRound(env, s.dag, seen, l, c) {
      var id :| id in s.dag.Layer(l) && id in s.dag.vertices && s.dag.vertices[id].data == c;
      assert StoredVertex(env, s.dag.vertices[id], id, seen);
    }
  }

  lemma {:induction false} LayerDataSize(env: Env, s: Proc, seen: set<Certificate>, l: nat)
    requires Stored(env, s, seen)
    ensures |s.dag.LayerData(l)| >= s.dag.LayerSize(l)
  {
    var certs := s.dag.LayerData(l);
    forall id | id in s.dag.Layer(l) ensures id in Digests(certs, env.digest) {
      assert id in s.dag.vertices;
      assert StoredVertex(env, s.dag.vertices[id], id, seen);
      assert s.dag.vertices[id].data in certs;
    }
    SubsetSize(s.dag.Layer(l), Digests(certs, env.digest));
    ImageSize(certs, env.digest);
  }

  /** A completed round is published with one certificate per id in its layer. */
  lemma {:induction false} CompletedRound(env: Env, s: Proc, seen: set<Certificate>, l: nat)
    requires Stored(env, s, seen) && s.dag.LayerSize(l) >= Quorum(env)
    ensures PublishedAt(env, s.dag, seen, l, (l + 1, s.dag.LayerData(l)))
  {
    LayerDataInRound(env, s, seen, l);
    LayerDataSize(env, s, seen, l);
  }

  lemma {:induction false} PublishedStays(env: Env, s: Proc, t: Proc, seen: set<Certificate>, more: set<Certificate>)
    requires AllPublished(env, s, seen) && seen <= more
    requires t.round == s.round && t.published == s.published
    requires forall l: nat :: s.dag.Layer(l) <= t.dag.Layer(l)
    ensures AllPublished(env, t, more)
  {
    forall i | 0 <= i < |t.published| ensures PublishedAt(env, t.dag, more, i, t.published[i]) {
      assert PublishedAt(env, s.dag, seen, i, s.published[i]);
      assert s.dag.Layer(i) <= t.dag.Layer(i);
      forall c | c in t.published[i].1 ensures InRound(env, t.dag, more, i, c) {
        assert InRound(env, s.dag, seen, i, c);
      }
    }
  }

  lemma {:induction false} LayersGrow(env: Env, s: Proc, e: Event)
    ensures forall l: nat :: s.dag.Layer(l) <= Step(env, s, e).dag.Layer(l)
    ensures forall l: nat :: s.dag.Layer(l) <= Admit(env, s, e).dag.Layer(l)
  {
    InsertedLayers(s.dag, VertexOf(env, e.cert));
  }

  /** In every run without hash collisions each round is announced once, in order, with
      at least a quorum of certificates that stay in its layer. */
  lemma {:induction false} PublishedInRuns(env: Env, events: seq<Event>)
    requires CollisionFree(env, Seen(events))
    ensures AllPublished(env, Run(env, events), Seen(events))
  {
    if events == [] {
      var s := Init(env);
      assert env.digest(GENESIS) in s.dag.Layer(0);
      assert PublishedAt(env, s.dag, Seen(events), 0, s.published[0]);
    } else {
      var n := |events| - 1;
      var e, s, seen := events[n], Run(env, events[..n]), Seen(events);
      assert Seen(events[..n]) <= seen;
      PublishedInRuns(env, events[..n]);
      LayersGrow(env, s, e);
      CausalClosure(env, events);
      if Continues(env, e) {
        PublishedStays(env, s, s, Seen(events[..n]), seen);
      } else {
        var t := Admit(env, s, e);
        PublishedStays(env, s, t, Seen(events[..n]), seen);
        AdvancePublishes(env, t, seen);
      }
    }
  }

  lemma {:induction false} AdvancePublishes(env: Env, t: Proc, seen: set<Certificate>)
    requires AllPublished(env, t, seen) && Stored(env, Advance(env, t), seen)
    ensures AllPublished(env, Advance(env, t), seen)
  {
    var u := Advance(env, t);
    if u != t {
      CompletedRound(env, u, seen, t.round);
      forall i | 0 <= i < |u.published| ensures PublishedAt(env, u.dag, seen, i, u.published[i]) {
        if i < |t.published| {
          assert PublishedAt(env, t.dag, seen, i, t.published[i]);
        }
      }
    }
  }

  // --- the announced set, by the events alone ---

  /** The certificates of round l that the first k events delivered in order. */
  function CertificatesOf(env: Env, events: seq<Event>, l: nat, k: nat): set<Certificate>
    requires k <= |events|
  {
    set j | 0 <= j < k && InOrder(env, events, j) && events[j].cert.Round() == l :: events[j].cert
  }

  lemma {:induction false} LayerDataExact(env: Env, events: seq<Event>, l: nat, k: nat)
    requires k <= |events| && l > 0 && CollisionFree(env, Seen(events))
    ensures Before(env, events, k).dag.LayerData(l) == CertificatesOf(env, events, l, k)
  {
    var s, seen := Before(env, events, k), Seen(events);
    assert Seen(events[..k]) <= seen;
    CausalClosure(env, events[..k]);
    forall c ensures c in s.dag.LayerData(l) <==> c in CertificatesOf(env, events, l, k) {
      if c in s.dag.LayerData(l) {
        var id :| id in s.dag.Layer(l) && id in s.dag.vertices && s.dag.vertices[id].data == c;
        LayerExact(env, events, k, l, id);
        var j :| 0 <= j < k && Delivers(env, events, l, id, j);
        SeenEvent(env, events, j);
        assert StoredVertex(env, s.dag.vertices[id], id, Seen(events[..k]));
      }
      if c in CertificatesOf(env, events, l, k) {
        var j :| 0 <= j < k && InOrder(env, events, j) && events[j].cert.Round() == l && events[j].cert == c;
        var id := env.digest(c);
        assert Delivers(env, events, l, id, j);
        LayerExact(env, events, k, l, id);
        SeenEvent(env, events, j);
        assert id in s.dag.vertices;
        assert StoredVertex(env, s.dag.vertices[id], id, Seen(events[..k]));
      }
    }
  }

  lemma {:induction false} SeenEvent(env: Env, events: seq<Event>, j: nat)
    requires j < |events| && InOrder(env, events, j)
    ensures events[j].cert in Seen(events)
  {
    AdmissibleShape(env, events[j]);
  }

  /** Event k announces round l + 1 with these certificates. */
  ghost predicate Announces(env: Env, events: seq<Event>, l: nat, certs: set<Certificate>, k: nat) {
    && k < |events|
    && Before(env, events, k).round == l && Before(env, events, k + 1).round == l + 1
    && certs == CertificatesOf(env, events, l, k + 1)
  }

  lemma {:induction false} StepPublished(env: Env, s: Proc, e: Event)
    ensures var t := Step(env, s, e);
      || (t.round == s.round && t.published == s.published)
      || (t.round == s.round + 1 && t.published == s.published + [(t.round, t.dag.LayerData(s.round))])
  {
  }

  lemma {:induction false} AnnouncedInOrder(env: Env, events: seq<Event>, m: nat)
    requires m <= |events|
    ensures |Before(env, events, m).published| == Before(env, events, m).round >= 1
    ensures Before(env, events, m).published[0] == (1, {GENESIS})
  {
    if m > 0 {
      AnnouncedInOrder(env, events, m - 1);
      BeforeNext(env, events, m - 1);
      StepPublished(env, Before(env, events, m - 1), events[m - 1]);
    }
  }

  lemma {:induction false} AnnouncedNow(env: Env, events: seq<Event>, m: nat, i: nat)
    requires m < |events| && CollisionFree(env, Seen(events))
    requires 1 <= i == |Before(env, events, m).published| < |Before(env, events, m + 1).published|
    ensures Announces(env, events, i, Before(env, events, m + 1).published[i].1, m)
  {
    AnnouncedInOrder(env, events, m);
    BeforeNext(env, events, m);
    StepPublished(env, Before(env, events, m), events[m]);
    LayerDataExact(env, events, i, m + 1);
  }

  lemma {:induction false} AnnouncementsStay(env: Env, events: seq<Event>, m: nat, i: nat)
    requires m < |events| && i < |Before(env, events, m + 1).published|
    ensures i <= |Before(env, events, m).published|
    ensures i < |Before(env, events, m).published| ==>
      Before(env, events, m + 1).published[i] == Before(env, events, m).published[i]
  {
    BeforeNext(env, events, m);
    StepPublished(env, Before(env, events, m), events[m]);
  }

  /** In every run the set announced after a round is exactly the certificates of that round
      that were delivered in order up to the event that completed it. */
  lemma {:induction false} AnnouncedExact(env: Env, events: seq<Event>, m: nat, i: nat) returns (k: nat)
    requires m <= |events| && CollisionFree(env, Seen(events))
    requires 1 <= i < |Before(env, events, m).published|
    ensures k < m && Announces(env, events, i, Before(env, events, m).published[i].1, k)
  {
    AnnouncedInOrder(env, events, m);
    AnnouncementsStay(env, events, m - 1, i);
    if i < |Before(env, events, m - 1).published| {
      k := AnnouncedExact(env, events, m - 1, i);
    } else {
      k := m - 1;
      AnnouncedNow(env, events, k, i);
    }
  }

  // --- the certificate built from an announcement ---

  lemma {:induction false} RunGrows(env: Env, events: seq<Event>, more: seq<Event>)
    ensures forall l: nat :: Run(env, events).dag.Layer(l) <= Run(env, events + more).dag.Layer(l)
    decreases |more|
  {
    if more == [] {
      assert events + more == events;
    } else {
      var n := |more| - 1;
      RunGrows(env, events, more[..n]);
      assert (events + more)[..|events + more| - 1] == events + more[..n];
      LayersGrow(env, Run(env, events + more[..n]), more[n]);
    }
  }

  /** The ids of a published set, as a list: repeat-free, in the layer, and enough. */
  lemma {:induction false} PublishedIds(env: Env, d: Dag.State<Certificate>, seen: set<Certificate>, i: nat,
                                        entry: (nat, set<Certificate>), ids: seq<Digest>, order: seq<Certificate>)
    requires PublishedAt(env, d, seen, i, entry) && CollisionFree(env, seen)
    requires Lists(env, ids, entry.1, order)
    ensures NoRepeats(ids) && Elements(ids) <= d.Layer(i) && ids != []
    ensures i >= 1 ==> |ids| >= Quorum(env)
  {
    NoRepeatsSize(order);
    assert entry.1 == Elements(order);
    forall j | 0 <= j < |ids| ensures InRound(env, d, seen, i, order[j]) && ids[j] == env.digest(order[j]) {
      assert order[j] in Elements(order);
    }
    forall j, k | 0 <= j < k < |ids| ensures ids[j] != ids[k] {
      assert InRound(env, d, seen, i, order[j]) && InRound(env, d, seen, i, order[k]);
    }
    var c :| c in entry.1;
    assert c in Elements(order);
  }

  /** The parent list of a header built from announcement i of a run. */
  lemma {:induction false} BuiltHeader(env: Env, events: seq<Event>, more: seq<Event>, i: nat,
                                       order: seq<Certificate>, ids: seq<Digest>)
    requires CollisionFree(env, Seen(events))
    requires i < |Run(env, events).published| && Lists(env, ids, Run(env, events).published[i].1, order)
    ensures Run(env, events).published[i].0 == i + 1
    ensures NoRepeats(ids) && ids != [] && (i >= 1 ==> |ids| >= Quorum(env))
    ensures Elements(ids) <= Run(env, events + more).dag.Layer(i)
  {
    var s := Run(env, events);
    PublishedInRuns(env, events);
    assert PublishedAt(env, s.dag, Seen(events), i, s.published[i]);
    PublishedIds(env, s.dag, Seen(events), i, s.published[i], ids, order);
    RunGrows(env, events, more);
  }

  lemma {:induction false} ListedLayer(s: Dag.State<Certificate>, l: nat, ids: seq<Digest>)
    requires ids != [] && Elements(ids) <= s.Layer(l)
    ensures l in s.layers && s.layers[l] == s.Layer(l)
  {
    assert ids[0] in Elements(ids);
  }

  /** A certificate whose list is long enough passes every check but the one on parents. */
  lemma {:induction false} CertifiedAccepted(env: Env, i: nat, cert: Certificate, s: Proc, e: Event)
    requires cert.Derived? && cert.certRound == i + 1 && cert.parentList != [] && e.cert == cert
    requires i >= 1 ==> |cert.parentList| >= Quorum(env)
    requires e.Peer? ==> VerifyVotes(env, cert).VotesOk?
    ensures Accepts(env, s, e) <==> cert.Parents() <= s.dag.Layer(i)
  {
    if cert.Parents() <= s.dag.Layer(i) {
      ListedLayer(s.dag, i, cert.parentList);
    }
  }

  /** A certificate built from any announcement of a run is accepted by the same primary
      at any later time. A peer with the same committee accepts it, too, if its votes
      verify, exactly when the peer's DAG holds its parents in their round. */
  lemma {:induction false} BuiltCertificateAccepted(
    env: Env, events: seq<Event>, more: seq<Event>, i: nat, order: seq<Certificate>, header: BlockHeader,
    author: PublicKey, votes: seq<Vote>, headerHash: BlockHeader -> Digest, peer: Proc, sender: PeerId)
    requires CollisionFree(env, Seen(events))
    requires i < |Run(env, events).published|
    requires Lists(env, header.certificatesIds, Run(env, events).published[i].1, order)
    ensures
      var cert := Certify(Run(env, events).published[i].0, author, votes, header, headerHash);
      && cert == Derived(author, i + 1, votes, headerHash(header), header.certificatesIds)
      && DistinctParents(cert)
      && Accepts(env, Run(env, events + more), Own(cert))
      && (VerifyVotes(env, cert).VotesOk? ==>
            (Accepts(env, peer, Peer(cert, sender)) <==> cert.Parents() <= peer.dag.Layer(i)))
  {
    BuiltHeader(env, events, more, i, order, header.certificatesIds);
    var cert := Certify(i + 1, author, votes, header, headerHash);
    CertifiedAccepted(env, i, cert, Run(env, events + more), Own(cert));
    if VerifyVotes(env, cert).VotesOk? {
      CertifiedAccepted(env, i, cert, peer, Peer(cert, sender));
    }
  }

  /** Votes collected by the wait verify at every member of the same committee. */
  lemma {:induction false} CollectedVotesVerify(env: Env, own: Vote, stream: seq<Vote>, round: nat, author: PublicKey,
                                                header: BlockHeader, headerHash: BlockHeader -> Digest)
    requires env.verify(own, headerHash(header)).Valid?
    requires Wait(env, headerHash(header), Quorum(env), [own], stream).QuorumReached?
    ensures
      var votes := Wait(env, headerHash(header), Quorum(env), [own], stream).votes;
      VerifyVotes(env, Certify(round, author, votes, header, headerHash)).VotesOk?
  {
    var k := WaitExact(env, headerHash(header), Quorum(env), [own], stream);
    ValidVotesAreValid(env, headerHash(header), stream[..k]);
  }
}
