/** Which certificates a primary admits, spelled out by their votes and parent lists, and what it
    reports of the others (calf/src/primary/dag_processor.rs, calf/src/types/certificate.rs). */
module Admission {
  import Committee
  import opened Types
  import Dag
  import opened DagProcessor
  import opened Frontier
  import opened Delivery

  // --- votes ---

  /** At least a quorum of list entries, and every entry is valid for that header. */
  predicate EnoughValidVotes(env: Env, votes: seq<Vote>, headerHash: Digest) {
    && |votes| >= Committee.QuorumThreshold(env.authorities)
    && forall i :: 0 <= i < |votes| ==> env.verify(votes[i], headerHash).Valid?
  }

  /** verify_votes passes whatever is not derived, and of the rest exactly the certificates with
      enough votes that are all valid; the number is looked at first. */
  lemma {:induction false} VerifyVotesExact(env: Env, c: Certificate)
    ensures VerifyVotes(env, c).VotesOk? <==> (c.Derived? ==> EnoughValidVotes(env, c.votes, c.headerHash))
    ensures VerifyVotes(env, c).NotEnoughVotes?
       <==> c.Derived? && |c.votes| < Committee.QuorumThreshold(env.authorities)
  {
    if c.Derived? {
      assert forall v :: v in c.votes <==> exists i :: 0 <= i < |c.votes| && c.votes[i] == v;
    }
  }

  // --- admission ---

  /** What an event must bring with it, whatever is stored. */
  predicate WellFormed(env: Env, e: Event) {
    && e.cert.Derived?
    && (|e.cert.parentList| >= Committee.QuorumThreshold(env.authorities) || e.cert.certRound == 1)
    && (e.Peer? ==> EnoughValidVotes(env, e.cert.votes, e.cert.headerHash))
  }

  lemma {:induction false} AdmissibleIff(env: Env, e: Event)
    ensures Admissible(env, e) <==> WellFormed(env, e)
  {
    VerifyVotesExact(env, e.cert);
  }

  /** Every parent entry is the id of a certificate of the round below that came in order before;
      round 0 is not checked. */
  predicate ParentsCame(env: Env, events: seq<Event>, k: nat)
    requires k < |events| && events[k].cert.Derived?
  {
    var c := events[k].cert;
    c.certRound == 0 ||
    forall i :: 0 <= i < |c.parentList| ==> Supplied(env, events, c.certRound - 1, c.parentList[i], k)
  }

  lemma {:induction false} InOrderIff(env: Env, events: seq<Event>, k: nat)
    requires k < |events|
    ensures InOrder(env, events, k) <==> WellFormed(env, events[k]) && ParentsCame(env, events, k)
  {
    AdmissibleIff(env, events[k]);
    var c := events[k].cert;
    if c.Derived? && c.certRound > 0 {
      var l := c.certRound - 1;
      if ParentsCame(env, events, k) {
        forall p | p in c.Parents() ensures Supplied(env, events, l, p, k) {
          var i :| 0 <= i < |c.parentList| && c.parentList[i] == p;
        }
      }
      assert forall i :: 0 <= i < |c.parentList| ==> c.parentList[i] in c.Parents();
    }
  }

  /** In every run an event of either kind puts its certificate into the DAG exactly when it is
      well-formed and its parents came before. */
  lemma {:induction false} AcceptedExact(env: Env, events: seq<Event>, k: nat)
    requires k < |events|
    ensures Accepts(env, Before(env, events, k), events[k])
       <==> WellFormed(env, events[k]) && ParentsCame(env, events, k)
  {
    AcceptedIffInOrder(env, events, k);
    InOrderIff(env, events, k);
  }

  // --- what is stored ---

  /** Event k brought this certificate, well-formed and after its parents. */
  predicate Brought(env: Env, events: seq<Event>, k: nat, c: Certificate)
    requires k < |events|
  {
    events[k].cert == c && WellFormed(env, events[k]) && ParentsCame(env, events, k)
  }

  predicate HasOrigin(env: Env, events: seq<Event>, m: nat, c: Certificate)
    requires m <= |events|
  {
    c == GENESIS || exists k :: 0 <= k < m && Brought(env, events, k, c)
  }

  lemma {:induction false} OriginsBefore(env: Env, events: seq<Event>, m: nat)
    requires m <= |events|
    ensures var s := Before(env, events, m);
      forall id :: id in s.dag.vertices ==> HasOrigin(env, events, m, s.dag.vertices[id].data)
  {
    if m > 0 {
      var s, t, e := Before(env, events, m - 1), Before(env, events, m), events[m - 1];
      OriginsBefore(env, events, m - 1);
      BeforeNext(env, events, m - 1);
      AcceptedExact(env, events, m - 1);
      forall id | id in t.dag.vertices ensures HasOrigin(env, events, m, t.dag.vertices[id].data) {
        if Accepts(env, s, e) && id == env.digest(e.cert) {
          assert Brought(env, events, m - 1, e.cert);
        } else {
          assert HasOrigin(env, events, m - 1, s.dag.vertices[id].data);
        }
      }
    }
  }

  /** Over every run: a stored certificate is the root, or it came as the primary's own, or it
      carries at least a quorum of votes that are all valid for its header. */
  lemma {:induction false} StoredVotes(env: Env, events: seq<Event>, id: Digest)
    requires id in Run(env, events).dag.vertices
    ensures var c := Run(env, events).dag.vertices[id].data;
      || c == GENESIS
      || (&& c.Derived?
          && (|c.parentList| >= Committee.QuorumThreshold(env.authorities) || c.certRound == 1)
          && ((exists e :: e in events && e == Own(c)) || EnoughValidVotes(env, c.votes, c.headerHash)))
  {
    OriginsBefore(env, events, |events|);
    assert events[..|events|] == events;
    var s := Before(env, events, |events|);
    var c := s.dag.vertices[id].data;
    assert HasOrigin(env, events, |events|, c);
    if c != GENESIS {
      var k :| 0 <= k < |events| && Brought(env, events, k, c);
      assert events[k] in events;
    }
  }

  // --- what is reported and forwarded ---

  /** The parents of event k that did not come in order before. */
  function NotCome(env: Env, events: seq<Event>, k: nat): set<Digest>
    requires k < |events| && events[k].cert.Derived? && events[k].cert.certRound > 0
  {
    var c := events[k].cert;
    set p | p in c.parentList && !Supplied(env, events, c.certRound - 1, p, k)
  }

  function Report(env: Env, events: seq<Event>, k: nat): Orphan
    requires k < |events| && events[k].Peer? && events[k].cert.Derived? && events[k].cert.certRound > 0
  {
    Orphan(env.digest(events[k].cert), NotCome(env, events, k), events[k].sender)
  }

  /** The reports of the first m events: one for each peer's event that is well-formed but early. */
  function Reports(env: Env, events: seq<Event>, m: nat): seq<Orphan>
    requires m <= |events|
  {
    if m == 0 then []
    else
      var e := events[m - 1];
      Reports(env, events, m - 1)
      + if e.Peer? && WellFormed(env, e) && !ParentsCame(env, events, m - 1) then [Report(env, events, m - 1)] else []
  }

  /** The well-formed certificates of peers among the first m events, with their senders. */
  function WellFormedOfPeers(env: Env, events: seq<Event>, m: nat): seq<(Certificate, PeerId)>
    requires m <= |events|
  {
    if m == 0 then []
    else
      var e := events[m - 1];
      WellFormedOfPeers(env, events, m - 1)
      + if e.Peer? && WellFormed(env, e) then [(e.cert, e.sender)] else []
  }

  lemma {:induction false} MissingExact(env: Env, events: seq<Event>, k: nat)
    requires k < |events| && WellFormed(env, events[k]) && !ParentsCame(env, events, k)
    ensures Before(env, events, k).dag.CheckParents(VertexOf(env, events[k].cert))
         == Dag.MissingParents(NotCome(env, events, k))
  {
    var s, c := Before(env, events, k), events[k].cert;
    AcceptedExact(env, events, k);
    AdmissibleIff(env, events[k]);
    var l := c.certRound - 1;
    forall p ensures p in s.dag.Layer(l) <==> Supplied(env, events, l, p, k) {
      LayerExact(env, events, k, l, p);
    }
  }

  lemma {:induction false} StepReports(env: Env, s: Proc, e: Event)
    ensures Step(env, s, e).orphans == s.orphans +
      (var check := s.dag.CheckParents(VertexOf(env, e.cert));
       if e.Peer? && Admissible(env, e) && check.MissingParents?
       then [Orphan(e.cert.Id(env.digest), check.missing, e.sender)] else [])
    ensures Step(env, s, e).forwarded == s.forwarded +
      if e.Peer? && Admissible(env, e) then [(e.cert, e.sender)] else []
  {
  }

  lemma {:induction false} ReportsBefore(env: Env, events: seq<Event>, m: nat)
    requires m <= |events|
    ensures Before(env, events, m).orphans == Reports(env, events, m)
    ensures Before(env, events, m).forwarded == WellFormedOfPeers(env, events, m)
  {
    if m > 0 {
      var s, e := Before(env, events, m - 1), events[m - 1];
      ReportsBefore(env, events, m - 1);
      BeforeNext(env, events, m - 1);
      StepReports(env, s, e);
      AdmissibleIff(env, e);
      AcceptedExact(env, events, m - 1);
      if WellFormed(env, e) && !ParentsCame(env, events, m - 1) {
        MissingExact(env, events, m - 1);
      }
    }
  }

  /** Over every run: the synchroniser gets one report for each peer's event that is well-formed
      but early, in order, with exactly the parents that did not come before; and it gets every
      well-formed certificate of a peer, stored or not. */
  lemma {:induction false} ReportsExact(env: Env, events: seq<Event>)
    ensures Run(env, events).orphans == Reports(env, events, |events|)
    ensures Run(env, events).forwarded == WellFormedOfPeers(env, events, |events|)
  {
    ReportsBefore(env, events, |events|);
    assert events[..|events|] == events;
  }
}
