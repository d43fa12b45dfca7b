/** Admission of certificates and round advance (calf/src/primary/dag_processor.rs,
    calf/src/types/certificate.rs): the pass of the loop as a function of the state,
    and the class that runs it in place. */
module DagProcessor {
  import Collections
  import opened Types
  import Committee
  import opened Dag

  /** verify of a vote: Err for an authority that is no public key. */
  datatype VoteCheck = Valid | Invalid | BadKey

  /** Committee size, certificate hash and signature check. */
  datatype Env = Env(authorities: nat, digest: Certificate -> Digest, verify: (Vote, Digest) -> VoteCheck)

  const GENESIS: Certificate := Genesis(0)

  datatype VotesResult = VotesOk | NotEnoughVotes | InvalidVote

  function VerifyVotes(env: Env, c: Certificate): VotesResult {
    if !c.Derived? then VotesOk
    else if |c.votes| < Committee.QuorumThreshold(env.authorities) then NotEnoughVotes
    else if forall v :: v in c.votes ==> env.verify(v, c.headerHash).Valid? then VotesOk
    else InvalidVote
  }

  /** Counts list entries; a certificate of round 1 passes with any number. */
  predicate EnoughParents(env: Env, c: Certificate) {
    c.ParentsNumber() >= Committee.QuorumThreshold(env.authorities) || c.Round() == 1
  }

  function VertexOf(env: Env, c: Certificate): Vertex<Certificate> {
    Vertex(c, c.Round(), c.Parents(), env.digest(c))
  }

  datatype Event = Own(cert: Certificate) | Peer(cert: Certificate, sender: PeerId)

  /** An orphan certificate handed to the synchroniser. */
  datatype Orphan = Orphan(id: Digest, missing: set<Digest>, sender: PeerId)

  datatype Proc = Proc(
    dag: State<Certificate>, round: nat, published: seq<(nat, set<Certificate>)>,
    db: map<Digest, Certificate>, orphans: seq<Orphan>, forwarded: seq<(Certificate, PeerId)>)

  ghost function Init(env: Env): Proc {
    Proc(Empty(0).Insert(Vertex(GENESIS, 0, {}, env.digest(GENESIS))), 1, [(1, {GENESIS})],
         map[GENESIS.Id(env.digest) := GENESIS], [], [])
  }

  /** Does this event put its certificate into the DAG? */
  predicate Accepts(env: Env, s: Proc, e: Event) {
    && EnoughParents(env, e.cert)
    && (e.Peer? ==> VerifyVotes(env, e.cert).VotesOk?)
    && s.dag.CheckParents(VertexOf(env, e.cert)).ParentsOk?
  }

  /** Does it reach the end of the pass, or `continue` before? */
  predicate Continues(env: Env, e: Event) {
    !EnoughParents(env, e.cert) || (e.Peer? && !VerifyVotes(env, e.cert).VotesOk?)
  }

  function Admit(env: Env, s: Proc, e: Event): Proc {
    var check := s.dag.CheckParents(VertexOf(env, e.cert));
    var t :=
      if check.ParentsOk? then
        s.(dag := s.dag.Insert(VertexOf(env, e.cert)), db := s.db[e.cert.Id(env.digest) := e.cert])
      else if e.Peer? then
        s.(orphans := s.orphans + [Orphan(e.cert.Id(env.digest), check.missing, e.sender)])
      else s;
    if e.Peer? then t.(forwarded := t.forwarded + [(e.cert, e.sender)]) else t
  }

  ghost function Advance(env: Env, s: Proc): Proc {
    if s.dag.LayerSize(s.round) >= Committee.QuorumThreshold(env.authorities) then
      s.(round := s.round + 1, published := s.published + [(s.round + 1, s.dag.LayerData(s.round))])
    else s
  }

  /** One pass of the loop. */
  ghost function Step(env: Env, s: Proc, e: Event): Proc {
    if Continues(env, e) then s else Advance(env, Admit(env, s, e))
  }

  ghost function Run(env: Env, events: seq<Event>): Proc {
    if events == [] then Init(env) else Step(env, Run(env, events[..|events| - 1]), events[|events| - 1])
  }

  class DagProcessor {
    const env: Env
    const dag: Dag<Certificate>
    var round: nat
    var published: seq<(nat, set<Certificate>)>
    var db: map<Digest, Certificate>
    var orphans: seq<Orphan>
    var forwarded: seq<(Certificate, PeerId)>

    function View(): Proc
      reads this, dag
    {
      Proc(dag.View(), round, published, db, orphans, forwarded)
    }

    constructor (env: Env)
      ensures this.env == env && fresh(dag)
      ensures View() == Init(env)
    {
      this.env := env;
      var root := Dag.NewWithRoot(0, GENESIS, env.digest(GENESIS));
      dag := root.value;
      round, published := 1, [(1, {GENESIS})];
      db, orphans, forwarded := map[GENESIS.Id(env.digest) := GENESIS], [], [];
    }

    method HandleOwn(c: Certificate)
      modifies this, dag
      ensures View() == Step(env, old(View()), Own(c))
    {
      if !EnoughParents(env, c) {
        return;
      }
      var check := dag.InsertChecked(VertexOf(env, c));
      if check.ParentsOk? {
        db := db[c.Id(env.digest) := c];
      }
      AdvanceRound();
    }

    method HandlePeer(c: Certificate, sender: PeerId)
      modifies this, dag
      ensures View() == Step(env, old(View()), Peer(c, sender))
    {
      if !EnoughParents(env, c) || !VerifyVotes(env, c).VotesOk? {
        return;
      }
      var check := dag.CheckParents(VertexOf(env, c));
      if check.ParentsOk? {
        check := dag.Insert(VertexOf(env, c));
        db := db[c.Id(env.digest) := c];
      } else {
        orphans := orphans + [Orphan(c.Id(env.digest), check.missing, sender)];
      }
      forwarded := forwarded + [(c, sender)];
      AdvanceRound();
    }

    method AdvanceRound()
      modifies this
      ensures View() == Advance(env, old(View()))
    {
      var n := dag.LayerSize(round);
      if n >= Committee.QuorumThreshold(env.authorities) {
        var certificates := dag.LayerData(round);
        round := round + 1;
        published := published + [(round, Collections.Elements(certificates))];
      }
    }

    /** The loop, over the events its two channels deliver. */
    method Handle(events: seq<Event>)
      requires View() == Init(env)
      modifies this, dag
      ensures View() == Run(env, events)
    {
      for i := 0 to |events|
        invariant View() == Run(env, events[..i])
      {
        match events[i] {
          case Own(c) => HandleOwn(c);
          case Peer(c, sender) => HandlePeer(c, sender);
        }
        assert events[..i + 1][..i] == events[..i];
      }
      assert events[..|events|] == events;
    }
  }
}
