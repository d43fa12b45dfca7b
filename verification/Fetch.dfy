/** Fetching a list of objects peer by peer (calf/src/synchronizer/mod.rs), against peers
    that answer from a database (calf/src/synchronizer/feeder.rs). */
module Fetch {
  import opened Types

  /** A certificate, header or batch; `id` is what inner_id gives for it. */
  datatype Payload = Payload(id: Digest, body: nat)
  datatype Received = Received(payload: Payload, sender: PeerId)

  datatype SyncResponse = Success(data: seq<Payload>) | Partial(data: seq<Payload>) | Failure

  /** What one round trip brings: the outgoing channel is closed, the peer's time runs
      out, or a response to this very request arrives. */
  datatype Answer = Broken | Silent | Answered(response: SyncResponse, sender: PeerId)

  /** A peer in the list of sources, and how it answers when its turn comes. */
  datatype Source = Source(peer: PeerId, answer: Answer)

  datatype Outcome = Fetched(objects: seq<Received>) | Timeout | BrokenChannel

  function Ids(data: seq<Payload>): seq<Digest> {
    seq(|data|, i requires 0 <= i < |data| => data[i].id)
  }

  function From(data: seq<Payload>, sender: PeerId): seq<Received> {
    seq(|data|, i requires 0 <= i < |data| => Received(data[i], sender))
  }

  function Objects(received: seq<Received>): seq<Payload> {
    seq(|received|, i requires 0 <= i < |received| => received[i].payload)
  }

  /** remove_reached */
  function Remaining(keys: seq<Digest>, reached: seq<Digest>): seq<Digest> {
    if keys == [] then []
    else (if keys[0] in reached then [] else [keys[0]]) + Remaining(keys[1..], reached)
  }

  // --- the loop ---

  /** The keys still asked for and the objects saved, after one more source. */
  datatype Progress = Progress(request: seq<Digest>, saved: seq<Received>) {
    function After(source: Source): Progress {
      if source.answer.Answered? && source.answer.response.Partial? then
        var data := source.answer.response.data;
        Progress(Remaining(request, Ids(data)), saved + From(data, source.peer))
      else this
    }
  }

  function FetchFrom(sources: seq<Source>, p: Progress): Outcome {
    if sources == [] then
      if p.saved == [] then Timeout else Fetched(p.saved)
    else
      match sources[0].answer
      case Broken => BrokenChannel
      case Answered(Success(data), sender) => Fetched(From(data, sender))
      case _ => FetchFrom(sources[1..], p.After(sources[0]))
  }

  method TryFetchFrom(keys: seq<Digest>, sources: seq<Source>) returns (r: Outcome)
    ensures r == FetchFrom(sources, Progress(keys, []))
  {
    var request, responses: seq<Received> := keys, [];
    for i := 0 to |sources|
      invariant FetchFrom(sources[i..], Progress(request, responses)) == FetchFrom(sources, Progress(keys, []))
    {
      var answer := sources[i].answer;
      if answer.Broken? {
        return BrokenChannel;
      } else if answer.Answered? {
        match answer.response {
          case Success(data) =>
            return Fetched(From(data, answer.sender));
          case Partial(data) =>
            request := Remaining(request, Ids(data));
            responses := responses + From(data, sources[i].peer);
          case Failure =>
        }
      }
    }
    r := if responses == [] then Timeout else Fetched(responses);
  }

  /** The answer ends the loop at once. */
  predicate Final(answer: Answer) {
    answer.Broken? || (answer.Answered? && answer.response.Success?)
  }

  /** What a partial reply brings, each object with the peer that was asked. */
  function Brought(source: Source): seq<Received> {
    if source.answer.Answered? && source.answer.response.Partial? then
      var data := source.answer.response.data;
      seq(|data|, i requires 0 <= i < |data| => Received(data[i], source.peer))
    else []
  }

  function Partials(sources: seq<Source>): seq<Received> {
    if sources == [] then [] else Partials(sources[..|sources| - 1]) + Brought(sources[|sources| - 1])
  }

  /** Without an answer that ends the loop the partial replies are returned, if they brought
      anything. */
  lemma {:induction false} WithoutFinal(sources: seq<Source>, p: Progress)
    requires forall i :: 0 <= i < |sources| ==> !Final(sources[i].answer)
    ensures
      var saved := p.saved + Partials(sources);
      FetchFrom(sources, p) == if saved == [] then Timeout else Fetched(saved)
  {
    if sources != [] {
      var next := p.After(sources[0]);
      WithoutFinal(sources[1..], next);
      PartialsFirst(sources);
      assert next.saved + Partials(sources[1..]) == p.saved + Partials(sources);
    }
  }

  /** Otherwise the first such answer decides: a Success names the peer that sent it. */
  lemma {:induction false} FirstFinal(sources: seq<Source>, p: Progress, k: nat)
    requires k < |sources| && Final(sources[k].answer) && forall i :: 0 <= i < k ==> !Final(sources[i].answer)
    ensures
      var r, answer := FetchFrom(sources, p), sources[k].answer;
      if answer.Broken? then r == BrokenChannel
      else
        && r.Fetched? && |r.objects| == |answer.response.data|
        && forall i :: 0 <= i < |r.objects| ==> r.objects[i] == Received(answer.response.data[i], answer.sender)
  {
    if k > 0 {
      FirstFinal(sources[1..], p.After(sources[0]), k - 1);
    }
  }

  lemma {:induction false} PartialsFirst(sources: seq<Source>)
    requires sources != []
    ensures Partials(sources) == Brought(sources[0]) + Partials(sources[1..])
  {
    var n := |sources| - 1;
    if n > 0 {
      PartialsFirst(sources[..n]);
      assert sources[..n][1..] == sources[1..][..n - 1];
    }
  }

  /** The state at each request that is sent. */
  function Log(sources: seq<Source>, p: Progress): seq<Progress> {
    if sources == [] then []
    else if sources[0].answer.Broken? || (sources[0].answer.Answered? && sources[0].answer.response.Success?) then [p]
    else [p] + Log(sources[1..], p.After(sources[0]))
  }

  lemma {:induction false} RemainingTwice(keys: seq<Digest>, a: seq<Digest>, b: seq<Digest>)
    ensures Remaining(Remaining(keys, a), b) == Remaining(keys, a + b)
  {
    if keys != [] {
      RemainingTwice(keys[1..], a, b);
      var rest := Remaining(keys[1..], a);
      if keys[0] in a {
        assert Remaining(keys, a) == rest;
      } else {
        assert Remaining(keys, a) == [keys[0]] + rest;
        assert Remaining(keys, a)[1..] == rest;
      }
    }
  }

  lemma {:induction false} RemainingOfNone(keys: seq<Digest>)
    ensures Remaining(keys, []) == keys
  {
    if keys != [] {
      RemainingOfNone(keys[1..]);
    }
  }

  lemma {:induction false} IdsOfSaved(saved: seq<Received>, data: seq<Payload>, sender: PeerId)
    ensures Ids(Objects(saved + From(data, sender))) == Ids(Objects(saved)) + Ids(data)
  {
  }

  ghost predicate AsksForMissing(keys: seq<Digest>, p: Progress) {
    p.request == Remaining(keys, Ids(Objects(p.saved)))
  }

  lemma {:induction false} AfterAsksForMissing(keys: seq<Digest>, p: Progress, source: Source)
    requires AsksForMissing(keys, p)
    ensures AsksForMissing(keys, p.After(source))
  {
    if source.answer.Answered? && source.answer.response.Partial? {
      var data := source.answer.response.data;
      IdsOfSaved(p.saved, data, source.peer);
      RemainingTwice(keys, Ids(Objects(p.saved)), Ids(data));
    }
  }

  lemma {:induction false} LogAsksForMissing(keys: seq<Digest>, sources: seq<Source>, p: Progress)
    requires AsksForMissing(keys, p)
    ensures forall q :: q in Log(sources, p) ==> AsksForMissing(keys, q)
  {
    if sources != [] {
      AfterAsksForMissing(keys, p, sources[0]);
      LogAsksForMissing(keys, sources[1..], p.After(sources[0]));
    }
  }

  /** Whatever the peers answer: each request that is sent holds exactly the original keys
      that no partial reply has brought yet, in their order. */
  lemma {:induction false} RequestsAskForMissing(keys: seq<Digest>, sources: seq<Source>)
    ensures forall q :: q in Log(sources, Progress(keys, [])) ==> AsksForMissing(keys, q)
  {
    RemainingOfNone(keys);
    assert Ids(Objects([])) == [];
    LogAsksForMissing(keys, sources, Progress(keys, []));
  }

  // --- peers that answer as Feeder does ---

  /** A peer as asked once: whether it answers in time, and what its database holds. */
  datatype Peer = Peer(id: PeerId, responds: bool, db: map<Digest, Payload>) {
    /** Objects are stored under their own id. */
    ghost predicate WellKeyed() {
      forall d :: d in db ==> db[d].id == d
    }
  }

  function Found(db: map<Digest, Payload>, keys: seq<Digest>): seq<Payload> {
    if keys == [] then [] else (if keys[0] in db then [db[keys[0]]] else []) + Found(db, keys[1..])
  }

  function Classify(data: seq<Payload>, asked: nat): SyncResponse {
    if |data| == asked then Success(data)
    else if |data| != 0 && |data| < asked then Partial(data)
    else Failure
  }

  method TryRetrieveData(db: map<Digest, Payload>, keys: seq<Digest>) returns (r: SyncResponse)
    ensures r == Classify(Found(db, keys), |keys|)
  {
    var datas: seq<Payload> := [];
    for i := 0 to |keys|
      invariant datas + Found(db, keys[i..]) == Found(db, keys)
    {
      if keys[i] in db {
        datas := datas + [db[keys[i]]];
      }
    }
    r := Classify(datas, |keys|);
  }

  function Held(db: map<Digest, Payload>, keys: seq<Digest>): seq<Digest> {
    if keys == [] then [] else (if keys[0] in db then [keys[0]] else []) + Held(db, keys[1..])
  }

  lemma {:induction false} IdsOfFound(p: Peer, keys: seq<Digest>)
    requires p.WellKeyed()
    ensures Ids(Found(p.db, keys)) == Held(p.db, keys)
  {
    if keys != [] {
      IdsOfFound(p, keys[1..]);
      var rest := Found(p.db, keys[1..]);
      assert Ids(Found(p.db, keys)) == (if keys[0] in p.db then [keys[0]] else []) + Ids(rest);
    }
  }

  lemma {:induction false} HeldExact(db: map<Digest, Payload>, keys: seq<Digest>)
    ensures forall d :: d in Held(db, keys) <==> d in keys && d in db
    ensures |Held(db, keys)| <= |keys|
    ensures |Held(db, keys)| == |keys| <==> forall d :: d in keys ==> d in db
    ensures |Held(db, keys)| == |keys| ==> Held(db, keys) == keys
  {
    if keys != [] {
      HeldExact(db, keys[1..]);
      assert keys == [keys[0]] + keys[1..];
    }
  }

  /** Every asked key is either held or stays, as often as it was asked for. */
  lemma {:induction false} HeldAndRest(db: map<Digest, Payload>, keys: seq<Digest>, reached: seq<Digest>)
    requires forall d :: d in keys ==> (d in reached <==> d in db)
    ensures multiset(Held(db, keys)) + multiset(Remaining(keys, reached)) == multiset(keys)
    ensures |Held(db, keys)| + |Remaining(keys, reached)| == |keys|
  {
    if keys != [] {
      var key, held, rest := keys[0], Held(db, keys[1..]), Remaining(keys[1..], reached);
      HeldAndRest(db, keys[1..], reached);
      assert keys == [key] + keys[1..];
      assert key in keys && forall d :: d in keys[1..] ==> d in keys;
      OneMore(key, held, rest, keys[1..]);
      if key in db {
        assert Held(db, keys) == [key] + held && Remaining(keys, reached) == rest;
      } else {
        assert Held(db, keys) == held && Remaining(keys, reached) == [key] + rest;
      }
    }
  }

  lemma {:induction false} OneMore(key: Digest, a: seq<Digest>, b: seq<Digest>, whole: seq<Digest>)
    requires multiset(a) + multiset(b) == multiset(whole)
    ensures multiset([key] + a) + multiset(b) == multiset([key] + whole)
    ensures multiset(a) + multiset([key] + b) == multiset([key] + whole)
  {
  }

  lemma {:induction false} RemainingExact(keys: seq<Digest>, reached: seq<Digest>)
    ensures forall d :: d in Remaining(keys, reached) <==> d in keys && d !in reached
  {
    if keys != [] {
      RemainingExact(keys[1..], reached);
      assert keys == [keys[0]] + keys[1..];
    }
  }

  function Reply(peer: Peer, request: seq<Digest>): Source {
    Source(peer.id, if peer.responds then Answered(Classify(Found(peer.db, request), |request|), peer.id) else Silent)
  }

  /** What the peers answer, each to the request it is sent. */
  function Transcript(peers: seq<Peer>, p: Progress): seq<Source> {
    if peers == [] then []
    else
      var source := Reply(peers[0], p.request);
      [source] + Transcript(peers[1..], p.After(source))
  }

  predicate Has(peer: Peer, d: Digest) {
    peer.responds && d in peer.db
  }

  predicate Covers(peer: Peer, request: seq<Digest>) {
    peer.responds && forall d :: d in request ==> d in peer.db
  }

  lemma {:induction false} FullReply(peer: Peer, p: Progress)
    requires peer.WellKeyed() && Covers(peer, p.request)
    ensures var a := Reply(peer, p.request).answer;
      a.Answered? && a.response.Success? && Ids(a.response.data) == p.request
  {
    IdsOfFound(peer, p.request);
    HeldExact(peer.db, p.request);
    assert |Ids(Found(peer.db, p.request))| == |Found(peer.db, p.request)|;
  }

  /** A peer that does not have all of a request answers with what it has, if anything. */
  lemma {:induction false} PartialReply(peer: Peer, p: Progress)
    requires peer.WellKeyed() && !Covers(peer, p.request)
    ensures
      var held, source := Held(peer.db, p.request), Reply(peer, p.request);
      && p.After(source) == (if peer.responds && held != []
                             then Progress(Remaining(p.request, held),
                                           p.saved + From(Found(peer.db, p.request), peer.id))
                             else p)
      && !source.answer.Broken?
      && (source.answer.Answered? ==> !source.answer.response.Success?)
  {
    IdsOfFound(peer, p.request);
    HeldExact(peer.db, p.request);
    assert |Ids(Found(peer.db, p.request))| == |Found(peer.db, p.request)|;
  }

  /** A partial reply makes the request shorter; what is saved and what is still missing
      add up to the same keys. */
  lemma {:induction false} OnePeer(peer: Peer, p: Progress)
    requires peer.WellKeyed() && !Covers(peer, p.request)
    ensures
      var next := p.After(Reply(peer, p.request));
      && multiset(Ids(Objects(next.saved))) + multiset(next.request)
         == multiset(Ids(Objects(p.saved))) + multiset(p.request)
      && (forall d :: d in next.request <==> d in p.request && !Has(peer, d))
      && (next != p ==> |next.request| < |p.request|)
  {
    PartialReply(peer, p);
    var held := Held(peer.db, p.request);
    HeldExact(peer.db, p.request);
    if peer.responds && held != [] {
      HeldAndRest(peer.db, p.request, held);
      RemainingExact(p.request, held);
      IdsOfFound(peer, p.request);
      IdsOfSaved(p.saved, Found(peer.db, p.request), peer.id);
      assert multiset(Ids(Objects(p.saved)) + held) == multiset(Ids(Objects(p.saved))) + multiset(held);
    } else if peer.responds {
      assert forall d :: d in p.request && d in peer.db ==> d in held;
    }
  }

  // --- the result of a fetch ---

  ghost predicate WellKeyed(peers: seq<Peer>) {
    forall i :: 0 <= i < |peers| ==> peers[i].WellKeyed()
  }

  predicate AnyHas(peers: seq<Peer>, d: Digest) {
    exists i :: 0 <= i < |peers| && Has(peers[i], d)
  }

  function NotHad(keys: seq<Digest>, peers: seq<Peer>): seq<Digest> {
    if keys == [] then [] else (if AnyHas(peers, keys[0]) then [] else [keys[0]]) + NotHad(keys[1..], peers)
  }

  /** Peer k answers, and with those before it has every key. */
  ghost predicate Completes(peers: seq<Peer>, keys: seq<Digest>, k: nat) {
    k < |peers| && peers[k].responds && forall d :: d in keys ==> AnyHas(peers[..k + 1], d)
  }

  lemma {:induction false} AnyHasFirst(peers: seq<Peer>, k: nat, d: Digest)
    requires 1 <= k <= |peers|
    ensures AnyHas(peers[..k], d) <==> Has(peers[0], d) || AnyHas(peers[1..][..k - 1], d)
  {
    var rest := peers[1..][..k - 1];
    if i :| 0 <= i < |rest| && Has(rest[i], d) {
      assert peers[..k][i + 1] == rest[i];
    }
    if Has(peers[0], d) {
      assert Has(peers[..k][0], d);
    }
    if i :| 0 <= i < k && Has(peers[..k][i], d) && !Has(peers[0], d) {
      assert rest[i - 1] == peers[..k][i];
    }
  }

  lemma {:induction false} NotHadFirst(keys: seq<Digest>, peers: seq<Peer>, rest: seq<Peer>, held: seq<Digest>)
    requires forall d :: d in keys ==> (AnyHas(peers, d) <==> d in held || AnyHas(rest, d))
    ensures NotHad(keys, peers) == NotHad(Remaining(keys, held), rest)
  {
    if keys != [] {
      NotHadFirst(keys[1..], peers, rest, held);
      var left := Remaining(keys[1..], held);
      assert keys[0] in keys;
      if keys[0] in held {
        assert Remaining(keys, held) == left;
      } else {
        assert Remaining(keys, held) == [keys[0]] + left;
        assert Remaining(keys, held)[1..] == left;
      }
    }
  }

  lemma {:induction false} AnyHasStep(peers: seq<Peer>, k: nat)
    requires 1 <= k <= |peers|
    ensures forall d :: AnyHas(peers[..k], d) <==> Has(peers[0], d) || AnyHas(peers[1..][..k - 1], d)
  {
    forall d ensures AnyHas(peers[..k], d) <==> Has(peers[0], d) || AnyHas(peers[1..][..k - 1], d) {
      AnyHasFirst(peers, k, d);
    }
  }

  /** What a peer that does not end the loop leaves to the ones after it. */
  lemma {:induction false} NextRequest(peers: seq<Peer>, p: Progress, k: nat)
    requires WellKeyed(peers) && 1 <= k <= |peers| && !Covers(peers[0], p.request)
    ensures NotHad(p.request, peers[..k]) == NotHad(p.After(Reply(peers[0], p.request)).request, peers[1..][..k - 1])
  {
    var held := Held(peers[0].db, p.request);
    PartialReply(peers[0], p);
    HeldExact(peers[0].db, p.request);
    RemainingOfNone(p.request);
    AnyHasStep(peers, k);
    NotHadFirst(p.request, peers[..k], peers[1..][..k - 1], if peers[0].responds then held else []);
  }

  /** The others complete what is left exactly when they complete the keys with it. */
  lemma {:induction false} NextCompletes(peers: seq<Peer>, p: Progress, k: nat)
    requires WellKeyed(peers) && 1 <= k < |peers| && !Covers(peers[0], p.request)
    ensures Completes(peers, p.request, k)
       <==> Completes(peers[1..], p.After(Reply(peers[0], p.request)).request, k - 1)
  {
    OnePeer(peers[0], p);
    CompletesShift(peers, p.request, p.After(Reply(peers[0], p.request)).request, k);
  }

  lemma {:induction false} CompletesShift(peers: seq<Peer>, keys: seq<Digest>, rest: seq<Digest>, k: nat)
    requires 1 <= k < |peers|
    requires forall d :: d in rest <==> d in keys && !Has(peers[0], d)
    ensures Completes(peers, keys, k) <==> Completes(peers[1..], rest, k - 1)
  {
    var some, others := peers[..k + 1], peers[1..][..k];
    AnyHasStep(peers, k + 1);
    assert (forall d :: d in keys ==> AnyHas(some, d)) <==> (forall d :: d in rest ==> AnyHas(others, d));
    assert peers[1..][k - 1] == peers[k];
  }

  lemma {:induction false} NotHadByNone(keys: seq<Digest>)
    ensures NotHad(keys, []) == keys
  {
    if keys != [] {
      NotHadByNone(keys[1..]);
    }
  }

  /** The first peer that completes the keys, if any. */
  ghost predicate StopsAt(peers: seq<Peer>, keys: seq<Digest>, k: nat) {
    && k <= |peers| && (forall j: nat :: j < k ==> !Completes(peers, keys, j))
    && (k < |peers| ==> Completes(peers, keys, k))
  }

  lemma {:induction false} Stops(peers: seq<Peer>, keys: seq<Digest>, from: nat) returns (k: nat)
    requires from <= |peers| && forall j: nat :: j < from ==> !Completes(peers, keys, j)
    ensures StopsAt(peers, keys, k)
    decreases |peers| - from
  {
    k := from;
    if from < |peers| && !Completes(peers, keys, from) {
      k := Stops(peers, keys, from + 1);
    }
  }

  lemma {:induction false} StopsLater(peers: seq<Peer>, p: Progress, k: nat)
    requires WellKeyed(peers) && k >= 1 && StopsAt(peers, p.request, k)
    ensures !Covers(peers[0], p.request)
    ensures StopsAt(peers[1..], p.After(Reply(peers[0], p.request)).request, k - 1)
  {
    var rest := p.After(Reply(peers[0], p.request)).request;
    assert !Completes(peers, p.request, 0);
    forall j: nat | j < k - 1 ensures !Completes(peers[1..], rest, j) {
      assert !Completes(peers, p.request, j + 1);
      NextCompletes(peers, p, j + 1);
    }
    if k < |peers| {
      NextCompletes(peers, p, k);
    }
  }

  /** The state when peer k is asked, or at the end. */
  function AskedAt(peers: seq<Peer>, p: Progress, k: nat): Progress
    requires k <= |peers|
  {
    if k == 0 then p else AskedAt(peers[1..], p.After(Reply(peers[0], p.request)), k - 1)
  }

  lemma {:induction false} SavedAndMissing(peers: seq<Peer>, p: Progress, k: nat)
    requires WellKeyed(peers) && StopsAt(peers, p.request, k)
    ensures var last := AskedAt(peers, p, k);
      && last.request == NotHad(p.request, peers[..k])
      && multiset(Ids(Objects(last.saved))) + multiset(last.request)
         == multiset(Ids(Objects(p.saved))) + multiset(p.request)
    decreases k
  {
    if k == 0 {
      NotHadByNone(p.request);
    } else {
      StopsLater(peers, p, k);
      OnePeer(peers[0], p);
      NextRequest(peers, p, k);
      SavedAndMissing(peers[1..], p.After(Reply(peers[0], p.request)), k - 1);
    }
  }

  /** The loop ends with a Success at that peer, or goes through all the peers. */
  lemma {:induction false} FetchEnds(peers: seq<Peer>, p: Progress, k: nat)
    requires WellKeyed(peers) && StopsAt(peers, p.request, k)
    ensures
      var r, last := FetchFrom(Transcript(peers, p), p), AskedAt(peers, p, k);
      if k < |peers| then r.Fetched? && Ids(Objects(r.objects)) == last.request
      else r == if last.saved == [] then Timeout else Fetched(last.saved)
    decreases k
  {
    if k > 0 {
      StopsLater(peers, p, k);
      PartialReply(peers[0], p);
      FetchEnds(peers[1..], p.After(Reply(peers[0], p.request)), k - 1);
    } else if peers != [] {
      FullReply(peers[0], p);
      var data := Reply(peers[0], p.request).answer.response.data;
      assert Objects(From(data, peers[0].id)) == data;
    }
  }

  function Fetch(peers: seq<Peer>, keys: seq<Digest>): Outcome {
    FetchFrom(Transcript(peers, Progress(keys, [])), Progress(keys, []))
  }

  function Returned(r: Outcome): seq<Digest> {
    if r.Fetched? then Ids(Objects(r.objects)) else []
  }

  /** The result of a fetch. If no peer completes the keys, the returned ids and the keys
      no peer has partition the keys, and no object at all is a time-out. Otherwise the
      ids are exactly the keys not received before the first peer that completes them. */
  lemma {:induction false} FetchResult(peers: seq<Peer>, keys: seq<Digest>) returns (k: nat)
    requires WellKeyed(peers)
    ensures k <= |peers| && forall j: nat :: j < k ==> !Completes(peers, keys, j)
    ensures
      var r := Fetch(peers, keys);
      if k < |peers| then Completes(peers, keys, k) && r.Fetched? && Returned(r) == NotHad(keys, peers[..k])
      else multiset(Returned(r)) + multiset(NotHad(keys, peers)) == multiset(keys)
           && (if Returned(r) == [] then r == Timeout else r.Fetched?)
  {
    k := Stops(peers, keys, 0);
    FetchEnds(peers, Progress(keys, []), k);
    FromStart(peers, keys, k);
  }

  lemma {:induction false} FromStart(peers: seq<Peer>, keys: seq<Digest>, k: nat)
    requires WellKeyed(peers) && StopsAt(peers, keys, k)
    ensures
      var last := AskedAt(peers, Progress(keys, []), k);
      && last.request == NotHad(keys, peers[..k])
      && multiset(Ids(Objects(last.saved))) + multiset(last.request) == multiset(keys)
      && (Ids(Objects(last.saved)) == [] <==> last.saved == [])
      && (k == |peers| ==> last.request == NotHad(keys, peers))
  {
    SavedAndMissing(peers, Progress(keys, []), k);
    assert Ids(Objects([])) == [];
    var last := AskedAt(peers, Progress(keys, []), k);
    assert |Ids(Objects(last.saved))| == |last.saved|;
    assert peers[..|peers|] == peers;
  }

  lemma {:induction false} NotHadExact(keys: seq<Digest>, peers: seq<Peer>)
    ensures forall d :: d in NotHad(keys, peers) <==> d in keys && !AnyHas(peers, d)
    ensures (forall d :: d in keys ==> !AnyHas(peers, d)) ==> NotHad(keys, peers) == keys
  {
    if keys != [] {
      NotHadExact(keys[1..], peers);
      assert keys == [keys[0]] + keys[1..];
    }
  }

  lemma {:induction false} SameMultiset(a: seq<Digest>, b: seq<Digest>)
    requires multiset(a) == multiset(b)
    ensures forall d :: d in a <==> d in b
  {
    assert forall d :: d in a <==> d in multiset(a);
    assert forall d :: d in b <==> d in multiset(b);
  }

  lemma {:induction false} AnyHasLast(peers: seq<Peer>, k: nat, d: Digest)
    requires k < |peers|
    ensures AnyHas(peers[..k + 1], d) <==> AnyHas(peers[..k], d) || Has(peers[k], d)
  {
    assert peers[..k + 1][k] == peers[k];
    if AnyHas(peers[..k + 1], d) && !Has(peers[k], d) {
      var i :| 0 <= i < k + 1 && Has(peers[..k + 1][i], d);
      assert peers[..k][i] == peers[..k + 1][i];
    }
  }

  /** If the peers together have every key, one of them completes the keys. */
  lemma {:induction false} SomeCompletes(peers: seq<Peer>, keys: seq<Digest>, n: nat)
    requires keys != [] && n <= |peers| && forall d :: d in keys ==> AnyHas(peers[..n], d)
    ensures exists k :: Completes(peers, keys, k)
  {
    assert keys[0] in keys;
    if peers[n - 1].responds {
      assert Completes(peers, keys, n - 1);
    } else {
      forall d | d in keys ensures AnyHas(peers[..n - 1], d) {
        AnyHasLast(peers, n - 1, d);
      }
      SomeCompletes(peers, keys, n - 1);
    }
  }

  /** Peer k has all the keys, and none of the peers asked before it has any. */
  ghost predicate OnePeerBringsAll(peers: seq<Peer>, keys: seq<Digest>, k: nat) {
    k < |peers| && Covers(peers[k], keys) && forall d :: d in keys ==> !AnyHas(peers[..k], d)
  }

  lemma {:induction false} BringsAllExact(peers: seq<Peer>, keys: seq<Digest>, k: nat, k': nat)
    requires keys != [] && k < |peers| && StopsAt(peers, keys, k)
    ensures NotHad(keys, peers[..k]) == keys ==> OnePeerBringsAll(peers, keys, k)
    ensures OnePeerBringsAll(peers, keys, k') ==> k' == k && NotHad(keys, peers[..k]) == keys
  {
    NotHadExact(keys, peers[..k]);
    forall d ensures AnyHas(peers[..k + 1], d) <==> AnyHas(peers[..k], d) || Has(peers[k], d) {
      AnyHasLast(peers, k, d);
    }
    if OnePeerBringsAll(peers, keys, k') {
      assert keys[0] in keys;
      forall d | d in keys ensures AnyHas(peers[..k' + 1], d) {
        AnyHasLast(peers, k', d);
      }
      assert Completes(peers, keys, k');
    }
  }

  /** The comment of try_fetch_from promises that what a peer provides is saved. That is
      kept, so that the returned ids and the keys no peer has partition the keys, exactly
      when some key is had by no peer or a single peer brings all of them. */
  lemma {:induction false} KeepsAllIff(peers: seq<Peer>, keys: seq<Digest>)
    requires WellKeyed(peers)
    ensures multiset(Returned(Fetch(peers, keys))) + multiset(NotHad(keys, peers)) == multiset(keys)
       <==> || keys == []
            || (exists d :: d in keys && !AnyHas(peers, d))
            || (exists k :: OnePeerBringsAll(peers, keys, k))
  {
    var k := FetchResult(peers, keys);
    var r := Returned(Fetch(peers, keys));
    assert peers[..|peers|] == peers;
    if k == |peers| {
      if keys != [] && forall d :: d in keys ==> AnyHas(peers, d) {
        SomeCompletes(peers, keys, |peers|);
      }
    } else if keys != [] {
      assert forall d :: d in keys ==> AnyHas(peers, d);
      NoneLeft(keys, peers);
      forall k': nat ensures OnePeerBringsAll(peers, keys, k') ==> r == keys {
        BringsAllExact(peers, keys, k, k');
      }
      BringsAllExact(peers, keys, k, k);
      if multiset(r) == multiset(keys) {
        SameMultiset(r, keys);
        NotHadExact(keys, peers[..k]);
      }
    }
  }

  lemma {:induction false} NoneLeft(keys: seq<Digest>, peers: seq<Peer>)
    requires forall d :: d in keys ==> AnyHas(peers, d)
    ensures NotHad(keys, peers) == []
  {
    if keys != [] {
      assert keys[0] in keys;
      NoneLeft(keys[1..], peers);
    }
  }

  /** Two peers with one of two keys each: the fetch ends with a Success and returns the
      second object only. */
  lemma {:induction false} SuccessDropsSaved()
    ensures
      var peers := [Peer(1, true, map[10 := Payload(10, 0)]), Peer(2, true, map[20 := Payload(20, 0)])];
      Fetch(peers, [10, 20]) == Fetched([Received(Payload(20, 0), 2)])
  {
    var a, b := Peer(1, true, map[10 := Payload(10, 0)]), Peer(2, true, map[20 := Payload(20, 0)]);
    var first, second := Progress([10, 20], []), Progress([20], From([Payload(10, 0)], 1));
    assert [10, 20][1..] == [20] && [20][1..] == [];
    assert Found(a.db, [20]) == [] && Found(a.db, [10, 20]) == [Payload(10, 0)];
    assert Ids([Payload(10, 0)]) == [10];
    assert Remaining([20], [10]) == [20] && Remaining([10, 20], [10]) == [20];
    assert first.After(Reply(a, [10, 20])) == second;
    assert [a, b][1..] == [b];
    assert Transcript([a, b], first) == [Reply(a, [10, 20])] + Transcript([b], second);
    assert Found(b.db, [20]) == [Payload(20, 0)];
    assert From([Payload(20, 0)], 2) == [Received(Payload(20, 0), 2)];
  }

  // --- where the returned objects come from ---

  lemma {:induction false} FoundExact(p: Peer, keys: seq<Digest>)
    requires p.WellKeyed()
    ensures forall x :: x in Found(p.db, keys) ==> x.id in keys && x.id in p.db && p.db[x.id] == x
  {
    if keys != [] {
      FoundExact(p, keys[1..]);
      assert keys == [keys[0]] + keys[1..];
    }
  }

  /** Peer i is the first that answers and has the object's key; it has this object under it,
      and it is named as the sender. */
  ghost predicate FromFirstHolder(peers: seq<Peer>, o: Received, i: nat) {
    && i < |peers| && peers[i].responds && o.sender == peers[i].id
    && o.payload.id in peers[i].db && peers[i].db[o.payload.id] == o.payload
    && forall j :: 0 <= j < i ==> !Has(peers[j], o.payload.id)
  }

  ghost predicate HasOrigin(peers: seq<Peer>, request: seq<Digest>, o: Received) {
    o.payload.id in request && exists i :: FromFirstHolder(peers, o, i)
  }

  lemma {:induction false} ReplyOrigins(peers: seq<Peer>, request: seq<Digest>)
    requires peers != [] && WellKeyed(peers) && peers[0].responds
    ensures forall o :: o in From(Found(peers[0].db, request), peers[0].id) ==> HasOrigin(peers, request, o)
  {
    FoundExact(peers[0], request);
    forall o | o in From(Found(peers[0].db, request), peers[0].id) ensures HasOrigin(peers, request, o) {
      assert o.payload in Found(peers[0].db, request);
      assert FromFirstHolder(peers, o, 0);
    }
  }

  lemma {:induction false} LaterOrigin(peers: seq<Peer>, p: Progress, o: Received)
    requires peers != [] && WellKeyed(peers) && !Covers(peers[0], p.request)
    requires HasOrigin(peers[1..], p.After(Reply(peers[0], p.request)).request, o)
    ensures HasOrigin(peers, p.request, o)
  {
    OnePeer(peers[0], p);
    var i: nat :| FromFirstHolder(peers[1..], o, i);
    forall j | 0 <= j < i + 1 ensures !Has(peers[j], o.payload.id) {
      if j > 0 {
        assert peers[j] == peers[1..][j - 1];
      }
    }
    assert FromFirstHolder(peers, o, i + 1);
  }

  lemma {:induction false} ObjectOrigins(peers: seq<Peer>, p: Progress)
    requires WellKeyed(peers)
    ensures
      var r := FetchFrom(Transcript(peers, p), p);
      r.Fetched? ==> forall o :: o in r.objects ==> o in p.saved || HasOrigin(peers, p.request, o)
    decreases |peers|, 1
  {
    if peers != [] {
      if peers[0].responds {
        ReplyOrigins(peers, p.request);
      }
      if Covers(peers[0], p.request) {
        FullReply(peers[0], p);
      } else {
        PartialReply(peers[0], p);
        LaterOrigins(peers, p);
      }
    }
  }

  lemma {:induction false} LaterOrigins(peers: seq<Peer>, p: Progress)
    requires peers != [] && WellKeyed(peers) && !Covers(peers[0], p.request)
    ensures
      var next := p.After(Reply(peers[0], p.request));
      var r := FetchFrom(Transcript(peers[1..], next), next);
      r.Fetched? ==> forall o :: o in r.objects ==> o in next.saved || HasOrigin(peers, p.request, o)
    decreases |peers|, 0
  {
    var next := p.After(Reply(peers[0], p.request));
    var r := FetchFrom(Transcript(peers[1..], next), next);
    ObjectOrigins(peers[1..], next);
    if r.Fetched? {
      forall o | o in r.objects && o !in next.saved ensures HasOrigin(peers, p.request, o) {
        LaterOrigin(peers, p, o);
      }
    }
  }

  /** Whatever a fetch returns was asked for and is what the first answering peer that has its
      key stores under it, with that peer as the sender. */
  lemma {:induction false} ReturnedFromFirstHolder(peers: seq<Peer>, keys: seq<Digest>, o: Received)
    requires WellKeyed(peers) && Fetch(peers, keys).Fetched? && o in Fetch(peers, keys).objects
    ensures o.payload.id in keys && exists i :: FromFirstHolder(peers, o, i)
  {
    ObjectOrigins(peers, Progress(keys, []));
  }
}
