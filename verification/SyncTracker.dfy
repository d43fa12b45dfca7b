/** The synchroniser of the primary (calf/src/primary/sync_tracker.rs): one pass of its
    loop as a function of the state, and the class that runs it in place. */
module SyncTracker {
  import opened Types
  import opened TrackedSet

  const TRACKED_OBJECT_TIMEOUT: nat := 1000

  /** A header waiting for certificates or batches. */
  datatype Incomplete = Incomplete(
    missingCertificates: set<Digest>, missingBatches: set<Digest>, header: BlockHeader, sender: PeerId)
  {
    predicate Complete() {
      missingCertificates == {} && missingBatches == {}
    }
  }

  datatype Source = OnePeer(peer: PeerId) | AllPeers

  /** What the tracker sends: fetch commands, a request to its workers, a header back to
      the elector, the status. */
  datatype Sent =
    | FetchCertificates(ids: set<Digest>, source: Source)
    | FetchHeaders(ids: set<Digest>, source: Source)
    | SyncDigests(ids: set<Digest>)
    | Redispatch(header: BlockHeader, sender: PeerId)
    | Status(complete: bool)

  /** What its channels deliver. Look-ups in the database at that moment come along. */
  datatype Event =
    | OrphanReceived(missing: set<Digest>, sender: PeerId)
    | CertificateReceived(id: Digest, headerId: Option<Digest>, headerStored: bool, sender: PeerId)
    | DigestReceived(id: Digest)
    | HeaderReceived(header: BlockHeader, id: Digest, sender: PeerId,
                     storedBatches: set<Digest>, storedCertificates: set<Digest>)
    | ResetReceived

  /** The readings of a drain: while collecting and while removing. */
  datatype Readings = Readings(collectAt: Reading, removeAt: Reading)

  /** All clock readings of a pass: its three drains, its insertions, its extension. */
  datatype Clock = Clock(
    certificates: Readings, headers: Readings, batches: Readings, insertAt: Digest -> int, extendAt: Digest -> int)

  datatype Tracker = Tracker(
    certificates: set<Timestamped>, headers: set<Timestamped>, batches: set<Timestamped>,
    parked: seq<Incomplete>, sent: seq<Sent>)

  const INITIAL: Tracker := Tracker({}, {}, {}, [], [])

  /** The three tracked sets. */
  datatype Kind = OfCertificates | OfHeaders | OfBatches

  function Tracked(t: Tracker, kind: Kind): set<Timestamped> {
    match kind
    case OfCertificates => t.certificates
    case OfHeaders => t.headers
    case OfBatches => t.batches
  }

  // --- parts of a pass ---

  function Publish(t: Tracker): Tracker {
    t.(sent := t.sent + [Status(t.certificates == {} && t.headers == {} && t.batches == {})])
  }

  function Unless(nothing: bool, s: Sent): seq<Sent> {
    if nothing then [] else [s]
  }

  /** Timed-out ids are asked for again from all peers and no longer tracked. */
  function Retry(t: Tracker, clock: Clock): Tracker {
    var cs := Expired(t.certificates, TRACKED_OBJECT_TIMEOUT, clock.certificates.collectAt);
    var hs := Expired(t.headers, TRACKED_OBJECT_TIMEOUT, clock.headers.collectAt);
    var bs := Expired(t.batches, TRACKED_OBJECT_TIMEOUT, clock.batches.collectAt);
    Tracker(Fresh(t.certificates, TRACKED_OBJECT_TIMEOUT, clock.certificates.removeAt),
            Fresh(t.headers, TRACKED_OBJECT_TIMEOUT, clock.headers.removeAt),
            Fresh(t.batches, TRACKED_OBJECT_TIMEOUT, clock.batches.removeAt), t.parked,
            t.sent + Unless(cs == {}, FetchCertificates(cs, AllPeers)) + Unless(hs == {}, FetchHeaders(hs, AllPeers))
                   + Unless(bs == {}, SyncDigests(bs)))
  }

  function TrackCertificates(t: Tracker, missing: set<Digest>, sender: PeerId, at: Digest -> int): Tracker {
    var ids := missing - Ids(t.certificates);
    t.(certificates := AllInserted(t.certificates, missing, at),
       sent := t.sent + Unless(ids == {}, FetchCertificates(ids, OnePeer(sender))))
  }

  function TrackHeaders(t: Tracker, missing: set<Digest>, sender: PeerId, at: Digest -> int): Tracker {
    var ids := missing - Ids(t.headers);
    t.(headers := AllInserted(t.headers, missing, at),
       sent := t.sent + Unless(ids == {}, FetchHeaders(ids, OnePeer(sender))))
  }

  function DropCertificate(parked: seq<Incomplete>, id: Digest): seq<Incomplete> {
    if parked == [] then []
    else [parked[0].(missingCertificates := parked[0].missingCertificates - {id})] + DropCertificate(parked[1..], id)
  }

  function DropBatch(parked: seq<Incomplete>, id: Digest): seq<Incomplete> {
    if parked == [] then []
    else [parked[0].(missingBatches := parked[0].missingBatches - {id})] + DropBatch(parked[1..], id)
  }

  function Dispatches(parked: seq<Incomplete>): seq<Sent> {
    if parked == [] then []
    else (if parked[0].Complete() then [Redispatch(parked[0].header, parked[0].sender)] else [])
         + Dispatches(parked[1..])
  }

  function StillMissing(parked: seq<Incomplete>): seq<Incomplete> {
    if parked == [] then []
    else (if parked[0].Complete() then [] else [parked[0]]) + StillMissing(parked[1..])
  }

  function ProcessParked(t: Tracker): Tracker {
    t.(parked := StillMissing(t.parked), sent := t.sent + Dispatches(t.parked))
  }

  function MissingData(e: Event): Incomplete
    requires e.HeaderReceived?
  {
    Incomplete((set c | c in e.header.certificatesIds && c !in e.storedCertificates),
               (set b | b in e.header.digests && b !in e.storedBatches), e.header, e.sender)
  }

  function Handle(t: Tracker, e: Event, clock: Clock): Tracker {
    match e {
      case OrphanReceived(missing, sender) => TrackCertificates(t, missing, sender, clock.insertAt)
      case CertificateReceived(id, headerId, headerStored, sender) =>
        var dropped := DropCertificate(t.parked, id);
        var t1 := ProcessParked(t.(certificates := Without(t.certificates, id), parked := dropped));
        if headerId.Some? && !headerStored then TrackHeaders(t1, {headerId.value}, sender, clock.insertAt) else t1
      case DigestReceived(id) =>
        var t1 := ProcessParked(t.(parked := DropBatch(t.parked, id)));
        t1.(batches := Without(t1.batches, id))
      case HeaderReceived(header, id, sender, _, _) =>
        var t1 := t.(headers := Without(t.headers, id));
        var missing := MissingData(e);
        if missing.Complete() then t1
        else
          var t2 := if missing.missingCertificates == {} then t1
                    else TrackCertificates(t1, missing.missingCertificates, sender, clock.insertAt);
          var t3 := if missing.missingBatches == {} then t2
                    else t2.(batches := Extended(t2.batches, missing.missingBatches, clock.extendAt),
                             sent := t2.sent + [SyncDigests(missing.missingBatches)]);
          t3.(parked := t3.parked + [missing])
      case ResetReceived => Tracker({}, {}, {}, [], t.sent)
    }
  }

  /** One pass of the loop. */
  function Pass(t: Tracker, clock: Clock, e: Event): Tracker {
    Handle(Retry(Publish(t), clock), e, clock)
  }

  type Input = (Clock, Event)

  predicate PassAt(inputs: seq<Input>, run: seq<Tracker>, i: nat)
    requires |run| == |inputs| + 1 && i < |inputs|
  {
    run[i + 1] == Pass(run[i], inputs[i].0, inputs[i].1)
  }

  /** The states at the head of the loop, from its start. */
  ghost predicate IsRun(inputs: seq<Input>, run: seq<Tracker>) {
    && |run| == |inputs| + 1 && run[0] == INITIAL
    && forall i :: 0 <= i < |inputs| ==> PassAt(inputs, run, i)
  }

  lemma {:induction false} ExtendRun(inputs: seq<Input>, run: seq<Tracker>, i: nat, next: Tracker)
    requires i < |inputs| && IsRun(inputs[..i], run) && next == Pass(run[i], inputs[i].0, inputs[i].1)
    ensures IsRun(inputs[..i + 1], run + [next])
  {
    var taken, longer := inputs[..i + 1], run + [next];
    forall j | 0 <= j < |taken| ensures PassAt(taken, longer, j) {
      if j < i {
        assert PassAt(inputs[..i], run, j);
      }
    }
  }

  class SyncTracker {
    var certificates: TrackedSet
    var headers: TrackedSet
    var batches: TrackedSet
    var parked: seq<Incomplete>
    var sent: seq<Sent>

    ghost predicate Valid()
      reads this, certificates, headers, batches
    {
      && certificates != headers && headers != batches && batches != certificates
      && certificates.timeout == headers.timeout == batches.timeout == TRACKED_OBJECT_TIMEOUT
    }

    function View(): Tracker
      reads this, certificates, headers, batches
    {
      Tracker(certificates.objects, headers.objects, batches.objects, parked, sent)
    }

    constructor ()
      ensures Valid() && View() == INITIAL
      ensures fresh(certificates) && fresh(headers) && fresh(batches)
    {
      certificates := new TrackedSet(TRACKED_OBJECT_TIMEOUT);
      headers := new TrackedSet(TRACKED_OBJECT_TIMEOUT);
      batches := new TrackedSet(TRACKED_OBJECT_TIMEOUT);
      parked, sent := [], [];
    }

    method PublishSyncStatus()
      requires Valid()
      modifies this`sent
      ensures Valid() && View() == Publish(old(View()))
    {
      sent := sent + [Status(certificates.objects == {} && headers.objects == {} && batches.objects == {})];
    }

    method RetryTimedOutFetch(clock: Clock)
      requires Valid()
      modifies this`sent, certificates, headers, batches
      ensures Valid() && View() == Retry(old(View()), clock)
    {
      var bs := batches.DrainTimedOut(clock.batches.collectAt, clock.batches.removeAt);
      var cs := certificates.DrainTimedOut(clock.certificates.collectAt, clock.certificates.removeAt);
      var hs := headers.DrainTimedOut(clock.headers.collectAt, clock.headers.removeAt);
      if cs != {} {
        sent := sent + [FetchCertificates(cs, AllPeers)];
      }
      if hs != {} {
        sent := sent + [FetchHeaders(hs, AllPeers)];
      }
      if bs != {} {
        sent := sent + [SyncDigests(bs)];
      }
    }

    /** The untracked ids of `missing`, now tracked. */
    method TrackMissing(missing: set<Digest>, tracked: TrackedSet, at: Digest -> int) returns (ids: set<Digest>)
      modifies tracked
      ensures ids == missing - Ids(old(tracked.objects))
      ensures tracked.objects == AllInserted(old(tracked.objects), missing, at)
    {
      ids := set id | id in missing && id !in Ids(tracked.objects);
      ghost var before := tracked.objects;
      var rest := ids;
      while rest != {}
        invariant rest <= ids && ids == missing - Ids(before)
        invariant tracked.objects == AllInserted(before, ids - rest, at)
        decreases rest
      {
        var id :| id in rest;
        rest := rest - {id};
        assert id !in Ids(tracked.objects);
        var added := tracked.Insert(id, at(id));
      }
    }

    method FetchCertificatesChecked(missing: set<Digest>, sender: PeerId, at: Digest -> int)
      requires Valid()
      modifies this`sent, certificates
      ensures Valid() && View() == TrackCertificates(old(View()), missing, sender, at)
    {
      var ids := TrackMissing(missing, certificates, at);
      if ids != {} {
        sent := sent + [FetchCertificates(ids, OnePeer(sender))];
      }
    }

    method FetchHeadersChecked(missing: set<Digest>, sender: PeerId, at: Digest -> int)
      requires Valid()
      modifies this`sent, headers
      ensures Valid() && View() == TrackHeaders(old(View()), missing, sender, at)
    {
      var ids := TrackMissing(missing, headers, at);
      if ids != {} {
        sent := sent + [FetchHeaders(ids, OnePeer(sender))];
      }
    }

    /** The headers that miss nothing go back to the elector. */
    method DispatchComplete()
      requires Valid()
      modifies this`sent
      ensures Valid() && View() == old(View()).(sent := old(sent) + Dispatches(parked))
    {
      for i := 0 to |parked|
        invariant sent + Dispatches(parked[i..]) == old(sent) + Dispatches(parked)
      {
        assert parked[i..] == [parked[i]] + parked[i + 1..];
        if parked[i].Complete() {
          sent := sent + [Redispatch(parked[i].header, parked[i].sender)];
        }
      }
    }

    /** Only the others stay. */
    method RetainIncomplete()
      requires Valid()
      modifies this`parked
      ensures Valid() && View() == old(View()).(parked := StillMissing(old(parked)))
    {
      var kept: seq<Incomplete> := [];
      for i := 0 to |parked|
        invariant kept + StillMissing(parked[i..]) == StillMissing(parked)
      {
        assert parked[i..] == [parked[i]] + parked[i + 1..];
        if !parked[i].Complete() {
          kept := kept + [parked[i]];
        }
      }
      parked := kept;
    }

    method ProcessIncompleteHeaders()
      requires Valid()
      modifies this`parked, this`sent
      ensures Valid() && View() == ProcessParked(old(View()))
    {
      DispatchComplete();
      RetainIncomplete();
    }

    method DropMissingCertificate(id: Digest)
      requires Valid()
      modifies this`parked
      ensures Valid() && View() == old(View()).(parked := DropCertificate(old(parked), id))
    {
      ghost var before := parked;
      for i := 0 to |parked|
        invariant |parked| == |before|
        invariant parked[i..] == before[i..]
        invariant parked[..i] + DropCertificate(before[i..], id) == DropCertificate(before, id)
      {
        assert before[i..] == [before[i]] + before[i + 1..];
        parked := parked[i := parked[i].(missingCertificates := parked[i].missingCertificates - {id})];
      }
    }

    method DropMissingBatch(id: Digest)
      requires Valid()
      modifies this`parked
      ensures Valid() && View() == old(View()).(parked := DropBatch(old(parked), id))
    {
      ghost var before := parked;
      for i := 0 to |parked|
        invariant |parked| == |before|
        invariant parked[i..] == before[i..]
        invariant parked[..i] + DropBatch(before[i..], id) == DropBatch(before, id)
      {
        assert before[i..] == [before[i]] + before[i + 1..];
        parked := parked[i := parked[i].(missingBatches := parked[i].missingBatches - {id})];
      }
    }

    method HandleEvent(e: Event, clock: Clock)
      requires Valid()
      modifies this, certificates, headers, batches
      ensures Valid() && View() == Handle(old(View()), e, clock)
      ensures fresh({certificates, headers, batches} - old({certificates, headers, batches}))
    {
      match e {
        case OrphanReceived(missing, sender) =>
          FetchCertificatesChecked(missing, sender, clock.insertAt);
        case CertificateReceived(id, headerId, headerStored, sender) =>
          certificates.Drop(id);
          DropMissingCertificate(id);
          ProcessIncompleteHeaders();
          if headerId.Some? && !headerStored {
            FetchHeadersChecked({headerId.value}, sender, clock.insertAt);
          }
        case DigestReceived(id) =>
          DropMissingBatch(id);
          ProcessIncompleteHeaders();
          batches.Drop(id);
        case HeaderReceived(header, id, sender, _, _) =>
          headers.Drop(id);
          var missing := MissingData(e);
          if !missing.Complete() {
            if missing.missingCertificates != {} {
              FetchCertificatesChecked(missing.missingCertificates, sender, clock.insertAt);
            }
            if missing.missingBatches != {} {
              batches.Extend(missing.missingBatches, clock.extendAt);
              sent := sent + [SyncDigests(missing.missingBatches)];
            }
            parked := parked + [missing];
          }
        case ResetReceived =>
          certificates := new TrackedSet(TRACKED_OBJECT_TIMEOUT);
          headers := new TrackedSet(TRACKED_OBJECT_TIMEOUT);
          batches := new TrackedSet(TRACKED_OBJECT_TIMEOUT);
          parked := [];
      }
    }

    method RunPass(clock: Clock, e: Event)
      requires Valid()
      modifies this, certificates, headers, batches
      ensures Valid() && View() == Pass(old(View()), clock, e)
      ensures fresh({certificates, headers, batches} - old({certificates, headers, batches}))
    {
      PublishSyncStatus();
      RetryTimedOutFetch(clock);
      HandleEvent(e, clock);
    }

    /** The loop over the events its channels deliver; run collects its states. */
    method Loop(inputs: seq<Input>) returns (ghost run: seq<Tracker>)
      requires Valid() && View() == INITIAL
      modifies this, certificates, headers, batches
      ensures Valid() && IsRun(inputs, run) && View() == run[|inputs|]
    {
      run := [View()];
      for i := 0 to |inputs|
        invariant Valid() && IsRun(inputs[..i], run) && View() == run[i]
        invariant fresh({certificates, headers, batches} - old({certificates, headers, batches}))
      {
        RunPass(inputs[i].0, inputs[i].1);
        ExtendRun(inputs, run, i, View());
        run := run + [View()];
      }
      assert inputs[..|inputs|] == inputs;
    }
  }
}
