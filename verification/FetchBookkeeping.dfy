/** What an event does to one tracked id, and which requests name an id over a run
    (calf/src/primary/sync_tracker.rs). */
module FetchBookkeeping {
  import opened Collections
  import opened Types
  import opened TrackedSet
  import opened SyncTracker

  // --- one id and one event ---

  /** The event names the id as missing: an orphan's parent, a header of a certificate, or a
      list entry of a header, and of the last two only what is not stored. */
  predicate Wants(e: Event, kind: Kind, id: Digest) {
    match kind
    case OfCertificates =>
      || (e.OrphanReceived? && id in e.missing)
      || (e.HeaderReceived? && id in e.header.certificatesIds && id !in e.storedCertificates)
    case OfHeaders => e.CertificateReceived? && !e.headerStored && e.headerId == Some(id)
    case OfBatches => e.HeaderReceived? && id in e.header.digests && id !in e.storedBatches
  }

  predicate Arrives(e: Event, kind: Kind, id: Digest) {
    match kind
    case OfCertificates => e.CertificateReceived? && e.id == id
    case OfHeaders => e.HeaderReceived? && e.id == id
    case OfBatches => e.DigestReceived? && e.id == id
  }

  lemma {:induction false} IdsOf(s: set<Timestamped>, missing: set<Digest>, gone: Digest, at: Digest -> int)
    ensures Ids(AllInserted(s, missing, at)) == Ids(s) + missing
    ensures Ids(Extended(s, missing, at)) == Ids(s) + missing
    ensures Ids(Without(s, gone)) == Ids(s) - {gone}
  {
    forall id | id in missing ensures id in Ids(Extended(s, missing, at)) && id in Ids(AllInserted(s, missing, at)) {
      assert Timestamped(id, at(id)) in Extended(s, missing, at);
      if id !in Ids(s) {
        assert Timestamped(id, at(id)) in AllInserted(s, missing, at);
      }
    }
    forall o | o in s
      ensures o.id in Ids(AllInserted(s, missing, at)) && o.id in Ids(Extended(s, missing, at))
      ensures o.id != gone ==> o.id in Ids(Without(s, gone))
    {
      assert o in AllInserted(s, missing, at) && o in Extended(s, missing, at);
      assert o.id != gone ==> o in Without(s, gone);
    }
  }

  lemma {:induction false} HeaderTracked(t: Tracker, e: Event, clock: Clock, kind: Kind)
    requires e.HeaderReceived?
    ensures
      var before, after := Ids(Tracked(t, kind)), Ids(Tracked(Handle(t, e, clock), kind));
      match kind
      case OfCertificates => after == before + MissingData(e).missingCertificates
      case OfHeaders => after == before - {e.id}
      case OfBatches => after == before + MissingData(e).missingBatches
  {
    var missing := MissingData(e);
    IdsOf(t.certificates, missing.missingCertificates, 0, clock.insertAt);
    IdsOf(t.headers, {}, e.id, clock.insertAt);
    IdsOf(t.batches, missing.missingBatches, 0, clock.extendAt);
  }

  /** After an event an id is tracked exactly if the event names it as missing, or it was
      tracked and neither arrived nor was reset. */
  lemma {:induction false} TrackedAfter(t: Tracker, e: Event, clock: Clock, kind: Kind, id: Digest)
    ensures id in Ids(Tracked(Handle(t, e, clock), kind))
       <==> || Wants(e, kind, id)
            || (id in Ids(Tracked(t, kind)) && !Arrives(e, kind, id) && !e.ResetReceived?)
  {
    match e {
      case OrphanReceived(missing, _) => IdsOf(t.certificates, missing, 0, clock.insertAt);
      case CertificateReceived(c, headerId, _, _) =>
        IdsOf(t.certificates, {}, c, clock.insertAt);
        IdsOf(t.headers, if headerId.Some? then {headerId.value} else {}, 0, clock.insertAt);
      case DigestReceived(b) => IdsOf(t.batches, {}, b, clock.insertAt);
      case HeaderReceived(_, _, _, _, _) => HeaderTracked(t, e, clock, kind);
      case ResetReceived =>
    }
  }

  // --- requests ---

  /** Certificates and headers are fetched, batches are asked of the workers. */
  function Names(s: Sent, kind: Kind, id: Digest): nat {
    if match kind
       case OfCertificates => s.FetchCertificates? && id in s.ids
       case OfHeaders => s.FetchHeaders? && id in s.ids
       case OfBatches => s.SyncDigests? && id in s.ids
    then 1 else 0
  }

  /** The number of requests that name the id. */
  function Commands(sent: seq<Sent>, kind: Kind, id: Digest): nat {
    if sent == [] then 0 else Names(sent[0], kind, id) + Commands(sent[1..], kind, id)
  }

  lemma {:induction false} CommandsAppend(a: seq<Sent>, b: seq<Sent>, kind: Kind, id: Digest)
    ensures Commands(a + b, kind, id) == Commands(a, kind, id) + Commands(b, kind, id)
  {
    if a != [] {
      CommandsAppend(a[1..], b, kind, id);
      assert (a + b)[1..] == a[1..] + b;
    } else {
      assert a + b == b;
    }
  }

  lemma {:induction false} CommandsOne(sent: seq<Sent>, s: Sent, nothing: bool, kind: Kind, id: Digest)
    ensures Commands(sent + [s], kind, id) == Commands(sent, kind, id) + Names(s, kind, id)
    ensures Commands(sent + Unless(nothing, s), kind, id)
         == Commands(sent, kind, id) + if nothing then 0 else Names(s, kind, id)
  {
    assert [s][1..] == [];
    CommandsAppend(sent, [s], kind, id);
    assert sent + [] == sent;
  }

  lemma {:induction false} DispatchesNameNone(parked: seq<Incomplete>, kind: Kind, id: Digest)
    ensures Commands(Dispatches(parked), kind, id) == 0
  {
    if parked != [] {
      DispatchesNameNone(parked[1..], kind, id);
      var r := Redispatch(parked[0].header, parked[0].sender);
      CommandsOne([], r, !parked[0].Complete(), kind, id);
      assert [] + Unless(!parked[0].Complete(), r) == if parked[0].Complete() then [r] else [];
      CommandsAppend(if parked[0].Complete() then [r] else [], Dispatches(parked[1..]), kind, id);
    }
  }

  // --- the drains of a pass ---

  /** The state between the drains of a pass and its event. */
  function Drained(t: Tracker, clock: Clock): Tracker {
    Retry(Publish(t), clock)
  }

  function DrainReadings(clock: Clock, kind: Kind): Readings {
    match kind
    case OfCertificates => clock.certificates
    case OfHeaders => clock.headers
    case OfBatches => clock.batches
  }

  /** The drain reports the id, after 1000 milliseconds, and so it is asked for again. */
  predicate TimesOut(t: Tracker, clock: Clock, kind: Kind, id: Digest) {
    id in Expired(Tracked(t, kind), 1000, DrainReadings(clock, kind).collectAt)
  }

  /** After the drain the id is no longer tracked. */
  predicate Forgets(t: Tracker, clock: Clock, kind: Kind, id: Digest) {
    id in Ids(Tracked(t, kind)) && id !in Ids(Tracked(Drained(t, clock), kind))
  }

  lemma {:induction false} DrainedTracked(t: Tracker, clock: Clock, kind: Kind)
    ensures Tracked(Drained(t, clock), kind)
         == Fresh(Tracked(t, kind), TRACKED_OBJECT_TIMEOUT, DrainReadings(clock, kind).removeAt)
    ensures Ids(Tracked(Drained(t, clock), kind)) <= Ids(Tracked(t, kind))
  {
  }

  /** The clock gives the same reading for an object both times. */
  predicate ReadsOnce(t: Tracker, clock: Clock, kind: Kind) {
    forall o :: o in Tracked(t, kind) ==>
      DrainReadings(clock, kind).collectAt(o) == DrainReadings(clock, kind).removeAt(o)
  }

  /** With one reading per object an id leaves in a drain exactly when it is asked for again. */
  lemma {:induction false} OneReadingReissues(t: Tracker, clock: Clock, kind: Kind, id: Digest)
    requires Unique(Tracked(t, kind))
    requires ReadsOnce(t, clock, kind)
    ensures Forgets(t, clock, kind, id) <==> TimesOut(t, clock, kind, id)
  {
    var readings := DrainReadings(clock, kind);
    DrainedTracked(t, clock, kind);
    OneEntryOneReading(Tracked(t, kind), TRACKED_OBJECT_TIMEOUT, readings.removeAt);
    assert Expired(Tracked(t, kind), TRACKED_OBJECT_TIMEOUT, readings.collectAt)
        == Expired(Tracked(t, kind), TRACKED_OBJECT_TIMEOUT, readings.removeAt);
  }

  /** The drains of a pass ask again for exactly the ids they report. */
  lemma {:induction false} DrainCommands(t: Tracker, clock: Clock, kind: Kind, id: Digest)
    ensures Commands(Drained(t, clock).sent, kind, id)
         == Commands(t.sent, kind, id) + if TimesOut(t, clock, kind, id) then 1 else 0
  {
    var p := Publish(t);
    var cs := Expired(p.certificates, TRACKED_OBJECT_TIMEOUT, clock.certificates.collectAt);
    var hs := Expired(p.headers, TRACKED_OBJECT_TIMEOUT, clock.headers.collectAt);
    var bs := Expired(p.batches, TRACKED_OBJECT_TIMEOUT, clock.batches.collectAt);
    var a, b, c := FetchCertificates(cs, AllPeers), FetchHeaders(hs, AllPeers), SyncDigests(bs);
    var sent1 := p.sent + Unless(cs == {}, a);
    var sent2 := sent1 + Unless(hs == {}, b);
    CommandsOne(t.sent, p.sent[|t.sent|], false, kind, id);
    CommandsOne(p.sent, a, cs == {}, kind, id);
    CommandsOne(sent1, b, hs == {}, kind, id);
    CommandsOne(sent2, c, bs == {}, kind, id);
    assert Drained(t, clock).sent == sent2 + Unless(bs == {}, c);
  }

  // --- the event of a pass ---

  /** An event asks for the ids it names as missing, unless they are tracked certificates or
      headers; batches are asked for in any case. */
  predicate Asks(t: Tracker, e: Event, kind: Kind, id: Digest) {
    Wants(e, kind, id) && (kind.OfBatches? || id !in Ids(Tracked(t, kind)))
  }

  ghost predicate AskedFor(t: Tracker, e: Event, u: Tracker, kind: Kind, id: Digest) {
    Commands(u.sent, kind, id) == Commands(t.sent, kind, id) + if Asks(t, e, kind, id) then 1 else 0
  }

  lemma {:induction false} TrackCommands(t: Tracker, missing: set<Digest>, sender: PeerId, at: Digest -> int,
                                         kind: Kind, id: Digest)
    ensures
      var c, h := TrackCertificates(t, missing, sender, at), TrackHeaders(t, missing, sender, at);
      && Commands(c.sent, kind, id) == Commands(t.sent, kind, id)
           + (if kind.OfCertificates? && id in missing && id !in Ids(t.certificates) then 1 else 0)
      && Commands(h.sent, kind, id) == Commands(t.sent, kind, id)
           + (if kind.OfHeaders? && id in missing && id !in Ids(t.headers) then 1 else 0)
  {
    var cs, hs := missing - Ids(t.certificates), missing - Ids(t.headers);
    CommandsOne(t.sent, FetchCertificates(cs, OnePeer(sender)), cs == {}, kind, id);
    CommandsOne(t.sent, FetchHeaders(hs, OnePeer(sender)), hs == {}, kind, id);
  }

  lemma {:induction false} CertificateAsks(t: Tracker, e: Event, clock: Clock, kind: Kind, id: Digest)
    requires e.CertificateReceived?
    ensures AskedFor(t, e, Handle(t, e, clock), kind, id)
  {
    var dropped := DropCertificate(t.parked, e.id);
    var t1 := ProcessParked(t.(certificates := Without(t.certificates, e.id), parked := dropped));
    CommandsAppend(t.sent, Dispatches(dropped), kind, id);
    DispatchesNameNone(dropped, kind, id);
    if e.headerId.Some? {
      TrackCommands(t1, {e.headerId.value}, e.sender, clock.insertAt, kind, id);
    }
  }

  lemma {:induction false} HeaderAsks(t: Tracker, e: Event, clock: Clock, kind: Kind, id: Digest)
    requires e.HeaderReceived?
    ensures AskedFor(t, e, Handle(t, e, clock), kind, id)
  {
    var missing := MissingData(e);
    var t1 := t.(headers := Without(t.headers, e.id));
    var t2 := if missing.missingCertificates == {} then t1
              else TrackCertificates(t1, missing.missingCertificates, e.sender, clock.insertAt);
    TrackCommands(t1, missing.missingCertificates, e.sender, clock.insertAt, kind, id);
    CommandsOne(t2.sent, SyncDigests(missing.missingBatches), false, kind, id);
  }

  lemma {:induction false} EventAsks(t: Tracker, e: Event, clock: Clock, kind: Kind, id: Digest)
    ensures AskedFor(t, e, Handle(t, e, clock), kind, id)
  {
    match e {
      case OrphanReceived(missing, sender) => TrackCommands(t, missing, sender, clock.insertAt, kind, id);
      case CertificateReceived(_, _, _, _) => CertificateAsks(t, e, clock, kind, id);
      case DigestReceived(b) =>
        CommandsAppend(t.sent, Dispatches(DropBatch(t.parked, b)), kind, id);
        DispatchesNameNone(DropBatch(t.parked, b), kind, id);
      case HeaderReceived(_, _, _, _, _) => HeaderAsks(t, e, clock, kind, id);
      case ResetReceived =>
    }
  }

  lemma {:induction false} UniqueKept(s: set<Timestamped>, missing: set<Digest>, gone: Digest, at: Digest -> int)
    requires Unique(s)
    ensures Unique(AllInserted(s, missing, at)) && Unique(Without(s, gone))
  {
    assert forall o :: o in s ==> o.id in Ids(s);
  }

  lemma {:induction false} EventKeepsUnique(t: Tracker, e: Event, clock: Clock, kind: Kind)
    requires Unique(Tracked(t, kind)) && !kind.OfBatches?
    ensures Unique(Tracked(Handle(t, e, clock), kind))
  {
    var s := Tracked(t, kind);
    match e {
      case OrphanReceived(missing, _) => UniqueKept(s, missing, 0, clock.insertAt);
      case CertificateReceived(c, headerId, _, _) =>
        UniqueKept(s, if headerId.Some? then {headerId.value} else {}, c, clock.insertAt);
      case DigestReceived(_) =>
      case HeaderReceived(_, h, _, _, _) => UniqueKept(s, MissingData(e).missingCertificates, h, clock.insertAt);
      case ResetReceived =>
    }
  }

  // --- passes and runs ---

  /** In a pass from t that ends in u the id starts being tracked. */
  predicate Enters(t: Tracker, clock: Clock, u: Tracker, kind: Kind, id: Digest) {
    id !in Ids(Tracked(Drained(t, clock), kind)) && id in Ids(Tracked(u, kind))
  }

  /** One pass, whatever the clock says: the id is asked for once if the event asks and once
      if it times out; it stops being tracked only in a drain, by its arrival or by a reset. */
  lemma {:induction false} PassAccounted(t: Tracker, clock: Clock, e: Event, kind: Kind, id: Digest)
    ensures Commands(Pass(t, clock, e).sent, kind, id) == Commands(t.sent, kind, id)
      + (if Asks(Drained(t, clock), e, kind, id) then 1 else 0) + (if TimesOut(t, clock, kind, id) then 1 else 0)
    ensures id in Ids(Tracked(t, kind)) && id !in Ids(Tracked(Pass(t, clock, e), kind)) ==>
      Forgets(t, clock, kind, id) || Arrives(e, kind, id) || e.ResetReceived?
  {
    DrainCommands(t, clock, kind, id);
    EventAsks(Drained(t, clock), e, clock, kind, id);
    TrackedAfter(Drained(t, clock), e, clock, kind, id);
  }

  /** Certificates and headers are tracked at most once, and an event asks for exactly the
      ids that start being tracked. */
  lemma {:induction false} OneRequestOnEntry(t: Tracker, clock: Clock, e: Event, kind: Kind, id: Digest)
    requires Unique(Tracked(t, kind)) && !kind.OfBatches?
    ensures Unique(Tracked(Pass(t, clock, e), kind))
    ensures Asks(Drained(t, clock), e, kind, id) <==> Enters(t, clock, Pass(t, clock, e), kind, id)
  {
    DrainedTracked(t, clock, kind);
    EventKeepsUnique(Drained(t, clock), e, clock, kind);
    TrackedAfter(Drained(t, clock), e, clock, kind, id);
  }

  predicate AsksAt(inputs: seq<Input>, run: seq<Tracker>, kind: Kind, id: Digest, i: nat)
    requires i < |inputs| < |run|
  {
    Asks(Drained(run[i], inputs[i].0), inputs[i].1, kind, id)
  }

  predicate TimesOutAt(inputs: seq<Input>, run: seq<Tracker>, kind: Kind, id: Digest, i: nat)
    requires i < |inputs| < |run|
  {
    TimesOut(run[i], inputs[i].0, kind, id)
  }

  predicate EntersAt(inputs: seq<Input>, run: seq<Tracker>, kind: Kind, id: Digest, i: nat)
    requires i < |inputs| < |run|
  {
    Enters(run[i], inputs[i].0, run[i + 1], kind, id)
  }

  predicate ForgetsAt(inputs: seq<Input>, run: seq<Tracker>, kind: Kind, id: Digest, i: nat)
    requires i < |inputs| < |run|
  {
    Forgets(run[i], inputs[i].0, kind, id)
  }

  /** The event of the pass ends the tracking. */
  predicate LeavesAt(inputs: seq<Input>, run: seq<Tracker>, kind: Kind, id: Digest, i: nat)
    requires i < |inputs| < |run|
  {
    id in Ids(Tracked(Drained(run[i], inputs[i].0), kind)) && id !in Ids(Tracked(run[i + 1], kind))
  }

  /** Passes below m whose event asks for the id. */
  function Asked(inputs: seq<Input>, run: seq<Tracker>, kind: Kind, id: Digest, m: nat): nat
    requires m <= |inputs| < |run|
  {
    Count((i: nat) => i < |inputs| && AsksAt(inputs, run, kind, id, i), m)
  }

  /** Passes below m in which it times out. */
  function TimeOuts(inputs: seq<Input>, run: seq<Tracker>, kind: Kind, id: Digest, m: nat): nat
    requires m <= |inputs| < |run|
  {
    Count((i: nat) => i < |inputs| && TimesOutAt(inputs, run, kind, id, i), m)
  }

  /** Passes below m in which it starts being tracked. */
  function Entries(inputs: seq<Input>, run: seq<Tracker>, kind: Kind, id: Digest, m: nat): nat
    requires m <= |inputs| < |run|
  {
    Count((i: nat) => i < |inputs| && EntersAt(inputs, run, kind, id, i), m)
  }

  lemma {:induction false} NextCommands(inputs: seq<Input>, run: seq<Tracker>, kind: Kind, id: Digest, m: nat)
    requires IsRun(inputs, run) && m < |inputs|
    ensures Commands(run[m + 1].sent, kind, id) == Commands(run[m].sent, kind, id)
      + (if AsksAt(inputs, run, kind, id, m) then 1 else 0) + (if TimesOutAt(inputs, run, kind, id, m) then 1 else 0)
  {
    assert PassAt(inputs, run, m);
    PassAccounted(run[m], inputs[m].0, inputs[m].1, kind, id);
  }

  /** Over every run, the requests that name an id are those of the events that ask for it
      and one for each of its time-outs. */
  lemma {:induction false} CommandsAreAskedAndTimeOuts(inputs: seq<Input>, run: seq<Tracker>, kind: Kind,
                                                       id: Digest, m: nat)
    requires IsRun(inputs, run) && m <= |inputs|
    ensures Commands(run[m].sent, kind, id) == Asked(inputs, run, kind, id, m) + TimeOuts(inputs, run, kind, id, m)
  {
    var asks := (i: nat) => i < |inputs| && AsksAt(inputs, run, kind, id, i);
    var timesOut := (i: nat) => i < |inputs| && TimesOutAt(inputs, run, kind, id, i);
    var numbers := seq(|inputs| + 1, i requires 0 <= i <= |inputs| => Commands(run[i].sent, kind, id));
    forall i | 0 <= i < |inputs|
      ensures numbers[i + 1] == numbers[i] + (if asks(i) then 1 else 0) + (if timesOut(i) then 1 else 0)
    {
      NextCommands(inputs, run, kind, id, i);
    }
    CountBoth(numbers, asks, timesOut, m);
  }

  lemma {:induction false} NextEntry(inputs: seq<Input>, run: seq<Tracker>, kind: Kind, id: Digest, m: nat)
    requires IsRun(inputs, run) && m < |inputs| && !kind.OfBatches? && Unique(Tracked(run[m], kind))
    ensures Unique(Tracked(run[m + 1], kind))
    ensures AsksAt(inputs, run, kind, id, m) <==> EntersAt(inputs, run, kind, id, m)
  {
    assert PassAt(inputs, run, m);
    OneRequestOnEntry(run[m], inputs[m].0, inputs[m].1, kind, id);
  }

  lemma {:induction false} RunUnique(inputs: seq<Input>, run: seq<Tracker>, kind: Kind, m: nat)
    requires IsRun(inputs, run) && m <= |inputs| && !kind.OfBatches?
    ensures Unique(Tracked(run[m], kind))
  {
    if m > 0 {
      RunUnique(inputs, run, kind, m - 1);
      NextEntry(inputs, run, kind, 0, m - 1);
    }
  }

  lemma {:induction false} AskedIsEntries(inputs: seq<Input>, run: seq<Tracker>, kind: Kind, id: Digest, m: nat)
    requires IsRun(inputs, run) && m <= |inputs| && !kind.OfBatches?
    ensures Asked(inputs, run, kind, id, m) == Entries(inputs, run, kind, id, m)
  {
    var asks := (i: nat) => i < |inputs| && AsksAt(inputs, run, kind, id, i);
    var enters := (i: nat) => i < |inputs| && EntersAt(inputs, run, kind, id, i);
    forall i: nat | i < m ensures asks(i) == enters(i) {
      RunUnique(inputs, run, kind, i);
      NextEntry(inputs, run, kind, id, i);
    }
    CountSame(asks, enters, m);
  }

  /** For certificates and headers they are the entries plus the time-outs. */
  lemma {:induction false} CommandsAreEntriesAndTimeOuts(inputs: seq<Input>, run: seq<Tracker>, kind: Kind,
                                                         id: Digest, m: nat)
    requires IsRun(inputs, run) && m <= |inputs| && !kind.OfBatches?
    ensures Unique(Tracked(run[m], kind))
    ensures Commands(run[m].sent, kind, id) == Entries(inputs, run, kind, id, m) + TimeOuts(inputs, run, kind, id, m)
  {
    RunUnique(inputs, run, kind, m);
    CommandsAreAskedAndTimeOuts(inputs, run, kind, id, m);
    AskedIsEntries(inputs, run, kind, id, m);
  }

  /** The event of the pass is a header that is stored, or one whose listed id is. */
  predicate SaysStored(e: Event, kind: Kind, id: Digest) {
    match kind
    case OfCertificates => e.HeaderReceived? && id in e.storedCertificates
    case OfHeaders => e.CertificateReceived? && e.headerStored
    case OfBatches => e.HeaderReceived? && id in e.storedBatches
  }

  /** No pass asks for an id that its event says is stored: only a time-out can name it. */
  lemma {:induction false} StoredNotAsked(inputs: seq<Input>, run: seq<Tracker>, kind: Kind, id: Digest, m: nat)
    requires IsRun(inputs, run) && m < |inputs| && SaysStored(inputs[m].1, kind, id)
    ensures Commands(run[m + 1].sent, kind, id)
         == Commands(run[m].sent, kind, id) + Bit(TimesOutAt(inputs, run, kind, id, m))
    ensures !EntersAt(inputs, run, kind, id, m)
  {
    NextCommands(inputs, run, kind, id, m);
    LeavesByEnd(inputs, run, kind, id, m);
  }

  // --- whom a pass asks ---

  /** The ids are those that time out in the drains of the pass. */
  ghost predicate NamesExpired(t: Tracker, clock: Clock, kind: Kind, ids: set<Digest>) {
    forall id :: id in ids <==> TimesOut(t, clock, kind, id)
  }

  /** The ids are those that the event asks for after the drains. */
  ghost predicate NamesAsked(t: Tracker, clock: Clock, e: Event, kind: Kind, ids: set<Digest>) {
    forall id :: id in ids <==> Asks(Drained(t, clock), e, kind, id)
  }

  predicate FromSender(e: Event, p: PeerId) {
    !e.DigestReceived? && !e.ResetReceived? && e.sender == p
  }

  /** What a pass from t may send after its status: time-outs go to all peers, what the event asks
      for goes to its sender, and batches are asked of the workers. */
  ghost predicate Due(t: Tracker, clock: Clock, e: Event, s: Sent) {
    match s
    case FetchCertificates(ids, AllPeers) => NamesExpired(t, clock, OfCertificates, ids)
    case FetchCertificates(ids, OnePeer(p)) => FromSender(e, p) && NamesAsked(t, clock, e, OfCertificates, ids)
    case FetchHeaders(ids, AllPeers) => NamesExpired(t, clock, OfHeaders, ids)
    case FetchHeaders(ids, OnePeer(p)) => FromSender(e, p) && NamesAsked(t, clock, e, OfHeaders, ids)
    case SyncDigests(ids) => NamesExpired(t, clock, OfBatches, ids) || NamesAsked(t, clock, e, OfBatches, ids)
    case Status(_) => false
    case Redispatch(_, _) => e.CertificateReceived? || e.DigestReceived?
  }

  ghost predicate AllDue(t: Tracker, clock: Clock, e: Event, before: seq<Sent>, after: seq<Sent>) {
    && |before| <= |after| && after[..|before|] == before
    && forall i :: |before| <= i < |after| ==> Due(t, clock, e, after[i])
  }

  lemma {:induction false} OneMoreDue(t: Tracker, clock: Clock, e: Event, before: seq<Sent>, after: seq<Sent>,
                                      nothing: bool, s: Sent)
    requires AllDue(t, clock, e, before, after) && (!nothing ==> Due(t, clock, e, s))
    ensures AllDue(t, clock, e, before, after + Unless(nothing, s))
  {
  }

  lemma {:induction false} DispatchesDue(t: Tracker, clock: Clock, e: Event, before: seq<Sent>, after: seq<Sent>,
                                         parked: seq<Incomplete>)
    requires AllDue(t, clock, e, before, after) && (e.CertificateReceived? || e.DigestReceived?)
    ensures AllDue(t, clock, e, before, after + Dispatches(parked))
  {
    var sent := after + Dispatches(parked);
    DispatchesRedispatch(parked);
    forall i | |after| <= i < |sent| ensures Due(t, clock, e, sent[i]) {
      assert sent[i] in Dispatches(parked);
    }
  }

  lemma {:induction false} DispatchesRedispatch(parked: seq<Incomplete>)
    ensures forall s :: s in Dispatches(parked) ==> s.Redispatch?
  {
    if parked != [] {
      DispatchesRedispatch(parked[1..]);
    }
  }

  lemma {:induction false} NoneTracked(t: Tracker, kind: Kind)
    ensures Tracked(t, kind) == {} <==> forall id :: id !in Ids(Tracked(t, kind))
  {
    if o :| o in Tracked(t, kind) {
      assert o.id in Ids(Tracked(t, kind));
    }
  }

  lemma {:induction false} DrainsDue(t: Tracker, clock: Clock, e: Event)
    ensures AllDue(t, clock, e, Publish(t).sent, Drained(t, clock).sent)
  {
    var cs := Expired(t.certificates, TRACKED_OBJECT_TIMEOUT, clock.certificates.collectAt);
    var hs := Expired(t.headers, TRACKED_OBJECT_TIMEOUT, clock.headers.collectAt);
    var bs := Expired(t.batches, TRACKED_OBJECT_TIMEOUT, clock.batches.collectAt);
    var p := Publish(t).sent;
    OneMoreDue(t, clock, e, p, p, cs == {}, FetchCertificates(cs, AllPeers));
    var sent := p + Unless(cs == {}, FetchCertificates(cs, AllPeers));
    OneMoreDue(t, clock, e, p, sent, hs == {}, FetchHeaders(hs, AllPeers));
    sent := sent + Unless(hs == {}, FetchHeaders(hs, AllPeers));
    OneMoreDue(t, clock, e, p, sent, bs == {}, SyncDigests(bs));
  }

  lemma {:induction false} HeaderDue(t: Tracker, clock: Clock, e: Event)
    requires e.HeaderReceived? && AllDue(t, clock, e, Publish(t).sent, Drained(t, clock).sent)
    ensures AllDue(t, clock, e, Publish(t).sent, Pass(t, clock, e).sent)
  {
    var missing, d, p := MissingData(e), Drained(t, clock), Publish(t).sent;
    var ids := missing.missingCertificates - Ids(d.certificates);
    var fetch := FetchCertificates(ids, OnePeer(e.sender));
    OneMoreDue(t, clock, e, p, d.sent, ids == {}, fetch);
    var sent := d.sent + Unless(ids == {}, fetch);
    OneMoreDue(t, clock, e, p, sent, false, SyncDigests(missing.missingBatches));
  }

  lemma {:induction false} EventDue(t: Tracker, clock: Clock, e: Event)
    requires AllDue(t, clock, e, Publish(t).sent, Drained(t, clock).sent)
    ensures AllDue(t, clock, e, Publish(t).sent, Pass(t, clock, e).sent)
  {
    var d, p := Drained(t, clock), Publish(t).sent;
    match e {
      case OrphanReceived(missing, sender) =>
        var ids := missing - Ids(d.certificates);
        OneMoreDue(t, clock, e, p, d.sent, ids == {}, FetchCertificates(ids, OnePeer(sender)));
      case CertificateReceived(id, headerId, headerStored, sender) =>
        var sent := d.sent + Dispatches(DropCertificate(d.parked, id));
        DispatchesDue(t, clock, e, p, d.sent, DropCertificate(d.parked, id));
        if headerId.Some? && !headerStored {
          var ids := {headerId.value} - Ids(d.headers);
          OneMoreDue(t, clock, e, p, sent, ids == {}, FetchHeaders(ids, OnePeer(sender)));
        }
      case DigestReceived(id) =>
        DispatchesDue(t, clock, e, p, d.sent, DropBatch(d.parked, id));
      case HeaderReceived(_, _, _, _, _) => HeaderDue(t, clock, e);
      case ResetReceived =>
    }
  }

  /** A pass first sends its one status, by what is tracked at that moment, and everything it
      sends after that is due. */
  lemma {:induction false} PassSendsDue(t: Tracker, clock: Clock, e: Event) returns (complete: bool)
    ensures complete <==> forall kind, id :: id !in Ids(Tracked(t, kind))
    ensures AllDue(t, clock, e, t.sent + [Status(complete)], Pass(t, clock, e).sent)
  {
    complete := t.certificates == {} && t.headers == {} && t.batches == {};
    NoneTracked(t, OfCertificates);
    NoneTracked(t, OfHeaders);
    NoneTracked(t, OfBatches);
    DrainsDue(t, clock, e);
    EventDue(t, clock, e);
  }

  // --- stays ---

  /** Passes below m whose drain forgets the id, whose event ends its tracking, and whose
      event names it as missing. */
  function Forgettings(inputs: seq<Input>, run: seq<Tracker>, kind: Kind, id: Digest, m: nat): nat
    requires m <= |inputs| < |run|
  {
    Count((i: nat) => i < |inputs| && ForgetsAt(inputs, run, kind, id, i), m)
  }

  function Leavings(inputs: seq<Input>, run: seq<Tracker>, kind: Kind, id: Digest, m: nat): nat
    requires m <= |inputs| < |run|
  {
    Count((i: nat) => i < |inputs| && LeavesAt(inputs, run, kind, id, i), m)
  }

  function Namings(inputs: seq<Input>, kind: Kind, id: Digest, m: nat): nat
    requires m <= |inputs|
  {
    Count((i: nat) => i < |inputs| && Wants(inputs[i].1, kind, id), m)
  }

  /** An event ends the tracking of an id only by its arrival or a reset, and starts it only
      by naming it. */
  lemma {:induction false} LeavesByEnd(inputs: seq<Input>, run: seq<Tracker>, kind: Kind, id: Digest, i: nat)
    requires IsRun(inputs, run) && i < |inputs|
    ensures LeavesAt(inputs, run, kind, id, i) ==> Arrives(inputs[i].1, kind, id) || inputs[i].1.ResetReceived?
    ensures EntersAt(inputs, run, kind, id, i) ==> Wants(inputs[i].1, kind, id)
  {
    assert PassAt(inputs, run, i);
    TrackedAfter(Drained(run[i], inputs[i].0), inputs[i].1, inputs[i].0, kind, id);
  }

  lemma {:induction false} StayNext(inputs: seq<Input>, run: seq<Tracker>, kind: Kind, id: Digest, i: nat)
    requires i < |inputs| < |run|
    ensures Bit(id in Ids(Tracked(run[i + 1], kind))) + Bit(ForgetsAt(inputs, run, kind, id, i))
              + Bit(LeavesAt(inputs, run, kind, id, i))
         == Bit(id in Ids(Tracked(run[i], kind))) + Bit(EntersAt(inputs, run, kind, id, i))
  {
    DrainedTracked(run[i], inputs[i].0, kind);
  }

  /** Each entry ends in one forgetting drain, one arrival or one reset, or still goes on. */
  lemma {:induction false} EntriesBalance(inputs: seq<Input>, run: seq<Tracker>, kind: Kind, id: Digest, m: nat)
    requires IsRun(inputs, run) && m <= |inputs|
    ensures Entries(inputs, run, kind, id, m)
         == Forgettings(inputs, run, kind, id, m) + Leavings(inputs, run, kind, id, m)
            + Bit(id in Ids(Tracked(run[m], kind)))
  {
    var tracked := (i: nat) => i <= |inputs| && id in Ids(Tracked(run[i], kind));
    var enters := (i: nat) => i < |inputs| && EntersAt(inputs, run, kind, id, i);
    var forgets := (i: nat) => i < |inputs| && ForgetsAt(inputs, run, kind, id, i);
    var leaves := (i: nat) => i < |inputs| && LeavesAt(inputs, run, kind, id, i);
    forall i: nat | i < m
      ensures Bit(tracked(i + 1)) + Bit(forgets(i)) + Bit(leaves(i)) == Bit(tracked(i)) + Bit(enters(i))
    {
      StayNext(inputs, run, kind, id, i);
    }
    CountBalance(tracked, enters, forgets, leaves, m);
  }

  /** With one reading per object in every drain, a certificate or header is asked for at most
      twice for every pass that names it as missing. */
  lemma {:induction false} AtMostTwice(inputs: seq<Input>, run: seq<Tracker>, kind: Kind, id: Digest, m: nat)
    requires IsRun(inputs, run) && m <= |inputs| && !kind.OfBatches?
    requires forall i :: 0 <= i < m ==> ReadsOnce(run[i], inputs[i].0, kind)
    ensures TimeOuts(inputs, run, kind, id, m) <= Entries(inputs, run, kind, id, m) <= Namings(inputs, kind, id, m)
    ensures Commands(run[m].sent, kind, id) <= 2 * Namings(inputs, kind, id, m)
  {
    var timesOut := (i: nat) => i < |inputs| && TimesOutAt(inputs, run, kind, id, i);
    var forgets := (i: nat) => i < |inputs| && ForgetsAt(inputs, run, kind, id, i);
    forall i: nat | i < m ensures timesOut(i) == forgets(i) {
      RunUnique(inputs, run, kind, i);
      OneReadingReissues(run[i], inputs[i].0, kind, id);
    }
    CountSame(timesOut, forgets, m);
    EntriesBalance(inputs, run, kind, id, m);
    EntriesAreNamed(inputs, run, kind, id, m);
    CommandsAreEntriesAndTimeOuts(inputs, run, kind, id, m);
  }

  lemma {:induction false} EntriesAreNamed(inputs: seq<Input>, run: seq<Tracker>, kind: Kind, id: Digest, m: nat)
    requires IsRun(inputs, run) && m <= |inputs|
    ensures Entries(inputs, run, kind, id, m) <= Namings(inputs, kind, id, m)
  {
    var enters := (i: nat) => i < |inputs| && EntersAt(inputs, run, kind, id, i);
    var wants := (i: nat) => i < |inputs| && Wants(inputs[i].1, kind, id);
    forall i: nat | i < m && enters(i) ensures wants(i) {
      LeavesByEnd(inputs, run, kind, id, i);
    }
    CountFewer(enters, wants, m);
  }
}
