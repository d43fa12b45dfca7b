/** What becomes of a header that arrives before the data it refers to
    (calf/src/primary/sync_tracker.rs). */
module ParkedHeaders {
  import Collections
  import Types
  import TrackedSet
  import opened SyncTracker

  // --- the history of one header ---

  /** Pass j received a header with a list entry that was not stored. */
  predicate Parks(inputs: seq<Input>, j: nat)
    requires j < |inputs|
  {
    var e := inputs[j].1;
    && e.HeaderReceived?
    && ((exists c | c in e.header.certificatesIds :: c !in e.storedCertificates)
        || (exists b | b in e.header.digests :: b !in e.storedBatches))
  }

  function CertificatesIn(inputs: seq<Input>, from: nat, to: nat): set<Types.Digest>
    requires to <= |inputs|
  {
    set i | from <= i < to && inputs[i].1.CertificateReceived? :: inputs[i].1.id
  }

  function BatchesIn(inputs: seq<Input>, from: nat, to: nat): set<Types.Digest>
    requires to <= |inputs|
  {
    set i | from <= i < to && inputs[i].1.DigestReceived? :: inputs[i].1.id
  }

  /** What the header of pass j still misses after m passes: its list entries that were not
      stored on its arrival and have not been received since. */
  function Residual(inputs: seq<Input>, j: nat, m: nat): Incomplete
    requires j < m <= |inputs| && Parks(inputs, j)
  {
    var e := inputs[j].1;
    Incomplete(
      (set c | c in e.header.certificatesIds && c !in e.storedCertificates && c !in CertificatesIn(inputs, j + 1, m)),
      (set b | b in e.header.digests && b !in e.storedBatches && b !in BatchesIn(inputs, j + 1, m)),
      e.header, e.sender)
  }

  /** The header of pass j is waiting after m passes: it was parked, it still misses
      something, and no reset came in between. */
  predicate Alive(inputs: seq<Input>, j: nat, m: nat)
    requires m <= |inputs|
  {
    && j < m && Parks(inputs, j) && !Residual(inputs, j, m).Complete()
    && forall i :: j < i < m ==> !inputs[i].1.ResetReceived?
  }

  /** Its place in the parked list: at most one entry. */
  function Slot(inputs: seq<Input>, j: nat, m: nat): seq<Incomplete>
    requires m <= |inputs|
  {
    if Alive(inputs, j, m) then [Residual(inputs, j, m)] else []
  }

  /** f(0) + f(1) + ... + f(k - 1) */
  function Concat<T>(f: nat -> seq<T>, k: nat): seq<T> {
    if k == 0 then [] else Concat(f, k - 1) + f(k - 1)
  }

  /** The entries of all headers received so far that wait after m passes, oldest first. */
  function WaitingAfter(inputs: seq<Input>, m: nat): seq<Incomplete>
    requires m <= |inputs|
  {
    Concat((j: nat) => Slot(inputs, j, m), m)
  }

  /** Pass m completes the header of pass j. */
  function Completion(inputs: seq<Input>, j: nat, m: nat): seq<Sent>
    requires m < |inputs|
  {
    if Alive(inputs, j, m) && !Alive(inputs, j, m + 1) && !inputs[m].1.ResetReceived?
    then [Redispatch(inputs[j].1.header, inputs[j].1.sender)] else []
  }

  /** The headers pass m completes, oldest first. */
  function CompletedBy(inputs: seq<Input>, m: nat): seq<Sent>
    requires m < |inputs|
  {
    Concat((j: nat) => Completion(inputs, j, m), m)
  }

  // --- one pass on the parked list ---

  function ParkedStep(parked: seq<Incomplete>, e: Event): seq<Incomplete> {
    match e {
      case OrphanReceived(_, _) => parked
      case CertificateReceived(id, _, _, _) => StillMissing(DropCertificate(parked, id))
      case DigestReceived(id) => StillMissing(DropBatch(parked, id))
      case HeaderReceived(_, _, _, _, _) => parked + if MissingData(e).Complete() then [] else [MissingData(e)]
      case ResetReceived => []
    }
  }

  function DispatchStep(parked: seq<Incomplete>, e: Event): seq<Sent> {
    if e.CertificateReceived? then Dispatches(DropCertificate(parked, e.id))
    else if e.DigestReceived? then Dispatches(DropBatch(parked, e.id))
    else []
  }

  function Redispatches(sent: seq<Sent>): seq<Sent> {
    if sent == [] then []
    else (if sent[0].Redispatch? then [sent[0]] else []) + Redispatches(sent[1..])
  }

  lemma {:induction false} RedispatchesAppend(a: seq<Sent>, b: seq<Sent>)
    ensures Redispatches(a + b) == Redispatches(a) + Redispatches(b)
  {
    if a != [] {
      RedispatchesAppend(a[1..], b);
      assert (a + b)[1..] == a[1..] + b;
    } else {
      assert a + b == b;
    }
  }

  lemma {:induction false} DispatchesAreRedispatches(parked: seq<Incomplete>)
    ensures Redispatches(Dispatches(parked)) == Dispatches(parked)
  {
    if parked != [] {
      DispatchesAreRedispatches(parked[1..]);
      var first := if parked[0].Complete() then [Redispatch(parked[0].header, parked[0].sender)] else [];
      RedispatchesAppend(first, Dispatches(parked[1..]));
      assert Redispatches(first) == first;
    }
  }

  lemma {:induction false} TrackingSendsNone(t: Tracker, missing: set<Types.Digest>, sender: Types.PeerId,
                                             at: Types.Digest -> int)
    ensures TrackCertificates(t, missing, sender, at).parked == t.parked
    ensures TrackHeaders(t, missing, sender, at).parked == t.parked
    ensures Redispatches(TrackCertificates(t, missing, sender, at).sent) == Redispatches(t.sent)
    ensures Redispatches(TrackHeaders(t, missing, sender, at).sent) == Redispatches(t.sent)
  {
    var cs, hs := missing - TrackedSet.Ids(t.certificates), missing - TrackedSet.Ids(t.headers);
    RedispatchesAppend(t.sent, Unless(cs == {}, FetchCertificates(cs, OnePeer(sender))));
    RedispatchesAppend(t.sent, Unless(hs == {}, FetchHeaders(hs, OnePeer(sender))));
  }

  lemma {:induction false} PublishRetrySendNone(t: Tracker, clock: Clock)
    ensures Retry(Publish(t), clock).parked == t.parked
    ensures Redispatches(Retry(Publish(t), clock).sent) == Redispatches(t.sent)
  {
    var p := Publish(t);
    RedispatchesAppend(t.sent, p.sent[|t.sent|..]);
    assert p.sent == t.sent + p.sent[|t.sent|..];
    var cs := TrackedSet.Expired(p.certificates, TRACKED_OBJECT_TIMEOUT, clock.certificates.collectAt);
    var hs := TrackedSet.Expired(p.headers, TRACKED_OBJECT_TIMEOUT, clock.headers.collectAt);
    var bs := TrackedSet.Expired(p.batches, TRACKED_OBJECT_TIMEOUT, clock.batches.collectAt);
    var a := Unless(cs == {}, FetchCertificates(cs, AllPeers));
    var b := Unless(hs == {}, FetchHeaders(hs, AllPeers));
    var c := Unless(bs == {}, SyncDigests(bs));
    RedispatchesAppend(p.sent, a);
    RedispatchesAppend(p.sent + a, b);
    RedispatchesAppend(p.sent + a + b, c);
  }

  lemma {:induction false} HandleParked(t: Tracker, e: Event, clock: Clock)
    ensures Handle(t, e, clock).parked == ParkedStep(t.parked, e)
    ensures Redispatches(Handle(t, e, clock).sent) == Redispatches(t.sent) + DispatchStep(t.parked, e)
  {
    match e {
      case OrphanReceived(missing, sender) => TrackingSendsNone(t, missing, sender, clock.insertAt);
      case CertificateReceived(id, headerId, headerStored, sender) =>
        var dropped := DropCertificate(t.parked, id);
        var t1 := ProcessParked(t.(certificates := TrackedSet.Without(t.certificates, id), parked := dropped));
        RedispatchesAppend(t.sent, Dispatches(dropped));
        DispatchesAreRedispatches(dropped);
        if headerId.Some? {
          TrackingSendsNone(t1, {headerId.value}, sender, clock.insertAt);
        }
      case DigestReceived(id) =>
        RedispatchesAppend(t.sent, Dispatches(DropBatch(t.parked, id)));
        DispatchesAreRedispatches(DropBatch(t.parked, id));
      case HeaderReceived(header, id, sender, _, _) =>
        var t1 := t.(headers := TrackedSet.Without(t.headers, id));
        var missing := MissingData(e);
        TrackingSendsNone(t1, missing.missingCertificates, sender, clock.insertAt);
        var t2 := if missing.missingCertificates == {} then t1
                  else TrackCertificates(t1, missing.missingCertificates, sender, clock.insertAt);
        RedispatchesAppend(t2.sent, [SyncDigests(missing.missingBatches)]);
      case ResetReceived =>
    }
  }

  // --- the closed form is kept ---

  lemma {:induction false} StillMissingAppend(a: seq<Incomplete>, b: seq<Incomplete>)
    ensures StillMissing(a + b) == StillMissing(a) + StillMissing(b)
    ensures Dispatches(a + b) == Dispatches(a) + Dispatches(b)
  {
    if a != [] {
      StillMissingAppend(a[1..], b);
      assert (a + b)[1..] == a[1..] + b;
    } else {
      assert a + b == b;
    }
  }

  lemma {:induction false} DropAppend(a: seq<Incomplete>, b: seq<Incomplete>, id: Types.Digest)
    ensures DropCertificate(a + b, id) == DropCertificate(a, id) + DropCertificate(b, id)
    ensures DropBatch(a + b, id) == DropBatch(a, id) + DropBatch(b, id)
  {
    if a != [] {
      DropAppend(a[1..], b, id);
      assert (a + b)[1..] == a[1..] + b;
    } else {
      assert a + b == b;
    }
  }

  lemma {:induction false} ReceivedIn(inputs: seq<Input>, from: nat, m: nat)
    requires from <= m < |inputs|
    ensures CertificatesIn(inputs, from, m + 1)
         == CertificatesIn(inputs, from, m) + if inputs[m].1.CertificateReceived? then {inputs[m].1.id} else {}
    ensures BatchesIn(inputs, from, m + 1)
         == BatchesIn(inputs, from, m) + if inputs[m].1.DigestReceived? then {inputs[m].1.id} else {}
  {
  }

  /** What is left of an entry after an event. */
  function Shrunk(r: Incomplete, e: Event): Incomplete {
    if e.CertificateReceived? then r.(missingCertificates := r.missingCertificates - {e.id})
    else if e.DigestReceived? then r.(missingBatches := r.missingBatches - {e.id})
    else r
  }

  lemma {:induction false} ResidualStep(inputs: seq<Input>, j: nat, m: nat)
    requires j < m < |inputs| && Parks(inputs, j)
    ensures Residual(inputs, j, m + 1) == Shrunk(Residual(inputs, j, m), inputs[m].1)
  {
    ReceivedIn(inputs, j + 1, m);
  }

  lemma {:induction false} AliveStep(inputs: seq<Input>, j: nat, m: nat)
    requires j < m < |inputs|
    ensures Alive(inputs, j, m + 1)
       <==> && Alive(inputs, j, m) && !inputs[m].1.ResetReceived?
            && !Shrunk(Residual(inputs, j, m), inputs[m].1).Complete()
  {
    if Parks(inputs, j) {
      ResidualStep(inputs, j, m);
    }
  }

  lemma {:induction false} Single(r: Incomplete)
    ensures StillMissing([r]) == if r.Complete() then [] else [r]
    ensures Dispatches([r]) == if r.Complete() then [Redispatch(r.header, r.sender)] else []
  {
    assert [r][1..] == [];
  }

  lemma {:induction false} OneEntry(r: Incomplete, e: Event)
    requires !r.Complete()
    ensures !e.HeaderReceived? ==>
      ParkedStep([r], e) == if e.ResetReceived? || Shrunk(r, e).Complete() then [] else [Shrunk(r, e)]
    ensures DispatchStep([r], e) ==
      if (e.CertificateReceived? || e.DigestReceived?) && Shrunk(r, e).Complete()
      then [Redispatch(r.header, r.sender)] else []
  {
    Single(Shrunk(r, e));
    if e.CertificateReceived? {
      assert DropCertificate([r], e.id) == [Shrunk(r, e)];
    } else if e.DigestReceived? {
      assert DropBatch([r], e.id) == [Shrunk(r, e)];
    }
  }

  lemma {:induction false} SlotStep(inputs: seq<Input>, j: nat, m: nat)
    requires j < m < |inputs|
    ensures
      var e := inputs[m].1;
      && Slot(inputs, j, m + 1) == (if e.HeaderReceived? then Slot(inputs, j, m) else ParkedStep(Slot(inputs, j, m), e))
      && DispatchStep(Slot(inputs, j, m), e) == Completion(inputs, j, m)
  {
    AliveStep(inputs, j, m);
    if Alive(inputs, j, m) {
      ResidualStep(inputs, j, m);
      OneEntry(Residual(inputs, j, m), inputs[m].1);
    }
  }

  lemma {:induction false} StepAppend(a: seq<Incomplete>, b: seq<Incomplete>, e: Event)
    ensures !e.HeaderReceived? ==> ParkedStep(a + b, e) == ParkedStep(a, e) + ParkedStep(b, e)
    ensures DispatchStep(a + b, e) == DispatchStep(a, e) + DispatchStep(b, e)
  {
    if e.CertificateReceived? {
      DropAppend(a, b, e.id);
      StillMissingAppend(DropCertificate(a, e.id), DropCertificate(b, e.id));
    } else if e.DigestReceived? {
      DropAppend(a, b, e.id);
      StillMissingAppend(DropBatch(a, e.id), DropBatch(b, e.id));
    }
  }

  /** A list of entries stepped entry by entry. */
  lemma {:induction false} ConcatStep(f: nat -> seq<Incomplete>, g: nat -> seq<Incomplete>,
                                      h: nat -> seq<Sent>, e: Event, k: nat)
    requires forall j: nat :: j < k ==> g(j) == (if e.HeaderReceived? then f(j) else ParkedStep(f(j), e))
    requires forall j: nat :: j < k ==> h(j) == DispatchStep(f(j), e)
    ensures Concat(g, k) == if e.HeaderReceived? then Concat(f, k) else ParkedStep(Concat(f, k), e)
    ensures Concat(h, k) == DispatchStep(Concat(f, k), e)
  {
    if k > 0 {
      ConcatStep(f, g, h, e, k - 1);
      StepAppend(Concat(f, k - 1), f(k - 1), e);
    }
  }

  lemma {:induction false} WaitingStep(inputs: seq<Input>, m: nat)
    requires m < |inputs|
    ensures Concat((j: nat) => Slot(inputs, j, m + 1), m)
         == (if inputs[m].1.HeaderReceived? then WaitingAfter(inputs, m)
             else ParkedStep(WaitingAfter(inputs, m), inputs[m].1))
    ensures DispatchStep(WaitingAfter(inputs, m), inputs[m].1) == CompletedBy(inputs, m)
  {
    var f, g := (j: nat) => Slot(inputs, j, m), (j: nat) => Slot(inputs, j, m + 1);
    var h := (j: nat) => Completion(inputs, j, m);
    forall j: nat | j < m
      ensures g(j) == if inputs[m].1.HeaderReceived? then f(j) else ParkedStep(f(j), inputs[m].1)
      ensures h(j) == DispatchStep(f(j), inputs[m].1)
    {
      SlotStep(inputs, j, m);
    }
    ConcatStep(f, g, h, inputs[m].1, m);
  }

  lemma {:induction false} WaitingNext(inputs: seq<Input>, m: nat)
    requires m < |inputs|
    ensures WaitingAfter(inputs, m + 1) == ParkedStep(WaitingAfter(inputs, m), inputs[m].1)
  {
    WaitingStep(inputs, m);
    NewSlot(inputs, m);
    var g := (j: nat) => Slot(inputs, j, m + 1);
    assert WaitingAfter(inputs, m + 1) == Concat(g, m) + g(m);
  }

  lemma {:induction false} PassParked(t: Tracker, clock: Clock, e: Event)
    ensures Pass(t, clock, e).parked == ParkedStep(t.parked, e)
    ensures Redispatches(Pass(t, clock, e).sent) == Redispatches(t.sent) + DispatchStep(t.parked, e)
  {
    PublishRetrySendNone(t, clock);
    HandleParked(Retry(Publish(t), clock), e, clock);
  }

  lemma {:induction false} NextParked(inputs: seq<Input>, run: seq<Tracker>, m: nat)
    requires IsRun(inputs, run) && m < |inputs|
    ensures run[m + 1].parked == ParkedStep(run[m].parked, inputs[m].1)
    ensures Redispatches(run[m + 1].sent) == Redispatches(run[m].sent) + DispatchStep(run[m].parked, inputs[m].1)
  {
    assert PassAt(inputs, run, m);
    PassParked(run[m], inputs[m].0, inputs[m].1);
  }

  /** Two sequences that follow the same steps from the same start are the same. */
  lemma {:induction false} SameSteps<S, E>(step: (S, E) -> S, events: seq<E>, a: seq<S>, b: seq<S>, m: nat)
    requires |a| == |b| == |events| + 1 && m <= |events| && a[0] == b[0]
    requires forall i :: 0 <= i < |events| ==> a[i + 1] == step(a[i], events[i]) && b[i + 1] == step(b[i], events[i])
    ensures a[m] == b[m]
  {
    if m > 0 {
      SameSteps(step, events, a, b, m - 1);
    }
  }

  /** After every pass of every run the parked list is exactly the waiting headers, in
      the order they came, each with what it was parked with minus what arrived since.
      No entry is complete. */
  lemma {:induction false} ParkedExact(inputs: seq<Input>, run: seq<Tracker>, m: nat)
    requires IsRun(inputs, run) && m <= |inputs|
    ensures run[m].parked == WaitingAfter(inputs, m)
  {
    var n := |inputs|;
    var events := seq(n, i requires 0 <= i < n => inputs[i].1);
    var parked := seq(n + 1, i requires 0 <= i <= n => run[i].parked);
    var waiting := seq(n + 1, i requires 0 <= i <= n => WaitingAfter(inputs, i));
    forall i | 0 <= i < n ensures parked[i + 1] == ParkedStep(parked[i], events[i]) {
      NextParked(inputs, run, i);
    }
    forall i | 0 <= i < n ensures waiting[i + 1] == ParkedStep(waiting[i], events[i]) {
      WaitingNext(inputs, i);
    }
    SameSteps(ParkedStep, events, parked, waiting, m);
  }

  lemma {:induction false} ParksIff(inputs: seq<Input>, j: nat)
    requires j < |inputs|
    ensures Parks(inputs, j) <==> inputs[j].1.HeaderReceived? && !MissingData(inputs[j].1).Complete()
  {
    var e := inputs[j].1;
    if e.HeaderReceived? {
      forall id
        ensures id in MissingData(e).missingCertificates
           <==> id in e.header.certificatesIds && id !in e.storedCertificates
        ensures id in MissingData(e).missingBatches <==> id in e.header.digests && id !in e.storedBatches
      {
      }
    }
  }

  lemma {:induction false} FirstResidual(inputs: seq<Input>, j: nat)
    requires j < |inputs| && Parks(inputs, j)
    ensures Residual(inputs, j, j + 1) == MissingData(inputs[j].1)
  {
    assert CertificatesIn(inputs, j + 1, j + 1) == {} && BatchesIn(inputs, j + 1, j + 1) == {};
  }

  lemma {:induction false} NewSlot(inputs: seq<Input>, j: nat)
    requires j < |inputs|
    ensures Slot(inputs, j, j + 1) == if Parks(inputs, j) then [MissingData(inputs[j].1)] else []
  {
    ParksIff(inputs, j);
    if Parks(inputs, j) {
      FirstResidual(inputs, j);
    }
  }

  /** Pass m sends back to the elector exactly the headers whose last missing piece it
      delivers; a reset sends none. */
  lemma {:induction false} RedispatchExact(inputs: seq<Input>, run: seq<Tracker>, m: nat)
    requires IsRun(inputs, run) && m < |inputs|
    ensures Redispatches(run[m + 1].sent)
         == Redispatches(run[m].sent) + CompletedBy(inputs, m)
  {
    ParkedExact(inputs, run, m);
    NextParked(inputs, run, m);
    WaitingStep(inputs, m);
  }

  /** In every run a received header is parked exactly when a list entry of it is not stored, with
      exactly the entries that are not. */
  lemma {:induction false} HeaderParks(inputs: seq<Input>, run: seq<Tracker>, j: nat)
    requires IsRun(inputs, run) && j < |inputs| && inputs[j].1.HeaderReceived?
    ensures
      var e := inputs[j].1;
      var missingCertificates := set c | c in e.header.certificatesIds && c !in e.storedCertificates;
      var missingBatches := set b | b in e.header.digests && b !in e.storedBatches;
      run[j + 1].parked == run[j].parked +
        if missingCertificates == {} && missingBatches == {} then []
        else [Incomplete(missingCertificates, missingBatches, e.header, e.sender)]
  {
    NextParked(inputs, run, j);
  }

  // --- how often a header is sent back ---

  /** Pass i completes the header of pass j. */
  predicate Completes(inputs: seq<Input>, j: nat, i: nat) {
    i < |inputs| && Completion(inputs, j, i) != []
  }

  /** Its data was all there after k passes, and no reset came before. */
  predicate DeliveredBy(inputs: seq<Input>, j: nat, k: nat)
    requires k <= |inputs|
  {
    && j < k && Parks(inputs, j) && Residual(inputs, j, k).Complete()
    && forall i :: j < i < k ==> !inputs[i].1.ResetReceived?
  }

  ghost predicate Delivered(inputs: seq<Input>, j: nat, m: nat)
    requires m <= |inputs|
  {
    exists k: nat :: k <= m && DeliveredBy(inputs, j, k)
  }

  /** What is missing only shrinks. */
  lemma {:induction false} ResidualShrinks(inputs: seq<Input>, j: nat, m: nat, m': nat)
    requires j < m <= m' <= |inputs| && Parks(inputs, j)
    ensures Residual(inputs, j, m).Complete() ==> Residual(inputs, j, m').Complete()
  {
    assert CertificatesIn(inputs, j + 1, m) <= CertificatesIn(inputs, j + 1, m');
    assert BatchesIn(inputs, j + 1, m) <= BatchesIn(inputs, j + 1, m');
  }

  /** A header waits without interruption: once it stops it never waits again. */
  lemma {:induction false} WaitsOnce(inputs: seq<Input>, j: nat, m: nat, m': nat)
    requires j < m <= m' <= |inputs| && Alive(inputs, j, m')
    ensures Alive(inputs, j, m)
  {
    ResidualShrinks(inputs, j, m, m');
  }

  lemma {:induction false} CompletesIff(inputs: seq<Input>, j: nat, m: nat)
    requires m < |inputs|
    ensures Completes(inputs, j, m) <==> Delivered(inputs, j, m + 1) && !Delivered(inputs, j, m)
    ensures Delivered(inputs, j, m) ==> Delivered(inputs, j, m + 1)
  {
    if Delivered(inputs, j, m) {
      var k: nat :| k <= m && DeliveredBy(inputs, j, k);
      ResidualShrinks(inputs, j, k, m);
    }
    if Completes(inputs, j, m) {
      assert DeliveredBy(inputs, j, m + 1);
    }
    if Delivered(inputs, j, m + 1) && !Delivered(inputs, j, m) {
      var k: nat :| k <= m + 1 && DeliveredBy(inputs, j, k);
      ParksIff(inputs, j);
      FirstResidual(inputs, j);
      assert j < m && !DeliveredBy(inputs, j, m);
    }
  }

  /** The number of passes below m that send the header of pass j back is one if its data
      was all there before a reset, and none otherwise. */
  lemma {:induction false} SentBackOnce(inputs: seq<Input>, j: nat, m: nat)
    requires m <= |inputs|
    ensures Collections.Count((i: nat) => Completes(inputs, j, i), m) == if Delivered(inputs, j, m) then 1 else 0
  {
    if m > 0 {
      SentBackOnce(inputs, j, m - 1);
      CompletesIff(inputs, j, m - 1);
    }
  }

  /** A pass after j and before m received this certificate, or this batch. */
  predicate CertificateCame(inputs: seq<Input>, j: nat, m: nat, id: Types.Digest)
    requires m <= |inputs|
  {
    exists i | j < i < m :: inputs[i].1.CertificateReceived? && inputs[i].1.id == id
  }

  predicate BatchCame(inputs: seq<Input>, j: nat, m: nat, id: Types.Digest)
    requires m <= |inputs|
  {
    exists i | j < i < m :: inputs[i].1.DigestReceived? && inputs[i].1.id == id
  }

  /** Every list entry of the header of pass j was stored on its arrival or has come since. */
  predicate AllCame(inputs: seq<Input>, j: nat, m: nat)
    requires j < m <= |inputs| && inputs[j].1.HeaderReceived?
  {
    var e := inputs[j].1;
    && (forall c | c in e.header.certificatesIds :: c in e.storedCertificates || CertificateCame(inputs, j, m, c))
    && (forall b | b in e.header.digests :: b in e.storedBatches || BatchCame(inputs, j, m, b))
  }

  lemma {:induction false} ResidualIff(inputs: seq<Input>, j: nat, m: nat)
    requires j < m <= |inputs| && Parks(inputs, j)
    ensures Residual(inputs, j, m).Complete() <==> AllCame(inputs, j, m)
  {
    var e, r := inputs[j].1, Residual(inputs, j, m);
    forall id
      ensures id in CertificatesIn(inputs, j + 1, m) <==> CertificateCame(inputs, j, m, id)
      ensures id in BatchesIn(inputs, j + 1, m) <==> BatchCame(inputs, j, m, id)
    {
    }
    forall id
      ensures id in r.missingCertificates
         <==> id in e.header.certificatesIds && id !in e.storedCertificates && !CertificateCame(inputs, j, m, id)
      ensures id in r.missingBatches
         <==> id in e.header.digests && id !in e.storedBatches && !BatchCame(inputs, j, m, id)
    {
    }
  }

  lemma {:induction false} ParksOnArrival(inputs: seq<Input>, j: nat)
    requires j < |inputs|
    ensures Parks(inputs, j) <==> inputs[j].1.HeaderReceived? && !AllCame(inputs, j, j + 1)
  {
    if inputs[j].1.HeaderReceived? {
      var m := j + 1;
      assert forall id :: !CertificateCame(inputs, j, m, id) && !BatchCame(inputs, j, m, id);
    }
  }

  /** Pass m sends the header of pass j back exactly when it brings the last of its list entries
      that was not stored on arrival, and no reset has come in between. */
  lemma {:induction false} CompletesExact(inputs: seq<Input>, j: nat, m: nat)
    requires j < m < |inputs|
    ensures Completes(inputs, j, m)
       <==> && inputs[j].1.HeaderReceived? && AllCame(inputs, j, m + 1) && !AllCame(inputs, j, m)
            && forall i :: j < i <= m ==> !inputs[i].1.ResetReceived?
  {
    ParksOnArrival(inputs, j);
    if inputs[j].1.HeaderReceived? {
      if Parks(inputs, j) {
        ResidualIff(inputs, j, m);
        ResidualIff(inputs, j, m + 1);
      } else {
        CameStays(inputs, j, j + 1, m);
      }
    }
  }

  lemma {:induction false} CameStays(inputs: seq<Input>, j: nat, m: nat, m': nat)
    requires j < m <= m' <= |inputs| && inputs[j].1.HeaderReceived? && AllCame(inputs, j, m)
    ensures AllCame(inputs, j, m')
  {
    assert forall id :: CertificateCame(inputs, j, m, id) ==> CertificateCame(inputs, j, m', id);
    assert forall id :: BatchCame(inputs, j, m, id) ==> BatchCame(inputs, j, m', id);
  }
}
