/** What the published synchronisation status says about the data that is missing
    (calf/src/primary/sync_tracker.rs, calf/src/types/sync.rs). */
module SyncStatus {
  import opened Types
  import opened TrackedSet
  import opened SyncTracker
  import opened FetchBookkeeping

  /** It started at j and has not been stopped since. */
  predicate HeldSince(starts: nat -> bool, stops: nat -> bool, j: nat, m: nat) {
    j < m && starts(j) && forall i :: j < i < m ==> !stops(i)
  }

  ghost predicate Held(starts: nat -> bool, stops: nat -> bool, m: nat) {
    exists j :: HeldSince(starts, stops, j, m)
  }

  lemma {:induction false} HeldNext(starts: nat -> bool, stops: nat -> bool, m: nat)
    ensures Held(starts, stops, m + 1) <==> starts(m) || (Held(starts, stops, m) && !stops(m))
  {
    if starts(m) {
      assert HeldSince(starts, stops, m, m + 1);
    }
    if Held(starts, stops, m) && !stops(m) {
      var j: nat :| HeldSince(starts, stops, j, m);
      assert HeldSince(starts, stops, j, m + 1);
    }
    if Held(starts, stops, m + 1) {
      var j: nat :| HeldSince(starts, stops, j, m + 1);
      assert j < m ==> HeldSince(starts, stops, j, m);
    }
  }

  // --- what is missing, by the events alone ---

  predicate Ends(e: Event, kind: Kind, id: Digest) {
    Arrives(e, kind, id) || e.ResetReceived?
  }

  /** Some pass named the id as missing; since then it has not arrived and no reset has come. */
  ghost predicate Missing(inputs: seq<Input>, kind: Kind, id: Digest, m: nat) {
    Held((i: nat) => i < |inputs| && Wants(inputs[i].1, kind, id),
         (i: nat) => i < |inputs| && Ends(inputs[i].1, kind, id), m)
  }

  lemma {:induction false} MissingNext(inputs: seq<Input>, kind: Kind, id: Digest, m: nat)
    requires m < |inputs|
    ensures Missing(inputs, kind, id, m + 1)
       <==> Wants(inputs[m].1, kind, id) || (Missing(inputs, kind, id, m) && !Ends(inputs[m].1, kind, id))
  {
    HeldNext((i: nat) => i < |inputs| && Wants(inputs[i].1, kind, id),
             (i: nat) => i < |inputs| && Ends(inputs[i].1, kind, id), m);
  }

  // --- what the drains have forgotten ---

  /** The drain of some pass forgot the id, and neither that pass nor a later one has
      started to track it again. */
  ghost predicate Forgotten(inputs: seq<Input>, run: seq<Tracker>, kind: Kind, id: Digest, m: nat)
    requires |inputs| < |run|
  {
    var enters := (i: nat) => i < |inputs| && EntersAt(inputs, run, kind, id, i);
    Held((i: nat) => i < |inputs| && ForgetsAt(inputs, run, kind, id, i) && !enters(i), enters, m)
  }

  lemma {:induction false} ForgottenNext(inputs: seq<Input>, run: seq<Tracker>, kind: Kind, id: Digest, m: nat)
    requires m < |inputs| < |run|
    ensures Forgotten(inputs, run, kind, id, m + 1)
       <==> !EntersAt(inputs, run, kind, id, m)
            && (ForgetsAt(inputs, run, kind, id, m) || Forgotten(inputs, run, kind, id, m))
  {
    var enters := (i: nat) => i < |inputs| && EntersAt(inputs, run, kind, id, i);
    HeldNext((i: nat) => i < |inputs| && ForgetsAt(inputs, run, kind, id, i) && !enters(i), enters, m);
  }

  /** A drain forgets a tracked id exactly when all of its entries are older than 1000
      milliseconds at the removal. */
  lemma {:induction false} ForgetsExact(inputs: seq<Input>, run: seq<Tracker>, kind: Kind, id: Digest, j: nat)
    requires j < |inputs| < |run| && id in Ids(Tracked(run[j], kind))
    ensures ForgetsAt(inputs, run, kind, id, j)
       <==> forall o :: o in Tracked(run[j], kind) && o.id == id ==>
              TimedOut(o, 1000, DrainReadings(inputs[j].0, kind).removeAt(o))
  {
    var s, at := Tracked(run[j], kind), DrainReadings(inputs[j].0, kind).removeAt;
    DrainedTracked(run[j], inputs[j].0, kind);
    forall o | o in s && o.id == id && !TimedOut(o, TRACKED_OBJECT_TIMEOUT, at(o))
      ensures id in Ids(Fresh(s, TRACKED_OBJECT_TIMEOUT, at))
    {
      assert o in Fresh(s, TRACKED_OBJECT_TIMEOUT, at);
    }
  }

  // --- the tracked ids ---

  lemma {:induction false} TrackedNext(inputs: seq<Input>, run: seq<Tracker>, kind: Kind, id: Digest, m: nat)
    requires IsRun(inputs, run) && m < |inputs|
    ensures
      var before, after := id in Ids(Tracked(run[m], kind)), id in Ids(Tracked(run[m + 1], kind));
      var kept := before && !ForgetsAt(inputs, run, kind, id, m);
      && (after <==> Wants(inputs[m].1, kind, id) || (kept && !Ends(inputs[m].1, kind, id)))
      && (EntersAt(inputs, run, kind, id, m) <==> !kept && after)
      && (ForgetsAt(inputs, run, kind, id, m) ==> before)
  {
    assert PassAt(inputs, run, m);
    DrainedTracked(run[m], inputs[m].0, kind);
    TrackedAfter(Drained(run[m], inputs[m].0), inputs[m].1, inputs[m].0, kind, id);
  }

  /** What holds of an id at a head of the loop, and what happens to it in the pass. */
  datatype Facts = Facts(tracked: bool, missing: bool, forgotten: bool)
  datatype Happens = Happens(wants: bool, ends: bool, forgets: bool, enters: bool)

  predicate Follows(f: Facts, h: Happens, g: Facts) {
    && (g.tracked <==> h.wants || (f.tracked && !h.forgets && !h.ends))
    && (h.enters <==> g.tracked && !(f.tracked && !h.forgets))
    && (h.forgets ==> f.tracked)
    && (g.missing <==> h.wants || (f.missing && !h.ends))
    && (g.forgotten <==> !h.enters && (h.forgets || f.forgotten))
  }

  lemma {:induction false} Settles(facts: seq<Facts>, happens: seq<Happens>, m: nat)
    requires |facts| == |happens| + 1 && m <= |happens| && !facts[0].tracked && !facts[0].missing
    requires forall i :: 0 <= i < |happens| ==> Follows(facts[i], happens[i], facts[i + 1])
    ensures facts[m].tracked <==> facts[m].missing && !facts[m].forgotten
  {
    if m > 0 {
      Settles(facts, happens, m - 1);
      assert Follows(facts[m - 1], happens[m - 1], facts[m]);
    }
  }

  ghost function FactsAt(inputs: seq<Input>, run: seq<Tracker>, kind: Kind, id: Digest, i: nat): Facts
    requires i <= |inputs| < |run|
  {
    Facts(id in Ids(Tracked(run[i], kind)), Missing(inputs, kind, id, i), Forgotten(inputs, run, kind, id, i))
  }

  function HappensAt(inputs: seq<Input>, run: seq<Tracker>, kind: Kind, id: Digest, i: nat): Happens
    requires i < |inputs| < |run|
  {
    Happens(Wants(inputs[i].1, kind, id), Ends(inputs[i].1, kind, id),
            ForgetsAt(inputs, run, kind, id, i), EntersAt(inputs, run, kind, id, i))
  }

  lemma {:induction false} FactsNext(inputs: seq<Input>, run: seq<Tracker>, kind: Kind, id: Digest, i: nat)
    requires IsRun(inputs, run) && i < |inputs|
    ensures Follows(FactsAt(inputs, run, kind, id, i), HappensAt(inputs, run, kind, id, i),
                    FactsAt(inputs, run, kind, id, i + 1))
  {
    TrackedNext(inputs, run, kind, id, i);
    MissingNext(inputs, kind, id, i);
    ForgottenNext(inputs, run, kind, id, i);
  }

  lemma {:induction false} FactsAtFirst(inputs: seq<Input>, run: seq<Tracker>, kind: Kind, id: Digest)
    requires IsRun(inputs, run)
    ensures !FactsAt(inputs, run, kind, id, 0).tracked && !FactsAt(inputs, run, kind, id, 0).missing
  {
  }

  ghost function AllFacts(inputs: seq<Input>, run: seq<Tracker>, kind: Kind, id: Digest): seq<Facts>
    requires |inputs| < |run|
  {
    seq(|inputs| + 1, i requires 0 <= i <= |inputs| => FactsAt(inputs, run, kind, id, i))
  }

  function AllHappens(inputs: seq<Input>, run: seq<Tracker>, kind: Kind, id: Digest): seq<Happens>
    requires |inputs| < |run|
  {
    seq(|inputs|, i requires 0 <= i < |inputs| => HappensAt(inputs, run, kind, id, i))
  }

  lemma {:induction false} AllFollow(inputs: seq<Input>, run: seq<Tracker>, kind: Kind, id: Digest, i: nat)
    requires IsRun(inputs, run) && i < |inputs|
    ensures Follows(AllFacts(inputs, run, kind, id)[i], AllHappens(inputs, run, kind, id)[i],
                    AllFacts(inputs, run, kind, id)[i + 1])
  {
    FactsNext(inputs, run, kind, id, i);
  }

  lemma {:induction false} FactsSettle(inputs: seq<Input>, run: seq<Tracker>, kind: Kind, id: Digest, m: nat)
    requires IsRun(inputs, run) && m <= |inputs|
    ensures var f := AllFacts(inputs, run, kind, id)[m]; f.tracked <==> f.missing && !f.forgotten
  {
    ghost var facts, happens := AllFacts(inputs, run, kind, id), AllHappens(inputs, run, kind, id);
    FactsAtFirst(inputs, run, kind, id);
    forall i | 0 <= i < |inputs| ensures Follows(facts[i], happens[i], facts[i + 1]) {
      AllFollow(inputs, run, kind, id, i);
    }
    Settles(facts, happens, m);
  }

  /** At every head of every run, and whatever the clock says, the tracked ids are exactly
      the missing ones that no drain has forgotten since they were last entered. */
  lemma {:induction false} TrackedExact(inputs: seq<Input>, run: seq<Tracker>, kind: Kind, id: Digest, m: nat)
    requires IsRun(inputs, run) && m <= |inputs|
    ensures id in Ids(Tracked(run[m], kind))
       <==> Missing(inputs, kind, id, m) && !Forgotten(inputs, run, kind, id, m)
  {
    FactsSettle(inputs, run, kind, id, m);
    assert AllFacts(inputs, run, kind, id)[m] == FactsAt(inputs, run, kind, id, m);
  }

  // --- the status ---

  /** The status published at head m of the loop. */
  function StatusAt(run: seq<Tracker>, m: nat): Sent
    requires m < |run|
  {
    Publish(run[m]).sent[|run[m].sent|]
  }

  lemma {:induction false} NoIds(s: set<Timestamped>)
    ensures s == {} <==> forall id :: id !in Ids(s)
  {
    if s != {} {
      var o :| o in s;
      assert o.id in Ids(s);
    }
  }

  lemma {:induction false} CompleteIffNoIds(run: seq<Tracker>, m: nat)
    requires m < |run|
    ensures StatusAt(run, m) == Status(true) <==> forall kind, id :: id !in Ids(Tracked(run[m], kind))
  {
    NoIds(Tracked(run[m], OfCertificates));
    NoIds(Tracked(run[m], OfHeaders));
    NoIds(Tracked(run[m], OfBatches));
  }

  /** The status at a head is Complete exactly when every missing certificate, header and
      batch has been forgotten by a drain since it was last entered. */
  lemma {:induction false} StatusExact(inputs: seq<Input>, run: seq<Tracker>, m: nat)
    requires IsRun(inputs, run) && m <= |inputs|
    ensures StatusAt(run, m) == Status(true)
       <==> forall kind, id :: Missing(inputs, kind, id, m) ==> Forgotten(inputs, run, kind, id, m)
  {
    forall kind, id
      ensures id in Ids(Tracked(run[m], kind))
         <==> Missing(inputs, kind, id, m) && !Forgotten(inputs, run, kind, id, m)
    {
      TrackedExact(inputs, run, kind, id, m);
    }
    CompleteIffNoIds(run, m);
  }

  /** The intention: Incomplete if any certificate is missing. */
  ghost predicate StatusRight(inputs: seq<Input>, run: seq<Tracker>, m: nat)
    requires m <= |inputs| < |run|
  {
    StatusAt(run, m) == Status(true) ==> forall id :: !Missing(inputs, OfCertificates, id, m)
  }

  /** It is met exactly when no certificate is missing or something that is missing has not
      been forgotten. */
  lemma {:induction false} StatusRightIff(inputs: seq<Input>, run: seq<Tracker>, m: nat)
    requires IsRun(inputs, run) && m <= |inputs|
    ensures StatusRight(inputs, run, m)
       <==> || (forall id :: !Missing(inputs, OfCertificates, id, m))
            || (exists kind, id :: Missing(inputs, kind, id, m) && !Forgotten(inputs, run, kind, id, m))
  {
    StatusExact(inputs, run, m);
  }

  /** No entry of a certificate times out at the removal of a drain before head m. */
  predicate NoCertificateTimesOut(inputs: seq<Input>, run: seq<Tracker>, m: nat)
    requires m <= |inputs| < |run|
  {
    forall j, o :: 0 <= j < m && o in run[j].certificates ==>
      !TimedOut(o, TRACKED_OBJECT_TIMEOUT, inputs[j].0.certificates.removeAt(o))
  }

  /** As long as none times out, the status is right. */
  lemma {:induction false} RightWithoutTimeOuts(inputs: seq<Input>, run: seq<Tracker>, m: nat)
    requires IsRun(inputs, run) && m <= |inputs| && NoCertificateTimesOut(inputs, run, m)
    ensures StatusRight(inputs, run, m)
  {
    forall id ensures !Forgotten(inputs, run, OfCertificates, id, m) {
      forall j: nat | j < m ensures !ForgetsAt(inputs, run, OfCertificates, id, j) {
        DrainedTracked(run[j], inputs[j].0, OfCertificates);
        assert Tracked(Drained(run[j], inputs[j].0), OfCertificates) == run[j].certificates;
      }
    }
    StatusRightIff(inputs, run, m);
  }

  // --- the same by the events and the clock alone ---

  /** The timestamps of the entries of one id. */
  function StampsIn(s: set<Timestamped>, id: Digest): set<int> {
    set o | o in s && o.id == id :: o.timestamp
  }

  function AfterDrain(stamps: set<int>, id: Digest, at: Reading): set<int> {
    set t | t in stamps && !TimedOut(Timestamped(id, t), TRACKED_OBJECT_TIMEOUT, at(Timestamped(id, t)))
  }

  /** A certificate or header gets a timestamp unless it has one, a batch in any case. */
  function AfterEvent(stamps: set<int>, e: Event, clock: Clock, kind: Kind, id: Digest): set<int> {
    if Ends(e, kind, id) then {}
    else if !Wants(e, kind, id) then stamps
    else if kind.OfBatches? then stamps + {clock.extendAt(id)}
    else if stamps == {} then {clock.insertAt(id)}
    else stamps
  }

  /** The timestamps an id has at head m, computed from the events and the clock. */
  function Stamps(inputs: seq<Input>, kind: Kind, id: Digest, m: nat): set<int>
    requires m <= |inputs|
  {
    if m == 0 then {}
    else
      var (clock, e) := inputs[m - 1];
      var kept := AfterDrain(Stamps(inputs, kind, id, m - 1), id, DrainReadings(clock, kind).removeAt);
      AfterEvent(kept, e, clock, kind, id)
  }

  lemma {:induction false} DrainStamps(s: set<Timestamped>, id: Digest, at: Reading)
    ensures StampsIn(Fresh(s, TRACKED_OBJECT_TIMEOUT, at), id) == AfterDrain(StampsIn(s, id), id, at)
  {
    forall t | t in StampsIn(s, id) ensures Timestamped(id, t) in s {
    }
    forall t | t in AfterDrain(StampsIn(s, id), id, at)
      ensures t in StampsIn(Fresh(s, TRACKED_OBJECT_TIMEOUT, at), id)
    {
      assert Timestamped(id, t) in Fresh(s, TRACKED_OBJECT_TIMEOUT, at);
    }
  }

  lemma {:induction false} NoStamps(s: set<Timestamped>, id: Digest)
    ensures StampsIn(s, id) == {} <==> id !in Ids(s)
  {
    if id in Ids(s) {
      var o :| o in s && o.id == id;
      assert o.timestamp in StampsIn(s, id);
    }
  }

  lemma {:induction false} InsertStamps(s: set<Timestamped>, missing: set<Digest>, gone: Digest, at: Digest -> int,
                                        id: Digest)
    ensures StampsIn(AllInserted(s, missing, at), id)
         == if id in missing && StampsIn(s, id) == {} then {at(id)} else StampsIn(s, id)
    ensures StampsIn(Extended(s, missing, at), id) == StampsIn(s, id) + if id in missing then {at(id)} else {}
    ensures StampsIn(Without(s, gone), id) == if id == gone then {} else StampsIn(s, id)
  {
    NoStamps(s, id);
    forall o | o in s && o.id == id
      ensures o.timestamp in StampsIn(AllInserted(s, missing, at), id) * StampsIn(Extended(s, missing, at), id)
      ensures id != gone ==> o.timestamp in StampsIn(Without(s, gone), id)
    {
      assert o in AllInserted(s, missing, at) && o in Extended(s, missing, at);
      assert id != gone ==> o in Without(s, gone);
    }
    if id in missing {
      assert Timestamped(id, at(id)) in Extended(s, missing, at);
      if id !in Ids(s) {
        assert Timestamped(id, at(id)) in AllInserted(s, missing, at);
      }
    }
  }

  lemma {:induction false} HeaderStamps(t: Tracker, e: Event, clock: Clock, kind: Kind, id: Digest)
    requires e.HeaderReceived?
    ensures StampsIn(Tracked(Handle(t, e, clock), kind), id)
         == AfterEvent(StampsIn(Tracked(t, kind), id), e, clock, kind, id)
  {
    var missing, s := MissingData(e), Tracked(t, kind);
    match kind {
      case OfCertificates => InsertStamps(s, missing.missingCertificates, 0, clock.insertAt, id);
      case OfHeaders => InsertStamps(s, {}, e.id, clock.insertAt, id);
      case OfBatches => InsertStamps(s, missing.missingBatches, 0, clock.extendAt, id);
    }
  }

  lemma {:induction false} EventStamps(t: Tracker, e: Event, clock: Clock, kind: Kind, id: Digest)
    ensures StampsIn(Tracked(Handle(t, e, clock), kind), id)
         == AfterEvent(StampsIn(Tracked(t, kind), id), e, clock, kind, id)
  {
    match e {
      case OrphanReceived(missing, _) => InsertStamps(t.certificates, missing, 0, clock.insertAt, id);
      case CertificateReceived(c, headerId, _, _) =>
        if kind.OfCertificates? {
          InsertStamps(t.certificates, {}, c, clock.insertAt, id);
        } else if kind.OfHeaders? {
          InsertStamps(t.headers, if headerId.Some? then {headerId.value} else {}, 0, clock.insertAt, id);
        }
      case DigestReceived(b) => InsertStamps(t.batches, {}, b, clock.insertAt, id);
      case HeaderReceived(_, _, _, _, _) => HeaderStamps(t, e, clock, kind, id);
      case ResetReceived =>
    }
  }

  lemma {:induction false} NextStamps(inputs: seq<Input>, run: seq<Tracker>, kind: Kind, id: Digest, m: nat)
    requires IsRun(inputs, run) && m < |inputs|
    ensures
      var (clock, e) := inputs[m];
      var kept := AfterDrain(StampsIn(Tracked(run[m], kind), id), id, DrainReadings(clock, kind).removeAt);
      StampsIn(Tracked(run[m + 1], kind), id) == AfterEvent(kept, e, clock, kind, id)
  {
    assert PassAt(inputs, run, m);
    DrainedTracked(run[m], inputs[m].0, kind);
    DrainStamps(Tracked(run[m], kind), id, DrainReadings(inputs[m].0, kind).removeAt);
    EventStamps(Drained(run[m], inputs[m].0), inputs[m].1, inputs[m].0, kind, id);
  }

  /** At every head of every run the entries of an id are the computed ones. */
  lemma {:induction false} StampsExact(inputs: seq<Input>, run: seq<Tracker>, kind: Kind, id: Digest, m: nat)
    requires IsRun(inputs, run) && m <= |inputs|
    ensures StampsIn(Tracked(run[m], kind), id) == Stamps(inputs, kind, id, m)
  {
    if m > 0 {
      StampsExact(inputs, run, kind, id, m - 1);
      NextStamps(inputs, run, kind, id, m - 1);
    }
  }

  lemma {:induction false} StampedIffTracked(inputs: seq<Input>, run: seq<Tracker>, kind: Kind, id: Digest, m: nat)
    requires IsRun(inputs, run) && m <= |inputs|
    ensures Stamps(inputs, kind, id, m) == {} <==> id !in Ids(Tracked(run[m], kind))
  {
    StampsExact(inputs, run, kind, id, m);
    NoStamps(Tracked(run[m], kind), id);
  }

  /** So the status can be read off the events and the clock: it is Complete exactly when
      no id has a timestamp left. */
  lemma {:induction false} StatusByClock(inputs: seq<Input>, run: seq<Tracker>, m: nat)
    requires IsRun(inputs, run) && m <= |inputs|
    ensures StatusAt(run, m) == Status(true) <==> forall kind, id :: Stamps(inputs, kind, id, m) == {}
  {
    CompleteIffNoIds(run, m);
    if StatusAt(run, m) == Status(true) {
      forall kind, id ensures Stamps(inputs, kind, id, m) == {} {
        assert id !in Ids(Tracked(run[m], kind));
        StampedIffTracked(inputs, run, kind, id, m);
      }
    } else {
      var kind, id :| id in Ids(Tracked(run[m], kind));
      StampedIffTracked(inputs, run, kind, id, m);
    }
  }

  /** And it is right exactly when no certificate is missing or some id has a timestamp left. */
  lemma {:induction false} StatusRightByClock(inputs: seq<Input>, run: seq<Tracker>, m: nat)
    requires IsRun(inputs, run) && m <= |inputs|
    ensures StatusRight(inputs, run, m)
       <==> || (forall id :: !Missing(inputs, OfCertificates, id, m))
            || (exists kind, id :: Stamps(inputs, kind, id, m) != {})
  {
    StatusByClock(inputs, run, m);
  }

  lemma {:induction false} EntryNext(inputs: seq<Input>, run: seq<Tracker>, kind: Kind, o: Timestamped, m: nat)
    requires IsRun(inputs, run) && m < |inputs| && !kind.OfBatches? && o in Tracked(run[m + 1], kind)
    ensures if EntersAt(inputs, run, kind, o.id, m) then o.timestamp == inputs[m].0.insertAt(o.id)
            else o in Tracked(run[m], kind)
  {
    var kept := Tracked(Drained(run[m], inputs[m].0), kind);
    assert PassAt(inputs, run, m);
    assert o.timestamp in StampsIn(Tracked(run[m + 1], kind), o.id);
    EventStamps(Drained(run[m], inputs[m].0), inputs[m].1, inputs[m].0, kind, o.id);
    NoStamps(kept, o.id);
    NoStamps(Tracked(run[m + 1], kind), o.id);
    DrainedTracked(run[m], inputs[m].0, kind);
    if o.timestamp in StampsIn(kept, o.id) {
      assert o in kept;
    }
  }

  lemma {:induction false} LastTrue(starts: seq<bool>, holds: seq<bool>, m: nat) returns (j: nat)
    requires |holds| == |starts| + 1 && m <= |starts| && holds[m] && !holds[0]
    requires forall i :: 0 <= i < |starts| && holds[i + 1] ==> starts[i] || holds[i]
    ensures j < m && starts[j] && holds[j + 1]
    ensures forall i :: j < i < m ==> !starts[i]
  {
    if starts[m - 1] {
      j := m - 1;
    } else {
      j := LastTrue(starts, holds, m - 1);
    }
  }

  function AllEnters(inputs: seq<Input>, run: seq<Tracker>, kind: Kind, id: Digest): seq<bool>
    requires |inputs| < |run|
  {
    seq(|inputs|, i requires 0 <= i < |inputs| => EntersAt(inputs, run, kind, id, i))
  }

  function AllHold(run: seq<Tracker>, kind: Kind, o: Timestamped): seq<bool> {
    seq(|run|, i requires 0 <= i < |run| => o in Tracked(run[i], kind))
  }

  /** The entry of a certificate or header has the reading of the last pass that entered it. */
  lemma {:induction false} EntryTime(inputs: seq<Input>, run: seq<Tracker>, kind: Kind, o: Timestamped, m: nat)
    returns (j: nat)
    requires IsRun(inputs, run) && m <= |inputs| && !kind.OfBatches? && o in Tracked(run[m], kind)
    ensures j < m && EntersAt(inputs, run, kind, o.id, j) && o.timestamp == inputs[j].0.insertAt(o.id)
    ensures forall i :: j < i < m ==> !AllEnters(inputs, run, kind, o.id)[i]
  {
    var enters, holds := AllEnters(inputs, run, kind, o.id), AllHold(run, kind, o);
    forall i | 0 <= i < |inputs| && holds[i + 1] ensures enters[i] || holds[i] {
      EntryNext(inputs, run, kind, o, i);
    }
    j := LastTrue(enters, holds, m);
    EntryNext(inputs, run, kind, o, j);
  }

  // --- two runs with a wrong status ---

  /** A clock that stands still during a pass. */
  function Still(now: int): Clock {
    Clock(Readings(_ => now, _ => now), Readings(_ => now, _ => now), Readings(_ => now, _ => now), _ => now, _ => now)
  }

  /** The event names one certificate as missing, and nothing else. */
  ghost predicate NamesOnly(e: Event, c: Digest) {
    && (e.OrphanReceived? || e.HeaderReceived?)
    && (forall id :: Wants(e, OfCertificates, id) <==> id == c)
    && (forall id :: !Wants(e, OfBatches, id))
  }

  lemma {:induction false} NamesOnlyData(e: Event, c: Digest)
    requires NamesOnly(e, c)
    ensures e.OrphanReceived? ==> e.missing == {c}
    ensures e.HeaderReceived? ==> MissingData(e) == Incomplete({c}, {}, e.header, e.sender)
  {
    if e.OrphanReceived? {
      assert forall id :: id in e.missing <==> Wants(e, OfCertificates, id);
    } else {
      assert forall id :: id in MissingData(e).missingCertificates <==> Wants(e, OfCertificates, id);
      assert forall id :: id in MissingData(e).missingBatches <==> Wants(e, OfBatches, id);
    }
  }

  lemma {:induction false} FirstPass(e: Event, c: Digest)
    requires NamesOnly(e, c)
    ensures
      var t := Pass(INITIAL, Still(0), e);
      && t.certificates == {Timestamped(c, 0)} && t.headers == {} && t.batches == {}
      && t.parked == if e.HeaderReceived? then [Incomplete({c}, {}, e.header, e.sender)] else []
  {
    NamesOnlyData(e, c);
    var u := Drained(INITIAL, Still(0));
    assert u.certificates == {} && u.headers == {} && u.batches == {} && u.parked == [];
    assert AllInserted({}, {c}, _ => 0) == {Timestamped(c, 0)};
    assert c in {c};
  }

  lemma {:induction false} SecondPass(t: Tracker, c: Digest, batch: Digest)
    requires t.certificates == {Timestamped(c, 0)} && t.headers == {} && t.batches == {}
    ensures
      var u := Pass(t, Still(2000), DigestReceived(batch));
      u.certificates == {} && u.headers == {} && u.batches == {} && u.parked == StillMissing(DropBatch(t.parked, batch))
  {
    assert TimedOut(Timestamped(c, 0), TRACKED_OBJECT_TIMEOUT, 2000);
    assert Drained(t, Still(2000)).certificates == {};
  }

  lemma {:induction false} StillParked(r: Incomplete, batch: Digest)
    requires r.missingBatches == {} && r.missingCertificates != {}
    ensures StillMissing(DropBatch([r], batch)) == [r]
  {
    assert [r][1..] == [] && r.missingBatches - {batch} == r.missingBatches;
    assert DropBatch([r], batch) == [r];
  }

  lemma {:induction false} TwoPasses(e: Event, c: Digest, batch: Digest, inputs: seq<Input>, run: seq<Tracker>)
    requires NamesOnly(e, c) && inputs == [(Still(0), e), (Still(2000), DigestReceived(batch))] && IsRun(inputs, run)
    ensures run[2].certificates == {} && run[2].headers == {} && run[2].batches == {}
    ensures run[2].parked == if e.HeaderReceived? then [Incomplete({c}, {}, e.header, e.sender)] else []
  {
    assert PassAt(inputs, run, 0) && PassAt(inputs, run, 1);
    FirstPass(e, c);
    SecondPass(run[1], c, batch);
    if e.HeaderReceived? {
      StillParked(Incomplete({c}, {}, e.header, e.sender), batch);
    }
  }

  /** An orphan report or a header names a certificate at time 0 and a batch arrives at time
      2000: the status says Complete, the certificate is missing, the header is parked. */
  lemma {:induction false} CompleteWhileMissing(e: Event, c: Digest, batch: Digest, inputs: seq<Input>,
                                                run: seq<Tracker>)
    requires NamesOnly(e, c) && inputs == [(Still(0), e), (Still(2000), DigestReceived(batch))] && IsRun(inputs, run)
    ensures Missing(inputs, OfCertificates, c, 2) && StatusAt(run, 2) == Status(true) && !StatusRight(inputs, run, 2)
    ensures e.HeaderReceived? ==> run[2].parked == [Incomplete({c}, {}, e.header, e.sender)]
  {
    TwoPasses(e, c, batch, inputs, run);
    MissingNext(inputs, OfCertificates, c, 0);
    MissingNext(inputs, OfCertificates, c, 1);
  }

  /** There are such events of both sorts; the header may list what is stored, too. */
  lemma {:induction false} OrphanAndHeader(c: Digest, d: Digest, b: Digest, sender: PeerId)
    requires c != d
    ensures NamesOnly(OrphanReceived({c}, sender), c)
    ensures NamesOnly(HeaderReceived(BlockHeader(1, 1, 0, [b], [d, c]), 5, sender, {b}, {d}), c)
  {
    var e := HeaderReceived(BlockHeader(1, 1, 0, [b], [d, c]), 5, sender, {b}, {d});
    assert e.header.certificatesIds[1] == c;
  }

  // --- two entries for one batch ---

  /** Two headers name the same absent batch at times 0 and 900: it has two entries, and a
      drain with the single reading 1500 reports it and keeps it. */
  lemma {:induction false} BatchTrackedTwice(e: Event, later: Event, b: Digest, inputs: seq<Input>, run: seq<Tracker>)
    requires Wants(e, OfBatches, b) && Wants(later, OfBatches, b)
    requires inputs == [(Still(0), e), (Still(900), later)] && IsRun(inputs, run)
    ensures StampsIn(run[2].batches, b) == {0, 900}
    ensures Doubled(run[2].batches, TRACKED_OBJECT_TIMEOUT, _ => 1500, _ => 1500, b)
  {
    assert Stamps(inputs, OfBatches, b, 1) == {0};
    assert !TimedOut(Timestamped(b, 0), TRACKED_OBJECT_TIMEOUT, 900);
    assert Stamps(inputs, OfBatches, b, 2) == {0, 900};
    StampsExact(inputs, run, OfBatches, b, 2);
    assert 0 in StampsIn(run[2].batches, b) && 900 in StampsIn(run[2].batches, b);
    var first, second := Timestamped(b, 0), Timestamped(b, 900);
    assert TimedOut(first, TRACKED_OBJECT_TIMEOUT, 1500) && !TimedOut(second, TRACKED_OBJECT_TIMEOUT, 1500);
    OneReading(run[2].batches, TRACKED_OBJECT_TIMEOUT, _ => 1500, b);
  }

  /** There is such a header. */
  lemma {:induction false} HeaderNamesBatch(b: Digest, id: Digest, sender: PeerId)
    ensures Wants(HeaderReceived(BlockHeader(1, 1, 0, [b], []), id, sender, {}, {}), OfBatches, b)
  {
    var e := HeaderReceived(BlockHeader(1, 1, 0, [b], []), id, sender, {}, {});
    assert e.header.digests[0] == b;
  }
}
