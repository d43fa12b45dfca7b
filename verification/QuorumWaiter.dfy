/** Batches waiting for a quorum of acknowledgments (calf/src/worker/quorum_waiter.rs). */
module QuorumWaiter {
  import Collections
  import opened Types

  const MILLISECOND: nat := 1_000_000

  type Batch = seq<nat>

  /** Times are in nanoseconds. */
  datatype WaitingBatch = WaitingBatch(acknowledgers: set<PeerId>, batch: Batch, digest: Digest, timestamp: nat)

  /** The threshold is a u32. */
  datatype Settings = Settings(digestOf: Batch -> Digest, threshold: nat, timeout: nat) {
    ghost predicate Valid() {
      threshold < U32
    }

    /** A batch is only checked after an acknowledgment, so 0 and 1 come to the same. */
    function Needed(): nat {
      if threshold == 0 then 1 else threshold
    }

    /** A negative age counts as 0. */
    predicate Fresh(b: WaitingBatch, now: nat) {
      (if now < b.timestamp then 0 else (now - b.timestamp) / MILLISECOND) < timeout
    }
  }

  /** A batch with its creation time and the later reading of the clock, or an
      acknowledgment; `stored` says whether the database takes a batch. */
  datatype Event = NewBatch(batch: Batch, created: nat, now: nat) | Ack(digest: Digest, sender: PeerId, stored: bool)

  /** What waits, what went to the primary, what is in the database. */
  datatype State = State(batches: seq<WaitingBatch>, sent: seq<Digest>, db: map<Digest, Batch>)

  function Position(batches: seq<WaitingBatch>, digest: Digest): (k: nat)
    ensures k <= |batches| && (k < |batches| ==> batches[k].digest == digest)
    ensures forall i :: 0 <= i < k ==> batches[i].digest != digest
  {
    if batches == [] || batches[0].digest == digest then 0 else 1 + Position(batches[1..], digest)
  }

  function Retain(settings: Settings, batches: seq<WaitingBatch>, now: nat): seq<WaitingBatch> {
    if batches == [] then []
    else (if settings.Fresh(batches[0], now) then [batches[0]] else []) + Retain(settings, batches[1..], now)
  }

  /** The batch with this digest counts one more acker. */
  function Acknowledged(batches: seq<WaitingBatch>, digest: Digest, sender: PeerId): seq<WaitingBatch> {
    var k := Position(batches, digest);
    if k == |batches| then batches
    else batches[k := batches[k].(acknowledgers := batches[k].acknowledgers + {sender})]
  }

  function Step(settings: Settings, s: State, e: Event): State {
    match e
    case NewBatch(batch, created, now) =>
      var d := settings.digestOf(batch);
      var pushed := if Position(s.batches, d) < |s.batches| then s.batches
                    else s.batches + [WaitingBatch({}, batch, d, created)];
      s.(batches := Retain(settings, pushed, now))
    case Ack(digest, sender, stored) =>
      var k := Position(s.batches, digest);
      if k == |s.batches| then s
      else
        var b := s.batches[k].(acknowledgers := s.batches[k].acknowledgers + {sender});
        if |b.acknowledgers| % U32 >= settings.threshold then
          State(s.batches[..k] + s.batches[k + 1..], s.sent + [b.digest],
                if stored then s.db[b.digest := b.batch] else s.db)
        else s.(batches := s.batches[k := b])
  }

  class QuorumWaiter {
    const settings: Settings
    var batches: seq<WaitingBatch>
    var sent: seq<Digest>
    var db: map<Digest, Batch>

    function View(): State
      reads this
    {
      State(batches, sent, db)
    }

    constructor (settings: Settings)
      ensures View() == State([], [], map[]) && this.settings == settings
    {
      this.settings, batches, sent, db := settings, [], [], map[];
    }

    method RetainFresh(now: nat)
      modifies this`batches
      ensures batches == Retain(settings, old(batches), now)
    {
      var kept: seq<WaitingBatch> := [];
      for i := 0 to |batches|
        invariant kept + Retain(settings, batches[i..], now) == Retain(settings, batches, now)
      {
        if settings.Fresh(batches[i], now) {
          kept := kept + [batches[i]];
        }
      }
      batches := kept;
    }

    /** One turn of the select loop; a failed send to the primary ends the loop, with the
        batch still waiting and its acker counted. */
    method Handle(e: Event, delivers: bool) returns (ok: bool)
      modifies this
      ensures ok <==> delivers || Step(settings, old(View()), e).sent == old(sent)
      ensures ok ==> View() == Step(settings, old(View()), e)
      ensures !ok ==> e.Ack? && sent == old(sent) && db == old(db)
                      && batches == Acknowledged(old(batches), e.digest, e.sender)
    {
      ok := true;
      match e {
        case NewBatch(batch, created, now) =>
          var waiting := WaitingBatch({}, batch, settings.digestOf(batch), created);
          if !exists b :: b in batches && b.digest == waiting.digest {
            batches := batches + [waiting];
          }
          RetainFresh(now);
        case Ack(digest, sender, stored) =>
          var k := 0;
          while k < |batches| && batches[k].digest != digest
            invariant k <= |batches| && k <= Position(batches, digest)
          {
            k := k + 1;
          }
          if k < |batches| {
            var b := batches[k].(acknowledgers := batches[k].acknowledgers + {sender});
            batches := batches[k := b];
            if |b.acknowledgers| % U32 >= settings.threshold {
              if !delivers {
                return false;
              }
              sent := sent + [b.digest];
              batches := batches[..k] + batches[k + 1..];
              if stored {
                db := db[b.digest := b.batch];
              }
            }
          }
      }
    }
  }

  // --- the abstract object: a map from a digest to its batch and distinct ackers ---

  datatype Abstract = Abstract(waiting: map<Digest, WaitingBatch>, sent: seq<Digest>, db: map<Digest, Batch>)

  function FreshOnly(settings: Settings, m: map<Digest, WaitingBatch>, now: nat): map<Digest, WaitingBatch> {
    map d | d in m && settings.Fresh(m[d], now) :: m[d]
  }

  function AbstractStep(settings: Settings, a: Abstract, e: Event): Abstract {
    match e
    case NewBatch(batch, created, now) =>
      var d := settings.digestOf(batch);
      var added := if d in a.waiting then a.waiting else a.waiting[d := WaitingBatch({}, batch, d, created)];
      a.(waiting := FreshOnly(settings, added, now))
    case Ack(d, sender, stored) =>
      if d !in a.waiting then a
      else
        var b := a.waiting[d].(acknowledgers := a.waiting[d].acknowledgers + {sender});
        if |b.acknowledgers| >= settings.Needed() then
          Abstract(a.waiting - {d}, a.sent + [d], if stored then a.db[d := b.batch] else a.db)
        else a.(waiting := a.waiting[d := b])
  }

  function Waiting(batches: seq<WaitingBatch>): map<Digest, WaitingBatch> {
    if batches == [] then map[] else Waiting(batches[1..])[batches[0].digest := batches[0]]
  }

  function Abstraction(s: State): Abstract {
    Abstract(Waiting(s.batches), s.sent, s.db)
  }

  ghost predicate Distinct(batches: seq<WaitingBatch>) {
    batches != [] ==> batches[0].digest !in Waiting(batches[1..]) && Distinct(batches[1..])
  }

  ghost predicate Sound(settings: Settings, d: Digest, b: WaitingBatch) {
    b.digest == d && settings.digestOf(b.batch) == d && |b.acknowledgers| < settings.Needed()
  }

  /** Waiting digests are pairwise distinct, each below the threshold and the digest of
      its own batch; the database keeps batches under their digests. */
  ghost predicate Valid(settings: Settings, s: State) {
    && settings.Valid() && Distinct(s.batches)
    && (forall d :: d in Waiting(s.batches) ==> Sound(settings, d, Waiting(s.batches)[d]))
    && (forall d :: d in s.db ==> settings.digestOf(s.db[d]) == d)
  }

  lemma {:induction false} WaitingExact(batches: seq<WaitingBatch>)
    requires Distinct(batches)
    ensures forall b :: b in batches <==> b.digest in Waiting(batches) && Waiting(batches)[b.digest] == b
    ensures forall d :: d in Waiting(batches) ==> Waiting(batches)[d].digest == d
  {
    if batches != [] {
      WaitingExact(batches[1..]);
      assert forall b :: b in batches <==> b == batches[0] || b in batches[1..];
    }
  }

  lemma {:induction false} PositionExact(batches: seq<WaitingBatch>, d: Digest)
    ensures Position(batches, d) < |batches| <==> d in Waiting(batches)
    ensures d in Waiting(batches) ==> batches[Position(batches, d)] == Waiting(batches)[d]
  {
    if batches != [] {
      PositionExact(batches[1..], d);
    }
  }

  lemma {:induction false} PairwiseDistinct(batches: seq<WaitingBatch>)
    requires Distinct(batches)
    ensures forall i, j :: 0 <= i < j < |batches| ==> batches[i].digest != batches[j].digest
  {
    if batches != [] {
      PairwiseDistinct(batches[1..]);
      WaitingExact(batches[1..]);
      forall j | 1 <= j < |batches| ensures batches[0].digest != batches[j].digest {
        assert batches[1..][j - 1] in batches[1..];
      }
      assert forall i :: 1 <= i < |batches| ==> batches[i] == batches[1..][i - 1];
    }
  }

  lemma {:induction false} Pushed(batches: seq<WaitingBatch>, b: WaitingBatch)
    requires Distinct(batches) && b.digest !in Waiting(batches)
    ensures Distinct(batches + [b])
    ensures Waiting(batches + [b]) == Waiting(batches)[b.digest := b]
  {
    if batches == [] {
      assert [b][1..] == [];
    } else {
      Pushed(batches[1..], b);
      assert (batches + [b])[1..] == batches[1..] + [b];
    }
  }

  lemma {:induction false} Replaced(batches: seq<WaitingBatch>, k: nat, b: WaitingBatch)
    requires Distinct(batches) && k < |batches| && batches[k].digest == b.digest
    ensures Distinct(batches[k := b])
    ensures Waiting(batches[k := b]) == Waiting(batches)[b.digest := b]
  {
    if k == 0 {
      assert batches[0 := b][1..] == batches[1..];
    } else {
      Replaced(batches[1..], k - 1, b);
      At(batches[1..], k - 1);
      assert batches[k := b][1..] == batches[1..][k - 1 := b];
    }
  }

  lemma {:induction false} At(batches: seq<WaitingBatch>, k: nat)
    requires k < |batches|
    ensures batches[k].digest in Waiting(batches)
  {
    if k > 0 {
      At(batches[1..], k - 1);
    }
  }

  lemma {:induction false} Removed(batches: seq<WaitingBatch>, k: nat)
    requires Distinct(batches) && k < |batches|
    ensures Distinct(batches[..k] + batches[k + 1..])
    ensures Waiting(batches[..k] + batches[k + 1..]) == Waiting(batches) - {batches[k].digest}
  {
    var rest := batches[..k] + batches[k + 1..];
    if k == 0 {
      assert rest == batches[1..];
    } else {
      Removed(batches[1..], k - 1);
      At(batches[1..], k - 1);
      assert rest[1..] == batches[1..][..k - 1] + batches[1..][k..];
    }
  }

  lemma {:induction false} FreshKept(settings: Settings, m: map<Digest, WaitingBatch>, b: WaitingBatch, now: nat)
    requires b.digest !in m && settings.Fresh(b, now)
    ensures FreshOnly(settings, m[b.digest := b], now) == FreshOnly(settings, m, now)[b.digest := b]
  {
  }

  lemma {:induction false} StaleDropped(settings: Settings, m: map<Digest, WaitingBatch>, b: WaitingBatch, now: nat)
    requires b.digest !in m && !settings.Fresh(b, now)
    ensures FreshOnly(settings, m[b.digest := b], now) == FreshOnly(settings, m, now)
  {
  }

  lemma {:induction false} Retained(settings: Settings, batches: seq<WaitingBatch>, now: nat)
    requires Distinct(batches)
    ensures Distinct(Retain(settings, batches, now))
    ensures Waiting(Retain(settings, batches, now)) == FreshOnly(settings, Waiting(batches), now)
  {
    if batches != [] {
      var b, rest, m := batches[0], Retain(settings, batches[1..], now), Waiting(batches[1..]);
      Retained(settings, batches[1..], now);
      assert Waiting(batches) == m[b.digest := b];
      if settings.Fresh(b, now) {
        FreshKept(settings, m, b, now);
        assert Retain(settings, batches, now) == [b] + rest;
        assert ([b] + rest)[1..] == rest;
      } else {
        StaleDropped(settings, m, b, now);
        assert Retain(settings, batches, now) == rest;
      }
    }
  }

  lemma {:induction false} NewBatchRefines(settings: Settings, s: State, e: Event)
    requires Valid(settings, s) && e.NewBatch?
    ensures Valid(settings, Step(settings, s, e))
    ensures Abstraction(Step(settings, s, e)) == AbstractStep(settings, Abstraction(s), e)
  {
    var d := settings.digestOf(e.batch);
    var b := WaitingBatch({}, e.batch, d, e.created);
    PositionExact(s.batches, d);
    if d in Waiting(s.batches) {
      Retained(settings, s.batches, e.now);
    } else {
      Pushed(s.batches, b);
      Retained(settings, s.batches + [b], e.now);
    }
  }

  lemma {:induction false} OneMore<T>(s: set<T>, x: T)
    ensures |s + {x}| == |s| + if x in s then 0 else 1
  {
    if x in s {
      assert s + {x} == s;
    }
  }

  lemma {:induction false} AckRefines(settings: Settings, s: State, e: Event)
    requires Valid(settings, s) && e.Ack?
    ensures Valid(settings, Step(settings, s, e))
    ensures Abstraction(Step(settings, s, e)) == AbstractStep(settings, Abstraction(s), e)
  {
    PositionExact(s.batches, e.digest);
    var k := Position(s.batches, e.digest);
    if k < |s.batches| {
      var b := s.batches[k].(acknowledgers := s.batches[k].acknowledgers + {e.sender});
      OneMore(s.batches[k].acknowledgers, e.sender);
      assert |b.acknowledgers| % U32 == |b.acknowledgers|;
      if |b.acknowledgers| >= settings.threshold {
        Removed(s.batches, k);
      } else {
        Replaced(s.batches, k, b);
      }
    }
  }

  /** The list of waiting batches refines the map, for every event; the cast of the number
      of ackers to u32 never cuts it. */
  lemma {:induction false} StepRefines(settings: Settings, s: State, e: Event)
    requires Valid(settings, s)
    ensures Valid(settings, Step(settings, s, e))
    ensures Abstraction(Step(settings, s, e)) == AbstractStep(settings, Abstraction(s), e)
  {
    if e.NewBatch? {
      NewBatchRefines(settings, s, e);
    } else {
      AckRefines(settings, s, e);
    }
  }

  // --- whole runs ---

  ghost predicate StepAt(settings: Settings, states: seq<State>, events: seq<Event>, i: nat)
    requires i < |events| && |states| == |events| + 1
  {
    states[i + 1] == Step(settings, states[i], events[i])
  }

  ghost predicate IsRun(settings: Settings, states: seq<State>, events: seq<Event>) {
    && settings.Valid() && |states| == |events| + 1 && states[0] == State([], [], map[])
    && forall i :: 0 <= i < |events| ==> StepAt(settings, states, events, i)
  }

  lemma {:induction false} RunValid(settings: Settings, states: seq<State>, events: seq<Event>, i: nat)
    requires IsRun(settings, states, events) && i < |states|
    ensures Valid(settings, states[i])
  {
    if i > 0 {
      RunValid(settings, states, events, i - 1);
      assert StepAt(settings, states, events, i - 1);
      StepRefines(settings, states[i - 1], events[i - 1]);
    }
  }

  ghost predicate Waits(s: State, d: Digest) {
    d in Waiting(s.batches)
  }

  /** One step of a run, seen on the map. */
  lemma {:induction false} RunStep(settings: Settings, states: seq<State>, events: seq<Event>, i: nat)
    requires IsRun(settings, states, events) && i < |events|
    ensures Abstraction(states[i + 1]) == AbstractStep(settings, Abstraction(states[i]), events[i])
    ensures forall d :: d in Waiting(states[i].batches) ==> Sound(settings, d, Waiting(states[i].batches)[d])
  {
    RunValid(settings, states, events, i);
    assert StepAt(settings, states, events, i);
    StepRefines(settings, states[i], events[i]);
  }

  /** What an event does to one waiting digest. */
  lemma {:induction false} DigestStep(settings: Settings, a: Abstract, e: Event, d: Digest)
    requires d in AbstractStep(settings, a, e).waiting
    ensures
      var b' := AbstractStep(settings, a, e).waiting[d];
      if d in a.waiting then
        b' == if e.Ack? && e.digest == d
              then a.waiting[d].(acknowledgers := a.waiting[d].acknowledgers + {e.sender}) else a.waiting[d]
      else e.NewBatch? && settings.digestOf(e.batch) == d && b' == WaitingBatch({}, e.batch, d, e.created)
  {
  }

  /** What an event sends and stores. */
  lemma {:induction false} SendStep(settings: Settings, a: Abstract, e: Event)
    requires e.Ack? && e.digest in a.waiting ==> |a.waiting[e.digest].acknowledgers| < settings.Needed()
    ensures
      var a' := AbstractStep(settings, a, e);
      if e.Ack? && e.digest in a.waiting then
        (if |a.waiting[e.digest].acknowledgers + {e.sender}| == settings.Needed()
         then a'.sent == a.sent + [e.digest] && e.digest !in a'.waiting
              && (e.stored ==> a'.db == a.db[e.digest := a.waiting[e.digest].batch])
         else a'.sent == a.sent && e.digest in a'.waiting)
      else a'.sent == a.sent && a'.db == a.db
  {
    if e.Ack? && e.digest in a.waiting {
      OneMore(a.waiting[e.digest].acknowledgers, e.sender);
    }
  }

  /** The distinct peers that acknowledge d in a run of events. */
  function Ackers(events: seq<Event>, d: Digest): set<PeerId> {
    set e | e in events && e.Ack? && e.digest == d :: e.sender
  }

  lemma {:induction false} AckersStep(events: seq<Event>, d: Digest, from: nat, i: nat)
    requires from <= i < |events|
    ensures Ackers(events[from..i + 1], d)
         == Ackers(events[from..i], d) + if events[i].Ack? && events[i].digest == d then {events[i].sender} else {}
  {
    assert events[from..i + 1] == events[from..i] + [events[i]];
  }

  /** A stay of d that has not ended at i: it began with the batch that event `start` brought. */
  ghost predicate StaySince(settings: Settings, states: seq<State>, events: seq<Event>, d: Digest, start: nat, i: nat)
    requires |states| == |events| + 1
  {
    && start < i < |states| && !Waits(states[start], d)
    && events[start].NewBatch? && settings.digestOf(events[start].batch) == d
    && forall j :: start < j <= i ==> Waits(states[j], d)
  }

  lemma {:induction false} StayStep(settings: Settings, states: seq<State>, events: seq<Event>, d: Digest, i: nat)
    requires IsRun(settings, states, events) && i < |states| && Waits(states[i], d)
    ensures i > 0
    ensures
      var before, b', e := Waiting(states[i - 1].batches), Waiting(states[i].batches)[d], events[i - 1];
      if d in before then
        && b'.batch == before[d].batch && b'.timestamp == before[d].timestamp
        && b'.acknowledgers == before[d].acknowledgers + if e.Ack? && e.digest == d then {e.sender} else {}
      else
        && e.NewBatch? && settings.digestOf(e.batch) == d
        && b'.batch == e.batch && b'.timestamp == e.created && b'.acknowledgers == {}
  {
    RunStep(settings, states, events, i - 1);
    DigestStep(settings, Abstraction(states[i - 1]), events[i - 1], d);
  }

  /** Every waiting digest is in a stay, and its ackers are the distinct peers that have
      acknowledged it since the stay began. */
  lemma {:induction false} StayAckers(settings: Settings, states: seq<State>, events: seq<Event>, d: Digest, i: nat)
    returns (start: nat)
    requires IsRun(settings, states, events) && i < |states| && Waits(states[i], d)
    ensures StaySince(settings, states, events, d, start, i)
    ensures Waiting(states[i].batches)[d].acknowledgers == Ackers(events[start + 1..i], d)
    ensures Waiting(states[i].batches)[d].batch == events[start].batch
    ensures Waiting(states[i].batches)[d].timestamp == events[start].created
  {
    StayStep(settings, states, events, d, i);
    if Waits(states[i - 1], d) {
      start := StayAckers(settings, states, events, d, i - 1);
      AckersStep(events, d, start + 1, i - 1);
    } else {
      start := i - 1;
      assert events[start + 1..i] == [];
    }
  }

  lemma {:induction false} BelowThreshold(settings: Settings, states: seq<State>, events: seq<Event>, d: Digest, i: nat)
    requires IsRun(settings, states, events) && i < |states| && Waits(states[i], d)
    ensures |Waiting(states[i].batches)[d].acknowledgers| < settings.Needed()
  {
    RunValid(settings, states, events, i);
    assert Sound(settings, d, Waiting(states[i].batches)[d]);
  }

  lemma {:induction false} AckInStay(settings: Settings, states: seq<State>, events: seq<Event>, i: nat)
    returns (start: nat)
    requires IsRun(settings, states, events) && i < |events| && events[i].Ack? && Waits(states[i], events[i].digest)
    ensures StaySince(settings, states, events, events[i].digest, start, i)
    ensures
      var d, b := events[i].digest, Waiting(states[i].batches)[events[i].digest];
      && b.batch == events[start].batch
      && b.acknowledgers == Ackers(events[start + 1..i], d)
      && b.acknowledgers + {events[i].sender} == Ackers(events[start + 1..i + 1], d)
      && |b.acknowledgers| < settings.Needed()
  {
    var d := events[i].digest;
    BelowThreshold(settings, states, events, d, i);
    start := StayAckers(settings, states, events, d, i);
    AckersStep(events, d, start + 1, i);
  }

  /** A digest goes to the primary exactly with the acknowledgment that brings the distinct
      ackers of its stay to the threshold; this ends the stay. Nothing else sends. */
  lemma {:induction false} SentExactly(settings: Settings, states: seq<State>, events: seq<Event>, i: nat)
    returns (start: nat)
    requires IsRun(settings, states, events) && i < |events|
    ensures
      var e, s, s' := events[i], states[i], states[i + 1];
      var needed := if settings.threshold == 0 then 1 else settings.threshold;
      if e.Ack? && Waits(s, e.digest) then
        && StaySince(settings, states, events, e.digest, start, i)
        && |Ackers(events[start + 1..i], e.digest)| < needed
        && (if |Ackers(events[start + 1..i + 1], e.digest)| == needed
            then s'.sent == s.sent + [e.digest] && !Waits(s', e.digest)
                 && (e.stored ==> s'.db == s.db[e.digest := events[start].batch])
            else s'.sent == s.sent && Waits(s', e.digest))
      else s'.sent == s.sent && s'.db == s.db
  {
    start := 0;
    RunStep(settings, states, events, i);
    var e := events[i];
    if e.Ack? && Waits(states[i], e.digest) {
      start := AckInStay(settings, states, events, i);
    }
    SendStep(settings, Abstraction(states[i]), e);
  }

  // --- when a batch is dropped ---

  /** A reading is at least the time-out, in milliseconds, past a creation time. */
  predicate TooLate(settings: Settings, created: nat, now: nat) {
    settings.timeout == 0 || now >= created + settings.timeout * 1_000_000
  }

  lemma {:induction false} FreshIff(settings: Settings, b: WaitingBatch, now: nat)
    ensures settings.Fresh(b, now) <==> !TooLate(settings, b.timestamp, now)
  {
  }

  /** A waiting digest is dropped exactly by an arriving batch that reads the clock the time-out
      or more after the creation of the batch its stay began with. Any other end of a stay is a
      send. */
  lemma {:induction false} DroppedIff(settings: Settings, states: seq<State>, events: seq<Event>, d: Digest, i: nat)
    returns (start: nat)
    requires IsRun(settings, states, events) && i < |events| && Waits(states[i], d)
    ensures StaySince(settings, states, events, d, start, i)
    ensures DropsAt(states, events, d, i)
       <==> events[i].NewBatch? && TooLate(settings, events[start].created, events[i].now)
    ensures !Waits(states[i + 1], d) && !DropsAt(states, events, d, i) ==>
      states[i + 1].sent == states[i].sent + [d]
  {
    start := StayAckers(settings, states, events, d, i);
    RunStep(settings, states, events, i);
    if events[i].NewBatch? {
      FreshIff(settings, Waiting(states[i].batches)[d], events[i].now);
    }
  }

  /** A digest that does not wait starts to exactly when a batch with it arrives that is not
      too late already. */
  lemma {:induction false} EntersIff(settings: Settings, states: seq<State>, events: seq<Event>, d: Digest, i: nat)
    requires IsRun(settings, states, events) && i < |events| && !Waits(states[i], d)
    ensures Waits(states[i + 1], d)
       <==> && events[i].NewBatch? && settings.digestOf(events[i].batch) == d
            && !TooLate(settings, events[i].created, events[i].now)
  {
    RunStep(settings, states, events, i);
    var e := events[i];
    if e.NewBatch? {
      FreshIff(settings, WaitingBatch({}, e.batch, d, e.created), e.now);
    }
  }

  // --- once per stay ---

  predicate EntersAt(states: seq<State>, d: Digest, j: nat)
    requires j + 1 < |states|
  {
    d !in Waiting(states[j].batches) && d in Waiting(states[j + 1].batches)
  }

  /** A batch is only dropped, for its age, when another one arrives. */
  predicate DropsAt(states: seq<State>, events: seq<Event>, d: Digest, j: nat)
    requires j < |events| && |states| == |events| + 1
  {
    events[j].NewBatch? && d in Waiting(states[j].batches) && d !in Waiting(states[j + 1].batches)
  }

  function Entries(states: seq<State>, d: Digest, i: nat): nat {
    Collections.Count((j: nat) => j + 1 < |states| && EntersAt(states, d, j), i)
  }

  function Drops(states: seq<State>, events: seq<Event>, d: Digest, i: nat): nat
    requires |states| == |events| + 1
  {
    Collections.Count((j: nat) => j < |events| && DropsAt(states, events, d, j), i)
  }

  /** Each stay ends in one send or one time-out, or still goes on. */
  lemma {:induction false} StaysBalance(settings: Settings, states: seq<State>, events: seq<Event>, d: Digest, i: nat)
    requires IsRun(settings, states, events) && i < |states|
    ensures Entries(states, d, i)
         == multiset(states[i].sent)[d] + Drops(states, events, d, i) + Collections.Bit(Waits(states[i], d))
  {
    if i > 0 {
      StaysBalance(settings, states, events, d, i - 1);
      RunStep(settings, states, events, i - 1);
    }
  }
}
