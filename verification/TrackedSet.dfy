/** Ids being fetched, each with the time it was asked for (calf/src/types/sync.rs). */
module TrackedSet {
  import opened Types

  datatype Timestamped = Timestamped(id: Digest, timestamp: int)

  /** The clock is read anew for every object. */
  type Reading = Timestamped -> int

  /** The age is cast to u64, so a clock that went backwards looks like a time-out. */
  predicate TimedOut(o: Timestamped, timeout: nat, now: int) {
    (now - o.timestamp) % U64 > timeout
  }

  function Ids(s: set<Timestamped>): set<Digest> {
    set o | o in s :: o.id
  }

  function Inserted(s: set<Timestamped>, id: Digest, now: int): set<Timestamped> {
    if id in Ids(s) then s else s + {Timestamped(id, now)}
  }

  function AllInserted(s: set<Timestamped>, ids: set<Digest>, at: Digest -> int): set<Timestamped> {
    s + set id | id in ids && id !in Ids(s) :: Timestamped(id, at(id))
  }

  function Extended(s: set<Timestamped>, ids: set<Digest>, at: Digest -> int): set<Timestamped> {
    s + set id | id in ids :: Timestamped(id, at(id))
  }

  function Without(s: set<Timestamped>, id: Digest): set<Timestamped> {
    set o | o in s && o.id != id
  }

  function Expired(s: set<Timestamped>, timeout: nat, at: Reading): set<Digest> {
    set o | o in s && TimedOut(o, timeout, at(o)) :: o.id
  }

  function Fresh(s: set<Timestamped>, timeout: nat, at: Reading): set<Timestamped> {
    set o | o in s && !TimedOut(o, timeout, at(o))
  }

  /** At most one entry per id. */
  ghost predicate Unique(s: set<Timestamped>) {
    forall o, o' :: o in s && o' in s && o.id == o'.id ==> o == o'
  }

  class TrackedSet {
    var objects: set<Timestamped>
    const timeout: nat

    constructor (timeout: nat)
      ensures objects == {} && this.timeout == timeout
    {
      objects, this.timeout := {}, timeout;
    }

    method Insert(id: Digest, now: int) returns (added: bool)
      modifies this
      ensures objects == Inserted(old(objects), id, now)
      ensures added == (id !in Ids(old(objects)))
    {
      if exists o :: o in objects && o.id == id {
        return false;
      }
      objects := objects + {Timestamped(id, now)};
      added := true;
    }

    /** retain with the predicate "is not id". */
    method Drop(id: Digest)
      modifies this
      ensures objects == Without(old(objects), id)
    {
      objects := set o | o in objects && o.id != id;
    }

    /** No check whether an id is tracked already. */
    method Extend(ids: set<Digest>, at: Digest -> int)
      modifies this
      ensures objects == Extended(old(objects), ids, at)
    {
      objects := objects + set id | id in ids :: Timestamped(id, at(id));
    }

    /** The clock is read for every object while collecting, and again while removing. */
    method DrainTimedOut(collectAt: Reading, removeAt: Reading) returns (ids: set<Digest>)
      modifies this
      ensures ids == Expired(old(objects), timeout, collectAt)
      ensures objects == Fresh(old(objects), timeout, removeAt)
    {
      ids := set o | o in objects && TimedOut(o, timeout, collectAt(o)) :: o.id;
      objects := set o | o in objects && !TimedOut(o, timeout, removeAt(o));
    }
  }

  // --- what a drain does to an id ---

  /** The difference of two readings is far from wrapping around. */
  predicate InRange(o: Timestamped, timeout: nat, now: int) {
    timeout - U64 < now - o.timestamp < U64
  }

  /** Past its time-out, or younger than the clock allows. */
  predicate OutOfDate(o: Timestamped, timeout: nat, now: int) {
    o.timestamp < now - timeout || now < o.timestamp
  }

  lemma {:induction false} TimedOutExact(o: Timestamped, timeout: nat, now: int)
    requires InRange(o, timeout, now)
    ensures TimedOut(o, timeout, now) <==> OutOfDate(o, timeout, now)
  {
    var age := now - o.timestamp;
    if age < 0 {
      assert age % U64 == age + U64;
    }
  }

  ghost predicate InRangeAt(s: set<Timestamped>, timeout: nat, at: Reading) {
    forall o :: o in s ==> InRange(o, timeout, at(o))
  }

  lemma {:induction false} ReportedIff(s: set<Timestamped>, timeout: nat, at: Reading, id: Digest)
    requires InRangeAt(s, timeout, at)
    ensures id in Expired(s, timeout, at) <==> exists o :: o in s && o.id == id && OutOfDate(o, timeout, at(o))
  {
    forall o | o in s ensures TimedOut(o, timeout, at(o)) <==> OutOfDate(o, timeout, at(o)) {
      TimedOutExact(o, timeout, at(o));
    }
  }

  lemma {:induction false} KeptIff(s: set<Timestamped>, timeout: nat, at: Reading, id: Digest)
    requires InRangeAt(s, timeout, at)
    ensures id in Ids(Fresh(s, timeout, at)) <==> exists o :: o in s && o.id == id && !OutOfDate(o, timeout, at(o))
  {
    forall o | o in s ensures o in Fresh(s, timeout, at) <==> !OutOfDate(o, timeout, at(o)) {
      TimedOutExact(o, timeout, at(o));
    }
  }

  /** The id is neither reported nor kept. */
  predicate Lost(s: set<Timestamped>, timeout: nat, collectAt: Reading, removeAt: Reading, id: Digest) {
    id in Ids(s) && id !in Expired(s, timeout, collectAt) && id !in Ids(Fresh(s, timeout, removeAt))
  }

  /** It is both. */
  predicate Doubled(s: set<Timestamped>, timeout: nat, collectAt: Reading, removeAt: Reading, id: Digest) {
    id in Expired(s, timeout, collectAt) && id in Ids(Fresh(s, timeout, removeAt))
  }

  /** Up to date at the first reading and out of date at the second. */
  predicate InGap(o: Timestamped, timeout: nat, collectAt: Reading, removeAt: Reading) {
    && collectAt(o) - timeout <= o.timestamp <= collectAt(o)
    && (o.timestamp < removeAt(o) - timeout || removeAt(o) < o.timestamp)
  }

  /** Whatever the clock does and however many entries an id has: it is lost exactly when all
      of them are up to date at the first reading and out of date at the second. */
  lemma {:induction false} LostIff(s: set<Timestamped>, timeout: nat, collectAt: Reading, removeAt: Reading, id: Digest)
    requires InRangeAt(s, timeout, collectAt) && InRangeAt(s, timeout, removeAt)
    ensures Lost(s, timeout, collectAt, removeAt, id)
       <==> id in Ids(s) && forall o :: o in s && o.id == id ==> InGap(o, timeout, collectAt, removeAt)
  {
    ReportedIff(s, timeout, collectAt, id);
    KeptIff(s, timeout, removeAt, id);
  }

  /** It is reported and kept exactly when it has an entry out of date at the first reading
      and one, perhaps the same, up to date at the second. */
  lemma {:induction false} DoubledIff(s: set<Timestamped>, timeout: nat, collectAt: Reading, removeAt: Reading,
                                      id: Digest)
    requires InRangeAt(s, timeout, collectAt) && InRangeAt(s, timeout, removeAt)
    ensures Doubled(s, timeout, collectAt, removeAt, id)
       <==> && (exists o :: o in s && o.id == id
                            && (o.timestamp < collectAt(o) - timeout || collectAt(o) < o.timestamp))
            && (exists o :: o in s && o.id == id && removeAt(o) - timeout <= o.timestamp <= removeAt(o))
  {
    ReportedIff(s, timeout, collectAt, id);
    KeptIff(s, timeout, removeAt, id);
  }

  predicate Splits(s: set<Timestamped>, timeout: nat, collectAt: Reading, removeAt: Reading) {
    var out, kept := Expired(s, timeout, collectAt), Ids(Fresh(s, timeout, removeAt));
    out + kept == Ids(s) && out !! kept
  }

  lemma {:induction false} SplitsEachId(s: set<Timestamped>, timeout: nat, collectAt: Reading, removeAt: Reading)
    ensures Splits(s, timeout, collectAt, removeAt)
       <==> forall id :: !Lost(s, timeout, collectAt, removeAt, id) && !Doubled(s, timeout, collectAt, removeAt, id)
  {
    var out, kept := Expired(s, timeout, collectAt), Ids(Fresh(s, timeout, removeAt));
    assert out <= Ids(s) && kept <= Ids(s);
    forall id
      ensures Lost(s, timeout, collectAt, removeAt, id) <==> id in Ids(s) && id !in out + kept
      ensures Doubled(s, timeout, collectAt, removeAt, id) <==> id in out * kept
    {
    }
    if forall id :: !Lost(s, timeout, collectAt, removeAt, id) && !Doubled(s, timeout, collectAt, removeAt, id) {
      forall id | id in Ids(s) ensures id in out + kept && id !in out * kept {
        assert !Lost(s, timeout, collectAt, removeAt, id) && !Doubled(s, timeout, collectAt, removeAt, id);
      }
      assert out * kept == {};
    }
  }

  ghost predicate Forwards(s: set<Timestamped>, timeout: nat, collectAt: Reading, removeAt: Reading) {
    && InRangeAt(s, timeout, collectAt) && InRangeAt(s, timeout, removeAt)
    && forall o :: o in s ==> o.timestamp <= collectAt(o) <= removeAt(o)
  }

  /** The timestamp falls between the two cut-offs of the entry. */
  predicate BetweenCutOffs(o: Timestamped, timeout: nat, collectAt: Reading, removeAt: Reading) {
    collectAt(o) - timeout <= o.timestamp < removeAt(o) - timeout
  }

  lemma {:induction false} ForwardsLostIff(s: set<Timestamped>, timeout: nat, collectAt: Reading, removeAt: Reading,
                                           id: Digest)
    requires Forwards(s, timeout, collectAt, removeAt)
    ensures Lost(s, timeout, collectAt, removeAt, id)
       <==> id in Ids(s) && forall o :: o in s && o.id == id ==> BetweenCutOffs(o, timeout, collectAt, removeAt)
  {
    LostIff(s, timeout, collectAt, removeAt, id);
    forall o | o in s
      ensures InGap(o, timeout, collectAt, removeAt) <==> BetweenCutOffs(o, timeout, collectAt, removeAt)
    {
    }
  }

  lemma {:induction false} ForwardsDoubledIff(s: set<Timestamped>, timeout: nat, collectAt: Reading, removeAt: Reading,
                                              id: Digest)
    requires Forwards(s, timeout, collectAt, removeAt)
    ensures Doubled(s, timeout, collectAt, removeAt, id)
       <==> exists o, o' :: o in s && o' in s && o.id == o'.id == id
                            && o.timestamp < collectAt(o) - timeout && removeAt(o') - timeout <= o'.timestamp
  {
    DoubledIff(s, timeout, collectAt, removeAt, id);
  }

  /** While the clock runs forwards, a drain splits the tracked ids into reported and kept
      ones exactly when every id has an entry that does not fall between its two cut-offs,
      and no id has an entry before its first cut-off beside one not before its second. */
  lemma {:induction false} DrainSplitsIff(s: set<Timestamped>, timeout: nat, collectAt: Reading, removeAt: Reading)
    requires Forwards(s, timeout, collectAt, removeAt)
    ensures Splits(s, timeout, collectAt, removeAt)
       <==> && (forall id :: id in Ids(s) ==>
                  exists o :: o in s && o.id == id && !BetweenCutOffs(o, timeout, collectAt, removeAt))
            && (forall o, o' :: o in s && o' in s && o.id == o'.id && o.timestamp < collectAt(o) - timeout ==>
                  o'.timestamp < removeAt(o') - timeout)
  {
    SplitsEachId(s, timeout, collectAt, removeAt);
    forall id
      ensures Lost(s, timeout, collectAt, removeAt, id) <==>
        id in Ids(s) && forall o :: o in s && o.id == id ==> BetweenCutOffs(o, timeout, collectAt, removeAt)
    {
      ForwardsLostIff(s, timeout, collectAt, removeAt, id);
    }
    forall o, o' | o in s && o' in s && o.id == o'.id && o.timestamp < collectAt(o) - timeout
                   && removeAt(o') - timeout <= o'.timestamp
      ensures Doubled(s, timeout, collectAt, removeAt, o.id)
    {
      ForwardsDoubledIff(s, timeout, collectAt, removeAt, o.id);
    }
    forall id | Doubled(s, timeout, collectAt, removeAt, id)
      ensures exists o, o' :: o in s && o' in s && o.id == o'.id == id
                              && o.timestamp < collectAt(o) - timeout && removeAt(o') - timeout <= o'.timestamp
    {
      ForwardsDoubledIff(s, timeout, collectAt, removeAt, id);
    }
  }

  /** With one reading per object no id is lost; one is reported and kept exactly when it has
      an entry that times out beside one that does not. */
  lemma {:induction false} OneReading(s: set<Timestamped>, timeout: nat, at: Reading, id: Digest)
    ensures !Lost(s, timeout, at, at, id)
    ensures Doubled(s, timeout, at, at, id)
       <==> exists o, o' :: o in s && o' in s && o.id == o'.id == id
                            && TimedOut(o, timeout, at(o)) && !TimedOut(o', timeout, at(o'))
  {
    if id in Ids(s) {
      var o :| o in s && o.id == id;
      assert o in Fresh(s, timeout, at) || TimedOut(o, timeout, at(o));
    }
    if o' :| o' in s && o'.id == id && !TimedOut(o', timeout, at(o')) {
      assert o' in Fresh(s, timeout, at);
    }
  }

  // --- sets with one entry per id ---

  lemma {:induction false} OneEntry(s: set<Timestamped>, o: Timestamped)
    requires Unique(s) && o in s
    ensures forall o' :: o' in s && o'.id == o.id ==> o' == o
  {
  }

  /** One entry, one reading: every id is reported or kept, and not both. */
  lemma {:induction false} OneEntryOneReading(s: set<Timestamped>, timeout: nat, at: Reading)
    requires Unique(s)
    ensures Ids(Fresh(s, timeout, at)) == Ids(s) - Expired(s, timeout, at)
    ensures Expired(s, timeout, at) <= Ids(s)
  {
    forall id | id in Ids(s) ensures id in Expired(s, timeout, at) <==> id !in Ids(Fresh(s, timeout, at)) {
      OneReading(s, timeout, at, id);
    }
  }

  /** A forwards clock loses the id exactly when its timestamp falls between the cut-offs. */
  lemma {:induction false} OneEntryForwards(s: set<Timestamped>, timeout: nat, collectAt: Reading, removeAt: Reading,
                                            o: Timestamped)
    requires Unique(s) && o in s && Forwards(s, timeout, collectAt, removeAt)
    ensures Lost(s, timeout, collectAt, removeAt, o.id)
       <==> BetweenCutOffs(o, timeout, collectAt, removeAt)
    ensures !Doubled(s, timeout, collectAt, removeAt, o.id)
  {
    OneEntry(s, o);
    LostIff(s, timeout, collectAt, removeAt, o.id);
    DoubledIff(s, timeout, collectAt, removeAt, o.id);
  }

  /** If the clock goes backwards between the readings, the id is lost exactly when its entry
      is younger than the second reading, and is reported and kept exactly when it was older
      than the time-out at the first reading only. */
  lemma {:induction false} OneEntryBackwards(s: set<Timestamped>, timeout: nat, collectAt: Reading, removeAt: Reading,
                                             o: Timestamped)
    requires Unique(s) && o in s && o.timestamp <= collectAt(o) && removeAt(o) <= collectAt(o)
    requires InRangeAt(s, timeout, collectAt) && InRangeAt(s, timeout, removeAt)
    ensures Lost(s, timeout, collectAt, removeAt, o.id)
       <==> removeAt(o) < o.timestamp && collectAt(o) - timeout <= o.timestamp
    ensures Doubled(s, timeout, collectAt, removeAt, o.id)
       <==> removeAt(o) - timeout <= o.timestamp <= removeAt(o) && o.timestamp < collectAt(o) - timeout
  {
    OneEntry(s, o);
    LostIff(s, timeout, collectAt, removeAt, o.id);
    DoubledIff(s, timeout, collectAt, removeAt, o.id);
  }

  /** An entry younger than the first reading is reported, so never lost. */
  lemma {:induction false} OneEntryTooYoung(s: set<Timestamped>, timeout: nat, collectAt: Reading, removeAt: Reading,
                                            o: Timestamped)
    requires Unique(s) && o in s && collectAt(o) < o.timestamp
    requires InRangeAt(s, timeout, collectAt) && InRangeAt(s, timeout, removeAt)
    ensures !Lost(s, timeout, collectAt, removeAt, o.id)
    ensures Doubled(s, timeout, collectAt, removeAt, o.id)
       <==> removeAt(o) - timeout <= o.timestamp <= removeAt(o)
  {
    OneEntry(s, o);
    LostIff(s, timeout, collectAt, removeAt, o.id);
    DoubledIff(s, timeout, collectAt, removeAt, o.id);
  }

  /** A lost id: with a time-out of 1000, read at age 1000 and then at age 1001. */
  lemma {:induction false} LostBetweenReadings(id: Digest)
    ensures Lost({Timestamped(id, 0)}, 1000, _ => 1000, _ => 1001, id)
  {
    var o := Timestamped(id, 0);
    assert !TimedOut(o, 1000, 1000) && TimedOut(o, 1000, 1001);
    assert o.id in Ids({o});
  }
}
