/** The shared fee cache and the calls that race for it
    (igra-rpc-provider/src/services/gas_price.rs). */
module FeeCache {
  import Collections
  import opened Types

  const GWEI_TO_WEI: nat := 1_000_000_000
  /** IGRA_BLOCK_TIME, one second, in nanoseconds. */
  const BLOCK_TIME: nat := 1_000_000_000

  /** min_floor_wei: the checked product of two 256-bit numbers. */
  function MinFloorWei(gwei: nat): Option<nat> {
    if gwei * GWEI_TO_WEI < U256 then Some(gwei * GWEI_TO_WEI) else None
  }

  /** The configured floor is a u64, so the overflow error cannot happen. */
  lemma {:induction false} FloorNeverOverflows(gwei: nat)
    requires gwei < U64
    ensures MinFloorWei(gwei) == Some(gwei * 1_000_000_000)
  {
  }

  type Caller = nat

  datatype CachedFee = CachedFee(fee: nat, fetchedAt: nat)

  /** Where one call of get_effective_base_fee stands. */
  datatype Pc =
    | Called
    | WaitsForLock
    | HoldsLock
    | Fetching
    | Storing(fee: nat)
    | Returned(fee: nat)
    | Failed
    | Cancelled
  {
    /** Between taking and releasing the refresh lock. */
    predicate Inside() {
      HoldsLock? || Fetching? || Storing?
    }

    predicate Over() {
      Returned? || Failed? || Cancelled?
    }
  }

  /** The atomic steps of a call; a fetch ends with the network's base fee or an error, and
      a call can be dropped wherever it waits. */
  datatype Action = ReadCache | TakeLock | ReadAgain | FetchEnds(network: Option<nat>) | StoreFee | Drop

  datatype Event = Event(caller: Caller, action: Action, now: nat)

  datatype State = State(cache: Option<CachedFee>, holder: Option<Caller>, calls: map<Caller, Pc>, now: nat) {
    function At(c: Caller): Pc {
      if c in calls then calls[c] else Called
    }

    predicate IsFresh(t: nat) {
      cache.Some? && t - cache.value.fetchedAt < BLOCK_TIME
    }

    function Goto(c: Caller, pc: Pc, t: nat): State {
      State(cache, if holder == Some(c) && !pc.Inside() then None else holder, calls[c := pc], t)
    }
  }

  predicate Enabled(s: State, e: Event) {
    var pc := s.At(e.caller);
    && s.now <= e.now
    && match e.action
       case ReadCache => pc.Called?
       case TakeLock => pc.WaitsForLock? && s.holder == None
       case ReadAgain => pc.HoldsLock?
       case FetchEnds(_) => pc.Fetching?
       case StoreFee => pc.Storing?
       case Drop => !pc.Over()
  }

  function Max(a: nat, b: nat): nat {
    if a < b then b else a
  }

  function Step(gwei: nat, s: State, e: Event): State
    requires Enabled(s, e)
  {
    var c, t := e.caller, e.now;
    match e.action
    case ReadCache => s.Goto(c, if s.IsFresh(t) then Returned(s.cache.value.fee) else WaitsForLock, t)
    case TakeLock => s.(holder := Some(c)).Goto(c, HoldsLock, t)
    case ReadAgain => s.Goto(c, if s.IsFresh(t) then Returned(s.cache.value.fee) else Fetching, t)
    case FetchEnds(network) =>
      if network.None? || MinFloorWei(gwei).None? then s.Goto(c, Failed, t)
      else s.Goto(c, Storing(Max(network.value, MinFloorWei(gwei).value)), t)
    case StoreFee => s.(cache := Some(CachedFee(s.At(c).fee, t))).Goto(c, Returned(s.At(c).fee), t)
    case Drop => s.Goto(c, Cancelled, t)
  }

  ghost predicate StepAt(gwei: nat, states: seq<State>, events: seq<Event>, i: nat)
    requires i < |events| && |states| == |events| + 1
  {
    Enabled(states[i], events[i]) && states[i + 1] == Step(gwei, states[i], events[i])
  }

  /** Any interleaving of any calls, from an empty cache. */
  ghost predicate IsRun(gwei: nat, states: seq<State>, events: seq<Event>) {
    && gwei < U64 && |states| == |events| + 1 && states[0] == State(None, None, map[], states[0].now)
    && forall i :: 0 <= i < |events| ==> StepAt(gwei, states, events, i)
  }

  /** The fee is the larger one of the network's fee and the floor. */
  predicate Effective(gwei: nat, network: nat, fee: nat) {
    && fee >= network && fee >= gwei * 1_000_000_000
    && (fee == network || fee == gwei * 1_000_000_000)
  }

  // --- one call at a time, as the code is written ---

  class GasPriceService {
    const minProtocolFeePerGasGwei: nat
    var cachedFee: Option<CachedFee>

    constructor (gwei: nat)
      ensures cachedFee == None && minProtocolFeePerGasGwei == gwei
    {
      minProtocolFeePerGasGwei, cachedFee := gwei, None;
    }

    method ReadCachedFee(now: nat) returns (fee: Option<nat>)
      ensures fee == if cachedFee.Some? && now - cachedFee.value.fetchedAt < BLOCK_TIME
                     then Some(cachedFee.value.fee) else None
    {
      fee := None;
      if cachedFee.Some? && now - cachedFee.value.fetchedAt < BLOCK_TIME {
        fee := Some(cachedFee.value.fee);
      }
    }

    /** A call that no other call disturbs, with its readings of the clock and what a fetch
        would bring. */
    method GetEffectiveBaseFee(first: nat, second: nat, third: nat, network: Option<nat>) returns (r: Option<nat>)
      requires first <= second <= third && minProtocolFeePerGasGwei < U64
      modifies this
      ensures
        var c := old(cachedFee);
        if c.Some? && (first - c.value.fetchedAt < 1_000_000_000 || second - c.value.fetchedAt < 1_000_000_000) then
          r == Some(c.value.fee) && cachedFee == c
        else if network.None? then
          r == None && cachedFee == c
        else
          && r.Some? && Effective(minProtocolFeePerGasGwei, network.value, r.value)
          && cachedFee == Some(CachedFee(r.value, third))
      ensures forall s: State, c: Caller ::
        s.cache == old(cachedFee) && s.holder == None && s.At(c) == Called && s.now <= first ==>
          Alone(minProtocolFeePerGasGwei, s, c, first, second, third, network, r, cachedFee)
    {
      var fee := ReadCachedFee(first);
      if fee.Some? {
        return fee;
      }
      fee := ReadCachedFee(second);
      if fee.Some? {
        return fee;
      }
      if network.None? {
        return None;
      }
      var floor := MinFloorWei(minProtocolFeePerGasGwei);
      if floor.None? {
        return None;
      }
      var effective := Max(network.value, floor.value);
      cachedFee := Some(CachedFee(effective, third));
      r := Some(effective);
    }
  }

  function Apply(gwei: nat, s: State, e: Event): State {
    if Enabled(s, e) then Step(gwei, s, e) else s
  }

  /** The steps of one undisturbed call give this result and leave this cache. */
  ghost predicate Alone(gwei: nat, s: State, c: Caller, first: nat, second: nat, third: nat,
                        network: Option<nat>, r: Option<nat>, cache: Option<CachedFee>)
  {
    var s1 := Apply(gwei, s, Event(c, ReadCache, first));
    var s2 := Apply(gwei, s1, Event(c, TakeLock, first));
    var s3 := Apply(gwei, s2, Event(c, ReadAgain, second));
    var s4 := Apply(gwei, s3, Event(c, FetchEnds(network), second));
    var s5 := Apply(gwei, s4, Event(c, StoreFee, third));
    s5.cache == cache && s5.holder == None && s5.At(c) == if r.Some? then Returned(r.value) else Failed
  }

  // --- invariants ---

  /** The holder of the lock is exactly the call inside it; a call only fetches and stores
      when nothing has been stored within the last second; fees are at least the floor. */
  ghost predicate Valid(gwei: nat, s: State) {
    && (forall c: Caller :: s.At(c).Inside() <==> s.holder == Some(c))
    && (s.cache.Some? ==> s.cache.value.fetchedAt <= s.now && s.cache.value.fee >= gwei * 1_000_000_000)
    && (forall c: Caller :: s.At(c).Fetching? || s.At(c).Storing? ==> !s.IsFresh(s.now))
    && (forall c: Caller :: s.At(c).Storing? || s.At(c).Returned? ==> s.At(c).fee >= gwei * 1_000_000_000)
  }

  lemma {:induction false} StepValid(gwei: nat, s: State, e: Event)
    requires gwei < U64 && Valid(gwei, s) && Enabled(s, e)
    ensures Valid(gwei, Step(gwei, s, e))
  {
    var s' := Step(gwei, s, e);
    assert forall c: Caller :: s'.At(c) == if c == e.caller then s'.calls[c] else s.At(c);
  }

  /** No call is stuck: it, or the call that holds the lock, can go on. */
  lemma {:induction false} NoDeadlock(gwei: nat, s: State, c: Caller) returns (e: Event)
    requires Valid(gwei, s) && !s.At(c).Over()
    ensures Enabled(s, e) && !e.action.Drop? && (e.caller == c || s.holder == Some(e.caller))
  {
    var d := if s.At(c).WaitsForLock? && s.holder.Some? then s.holder.value else c;
    var action := match s.At(d)
      case Called => ReadCache
      case WaitsForLock => TakeLock
      case HoldsLock => ReadAgain
      case Fetching => FetchEnds(None)
      case _ => StoreFee;
    e := Event(d, action, s.now);
  }

  // --- all runs ---

  lemma {:induction false} RunValid(gwei: nat, states: seq<State>, events: seq<Event>, i: nat)
    requires IsRun(gwei, states, events) && i < |states|
    ensures Valid(gwei, states[i])
  {
    if i > 0 {
      RunValid(gwei, states, events, i - 1);
      assert StepAt(gwei, states, events, i - 1);
      StepValid(gwei, states[i - 1], events[i - 1]);
    }
  }

  /** At most one fetch is in flight. */
  lemma {:induction false} OneFetchInFlight(gwei: nat, states: seq<State>, events: seq<Event>, i: nat,
                                            c: Caller, d: Caller)
    requires IsRun(gwei, states, events) && i < |states|
    requires states[i].At(c).Fetching? && states[i].At(d).Fetching?
    ensures c == d
  {
    RunValid(gwei, states, events, i);
  }

  lemma {:induction false} ClockRuns(gwei: nat, states: seq<State>, events: seq<Event>, i: nat, j: nat)
    requires IsRun(gwei, states, events) && i <= j < |events|
    ensures events[i].now <= events[j].now && events[i].now == states[i + 1].now
    decreases j - i
  {
    assert StepAt(gwei, states, events, i);
    if i < j {
      ClockRuns(gwei, states, events, i + 1, j);
      assert StepAt(gwei, states, events, i + 1);
    }
  }

  /** Event j puts this fee into the cache. */
  ghost predicate StoresAt(states: seq<State>, events: seq<Event>, j: nat, fee: nat)
    requires |states| == |events| + 1
  {
    j < |events| && events[j].action.StoreFee? && states[j].At(events[j].caller) == Storing(fee)
  }

  /** The cache holds what the last store before i put there. */
  lemma {:induction false} CacheIsLastStore(gwei: nat, states: seq<State>, events: seq<Event>, i: nat) returns (j: nat)
    requires IsRun(gwei, states, events) && i < |states|
    ensures states[i].cache.Some? ==> j < i && StoresAt(states, events, j, states[i].cache.value.fee)
                                      && states[i].cache.value.fetchedAt == events[j].now
    ensures forall k :: 0 <= k < i && events[k].action.StoreFee? ==> states[i].cache.Some? && k <= j
  {
    j := 0;
    if i > 0 {
      j := CacheIsLastStore(gwei, states, events, i - 1);
      assert StepAt(gwei, states, events, i - 1);
      if events[i - 1].action.StoreFee? {
        j := i - 1;
      }
    }
  }

  /** A fetch starts only when no value was stored within the last second. */
  lemma {:induction false} FetchStartsWhenStale(gwei: nat, states: seq<State>, events: seq<Event>, i: nat, j: nat)
    requires IsRun(gwei, states, events) && j < i < |events|
    requires !states[i].At(events[i].caller).Fetching? && states[i + 1].At(events[i].caller).Fetching?
    requires events[j].action.StoreFee?
    ensures events[i].now - events[j].now >= 1_000_000_000
  {
    var k := CacheIsLastStore(gwei, states, events, i);
    assert StepAt(gwei, states, events, i);
    ClockRuns(gwei, states, events, j, k);
  }

  /** Stores are at least a second apart. */
  lemma {:induction false} StoresApart(gwei: nat, states: seq<State>, events: seq<Event>, i: nat, j: nat)
    requires IsRun(gwei, states, events) && j < i < |events|
    requires events[i].action.StoreFee? && events[j].action.StoreFee?
    ensures events[i].now - events[j].now >= 1_000_000_000
  {
    var k := CacheIsLastStore(gwei, states, events, i);
    RunValid(gwei, states, events, i);
    assert StepAt(gwei, states, events, i);
    ClockRuns(gwei, states, events, j, k);
  }

  /** Event j ends the fetch of a call, and this fee follows from what it brought. */
  ghost predicate Fetched(gwei: nat, events: seq<Event>, j: nat, c: Caller, fee: nat) {
    && j < |events| && events[j].caller == c && events[j].action.FetchEnds? && events[j].action.network.Some?
    && Effective(gwei, events[j].action.network.value, fee)
  }

  /** A call about to store has fetched the value itself. */
  lemma {:induction false} StoringWasFetched(gwei: nat, states: seq<State>, events: seq<Event>, i: nat, c: Caller)
    returns (j: nat)
    requires IsRun(gwei, states, events) && i < |states| && states[i].At(c).Storing?
    ensures j < i && Fetched(gwei, events, j, c, states[i].At(c).fee)
  {
    assert i > 0;
    assert StepAt(gwei, states, events, i - 1);
    if states[i - 1].At(c).Storing? {
      j := StoringWasFetched(gwei, states, events, i - 1, c);
    } else {
      j := i - 1;
    }
  }

  /** Every fee a call returns was stored by the last store up to then: by the call itself, or
      less than a second before the call read it. Whoever stored it had fetched it: it is the
      larger one of the floor and what the network answered. */
  lemma {:induction false} ReturnedFee(gwei: nat, states: seq<State>, events: seq<Event>, i: nat)
    returns (stored: nat, fetched: nat)
    requires IsRun(gwei, states, events) && i < |events|
    requires !states[i].At(events[i].caller).Over() && states[i + 1].At(events[i].caller).Returned?
    ensures
      var fee := states[i + 1].At(events[i].caller).fee;
      && stored <= i && StoresAt(states, events, stored, fee)
      && (forall k :: stored < k <= i ==> !events[k].action.StoreFee?)
      && (stored < i ==> events[i].now - events[stored].now < 1_000_000_000)
      && fetched < stored && Fetched(gwei, events, fetched, events[stored].caller, fee)
  {
    assert StepAt(gwei, states, events, i);
    if events[i].action.StoreFee? {
      stored := i;
    } else {
      stored := CacheIsLastStore(gwei, states, events, i);
    }
    fetched := StoringWasFetched(gwei, states, events, stored, events[stored].caller);
  }

  /** A call that looks at the cache returns exactly when something was stored less than a second
      before; otherwise it goes on to the lock or, if it holds it, to the fetch. */
  lemma {:induction false} ReadReturnsIff(gwei: nat, states: seq<State>, events: seq<Event>, i: nat)
    requires IsRun(gwei, states, events) && i < |events|
    requires events[i].action.ReadCache? || events[i].action.ReadAgain?
    ensures
      var pc := states[i + 1].At(events[i].caller);
      && (pc.Returned? <==>
            exists j :: 0 <= j < i && events[j].action.StoreFee? && events[i].now - events[j].now < 1_000_000_000)
      && (!pc.Returned? ==> pc == if events[i].action.ReadCache? then WaitsForLock else Fetching)
  {
    var k := CacheIsLastStore(gwei, states, events, i);
    assert StepAt(gwei, states, events, i);
    forall j | 0 <= j < i && events[j].action.StoreFee? ensures events[j].now <= events[k].now {
      ClockRuns(gwei, states, events, j, k);
    }
  }

  /** A call fails exactly when its fetch does. */
  lemma {:induction false} FailsIff(gwei: nat, states: seq<State>, events: seq<Event>, i: nat)
    requires IsRun(gwei, states, events) && i < |events|
    ensures states[i + 1].At(events[i].caller).Failed? <==> events[i].action == FetchEnds(None)
  {
    assert StepAt(gwei, states, events, i);
    FloorNeverOverflows(gwei);
  }

  // --- how many fetches ---

  /** Stores among the first i events. */
  function Stores(events: seq<Event>, i: nat): nat {
    Collections.Count((k: nat) => k < |events| && events[k].action.StoreFee?, i)
  }

  /** n stores take at least n - 1 seconds. */
  lemma {:induction false} StoreRate(gwei: nat, states: seq<State>, events: seq<Event>, i: nat) returns (j: nat)
    requires IsRun(gwei, states, events) && i <= |events|
    ensures Stores(events, i) > 0 ==>
      && j < i && events[j].action.StoreFee?
      && (Stores(events, i) - 1) * 1_000_000_000 <= events[j].now - states[0].now
  {
    j := 0;
    if i > 0 {
      j := StoreRate(gwei, states, events, i - 1);
      if events[i - 1].action.StoreFee? {
        if Stores(events, i - 1) > 0 {
          StoresApart(gwei, states, events, i - 1, j);
        } else {
          ClockRuns(gwei, states, events, 0, i - 1);
          assert StepAt(gwei, states, events, 0);
        }
        j := i - 1;
      }
    }
  }

  ghost predicate InFlight(s: State) {
    s.holder.Some? && s.At(s.holder.value).Fetching?
  }

  predicate StartsFetch(states: seq<State>, events: seq<Event>, k: nat)
    requires k < |events| && |states| == |events| + 1
  {
    events[k].action.ReadAgain? && states[k + 1].At(events[k].caller).Fetching?
  }

  predicate EndsFetch(states: seq<State>, events: seq<Event>, k: nat)
    requires k < |events| && |states| == |events| + 1
  {
    events[k].action.FetchEnds? || (events[k].action.Drop? && states[k].At(events[k].caller).Fetching?)
  }

  function FetchStarts(states: seq<State>, events: seq<Event>, i: nat): nat
    requires |states| == |events| + 1
  {
    Collections.Count((k: nat) => k < |events| && StartsFetch(states, events, k), i)
  }

  function FetchEndings(states: seq<State>, events: seq<Event>, i: nat): nat
    requires |states| == |events| + 1
  {
    Collections.Count((k: nat) => k < |events| && EndsFetch(states, events, k), i)
  }

  /** Each fetch that starts ends once or is the one in flight. */
  lemma {:induction false} FetchBalance(gwei: nat, states: seq<State>, events: seq<Event>, i: nat)
    requires IsRun(gwei, states, events) && i <= |events|
    ensures FetchStarts(states, events, i) == FetchEndings(states, events, i) + Collections.Bit(InFlight(states[i]))
  {
    if i > 0 {
      FetchBalance(gwei, states, events, i - 1);
      RunValid(gwei, states, events, i - 1);
      RunValid(gwei, states, events, i);
      assert StepAt(gwei, states, events, i - 1);
    }
  }
}
