/** Transactions collected into batches by size or by time (calf/src/worker/batch_maker.rs). */
module BatchMaker {

  type Transaction = seq<nat>
  type Batch = seq<Transaction>

  /** The bincode form: an eight-byte length, then the data. */
  function Size(tx: Transaction): nat {
    8 + |tx|
  }

  function Bytes(batch: Batch): nat {
    if batch == [] then 0 else Size(batch[0]) + Bytes(batch[1..])
  }

  /** A transaction, which serialises or not, or the timer. */
  datatype Event = Received(tx: Transaction, serialises: bool) | TimerFires

  datatype State = State(current: Batch, size: nat, sent: seq<Batch>)

  function Step(max: nat, s: State, e: Event): State {
    match e
    case Received(tx, serialises) =>
      if !serialises then s
      else if s.size + Size(tx) >= max then State([], 0, s.sent + [s.current + [tx]])
      else State(s.current + [tx], s.size + Size(tx), s.sent)
    case TimerFires =>
      // the counter keeps its value
      if s.current != [] then State([], s.size, s.sent + [s.current]) else s
  }

  function Front<T>(s: seq<T>): seq<T>
    requires s != []
  {
    s[..|s| - 1]
  }

  function Last<T>(s: seq<T>): T
    requires s != []
  {
    s[|s| - 1]
  }

  function Run(max: nat, events: seq<Event>): State {
    if events == [] then State([], 0, []) else Step(max, Run(max, Front(events)), Last(events))
  }

  class BatchMaker {
    const maxBatchSize: nat
    var currentBatch: Batch
    var currentBatchSize: nat
    var batchesTx: seq<Batch>

    function View(): State
      reads this
    {
      State(currentBatch, currentBatchSize, batchesTx)
    }

    constructor (maxBatchSize: nat)
      ensures View() == State([], 0, []) && this.maxBatchSize == maxBatchSize
    {
      this.maxBatchSize, currentBatch, currentBatchSize, batchesTx := maxBatchSize, [], 0, [];
    }

    /** Takes the current batch and sends it; without receivers the send fails. */
    method SendBatch(delivers: bool)
      modifies this`currentBatch, this`batchesTx
      ensures currentBatch == []
      ensures batchesTx == if delivers then old(batchesTx) + [old(currentBatch)] else old(batchesTx)
    {
      var batch := currentBatch;
      currentBatch := [];
      if delivers {
        batchesTx := batchesTx + [batch];
      }
    }

    /** One turn of the select loop; a failed send ends the loop, and its batch is gone. */
    method Handle(e: Event, delivers: bool) returns (ok: bool)
      modifies this
      ensures ok <==> delivers || Step(maxBatchSize, old(View()), e).sent == old(batchesTx)
      ensures ok ==> View() == Step(maxBatchSize, old(View()), e)
      ensures !ok ==> currentBatch == [] && batchesTx == old(batchesTx)
    {
      ok := true;
      match e {
        case Received(tx, serialises) =>
          if serialises {
            currentBatch := currentBatch + [tx];
            currentBatchSize := currentBatchSize + Size(tx);
            if currentBatchSize >= maxBatchSize {
              SendBatch(delivers);
              if !delivers {
                return false;
              }
              currentBatchSize := 0;
            }
          }
        case TimerFires =>
          if currentBatch != [] {
            SendBatch(delivers);
            ok := delivers;
          }
      }
    }

    /** The loop, from its start to its end or the first send that fails. */
    method Loop(events: seq<Event>, delivers: nat -> bool) returns (n: nat)
      requires View() == State([], 0, [])
      modifies this
      ensures n <= |events|
      ensures n == |events| ==> View() == Run(maxBatchSize, events)
      ensures n < |events| ==> currentBatch == [] && batchesTx == Run(maxBatchSize, events[..n]).sent
                               && !delivers(n) && Run(maxBatchSize, events[..n + 1]).sent != batchesTx
    {
      for i := 0 to |events|
        invariant View() == Run(maxBatchSize, events[..i])
      {
        assert Front(events[..i + 1]) == events[..i];
        var ok := Handle(events[i], delivers(i));
        if !ok {
          return i;
        }
      }
      assert events[..|events|] == events;
      n := |events|;
    }
  }

  // --- every run ---

  function Accepted(events: seq<Event>): seq<Transaction> {
    if events == [] then []
    else Accepted(Front(events)) + if Last(events).Received? && Last(events).serialises then [Last(events).tx] else []
  }

  function Concat(batches: seq<Batch>): seq<Transaction> {
    if batches == [] then [] else Concat(Front(batches)) + Last(batches)
  }

  /** Bytes sent by the timer since a batch last reached the size. */
  function SentByTimer(max: nat, events: seq<Event>): nat {
    if events == [] then 0
    else
      var s, e := Run(max, Front(events)), Last(events);
      if e.TimerFires? then SentByTimer(max, Front(events)) + Bytes(s.current)
      else if e.serialises && s.size + Size(e.tx) >= max then 0
      else SentByTimer(max, Front(events))
  }

  /** A maximum of 0 acts like 1: every transaction is sent at once. */
  function Limit(max: nat): nat {
    if max == 0 then 1 else max
  }

  lemma {:induction false} BytesPush(batch: Batch, tx: Transaction)
    ensures Bytes(batch + [tx]) == Bytes(batch) + Size(tx)
  {
    if batch == [] {
      assert ([] + [tx])[1..] == [];
    } else {
      BytesPush(batch[1..], tx);
      assert (batch + [tx])[1..] == batch[1..] + [tx];
    }
  }

  /** The data of the transactions of a batch, one after the other. */
  function Data(batch: Batch): seq<nat> {
    if batch == [] then [] else Data(Front(batch)) + Last(batch)
  }

  /** A batch takes eight bytes for each transaction and one for each byte of data. */
  lemma {:induction false} BytesExact(batch: Batch)
    ensures Bytes(batch) == 8 * |batch| + |Data(batch)|
  {
    if batch != [] {
      BytesExact(Front(batch));
      BytesPush(Front(batch), Last(batch));
      assert batch == Front(batch) + [Last(batch)];
    }
  }

  /** The counter is the pending bytes and those the timer sent in the meantime, and it
      stays below the maximum. */
  lemma {:induction false} CounterExact(max: nat, events: seq<Event>)
    ensures var s := Run(max, events);
      s.size == Bytes(s.current) + SentByTimer(max, events) && s.size < Limit(max)
  {
    if events != [] {
      CounterExact(max, Front(events));
      var s, e := Run(max, Front(events)), Last(events);
      if e.Received? {
        BytesPush(s.current, e.tx);
      }
    }
  }

  /** No transaction is lost, repeated or moved. */
  lemma {:induction false} Conserved(max: nat, events: seq<Event>)
    ensures Concat(Run(max, events).sent) + Run(max, events).current == Accepted(events)
  {
    if events != [] {
      Conserved(max, Front(events));
      var s, s' := Run(max, Front(events)), Run(max, events);
      if |s'.sent| > |s.sent| {
        assert Front(s'.sent) == s.sent;
      }
    }
  }

  /** A batch is not empty and below the maximum without its last transaction. */
  predicate Tight(max: nat, batch: Batch) {
    batch != [] && Bytes(Front(batch)) < Limit(max)
  }

  lemma {:induction false} FrontBytes(batch: Batch)
    requires batch != []
    ensures Bytes(Front(batch)) < Bytes(batch)
  {
    BytesPush(Front(batch), Last(batch));
    assert batch == Front(batch) + [Last(batch)];
  }

  lemma {:induction false} SentAreTight(max: nat, events: seq<Event>)
    ensures forall b :: b in Run(max, events).sent ==> Tight(max, b)
  {
    if events != [] {
      SentAreTight(max, Front(events));
      CounterExact(max, Front(events));
      var s, e := Run(max, Front(events)), Last(events);
      if e.Received? {
        assert Front(s.current + [e.tx]) == s.current;
      } else if s.current != [] {
        FrontBytes(s.current);
      }
    }
  }

  /** The next transaction completes a batch by size. */
  predicate Triggers(max: nat, events: seq<Event>, tx: Transaction) {
    Run(max, events).size + Size(tx) >= max
  }

  /** In any run a transaction is followed by a batch exactly when it serialises and brings the
      pending bytes and those the timer sent since to the maximum; the timer is followed by one
      exactly when something is pending. */
  lemma {:induction false} SendsIff(max: nat, events: seq<Event>)
    requires events != []
    ensures
      var before, after, e := Run(max, Front(events)), Run(max, events), Last(events);
      var sends := if e.TimerFires? then before.current != []
                   else e.serialises && Bytes(before.current) + SentByTimer(max, Front(events)) + 8 + |e.tx| >= max;
      |after.sent| > |before.sent| <==> sends
  {
    CounterExact(max, Front(events));
  }

  /** A batch sent for its size is sure to have that size exactly when the timer has sent
      nothing since the last such batch. */
  lemma {:induction false} SizedBatchesFullIff(max: nat, events: seq<Event>)
    ensures (forall tx :: Triggers(max, events, tx) ==> Bytes(Run(max, events).current + [tx]) >= max)
       <==> SentByTimer(max, events) == 0
  {
    CounterExact(max, events);
    var s := Run(max, events);
    forall tx ensures Bytes(s.current + [tx]) == Bytes(s.current) + Size(tx) {
      BytesPush(s.current, tx);
    }
    if SentByTimer(max, events) > 0 {
      TimerSendsWhole(max, events);
      var missing := max - s.size;
      var tx: Transaction := seq(if missing <= 8 then 0 else missing - 8, _ => 0);
      assert Triggers(max, events, tx) && Bytes(s.current + [tx]) < max;
    }
  }

  lemma {:induction false} TimerSendsWhole(max: nat, events: seq<Event>)
    ensures SentByTimer(max, events) == 0 || (SentByTimer(max, events) >= 8 && max > 0)
  {
    if events != [] {
      TimerSendsWhole(max, Front(events));
      CounterExact(max, Front(events));
    }
  }

  /** After a time-out that sent 8 of 20 bytes, two empty transactions make a "full" batch
      of 16 bytes. */
  lemma {:induction false} SmallSizedBatch()
    ensures
      var events := [Received([], true), TimerFires, Received([], true), Received([], true)];
      Run(20, events).sent == [[[]], [[], []]] && Bytes([[], []]) == 16
  {
    var e: Event := Received([], true);
    assert Front([e]) == [] && Front([e, TimerFires]) == [e] && Front([e, TimerFires, e]) == [e, TimerFires];
    assert Front([e, TimerFires, e, e]) == [e, TimerFires, e];
    assert Run(20, [e]) == State([[]], 8, []);
    assert Run(20, [e, TimerFires]) == State([], 8, [[[]]]);
    assert Run(20, [e, TimerFires, e]) == State([[]], 16, [[[]]]);
    var batch: Batch := [[]];
    assert batch + [[]] == [[], []];
    assert Run(20, [e, TimerFires, e, e]) == State([], 0, [[[]]] + [batch + [[]]]);
    assert Bytes([[], []]) == 16 by {
      BytesPush([[]], []);
      BytesPush([], []);
    }
  }
}
