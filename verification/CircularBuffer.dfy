/** The bounded buffer of batch digests (calf/src/utils/mod.rs). */
module CircularBuffer {
  import opened Types

  /** The slots and the write position. */
  datatype Ring<T> = Ring(slots: seq<Option<T>>, head: nat) {
    predicate Valid() {
      head <= |slots|
    }

    function Push(x: T): Ring<T>
      requires Valid() && |slots| >= 1
    {
      if head == |slots| then Ring(slots[1..] + [Some(x)], head)
      else Ring(slots[head := Some(x)], head + 1)
    }

    /** The head stays where it is. */
    function Drained(): Ring<T> {
      Ring(seq(|slots|, _ => None), head)
    }
  }

  function Flatten<T>(slots: seq<Option<T>>): seq<T> {
    if slots == [] then []
    else (if slots[0].Some? then [slots[0].value] else []) + Flatten(slots[1..])
  }

  class CircularBuffer<T> {
    var buffer: array<Option<T>>
    const size: nat
    var head: nat

    ghost predicate Valid()
      reads this
    {
      buffer.Length == size && head <= size
    }

    function View(): Ring<T>
      reads this, buffer
    {
      Ring(buffer[..], head)
    }

    constructor (size: nat)
      ensures Valid() && fresh(buffer) && this.size == size
      ensures View() == Ring(seq(size, _ => None), 0)
    {
      this.size, head := size, 0;
      buffer := new Option<T>[size](_ => None);
      new;
      assert buffer[..] == seq(size, _ => None);
    }

    /** With size 0 the source panics here. */
    method Push(item: T)
      requires Valid() && size >= 1
      modifies this`head, buffer
      ensures Valid() && View() == old(View()).Push(item)
    {
      if head == size {
        RotateLeft();
        buffer[head - 1] := Some(item);
      } else {
        buffer[head] := Some(item);
        head := head + 1;
      }
    }

    /** buffer.rotate_left(1) */
    method RotateLeft()
      requires buffer.Length >= 1
      modifies buffer
      ensures buffer[..] == old(buffer[1..]) + [old(buffer[0])]
    {
      var first := buffer[0];
      for i := 1 to buffer.Length
        invariant forall j :: 0 <= j < i - 1 ==> buffer[j] == old(buffer[j + 1])
        invariant forall j :: i - 1 <= j < buffer.Length ==> buffer[j] == old(buffer[j])
      {
        buffer[i - 1] := buffer[i];
      }
      buffer[buffer.Length - 1] := first;
    }

    method Drain() returns (items: seq<T>)
      requires Valid()
      modifies this`buffer
      ensures Valid() && fresh(buffer)
      ensures items == Flatten(old(buffer[..])) && View() == old(View()).Drained()
    {
      items := Flattened(buffer);
      buffer := new Option<T>[size](_ => None);
      assert buffer[..] == seq(size, _ => None);
    }

    /** buffer.drain(..).flatten() */
    static method Flattened(slots: array<Option<T>>) returns (items: seq<T>)
      ensures items == Flatten(slots[..])
    {
      items := [];
      ghost var all := slots[..];
      for i := 0 to slots.Length
        invariant items + Flatten(all[i..]) == Flatten(all)
      {
        assert all[i..][1..] == all[i + 1..];
        if slots[i].Some? {
          items := items + [slots[i].value];
        }
      }
    }
  }

  // --- every interleaving of pushes and drains ---

  datatype Op<T> = PushOp(item: T) | DrainOp

  /** What the drains of a run return, one after the other. */
  function Returned<T>(ring: Ring<T>, ops: seq<Op<T>>): seq<seq<T>>
    requires ring.Valid() && |ring.slots| >= 1
    decreases |ops|
  {
    if ops == [] then []
    else if ops[0].PushOp? then Returned(ring.Push(ops[0].item), ops[1..])
    else [Flatten(ring.slots)] + Returned(ring.Drained(), ops[1..])
  }

  function LastOf<T>(items: seq<T>, k: nat): seq<T> {
    if |items| <= k then items else items[|items| - k..]
  }

  /** The abstract queue: all items pushed since the last drain, cut to the last `size`. */
  function LastKept<T>(size: nat, pending: seq<T>, ops: seq<Op<T>>): seq<seq<T>>
    decreases |ops|
  {
    if ops == [] then []
    else if ops[0].PushOp? then LastKept(size, pending + [ops[0].item], ops[1..])
    else [LastOf(pending, size)] + LastKept(size, [], ops[1..])
  }

  /** The kept items end at the head, with empty slots around them. */
  ghost predicate Holds<T>(ring: Ring<T>, pending: seq<T>) {
    var kept := LastOf(pending, |ring.slots|);
    && |kept| <= ring.head <= |ring.slots|
    && (forall i :: 0 <= i < |ring.slots| ==>
          ring.slots[i] == if ring.head - |kept| <= i < ring.head then Some(kept[i - (ring.head - |kept|)]) else None)
  }

  lemma {:induction false} FlattenWindow<T>(slots: seq<Option<T>>, lo: int, kept: seq<T>)
    requires -|kept| <= lo && lo + |kept| <= |slots|
    requires forall i :: 0 <= i < |slots| ==>
      slots[i] == if lo <= i < lo + |kept| then Some(kept[i - lo]) else None
    ensures Flatten(slots) == if lo >= 0 then kept else kept[-lo..]
  {
    if slots != [] {
      FlattenWindow(slots[1..], if lo == -|kept| then lo else lo - 1, kept);
    }
  }

  lemma {:induction false} PushHolds<T>(ring: Ring<T>, pending: seq<T>, x: T)
    requires |ring.slots| >= 1 && Holds(ring, pending)
    ensures Holds(ring.Push(x), pending + [x])
  {
  }

  /** For size >= 1 every drain returns exactly the last min(size, k) of the k items
      pushed since the drain before, in order. */
  lemma {:induction false} DrainsLastItems<T>(ring: Ring<T>, pending: seq<T>, ops: seq<Op<T>>)
    requires |ring.slots| >= 1 && Holds(ring, pending)
    ensures Returned(ring, ops) == LastKept(|ring.slots|, pending, ops)
    decreases |ops|
  {
    if ops != [] {
      if ops[0].PushOp? {
        PushHolds(ring, pending, ops[0].item);
        DrainsLastItems(ring.Push(ops[0].item), pending + [ops[0].item], ops[1..]);
      } else {
        var kept := LastOf(pending, |ring.slots|);
        FlattenWindow(ring.slots, ring.head - |kept|, kept);
        DrainsLastItems(ring.Drained(), [], ops[1..]);
      }
    }
  }

  lemma {:induction false} NewBuffer<T>(size: nat, ops: seq<Op<T>>)
    requires size >= 1
    ensures Returned(Ring(seq(size, _ => None), 0), ops) == LastKept(size, [], ops)
  {
    DrainsLastItems(Ring(seq(size, _ => None), 0), [], ops);
  }
}
