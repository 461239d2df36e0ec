/** Fixed-capacity ring queue with tail drop (core/include/router/bounded_queue.hpp).

    The ring is kept as the source keeps it: one array, a head, a tail and a size that wrap
    modulo the capacity. `Contents` is the first-in first-out sequence that the ring stands for,
    and every method is specified by what it does to that sequence. */
module BoundedQueues {
  import opened Options

  /** Index `x` of a ring whose cells are numbered below `capacity`, one lap at most. */
  function Wrap(x: nat, capacity: nat): (i: nat)
    requires x < 2 * capacity
    ensures i < capacity
  {
    if x < capacity then x else x - capacity
  }

  lemma WrapIsModulo(x: nat, capacity: nat)
    requires x < 2 * capacity
    ensures x % capacity == Wrap(x, capacity)
  {
    if x < capacity {
      assert x / capacity == 0;
    } else {
      assert x == 1 * capacity + (x - capacity);
      assert x / capacity == 1;
    }
  }

  /** The `n` cells that start at `head` and wrap around the end of `cells`. */
  ghost function Window<T>(cells: seq<T>, head: nat, n: nat): (w: seq<T>)
    requires head < |cells| && n <= |cells|
  {
    seq(n, i requires 0 <= i < n => cells[Wrap(head + i, |cells|)])
  }

  class BoundedQueue<T(0)> {
    const slots: array<T>
    var head: nat
    var tail: nat
    var size: nat

    ghost predicate Valid()
      reads this
    {
      && head < slots.Length
      && size <= slots.Length
      && tail == Wrap(head + size, slots.Length)
    }

    ghost function Contents(): (s: seq<T>)
      requires Valid()
      reads this, slots
    {
      Window(slots[..], head, size)
    }

    constructor (capacity: nat)
      requires capacity > 0
      ensures Valid() && fresh(slots) && slots.Length == capacity && Contents() == []
    {
      slots := new T[capacity];
      head, tail, size := 0, 0, 0;
    }

    method TryPush(value: T) returns (ok: bool)
      requires Valid()
      modifies this, slots
      ensures Valid()
      ensures ok <==> old(|Contents()|) < slots.Length
      ensures Contents() == if ok then old(Contents()) + [value] else old(Contents())
    {
      if size == slots.Length {
        return false;
      }
      PushExtends(slots[..], head, size, value);
      WrapIsModulo(tail + 1, slots.Length);
      ghost var cells := slots[..];
      slots[tail] := value;
      assert slots[..] == cells[tail := value];
      tail := (tail + 1) % slots.Length;
      size := size + 1;
      return true;
    }

    method TryPop() returns (value: Option<T>)
      requires Valid()
      modifies this
      ensures Valid()
      ensures value.None? <==> old(Contents()) == []
      ensures value.None? ==> Contents() == old(Contents())
      ensures value.Some? ==> [value.value] + Contents() == old(Contents())
    {
      if size == 0 {
        return None;
      }
      value := Some(slots[head]);
      PopDrops(slots[..], head, size);
      WrapIsModulo(head + 1, slots.Length);
      head := (head + 1) % slots.Length;
      size := size - 1;
    }

    method TryPeek() returns (value: Option<T>)
      requires Valid()
      ensures value == if Contents() == [] then None else Some(Contents()[0])
    {
      if size == 0 {
        return None;
      }
      assert Contents()[0] == slots[Wrap(head + 0, slots.Length)];
      return Some(slots[head]);
    }

    method CopyAt(offset: nat) returns (value: Option<T>)
      requires Valid()
      ensures value == if offset < |Contents()| then Some(Contents()[offset]) else None
    {
      if offset >= size {
        return None;
      }
      WrapIsModulo(head + offset, slots.Length);
      return Some(slots[(head + offset) % slots.Length]);
    }

    method Clear()
      requires Valid()
      modifies this
      ensures Valid() && Contents() == []
    {
      head, tail, size := 0, 0, 0;
    }
  }

  /** Writing the tail cell of a ring that is not full appends to its window. */
  lemma PushExtends<T>(cells: seq<T>, head: nat, n: nat, value: T)
    requires head < |cells| && n < |cells|
    ensures Window(cells[Wrap(head + n, |cells|) := value], head, n + 1)
         == Window(cells, head, n) + [value]
  {
    var after := Window(cells[Wrap(head + n, |cells|) := value], head, n + 1);
    var expected := Window(cells, head, n) + [value];
    forall i | 0 <= i < n
      ensures after[i] == expected[i]
    {
      assert Wrap(head + i, |cells|) != Wrap(head + n, |cells|);
    }
    assert after == expected;
  }

  /** Advancing the head of a nonempty ring removes the first element of its window. */
  lemma PopDrops<T>(cells: seq<T>, head: nat, n: nat)
    requires head < |cells| && 0 < n <= |cells|
    ensures Window(cells, head, n)
         == [cells[head]] + Window(cells, Wrap(head + 1, |cells|), n - 1)
  {
    var before := Window(cells, head, n);
    var rest := Window(cells, Wrap(head + 1, |cells|), n - 1);
    assert before[0] == cells[Wrap(head + 0, |cells|)];
    forall i | 0 <= i < n - 1
      ensures before[i + 1] == rest[i]
    {
      assert Wrap(head + (i + 1), |cells|) == Wrap(Wrap(head + 1, |cells|) + i, |cells|);
    }
    assert before == [cells[head]] + rest;
  }
}
