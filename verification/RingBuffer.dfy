// The single-producer single-consumer ring buffer: one thread using it alone.
module RingBuffer {
  import opened Octets

  // The index after i.
  function Succ(i: nat, size: nat): (j: nat)
    requires i < size
    ensures j < size
  {
    if i + 1 == size then 0 else i + 1
  }

  // How many slots are in use. One always stays free.
  function Occupancy(head: nat, tail: nat, size: nat): (n: nat)
    requires head < size && tail < size
    ensures n < size
  {
    if head >= tail then head - tail else head + size - tail
  }

  // The slot k places after index i.
  function Slot(i: nat, k: nat, size: nat): (j: nat)
    requires i < size && k < size
    ensures j < size
  {
    if i + k < size then i + k else i + k - size
  }

  // n slots from the tail on.
  function Live(buf: seq<byte>, tail: nat, n: nat): (s: seq<byte>)
    requires tail < |buf| && n < |buf|
    ensures |s| == n
  {
    seq(n, k requires 0 <= k < n => buf[Slot(tail, k, |buf|)])
  }

  // A new element goes behind the live ones.
  lemma LiveSnoc(buf: seq<byte>, head: nat, tail: nat, el: byte)
    requires head < |buf| && tail < |buf| && Occupancy(head, tail, |buf|) + 1 < |buf|
    ensures var n := Occupancy(head, tail, |buf|);
            && Live(buf[head := el], tail, n) == Live(buf, tail, n)
            && Live(buf[head := el], tail, n + 1) == Live(buf, tail, n) + [el]
            && Occupancy(Succ(head, |buf|), tail, |buf|) == n + 1
  {
  }

  // The oldest element leaves.
  lemma LiveTail(buf: seq<byte>, head: nat, tail: nat)
    requires head < |buf| && tail < |buf| && head != tail
    ensures var n := Occupancy(head, tail, |buf|);
            && n > 0 && Live(buf, tail, n)[0] == buf[tail]
            && Live(buf, Succ(tail, |buf|), n - 1) == Live(buf, tail, n)[1..]
            && Occupancy(head, Succ(tail, |buf|), |buf|) == n - 1
  {
  }

  // The buffer is full exactly if the next head would meet the tail.
  lemma FullExactly(head: nat, tail: nat, size: nat)
    requires head < size && tail < size
    ensures Succ(head, size) == tail <==> Occupancy(head, tail, size) == size - 1
    ensures head == tail <==> Occupancy(head, tail, size) == 0
  {
  }

  lemma OldestLeaves(buf: seq<byte>, head: nat, tail: nat, done: seq<byte>)
    requires head < |buf| && tail < |buf| && head != tail
    ensures var n, next := Occupancy(head, tail, |buf|), Succ(tail, |buf|);
            && Occupancy(head, next, |buf|) == n - 1
            && done + Live(buf, tail, n) == done + [buf[tail]] + Live(buf, next, n - 1)
  {
    hide Live, Occupancy, Slot;
    LiveTail(buf, head, tail);
  }

  lemma NoneLeft(buf: seq<byte>, head: nat, tail: nat)
    requires tail < |buf| && head == tail
    ensures Live(buf, tail, Occupancy(head, tail, |buf|)) == []
  {
  }

  class Ring {
    const buffer: array<byte>
    const maxSize: nat
    var head: nat
    var tail: nat

    ghost predicate Valid()
      reads this
    {
      buffer.Length == maxSize && head < maxSize && tail < maxSize
    }

    ghost function Contents(): seq<byte>
      requires Valid()
      reads this, buffer
    {
      Live(buffer[..], tail, Occupancy(head, tail, maxSize))
    }

    constructor (buffer: array<byte>)
      requires buffer.Length > 0
      ensures Valid() && this.buffer == buffer && maxSize == buffer.Length && Contents() == []
    {
      this.buffer, maxSize := buffer, buffer.Length;
      head, tail := 0, 0;
    }

    method Put(el: byte) returns (ok: bool)
      requires Valid()
      modifies this`head, buffer
      ensures Valid() && ok == (|old(Contents())| < maxSize - 1)
      ensures Contents() == if ok then old(Contents()) + [el] else old(Contents())
    {
      FullExactly(head, tail, maxSize);
      var next := head + 1;
      if next == maxSize {
        next := 0;
      }
      if next == tail {
        return false;
      }
      LiveSnoc(buffer[..], head, tail, el);
      buffer[head] := el;
      head := next;
      return true;
    }

    method Get() returns (ok: bool, el: byte)
      requires Valid()
      modifies this`tail
      ensures Valid() && ok == (old(Contents()) != [])
      ensures ok ==> old(Contents()) == [el] + Contents()
      ensures !ok ==> Contents() == old(Contents())
    {
      if head == tail {
        return false, 0;
      }
      LiveTail(buffer[..], head, tail);
      el := buffer[tail];
      tail := tail + 1;
      if tail == maxSize {
        tail := 0;
      }
      ok := true;
    }

    method NumFreeSlots() returns (n: nat)
      requires Valid()
      ensures n + |Contents()| == maxSize - 1
    {
      if head == tail {
        n := maxSize - 1;
      } else if head < tail {
        n := tail - head - 1;
      } else {
        n := maxSize + tail - head - 1;
      }
    }

    // Hands every element to the handler, oldest first.
    method ProcessAll() returns (handled: seq<byte>)
      requires Valid()
      modifies this`tail
      ensures Valid() && handled == old(Contents()) && Contents() == []
    {
      hide Live, Occupancy, Slot;
      handled := [];
      assert [] + Contents() == Contents();
      while head != tail
        invariant Valid() && head == old(head)
        invariant handled + Contents() == old(Contents())
        decreases Occupancy(head, tail, maxSize)
      {
        OldestLeaves(buffer[..], head, tail, handled);
        handled := handled + [buffer[tail]];
        tail := tail + 1;
        if tail == maxSize {
          tail := 0;
        }
      }
      NoneLeft(buffer[..], head, tail);
      assert handled + [] == handled;
    }
  }
}
