/**
 * The fixed-capacity FIFO ring buffer that the kernel writes out three
 * times: the key-action queue of both keyboard drivers (256 entries) and
 * the scancode queue of the older kernel (512 entries). Each keeps an array,
 * the index `from` of the oldest entry and the number `size` of entries;
 * adding stores at `(from + size) % capacity`, reading takes `data[from]`
 * and advances `from` modulo the capacity.
 */
module RingBuffer {
  import opened Common

  class Ring<T> {
    const capacity: nat
    const data: array<T>
    var from: int
    var size: int

    ghost predicate Valid()
      reads this
    {
      && data.Length == capacity && capacity > 0
      && 0 <= from < capacity && 0 <= size <= capacity
    }

    /** The array slot holding the `k`-th oldest entry. */
    function Slot(k: int): (r: nat)
      reads this
      requires Valid() && 0 <= k < capacity
      ensures r < capacity
      ensures r == (from + k) % capacity
    {
      Wrap(from + k, capacity);
      if from + k < capacity then from + k else from + k - capacity
    }

    /** The queued entries, oldest first. */
    ghost function Contents(): (q: seq<T>)
      reads this, data
      requires Valid()
      ensures |q| == size
    {
      seq(size, k requires 0 <= k < size && Valid() reads this, data => data[Slot(k)])
    }

    /** A zeroed queue: every slot holds `fill`, nothing is queued. */
    constructor (capacity: nat, fill: T)
      requires capacity > 0
      ensures Valid() && this.capacity == capacity && Contents() == [] && fresh(data)
    {
      this.capacity := capacity;
      data := new T[capacity](_ => fill);
      from := 0;
      size := 0;
    }

    /**
     * Queues `x` unless the queue is full; reports whether it was queued.
     * A full queue is left as it was.
     */
    method Add(x: T) returns (added: bool)
      requires Valid()
      modifies this, data
      ensures Valid() && from == old(from)
      ensures added <==> old(size) < capacity
      ensures added ==> Contents() == old(Contents()) + [x]
      ensures !added ==> Contents() == old(Contents()) && data[..] == old(data[..]) && size == old(size)
    {
      if size == capacity {
        return false;
      }
      var index := (from + size) % capacity;
      ghost var before := Contents();
      data[index] := x;
      size := size + 1;
      forall k | 0 <= k < size - 1
        ensures Contents()[k] == before[k]
      {
        SlotsDistinct(k, size - 1);
      }
      added := true;
    }

    /** Takes the oldest entry, or reports an empty queue. */
    method Read() returns (x: Option<T>)
      requires Valid()
      modifies this
      ensures Valid()
      ensures x.None? <==> old(size) == 0
      ensures x.None? ==> Contents() == old(Contents()) && from == old(from)
      ensures x.Some? ==> x.value == old(Contents())[0] && Contents() == old(Contents())[1..]
      ensures from == if x.Some? then (old(from) + 1) % capacity else old(from)
    {
      if size == 0 {
        return None;
      }
      x := Some(data[from]);
      ghost var before := Contents();
      size := size - 1;
      from := (from + 1) % capacity;
      forall k | 0 <= k < size
        ensures Contents()[k] == before[k + 1]
      {
        Wrap(old(from) + 1, capacity);
        assert Slot(k) == old(Slot(k + 1));
      }
    }

    /** Two different queue positions never share an array slot. */
    lemma SlotsDistinct(i: int, j: int)
      requires Valid() && 0 <= i < j < capacity
      ensures Slot(i) != Slot(j)
    {
    }
  }

  /** The remainder of `x` below twice the modulus is one subtraction away. */
  lemma Wrap(x: int, m: int)
    requires m > 0 && 0 <= x < 2 * m
    ensures x % m == if x < m then x else x - m
  {
    if x >= m {
      assert x == 1 * m + (x - m);
    }
  }
}
