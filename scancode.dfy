/**
 * The older kernel's global scancode queue: a 512-entry ring of scancode
 * bytes whose add and read report a full or empty queue with a negative
 * error code and otherwise return 0.
 */
module ScancodeQueue {
  import opened Common
  import opened RingBuffer

  const SCANCODEQ_SIZE: nat := 512
  const E_SCANCODEQ_FULL: int := 1
  const E_SCANCODEQ_EMPTY: int := 2

  /** The queue as the kernel declares it: zeroed, 512 slots. */
  predicate IsScancodeQueue(q: Ring<u8>)
  {
    q.capacity == SCANCODEQ_SIZE
  }

  /** `ScancodeQueue_empty`. */
  function Empty(q: Ring<u8>): (r: bool)
    reads q, q.data
    requires q.Valid()
    ensures r <==> q.Contents() == []
  {
    q.size == 0
  }

  /** `ScancodeQueue_full`. */
  function Full(q: Ring<u8>): (r: bool)
    reads q
    requires q.Valid() && IsScancodeQueue(q)
    ensures r <==> q.size == SCANCODEQ_SIZE
    ensures r ==> !Empty(q)
  {
    q.size == SCANCODEQ_SIZE
  }

  /** `ScancodeQueue_add`: 0 once queued at the back, `-E_SCANCODEQ_FULL` with nothing changed. */
  method Add(q: Ring<u8>, scancode: u8) returns (r: int)
    requires q.Valid() && IsScancodeQueue(q)
    modifies q, q.data
    ensures q.Valid()
    ensures r == 0 || r == -E_SCANCODEQ_FULL
    ensures r == -E_SCANCODEQ_FULL <==> old(Full(q))
    ensures r == 0 ==> q.Contents() == old(q.Contents()) + [scancode]
    ensures r != 0 ==> q.Contents() == old(q.Contents())
  {
    var added := q.Add(scancode);
    r := if added then 0 else -E_SCANCODEQ_FULL;
  }

  /** `ScancodeQueue_read`: 0 and the oldest scancode, or `-E_SCANCODEQ_EMPTY`. */
  method Read(q: Ring<u8>) returns (r: int, scancode: u8)
    requires q.Valid() && IsScancodeQueue(q)
    modifies q
    ensures q.Valid() && 0 <= q.from < SCANCODEQ_SIZE
    ensures r == 0 || r == -E_SCANCODEQ_EMPTY
    ensures r == -E_SCANCODEQ_EMPTY <==> old(Empty(q))
    ensures r == 0 ==> scancode == old(q.Contents())[0] && q.Contents() == old(q.Contents())[1..]
    ensures r != 0 ==> q.Contents() == old(q.Contents())
  {
    var x := q.Read();
    if x.None? {
      return -E_SCANCODEQ_EMPTY, 0;
    }
    r, scancode := 0, x.value;
  }
}
