/**
 * The boot-time memory bookkeeping of src/kernel/memory/memory.c: the total
 * installed memory, set once by the boot code, and the bump allocator used
 * before paging exists. The allocator starts at the first page boundary at
 * or above 11 MiB, hands out whole pages, and can never free.
 *
 * The allocator's static `nextfree` is NULL until the first call; here it is
 * the field `nextfree`, with 0 standing for NULL. Pointer arithmetic on
 * `char *` is unsigned 32-bit and wraps.
 */
module Memory {
  import opened Common
  import opened PageArith

  /** TODO_FREE_MEMORY_START: the first byte after the kernel image, fixed at 11 MiB. */
  const FREE_MEMORY_START: int := 11 * 1024 * 1024
  /** TODO_DETECTED_MEMORY: the hard-coded installed memory, 64 MiB. */
  const DETECTED_MEMORY: int := 64 * 1024 * 1024

  /** Whole pages requested by `boot_alloc(bytes)`: `ROUNDUP(bytes, PGSIZE) / PGSIZE`. */
  function Blocks(bytes: u32): (b: nat)
    ensures b < 0x10_0000
    ensures bytes <= U32_LIMIT - PGSIZE ==> bytes <= b * PGSIZE < bytes + PGSIZE
    ensures bytes > U32_LIMIT - PGSIZE ==> b == 0
  {
    if bytes <= U32_LIMIT - PGSIZE then
      RoundUpProperties(bytes, PGSIZE);
      RoundUp(bytes, PGSIZE) / PGSIZE
    else
      RoundUp(bytes, PGSIZE) / PGSIZE
  }

  /** The address the allocator will hand out next, once initialised. */
  function Watermark(nextfree: u32): u32
  {
    if nextfree == 0 then RoundUp(FREE_MEMORY_START, PGSIZE) else nextfree
  }

  /** The watermark after `boot_alloc(bytes)` from `start`, in 32-bit pointer arithmetic. */
  function Advance(start: u32, bytes: u32): (next: u32)
    ensures start % PGSIZE == 0 ==> next % PGSIZE == 0
  {
    if start % PGSIZE == 0 then
      WrapAligned(start, Blocks(bytes));
      Wrap32(start + Blocks(bytes) * PGSIZE)
    else
      Wrap32(start + Blocks(bytes) * PGSIZE)
  }

  /** The first watermark is 11 MiB, already a page boundary. */
  lemma FirstWatermark()
    ensures Watermark(0) == FREE_MEMORY_START && FREE_MEMORY_START % PGSIZE == 0
  {
    RoundUpProperties(FREE_MEMORY_START, PGSIZE);
  }

  /**
   * Without 32-bit wrap-around, the region `[start, start + bytes)` handed out
   * ends at or below the next watermark, so two successive regions are
   * disjoint and increasing, and a zero-byte request does not move the
   * watermark.
   */
  lemma AdvanceCovers(start: u32, bytes: u32)
    requires start + bytes + PGSIZE <= U32_LIMIT
    ensures start + bytes <= Advance(start, bytes) < start + bytes + PGSIZE
    ensures bytes == 0 <==> Advance(start, bytes) == start
  {
    assert bytes <= U32_LIMIT - PGSIZE;
    if bytes == 0 {
      assert RoundUp(0, PGSIZE) == 0;
    }
  }

  /** A request above 4 GiB - 4 KiB rounds up to 0 pages and returns the watermark unchanged. */
  lemma HugeRequestWraps(start: u32, bytes: u32)
    requires bytes > U32_LIMIT - PGSIZE
    ensures Advance(start, bytes) == start
  {
  }

  /** multiboot_read_memory: `1024 * (mem_lower + mem_upper)` in unsigned 32-bit arithmetic. */
  function MultibootReadMemory(memLower: u32, memUpper: u32): (r: u32)
    ensures r % 1024 == 0
    ensures memLower + memUpper < 0x40_0000 ==> r == 1024 * (memLower + memUpper)
  {
    var q := Wrap32(memLower + memUpper) % 0x40_0000;
    ReadMemoryWraps(memLower + memUpper);
    Arith.MultipleMod(q, 1024);
    Wrap32(1024 * Wrap32(memLower + memUpper))
  }

  /** Multiplying a wrapped sum by 1024 keeps only its low 22 bits. */
  lemma ReadMemoryWraps(x: nat)
    ensures Wrap32(1024 * Wrap32(x)) == 1024 * (Wrap32(x) % 0x40_0000)
  {
    var w: int := Wrap32(x);
    var q := w / 0x40_0000;
    var r := w % 0x40_0000;
    assert 1024 * w == q * U32_LIMIT + 1024 * r;
    Arith.DivModUnique(1024 * w, U32_LIMIT, q, 1024 * r);
  }

  class BootMemory {
    /** `base_memory`: the installed memory in bytes, 0 until set. */
    var baseMemory: u32
    /** The allocator's static `nextfree`; 0 is the NULL of the first call. */
    var nextfree: u32

    ghost predicate Valid()
      reads this
    {
      nextfree % PGSIZE == 0
    }

    /** Both statics start out zero. */
    constructor ()
      ensures Valid() && baseMemory == 0 && nextfree == 0
    {
      baseMemory := 0;
      nextfree := 0;
    }

    /** memory_set_total: later `memory_get_total` calls return `memory`. */
    method SetTotal(memory: u32)
      modifies this
      ensures baseMemory == memory && nextfree == old(nextfree)
    {
      baseMemory := memory;
    }

    /**
     * boot_alloc: returns the watermark and advances it by whole pages. The
     * kassert demands that the new end, as a 32-bit pointer, lies within the
     * installed memory.
     */
    method BootAlloc(bytes: u32) returns (result: u32)
      requires Valid() && Advance(Watermark(nextfree), bytes) <= baseMemory
      modifies this
      ensures Valid() && baseMemory == old(baseMemory)
      ensures result == Watermark(old(nextfree)) && result % PGSIZE == 0
      ensures nextfree == Advance(result, bytes)
    {
      if nextfree == 0 {
        FirstWatermark();
        nextfree := RoundUp(FREE_MEMORY_START, PGSIZE);
      }
      var blocks := Blocks(bytes);
      result := nextfree;
      nextfree := Wrap32(nextfree + blocks * PGSIZE);
    }
  }
}
