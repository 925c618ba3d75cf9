/**
 * The frame table and page-directory code of the i386 kernel: a table of
 * `PageInfo` flags with a first-fit search for a run of free frames, and the
 * two-level walk that finds and fills page-table entries (32-bit paging,
 * section 4.3 of Intel SDM Vol. 3A).
 *
 * Physical memory is identity-mapped, so a directory or table pointer is a
 * physical address. It is modelled as an array of 2^30 32-bit words covering
 * the whole 4 GiB address space; the word at address `a` is `mem[a / 4]`.
 */
module Paging {
  import opened Common
  import opened PageArith
  import Arith

  const MEM_WORDS: int := 0x4000_0000

  datatype PageInfo = PageInfo(reserved: bool, available: bool)

  // ---------------------------------------------------------------------
  // Frame table specification

  /** Frames `i .. i+count-1` all exist and are available. */
  ghost predicate RunFree(s: seq<PageInfo>, i: nat, count: nat)
  {
    i + count <= |s| && forall k :: i <= k < i + count ==> s[k].available
  }

  /** The lowest `j >= i` that starts a free run of `count` frames. */
  ghost function FirstFitFrom(s: seq<PageInfo>, count: nat, i: nat): Option<nat>
    decreases |s| + 1 - i
  {
    if i + count > |s| then None
    else if RunFree(s, i, count) then Some(i)
    else FirstFitFrom(s, count, i + 1)
  }

  ghost function FirstFit(s: seq<PageInfo>, count: nat): Option<nat>
  {
    FirstFitFrom(s, count, 0)
  }

  /** The frames of a run marked as no longer available. */
  ghost function MarkRun(s: seq<PageInfo>, i: nat, count: nat): (r: seq<PageInfo>)
    ensures |r| == |s|
  {
    seq(|s|, j requires 0 <= j < |s| =>
      if i <= j < i + count then s[j].(available := false) else s[j])
  }

  ghost function CountAvailable(s: seq<PageInfo>): (n: nat)
    ensures n <= |s|
  {
    if s == [] then 0
    else CountAvailable(s[..|s| - 1]) + (if s[|s| - 1].available then 1 else 0)
  }

  lemma {:induction false} FirstFitFromSound(s: seq<PageInfo>, count: nat, i: nat)
    ensures FirstFitFrom(s, count, i).Some? ==>
      var j := FirstFitFrom(s, count, i).value;
      i <= j && RunFree(s, j, count) && forall l :: i <= l < j ==> !RunFree(s, l, count)
    ensures FirstFitFrom(s, count, i).None? ==> forall l :: i <= l ==> !RunFree(s, l, count)
    decreases |s| + 1 - i
  {
    if i + count > |s| {
    } else if RunFree(s, i, count) {
    } else {
      FirstFitFromSound(s, count, i + 1);
    }
  }

  /**
   * page_alloc's search result: when it finds a run it is the lowest free run
   * of `count` frames; when it finds none there is no free run at all.
   */
  lemma FirstFitSound(s: seq<PageInfo>, count: nat)
    ensures FirstFit(s, count).Some? ==>
      var i := FirstFit(s, count).value;
      RunFree(s, i, count) && forall j :: 0 <= j < i ==> !RunFree(s, j, count)
    ensures FirstFit(s, count).None? <==> forall j :: !RunFree(s, j, count)
  {
    FirstFitFromSound(s, count, 0);
  }

  /** Two allocations with no page_free in between hand out disjoint runs. */
  lemma AllocationsDisjoint(s: seq<PageInfo>, c1: nat, c2: nat)
    requires c1 >= 1 && c2 >= 1 && FirstFit(s, c1).Some?
    requires FirstFit(MarkRun(s, FirstFit(s, c1).value, c1), c2).Some?
    ensures
      var i1 := FirstFit(s, c1).value;
      var i2 := FirstFit(MarkRun(s, i1, c1), c2).value;
      i1 + c1 <= i2 || i2 + c2 <= i1
  {
    var i1 := FirstFit(s, c1).value;
    var s' := MarkRun(s, i1, c1);
    FirstFitSound(s, c1);
    FirstFitSound(s', c2);
    var i2 := FirstFit(s', c2).value;
    assert !s'[i1].available;
    assert s'[i2].available;
  }

  lemma {:induction false} CountAvailablePositive(s: seq<PageInfo>)
    requires CountAvailable(s) > 0
    ensures FirstFit(s, 1).Some?
  {
    FirstFitSound(s, 1);
    var i :| 0 <= i < |s| && s[i].available by {
      CountAvailableWitness(s);
    }
    assert RunFree(s, i, 1);
  }

  lemma {:induction false} CountAvailableWitness(s: seq<PageInfo>)
    requires CountAvailable(s) > 0
    ensures exists i :: 0 <= i < |s| && s[i].available
  {
    if !s[|s| - 1].available {
      CountAvailableWitness(s[..|s| - 1]);
      var i :| 0 <= i < |s| - 1 && s[..|s| - 1][i].available;
      assert s[i].available;
    }
  }

  /** Marking one available frame removes exactly one from the available count. */
  lemma {:induction false} CountAfterMarkOne(s: seq<PageInfo>, i: nat)
    requires i < |s| && s[i].available
    ensures CountAvailable(MarkRun(s, i, 1)) == CountAvailable(s) - 1
    decreases |s|
  {
    var t := MarkRun(s, i, 1);
    var n := |s| - 1;
    if i < n {
      assert t[..n] == MarkRun(s[..n], i, 1);
      CountAfterMarkOne(s[..n], i);
    } else {
      assert t[..n] == s[..n];
    }
  }

  // ---------------------------------------------------------------------
  // Two-level walk over physical memory

  /** A page-aligned address is four times its word index, and its 1024 words fit in memory. */
  lemma FrameWords(a: u32)
    requires a % PGSIZE == 0
    ensures a == 4 * (a / 4) && a / 4 + PGTABLE_ENTRIES <= MEM_WORDS
  {
    var q := a / PGSIZE;
    assert a == q * PGSIZE;
    Arith.DivModUnique(a, 4, q * 1024, 0);
  }

  /**
   * pgdir_addr2entry: the word index of the page-table entry for `va`, or
   * None when the directory entry is not present or names frame 0.
   */
  function Addr2Entry(mem: seq<u32>, pgdir: u32, va: u32): (r: Option<nat>)
    requires |mem| == MEM_WORDS && pgdir % PGSIZE == 0
    ensures r.None? <==> mem[pgdir / 4 + Pdx(va)] % 2 == 0 || PteAddr(mem[pgdir / 4 + Pdx(va)]) == 0
    ensures r.Some? ==> r.value < MEM_WORDS && 4 * r.value == PteAddr(mem[pgdir / 4 + Pdx(va)]) + 4 * Ptx(va)
  {
    var e := mem[pgdir / 4 + Pdx(va)];
    FrameWords(PteAddr(e));
    if e % 2 == 0 || PteAddr(e) == 0 then None
    else Some(PteAddr(e) / 4 + Ptx(va))
  }

  /**
   * The physical address the processor reaches for `va` through this
   * directory (both levels present), as the walk of section 4.3 reads it.
   */
  function Lookup(mem: seq<u32>, pgdir: u32, va: u32): Option<u32>
    requires |mem| == MEM_WORDS && pgdir % PGSIZE == 0
  {
    match Addr2Entry(mem, pgdir, va)
    case None => None
    case Some(w) => if mem[w] % 2 == 0 then None else Some(PteAddr(mem[w]) + PgOff(va))
  }

  /** The walk only reads the 1024 directory words. */
  lemma Addr2EntryFrame(m1: seq<u32>, m2: seq<u32>, pgdir: u32, va: u32)
    requires |m1| == MEM_WORDS && |m2| == MEM_WORDS && pgdir % PGSIZE == 0
    requires m1[pgdir / 4 + Pdx(va)] == m2[pgdir / 4 + Pdx(va)]
    ensures Addr2Entry(m1, pgdir, va) == Addr2Entry(m2, pgdir, va)
  {
  }

  /** Number of iterations of `for (i = 0; i < size; i += PGSIZE)`. */
  function Pages(size: nat): nat
  {
    (size + PGSIZE - 1) / PGSIZE
  }

  /** The linear address of the k-th page of a mapping that starts at `va`. */
  function PageVa(va: u32, k: nat): u32
  {
    Wrap32(va + k * PGSIZE)
  }

  /** The entries the walk finds for the first `n` pages of a mapping at `va`. */
  ghost function EntryList(mem: seq<u32>, pgdir: u32, va: u32, n: nat): (e: seq<Option<nat>>)
    requires |mem| == MEM_WORDS && pgdir % PGSIZE == 0
    ensures |e| == n
  {
    seq(n, k requires 0 <= k < n => Addr2Entry(mem, pgdir, PageVa(va, k)))
  }

  /** Every entry exists, inside memory. */
  ghost predicate Present(e: seq<Option<nat>>)
  {
    forall k :: 0 <= k < |e| ==> e[k].Some? && e[k].value < MEM_WORDS
  }

  /** Every entry exists and none lies inside the directory that the walk reads. */
  ghost predicate Usable(e: seq<Option<nat>>, pgdir: u32)
  {
    Present(e) && forall k :: 0 <= k < |e| ==> !(pgdir / 4 <= e[k].value < pgdir / 4 + PGDIR_ENTRIES)
  }

  /** No two pages share an entry. */
  ghost predicate Distinct(e: seq<Option<nat>>)
  {
    forall k1, k2 :: 0 <= k1 < k2 < |e| ==> e[k1] != e[k2]
  }

  /** The entry value `(pa + i) | permissions` for the k-th page; the bits are disjoint. */
  function MapValue(pa: u32, perms: nat, k: nat): u32
    requires pa % PGSIZE == 0 && perms < PGSIZE
  {
    WrapAligned(pa, k);
    Wrap32(pa + k * PGSIZE) + perms
  }

  /** Memory after writing the values of pages `0 .. n-1` to their entries, in order. */
  ghost function WriteEntries(mem: seq<u32>, e: seq<Option<nat>>, pa: u32, perms: nat, n: nat): (r: seq<u32>)
    requires |mem| == MEM_WORDS && Present(e) && n <= |e|
    requires pa % PGSIZE == 0 && perms < PGSIZE
    ensures |r| == MEM_WORDS
  {
    if n == 0 then mem
    else WriteEntries(mem, e, pa, perms, n - 1)[e[n - 1].value := MapValue(pa, perms, n - 1)]
  }

  /** Memory after the first `n` iterations of pgdir_map's loop. */
  ghost function MapWrites(mem: seq<u32>, pgdir: u32, va: u32, pa: u32, perms: nat, n: nat): (r: seq<u32>)
    requires |mem| == MEM_WORDS && pgdir % PGSIZE == 0
    requires pa % PGSIZE == 0 && perms < PGSIZE
    requires Usable(EntryList(mem, pgdir, va, n), pgdir)
    ensures |r| == MEM_WORDS
  {
    WriteEntries(mem, EntryList(mem, pgdir, va, n), pa, perms, n)
  }

  /** A word that is the entry of none of the first `n` pages keeps its value. */
  lemma {:induction false} WriteEntriesOther(mem: seq<u32>, e: seq<Option<nat>>, pa: u32, perms: nat, n: nat, w: int)
    requires |mem| == MEM_WORDS && Present(e) && n <= |e|
    requires pa % PGSIZE == 0 && perms < PGSIZE
    requires 0 <= w < MEM_WORDS && forall k :: 0 <= k < n ==> e[k] != Some(w)
    ensures WriteEntries(mem, e, pa, perms, n)[w] == mem[w]
  {
    if n > 0 {
      assert e[n - 1] != Some(w);
      WriteEntriesOther(mem, e, pa, perms, n - 1, w);
    }
  }

  /** With distinct entries, the k-th entry ends up holding the k-th value. */
  lemma {:induction false} WriteEntriesAt(mem: seq<u32>, e: seq<Option<nat>>, pa: u32, perms: nat, n: nat, k: nat)
    requires |mem| == MEM_WORDS && Present(e) && Distinct(e) && n <= |e|
    requires pa % PGSIZE == 0 && perms < PGSIZE && k < n
    ensures WriteEntries(mem, e, pa, perms, n)[e[k].value] == MapValue(pa, perms, k)
  {
    if k < n - 1 {
      assert e[k] != e[n - 1];
      WriteEntriesAt(mem, e, pa, perms, n - 1, k);
    }
  }

  /** No entry written lies in the directory, so the walk is unaffected by the writes. */
  lemma WriteEntriesKeepsDirectory(mem: seq<u32>, e: seq<Option<nat>>, pgdir: u32, pa: u32, perms: nat, n: nat, x: u32)
    requires |mem| == MEM_WORDS && pgdir % PGSIZE == 0 && Usable(e, pgdir) && n <= |e|
    requires pa % PGSIZE == 0 && perms < PGSIZE
    ensures Addr2Entry(WriteEntries(mem, e, pa, perms, n), pgdir, x) == Addr2Entry(mem, pgdir, x)
  {
    var d := pgdir / 4 + Pdx(x);
    WriteEntriesOther(mem, e, pa, perms, n, d);
    Addr2EntryFrame(WriteEntries(mem, e, pa, perms, n), mem, pgdir, x);
  }

  /** The walk only reads the 1024 directory words, and the loop never writes one. */
  lemma MapKeepsDirectory(mem: seq<u32>, pgdir: u32, va: u32, pa: u32, perms: nat, n: nat, x: u32)
    requires |mem| == MEM_WORDS && pgdir % PGSIZE == 0
    requires pa % PGSIZE == 0 && perms < PGSIZE
    requires Usable(EntryList(mem, pgdir, va, n), pgdir)
    ensures Addr2Entry(MapWrites(mem, pgdir, va, pa, perms, n), pgdir, x) == Addr2Entry(mem, pgdir, x)
  {
    WriteEntriesKeepsDirectory(mem, EntryList(mem, pgdir, va, n), pgdir, pa, perms, n, x);
  }

  /** Adding an in-page offset to a page-aligned address leaves PDX and PTX alone. */
  lemma OffsetInPage(base: u32, off: nat)
    requires base % PGSIZE == 0 && base <= U32_LIMIT - PGSIZE && off < PGSIZE
    ensures base + off < U32_LIMIT
    ensures Pdx(base + off) == Pdx(base) && Ptx(base + off) == Ptx(base) && PgOff(base + off) == off
  {
    Arith.DivModUnique(base + off, PGSIZE, base / PGSIZE, off);
  }

  /**
   * After the mapping, a present permission makes every byte `off` of the
   * k-th page of `va` translate to byte `off` of the k-th frame of `pa`.
   */
  lemma MapTranslates(mem: seq<u32>, pgdir: u32, va: u32, pa: u32, perms: nat, n: nat, k: nat, off: nat)
    requires |mem| == MEM_WORDS && pgdir % PGSIZE == 0
    requires pa % PGSIZE == 0 && va % PGSIZE == 0 && perms < PGSIZE && perms % 2 == 1
    requires Usable(EntryList(mem, pgdir, va, n), pgdir) && Distinct(EntryList(mem, pgdir, va, n))
    requires k < n && off < PGSIZE
    ensures PageVa(va, k) + off < U32_LIMIT
    ensures Lookup(MapWrites(mem, pgdir, va, pa, perms, n), pgdir, PageVa(va, k) + off)
         == Some(Wrap32(pa + k * PGSIZE) + off)
  {
    var m' := MapWrites(mem, pgdir, va, pa, perms, n);
    var el := EntryList(mem, pgdir, va, n);
    var base := PageVa(va, k);
    WrapAligned(va, k);
    OffsetInPage(base, off);
    var v := base + off;
    var e := el[k].value;
    assert Addr2Entry(mem, pgdir, v) == Some(e);
    MapKeepsDirectory(mem, pgdir, va, pa, perms, n, v);
    WriteEntriesAt(mem, el, pa, perms, n, k);
    var a := Wrap32(pa + k * PGSIZE);
    WrapAligned(pa, k);
    PteAddrOfEntry(a, perms);
    assert m'[e] == a + perms;
    assert Lookup(m', pgdir, v) == Some(PteAddr(m'[e]) + PgOff(v));
  }

  /** Every word outside the entries of the mapped pages keeps its value. */
  lemma MapLeavesOthers(mem: seq<u32>, pgdir: u32, va: u32, pa: u32, perms: nat, n: nat, w: nat)
    requires |mem| == MEM_WORDS && pgdir % PGSIZE == 0
    requires pa % PGSIZE == 0 && perms < PGSIZE
    requires Usable(EntryList(mem, pgdir, va, n), pgdir) && w < MEM_WORDS
    requires forall k :: 0 <= k < n ==> Addr2Entry(mem, pgdir, PageVa(va, k)) != Some(w)
    ensures MapWrites(mem, pgdir, va, pa, perms, n)[w] == mem[w]
  {
    var el := EntryList(mem, pgdir, va, n);
    forall k | 0 <= k < n
      ensures el[k] != Some(w)
    {
      assert el[k] == Addr2Entry(mem, pgdir, PageVa(va, k));
    }
    WriteEntriesOther(mem, el, pa, perms, n, w);
  }

  // ---------------------------------------------------------------------
  // The kernel's frame table and directory

  class PhysicalPages {
    /** `pages`, one entry per frame; `npages` is its length. */
    var pages: array<PageInfo>
    /** Physical memory, word-addressed. */
    var mem: array<u32>
    /** `kern_pgdir`, the physical address of the kernel directory. */
    var kernPgdir: u32

    ghost predicate Valid()
      reads this
    {
      pages.Length <= 0x10_0000 && mem.Length == MEM_WORDS && kernPgdir % PGSIZE == 0
    }

    constructor (npages: nat, kernPgdir: u32)
      requires npages <= 0x10_0000 && kernPgdir % PGSIZE == 0
      ensures Valid() && fresh(pages) && fresh(mem)
      ensures pages.Length == npages && this.kernPgdir == kernPgdir
    {
      pages := new PageInfo[npages](_ => PageInfo(false, false));
      mem := new u32[MEM_WORDS](_ => 0);
      this.kernPgdir := kernPgdir;
    }

    /**
     * multiboot_detect_available_pages: frames below the boot-allocator
     * watermark are reserved, all others available. The watermark is cast
     * to `int` and divided with C's truncating division; a negative quotient
     * converted back to `unsigned` skips the second loop.
     */
    method DetectAvailablePages(watermark: u32)
      requires Valid() && CDiv(ToI32(watermark), PGSIZE) <= pages.Length
      modifies pages
      ensures var reserved := CDiv(ToI32(watermark), PGSIZE);
        forall i :: 0 <= i < pages.Length ==>
          pages[i] == (if reserved < 0 then old(pages[i])
                       else if i < reserved then PageInfo(true, false)
                       else PageInfo(false, true))
    {
      var reserved := CDiv(ToI32(watermark), PGSIZE);
      var i := 0;
      while i < reserved
        invariant 0 <= i <= Max(reserved, 0)
        invariant forall j :: 0 <= j < i ==> pages[j] == PageInfo(true, false)
        invariant forall j :: i <= j < pages.Length ==> pages[j] == old(pages[j])
      {
        pages[i] := PageInfo(true, false);
        i := i + 1;
      }
      var u: int := if reserved < 0 then Wrap32(reserved) else reserved;
      while u < pages.Length
        invariant reserved >= 0 ==> reserved <= u <= pages.Length
        invariant reserved < 0 ==> u >= pages.Length
        invariant forall j :: 0 <= j < pages.Length ==>
          pages[j] == (if reserved < 0 then old(pages[j])
                       else if j < reserved then PageInfo(true, false)
                       else if j < u then PageInfo(false, true)
                       else old(pages[j]))
      {
        pages[u] := PageInfo(false, true);
        u := u + 1;
      }
    }

    /**
     * page_alloc(count): the first run of `count` available frames, marked
     * unavailable, or None with nothing changed. The loop bound is
     * `(int)(npages - (count - 1))` in uint32 arithmetic; for `count == 0`
     * this returns frame 0 and marks nothing.
     */
    method PageAlloc(count: u32) returns (r: Option<nat>)
      requires Valid() && count <= pages.Length + 0x8000_0001
      modifies pages
      ensures r == FirstFit(old(pages[..]), count)
      ensures pages[..] == if r.Some? then MarkRun(old(pages[..]), r.value, count) else old(pages[..])
    {
      ghost var s := pages[..];
      var bound := ToI32(Wrap32(pages.Length - Wrap32(count - 1)));
      assert bound >= 0 ==> bound == pages.Length - count + 1;
      var i := 0;
      while i < bound
        invariant 0 <= i && (bound >= 0 ==> i <= bound)
        invariant pages[..] == s
        invariant FirstFit(s, count) == FirstFitFrom(s, count, i)
      {
        var k := 0;
        while k < count && pages[i + k].available
          invariant 0 <= k <= count
          invariant forall l :: i <= l < i + k ==> s[l].available
        {
          k := k + 1;
        }
        var valid := k == count;
        assert !valid ==> !s[i + k].available;
        if valid {
          k := 0;
          while k < count
            invariant 0 <= k <= count
            invariant forall l :: 0 <= l < pages.Length ==>
              pages[l] == if i <= l < i + k then s[l].(available := false) else s[l]
          {
            pages[i + k] := pages[i + k].(available := false);
            k := k + 1;
          }
          assert pages[..] == MarkRun(s, i, count);
          return Some(i);
        }
        i := i + 1;
      }
      return None;
    }

    /** page_free: panics on a reserved frame, else marks just that frame available. */
    method PageFree(index: nat)
      requires Valid() && index < pages.Length && !pages[index].reserved
      modifies pages
      ensures pages[..] == old(pages[..])[index := old(pages[index]).(available := true)]
    {
      pages[index] := pages[index].(available := true);
    }

    /** page2addr: the physical address of a frame. */
    function Page2Addr(index: nat): (pa: u32)
      reads this
      requires Valid() && index < pages.Length
      ensures PaToPageIndex(pa) == index
    {
      PageIndexRoundTrip(index);
      PageIndexToPa(index)
    }

    /** paging_kernel_pgdir: NULL exactly when entry 0 of the kernel directory is 0. */
    function KernelPgdir(): (r: Option<u32>)
      reads this, mem
      requires Valid()
      ensures r.None? <==> mem[kernPgdir / 4] == 0
      ensures r.Some? ==> r.value == kernPgdir
    {
      if mem[kernPgdir / 4] == 0 then None else Some(kernPgdir)
    }

    /**
     * pgdir_create: takes one frame for the new directory, copies the kernel
     * directory's entries below `kernelPageEnd` (KERNEL_END / PGSIZE) and
     * zeroes the others, taking and leaking one frame for each of those.
     * Every `page_alloc(1)` is asserted non-NULL, so enough available frames
     * are required.
     */
    method PgdirCreate(kernelPageEnd: nat) returns (pgdir: u32)
      requires Valid() && kernelPageEnd <= PGDIR_ENTRIES
      requires CountAvailable(pages[..]) >= 1 + PGDIR_ENTRIES - kernelPageEnd
      modifies pages, mem
      ensures pgdir % PGSIZE == 0
      ensures Some(PaToPageIndex(pgdir)) == FirstFit(old(pages[..]), 1)
      ensures forall w :: pgdir / 4 <= w < pgdir / 4 + PGDIR_ENTRIES ==>
        mem[w] == if w - pgdir / 4 < kernelPageEnd then old(mem[kernPgdir / 4 + (w - pgdir / 4)]) else 0
      ensures forall w :: 0 <= w < MEM_WORDS && !(pgdir / 4 <= w < pgdir / 4 + PGDIR_ENTRIES) ==> mem[w] == old(mem[w])
      ensures CountAvailable(pages[..]) == old(CountAvailable(pages[..])) - (1 + PGDIR_ENTRIES - kernelPageEnd)
      ensures forall f :: 0 <= f < pages.Length ==>
        pages[f].reserved == old(pages[f].reserved) && (pages[f].available ==> old(pages[f].available))
    {
      ghost var s0 := pages[..];
      CountAvailablePositive(s0);
      var first := PageAlloc(1);
      FirstFitSound(s0, 1);
      CountAfterMarkOne(s0, first.value);
      var index := first.value;
      PageIndexRoundTrip(index);
      pgdir := PageIndexToPa(index);
      CopyKernelEntries(pgdir, kernelPageEnd);
      ZeroAndLeak(pgdir, kernelPageEnd);
    }

    /** The first loop of pgdir_create: entries below `n` copied from the kernel directory. */
    method CopyKernelEntries(pgdir: u32, n: nat)
      requires Valid() && pgdir % PGSIZE == 0 && n <= PGDIR_ENTRIES
      modifies mem
      ensures forall w :: pgdir / 4 <= w < pgdir / 4 + PGDIR_ENTRIES ==>
        mem[w] == if w - pgdir / 4 < n then old(mem[kernPgdir / 4 + (w - pgdir / 4)]) else old(mem[w])
      ensures forall w :: 0 <= w < MEM_WORDS && !(pgdir / 4 <= w < pgdir / 4 + PGDIR_ENTRIES) ==> mem[w] == old(mem[w])
    {
      var base := pgdir / 4;
      var kbase := kernPgdir / 4;
      DirectoryBlocks(pgdir, kernPgdir);
      ghost var kern := mem[kbase..kbase + PGDIR_ENTRIES];
      var i := 0;
      while i < n
        invariant 0 <= i <= n
        invariant forall w :: base <= w < base + PGDIR_ENTRIES ==>
          mem[w] == if w - base < i then kern[w - base] else old(mem[w])
        invariant forall w :: 0 <= w < MEM_WORDS && !(base <= w < base + PGDIR_ENTRIES) ==> mem[w] == old(mem[w])
      {
        assert mem[kbase + i] == kern[i];
        mem[base + i] := mem[kbase + i];
        i := i + 1;
      }
    }

    /** The second loop of pgdir_create: entries from `n` on zeroed, one frame taken for each. */
    method ZeroAndLeak(pgdir: u32, n: nat)
      requires Valid() && pgdir % PGSIZE == 0 && n <= PGDIR_ENTRIES
      requires CountAvailable(pages[..]) >= PGDIR_ENTRIES - n
      modifies pages, mem
      ensures forall w :: pgdir / 4 <= w < pgdir / 4 + PGDIR_ENTRIES ==>
        mem[w] == if w - pgdir / 4 < n then old(mem[w]) else 0
      ensures forall w :: 0 <= w < MEM_WORDS && !(pgdir / 4 <= w < pgdir / 4 + PGDIR_ENTRIES) ==> mem[w] == old(mem[w])
      ensures CountAvailable(pages[..]) == old(CountAvailable(pages[..])) - (PGDIR_ENTRIES - n)
      ensures forall f :: 0 <= f < pages.Length ==>
        pages[f].reserved == old(pages[f].reserved) && (pages[f].available ==> old(pages[f].available))
    {
      ghost var s0 := pages[..];
      var base := pgdir / 4;
      DirectoryBlocks(pgdir, pgdir);
      var i := n;
      while i < PGDIR_ENTRIES
        invariant n <= i <= PGDIR_ENTRIES
        invariant Valid() && pages.Length == |s0|
        invariant CountAvailable(pages[..]) == CountAvailable(s0) - (i - n)
        invariant forall f :: 0 <= f < pages.Length ==>
          pages[f].reserved == s0[f].reserved && (pages[f].available ==> s0[f].available)
        invariant forall w :: base <= w < base + PGDIR_ENTRIES ==>
          mem[w] == if w - base < n || w - base >= i then old(mem[w]) else 0
        invariant forall w :: 0 <= w < MEM_WORDS && !(base <= w < base + PGDIR_ENTRIES) ==> mem[w] == old(mem[w])
      {
        ghost var before := pages[..];
        CountAvailablePositive(before);
        var leaked := PageAlloc(1);
        FirstFitSound(before, 1);
        CountAfterMarkOne(before, leaked.value);
        mem[base + i] := 0;
        i := i + 1;
      }
    }
  }

  /** Two page-aligned directories either coincide or do not overlap, and both fit in memory. */
  lemma DirectoryBlocks(a: u32, b: u32)
    requires a % PGSIZE == 0 && b % PGSIZE == 0
    ensures a / 4 + PGDIR_ENTRIES <= MEM_WORDS
    ensures a == b || a / 4 + PGDIR_ENTRIES <= b / 4 || b / 4 + PGDIR_ENTRIES <= a / 4
  {
    var qa := a / PGSIZE;
    var qb := b / PGSIZE;
    assert a / 4 == qa * PGDIR_ENTRIES;
    assert b / 4 == qb * PGDIR_ENTRIES;
    assert qa < 0x10_0000;
    if qa < qb {
      assert (qa + 1) * PGDIR_ENTRIES <= qb * PGDIR_ENTRIES;
    } else if qb < qa {
      assert (qb + 1) * PGDIR_ENTRIES <= qa * PGDIR_ENTRIES;
    }
  }

  /**
   * pgdir_map: asserts that `pa` and `va` are page-aligned and `permissions`
   * fits in 12 bits, then for every `i < size` in steps of PGSIZE writes
   * `(pa + i) | permissions` to the entry that the walk finds for `va + i`.
   * The entry pointer is not checked, so the tables must exist; `size` below
   * 2^32 - PGSIZE keeps the unsigned counter from wrapping.
   */
  method PgdirMap(mem: array<u32>, pgdir: u32, va: u32, size: u32, pa: u32, perms: nat)
    requires mem.Length == MEM_WORDS && pgdir % PGSIZE == 0
    requires pa % PGSIZE == 0 && va % PGSIZE == 0 && perms < PGSIZE
    requires size <= U32_LIMIT - PGSIZE
    requires Usable(EntryList(mem[..], pgdir, va, Pages(size)), pgdir)
    modifies mem
    ensures mem[..] == MapWrites(old(mem[..]), pgdir, va, pa, perms, Pages(size))
  {
    ghost var m0 := mem[..];
    ghost var n := Pages(size);
    ghost var el := EntryList(m0, pgdir, va, n);
    var i := 0;
    ghost var k := 0;
    while i < size
      invariant i == k * PGSIZE && 0 <= k <= n
      invariant mem[..] == WriteEntries(m0, el, pa, perms, k)
    {
      PagesCount(size, k);
      WriteEntriesKeepsDirectory(m0, el, pgdir, pa, perms, k, Wrap32(va + i));
      assert el[k] == Addr2Entry(m0, pgdir, Wrap32(va + i));
      var entry := Addr2Entry(mem[..], pgdir, Wrap32(va + i));
      Arith.MultipleMod(k, PGSIZE);
      mem[entry.value] := MapValue(pa, perms, i / PGSIZE);
      i := i + PGSIZE;
      k := k + 1;
    }
    PagesCount(size, k);
  }

  /** The loop runs its k-th iteration exactly when `k < Pages(size)`. */
  lemma PagesCount(size: nat, k: nat)
    ensures k * PGSIZE < size <==> k < Pages(size)
  {
    var p := Pages(size);
    var r := (size + PGSIZE - 1) % PGSIZE;
    assert size + PGSIZE - 1 == p * PGSIZE + r;
    if k < p {
      assert (k + 1) * PGSIZE <= p * PGSIZE;
    } else {
      assert p * PGSIZE <= k * PGSIZE;
    }
  }
}
