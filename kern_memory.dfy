/**
 * The older physical-memory manager of kern/arch/i686/memory.c. Frames are
 * kept on a LIFO free list threaded through the `nextfree` field of the
 * `PageInfo` records, reference counts are left to the callers, and page
 * directories are built with one freshly allocated table per entry.
 *
 * A `PageInfo *` is the index of the record in `pages`; the free list is
 * described by the ghost sequence `freeList`, head first, which `Valid()`
 * ties to the `nextfree` links. Physical memory is the same word array as
 * in the newer manager, and the page walk and `pgdir_map` are the ones of
 * `Paging` (the two files implement them identically).
 */
module KernMemory {
  import opened Common
  import opened PageArith
  import Paging
  import Memory

  /** TODO_FREE_MEMORY_START / PGSIZE: the frames below 11 MiB are reserved. */
  const RESERVED_PAGES: int := 11 * 1024 * 1024 / 4096
  /** ADDRESS_SPACE_SIZE: how much of the address space the kernel maps, 256 MiB. */
  const ADDRESS_SPACE_SIZE: int := 256 * 1024 * 1024

  /**
   * npages = get_total_memory() / PGSIZE for the hard-coded 64 MiB of
   * multiboot_get_memory: 16384 frames, of which the first 2816 (11 MiB) are
   * reserved.
   */
  lemma FrameCount()
    ensures Memory.DETECTED_MEMORY / PGSIZE == 16384
    ensures RESERVED_PAGES == 2816 && RESERVED_PAGES * PGSIZE == Memory.FREE_MEMORY_START
  {
  }

  datatype PageInfo = PageInfo(reserved: bool, references: int, nextfree: Option<nat>)

  /** The first element of a list, or NULL. */
  function Head(l: seq<nat>): (r: Option<nat>)
    ensures r.None? <==> |l| == 0
    ensures r.Some? ==> r.value == l[0]
  {
    if |l| == 0 then None else Some(l[0])
  }

  /** The free list `multiboot_detect_available_pages` builds: frames `n-1` down to `from`. */
  function Descending(from: nat, n: nat): (l: seq<nat>)
    ensures |l| == if n >= from then n - from else 0
  {
    if n > from then seq(n - from, k requires 0 <= k < n - from => n - 1 - k) else []
  }

  /** Every frame of `[from, n)` is on the built list exactly once, and nothing else is. */
  lemma DescendingExactlyOnce(from: nat, n: nat)
    requires from <= n
    ensures forall i :: i in Descending(from, n) <==> from <= i < n
    ensures forall k1, k2 :: 0 <= k1 < k2 < |Descending(from, n)| ==> Descending(from, n)[k1] != Descending(from, n)[k2]
  {
    var l := Descending(from, n);
    forall i | from <= i < n
      ensures i in l
    {
      assert l[n - 1 - i] == i;
    }
  }

  /** Everything on the list built up to `u` lies below `u`. */
  lemma DescendingBelow(from: nat, u: nat)
    requires from <= u
    ensures u !in Descending(from, u)
  {
  }

  /** Pushing `u` onto the list of `[from, u)` gives the list of `[from, u + 1)`. */
  lemma DescendingStep(from: nat, u: nat)
    requires from <= u
    ensures [u] + Descending(from, u) == Descending(from, u + 1)
  {
  }

  /**
   * `l` is the free list threaded from `head` through the `nextfree` links of
   * `ps`: distinct frames, each linking to the next and the last
   * to NULL.
   */
  ghost predicate FreeChain(ps: seq<PageInfo>, head: Option<nat>, l: seq<nat>)
  {
    && head == Head(l)
    && (forall k :: 0 <= k < |l| ==> l[k] < |ps|)
    && (forall k :: 0 <= k < |l| ==> Linked(ps, l, k))
    && (forall k1, k2 :: 0 <= k1 < k2 < |l| ==> l[k1] != l[k2])
  }

  /** The k-th frame of the list is a frame linking to the (k+1)-th. */
  ghost predicate Linked(ps: seq<PageInfo>, l: seq<nat>, k: nat)
    requires k < |l|
  {
    l[k] < |ps| && ps[l[k]].nextfree == Head(l[k + 1..])
  }

  /** page_alloc's pop: the head leaves the list and the rest is still a chain from its link. */
  lemma ChainPop(ps: seq<PageInfo>, l: seq<nat>)
    requires FreeChain(ps, Head(l), l) && |l| > 0
    ensures l[0] < |ps| && l[0] !in l[1..]
    ensures FreeChain(ps[l[0] := ps[l[0]].(references := 0, nextfree := None)], ps[l[0]].nextfree, l[1..])
  {
    var ps' := ps[l[0] := ps[l[0]].(references := 0, nextfree := None)];
    forall k | 0 <= k < |l| - 1
      ensures Linked(ps', l[1..], k)
    {
      assert Linked(ps, l, k + 1);
      assert l[0] != l[k + 1];
      assert l[1..][k + 1..] == l[k + 2..];
    }
    assert Linked(ps, l, 0);
  }

  /** page_free's push: a frame not on the list, linked to the old head, heads it. */
  lemma ChainPush(ps: seq<PageInfo>, l: seq<nat>, p: nat, info: PageInfo)
    requires FreeChain(ps, Head(l), l) && p < |ps| && p !in l
    requires info.nextfree == Head(l)
    ensures FreeChain(ps[p := info], Some(p), [p] + l)
  {
    var l' := [p] + l;
    var ps' := ps[p := info];
    forall k | 0 <= k < |l'|
      ensures Linked(ps', l', k)
    {
      if k > 0 {
        assert Linked(ps, l, k - 1);
        assert l'[k] == l[k - 1] && l'[k + 1..] == l[k..];
      }
    }
  }

  /** Changing a frame that is not on the list leaves the chain alone. */
  lemma ChainOther(ps: seq<PageInfo>, head: Option<nat>, l: seq<nat>, p: nat, info: PageInfo)
    requires FreeChain(ps, head, l) && p < |ps| && p !in l
    ensures FreeChain(ps[p := info], head, l)
  {
    var ps' := ps[p := info];
    forall k | 0 <= k < |l|
      ensures Linked(ps', l, k)
    {
      assert Linked(ps, l, k);
    }
  }

  /**
   * `after` is `before` with each frame of `frames` taken off the list and
   * counted once (`references` 1, `nextfree` NULL), every other record as it was.
   */
  ghost predicate CountedOnce(before: seq<PageInfo>, after: seq<PageInfo>, frames: seq<nat>)
  {
    && |after| == |before|
    && forall i :: 0 <= i < |before| ==>
         after[i] == if i in frames then before[i].(references := 1, nextfree := None) else before[i]
  }

  /** Counting one more frame, not yet counted, extends the set of counted frames by it. */
  lemma CountedOnceStep(before: seq<PageInfo>, after: seq<PageInfo>, frames: seq<nat>, f: nat)
    requires CountedOnce(before, after, frames) && f < |before| && f !in frames
    ensures CountedOnce(before, after[f := before[f].(references := 1, nextfree := None)], frames + [f])
  {
  }

  /** Counting `first` and then `second`, disjoint, counts their concatenation. */
  lemma CountedOnceThen(b0: seq<PageInfo>, b1: seq<PageInfo>, b2: seq<PageInfo>, first: seq<nat>, second: seq<nat>)
    requires CountedOnce(b0, b1, first) && CountedOnce(b1, b2, second)
    requires forall f :: f in first ==> f !in second
    ensures CountedOnce(b0, b2, first + second)
  {
  }

  class KernPages {
    /** `pages`, one record per frame; `npages` is its length. */
    var pages: array<PageInfo>
    /** `page_free_list`. */
    var freeHead: Option<nat>
    /** The frames on the free list, head first. */
    ghost var freeList: seq<nat>
    /** Physical memory, word-addressed. */
    var mem: array<u32>

    /**
     * The free list is the chain of `nextfree` links from `freeHead`; it holds
     * distinct frames.
     */
    ghost predicate Valid()
      reads this, pages
    {
      pages.Length <= 0x10_0000 && mem.Length == Paging.MEM_WORDS && FreeChain(pages[..], freeHead, freeList)
    }

    /** `pages` allocated for `npages` frames, none of them free yet. */
    constructor (npages: nat)
      requires npages <= 0x10_0000
      ensures Valid() && fresh(pages) && fresh(mem) && pages.Length == npages && freeList == []
    {
      pages := new PageInfo[npages](_ => PageInfo(false, 0, None));
      mem := new u32[Paging.MEM_WORDS](_ => 0);
      freeHead := None;
      freeList := [];
    }

    /**
     * multiboot_detect_available_pages: the first RESERVED_PAGES frames are
     * reserved and off the list; every other frame is pushed in ascending
     * order, so the list runs from the last frame down.
     */
    method DetectAvailablePages()
      requires Valid() && pages.Length >= RESERVED_PAGES
      modifies pages, this
      ensures Valid() && pages == old(pages) && mem == old(mem)
      ensures freeList == Descending(RESERVED_PAGES, pages.Length)
      ensures forall i :: 0 <= i < pages.Length ==>
        pages[i].reserved == (i < RESERVED_PAGES) && pages[i].references == 0
    {
      var i := 0;
      while i < RESERVED_PAGES
        invariant 0 <= i <= RESERVED_PAGES
        invariant pages == old(pages) && mem == old(mem)
        invariant forall j :: 0 <= j < i ==> pages[j].references == 0 && pages[j].reserved
      {
        pages[i] := PageInfo(true, 0, None);
        i := i + 1;
      }
      freeHead := None;
      freeList := [];
      var u := RESERVED_PAGES;
      while u < pages.Length
        invariant RESERVED_PAGES <= u <= pages.Length
        invariant pages == old(pages) && mem == old(mem)
        invariant forall j :: 0 <= j < u ==>
          pages[j].references == 0 && pages[j].reserved == (j < RESERVED_PAGES)
        invariant freeList == Descending(RESERVED_PAGES, u)
        invariant FreeChain(pages[..], freeHead, freeList)
      {
        ghost var ps := pages[..];
        DescendingBelow(RESERVED_PAGES, u);
        ChainPush(ps, freeList, u, PageInfo(false, 0, freeHead));
        pages[u] := PageInfo(false, 0, freeHead);
        assert pages[..] == ps[u := PageInfo(false, 0, freeHead)];
        freeHead := Some(u);
        freeList := [u] + freeList;
        DescendingStep(RESERVED_PAGES, u);
        u := u + 1;
      }
    }

    /**
     * page_alloc: pops the head of the free list, or returns NULL when it is
     * empty. The frame's reference count is set to 0, not incremented.
     */
    method PageAlloc() returns (r: Option<nat>)
      requires Valid()
      modifies pages, this
      ensures Valid() && pages == old(pages) && mem == old(mem)
      ensures r == Head(old(freeList))
      ensures freeList == if r.None? then old(freeList) else old(freeList)[1..]
      ensures r.Some? ==> r.value < pages.Length && r.value !in freeList
      ensures pages[..] == if r.None? then old(pages[..])
        else old(pages[..])[r.value := old(pages[r.value]).(references := 0, nextfree := None)]
    {
      if freeHead.None? {
        return None;
      }
      var page := freeHead.value;
      ChainPop(pages[..], freeList);
      freeHead := pages[page].nextfree;
      pages[page] := pages[page].(references := 0, nextfree := None);
      freeList := freeList[1..];
      r := Some(page);
    }

    /**
     * page_free: panics on NULL or a nonzero reference count, then pushes the
     * frame. The source does not check `reserved`, so a reserved frame
     * joins the list and a later page_alloc hands it out; it does not check
     * for a second free either, which the list of distinct frames leaves to
     * the caller.
     */
    method PageFree(page: nat)
      requires Valid() && page < pages.Length && pages[page].references == 0
      requires page !in freeList
      modifies pages, this
      ensures Valid() && pages == old(pages) && mem == old(mem)
      ensures freeList == [page] + old(freeList)
      ensures pages[..] == old(pages[..])[page := old(pages[page]).(nextfree := old(freeHead))]
    {
      ChainPush(pages[..], freeList, page, pages[page].(nextfree := freeHead));
      pages[page] := pages[page].(nextfree := freeHead);
      freeHead := Some(page);
      freeList := [page] + freeList;
    }

    /** `page->references++` on a frame that is off the free list. */
    method Reference(page: nat)
      requires Valid() && page < pages.Length && page !in freeList
      modifies pages
      ensures Valid()
      ensures pages[..] == old(pages[..])[page := old(pages[page]).(references := old(pages[page].references) + 1)]
    {
      ChainOther(pages[..], freeHead, freeList, page, pages[page].(references := pages[page].references + 1));
      pages[page] := pages[page].(references := pages[page].references + 1);
    }

    /**
     * pgdir_create: allocates the directory frame and, with `createTables`,
     * one table frame per directory entry, writing `pa | PG_PRESENT | PG_USER`
     * to the entry. Each allocated frame's count goes to 1. Every allocation
     * is asserted non-NULL (the table loop dereferences the frame before the
     * assertion), so the list must hold enough frames.
     */
    method PgdirCreate(createTables: bool) returns (pgdir: u32)
      requires Valid() && |freeList| >= 1 + (if createTables then PGDIR_ENTRIES else 0)
      modifies pages, mem, this
      ensures Valid() && pages == old(pages) && mem == old(mem)
      ensures pgdir == PageIndexToPa(old(freeList)[0])
      ensures freeList == old(freeList)[1 + (if createTables then PGDIR_ENTRIES else 0)..]
      ensures forall w :: pgdir / 4 <= w < pgdir / 4 + PGDIR_ENTRIES ==>
        mem[w] == if createTables then PageIndexToPa(old(freeList)[1 + (w - pgdir / 4)]) + PG_PRESENT + PG_USER
                  else old(mem[w])
      ensures forall w :: 0 <= w < mem.Length && !(pgdir / 4 <= w < pgdir / 4 + PGDIR_ENTRIES) ==> mem[w] == old(mem[w])
      ensures CountedOnce(old(pages[..]), pages[..], old(freeList)[..1 + (if createTables then PGDIR_ENTRIES else 0)])
    {
      ghost var l0 := freeList;
      ghost var ps0 := pages[..];
      var page := PageAlloc();
      Reference(page.value);
      assert CountedOnce(ps0, pages[..], l0[..1]) by {
        assert l0[..1] == [page.value];
      }
      pgdir := PageIndexToPa(page.value);
      if createTables {
        ghost var ps1 := pages[..];
        FillTables(pgdir);
        assert l0[1..][..PGDIR_ENTRIES] == l0[1..1 + PGDIR_ENTRIES];
        CountedOnceThen(ps0, ps1, pages[..], l0[..1], l0[1..1 + PGDIR_ENTRIES]);
        assert l0[..1] + l0[1..1 + PGDIR_ENTRIES] == l0[..1 + PGDIR_ENTRIES];
      }
    }

    /** The table loop of pgdir_create: entry `i` gets the i-th frame popped, present and user. */
    method FillTables(pgdir: u32)
      requires Valid() && pgdir % PGSIZE == 0 && |freeList| >= PGDIR_ENTRIES
      modifies pages, mem, this
      ensures Valid() && pages == old(pages) && mem == old(mem)
      ensures freeList == old(freeList)[PGDIR_ENTRIES..]
      ensures forall w :: pgdir / 4 <= w < pgdir / 4 + PGDIR_ENTRIES ==>
        mem[w] == PageIndexToPa(old(freeList)[w - pgdir / 4]) + PG_PRESENT + PG_USER
      ensures forall w :: 0 <= w < mem.Length && !(pgdir / 4 <= w < pgdir / 4 + PGDIR_ENTRIES) ==> mem[w] == old(mem[w])
      ensures CountedOnce(old(pages[..]), pages[..], old(freeList)[..PGDIR_ENTRIES])
    {
      ghost var l0 := freeList;
      ghost var ps0 := pages[..];
      var base := pgdir / 4;
      Paging.DirectoryBlocks(pgdir, pgdir);
      var i := 0;
      while i < PGDIR_ENTRIES
        invariant 0 <= i <= PGDIR_ENTRIES
        invariant pages == old(pages) && mem == old(mem)
        invariant Valid() && freeList == l0[i..]
        invariant forall w :: base <= w < base + i ==> mem[w] == PageIndexToPa(l0[w - base]) + PG_PRESENT + PG_USER
        invariant forall w :: 0 <= w < mem.Length && !(base <= w < base + i) ==> mem[w] == old(mem[w])
        invariant CountedOnce(ps0, pages[..], l0[..i])
      {
        ghost var ps := pages[..];
        AllocTable(base + i);
        assert l0[i] !in l0[..i];
        CountedOnceStep(ps0, ps, l0[..i], l0[i]);
        assert l0[..i + 1] == l0[..i] + [l0[i]];
        i := i + 1;
      }
    }

    /** One iteration of the table loop: pop a frame, count it, and write its entry at word `w`. */
    method AllocTable(w: nat)
      requires Valid() && |freeList| >= 1 && w < mem.Length
      modifies pages, mem, this
      ensures Valid() && pages == old(pages) && mem == old(mem)
      ensures freeList == old(freeList)[1..]
      ensures mem[..] == old(mem[..])[w := PageIndexToPa(old(freeList)[0]) + PG_PRESENT + PG_USER]
      ensures old(freeList)[0] < pages.Length
      ensures pages[..] == old(pages[..])[old(freeList)[0] := old(pages[..])[old(freeList)[0]].(references := 1, nextfree := None)]
    {
      var table := PageAlloc();
      Reference(table.value);
      var pa := PageIndexToPa(table.value);
      mem[w] := pa + PG_PRESENT + PG_USER;
    }

    /**
     * pgdir_map: the same assertions and the same entry formula
     * `(pa + i) | permissions` as the newer manager; `permissions` is a
     * `uint16_t` whose top four bits must be clear.
     */
    method PgdirMap(pgdir: u32, va: u32, size: u32, pa: u32, permissions: u16)
      requires Valid() && pgdir % PGSIZE == 0
      requires pa % PGSIZE == 0 && va % PGSIZE == 0 && permissions / PGSIZE == 0
      requires size <= U32_LIMIT - PGSIZE
      requires Paging.Usable(Paging.EntryList(mem[..], pgdir, va, Paging.Pages(size)), pgdir)
      modifies mem
      ensures mem[..] == Paging.MapWrites(old(mem[..]), pgdir, va, pa, permissions, Paging.Pages(size))
    {
      Paging.PgdirMap(mem, pgdir, va, size, pa, permissions);
    }
  }
}
