/**
 * Processes of src/kernel/process.c: the ELF loader, the fixed table of 64
 * process slots linked into a circular `next` ring, process creation, and
 * the round-robin scheduler that swaps register sets through the interrupt
 * frame.
 *
 * A slot's `next` pointer is an index into the table; `running_proc` is the
 * index `running`, `None` before `scheduler_init`. The page directory loaded
 * by `paging_load` is the field `cr3`. The 32-bit words `process_create`
 * writes on a new kernel stack are kept in `stackWords`, by address, and the
 * bytes `load_elf` writes through the loaded directory in `userBytes`.
 * Allocation goes through the kernel heap of `KHeap`.
 */
module Process {
  import opened Common
  import opened PageArith
  import KHeap

  const MAX_PROCESSES: int := 64
  const ELF_MAGIC: int := 0x464C457F
  const ELF_PROG_LOAD: int := 1
  /** `sizeof(struct ELFHeader)` and `sizeof(struct ELFProgHeader)`, both packed. */
  const ELF_HEADER_SIZE: int := 52
  const PROG_HEADER_SIZE: int := 32
  /** `kassert(stack < 128 * 1024 * 1024)` in process_create. */
  const STACK_LIMIT: int := 128 * 1024 * 1024
  /** The values process_create pushes for `iret`: `eflags` and `cs`. */
  const INITIAL_EFLAGS: int := 0x206
  const KERNEL_CODE_SELECTOR: int := 0x8

  // ---------------------------------------------------------------------
  // region_alloc

  /**
   * The bytes region_alloc maps from `ROUNDDOWN(vaddr, PGSIZE)`. As written it
   * rounds `count` up on its own; the intended length runs to the page
   * boundary at or above `vaddr + count`.
   */
  function RegionLength(vaddr: u32, count: u32, asWritten: bool): int
    requires vaddr + count + PGSIZE <= U32_LIMIT
  {
    if asWritten then RoundUp(count, PGSIZE)
    else RoundUp(vaddr + count, PGSIZE) - RoundDown(vaddr, PGSIZE)
  }

  /** The page-aligned virtual addresses region_alloc maps, lowest first. */
  function RegionPages(vaddr: u32, count: u32, asWritten: bool): seq<int>
    requires vaddr + count + PGSIZE <= U32_LIMIT
  {
    var n := if RegionLength(vaddr, count, asWritten) <= 0 then 0 else (RegionLength(vaddr, count, asWritten) + PGSIZE - 1) / PGSIZE;
    seq(n, k => RoundDown(vaddr, PGSIZE) + k * PGSIZE)
  }

  /**
   * The intended region covers every byte of `[vaddr, vaddr + count)`: the
   * page holding each byte is one of the pages mapped, and the pages are
   * page aligned.
   */
  lemma RegionCovers(vaddr: u32, count: u32, a: int)
    requires vaddr + count + PGSIZE <= U32_LIMIT && vaddr <= a < vaddr + count
    ensures a - a % PGSIZE in RegionPages(vaddr, count, false)
    ensures forall p :: p in RegionPages(vaddr, count, false) ==> p % PGSIZE == 0
  {
    var start := RoundDown(vaddr, PGSIZE);
    RoundUpProperties(vaddr + count, PGSIZE);
    var len := RegionLength(vaddr, count, false);
    var pages := RegionPages(vaddr, count, false);
    Arith.LessRemainder(a, PGSIZE);
    var k := (a - a % PGSIZE - start) / PGSIZE;
    assert start % PGSIZE == 0 && (a - a % PGSIZE) % PGSIZE == 0;
    Arith.LessRemainder(len, PGSIZE);
    assert len % PGSIZE == 0 by {
      Arith.DivModUnique(RoundUp(vaddr + count, PGSIZE) - start, PGSIZE,
        RoundUp(vaddr + count, PGSIZE) / PGSIZE - start / PGSIZE, 0);
    }
    assert a - a % PGSIZE - start == k * PGSIZE by {
      Arith.DivModUnique(a - a % PGSIZE - start, PGSIZE,
        (a - a % PGSIZE) / PGSIZE - start / PGSIZE, 0);
    }
    assert |pages| == len / PGSIZE by {
      Arith.DivModUnique(len + PGSIZE - 1, PGSIZE, len / PGSIZE, PGSIZE - 1);
    }
    assert k * PGSIZE < len;
    assert k < len / PGSIZE by {
      Arith.DivModUnique(len, PGSIZE, len / PGSIZE, 0);
    }
    assert pages[k] == a - a % PGSIZE;
    forall p | p in pages
      ensures p % PGSIZE == 0
    {
      var j :| 0 <= j < |pages| && pages[j] == p;
      Arith.DivModUnique(p, PGSIZE, start / PGSIZE + j, 0);
    }
  }

  /**
   * Finding: region_alloc(0x1FFF, 2) maps only the page at 0x1000, but the
   * region's last byte is 0x2000; the intended length maps both pages.
   */
  lemma RegionMissesLastPage()
    ensures RegionPages(0x1FFF, 2, true) == [0x1000]
    ensures 0x2000 !in RegionPages(0x1FFF, 2, true)
    ensures RegionPages(0x1FFF, 2, false) == [0x1000, 0x2000]
  {
  }

  // ---------------------------------------------------------------------
  // load_elf

  /** The fields of `struct ELFProgHeader` that load_elf reads. */
  datatype ProgHeader = ProgHeader(kind: u32, dataOffset: u32, vAddr: u32, fileSize: u32, memSize: u32)

  function ProgHeaderAt(binary: seq<u8>, off: nat): ProgHeader
    requires off + PROG_HEADER_SIZE <= |binary|
  {
    ProgHeader(LE32(binary, off), LE32(binary, off + 4), LE32(binary, off + 8),
               LE32(binary, off + 16), LE32(binary, off + 20))
  }

  function Magic(binary: seq<u8>): u32
    requires |binary| >= ELF_HEADER_SIZE
  {
    LE32(binary, 0)
  }

  function Entry(binary: seq<u8>): u32
    requires |binary| >= ELF_HEADER_SIZE
  {
    LE32(binary, 24)
  }

  /** `progHeader`, the file offset of the program-header table, and `progEntries`. */
  function ProgTable(binary: seq<u8>): u32
    requires |binary| >= ELF_HEADER_SIZE
  {
    LE32(binary, 28)
  }

  function ProgEntries(binary: seq<u8>): u16
    requires |binary| >= ELF_HEADER_SIZE
  {
    LE16(binary, 44)
  }

  /**
   * What load_elf reads and writes stays within the image and the 32-bit
   * address space, and no segment claims more file bytes than memory bytes
   * (else the `memset` length wraps).
   */
  predicate Loadable(binary: seq<u8>)
  {
    && |binary| >= ELF_HEADER_SIZE
    && (Magic(binary) == ELF_MAGIC ==>
         && ProgTable(binary) + PROG_HEADER_SIZE * ProgEntries(binary) <= |binary|
         && forall i :: 0 <= i < ProgEntries(binary) ==>
              SegmentFits(binary, ProgHeaderAt(binary, ProgTable(binary) + PROG_HEADER_SIZE * i)))
  }

  predicate SegmentFits(binary: seq<u8>, ph: ProgHeader)
  {
    ph.kind == ELF_PROG_LOAD ==>
      && ph.dataOffset + ph.fileSize <= |binary|
      && ph.fileSize <= ph.memSize
      && ph.vAddr + ph.memSize <= U32_LIMIT
  }

  function ProgHeaders(binary: seq<u8>): (hs: seq<ProgHeader>)
    requires Loadable(binary) && Magic(binary) == ELF_MAGIC
    ensures |hs| == ProgEntries(binary)
    ensures forall i :: 0 <= i < |hs| ==> SegmentFits(binary, hs[i])
  {
    seq(ProgEntries(binary), i requires 0 <= i < ProgEntries(binary) =>
      ProgHeaderAt(binary, ProgTable(binary) + PROG_HEADER_SIZE * i))
  }

  predicate InSegment(ph: ProgHeader, a: int)
  {
    ph.kind == ELF_PROG_LOAD && ph.vAddr <= a < ph.vAddr + ph.memSize
  }

  /** The byte a loaded segment puts at `a`: file data, then zero fill. */
  function SegmentByte(binary: seq<u8>, ph: ProgHeader, a: int): u8
    requires SegmentFits(binary, ph) && InSegment(ph, a)
  {
    if a - ph.vAddr < ph.fileSize then binary[ph.dataOffset + (a - ph.vAddr)] else 0
  }

  /** The addresses `[lo, lo + n)`. */
  function Range(lo: int, n: nat): (r: set<int>)
    ensures forall x :: x in r <==> lo <= x < lo + n
  {
    if n == 0 then {} else Range(lo, n - 1) + {lo + n - 1}
  }

  /** One iteration of load_elf's loop: the `memcpy` and `memset` of a LOAD header. */
  function LoadSegment(m: map<int, u8>, binary: seq<u8>, ph: ProgHeader): map<int, u8>
    requires SegmentFits(binary, ph)
  {
    if ph.kind != ELF_PROG_LOAD then m
    else
      map a | a in m.Keys + Range(ph.vAddr, ph.memSize) ::
        if InSegment(ph, a) then SegmentByte(binary, ph, a) else m[a]
  }

  function LoadAll(m: map<int, u8>, binary: seq<u8>, hs: seq<ProgHeader>): map<int, u8>
    requires forall i :: 0 <= i < |hs| ==> SegmentFits(binary, hs[i])
  {
    if |hs| == 0 then m else LoadSegment(LoadAll(m, binary, hs[..|hs| - 1]), binary, hs[|hs| - 1])
  }

  /** Loading one header more is one LoadSegment more. */
  lemma LoadAllStep(m: map<int, u8>, binary: seq<u8>, hs: seq<ProgHeader>, i: nat)
    requires i < |hs| && forall k :: 0 <= k < |hs| ==> SegmentFits(binary, hs[k])
    ensures LoadAll(m, binary, hs[..i + 1]) == LoadSegment(LoadAll(m, binary, hs[..i]), binary, hs[i])
  {
    assert hs[..i + 1][..i] == hs[..i];
  }

  /** No two LOAD segments share an address. */
  ghost predicate SegmentsDisjoint(hs: seq<ProgHeader>)
  {
    forall i, j, a :: 0 <= i < j < |hs| && InSegment(hs[i], a) ==> !InSegment(hs[j], a)
  }

  /**
   * After loading disjoint segments, each byte of a LOAD segment holds its
   * file byte or zero, and every byte outside all LOAD segments is as it
   * was (absent if it was absent).
   */
  lemma {:induction false} LoadAllContents(m: map<int, u8>, binary: seq<u8>, hs: seq<ProgHeader>, a: int)
    requires forall i :: 0 <= i < |hs| ==> SegmentFits(binary, hs[i])
    requires SegmentsDisjoint(hs)
    ensures forall j :: 0 <= j < |hs| && InSegment(hs[j], a) ==>
      a in LoadAll(m, binary, hs) && LoadAll(m, binary, hs)[a] == SegmentByte(binary, hs[j], a)
    ensures (forall j :: 0 <= j < |hs| ==> !InSegment(hs[j], a)) ==>
      (a in LoadAll(m, binary, hs) <==> a in m) &&
      (a in m ==> LoadAll(m, binary, hs)[a] == m[a])
  {
    if |hs| > 0 {
      var n := |hs| - 1;
      var init := hs[..n];
      assert forall i :: 0 <= i < n ==> init[i] == hs[i];
      LoadAllContents(m, binary, init, a);
    }
  }

  /**
   * load_elf: 0 and nothing written when the magic is wrong; otherwise every
   * program header is visited in order, LOAD segments are copied and
   * zero-filled, and the header's entry point is returned.
   */
  method LoadElf(binary: seq<u8>, m: map<int, u8>) returns (entry: u32, m': map<int, u8>)
    requires Loadable(binary)
    ensures Magic(binary) != ELF_MAGIC ==> entry == 0 && m' == m
    ensures Magic(binary) == ELF_MAGIC ==> entry == Entry(binary) && m' == LoadAll(m, binary, ProgHeaders(binary))
  {
    if Magic(binary) != ELF_MAGIC {
      return 0, m;
    }
    var hs := ProgHeaders(binary);
    m' := m;
    var i := 0;
    while i < |hs|
      invariant 0 <= i <= |hs|
      invariant m' == LoadAll(m, binary, hs[..i])
    {
      var ph := hs[i];
      LoadAllStep(m, binary, hs, i);
      if ph.kind == ELF_PROG_LOAD {
        m' := LoadSegment(m', binary, ph);
      }
      i := i + 1;
    }
    assert hs[..i] == hs;
    entry := Entry(binary);
  }

  // ---------------------------------------------------------------------
  // The process table

  datatype State = Unused | Initialized | Ready | Running | Dead

  /** The registers a process keeps while switched out. */
  datatype Registers = Registers(edi: u32, esi: u32, ebp: u32, esp: u32, ebx: u32, edx: u32, ecx: u32, eax: u32)

  /** `struct intframe_t`, the stack contents on entry to the interrupt handler. */
  datatype IntFrame = IntFrame(
    ds: u32, edi: u32, esi: u32, ebp: u32, curresp: u32, ebx: u32, edx: u32, ecx: u32, eax: u32,
    intNo: u32, errCode: u32, eip: u32, cs: u32, eflags: u32, useresp: u32, ss: u32)

  /** A process slot: `name` is the string copied to the heap block at `nameAddr`. */
  datatype Process = Process(
    pid: int, state: State, pgdir: u32, regs: Registers, name: seq<char>, nameAddr: u32, next: nat)

  const ZERO_REGISTERS := Registers(0, 0, 0, 0, 0, 0, 0, 0)
  /** A slot of the zero-initialised global table. */
  const EMPTY_SLOT := Process(0, Unused, 0, ZERO_REGISTERS, [], 0, 0)

  /** Every `next` pointer stays in the table. */
  predicate Linked(s: seq<Process>)
  {
    forall k :: 0 <= k < |s| ==> s[k].next < |s|
  }

  /** Every pid handed out is below the counter; untouched slots still hold 0. */
  predicate PidsBelow(s: seq<Process>, nextPid: int)
  {
    forall k :: 0 <= k < |s| ==> s[k].pid < nextPid || s[k].pid == 0
  }

  /** The index of the first `UNUSED` slot, if any. */
  function FirstUnused(s: seq<Process>, i: nat): (r: Option<nat>)
    requires i <= |s|
    ensures r.Some? ==> i <= r.value < |s| && s[r.value].state == Unused
    ensures r.Some? ==> forall k :: i <= k < r.value ==> s[k].state != Unused
    ensures r.None? ==> forall k :: i <= k < |s| ==> s[k].state != Unused
    decreases |s| - i
  {
    if i == |s| then None else if s[i].state == Unused then Some(i) else FirstUnused(s, i + 1)
  }

  function DeadCount(s: seq<Process>): nat
  {
    if |s| == 0 then 0 else DeadCount(s[..|s| - 1]) + (if s[|s| - 1].state == Dead then 1 else 0)
  }

  /** process_free on a dead slot lowers the number of dead slots by one. */
  lemma {:induction false} DeadCountFree(s: seq<Process>, i: nat)
    requires i < |s| && s[i].state == Dead
    ensures DeadCount(s[i := s[i].(state := Unused)]) == DeadCount(s) - 1
  {
    var n := |s| - 1;
    var s' := s[i := s[i].(state := Unused)];
    if i < n {
      assert s'[..n] == s[..n][i := s[i].(state := Unused)];
      DeadCountFree(s[..n], i);
    } else {
      assert s'[..n] == s[..n];
    }
  }

  /** The context switch saves the interrupted registers into a process... */
  function SaveRegisters(f: IntFrame): Registers
  {
    Registers(f.edi, f.esi, f.ebp, f.curresp, f.ebx, f.edx, f.ecx, f.eax)
  }

  /** ...and loads a process's registers into the frame, leaving the rest of it. */
  function LoadRegisters(f: IntFrame, r: Registers): IntFrame
  {
    f.(edi := r.edi, esi := r.esi, ebp := r.ebp, curresp := r.esp,
       ebx := r.ebx, edx := r.edx, ecx := r.ecx, eax := r.eax)
  }

  /** Saving then loading restores the frame, and loading then saving gives back the registers. */
  lemma SaveLoadRoundTrip(f: IntFrame, r: Registers)
    ensures LoadRegisters(f, SaveRegisters(f)) == f
    ensures SaveRegisters(LoadRegisters(f, r)) == r
  {
  }

  /**
   * The scheduler's loop: from slot `i`, each `DEAD` slot is freed (set
   * `UNUSED`) and left for its successor, until a slot that is not `DEAD`.
   */
  function SkipDead(s: seq<Process>, i: nat): (r: (seq<Process>, nat))
    requires Linked(s) && i < |s|
    ensures |r.0| == |s| && Linked(r.0) && r.1 < |s| && r.0[r.1].state != Dead
    ensures forall k :: 0 <= k < |s| ==> r.0[k] == s[k] || (s[k].state == Dead && r.0[k] == s[k].(state := Unused))
    decreases DeadCount(s)
  {
    if s[i].state != Dead then (s, i)
    else
      DeadCountFree(s, i);
      SkipDead(s[i := s[i].(state := Unused)], s[i].next)
  }

  /** Freeing one dead slot keeps the ring and the pids, and is one step of SkipDead. */
  lemma FreeDeadStep(s: seq<Process>, i: nat, nextPid: int)
    requires Linked(s) && PidsBelow(s, nextPid) && i < |s| && s[i].state == Dead
    ensures var s' := s[i := s[i].(state := Unused)];
      && Linked(s') && PidsBelow(s', nextPid) && DeadCount(s') < DeadCount(s)
      && SkipDead(s', s[i].next) == SkipDead(s, i)
  {
    DeadCountFree(s, i);
  }

  datatype Switch = Switch(slots: seq<Process>, running: nat, frame: IntFrame)

  /**
   * scheduler: a no-op when the running process is its own successor;
   * otherwise skip and free dead successors, link the old process to the
   * new one, demote the old one to `READY` only if it was `RUNNING`, mark the
   * new one `RUNNING`, save the frame's registers into the old process and
   * load the new process's registers into the frame.
   */
  function Schedule(s: seq<Process>, o: nat, f: IntFrame): Switch
    requires Linked(s) && o < |s|
  {
    if s[o].next == o then Switch(s, o, f)
    else
      var (s1, n) := SkipDead(s, s[o].next);
      var s2 := s1[o := s1[o].(next := n)];
      var s3 := if s2[o].state == Running then s2[o := s2[o].(state := Ready)] else s2;
      var s4 := s3[n := s3[n].(state := Running)];
      var s5 := s4[o := s4[o].(regs := SaveRegisters(f))];
      Switch(s5, n, LoadRegisters(f, s5[n].regs))
  }

  /**
   * After a switch the new process is `RUNNING` and follows the old one; no
   * process dies, dead slots are only ever freed, and apart from the two
   * processes switched no slot changes in any other way.
   */
  lemma ScheduleStates(s: seq<Process>, o: nat, f: IntFrame)
    requires Linked(s) && o < |s|
    ensures var r := Schedule(s, o, f);
      && |r.slots| == |s| && Linked(r.slots) && r.running < |s|
      && (s[o].next == o ==> r == Switch(s, o, f))
      && (s[o].next != o ==>
            && r.slots[r.running].state == Running
            && r.slots[o].next == r.running
            && (r.running != o && s[o].state == Running ==> r.slots[o].state == Ready)
            && (r.running != o ==> r.slots[o].regs == SaveRegisters(f))
            && r.frame == LoadRegisters(f, r.slots[r.running].regs))
      && (forall k :: 0 <= k < |s| && k != o && k != r.running ==>
            r.slots[k] == s[k] || (s[k].state == Dead && r.slots[k] == s[k].(state := Unused)))
  {
  }

  /**
   * A process switched out and straight back in resumes with the frame it
   * left: if the successor of the new process is the old one, which is not
   * dead, the second switch restores every field of the first frame.
   */
  lemma SwitchBackRestores(s: seq<Process>, o: nat, f: IntFrame)
    requires Linked(s) && o < |s| && s[o].next != o
    requires var r := Schedule(s, o, f); r.running != o && r.slots[r.running].next == o
    requires s[o].state != Dead
    ensures var r := Schedule(s, o, f);
      var back := Schedule(r.slots, r.running, r.frame);
      back.running == o && back.frame == f
  {
    ScheduleStates(s, o, f);
    var r := Schedule(s, o, f);
    assert r.slots[o].state != Dead;
    assert SkipDead(r.slots, o) == (r.slots, o);
  }

  /** The address of the top word of a new kernel stack; as written it is three bytes too high. */
  function StackTop(stack: u32, size: u32, asWritten: bool): int
  {
    if asWritten then stack + size - 1 else stack + size - 4
  }

  /** The five words process_create pushes for the first `iret`, top first. */
  function InitialFrame(top: int, entry: u32): map<int, u32>
  {
    map[top := INITIAL_EFLAGS, top - 4 := KERNEL_CODE_SELECTOR, top - 8 := entry, top - 12 := 0, top - 16 := 0]
  }

  /** With the intended top, all five 4-byte words lie inside the stack block. */
  lemma FrameInsideStack(stack: u32, size: u32, entry: u32)
    requires size >= 20
    ensures forall w :: w in InitialFrame(StackTop(stack, size, false), entry) ==> stack <= w && w + 4 <= stack + size
  {
  }

  /**
   * Finding: as written the `eflags` word starts at the stack's last byte,
   * so three of its bytes lie past the end of the allocated block.
   */
  lemma FrameOverrunsStack(stack: u32, size: u32, entry: u32)
    requires size >= 20
    ensures StackTop(stack, size, true) in InitialFrame(StackTop(stack, size, true), entry)
    ensures StackTop(stack, size, true) + 4 == stack + size + 3
  {
  }

  /**
   * The heap request for a process name. As written it is `strlen(name)`,
   * but `strcpy` writes the terminating NUL as well; the intended request
   * counts it.
   */
  function NameRequest(name: seq<char>, asWritten: bool): int
  {
    if asWritten then |name| else |name| + 1
  }

  /** `strcpy(dst, name)` writes address `a`: one of the name's bytes, or its NUL at `dst + |name|`. */
  predicate StrcpyWrites(dst: int, name: seq<char>, a: int)
  {
    dst <= a <= dst + |name|
  }

  /** Address `a` is one of the `size` bytes kmalloc hands out at `ptr`. */
  predicate InBlock(ptr: int, size: int, a: int)
  {
    ptr <= a < ptr + size
  }

  /**
   * Finding: copied into the as-written name block, exactly one byte strcpy
   * writes lands outside the block, the terminating NUL, whatever the name.
   */
  lemma NameBlockShort(ptr: int, name: seq<char>)
    ensures forall a :: StrcpyWrites(ptr, name, a) && !InBlock(ptr, NameRequest(name, true), a) <==> a == ptr + |name|
  {
  }

  /** The intended name block, as process_create stamps its header, holds every byte strcpy writes. */
  lemma NameBlockFits(ptr: int, name: seq<char>)
    ensures forall a :: StrcpyWrites(ptr, name, a) ==> InBlock(ptr, NameRequest(name, false), a)
  {
  }

  /** The outcome of process_create: 0, one of its two negative error codes, or a failed kassert. */
  datatype CreateResult = Created | ProcessLimitReached | OutOfMemory | StackAboveLimit

  /** The outcome of execv: `E_NOTELF` when load_elf returns 0, else process_create's. */
  datatype ExecResult = NotElf | Exec(create: CreateResult)

  /** A block whose header ends below 4 GiB starts just past the header and does not wrap either. */
  lemma BlockEnd(ptr: u32, size: u32)
    requires Wrap32(ptr - KHeap.HEADER_SIZE) + size + KHeap.HEADER_SIZE < U32_LIMIT
    ensures ptr + size < U32_LIMIT
  {
  }

  /** The state before process_create: the table, the pid counter, the stack words and the heap's headers, calls and free list. */
  datatype Prior = Prior(slots: seq<Process>, nextPid: int, stackWords: map<int, u32>,
                         headers: map<u32, KHeap.UsedHeader>, calls: int, intervals: seq<KHeap.Interval>)

  /** The allocation behind process_create's name block, from the free list in `b`. */
  function NameAlloc(b: Prior, name: seq<char>): KHeap.AllocResult
    requires NameRequest(name, false) + KHeap.HEADER_SIZE < U32_LIMIT
  {
    KHeap.KmallocAlloc(b.intervals, NameRequest(name, false) as u32)
  }

  /** The slot after `p->name = kmalloc(...)` returned NULL. */
  function Unnamed(s: Process): Process
  {
    s.(name := [], nameAddr := 0)
  }

  /** The slot as process_create fills it in before allocating the stack. */
  function Named(s: Process, name: seq<char>, nameAddr: u32, pagedir: u32, pid: int): Process
  {
    s.(name := name, nameAddr := nameAddr, state := Ready, pgdir := pagedir, pid := pid)
  }

  /** The header address of a slot's name block. */
  function NameHeader(s: Process): u32
  {
    Wrap32(s.nameAddr - KHeap.HEADER_SIZE)
  }

  /** kfree's call counter after one more call: every eleventh call resets it, defragmenting. */
  function KfreeCalls(calls: int): int
  {
    if calls + 1 > KHeap.KFREE_DEFRAGMENT_CALLS then 0 else calls + 1
  }

  /**
   * The header address of the kernel stack block that process_create leaves
   * with saved `esp`: the block starts `size - 20` bytes below it (the four
   * bytes under the intended top and the four words below the `eflags` word).
   */
  function StackHeader(esp: int, size: u32): u32
  {
    Wrap32(esp + 20 - size - KHeap.HEADER_SIZE)
  }

  class ProcessTable {
    /** `processes[MAX_PROCESSES]`. */
    const slots: array<Process>
    /** `running_proc`, as an index; `None` until scheduler_init. */
    var running: Option<nat>
    /** get_next_pid's static counter. */
    var nextPid: int
    /** The page directory last given to `paging_load`. */
    var cr3: u32
    /** Words written on kernel stacks, by address. */
    var stackWords: map<int, u32>
    /** Bytes written through the loaded page directory by load_elf. */
    var userBytes: map<int, u8>
    const heap: KHeap.KernelHeap
    /** PROCESS_KERNEL_STACK_SIZE. */
    const stackSize: u32

    ghost predicate Valid()
      reads this, slots, heap
    {
      && slots.Length == MAX_PROCESSES
      && 20 <= stackSize && stackSize + KHeap.HEADER_SIZE < U32_LIMIT
      && heap.Valid()
      && (running.Some? ==> running.value < MAX_PROCESSES && nextPid >= 1)
      && nextPid >= 0
      && Linked(slots[..])
      && PidsBelow(slots[..], nextPid)
    }

    /** The zero-initialised table, before scheduler_init. */
    constructor (heap: KHeap.KernelHeap, stackSize: u32, cr3: u32)
      requires heap.Valid() && 20 <= stackSize && stackSize + KHeap.HEADER_SIZE < U32_LIMIT
      ensures Valid() && fresh(slots)
      ensures this.heap == heap && this.stackSize == stackSize && this.cr3 == cr3
      ensures running == None && nextPid == 0 && stackWords == map[] && userBytes == map[]
      ensures forall k :: 0 <= k < MAX_PROCESSES ==> slots[k] == EMPTY_SLOT
    {
      slots := new Process[MAX_PROCESSES](_ => EMPTY_SLOT);
      running := None;
      nextPid := 0;
      this.cr3 := cr3;
      stackWords := map[];
      userBytes := map[];
      this.heap := heap;
      this.stackSize := stackSize;
    }

    /** get_next_pid: returns the counter and increments it. */
    method GetNextPid() returns (pid: int)
      modifies this
      ensures pid == old(nextPid) && nextPid == old(nextPid) + 1
      ensures running == old(running) && cr3 == old(cr3)
      ensures stackWords == old(stackWords) && userBytes == old(userBytes)
    {
      pid := nextPid;
      nextPid := nextPid + 1;
    }

    /** find_free_process: the first `UNUSED` slot, or NULL when all 64 are taken. */
    method FindFreeProcess() returns (r: Option<nat>)
      requires slots.Length == MAX_PROCESSES
      ensures r == FirstUnused(slots[..], 0)
      ensures r.Some? ==> r.value < MAX_PROCESSES && slots[r.value].state == Unused
      ensures r.None? ==> forall k :: 0 <= k < MAX_PROCESSES ==> slots[k].state != Unused
    {
      var i := 0;
      while i < MAX_PROCESSES
        invariant 0 <= i <= MAX_PROCESSES
        invariant FirstUnused(slots[..], i) == FirstUnused(slots[..], 0)
      {
        if slots[i].state == Unused {
          return Some(i);
        }
        i := i + 1;
      }
      return None;
    }

    /** process_set_dead: only that slot's state changes. */
    method ProcessSetDead(p: nat)
      requires Valid() && p < MAX_PROCESSES
      modifies slots
      ensures Valid()
      ensures slots[..] == old(slots[..])[p := old(slots[p]).(state := Dead)]
    {
      slots[p] := slots[p].(state := Dead);
    }

    /**
     * scheduler_init: the first free slot becomes the one process, `RUNNING`,
     * its own successor, using the kernel directory, and running.
     */
    method SchedulerInit(kernelPgdir: u32)
      requires Valid() && FirstUnused(slots[..], 0).Some?
      modifies this, slots
      ensures Valid()
      ensures var p := FirstUnused(old(slots[..]), 0).value;
        && running == Some(p)
        && slots[..] == old(slots[..])[p := old(slots[p]).(state := Running, pid := old(nextPid),
             pgdir := kernelPgdir, next := p, name := "Monitor")]
        && nextPid == old(nextPid) + 1
    {
      var r := FindFreeProcess();
      var p := r.value;
      var pid := GetNextPid();
      slots[p] := slots[p].(state := Running, pid := pid, pgdir := kernelPgdir, next := p, name := "Monitor");
      running := Some(p);
    }

    /** The parts of the current state that process_create's outcome is stated against. */
    ghost function Snapshot(): Prior
      reads this, slots, heap
    {
      Prior(slots[..], nextPid, stackWords, heap.headers, heap.calls, heap.intervals)
    }

    /**
     * The name block could not be allocated: kmalloc's allocation `a1` gave
     * no block and left the list as it says, the slot's name pointer is NULL,
     * and nothing else changed.
     */
    ghost predicate NameFailed(b: Prior, p: nat, a1: KHeap.AllocResult)
      requires slots.Length == MAX_PROCESSES && |b.slots| == MAX_PROCESSES && p < MAX_PROCESSES
      reads this, slots, heap
    {
      && !KHeap.Granted(a1) && heap.intervals == a1.list
      && nextPid == b.nextPid && slots[..] == b.slots[p := Unnamed(b.slots[p])] && stackWords == b.stackWords
      && heap.headers == b.headers && heap.calls == b.calls
    }

    /**
     * The slot was named with the block of kmalloc's allocation `a1`, made
     * `READY` and given the next pid.
     */
    ghost predicate Admitted(b: Prior, p: nat, name: seq<char>, pagedir: u32, a1: KHeap.AllocResult)
      requires slots.Length == MAX_PROCESSES && |b.slots| == MAX_PROCESSES && p < MAX_PROCESSES
      reads this, slots
    {
      && KHeap.Granted(a1) && NameHeader(slots[p]) == a1.block.value
      && nextPid == b.nextPid + 1
      && slots[..] == b.slots[p := Named(b.slots[p], name, slots[p].nameAddr, pagedir, b.nextPid)]
      && stackWords == b.stackWords
    }

    /**
     * The stack allocation `a2` gave no block: the slot stays named, `READY`
     * and outside the ring, and its name block went back through kfree.
     */
    ghost predicate StackFailed(b: Prior, p: nat, name: seq<char>, pagedir: u32, a1: KHeap.AllocResult, a2: KHeap.AllocResult)
      requires slots.Length == MAX_PROCESSES && |b.slots| == MAX_PROCESSES && p < MAX_PROCESSES
      requires NameRequest(name, false) + KHeap.HEADER_SIZE < U32_LIMIT
      reads this, slots, heap
    {
      && Admitted(b, p, name, pagedir, a1)
      && !KHeap.Granted(a2)
      && NameHeader(slots[p]) + NameRequest(name, false) + KHeap.HEADER_SIZE < U32_LIMIT
      && heap.intervals == KHeap.Freed(a2.list, b.calls, NameHeader(slots[p]),
                                       NameHeader(slots[p]) + NameRequest(name, false) + KHeap.HEADER_SIZE)
      && heap.headers == KHeap.NodeWritten(b.headers[NameHeader(slots[p]) := KHeap.UsedHeader(KHeap.KMALLOC_MAGIC, NameRequest(name, false))],
                                           a2.list, NameHeader(slots[p]),
                                           NameHeader(slots[p]) + NameRequest(name, false) + KHeap.HEADER_SIZE)
      && heap.calls == KfreeCalls(b.calls)
      && KHeap.Free(heap.intervals) <= KHeap.Free(b.intervals)
    }

    /** The block of the stack allocation `a2` lies at or above 128 MiB, failing the kassert, with both blocks taken. */
    ghost predicate AboveLimit(b: Prior, p: nat, name: seq<char>, pagedir: u32, a1: KHeap.AllocResult, a2: KHeap.AllocResult)
      requires slots.Length == MAX_PROCESSES && |b.slots| == MAX_PROCESSES && p < MAX_PROCESSES
      requires NameRequest(name, false) + KHeap.HEADER_SIZE < U32_LIMIT
      reads this, slots, heap
    {
      && Admitted(b, p, name, pagedir, a1)
      && KHeap.Granted(a2) && a2.block.value + KHeap.HEADER_SIZE >= STACK_LIMIT
      && heap.intervals == a2.list
      && heap.headers == b.headers[NameHeader(slots[p]) := KHeap.UsedHeader(KHeap.KMALLOC_MAGIC, NameRequest(name, false))]
                                  [a2.block.value := KHeap.UsedHeader(KHeap.KMALLOC_MAGIC, stackSize)]
      && heap.calls == b.calls
      && KHeap.Free(heap.intervals) <= KHeap.Free(b.intervals) - (NameRequest(name, false) + KHeap.HEADER_SIZE) - (stackSize + KHeap.HEADER_SIZE)
    }

    /**
     * The process was created: the slot is `READY` with a pid above every
     * other, starts with `esp == ebp` just below the five words pushed for
     * `iret`, follows the running slot `rp` in the ring, and owns the blocks
     * of the allocations `a1` and `a2`; every other slot but the running one
     * is unchanged.
     */
    ghost predicate Launched(b: Prior, p: nat, rp: nat, name: seq<char>, entry: u32, pagedir: u32,
                             a1: KHeap.AllocResult, a2: KHeap.AllocResult)
      requires slots.Length == MAX_PROCESSES && |b.slots| == MAX_PROCESSES && p < MAX_PROCESSES && rp < MAX_PROCESSES
      requires NameRequest(name, false) + KHeap.HEADER_SIZE < U32_LIMIT
      reads this, slots, heap
    {
      var esp := slots[p].regs.esp;
      var named := Named(b.slots[p], name, slots[p].nameAddr, pagedir, b.nextPid);
      && KHeap.Granted(a1) && NameHeader(slots[p]) == a1.block.value
      && KHeap.Granted(a2) && StackHeader(esp, stackSize) == a2.block.value
      && heap.intervals == a2.list
      && nextPid == b.nextPid + 1
      && slots[p] == named.(regs := named.regs.(esp := esp, ebp := esp), next := if p == rp then p else b.slots[rp].next)
      && (p != rp ==> slots[rp] == b.slots[rp].(next := p))
      && (forall k :: 0 <= k < MAX_PROCESSES && k != p && k != rp ==> slots[k] == b.slots[k])
      && (forall k :: 0 <= k < MAX_PROCESSES && k != p ==> slots[k].pid < slots[p].pid)
      && stackWords == b.stackWords + InitialFrame(esp + 16, entry)
      && heap.headers == b.headers[NameHeader(slots[p]) := KHeap.UsedHeader(KHeap.KMALLOC_MAGIC, NameRequest(name, false))]
                                  [StackHeader(esp, stackSize) := KHeap.UsedHeader(KHeap.KMALLOC_MAGIC, stackSize)]
      && heap.calls == b.calls
      && KHeap.Free(heap.intervals) <= KHeap.Free(b.intervals) - (NameRequest(name, false) + KHeap.HEADER_SIZE) - (stackSize + KHeap.HEADER_SIZE)
    }

    /**
     * What process_create leaves behind for the free slot `p`, from the state
     * `b` before it, with `rp` the running slot (the name block counting the
     * NUL and the initial frame below the stack top): -E_OUTOFMEMORY when
     * either block cannot be allocated, the kassert failure, or the created
     * process. The name block comes from kmalloc on the free list in `b`, the
     * stack from kmalloc on the list the name block leaves.
     */
    ghost predicate CreateOutcome(b: Prior, p: nat, rp: nat, name: seq<char>, entry: u32, pagedir: u32, r: CreateResult)
      requires slots.Length == MAX_PROCESSES && |b.slots| == MAX_PROCESSES && p < MAX_PROCESSES && rp < MAX_PROCESSES
      requires NameRequest(name, false) + KHeap.HEADER_SIZE < U32_LIMIT
      reads this, slots, heap
    {
      var a1 := NameAlloc(b, name);
      var a2 := KHeap.KmallocAlloc(a1.list, stackSize);
      && r != ProcessLimitReached
      && (r == OutOfMemory ==> NameFailed(b, p, a1) || StackFailed(b, p, name, pagedir, a1, a2))
      && (r == StackAboveLimit ==> AboveLimit(b, p, name, pagedir, a1, a2))
      && (r == Created ==> Launched(b, p, rp, name, entry, pagedir, a1, a2))
    }

    /**
     * process_create, corrected as `CreateOutcome` describes:
     * -E_PROCESSLIMITREACHED exactly when no slot is `UNUSED`, changing
     * nothing; otherwise the outcome for the first free slot.
     */
    method ProcessCreate(name: seq<char>, entry: u32, pagedir: u32) returns (r: CreateResult)
      requires Valid() && running.Some?
      requires NameRequest(name, false) + KHeap.HEADER_SIZE < U32_LIMIT
      modifies this, slots, heap
      ensures Valid() && running == old(running) && cr3 == old(cr3) && userBytes == old(userBytes)
      ensures r == ProcessLimitReached <==> old(FirstUnused(slots[..], 0)).None?
      ensures r == ProcessLimitReached ==> Snapshot() == old(Snapshot())
      ensures r != ProcessLimitReached ==>
        CreateOutcome(old(Snapshot()), old(FirstUnused(slots[..], 0)).value, old(running).value, name, entry, pagedir, r)
    {
      var found := FindFreeProcess();
      if found.None? {
        return ProcessLimitReached;
      }
      r := CreateIn(found.value, name, entry, pagedir);
    }

    /** process_create once slot `p` has been found free: the name block, the pid, then the stack. */
    method CreateIn(p: nat, name: seq<char>, entry: u32, pagedir: u32) returns (r: CreateResult)
      requires Valid() && running.Some? && p < MAX_PROCESSES
      requires NameRequest(name, false) + KHeap.HEADER_SIZE < U32_LIMIT
      modifies this, slots, heap
      ensures Valid() && running == old(running) && cr3 == old(cr3) && userBytes == old(userBytes)
      ensures CreateOutcome(old(Snapshot()), p, old(running).value, name, entry, pagedir, r)
    {
      ghost var b := Snapshot();
      ghost var a1 := NameAlloc(b, name);
      var nameAddr := heap.Kmalloc(NameRequest(name, false));
      assert heap.intervals == a1.list && (nameAddr.Some? <==> KHeap.Granted(a1));
      if nameAddr.None? {
        slots[p] := Unnamed(slots[p]);
        return OutOfMemory;
      }
      var pid := GetNextPid();
      slots[p] := Named(slots[p], name, nameAddr.value, pagedir, pid);
      r := StartStack(p, nameAddr.value, entry, b, name, pagedir, a1);
    }

    /**
     * The rest of process_create for the slot `p`, named with the block of
     * the allocation `a1` and `READY`, from the state `b` before
     * process_create: allocate the kernel stack, giving the name block back
     * if that fails, then start the process.
     */
    method StartStack(p: nat, nameAddr: u32, entry: u32, ghost b: Prior, ghost name: seq<char>, ghost pagedir: u32,
                      ghost a1: KHeap.AllocResult)
      returns (r: CreateResult)
      requires Valid() && running.Some? && p < MAX_PROCESSES && |b.slots| == MAX_PROCESSES
      requires PidsBelow(b.slots, b.nextPid) && b.nextPid >= 1
      requires NameRequest(name, false) + KHeap.HEADER_SIZE < U32_LIMIT
      requires slots[p].nameAddr == nameAddr && Admitted(b, p, name, pagedir, a1)
      requires heap.headers == b.headers[NameHeader(slots[p]) := KHeap.UsedHeader(KHeap.KMALLOC_MAGIC, NameRequest(name, false))]
      requires NameHeader(slots[p]) + NameRequest(name, false) + KHeap.HEADER_SIZE < U32_LIMIT
      requires heap.calls == b.calls && heap.intervals == a1.list
      requires KHeap.Free(heap.intervals) <= KHeap.Free(b.intervals) - (NameRequest(name, false) + KHeap.HEADER_SIZE)
      modifies this, slots, heap
      ensures Valid() && running == old(running) && cr3 == old(cr3) && userBytes == old(userBytes)
      ensures r == OutOfMemory || r == StackAboveLimit || r == Created
      ensures r == OutOfMemory ==> StackFailed(b, p, name, pagedir, a1, KHeap.KmallocAlloc(a1.list, stackSize))
      ensures r == StackAboveLimit ==> AboveLimit(b, p, name, pagedir, a1, KHeap.KmallocAlloc(a1.list, stackSize))
      ensures r == Created ==> Launched(b, p, old(running).value, name, entry, pagedir, a1, KHeap.KmallocAlloc(a1.list, stackSize))
    {
      ghost var a2 := KHeap.KmallocAlloc(a1.list, stackSize);
      var stack := heap.Kmalloc(stackSize);
      assert heap.intervals == a2.list && (stack.Some? <==> KHeap.Granted(a2));
      assert stack.Some? ==> Wrap32(stack.value - KHeap.HEADER_SIZE) == a2.block.value;
      if stack.None? {
        ReleaseName(p, nameAddr, b, name, pagedir, a1, a2);
        return OutOfMemory;
      }
      r := PlaceStack(p, stack.value, entry, b, name, pagedir, a1, a2);
    }

    /** `kfree(p->name)`, once the stack allocation `a2` gave no block. */
    method ReleaseName(p: nat, nameAddr: u32, ghost b: Prior, ghost name: seq<char>, ghost pagedir: u32,
                       ghost a1: KHeap.AllocResult, ghost a2: KHeap.AllocResult)
      requires Valid() && p < MAX_PROCESSES && |b.slots| == MAX_PROCESSES
      requires NameRequest(name, false) + KHeap.HEADER_SIZE < U32_LIMIT
      requires slots[p].nameAddr == nameAddr && Admitted(b, p, name, pagedir, a1)
      requires heap.headers == b.headers[NameHeader(slots[p]) := KHeap.UsedHeader(KHeap.KMALLOC_MAGIC, NameRequest(name, false))]
      requires NameHeader(slots[p]) + NameRequest(name, false) + KHeap.HEADER_SIZE < U32_LIMIT
      requires heap.calls == b.calls
      requires !KHeap.Granted(a2) && heap.intervals == a2.list
      requires KHeap.Free(heap.intervals) <= KHeap.Free(b.intervals) - (NameRequest(name, false) + KHeap.HEADER_SIZE)
      modifies heap
      ensures Valid() && StackFailed(b, p, name, pagedir, a1, a2)
    {
      heap.Kfree(nameAddr);
    }

    /** process_create's `kassert` on the stack block of the allocation `a2`, then the start of the process. */
    method PlaceStack(p: nat, stack: u32, entry: u32, ghost b: Prior, ghost name: seq<char>, ghost pagedir: u32,
                      ghost a1: KHeap.AllocResult, ghost a2: KHeap.AllocResult)
      returns (r: CreateResult)
      requires Valid() && running.Some? && p < MAX_PROCESSES && |b.slots| == MAX_PROCESSES
      requires PidsBelow(b.slots, b.nextPid) && b.nextPid >= 1
      requires NameRequest(name, false) + KHeap.HEADER_SIZE < U32_LIMIT
      requires Admitted(b, p, name, pagedir, a1)
      requires heap.headers == b.headers[NameHeader(slots[p]) := KHeap.UsedHeader(KHeap.KMALLOC_MAGIC, NameRequest(name, false))]
                                        [Wrap32(stack - KHeap.HEADER_SIZE) := KHeap.UsedHeader(KHeap.KMALLOC_MAGIC, stackSize)]
      requires Wrap32(stack - KHeap.HEADER_SIZE) + stackSize + KHeap.HEADER_SIZE < U32_LIMIT
      requires heap.calls == b.calls
      requires KHeap.Granted(a2) && heap.intervals == a2.list && Wrap32(stack - KHeap.HEADER_SIZE) == a2.block.value
      requires KHeap.Free(heap.intervals) <= KHeap.Free(b.intervals) - (NameRequest(name, false) + KHeap.HEADER_SIZE) - (stackSize + KHeap.HEADER_SIZE)
      modifies this, slots
      ensures Valid() && running == old(running) && cr3 == old(cr3) && userBytes == old(userBytes)
      ensures r == StackAboveLimit || r == Created
      ensures r == StackAboveLimit ==> AboveLimit(b, p, name, pagedir, a1, a2)
      ensures r == Created ==> Launched(b, p, old(running).value, name, entry, pagedir, a1, a2)
    {
      BlockEnd(stack, stackSize);
      if stack >= STACK_LIMIT {
        assert a2.block.value + KHeap.HEADER_SIZE == stack;
        return StackAboveLimit;
      }
      Launch(p, stack, entry, b, name, pagedir, a1, a2);
      r := Created;
    }

    /** The end of process_create, once its stack is below 128 MiB: seed the stack and link the slot in. */
    method Launch(p: nat, stack: u32, entry: u32, ghost b: Prior, ghost name: seq<char>, ghost pagedir: u32,
                  ghost a1: KHeap.AllocResult, ghost a2: KHeap.AllocResult)
      requires Valid() && running.Some? && p < MAX_PROCESSES && |b.slots| == MAX_PROCESSES
      requires PidsBelow(b.slots, b.nextPid) && b.nextPid >= 1
      requires NameRequest(name, false) + KHeap.HEADER_SIZE < U32_LIMIT
      requires stack < STACK_LIMIT && stack + stackSize < U32_LIMIT
      requires Admitted(b, p, name, pagedir, a1)
      requires heap.headers == b.headers[NameHeader(slots[p]) := KHeap.UsedHeader(KHeap.KMALLOC_MAGIC, NameRequest(name, false))]
                                        [Wrap32(stack - KHeap.HEADER_SIZE) := KHeap.UsedHeader(KHeap.KMALLOC_MAGIC, stackSize)]
      requires heap.calls == b.calls
      requires KHeap.Granted(a2) && heap.intervals == a2.list && Wrap32(stack - KHeap.HEADER_SIZE) == a2.block.value
      requires KHeap.Free(heap.intervals) <= KHeap.Free(b.intervals) - (NameRequest(name, false) + KHeap.HEADER_SIZE) - (stackSize + KHeap.HEADER_SIZE)
      modifies this, slots
      ensures Valid() && running == old(running) && cr3 == old(cr3) && userBytes == old(userBytes)
      ensures Launched(b, p, running.value, name, entry, pagedir, a1, a2)
    {
      ghost var named := slots[p];
      SeedStack(p, stack, entry);
      assert StackHeader(slots[p].regs.esp, stackSize) == Wrap32(stack - KHeap.HEADER_SIZE);
      LinkAfterRunning(p);
      assert NameHeader(slots[p]) == NameHeader(named);
    }

    /** The stack part of process_create: push the `iret` frame and point `esp` and `ebp` below it. */
    method SeedStack(p: nat, stack: u32, entry: u32)
      requires Valid() && p < MAX_PROCESSES && stack < STACK_LIMIT && stack + stackSize < U32_LIMIT
      modifies this, slots
      ensures Valid() && running == old(running) && nextPid == old(nextPid) && cr3 == old(cr3)
      ensures userBytes == old(userBytes)
      ensures var top := StackTop(stack, stackSize, false);
        && stackWords == old(stackWords) + InitialFrame(top, entry)
        && slots[..] == old(slots[..])[p := old(slots[p]).(regs := old(slots[p]).regs.(esp := top - 16, ebp := top - 16))]
    {
      var top := StackTop(stack, stackSize, false);
      stackWords := stackWords + InitialFrame(top, entry);
      slots[p] := slots[p].(regs := slots[p].regs.(esp := top - 16, ebp := top - 16));
    }

    /** `p->next = running_proc->next; running_proc->next = p;` */
    method LinkAfterRunning(p: nat)
      requires Valid() && running.Some? && p < MAX_PROCESSES
      modifies slots
      ensures Valid()
      ensures var rp := running.value;
        var s1 := old(slots[..])[p := old(slots[p]).(next := old(slots[rp].next))];
        slots[..] == s1[rp := s1[rp].(next := p)]
    {
      var rp := running.value;
      slots[p] := slots[p].(next := slots[rp].next);
      slots[rp] := slots[rp].(next := p);
    }

    /**
     * scheduler: the switch of `Schedule` on the table and the frame, and a
     * `paging_load` of the new directory only when it differs from the old
     * process's.
     */
    method Scheduler(frame: IntFrame) returns (frame': IntFrame)
      requires Valid() && running.Some?
      modifies this, slots
      ensures Valid() && nextPid == old(nextPid) && stackWords == old(stackWords) && userBytes == old(userBytes)
      ensures var sw := Schedule(old(slots[..]), old(running).value, frame);
        && slots[..] == sw.slots && running == Some(sw.running) && frame' == sw.frame
      ensures var o := old(running).value;
        cr3 == (if slots[o].pgdir != slots[running.value].pgdir then slots[running.value].pgdir else old(cr3))
    {
      var o := running.value;
      if slots[o].next == o {
        return frame;
      }
      var n := FreeDeadFrom(slots[o].next);
      frame' := SwitchTo(o, n, frame);
    }

    /** The scheduler's hand-over from slot `o` to slot `n`, once dead slots are freed. */
    method SwitchTo(o: nat, n: nat, frame: IntFrame) returns (frame': IntFrame)
      requires Valid() && o < MAX_PROCESSES && n < MAX_PROCESSES && running == Some(o)
      modifies this, slots
      ensures Valid() && nextPid == old(nextPid) && stackWords == old(stackWords) && userBytes == old(userBytes)
      ensures var s2 := old(slots[..])[o := old(slots[o]).(next := n)];
        var s3 := if s2[o].state == Running then s2[o := s2[o].(state := Ready)] else s2;
        var s4 := s3[n := s3[n].(state := Running)];
        && slots[..] == s4[o := s4[o].(regs := SaveRegisters(frame))]
        && running == Some(n) && frame' == LoadRegisters(frame, slots[n].regs)
      ensures cr3 == (if slots[o].pgdir != slots[n].pgdir then slots[n].pgdir else old(cr3))
    {
      slots[o] := slots[o].(next := n);
      if slots[o].state == Running {
        slots[o] := slots[o].(state := Ready);
      }
      slots[n] := slots[n].(state := Running);
      slots[o] := slots[o].(regs := SaveRegisters(frame));
      frame' := LoadRegisters(frame, slots[n].regs);
      running := Some(n);
      if slots[o].pgdir != slots[n].pgdir {
        cr3 := slots[n].pgdir;
      }
    }

    /** The scheduler's loop over dead successors, from slot `n`. */
    method FreeDeadFrom(n: nat) returns (n': nat)
      requires Valid() && n < MAX_PROCESSES
      modifies slots
      ensures Valid()
      ensures (slots[..], n') == SkipDead(old(slots[..]), n)
    {
      n' := n;
      while slots[n'].state == Dead
        invariant n' < MAX_PROCESSES && Valid()
        invariant SkipDead(slots[..], n') == SkipDead(old(slots[..]), n)
        decreases DeadCount(slots[..])
      {
        var next := slots[n'].next;
        FreeDeadStep(slots[..], n', nextPid);
        slots[n'] := slots[n'].(state := Unused);
        n' := next;
      }
    }

    /**
     * execv: load the image through the new directory, restore the old one,
     * report `E_NOTELF` for an entry point of 0, and otherwise create the
     * process. `pagedir` is the result of pgdir_create.
     */
    method Execv(name: seq<char>, binary: seq<u8>, pagedir: u32) returns (r: ExecResult)
      requires Valid() && running.Some? && Loadable(binary)
      requires NameRequest(name, false) + KHeap.HEADER_SIZE < U32_LIMIT
      modifies this, slots, heap
      ensures Valid() && cr3 == old(cr3)
      ensures Magic(binary) != ELF_MAGIC ==> r == NotElf && userBytes == old(userBytes)
      ensures Magic(binary) == ELF_MAGIC ==> userBytes == LoadAll(old(userBytes), binary, ProgHeaders(binary))
      ensures r == NotElf <==> Magic(binary) != ELF_MAGIC || Entry(binary) == 0
      ensures running == old(running)
      ensures r == NotElf ==> Snapshot() == old(Snapshot())
      ensures r == Exec(ProcessLimitReached) <==> r != NotElf && old(FirstUnused(slots[..], 0)).None?
      ensures r == Exec(ProcessLimitReached) ==> Snapshot() == old(Snapshot())
      ensures r.Exec? && r.create != ProcessLimitReached ==>
        CreateOutcome(old(Snapshot()), old(FirstUnused(slots[..], 0)).value, old(running).value, name, Entry(binary), pagedir, r.create)
    {
      var current := cr3;
      cr3 := pagedir;
      var entry;
      entry, userBytes := LoadElf(binary, userBytes);
      cr3 := current;
      assert Snapshot() == old(Snapshot());
      if entry == 0 {
        return NotElf;
      }
      var created := ProcessCreate(name, entry, pagedir);
      r := Exec(created);
    }
  }
}
