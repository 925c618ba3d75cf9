/**
 * The global descriptor table and the interrupt descriptor table: the
 * packing of segment descriptors and interrupt gates into their fields
 * (Intel SDM Vol. 3A, section 3.4.5 "Segment Descriptors" and section 6.11
 * "IDT Descriptors"), the flat four-segment GDT, the 256-gate IDT and the
 * first-level interrupt handler that separates exceptions from device
 * interrupts.
 */
module DescriptorTables {
  import opened Common
  import opened Arith
  import opened IntVectors

  const GDT_ENTRIES: int := 5
  const IDT_ENTRIES: int := 256
  /** Byte sizes of the packed structures: 2+2+1+1+1+1, 2+2+1+1+2 and 2+4. */
  const GDT_ENTRY_SIZE: int := 2 + 2 + 1 + 1 + 1 + 1
  const IDT_ENTRY_SIZE: int := 2 + 2 + 1 + 1 + 2
  const IDT_DESC_SIZE: int := 2 + 4
  const KERNEL_CODE_SELECTOR: int := 0x08
  const INTERRUPT_GATE_TYPE: int := 0x8E
  const PAGE_FAULT: int := 14

  /** `gdt_entry_t`, in its packed field order. */
  datatype GdtEntry = GdtEntry(limitLow: u16, baseLow: u16, baseMiddle: u8, access: u8, granularity: u8, baseHigh: u8)

  /** `idt_entry_t`, in its packed field order. */
  datatype IdtEntry = IdtEntry(offsetLow: u16, selector: u16, zero: u8, typeAttr: u8, offsetHigh: u16)

  /** The segment base a descriptor encodes. */
  function BaseOf(e: GdtEntry): int
  {
    e.baseLow + 0x1_0000 * e.baseMiddle + 0x100_0000 * e.baseHigh
  }

  /** The 20-bit segment limit a descriptor encodes. */
  function Limit20(e: GdtEntry): int
  {
    e.limitLow + 0x1_0000 * (e.granularity % 0x10)
  }

  /** The limit in bytes: with the granularity flag (bit 7) set the limit counts 4 KiB units. */
  function EffectiveLimit(e: GdtEntry): int
  {
    if e.granularity / 0x80 == 1 then Limit20(e) * 0x1000 + 0xFFF else Limit20(e)
  }

  /** The descriptor privilege level, bits 5 and 6 of the access byte. */
  function Dpl(e: GdtEntry): int
  {
    (e.access / 0x20) % 4
  }

  /** Present (bit 7), a code or data segment (bit 4), and executable (bit 3). */
  predicate Present(e: GdtEntry) { e.access / 0x80 == 1 }
  predicate CodeOrData(e: GdtEntry) { (e.access / 0x10) % 2 == 1 }
  predicate Executable(e: GdtEntry) { (e.access / 0x8) % 2 == 1 }

  /**
   * gdt_set_gate's packing: the base split over three fields, limit bits
   * 0-15 in `limit_low` and bits 16-19 in the low nibble of `granularity`,
   * whose high nibble is the flag nibble of `gran`.
   */
  function GdtGate(base: u32, limit: u32, access: u8, gran: u8): GdtEntry
  {
    GranularitySplit(limit, gran);
    GdtEntry(limit % 0x1_0000, base % 0x1_0000, (base / 0x1_0000) % 0x100, access,
      (limit / 0x1_0000) % 0x10 + (gran / 0x10) * 0x10, (base / 0x100_0000) % 0x100)
  }

  /**
   * Base, limit, flags and access byte are recoverable from a packed
   * descriptor: the base whole, the limit's low 20 bits, the flag nibble.
   */
  lemma GateFields(base: u32, limit: u32, access: u8, gran: u8)
    ensures var e := GdtGate(base, limit, access, gran);
      && BaseOf(e) == base
      && Limit20(e) == limit % 0x10_0000
      && e.granularity / 0x10 == gran / 0x10 && e.access == access
  {
    BaseSplit(base);
    LimitSplit(limit);
    GranularitySplit(limit, gran);
  }

  lemma BaseSplit(base: u32)
    ensures base % 0x1_0000 + 0x1_0000 * ((base / 0x1_0000) % 0x100) + 0x100_0000 * ((base / 0x100_0000) % 0x100) == base
  {
    var lo, m := base % 0x1_0000, base / 0x1_0000;
    var mid, top := m % 0x100, m / 0x100;
    assert base == lo + 0x1_0000 * mid + 0x100_0000 * top;
    DivModUnique(base, 0x100_0000, top, lo + 0x1_0000 * mid);
  }

  lemma LimitSplit(limit: u32)
    ensures limit % 0x1_0000 + 0x1_0000 * ((limit / 0x1_0000) % 0x10) == limit % 0x10_0000
  {
    var lo, m := limit % 0x1_0000, limit / 0x1_0000;
    assert limit == lo + 0x1_0000 * (m % 0x10) + 0x10_0000 * (m / 0x10);
    DivModUnique(limit, 0x10_0000, m / 0x10, lo + 0x1_0000 * (m % 0x10));
  }

  lemma GranularitySplit(limit: u32, gran: u8)
    ensures var g := (limit / 0x1_0000) % 0x10 + (gran / 0x10) * 0x10;
      0 <= g < 0x100 && g % 0x10 == (limit / 0x1_0000) % 0x10 && g / 0x10 == gran / 0x10
  {
    var low := (limit / 0x1_0000) % 0x10;
    DivModUnique(low + (gran / 0x10) * 0x10, 0x10, gran / 0x10, low);
  }

  /** The limit, access byte and flags of the five descriptors init_gdt installs, all with base 0. */
  const GDT_LIMIT: seq<u32> := [0, 0xFFFF_FFFF, 0xFFFF_FFFF, 0xFFFF_FFFF, 0xFFFF_FFFF]
  const GDT_ACCESS: seq<u8> := [0, 0x9A, 0x92, 0xFA, 0xF2]
  const GDT_GRAN: seq<u8> := [0, 0xCF, 0xCF, 0xCF, 0xCF]

  /** Descriptor `k` as init_gdt writes it. */
  function LayoutGate(k: int): GdtEntry
    requires 0 <= k < GDT_ENTRIES
  {
    GdtGate(0, GDT_LIMIT[k], GDT_ACCESS[k], GDT_GRAN[k])
  }

  /** Descriptor 0 is the null descriptor: every field zero. */
  lemma NullSegment()
    ensures LayoutGate(0) == GdtEntry(0, 0, 0, 0, 0, 0)
  {
    assert GDT_LIMIT[0] == 0 && GDT_ACCESS[0] == 0 && GDT_GRAN[0] == 0;
  }

  /**
   * The flat memory model: every descriptor after the null one is present,
   * starts at 0 and spans the whole 4 GiB address space; descriptors 1 and
   * 2 are kernel code and data (privilege 0), 3 and 4 user code and data
   * (privilege 3).
   */
  lemma FlatSegments(k: int)
    requires 1 <= k < GDT_ENTRIES
    ensures Present(LayoutGate(k)) && CodeOrData(LayoutGate(k))
    ensures BaseOf(LayoutGate(k)) == 0 && EffectiveLimit(LayoutGate(k)) == 0xFFFF_FFFF
    ensures Dpl(LayoutGate(k)) == (if k <= 2 then 0 else 3)
    ensures Executable(LayoutGate(k)) == (k % 2 == 1)
  {
    assert GDT_LIMIT[k] == 0xFFFF_FFFF && GDT_GRAN[k] == 0xCF;
    DivModUnique(GDT_LIMIT[k], 0x10_0000, 0xFFF, 0xF_FFFF);
    FlatGate(GDT_LIMIT[k], GDT_ACCESS[k], GDT_GRAN[k]);
    AccessBits(k);
  }

  /** The access bytes 0x9A, 0x92, 0xFA and 0xF2, bit by bit. */
  lemma AccessBits(k: int)
    requires 1 <= k < GDT_ENTRIES
    ensures var a := GDT_ACCESS[k];
      && a / 0x80 == 1 && (a / 0x10) % 2 == 1
      && (a / 0x20) % 4 == (if k <= 2 then 0 else 3)
      && ((a / 0x8) % 2 == 1) == (k % 2 == 1)
  {
    if k == 1 {
      assert GDT_ACCESS[k] == 0x9A;
    } else if k == 2 {
      assert GDT_ACCESS[k] == 0x92;
    } else if k == 3 {
      assert GDT_ACCESS[k] == 0xFA;
    } else {
      assert GDT_ACCESS[k] == 0xF2;
    }
  }

  /** A base-0 descriptor with a full 20-bit limit and the 4 KiB granularity flag spans 4 GiB. */
  lemma FlatGate(limit: u32, access: u8, gran: u8)
    requires limit % 0x10_0000 == 0xF_FFFF && gran / 0x10 == 0xC
    ensures var e := GdtGate(0, limit, access, gran);
      && BaseOf(e) == 0 && EffectiveLimit(e) == 0xFFFF_FFFF && e.access == access
  {
    GateFields(0, limit, access, gran);
    var e := GdtGate(0, limit, access, gran);
    DivModUnique(e.granularity, 0x80, 1, e.granularity - 0x80);
  }

  /**
   * set_idt_gate: the handler address is split into its low and high
   * halves and the reserved byte is zero.
   */
  function IdtGate(selector: u16, typeAttr: u8, isr: u32): (e: IdtEntry)
    ensures e.offsetLow + 0x1_0000 * e.offsetHigh == isr
    ensures e.selector == selector && e.typeAttr == typeAttr && e.zero == 0
  {
    IdtEntry(isr % 0x1_0000, selector, 0, typeAttr, (isr / 0x1_0000) % 0x1_0000)
  }

  /**
   * Type byte 0x8E is a present 32-bit interrupt gate of privilege 0: bit 7
   * present, bits 5-6 the privilege, low nibble 0xE.
   */
  lemma InterruptGateType()
    ensures INTERRUPT_GATE_TYPE / 0x80 == 1 && (INTERRUPT_GATE_TYPE / 0x20) % 4 == 0
    ensures INTERRUPT_GATE_TYPE % 0x10 == 0xE
  {
  }

  /** What interrupt_handler does with a frame. */
  datatype HandlerAction =
    | Reported(number: int, message: string, halts: bool)  // an exception report, `number` from the counter
    | Dispatched(vector: u32)                              // dispatch_irq, then pic_ack(vector)

  class Tables {
    const gdt: array<GdtEntry>
    const idt: array<IdtEntry>
    /** `gdt_ptr` and `idt_desc`: the table's size less one, and its address. */
    var gdtLimit: int
    var gdtBase: u32
    var idtSize: int
    var idtBase: u32
    /** interrupt_handler's report counter. */
    var count: int

    ghost predicate Valid()
      reads this
    {
      gdt.Length == GDT_ENTRIES && idt.Length == IDT_ENTRIES && count >= 0
    }

    /** The zeroed tables. */
    constructor ()
      ensures Valid() && count == 0 && fresh(gdt) && fresh(idt)
    {
      gdt := new GdtEntry[GDT_ENTRIES](_ => GdtEntry(0, 0, 0, 0, 0, 0));
      idt := new IdtEntry[IDT_ENTRIES](_ => IdtEntry(0, 0, 0, 0, 0));
      gdtLimit, gdtBase, idtSize, idtBase, count := 0, 0, 0, 0, 0;
    }

    /** gdt_set_gate: only descriptor `num` changes. */
    method GdtSetGate(num: int, base: u32, limit: u32, access: u8, gran: u8)
      requires Valid() && 0 <= num < GDT_ENTRIES
      modifies gdt
      ensures gdt[num] == GdtGate(base, limit, access, gran)
      ensures forall k :: 0 <= k < GDT_ENTRIES && k != num ==> gdt[k] == old(gdt[k])
    {
      gdt[num] := GdtGate(base, limit, access, gran);
    }

    /** init_gdt, given the table's address: the five flat descriptors, limit 39. */
    method InitGdt(address: u32)
      requires Valid()
      modifies this, gdt
      ensures Valid() && count == old(count) && idtSize == old(idtSize) && idtBase == old(idtBase)
      ensures gdtLimit == GDT_ENTRY_SIZE * GDT_ENTRIES - 1 == 39 && gdtBase == address
      ensures forall k :: 0 <= k < GDT_ENTRIES ==> gdt[k] == LayoutGate(k)
    {
      gdtLimit := GDT_ENTRY_SIZE * GDT_ENTRIES - 1;
      gdtBase := address;
      GdtSetGate(0, 0, GDT_LIMIT[0], GDT_ACCESS[0], GDT_GRAN[0]);
      GdtSetGate(1, 0, GDT_LIMIT[1], GDT_ACCESS[1], GDT_GRAN[1]);
      GdtSetGate(2, 0, GDT_LIMIT[2], GDT_ACCESS[2], GDT_GRAN[2]);
      GdtSetGate(3, 0, GDT_LIMIT[3], GDT_ACCESS[3], GDT_GRAN[3]);
      GdtSetGate(4, 0, GDT_LIMIT[4], GDT_ACCESS[4], GDT_GRAN[4]);
    }

    /**
     * init_idt, given the table's address and the 256 stub addresses: its
     * size checks hold, and every vector gets a kernel-code interrupt gate
     * to its own stub; size 2047.
     */
    method InitIdt(address: u32, handlers: seq<u32>)
      requires Valid() && |handlers| == IDT_ENTRIES
      modifies this, idt
      ensures Valid() && count == old(count) && gdtLimit == old(gdtLimit) && gdtBase == old(gdtBase)
      ensures idtSize == IDT_ENTRY_SIZE * IDT_ENTRIES - 1 == 2047 && idtBase == address
      ensures forall i :: 0 <= i < IDT_ENTRIES ==> idt[i] == IdtGate(KERNEL_CODE_SELECTOR, INTERRUPT_GATE_TYPE, handlers[i])
    {
      assert IDT_ENTRY_SIZE == 8 && IDT_DESC_SIZE == 6;
      var i := 0;
      while i < IDT_ENTRIES
        invariant 0 <= i <= IDT_ENTRIES && unchanged(this)
        invariant forall k :: 0 <= k < i ==> idt[k] == IdtGate(KERNEL_CODE_SELECTOR, INTERRUPT_GATE_TYPE, handlers[k])
      {
        idt[i] := IdtGate(KERNEL_CODE_SELECTOR, INTERRUPT_GATE_TYPE, handlers[i]);
        i := i + 1;
      }
      idtSize := IDT_ENTRY_SIZE * IDT_ENTRIES - 1;
      idtBase := address;
    }

    /**
     * interrupt_handler: a vector below IRQ_OFFSET is an exception, reported
     * with the next counter value and its name; only a page fault halts.
     * Any other vector goes to dispatch_irq and is acknowledged.
     */
    method InterruptHandler(intNo: u32) returns (action: HandlerAction)
      requires Valid()
      modifies this
      ensures Valid()
      ensures intNo < IRQ_OFFSET <==> action.Reported?
      ensures action.Reported? ==>
        && action == Reported(old(count), ExceptionMessage(intNo), intNo == PAGE_FAULT)
        && count == old(count) + 1
      ensures action.Dispatched? ==> action.vector == intNo && count == old(count)
    {
      if intNo < IRQ_OFFSET {
        action := Reported(count, ExceptionMessage(intNo), intNo == PAGE_FAULT);
        count := count + 1;
      } else {
        action := Dispatched(intNo);
      }
    }
  }
}
