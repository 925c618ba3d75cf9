/**
 * The older kernel's driver for the two cascaded 8259A interrupt
 * controllers: initialisation remaps their 16 lines to start at a given
 * vector, and acknowledging an interrupt sends the end-of-interrupt
 * command to the controllers that raised it. Port writes are recorded in
 * order in a log; the masks read back from the data ports are parameters.
 */
module Pic {
  import opened Common

  const PIC1_COMMAND: int := 0x20
  const PIC1_DATA: int := 0x21
  const PIC2_COMMAND: int := 0xA0
  const PIC2_DATA: int := 0xA1
  /** ICW1: initialise, ICW4 follows. */
  const ICW1_INIT: int := 0x11
  /** The master's ICW3 (slave on line 2) and the slave's (its cascade identity). */
  const ICW3_MASTER: int := 0x04
  const ICW3_SLAVE: int := 0x02
  /** ICW4: 8086 mode. */
  const ICW4_8086: int := 0x01
  const PIC_EOI: int := 0x20

  datatype PortWrite = Out(port: int, value: u8)

  /** Whether pic_init accepts `offset`: the 16 vectors from it fit in 16..255. */
  predicate ValidOffset(offset: u8)
  {
    16 <= offset <= 256 - 16
  }

  /** One initialisation step: a write to a port of the master, then one to the slave's matching port. */
  function Both(masterPort: int, slavePort: int, masterValue: u8, slaveValue: u8): seq<PortWrite>
  {
    [Out(masterPort, masterValue), Out(slavePort, slaveValue)]
  }

  /** The ten writes of pic_init: the four initialisation words to both controllers, then the saved masks. */
  function InitWrites(offset: u8, mask1: u8, mask2: u8): seq<PortWrite>
    requires ValidOffset(offset)
  {
    Both(PIC1_COMMAND, PIC2_COMMAND, ICW1_INIT, ICW1_INIT)
    + Both(PIC1_DATA, PIC2_DATA, offset, offset + 8)
    + Both(PIC1_DATA, PIC2_DATA, ICW3_MASTER, ICW3_SLAVE)
    + Both(PIC1_DATA, PIC2_DATA, ICW4_8086, ICW4_8086)
    + Both(PIC1_DATA, PIC2_DATA, mask1, mask2)
  }

  /** The values written to `port`, in order. */
  function WritesTo(log: seq<PortWrite>, port: int): (vs: seq<u8>)
    ensures |vs| <= |log|
  {
    if |log| == 0 then []
    else (if log[0].port == port then [log[0].value] else []) + WritesTo(log[1..], port)
  }

  /** The writes to a port of two logs in sequence are those of the first, then those of the second. */
  lemma {:induction false} WritesToAppend(a: seq<PortWrite>, b: seq<PortWrite>, port: int)
    ensures WritesTo(a + b, port) == WritesTo(a, port) + WritesTo(b, port)
    decreases |a|
  {
    if |a| > 0 {
      var head := if a[0].port == port then [a[0].value] else [];
      assert (a + b)[0] == a[0];
      assert (a + b)[1..] == a[1..] + b;
      WritesToAppend(a[1..], b, port);
      calc {
        WritesTo(a + b, port);
        head + WritesTo(a[1..] + b, port);
        head + (WritesTo(a[1..], port) + WritesTo(b, port));
        (head + WritesTo(a[1..], port)) + WritesTo(b, port);
        WritesTo(a, port) + WritesTo(b, port);
      }
    } else {
      assert a + b == b;
    }
  }

  /** What one initialisation step sends to `port`. */
  lemma WritesToBoth(masterPort: int, slavePort: int, masterValue: u8, slaveValue: u8, port: int)
    ensures WritesTo(Both(masterPort, slavePort, masterValue, slaveValue), port)
      == (if masterPort == port then [masterValue] else []) + (if slavePort == port then [slaveValue] else [])
  {
    var b := Both(masterPort, slavePort, masterValue, slaveValue);
    assert b[1..] == [Out(slavePort, slaveValue)];
    assert b[1..][1..] == [];
  }

  /** The writes pic_init sends to `port`, step by step. */
  lemma InitWritesTo(offset: u8, mask1: u8, mask2: u8, port: int)
    requires ValidOffset(offset)
    ensures WritesTo(InitWrites(offset, mask1, mask2), port)
      == (if port == PIC1_COMMAND then [ICW1_INIT] else [])
       + (if port == PIC2_COMMAND then [ICW1_INIT] else [])
       + (if port == PIC1_DATA then [offset, ICW3_MASTER, ICW4_8086, mask1] else [])
       + (if port == PIC2_DATA then [offset + 8, ICW3_SLAVE, ICW4_8086, mask2] else [])
  {
    var b1 := Both(PIC1_COMMAND, PIC2_COMMAND, ICW1_INIT, ICW1_INIT);
    var b2 := Both(PIC1_DATA, PIC2_DATA, offset, offset + 8);
    var b3 := Both(PIC1_DATA, PIC2_DATA, ICW3_MASTER, ICW3_SLAVE);
    var b4 := Both(PIC1_DATA, PIC2_DATA, ICW4_8086, ICW4_8086);
    var b5 := Both(PIC1_DATA, PIC2_DATA, mask1, mask2);
    WritesToAppend(b1, b2, port);
    WritesToAppend(b1 + b2, b3, port);
    WritesToAppend(b1 + b2 + b3, b4, port);
    WritesToAppend(b1 + b2 + b3 + b4, b5, port);
    WritesToBoth(PIC1_COMMAND, PIC2_COMMAND, ICW1_INIT, ICW1_INIT, port);
    WritesToBoth(PIC1_DATA, PIC2_DATA, offset, offset + 8, port);
    WritesToBoth(PIC1_DATA, PIC2_DATA, ICW3_MASTER, ICW3_SLAVE, port);
    WritesToBoth(PIC1_DATA, PIC2_DATA, ICW4_8086, ICW4_8086, port);
    WritesToBoth(PIC1_DATA, PIC2_DATA, mask1, mask2, port);
  }

  /**
   * What each controller receives from pic_init: on its command port one
   * ICW1; on its data port the vector base (`offset` for the master,
   * `offset + 8` for the slave), its ICW3, its ICW4, and last the
   * interrupt mask it had before. No other port is written.
   */
  lemma InitProgramsBoth(offset: u8, mask1: u8, mask2: u8, port: int)
    requires ValidOffset(offset)
    ensures WritesTo(InitWrites(offset, mask1, mask2), PIC1_COMMAND) == [ICW1_INIT]
    ensures WritesTo(InitWrites(offset, mask1, mask2), PIC2_COMMAND) == [ICW1_INIT]
    ensures WritesTo(InitWrites(offset, mask1, mask2), PIC1_DATA) == [offset, ICW3_MASTER, ICW4_8086, mask1]
    ensures WritesTo(InitWrites(offset, mask1, mask2), PIC2_DATA) == [offset + 8, ICW3_SLAVE, ICW4_8086, mask2]
    ensures port !in {PIC1_COMMAND, PIC2_COMMAND, PIC1_DATA, PIC2_DATA} ==> WritesTo(InitWrites(offset, mask1, mask2), port) == []
  {
    InitWritesTo(offset, mask1, mask2, PIC1_COMMAND);
    InitWritesTo(offset, mask1, mask2, PIC2_COMMAND);
    InitWritesTo(offset, mask1, mask2, PIC1_DATA);
    InitWritesTo(offset, mask1, mask2, PIC2_DATA);
    InitWritesTo(offset, mask1, mask2, port);
  }

  /** The end-of-interrupt writes for vector `irq`: to the slave as well when it raised it. */
  function AckWrites(offset: u32, irq: u32): (w: seq<PortWrite>)
    ensures offset == 0 ==> w == []
    ensures offset != 0 ==> |w| >= 1 && w[|w| - 1] == Out(PIC1_COMMAND, PIC_EOI)
    ensures offset != 0 ==> (|w| == 2 <==> irq >= offset + 8) && (|w| == 1 <==> irq < offset + 8)
    ensures |w| == 2 ==> w[0] == Out(PIC2_COMMAND, PIC_EOI)
  {
    if offset == 0 then []
    else (if irq >= offset + 8 then [Out(PIC2_COMMAND, PIC_EOI)] else []) + [Out(PIC1_COMMAND, PIC_EOI)]
  }

  class Controllers {
    /** `irq_offset`: 0 until pic_init succeeds. */
    var irqOffset: u32
    var log: seq<PortWrite>

    constructor ()
      ensures irqOffset == 0 && log == []
    {
      irqOffset := 0;
      log := [];
    }

    /**
     * pic_init: an offset outside 16..240 is ignored; otherwise both
     * controllers are programmed, their masks restored and the offset kept.
     */
    method Init(offset: u8, mask1: u8, mask2: u8)
      modifies this
      ensures !ValidOffset(offset) ==> irqOffset == old(irqOffset) && log == old(log)
      ensures ValidOffset(offset) ==> irqOffset == offset && log == old(log) + InitWrites(offset, mask1, mask2)
    {
      if offset < 16 || offset > 256 - 16 {
        return;
      }
      log := log + [Out(PIC1_COMMAND, ICW1_INIT), Out(PIC2_COMMAND, ICW1_INIT)];
      log := log + [Out(PIC1_DATA, offset), Out(PIC2_DATA, offset + 8)];
      log := log + [Out(PIC1_DATA, ICW3_MASTER), Out(PIC2_DATA, ICW3_SLAVE)];
      log := log + [Out(PIC1_DATA, ICW4_8086), Out(PIC2_DATA, ICW4_8086)];
      log := log + [Out(PIC1_DATA, mask1), Out(PIC2_DATA, mask2)];
      irqOffset := offset;
    }

    /**
     * pic_ack with the interrupt's vector: nothing before pic_init, else an
     * EOI to the slave for its vectors (offset + 8 and up), then to the master.
     */
    method Ack(irq: u32)
      modifies this
      ensures irqOffset == old(irqOffset)
      ensures log == old(log) + AckWrites(irqOffset, irq)
    {
      if irqOffset == 0 {
        return;
      }
      if irq >= irqOffset + 8 {
        log := log + [Out(PIC2_COMMAND, PIC_EOI)];
      }
      log := log + [Out(PIC1_COMMAND, PIC_EOI)];
    }
  }
}
