/**
 * The older kernel's interrupt set-up and handler. Its descriptor encoders
 * are those of the newer kernel; what differs is that `init_idt` also
 * programs the interrupt controllers for vector 32, that the exception
 * names have no entry for the system call vector, and that its handler
 * never halts on an exception: it reports it and returns. Of the device
 * vectors its `dispatch_irq` only knows the timer; any other one is
 * reported and the processor then spins with interrupts disabled.
 */
module KernDescriptorTables {
  import opened Common
  import opened IntVectors
  import opened DescriptorTables
  import Pic

  /** The older `get_exception_message`: the same 26 names, nothing for vector 0x80. */
  function KernExceptionMessage(code: u32): string
  {
    if code < 26 then MESSAGES[code] else "Unknown Interrupt"
  }

  /** The two kernels name every vector alike except the system call vector. */
  lemma MessagesAgreeBesideSyscall(code: u32)
    ensures KernExceptionMessage(code) == ExceptionMessage(code) <==> code != IRQ_SYSCALL
  {
    assert "System Call" != "Unknown Interrupt" by {
      assert "System Call"[0] != "Unknown Interrupt"[0];
    }
  }

  /** What one run of the older interrupt_handler does. */
  datatype KernAction =
    | Exception(number: int, message: string, intNo: u32, errCode: u32)
    | Ticked
    | Hung(intNo: u32, errCode: u32)

  class KernInterrupts {
    const tables: Tables
    const pic: Pic.Controllers
    /** The handler's exception counter. */
    var count: int
    /** The timer's tick counter (32 bits). */
    var ticks: u32
    /** Set once `dispatch_irq` has disabled interrupts and entered its endless loop. */
    var hung: bool

    ghost predicate Valid()
      reads this, tables
    {
      tables.Valid()
    }

    constructor (tables: Tables, pic: Pic.Controllers)
      requires tables.Valid()
      ensures Valid() && this.tables == tables && this.pic == pic
      ensures count == 0 && ticks == 0 && !hung
    {
      this.tables := tables;
      this.pic := pic;
      count := 0;
      ticks := 0;
      hung := false;
    }

    /**
     * The older init_idt, given the table's address, the stub addresses and
     * the masks the controllers had: every vector gets a kernel-code
     * interrupt gate to its own stub, size 2047, and the controllers are
     * remapped to vectors 32..47 with their masks restored.
     */
    method InitIdt(address: u32, handlers: seq<u32>, mask1: u8, mask2: u8)
      requires Valid() && |handlers| == IDT_ENTRIES
      modifies tables, tables.idt, pic
      ensures Valid()
      ensures tables.idtSize == 2047 && tables.idtBase == address
      ensures forall i :: 0 <= i < IDT_ENTRIES ==>
        tables.idt[i] == IdtGate(KERNEL_CODE_SELECTOR, INTERRUPT_GATE_TYPE, handlers[i])
      ensures pic.irqOffset == IRQ_OFFSET
      ensures pic.log == old(pic.log) + Pic.InitWrites(IRQ_OFFSET, mask1, mask2)
    {
      tables.InitIdt(address, handlers);
      pic.Init(IRQ_OFFSET, mask1, mask2);
    }

    /**
     * The older interrupt_handler. An exception is reported with the next
     * counter value, its name, its number and its error code, and the
     * handler returns. The timer vector ticks and is acknowledged at the
     * controllers. Any other vector is reported as unknown and the
     * processor spins for ever with interrupts disabled, so no
     * acknowledgement is sent and no further interrupt is handled.
     */
    method InterruptHandler(intNo: u32, errCode: u32) returns (action: KernAction)
      requires Valid() && !hung
      modifies this, pic
      ensures Valid()
      ensures intNo < IRQ_OFFSET ==>
        && action == Exception(old(count), KernExceptionMessage(intNo), intNo, errCode)
        && count == old(count) + 1 && ticks == old(ticks) && !hung && pic.log == old(pic.log)
      ensures intNo == IRQ_TIMER ==>
        && action == Ticked && count == old(count) && ticks == (old(ticks) + 1) % U32_LIMIT && !hung
        && pic.log == old(pic.log) + Pic.AckWrites(pic.irqOffset, intNo)
      ensures intNo > IRQ_TIMER ==>
        && action == Hung(intNo, errCode) && hung
        && count == old(count) && ticks == old(ticks) && pic.log == old(pic.log)
      ensures pic.irqOffset == old(pic.irqOffset)
    {
      if intNo < IRQ_OFFSET {
        action := Exception(count, KernExceptionMessage(intNo), intNo, errCode);
        count := count + 1;
      } else if intNo == IRQ_TIMER {
        ticks := (ticks + 1) % U32_LIMIT;
        action := Ticked;
        pic.Ack(intNo);
      } else {
        action := Hung(intNo, errCode);
        hung := true;
      }
    }
  }

  /**
   * Once the controllers start at vector 32, a timer tick is acknowledged
   * at the master alone, since the timer is the master's line 0.
   */
  lemma TimerAckedAtMaster()
    ensures Pic.AckWrites(IRQ_OFFSET, IRQ_TIMER) == [Pic.Out(Pic.PIC1_COMMAND, Pic.PIC_EOI)]
  {
  }
}
