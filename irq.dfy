/**
 * Interrupt routing: dispatch_irq sends each device vector to its driver,
 * runs the scheduler after a timer tick or a system call, stores a system
 * call's result in the frame's `eax`, and reports any other vector. The
 * kernel's global driver states are gathered in one `Machine`; the bytes
 * the drivers read from I/O ports are parameters, and `kprintf` output is
 * an event log.
 */
module Irq {
  import opened Common
  import opened IntVectors
  import opened Process
  import PS2Keyboard
  import Mouse
  import Syscall
  import KString

  /** What an interrupt prints. */
  datatype Event = Console(e: Syscall.Event) | UnknownIrq(intNo: u32, errCode: u32)

  /** keyboard_irq's test `status & 0x1 && status & 0x20` on the controller status byte. */
  predicate MouseBytePending(status: u8)
  {
    (status as bv8) & 0x01 != 0 && (status as bv8) & 0x20 != 0
  }

  /**
   * The discard rule read as bits: a byte waits (bit 0) and it came from the
   * auxiliary, mouse, port (bit 5); the other six bits do not matter.
   */
  lemma DropOnlyMouseBytes(status: u8)
    ensures MouseBytePending(status) <==> status % 2 == 1 && (status / 0x20) % 2 == 1
  {
  }

  /** The log entries of a system call's event. */
  function Printed(e: Option<Syscall.Event>): (r: seq<Event>)
    ensures e.None? ==> r == []
    ensures e.Some? ==> r == [Console(e.value)]
  {
    if e.Some? then [Console(e.value)] else []
  }

  class Machine {
    const table: ProcessTable
    const keyboard: PS2Keyboard.Keyboard
    const mouse: Mouse.MouseDriver
    /** The screen size the mouse pointer is clamped to. */
    const screenWidth: nat
    const screenHeight: nat
    /** The timer's tick counter (`ticks`, 32 bits). */
    var ticks: u32
    var log: seq<Event>

    ghost predicate Valid()
      reads this, table, table.slots, table.heap, keyboard, keyboard.queue, mouse
    {
      table.Valid() && keyboard.Valid() && mouse.Valid()
    }

    constructor (table: ProcessTable, keyboard: PS2Keyboard.Keyboard, mouse: Mouse.MouseDriver, screenWidth: nat, screenHeight: nat)
      requires table.Valid() && keyboard.Valid() && mouse.Valid()
      ensures Valid() && ticks == 0 && log == []
      ensures this.table == table && this.keyboard == keyboard && this.mouse == mouse
      ensures this.screenWidth == screenWidth && this.screenHeight == screenHeight
    {
      this.table := table;
      this.keyboard := keyboard;
      this.mouse := mouse;
      this.screenWidth := screenWidth;
      this.screenHeight := screenHeight;
      ticks := 0;
      log := [];
    }

    /** The keyboard driver as it was. */
    twostate predicate KeyboardSame()
      reads keyboard, keyboard.keymap, keyboard.queue, keyboard.queue.data
    {
      unchanged(keyboard, keyboard.keymap, keyboard.queue, keyboard.queue.data)
    }

    /** The process table as it was. */
    twostate predicate TableSame()
      reads table, table.slots
    {
      unchanged(table, table.slots)
    }

    /** The mouse driver as it was. */
    twostate predicate MouseSame()
      reads mouse, mouse.packets
    {
      unchanged(mouse, mouse.packets)
    }

    /**
     * dispatch_irq on the frame the interrupt stub built. `kbStatus` and
     * `kbByte` are what keyboard_irq reads from ports 0x64 and 0x60, and
     * `mouseByte` what `__mouse_irq` reads from port 0x60.
     */
    method DispatchIrq(frame: IntFrame, kbStatus: u8, kbByte: u8, mouseByte: u8) returns (frame': IntFrame)
      requires Valid()
      requires frame.intNo == IRQ_TIMER || frame.intNo == IRQ_SYSCALL ==> table.running.Some?
      requires frame.intNo == IRQ_SYSCALL && frame.eax == Syscall.SYS_WRITE ==>
        Syscall.WriteAllowed(table.userBytes, frame.ebx, frame.ecx, frame.edx)
      modifies this, table, table.slots, keyboard, keyboard.keymap, keyboard.queue, keyboard.queue.data, mouse, mouse.packets
      ensures Valid()
      ensures frame.intNo == IRQ_TIMER ==>
        && ticks == (old(ticks) + 1) % U32_LIMIT && log == old(log)
        && Scheduled(old(table.slots[..]), old(table.running).value, frame, old(table.cr3), frame')
        && KeyboardSame() && MouseSame()
      ensures frame.intNo == IRQ_KEYBOARD ==>
        && ticks == old(ticks) && log == old(log) && frame' == frame && TableSame() && MouseSame()
        && (MouseBytePending(kbStatus) ==> KeyboardSame())
        && (!MouseBytePending(kbStatus) ==>
              keyboard.ByteHandled(kbByte, old(PS2Keyboard.ByteState(keyboard.skipNext, keyboard.escape)),
                old(keyboard.keymap[..]), old(keyboard.caps), old(keyboard.queue.Contents())))
      ensures frame.intNo == IRQ_PS2MOUSE ==>
        && ticks == old(ticks) && log == old(log) && frame' == frame && TableSame() && KeyboardSame()
        && mouse.IrqHandled(mouseByte, screenWidth, screenHeight, old(mouse.skipNext), old(mouse.State()))
      ensures frame.intNo == IRQ_SYSCALL ==>
        var p := old(table.running).value;
        var s0 := old(table.slots[..]);
        var s1 := if frame.eax == Syscall.SYS_EXIT then s0[p := s0[p].(state := Dead)] else s0;
        && ticks == old(ticks) && KeyboardSame() && MouseSame()
        && Scheduled(s1, p, frame.(eax := 0), old(table.cr3), frame')
        && log == old(log) + Printed(
             if frame.eax == Syscall.SYS_EXIT then Some(Syscall.Exited(s0[p].pid, frame.ebx))
             else if frame.eax == Syscall.SYS_WRITE then
               Some(Syscall.Wrote(KString.CString(Syscall.UserBuffer(table.userBytes, frame.ecx, frame.edx))))
             else None)
      ensures frame.intNo !in {IRQ_TIMER, IRQ_KEYBOARD, IRQ_PS2MOUSE, IRQ_SYSCALL} ==>
        && ticks == old(ticks) && frame' == frame && TableSame() && KeyboardSame() && MouseSame()
        && log == old(log) + (if frame.intNo in {IRQ_ATA_PRIMARY, IRQ_ATA_SECONDARY} then [] else [UnknownIrq(frame.intNo, frame.errCode)])
    {
      if frame.intNo == IRQ_TIMER {
        frame' := TimerIrq(frame);
      } else if frame.intNo == IRQ_KEYBOARD {
        frame' := frame;
        KeyboardIrq(kbStatus, kbByte);
      } else if frame.intNo == IRQ_ATA_PRIMARY || frame.intNo == IRQ_ATA_SECONDARY {
        frame' := frame;
      } else if frame.intNo == IRQ_PS2MOUSE {
        frame' := frame;
        mouse.Irq(mouseByte, screenWidth, screenHeight);
      } else if frame.intNo == IRQ_SYSCALL {
        frame' := SyscallIrq(frame);
      } else {
        frame' := frame;
        log := log + [UnknownIrq(frame.intNo, frame.errCode)];
      }
    }

    /** The timer vector: `__timer_tick` (a wrapping 32-bit increment), then the scheduler. */
    method TimerIrq(frame: IntFrame) returns (frame': IntFrame)
      requires Valid() && table.running.Some?
      modifies this, table, table.slots
      ensures Valid()
      ensures ticks == (old(ticks) + 1) % U32_LIMIT && log == old(log)
      ensures Scheduled(old(table.slots[..]), old(table.running).value, frame, old(table.cr3), frame')
    {
      ticks := (ticks + 1) % U32_LIMIT;
      frame' := table.Scheduler(frame);
    }

    /** keyboard_irq: a byte from the mouse is dropped, any other goes to the keyboard driver. */
    method KeyboardIrq(status: u8, byte: u8)
      requires Valid()
      modifies keyboard, keyboard.keymap, keyboard.queue, keyboard.queue.data
      ensures Valid()
      ensures MouseBytePending(status) ==> KeyboardSame()
      ensures !MouseBytePending(status) ==>
        keyboard.ByteHandled(byte, old(PS2Keyboard.ByteState(keyboard.skipNext, keyboard.escape)),
          old(keyboard.keymap[..]), old(keyboard.caps), old(keyboard.queue.Contents()))
    {
      if !MouseBytePending(status) {
        keyboard.HandleByte(byte);
      }
    }

    /**
     * The system call vector: the call's result (always 0) replaces `eax`
     * in the frame, what it printed is logged, and the scheduler runs on
     * the updated frame.
     */
    method SyscallIrq(frame: IntFrame) returns (frame': IntFrame)
      requires Valid() && table.running.Some?
      requires frame.eax == Syscall.SYS_WRITE ==> Syscall.WriteAllowed(table.userBytes, frame.ebx, frame.ecx, frame.edx)
      modifies this, table, table.slots
      ensures Valid()
      ensures var p := old(table.running).value;
        var s0 := old(table.slots[..]);
        var s1 := if frame.eax == Syscall.SYS_EXIT then s0[p := s0[p].(state := Dead)] else s0;
        && ticks == old(ticks)
        && Scheduled(s1, p, frame.(eax := 0), old(table.cr3), frame')
        && log == old(log) + Printed(
             if frame.eax == Syscall.SYS_EXIT then Some(Syscall.Exited(s0[p].pid, frame.ebx))
             else if frame.eax == Syscall.SYS_WRITE then
               Some(Syscall.Wrote(KString.CString(Syscall.UserBuffer(table.userBytes, frame.ecx, frame.edx))))
             else None)
    {
      var r, event := Syscall.Dispatch(table, frame.eax, frame.ebx, frame.ecx, frame.edx, frame.esi, frame.edi);
      log := log + Printed(event);
      frame' := table.Scheduler(frame.(eax := r));
    }

    /**
     * The scheduler ran from slot `o` on table `s0` and frame `f`: the table,
     * the running slot, the loaded directory and the returned frame are
     * the scheduler's.
     */
    twostate predicate Scheduled(s0: seq<Process>, o: nat, f: IntFrame, cr30: u32, frame': IntFrame)
      reads this, table, table.slots
      requires o < |s0| && Linked(s0)
    {
      var sw := Schedule(s0, o, f);
      && table.slots[..] == sw.slots && table.running == Some(sw.running) && frame' == sw.frame
      && o < |sw.slots| && sw.running < |sw.slots|
      && table.cr3 == (if sw.slots[o].pgdir != sw.slots[sw.running].pgdir then sw.slots[sw.running].pgdir else cr30)
      && table.nextPid == old(table.nextPid) && table.stackWords == old(table.stackWords)
      && table.userBytes == old(table.userBytes)
    }
  }
}
