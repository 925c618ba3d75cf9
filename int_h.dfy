/**
 * The interrupt vector numbers and the exception names. Device interrupts
 * are remapped to start at vector 32, above the 32 vectors the processor
 * reserves for exceptions; the system call gate is vector 0x80.
 */
module IntVectors {
  import opened Common

  const IRQ_OFFSET: int := 32
  const IRQ_TIMER: int := IRQ_OFFSET + 0
  const IRQ_KEYBOARD: int := IRQ_OFFSET + 1
  const IRQ_PS2MOUSE: int := IRQ_OFFSET + 12
  const IRQ_ATA_PRIMARY: int := IRQ_OFFSET + 14
  const IRQ_ATA_SECONDARY: int := IRQ_OFFSET + 15
  const IRQ_SYSCALL: int := 0x80

  /** The vector of device interrupt line `line` of the two 8259 controllers. */
  function DeviceVector(line: int): (v: int)
    requires 0 <= line < 16
    ensures IRQ_OFFSET <= v < IRQ_OFFSET + 16 && v != IRQ_SYSCALL
    ensures line == v - IRQ_OFFSET
  {
    IRQ_OFFSET + line
  }

  /** The five device vectors and the system call vector are pairwise distinct and none is an exception. */
  lemma VectorsDistinct()
    ensures var vs := [IRQ_TIMER, IRQ_KEYBOARD, IRQ_PS2MOUSE, IRQ_ATA_PRIMARY, IRQ_ATA_SECONDARY, IRQ_SYSCALL];
      && (forall i :: 0 <= i < |vs| ==> vs[i] >= IRQ_OFFSET)
      && (forall i, j :: 0 <= i < j < |vs| ==> vs[i] != vs[j])
  {
  }

  /** The names of the 26 exception codes the kernel knows, by code. */
  const MESSAGES: seq<string> := [
    "Divide-by-zero Error",
    "Debug",
    "Non-maskable Interrupt",
    "Breakpoint",
    "Overflow",
    "Bound Range Exceeded",
    "Invalid Opcode",
    "Device Not Available",
    "Double Fault",
    "Coprocessor Segment Overrun",
    "Invalid TSS",
    "Segment Not Present",
    "Stack-Segment Fault",
    "General Protection Fault",
    "Page Fault",
    "[Intel Reserved]",
    "x87 Floating-Point Exception",
    "Alignment Check",
    "Machine Check",
    "SIMD Floating-Point Exception",
    "Virtualization Exception",
    "[Intel Reserved]",
    "Security Exception",
    "[Intel Reserved]",
    "Triple Fault",
    "FPU Error Interrupt"
  ]

  /**
   * get_exception_message: the table entry for codes below 26, "System
   * Call" for 0x80 and "Unknown Interrupt" for anything else. Each name
   * identifies its code, except the reserved one, which codes 15, 21 and
   * 23 share.
   */
  function ExceptionMessage(code: u32): (m: string)
    ensures |MESSAGES| == 26
    ensures code < 26 ==> m == MESSAGES[code]
    ensures m == "System Call" <==> code == IRQ_SYSCALL
    ensures m == "Unknown Interrupt" <==> code >= 26 && code != IRQ_SYSCALL
    ensures m == "Page Fault" <==> code == 14
    ensures m == "[Intel Reserved]" <==> code == 15 || code == 21 || code == 23
    ensures m == "Divide-by-zero Error" <==> code == 0
  {
    if code < 26 then MESSAGES[code]
    else if code == IRQ_SYSCALL then "System Call"
    else "Unknown Interrupt"
  }
}
