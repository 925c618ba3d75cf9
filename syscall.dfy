/**
 * The system call dispatcher reached through vector 0x80: call 1 ends the
 * running process, call 2 writes a user buffer to the console, and every
 * other call, including the declared but unimplemented yield (3), does
 * nothing. Every call returns 0. The console output of `kprintf` is
 * modelled as an event.
 */
module Syscall {
  import opened Common
  import opened Process
  import KString

  const SYS_EXIT: int := 1
  const SYS_WRITE: int := 2
  const SYS_YIELD: int := 3

  /** What a call prints. */
  datatype Event = Exited(pid: int, code: u32) | Wrote(text: seq<u8>)

  /** The `length` bytes of user memory from `address`, as `memcpy` copies them. */
  function UserBuffer(mem: map<int, u8>, address: u32, length: u32): (b: seq<u8>)
    requires forall a :: address <= a < address + length ==> a in mem
    ensures |b| == length
    ensures forall i :: 0 <= i < length ==> b[i] == mem[address + i]
  {
    seq(length, i requires 0 <= i < length => mem[address + i])
  }

  /**
   * What SYS_write demands: descriptor 1 (anything else halts the kernel)
   * and a buffer the kernel can read.
   */
  predicate WriteAllowed(mem: map<int, u8>, ebx: u32, ecx: u32, edx: u32)
  {
    && ebx == 1
    && forall a :: ecx <= a < ecx + edx ==> a in mem
  }

  /**
   * `syscall(eax, ebx, ecx, edx, esi, edi)`: SYS_exit marks the running
   * process dead and reports its exit code, SYS_write prints the buffer up
   * to its first NUL, anything else changes nothing; the result is always 0
   * and `esi`, `edi` take no part.
   */
  method Dispatch(table: ProcessTable, eax: u32, ebx: u32, ecx: u32, edx: u32, esi: u32, edi: u32)
    returns (r: int, event: Option<Event>)
    requires table.Valid()
    requires eax == SYS_EXIT ==> table.running.Some?
    requires eax == SYS_WRITE ==> WriteAllowed(table.userBytes, ebx, ecx, edx)
    modifies table.slots
    ensures table.Valid() && r == 0
    ensures eax == SYS_EXIT ==>
      var p := table.running.value;
      && table.slots[..] == old(table.slots[..])[p := old(table.slots[p]).(state := Dead)]
      && event == Some(Exited(old(table.slots[p].pid), ebx))
    ensures eax == SYS_WRITE ==>
      table.slots[..] == old(table.slots[..]) && event == Some(Wrote(KString.CString(UserBuffer(table.userBytes, ecx, edx))))
    ensures eax != SYS_EXIT && eax != SYS_WRITE ==> table.slots[..] == old(table.slots[..]) && event == None
  {
    if eax == SYS_EXIT {
      r, event := Exit(table, ebx);
    } else if eax == SYS_WRITE {
      r, event := Write(table.userBytes, ebx, ecx, edx);
    } else {
      r, event := 0, None;
    }
  }

  /** SYS_exit: report the exit and mark the running process dead. */
  method Exit(table: ProcessTable, code: u32) returns (r: int, event: Option<Event>)
    requires table.Valid() && table.running.Some?
    modifies table.slots
    ensures table.Valid() && r == 0
    ensures var p := table.running.value;
      && table.slots[..] == old(table.slots[..])[p := old(table.slots[p]).(state := Dead)]
      && event == Some(Exited(old(table.slots[p].pid), code))
  {
    var p := table.running.value;
    event := Some(Exited(table.slots[p].pid, code));
    table.ProcessSetDead(p);
    r := 0;
  }

  /** SYS_write: copy the buffer, terminate it and print it as a string. */
  method Write(mem: map<int, u8>, fd: u32, address: u32, length: u32) returns (r: int, event: Option<Event>)
    requires WriteAllowed(mem, fd, address, length)
    ensures r == 0
    ensures event == Some(Wrote(KString.CString(UserBuffer(mem, address, length))))
  {
    var buffer := UserBuffer(mem, address, length) + [0];
    event := Some(Wrote(KString.CString(buffer)));
    TerminatorIgnored(UserBuffer(mem, address, length));
    r := 0;
  }

  /** Appending the terminating NUL does not change what is printed. */
  lemma {:induction false} TerminatorIgnored(s: seq<u8>)
    ensures KString.CString(s + [0]) == KString.CString(s)
  {
    if |s| > 0 && s[0] != 0 {
      assert (s + [0])[1..] == s[1..] + [0];
      TerminatorIgnored(s[1..]);
    }
  }

  /** A buffer without a NUL is printed whole. */
  lemma {:induction false} NoNulPrintedWhole(s: seq<u8>)
    requires forall i :: 0 <= i < |s| ==> s[i] != 0
    ensures KString.CString(s) == s
  {
    if |s| > 0 {
      NoNulPrintedWhole(s[1..]);
    }
  }
}
