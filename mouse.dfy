/**
 * The PS/2 mouse driver's packet path: the interrupt handler collects
 * three-byte packets (the first byte must have its always-one bit set),
 * and each complete packet moves the pointer by its signed deltas, clamped
 * to the screen, and records the buttons.
 */
module Mouse {
  import opened Common

  const FLAGS_YOVERFLOW: int := 0x80
  const FLAGS_XOVERFLOW: int := 0x40
  const FLAGS_YSIGN: int := 0x20
  const FLAGS_XSIGN: int := 0x10
  const FLAGS_ALWAYS1: int := 0x8
  const FLAGS_MIDDLEBTN: int := 0x4
  const FLAGS_RIGHTBTN: int := 0x2
  const FLAGS_LEFTBTN: int := 0x1

  /** Whether the single-bit `mask` is set in `b`. */
  predicate Has(b: u8, mask: int)
    requires mask > 0
  {
    (b / mask) % 2 == 1
  }

  /** `struct MouseStatus`. */
  datatype MouseStatus = MouseStatus(connected: bool, x: int, y: int, left: bool, middle: bool, right: bool)

  /** A 9-bit two's-complement delta: the sign bit from the flags, the rest a byte. */
  function Signed9(sign: bool, magnitude: u8): int
  {
    if sign then magnitude - 0x100 else magnitude
  }

  /** The x delta as the driver computes it: `-1 * ((~byte & 0xff) + 1)` when negative. */
  function XDelta(flags: u8, byte: u8): (d: int)
    ensures d == Signed9(Has(flags, FLAGS_XSIGN), byte)
    ensures -0x100 <= d < 0x100
  {
    if Has(flags, FLAGS_XSIGN) then -1 * ((0xff - byte) + 1) else byte
  }

  /**
   * The y delta, negated because the screen's y grows downwards:
   * `-byte`, or `(~byte & 0xff) + 1` when the sign bit is set.
   */
  function YDelta(flags: u8, byte: u8): (d: int)
    ensures d == -Signed9(Has(flags, FLAGS_YSIGN), byte)
    ensures -0xff <= d <= 0x100
  {
    if Has(flags, FLAGS_YSIGN) then (0xff - byte) + 1 else -1 * byte
  }

  /** `MAX(0, MIN(v, limit))`. */
  function Clamp(v: int, limit: int): int
  {
    Max(0, Min(v, limit))
  }

  /**
   * mouse_handle_packets: a packet with either overflow bit is dropped;
   * otherwise the pointer moves by the deltas, clamped to
   * `[0, width] x [0, height]`, and the buttons are the low three flag bits.
   */
  function HandlePacket(st: MouseStatus, flags: u8, dx: u8, dy: u8, width: nat, height: nat): (r: MouseStatus)
    ensures Has(flags, FLAGS_XOVERFLOW) || Has(flags, FLAGS_YOVERFLOW) ==> r == st
    ensures !(Has(flags, FLAGS_XOVERFLOW) || Has(flags, FLAGS_YOVERFLOW)) ==>
      && r.connected
      && 0 <= r.x <= width && 0 <= r.y <= height
      && r.left == Has(flags, FLAGS_LEFTBTN) && r.middle == Has(flags, FLAGS_MIDDLEBTN)
      && r.right == Has(flags, FLAGS_RIGHTBTN)
  {
    if Has(flags, FLAGS_XOVERFLOW) || Has(flags, FLAGS_YOVERFLOW) then st
    else
      MouseStatus(true,
        Clamp(st.x + XDelta(flags, dx), width),
        Clamp(st.y + YDelta(flags, dy), height),
        Has(flags, FLAGS_LEFTBTN), Has(flags, FLAGS_MIDDLEBTN), Has(flags, FLAGS_RIGHTBTN))
  }

  /**
   * Inside the screen the pointer moves by exactly the deltas, and at an
   * edge it stops there: a move past the right edge lands on `width`, past
   * the left edge on 0.
   */
  lemma MoveOrStop(st: MouseStatus, flags: u8, dx: u8, dy: u8, width: nat, height: nat)
    requires !Has(flags, FLAGS_XOVERFLOW) && !Has(flags, FLAGS_YOVERFLOW)
    ensures var r := HandlePacket(st, flags, dx, dy, width, height);
      var nx := st.x + Signed9(Has(flags, FLAGS_XSIGN), dx);
      var ny := st.y - Signed9(Has(flags, FLAGS_YSIGN), dy);
      && (0 <= nx <= width ==> r.x == nx)
      && (nx > width ==> r.x == width)
      && (nx < 0 ==> r.x == 0)
      && (0 <= ny <= height ==> r.y == ny)
      && (ny > height ==> r.y == height)
      && (ny < 0 ==> r.y == 0)
  {
  }

  /** Where `__mouse_irq` is in a packet. */
  datatype Phase = WaitingFirst | WaitingSecond | WaitingThird

  /** The handler's static state: the phase, the bytes collected so far and the pointer status. */
  datatype PacketState = PacketState(phase: Phase, packets: seq<u8>, status: MouseStatus)

  predicate WellFormed(st: PacketState)
  {
    |st.packets| == 3
  }

  /**
   * One byte of `__mouse_irq` once the mouse is initialised and no byte is
   * to be skipped: a first byte is taken only with its always-one bit set,
   * and the third byte completes and processes the packet.
   */
  function IrqStep(st: PacketState, byte: u8, width: nat, height: nat): (r: PacketState)
    requires WellFormed(st)
    ensures WellFormed(r)
  {
    match st.phase
    case WaitingFirst =>
      if Has(byte, FLAGS_ALWAYS1) then st.(phase := WaitingSecond, packets := st.packets[0 := byte]) else st
    case WaitingSecond => st.(phase := WaitingThird, packets := st.packets[1 := byte])
    case WaitingThird =>
      PacketState(WaitingFirst, st.packets[2 := byte],
        HandlePacket(st.status, st.packets[0], st.packets[1], byte, width, height))
  }

  /** The handler fed a run of bytes. */
  function Feed(st: PacketState, bytes: seq<u8>, width: nat, height: nat): (r: PacketState)
    requires WellFormed(st)
    ensures WellFormed(r)
    decreases |bytes|
  {
    if |bytes| == 0 then st else Feed(IrqStep(st, bytes[0], width, height), bytes[1..], width, height)
  }

  /**
   * A three-byte packet whose first byte has the always-one bit, arriving
   * while the handler waits for a first byte, is processed as one packet
   * and leaves the handler waiting for the next first byte.
   */
  lemma WholePacket(st: PacketState, flags: u8, dx: u8, dy: u8, width: nat, height: nat)
    requires WellFormed(st) && st.phase == WaitingFirst && Has(flags, FLAGS_ALWAYS1)
    ensures var r := Feed(st, [flags, dx, dy], width, height);
      && r.phase == WaitingFirst
      && r.status == HandlePacket(st.status, flags, dx, dy, width, height)
  {
    var s1 := IrqStep(st, flags, width, height);
    var s2 := IrqStep(s1, dx, width, height);
    var s3 := IrqStep(s2, dy, width, height);
    assert [flags, dx, dy][1..] == [dx, dy] && [dx, dy][1..] == [dy] && [dy][1..] == [];
    assert Feed(s3, [], width, height) == s3;
    assert Feed(s2, [dy], width, height) == s3;
    assert Feed(s1, [dx, dy], width, height) == s3;
  }

  /**
   * While waiting for a first byte, bytes without the always-one bit are
   * dropped one by one, so the handler resynchronises on the next byte
   * that has it.
   */
  lemma {:induction false} DropsUntilFlagged(st: PacketState, bytes: seq<u8>, width: nat, height: nat)
    requires WellFormed(st) && st.phase == WaitingFirst
    requires forall i :: 0 <= i < |bytes| ==> !Has(bytes[i], FLAGS_ALWAYS1)
    ensures Feed(st, bytes, width, height) == st
    decreases |bytes|
  {
    if |bytes| > 0 {
      DropsUntilFlagged(st, bytes[1..], width, height);
    }
  }

  class MouseDriver {
    var status: MouseStatus
    var skipNext: nat
    var initialized: bool
    var phase: Phase
    const packets: array<u8>

    ghost predicate Valid()
      reads this
    {
      packets.Length == 3
    }

    /** The state before mouse_init: nothing collected, not initialised. */
    constructor ()
      ensures Valid() && !initialized && skipNext == 0 && phase == WaitingFirst
    {
      status := MouseStatus(false, 0, 0, false, false, false);
      skipNext := 0;
      initialized := false;
      phase := WaitingFirst;
      packets := new u8[3](_ => 0);
    }

    ghost function State(): PacketState
      reads this, packets
      requires Valid()
    {
      PacketState(phase, packets[..], status)
    }

    /**
     * mouse_init without its controller commands: the pointer is centred
     * and disconnected, no button is down, and the handler is enabled.
     */
    method Init(width: nat, height: nat)
      requires Valid()
      modifies this
      ensures Valid() && initialized && phase == old(phase) && skipNext == old(skipNext)
      ensures status == MouseStatus(false, width / 2, height / 2, false, false, false)
    {
      status := MouseStatus(false, width / 2, height / 2, false, false, false);
      initialized := true;
    }

    /** mouse_status. */
    function Status(): (s: MouseStatus)
      reads this
      ensures s == status
    {
      status
    }

    /**
     * The state after `__mouse_irq` received `byte`, given the skip count
     * and packet state before it: nothing changes before initialisation, a
     * pending skip is used up, and otherwise the state machine steps.
     */
    ghost predicate IrqHandled(byte: u8, width: nat, height: nat, skip0: nat, st0: PacketState)
      reads this, packets
      requires Valid() && WellFormed(st0)
    {
      if !initialized then State() == st0 && skipNext == skip0
      else if skip0 > 0 then State() == st0 && skipNext == skip0 - 1
      else State() == IrqStep(st0, byte, width, height) && skipNext == 0
    }

    /**
     * `__mouse_irq` with the byte read from the data port: ignored before
     * initialisation and while bytes are to be skipped, otherwise one step
     * of the packet state machine.
     */
    method Irq(byte: u8, width: nat, height: nat)
      requires Valid()
      modifies this, packets
      ensures Valid() && initialized == old(initialized)
      ensures IrqHandled(byte, width, height, old(skipNext), old(State()))
    {
      if !initialized {
        return;
      }
      if skipNext > 0 {
        skipNext := skipNext - 1;
        return;
      }
      match phase
      case WaitingFirst =>
        if Has(byte, FLAGS_ALWAYS1) {
          phase := WaitingSecond;
          packets[0] := byte;
        }
      case WaitingSecond =>
        phase := WaitingThird;
        packets[1] := byte;
      case WaitingThird =>
        phase := WaitingFirst;
        packets[2] := byte;
        status := HandlePacket(status, packets[0], packets[1], packets[2], width, height);
    }
  }
}
