/**
 * The PS/2 keyboard driver: the set-1 byte state machine that assembles
 * scancodes (the `0xE0` escape, the 6-byte pause and the 4-byte print
 * screen sequences), the scancode to keycode mapping, the US character
 * maps, the pressed-key table with caps lock, and the 256-entry queue of
 * key actions the rest of the kernel reads.
 */
module PS2Keyboard {
  import opened Common
  import RingBuffer

  /** Scancodes are 64-bit: multi-byte sequences are packed low byte first. */
  type Scancode = x: int | 0 <= x < 0x1_0000_0000_0000_0000

  const EVENTQUEUE_SIZE: nat := 256
  const ESCAPECODE: int := 0xe0
  const PRINT_PRESSED: Scancode := 0x37e02ae0
  const PRINT_RELEASED: Scancode := 0xaae0b7e0
  const PAUSE: Scancode := 0xc59de1451de1
  /** `SCANCODE_PAUSE & 0xff`, the byte that starts the pause sequence. */
  const PAUSE_FIRST: int := 0xe1
  /** The second bytes of the two print screen sequences. */
  const PRINT_PRESSED_SECOND: int := 0x2a
  const PRINT_RELEASED_SECOND: int := 0xb7

  const CHARMAP_SIZE: int := 0x55
  const KEYCODE_PRINT: u8 := 0xfe
  const KEYCODE_PAUSE: u8 := 0xff
  const KEYCODE_SHIFT: u8 := 0x2a
  const KEYCODE_CAPSLOCK: u8 := 0x3a
  const KEYCODE_SHIFTR: u8 := 0x36
  const KEYCODE_CTRL: u8 := 0x1d
  const KEYCODE_ALT: u8 := 0x38

  // ---------------------------------------------------------------------
  // kbd_scancode_to_keycode

  /** `SCANCODE_KEY_PRESSED`: bit 7 clear means a make code. */
  predicate KeyPressed(s: Scancode)
  {
    (s / 0x80) % 2 == 0
  }

  /** `scancode & ~(1 << 7)`: the scancode with bit 7 cleared. */
  function WithoutBit7(s: Scancode): Scancode
  {
    if KeyPressed(s) then s else s - 0x80
  }

  /**
   * kbd_scancode_to_keycode. As written, bit 7 is cleared before the
   * print screen and pause scancodes are recognised; both have bit 7 set in
   * their low byte, so neither test can succeed. The corrected mapping
   * recognises both print screen scancodes and the pause scancode first.
   * Two-byte `0xE0 xx` scancodes map to `xx` with bit 7 set (bit 7 of the
   * cleared value is 0, so `m % 0x80 + 0x80` is `(m & 0xff) | 0x80`), and
   * everything else is truncated to its low byte.
   */
  function ScancodeToKeycode(s: Scancode, asWritten: bool): u8
  {
    if !asWritten && (s == PRINT_PRESSED || s == PRINT_RELEASED) then KEYCODE_PRINT
    else if !asWritten && s == PAUSE then KEYCODE_PAUSE
    else
      var m := WithoutBit7(s);
      if asWritten && m == PRINT_PRESSED then KEYCODE_PRINT
      else if asWritten && m == PAUSE then KEYCODE_PAUSE
      else if (m / 0x100) % 0x100 == ESCAPECODE then m % 0x80 + 0x80
      else m % 0x100
  }

  /**
   * A one-byte key reports the same keycode, its own make code, whether
   * pressed or released.
   */
  lemma MakeBreakSameKey(code: int, asWritten: bool)
    requires 0 <= code < 0x80
    ensures ScancodeToKeycode(code, asWritten) == code
    ensures ScancodeToKeycode(code + 0x80, asWritten) == code
    ensures KeyPressed(code) && !KeyPressed(code + 0x80)
  {
    assert WithoutBit7(code + 0x80) == code;
  }

  /**
   * A two-byte `0xE0 xx` key maps to `xx | 0x80` whether pressed or
   * released, so extended keys sit above the one-byte keys.
   */
  lemma {:induction false} ExtendedSameKey(code: int, asWritten: bool)
    requires 0 <= code < 0x80
    ensures ScancodeToKeycode(0xe000 + code, asWritten) == code + 0x80
    ensures ScancodeToKeycode(0xe000 + code + 0x80, asWritten) == code + 0x80
    ensures KeyPressed(0xe000 + code) && !KeyPressed(0xe000 + code + 0x80)
  {
    assert (0xe000 + code) / 0x80 == 0x1c0 + code / 0x80;
    assert (0xe000 + code + 0x80) / 0x80 == 0x1c1 + code / 0x80;
    assert WithoutBit7(0xe000 + code + 0x80) == 0xe000 + code;
    assert (0xe000 + code) / 0x100 == 0xe0;
  }

  /**
   * As written, print screen and pause never reach their keycodes: the
   * print scancodes land on 0x60 and pause on 0x61.
   */
  lemma PrintPauseMissed()
    ensures ScancodeToKeycode(PRINT_PRESSED, true) == 0x60
    ensures ScancodeToKeycode(PRINT_RELEASED, true) == 0x60
    ensures ScancodeToKeycode(PAUSE, true) == 0x61
  {
    assert WithoutBit7(PRINT_PRESSED) == 0x37e02a60;
    assert WithoutBit7(PRINT_RELEASED) == 0xaae0b760;
    assert WithoutBit7(PAUSE) == 0xc59de1451d61;
  }

  /** The corrected mapping gives both print scancodes `KEYCODE_PRINT` and pause `KEYCODE_PAUSE`. */
  lemma PrintPauseMapped()
    ensures ScancodeToKeycode(PRINT_PRESSED, false) == KEYCODE_PRINT
    ensures ScancodeToKeycode(PRINT_RELEASED, false) == KEYCODE_PRINT
    ensures ScancodeToKeycode(PAUSE, false) == KEYCODE_PAUSE
  {
  }

  // ---------------------------------------------------------------------
  // kbd_keycode_to_char

  /** `charmap_normal`, indexed by keycode; NUL marks keys without a character. */
  const NORMAL_MAP: seq<char> := [
    0 as char, 0 as char, '1', '2', '3', '4', '5', '6', '7', '8', '9', '0',
    '-', '=', 8 as char, '\t', 'q', 'w', 'e', 'r', 't', 'y', 'u', 'i',
    'o', 'p', '[', ']', '\n', 0 as char, 'a', 's', 'd', 'f', 'g', 'h',
    'j', 'k', 'l', ';', '\'', '`', 0 as char, '\\', 'z', 'x', 'c', 'v',
    'b', 'n', 'm', ',', '.', '/', 0 as char, '*', 0 as char, ' ', 0 as char, 0 as char,
    0 as char, 0 as char, 0 as char, 0 as char, 0 as char, 0 as char,
    0 as char, 0 as char, 0 as char, 0 as char, 0 as char, 0 as char,
    '7', '8', '9', '-', '4', '5', '6', '+', '1', '2', '3', '0', '.']

  /** `charmap_shift`. */
  const SHIFT_MAP: seq<char> := [
    0 as char, 0 as char, '!', '@', '#', '$', '%', '^', '&', '*', '(', ')',
    '_', '+', 8 as char, '\t', 'Q', 'W', 'E', 'R', 'T', 'Y', 'U', 'I',
    'O', 'P', '{', '}', '\n', 0 as char, 'A', 'S', 'D', 'F', 'G', 'H',
    'J', 'K', 'L', ':', '"', '`', 0 as char, '|', 'Z', 'X', 'C', 'V',
    'B', 'N', 'M', '<', '>', '?', 0 as char, '*', 0 as char, ' ', 0 as char, 0 as char,
    0 as char, 0 as char, 0 as char, 0 as char, 0 as char, 0 as char,
    0 as char, 0 as char, 0 as char, 0 as char, 0 as char, 0 as char,
    '7', '8', '9', '-', '4', '5', '6', '+', '1', '2', '3', '0', '.']

  /**
   * kbd_keycode_to_char given the shift key and caps lock: the shifted map
   * when exactly one of them is active, and NUL past the maps.
   */
  function CharOf(keycode: u8, shift: bool, caps: bool): (c: char)
    ensures keycode >= CHARMAP_SIZE ==> c == 0 as char
    ensures keycode < CHARMAP_SIZE ==> c == if shift != caps then SHIFT_MAP[keycode] else NORMAL_MAP[keycode]
  {
    if keycode < CHARMAP_SIZE then
      if shift != caps then SHIFT_MAP[keycode] else NORMAL_MAP[keycode]
    else 0 as char
  }

  /**
   * Caps lock undoes shift and the reverse: with both active a letter key
   * gives the lower-case letter, as with neither.
   */
  lemma CapsCancelsShift(keycode: u8, shift: bool, caps: bool)
    ensures CharOf(keycode, shift, caps) == CharOf(keycode, !shift, !caps)
    ensures CharOf(keycode, true, true) == CharOf(keycode, false, false)
  {
  }

  // ---------------------------------------------------------------------
  // kbd_handle_byte

  /** `skip_next` and the static `escape_code` of kbd_handle_byte. */
  datatype ByteState = ByteState(skipNext: nat, escape: bool)

  const IDLE: ByteState := ByteState(0, false)

  /** The states kbd_handle_byte can reach: at most 5 bytes to skip, and no escape pending while skipping. */
  predicate Reachable(st: ByteState)
  {
    st.skipNext <= 5 && (st.skipNext > 0 ==> !st.escape)
  }

  /**
   * The scancode handed on after `0xE0 byte`. As written the code computes
   * `(SCANCODE_ESCAPECODE << 8) || byte`, a logical or, which is always 1;
   * the evident intent is the two bytes packed, `0xE000 | byte`.
   */
  function EscapedScancode(byte: u8, asWritten: bool): Scancode
  {
    if asWritten then 1 else 0xe000 + byte
  }

  /**
   * The bytes left to skip once the second byte of a print screen sequence
   * is seen. The sequence is four bytes and two have been read, but the code
   * skips 3, so the byte after the sequence is swallowed too; 2 is the
   * evident intent.
   */
  function PrintSkip(asWritten: bool): nat
  {
    if asWritten then 3 else 2
  }

  /**
   * One byte of kbd_handle_byte: the new state and the scancode, if any,
   * passed to kbd_handle_scancode.
   */
  function ByteStep(st: ByteState, byte: u8, asWritten: bool): (ByteState, Option<Scancode>)
  {
    if st.skipNext > 0 then (st.(skipNext := st.skipNext - 1), None)
    else if !st.escape && byte == ESCAPECODE then (st.(escape := true), None)
    else if !st.escape && byte == PAUSE_FIRST then (ByteState(5, st.escape), Some(PAUSE))
    else if st.escape then
      if byte == PRINT_PRESSED_SECOND || byte == PRINT_RELEASED_SECOND then
        (ByteState(PrintSkip(asWritten), false), Some(if byte == PRINT_PRESSED_SECOND then PRINT_PRESSED else PRINT_RELEASED))
      else (st.(escape := false), Some(EscapedScancode(byte, asWritten)))
    else (st, Some(byte))
  }

  function Emitted(out: Option<Scancode>): seq<Scancode>
  {
    if out.Some? then [out.value] else []
  }

  /** The scancodes a run of bytes produces, and the state it leaves. */
  function Decode(st: ByteState, bytes: seq<u8>, asWritten: bool): (ByteState, seq<Scancode>)
    decreases |bytes|
  {
    if |bytes| == 0 then (st, [])
    else
      var step := ByteStep(st, bytes[0], asWritten);
      var tail := Decode(step.0, bytes[1..], asWritten);
      (tail.0, Emitted(step.1) + tail.1)
  }

  /** Decoding `bytes` from `st` ends in `last` having produced `out`. */
  predicate Decodes(st: ByteState, bytes: seq<u8>, asWritten: bool, last: ByteState, out: seq<Scancode>)
  {
    Decode(st, bytes, asWritten).0 == last && Decode(st, bytes, asWritten).1 == out
  }

  /** Every step keeps the state reachable. */
  lemma StepReachable(st: ByteState, byte: u8, asWritten: bool)
    requires Reachable(st)
    ensures Reachable(ByteStep(st, byte, asWritten).0)
  {
  }

  /** Decoding a concatenation decodes the parts in turn. */
  lemma {:induction false} DecodeAppend(st: ByteState, a: seq<u8>, b: seq<u8>, asWritten: bool)
    ensures var mid := Decode(st, a, asWritten).0;
      Decodes(st, a + b, asWritten, Decode(mid, b, asWritten).0, Decode(st, a, asWritten).1 + Decode(mid, b, asWritten).1)
    decreases |a|
  {
    if |a| == 0 {
      assert a + b == b;
    } else {
      assert (a + b)[1..] == a[1..] + b;
      var step := ByteStep(st, a[0], asWritten);
      DecodeAppend(step.0, a[1..], b, asWritten);
      assert Emitted(step.1) + (Decode(step.0, a[1..], asWritten).1 + Decode(Decode(step.0, a[1..], asWritten).0, b, asWritten).1)
        == (Emitted(step.1) + Decode(step.0, a[1..], asWritten).1) + Decode(Decode(step.0, a[1..], asWritten).0, b, asWritten).1;
    }
  }

  /** With `n` bytes left to skip, `n` bytes produce nothing and leave the idle state. */
  lemma {:induction false} SkipRun(n: nat, bytes: seq<u8>, asWritten: bool)
    requires |bytes| == n
    ensures Decodes(ByteState(n, false), bytes, asWritten, IDLE, [])
    decreases n
  {
    if n > 0 {
      SkipRun(n - 1, bytes[1..], asWritten);
    }
  }

  /** A byte that is neither escape nor pause start is its own scancode. */
  lemma PlainByte(byte: u8, asWritten: bool)
    requires byte != ESCAPECODE && byte != PAUSE_FIRST
    ensures Decodes(IDLE, [byte], asWritten, IDLE, [byte as Scancode])
  {
    assert [byte][1..] == [];
  }

  /**
   * `0xE1` and the five bytes after it, whatever they are, produce the one
   * pause scancode and return to the idle state.
   */
  lemma PauseSequence(rest: seq<u8>, asWritten: bool)
    requires |rest| == 5
    ensures Decodes(IDLE, [PAUSE_FIRST as u8] + rest, asWritten, IDLE, [PAUSE])
  {
    assert ([PAUSE_FIRST as u8] + rest)[1..] == rest;
    SkipRun(5, rest, asWritten);
  }

  /**
   * Corrected, `0xE0 0x2A` and `0xE0 0xB7` with the two bytes after them
   * produce the print screen pressed and released scancodes and return to
   * idle, and decoding goes on normally from the next byte.
   */
  lemma PrintSequence(second: u8, rest: seq<u8>)
    requires second == PRINT_PRESSED_SECOND || second == PRINT_RELEASED_SECOND
    requires |rest| == 2
    ensures Decodes(IDLE, [ESCAPECODE as u8, second] + rest, false, IDLE, [if second == PRINT_PRESSED_SECOND then PRINT_PRESSED else PRINT_RELEASED])
  {
    var bytes := [ESCAPECODE as u8, second] + rest;
    assert bytes[1..][1..] == rest;
    SkipRun(2, rest, false);
  }

  /**
   * As written, the print screen sequence swallows the byte after it: a key
   * pressed straight after print screen is lost.
   */
  lemma PrintSwallowsNextByte(next: u8)
    ensures Decodes(IDLE, [0xe0, 0x2a, 0xe0, 0x37, next], true, IDLE, [PRINT_PRESSED])
  {
    var bytes: seq<u8> := [0xe0, 0x2a, 0xe0, 0x37, next];
    assert bytes[1..][1..] == bytes[2..];
    SkipRun(3, bytes[2..], true);
  }

  /** The corrected decoder reports the key pressed straight after print screen. */
  lemma PrintKeepsNextByte(next: u8)
    requires next != ESCAPECODE && next != PAUSE_FIRST
    ensures Decodes(IDLE, [0xe0, 0x2a, 0xe0, 0x37, next], false, IDLE, [PRINT_PRESSED, next as Scancode])
  {
    var bytes: seq<u8> := [0xe0, 0x2a, 0xe0, 0x37, next];
    assert bytes[1..][1..] == bytes[2..];
    DecodeAppend(ByteState(2, false), bytes[2..4], [next], false);
    assert bytes[2..] == bytes[2..4] + [next];
    SkipRun(2, bytes[2..4], false);
    PlainByte(next, false);
  }

  /** `0xE0` and a byte other than a print screen second byte produce one scancode and return to idle. */
  lemma EscapedDecode(byte: u8, asWritten: bool)
    requires byte != PRINT_PRESSED_SECOND && byte != PRINT_RELEASED_SECOND
    ensures Decodes(IDLE, [ESCAPECODE as u8, byte], asWritten, IDLE, [EscapedScancode(byte, asWritten)])
  {
    var bytes: seq<u8> := [ESCAPECODE as u8, byte];
    assert bytes[1..] == [byte] && bytes[1..][1..] == [];
    var pending := ByteState(0, true);
    assert ByteStep(IDLE, ESCAPECODE as u8, asWritten) == (pending, None);
    assert ByteStep(pending, byte, asWritten) == (IDLE, Some(EscapedScancode(byte, asWritten)));
    assert Decodes(pending, [byte], asWritten, IDLE, [EscapedScancode(byte, asWritten)]);
  }

  /**
   * As written every extended key reads as a press of the escape key:
   * its scancode is 1, keycode 1, and pressed.
   */
  lemma EscapedKeyReadsAsEscape(byte: u8)
    requires byte != PRINT_PRESSED_SECOND && byte != PRINT_RELEASED_SECOND
    ensures Decodes(IDLE, [ESCAPECODE as u8, byte], true, IDLE, [1])
    ensures ScancodeToKeycode(1, true) == 1 && KeyPressed(1)
  {
    EscapedDecode(byte, true);
  }

  /** Corrected, `0xE0 xx` has keycode `xx | 0x80` and the pressed flag of `xx`. */
  lemma EscapedKey(byte: u8)
    requires byte != PRINT_PRESSED_SECOND && byte != PRINT_RELEASED_SECOND
    ensures Decodes(IDLE, [ESCAPECODE as u8, byte], false, IDLE, [0xe000 + byte])
    ensures ScancodeToKeycode(0xe000 + byte, false) == byte % 0x80 + 0x80
    ensures KeyPressed(0xe000 + byte) <==> byte < 0x80
  {
    EscapedDecode(byte, false);
    if byte < 0x80 {
      ExtendedSameKey(byte, false);
    } else {
      ExtendedSameKey(byte - 0x80, false);
    }
  }

  // ---------------------------------------------------------------------
  // kbd_handle_scancode and the driver's state

  /** The modifier bits kbd_handle_scancode fills in (`altgr` and `ctrlr` are left unset). */
  datatype Modifiers = Modifiers(shift: bool, shiftr: bool, capslock: bool, alt: bool, ctrl: bool)

  datatype KeyAction = KeyAction(character: char, keycode: u8, scancode: Scancode, pressed: bool, modifiers: Modifiers)

  /** The action for scancode `s`, read from the key table after it records `s`. */
  function ActionFor(s: Scancode, keymap: seq<bool>, caps: bool): (a: KeyAction)
    requires |keymap| == 256
    ensures a.keycode == ScancodeToKeycode(s, false) && a.scancode == s
    ensures a.character == CharOf(a.keycode, keymap[KEYCODE_SHIFT], caps)
  {
    var k := ScancodeToKeycode(s, false);
    KeyAction(CharOf(k, keymap[KEYCODE_SHIFT], caps), k, s, keymap[k],
      Modifiers(keymap[KEYCODE_SHIFT], keymap[KEYCODE_SHIFTR], caps, keymap[KEYCODE_ALT], keymap[KEYCODE_CTRL]))
  }

  /** eventqueue_add on the queue contents: dropped once 256 actions wait. */
  function Enqueue(q: seq<KeyAction>, a: KeyAction): seq<KeyAction>
  {
    if |q| < EVENTQUEUE_SIZE then q + [a] else q
  }

  /** The caps lock flag after scancode `s`: it flips only on a caps lock press. */
  function CapsAfter(caps: bool, s: Scancode): bool
  {
    caps != (ScancodeToKeycode(s, false) == KEYCODE_CAPSLOCK && KeyPressed(s))
  }

  /**
   * Only a caps lock press flips caps lock: a release or any other key
   * leaves it, and a second press restores it.
   */
  lemma CapsToggle(caps: bool, s: Scancode)
    ensures !KeyPressed(s) || ScancodeToKeycode(s, false) != KEYCODE_CAPSLOCK ==> CapsAfter(caps, s) == caps
    ensures KeyPressed(s) && ScancodeToKeycode(s, false) == KEYCODE_CAPSLOCK ==>
      CapsAfter(caps, s) != caps && CapsAfter(CapsAfter(caps, s), s) == caps
  {
  }

  class Keyboard {
    const queue: RingBuffer.Ring<KeyAction>
    const keymap: array<bool>
    var caps: bool
    var skipNext: nat
    var escape: bool

    ghost predicate Valid()
      reads this, queue
    {
      && queue.Valid() && queue.capacity == EVENTQUEUE_SIZE
      && keymap.Length == 256
      && Reachable(ByteState(skipNext, escape))
    }

    /** The zero-initialised driver: no key down, caps lock off, empty queue. */
    constructor ()
      ensures Valid() && fresh(queue) && fresh(queue.data) && fresh(keymap)
      ensures queue.Contents() == [] && !caps && skipNext == 0 && !escape
      ensures forall k :: 0 <= k < 256 ==> !keymap[k]
    {
      queue := new RingBuffer.Ring(EVENTQUEUE_SIZE, KeyAction(0 as char, 0, 0, false, Modifiers(false, false, false, false, false)));
      keymap := new bool[256](_ => false);
      caps := false;
      skipNext := 0;
      escape := false;
    }

    /** The state after kbd_handle_scancode(s), given the state before it. */
    ghost predicate Recorded(s: Scancode, keymap0: seq<bool>, caps0: bool, queue0: seq<KeyAction>)
      reads this, keymap, queue, queue.data
      requires Valid() && |keymap0| == 256
    {
      var k := ScancodeToKeycode(s, false);
      && keymap[..] == keymap0[k := KeyPressed(s)]
      && caps == CapsAfter(caps0, s)
      && queue.Contents() == Enqueue(queue0, ActionFor(s, keymap[..], caps0))
    }

    /** kbd_keycode_to_char on the current key table and caps lock. */
    function KeycodeToChar(keycode: u8): (c: char)
      reads this, keymap, queue
      requires Valid()
      ensures c == CharOf(keycode, keymap[KEYCODE_SHIFT], caps)
    {
      if keycode < CHARMAP_SIZE then
        if keymap[KEYCODE_SHIFT] != caps then SHIFT_MAP[keycode] else NORMAL_MAP[keycode]
      else 0 as char
    }

    /**
     * kbd_handle_scancode: record whether the key is down, build the
     * action, flip caps lock on a caps lock press, and queue the action
     * unless the queue is full.
     */
    method HandleScancode(s: Scancode)
      requires Valid()
      modifies this, keymap, queue, queue.data
      ensures Valid() && skipNext == old(skipNext) && escape == old(escape)
      ensures Recorded(s, old(keymap[..]), old(caps), old(queue.Contents()))
    {
      var keycode := ScancodeToKeycode(s, false);
      keymap[keycode] := KeyPressed(s);
      var action := KeyAction(KeycodeToChar(keycode), keycode, s, keymap[keycode],
        Modifiers(keymap[KEYCODE_SHIFT], keymap[KEYCODE_SHIFTR], caps, keymap[KEYCODE_ALT], keymap[KEYCODE_CTRL]));
      assert action == ActionFor(s, keymap[..], caps);
      if keycode == KEYCODE_CAPSLOCK && action.pressed {
        caps := !caps;
      }
      var added := queue.Add(action);
    }

    /**
     * The state after kbd_handle_byte(byte), given the state before it: the
     * decoder takes one step, and a scancode it completes is recorded.
     */
    ghost predicate ByteHandled(byte: u8, st0: ByteState, keymap0: seq<bool>, caps0: bool, queue0: seq<KeyAction>)
      reads this, keymap, queue, queue.data
      requires Valid() && |keymap0| == 256
    {
      var (st, out) := ByteStep(st0, byte, false);
      && ByteState(skipNext, escape) == st
      && (out.None? ==> keymap[..] == keymap0 && caps == caps0 && queue.Contents() == queue0)
      && (out.Some? ==> Recorded(out.value, keymap0, caps0, queue0))
    }

    /**
     * kbd_handle_byte: one step of the byte state machine; a completed
     * scancode goes through kbd_handle_scancode, and nothing else changes.
     */
    method HandleByte(byte: u8)
      requires Valid()
      modifies this, keymap, queue, queue.data
      ensures Valid()
      ensures ByteHandled(byte, old(ByteState(skipNext, escape)), old(keymap[..]), old(caps), old(queue.Contents()))
    {
      if skipNext > 0 {
        skipNext := skipNext - 1;
        return;
      }
      if !escape {
        if byte == ESCAPECODE {
          escape := true;
          return;
        } else if byte == PAUSE_FIRST {
          HandleScancode(PAUSE);
          skipNext := 5;
          return;
        }
      }
      if escape {
        if byte == PRINT_PRESSED_SECOND || byte == PRINT_RELEASED_SECOND {
          HandleScancode(if byte == PRINT_PRESSED_SECOND then PRINT_PRESSED else PRINT_RELEASED);
          skipNext := PrintSkip(false);
          escape := false;
          return;
        }
        escape := false;
        HandleScancode(EscapedScancode(byte, false));
        return;
      }
      HandleScancode(byte);
    }

    /** kbd_get_keyaction (eventqueue_read): 1 and the oldest action, or 0 when none waits. */
    method GetKeyAction() returns (r: int, action: Option<KeyAction>)
      requires Valid()
      modifies queue
      ensures Valid()
      ensures r == 1 || r == 0
      ensures r == 0 <==> old(queue.Contents()) == []
      ensures r == 0 ==> action.None? && queue.Contents() == old(queue.Contents())
      ensures r == 1 ==> action == Some(old(queue.Contents())[0]) && queue.Contents() == old(queue.Contents())[1..]
    {
      var x := queue.Read();
      if x.None? {
        return 0, None;
      }
      return 1, Some(x.value);
    }
  }
}
