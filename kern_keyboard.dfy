/**
 * The older kernel's keyboard driver. Its queue, scancode to keycode
 * mapping and character maps are those of the newer driver (PS2Keyboard);
 * it differs in three ways: the escape flag is never cleared after an
 * ordinary extended key, caps lock is never toggled, and the shifted map
 * is used only while shift is down and caps lock is off. Its key actions
 * carry no modifier bits.
 */
module KernKeyboard {
  import opened Common
  import RingBuffer
  import opened PS2Keyboard

  /**
   * kbd_handle_byte of the older driver. As written, an `0xE0` followed by
   * anything but a print screen byte leaves `escape_code` set, so every
   * later byte is taken as the second byte of an extended key; it shares
   * the `||` and skip-count slips of the newer driver. The corrected step
   * is the newer driver's corrected step.
   */
  function KernByteStep(st: ByteState, byte: u8, asWritten: bool): (ByteState, Option<Scancode>)
  {
    if !asWritten then ByteStep(st, byte, false)
    else if st.skipNext > 0 then (st.(skipNext := st.skipNext - 1), None)
    else if !st.escape && byte == ESCAPECODE then (st.(escape := true), None)
    else if !st.escape && byte == PAUSE_FIRST then (ByteState(5, st.escape), Some(PAUSE))
    else if st.escape then
      if byte == PRINT_PRESSED_SECOND || byte == PRINT_RELEASED_SECOND then
        (ByteState(PrintSkip(true), false), Some(if byte == PRINT_PRESSED_SECOND then PRINT_PRESSED else PRINT_RELEASED))
      else (st, Some(EscapedScancode(byte, true)))
    else (st, Some(byte))
  }

  /** The scancodes the older driver makes of a run of bytes. */
  function KernDecode(st: ByteState, bytes: seq<u8>, asWritten: bool): (ByteState, seq<Scancode>)
    decreases |bytes|
  {
    if |bytes| == 0 then (st, [])
    else
      var step := KernByteStep(st, bytes[0], asWritten);
      var tail := KernDecode(step.0, bytes[1..], asWritten);
      (tail.0, Emitted(step.1) + tail.1)
  }

  /**
   * Once an ordinary extended key has been seen, the escape flag stays set:
   * as written, `n` further ordinary bytes each come out as scancode 1 and
   * the decoder is still escaped afterwards.
   */
  lemma {:induction false} EscapeSticks(bytes: seq<u8>)
    requires forall i :: 0 <= i < |bytes| ==> bytes[i] != PRINT_PRESSED_SECOND && bytes[i] != PRINT_RELEASED_SECOND
    ensures KernDecode(ByteState(0, true), bytes, true).0 == ByteState(0, true)
    ensures KernDecode(ByteState(0, true), bytes, true).1 == seq(|bytes|, _ => 1)
    decreases |bytes|
  {
    if |bytes| > 0 {
      EscapeSticks(bytes[1..]);
      assert [1] + seq(|bytes| - 1, _ => 1) == seq(|bytes|, _ => 1);
    }
  }

  /**
   * A key after an extended key: as written the older driver reports
   * scancode 1 twice and stays escaped.
   */
  lemma ExtendedThenPlainAsWritten(ext: u8, plain: u8)
    requires ext != PRINT_PRESSED_SECOND && ext != PRINT_RELEASED_SECOND
    requires plain != PRINT_PRESSED_SECOND && plain != PRINT_RELEASED_SECOND
    ensures KernDecode(IDLE, [ESCAPECODE as u8, ext, plain], true).0 == ByteState(0, true)
    ensures KernDecode(IDLE, [ESCAPECODE as u8, ext, plain], true).1 == [1, 1]
  {
    var bytes: seq<u8> := [ESCAPECODE as u8, ext, plain];
    assert bytes[1..] == [ext, plain];
    EscapeSticks(bytes[1..]);
    assert seq(2, _ => 1) == [1, 1];
  }

  /**
   * Corrected, the extended key and then the plain key are reported and
   * the decoder is idle again.
   */
  lemma ExtendedThenPlain(ext: u8, plain: u8)
    requires ext != PRINT_PRESSED_SECOND && ext != PRINT_RELEASED_SECOND
    requires plain != ESCAPECODE && plain != PAUSE_FIRST
    ensures KernDecode(IDLE, [ESCAPECODE as u8, ext, plain], false).0 == IDLE
    ensures KernDecode(IDLE, [ESCAPECODE as u8, ext, plain], false).1 == [0xe000 + ext, plain as Scancode]
  {
    var bytes: seq<u8> := [ESCAPECODE as u8, ext, plain];
    assert bytes == [ESCAPECODE as u8, ext] + [plain];
    SameAsNewer(IDLE, bytes);
    DecodeAppend(IDLE, [ESCAPECODE as u8, ext], [plain], false);
    EscapedDecode(ext, false);
    PlainByte(plain, false);
  }

  /**
   * The corrected older decoder and the corrected newer one agree on every
   * run of bytes.
   */
  lemma {:induction false} SameAsNewer(st: ByteState, bytes: seq<u8>)
    ensures KernDecode(st, bytes, false) == Decode(st, bytes, false)
    decreases |bytes|
  {
    if |bytes| > 0 {
      SameAsNewer(ByteStep(st, bytes[0], false).0, bytes[1..]);
    }
  }

  /**
   * The older driver skips three bytes after the second byte of print
   * screen, as the newer one does: the byte after `E0 2A E0 37` is lost.
   */
  lemma KernPrintSwallowsNextByte(next: u8)
    ensures KernDecode(IDLE, [0xe0, 0x2a, 0xe0, 0x37, next], true) == (IDLE, [PRINT_PRESSED])
  {
    var bytes: seq<u8> := [0xe0, 0x2a, 0xe0, 0x37, next];
    var st := [IDLE, ByteState(0, true), ByteState(PrintSkip(true), false), ByteState(2, false), ByteState(1, false), IDLE];
    assert KernDecode(IDLE, bytes[5..], true) == (IDLE, []);
    var k := 5;
    while k > 0
      invariant 0 <= k <= 5
      invariant KernDecode(st[k], bytes[k..], true) == (IDLE, if k <= 1 then [PRINT_PRESSED] else [])
    {
      k := k - 1;
      var step := KernByteStep(st[k], bytes[k..][0], true);
      assert step == (st[k + 1], if k == 1 then Some(PRINT_PRESSED) else None);
      assert bytes[k..][1..] == bytes[k + 1..];
      var tail := KernDecode(step.0, bytes[k..][1..], true);
      assert KernDecode(st[k], bytes[k..], true) == (tail.0, Emitted(step.1) + tail.1);
      assert Emitted(step.1) + tail.1 == if k <= 1 then [PRINT_PRESSED] else [];
    }
    assert bytes[0..] == bytes;
  }

  /** Corrected, the older driver reports the key pressed straight after print screen. */
  lemma KernPrintKeepsNextByte(next: u8)
    requires next != ESCAPECODE && next != PAUSE_FIRST
    ensures KernDecode(IDLE, [0xe0, 0x2a, 0xe0, 0x37, next], false) == (IDLE, [PRINT_PRESSED, next as Scancode])
  {
    SameAsNewer(IDLE, [0xe0, 0x2a, 0xe0, 0x37, next]);
    PrintKeepsNextByte(next);
  }

  /**
   * As written, the older driver's `(SCANCODE_ESCAPECODE << 8) || byte`
   * makes every extended key scancode 1, as the newer one's does.
   */
  lemma KernEscapedKeyReadsAsEscape(byte: u8)
    requires byte != PRINT_PRESSED_SECOND && byte != PRINT_RELEASED_SECOND
    ensures KernDecode(IDLE, [ESCAPECODE as u8, byte], true).1 == [1]
  {
    var bytes: seq<u8> := [ESCAPECODE as u8, byte];
    var pending := ByteState(0, true);
    assert bytes[1..][1..] == [];
    var step := KernByteStep(pending, bytes[1..][0], true);
    assert step == (pending, Some(1));
    var tail := KernDecode(pending, bytes[1..][1..], true);
    assert tail == (pending, []);
    assert KernDecode(pending, bytes[1..], true) == (tail.0, Emitted(step.1) + tail.1);
    assert Emitted(step.1) + tail.1 == [1];
    var first := KernByteStep(IDLE, bytes[0], true);
    assert first == (pending, None);
    assert KernDecode(IDLE, bytes, true) == (KernDecode(pending, bytes[1..], true).0, Emitted(first.1) + KernDecode(pending, bytes[1..], true).1);
  }

  /** Corrected, `E0 xx` is the one scancode `0xE0xx`. */
  lemma KernEscapedKey(byte: u8)
    requires byte != PRINT_PRESSED_SECOND && byte != PRINT_RELEASED_SECOND
    ensures KernDecode(IDLE, [ESCAPECODE as u8, byte], false) == (IDLE, [0xe000 + byte])
  {
    SameAsNewer(IDLE, [ESCAPECODE as u8, byte]);
    EscapedKey(byte);
  }

  /**
   * kbd_keycode_to_char of the older driver: the shifted map only while
   * shift is down and caps lock is off, and NUL past the maps. With caps
   * lock on, shift has no effect.
   */
  function KernCharOf(keycode: u8, shift: bool, caps: bool): (c: char)
    ensures caps ==> c == CharOf(keycode, false, false)
    ensures !caps ==> c == CharOf(keycode, shift, false)
  {
    if keycode < CHARMAP_SIZE then
      if shift && !caps then SHIFT_MAP[keycode] else NORMAL_MAP[keycode]
    else 0 as char
  }

  /** The older driver's key action: no modifier bits are filled in. */
  datatype KernKeyAction = KernKeyAction(character: char, keycode: u8, scancode: Scancode, pressed: bool)

  function KernActionFor(s: Scancode, keymap: seq<bool>, caps: bool): (a: KernKeyAction)
    requires |keymap| == 256
    ensures a.keycode == ScancodeToKeycode(s, false) && a.scancode == s
    ensures a.pressed == keymap[a.keycode]
  {
    var k := ScancodeToKeycode(s, false);
    KernKeyAction(KernCharOf(k, keymap[KEYCODE_SHIFT], caps), k, s, keymap[k])
  }

  function KernEnqueue(q: seq<KernKeyAction>, a: KernKeyAction): seq<KernKeyAction>
  {
    if |q| < EVENTQUEUE_SIZE then q + [a] else q
  }

  class KernKeyboard {
    const queue: RingBuffer.Ring<KernKeyAction>
    const keymap: array<bool>
    var caps: bool
    var skipNext: nat
    var escape: bool

    ghost predicate Valid()
      reads this, queue
    {
      && queue.Valid() && queue.capacity == EVENTQUEUE_SIZE
      && keymap.Length == 256
      && Reachable(ByteState(skipNext, escape))
    }

    constructor ()
      ensures Valid() && fresh(queue) && fresh(queue.data) && fresh(keymap)
      ensures queue.Contents() == [] && !caps && skipNext == 0 && !escape
      ensures forall k :: 0 <= k < 256 ==> !keymap[k]
    {
      queue := new RingBuffer.Ring(EVENTQUEUE_SIZE, KernKeyAction(0 as char, 0, 0, false));
      keymap := new bool[256](_ => false);
      caps := false;
      skipNext := 0;
      escape := false;
    }

    /** The state after kbd_handle_scancode(s): caps lock is never touched. */
    ghost predicate Recorded(s: Scancode, keymap0: seq<bool>, queue0: seq<KernKeyAction>)
      reads this, keymap, queue, queue.data
      requires Valid() && |keymap0| == 256
    {
      && keymap[..] == keymap0[ScancodeToKeycode(s, false) := KeyPressed(s)]
      && queue.Contents() == KernEnqueue(queue0, KernActionFor(s, keymap[..], caps))
    }

    function KeycodeToChar(keycode: u8): (c: char)
      reads this, keymap, queue
      requires Valid()
      ensures c == KernCharOf(keycode, keymap[KEYCODE_SHIFT], caps)
    {
      if keycode < CHARMAP_SIZE then
        if keymap[KEYCODE_SHIFT] && !caps then SHIFT_MAP[keycode] else NORMAL_MAP[keycode]
      else 0 as char
    }

    /** kbd_handle_scancode: record the key, build the action, queue it unless full. */
    method HandleScancode(s: Scancode)
      requires Valid()
      modifies keymap, queue, queue.data
      ensures Valid() && Recorded(s, old(keymap[..]), old(queue.Contents()))
    {
      var keycode := ScancodeToKeycode(s, false);
      keymap[keycode] := KeyPressed(s);
      var action := KernKeyAction(KeycodeToChar(keycode), keycode, s, keymap[keycode]);
      assert action == KernActionFor(s, keymap[..], caps);
      var added := queue.Add(action);
    }

    /** kbd_handle_byte, with the escape flag cleared after every extended key. */
    method HandleByte(byte: u8)
      requires Valid()
      modifies this, keymap, queue, queue.data
      ensures Valid() && caps == old(caps)
      ensures var (st, out) := KernByteStep(old(ByteState(skipNext, escape)), byte, false);
        && ByteState(skipNext, escape) == st
        && (out.None? ==> keymap[..] == old(keymap[..]) && queue.Contents() == old(queue.Contents()))
        && (out.Some? ==> Recorded(out.value, old(keymap[..]), old(queue.Contents())))
    {
      if skipNext > 0 {
        skipNext := skipNext - 1;
        return;
      }
      if !escape {
        if byte == ESCAPECODE {
          escape := true;
          return;
        } else if byte == PAUSE_FIRST {
          HandleScancode(PAUSE);
          skipNext := 5;
          return;
        }
      }
      if escape {
        if byte == PRINT_PRESSED_SECOND || byte == PRINT_RELEASED_SECOND {
          HandleScancode(if byte == PRINT_PRESSED_SECOND then PRINT_PRESSED else PRINT_RELEASED);
          skipNext := PrintSkip(false);
          escape := false;
          return;
        }
        escape := false;
        HandleScancode(EscapedScancode(byte, false));
        return;
      }
      HandleScancode(byte);
    }

    /** kbd_get_keyaction: 1 and the oldest action, or 0 when none waits. */
    method GetKeyAction() returns (r: int, action: Option<KernKeyAction>)
      requires Valid()
      modifies queue
      ensures Valid()
      ensures r == 0 <==> old(queue.Contents()) == []
      ensures r == 0 ==> action.None? && queue.Contents() == old(queue.Contents())
      ensures r == 1 ==> action == Some(old(queue.Contents())[0]) && queue.Contents() == old(queue.Contents())[1..]
      ensures r == 0 || r == 1
    {
      var x := queue.Read();
      if x.None? {
        return 0, None;
      }
      return 1, Some(x.value);
    }
  }
}
