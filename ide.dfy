/**
 * The ATA IDENTIFY DEVICE data stores its model string two characters per
 * 16-bit word with the first character in the high byte, so read as bytes
 * on a little-endian machine every pair comes out swapped ("EQUMH RADDSI K"
 * for "QEMU HARDDISK "). ide_fix_string puts the pairs back in order and
 * turns the padding at the end into NULs.
 */
module Ide {
  import opened Common
  import Arith

  const SPACE: u8 := 0x20

  /** A byte that is part of the text: neither a NUL nor a space. */
  predicate Significant(c: u8)
  {
    c != 0 && c != SPACE
  }

  /** The bytes with the two bytes of every 16-bit word exchanged. */
  function Swapped(s: seq<u8>): (r: seq<u8>)
    requires |s| % 2 == 0
    ensures |r| == |s|
  {
    seq(|s|, i requires 0 <= i < |s| => if i % 2 == 0 then s[i + 1] else s[i - 1])
  }

  /** Swapping twice gives the bytes back. */
  lemma SwappedTwice(s: seq<u8>)
    requires |s| % 2 == 0
    ensures Swapped(Swapped(s)) == s
  {
    var t := Swapped(s);
    assert forall i :: 0 <= i < |s| ==> Swapped(t)[i] == s[i];
  }

  /**
   * The `end` of ide_fix_string once it has looked at the first `n` bytes:
   * the index of the last significant byte among them, or 0 if there is none.
   */
  function LastSignificant(s: seq<u8>, n: nat): (e: nat)
    requires n <= |s|
    ensures n == 0 ==> e == 0
    ensures n > 0 ==> e < n
  {
    if n == 0 then 0
    else if Significant(s[n - 1]) then n - 1
    else LastSignificant(s, n - 1)
  }

  /**
   * No significant byte comes after `LastSignificant`, and the byte there
   * is significant exactly when the first `n` bytes hold one.
   */
  lemma {:induction false} LastSignificantIsLast(s: seq<u8>, n: nat)
    requires n <= |s|
    ensures forall k :: LastSignificant(s, n) < k < n ==> !Significant(s[k])
    ensures (exists k :: 0 <= k < n && Significant(s[k])) <==> (n > 0 && Significant(s[LastSignificant(s, n)]))
    ensures (forall k :: 0 <= k < n ==> !Significant(s[k])) ==> LastSignificant(s, n) == 0
  {
    if n > 0 && !Significant(s[n - 1]) {
      LastSignificantIsLast(s, n - 1);
    }
  }

  /** What ide_fix_string leaves in a buffer of even length. */
  function Fixed(s: seq<u8>): (r: seq<u8>)
    requires |s| % 2 == 0
    ensures |r| == |s|
  {
    var t := Swapped(s);
    var e := LastSignificant(t, |t|);
    seq(|t|, i requires 0 <= i < |t| => if i <= e then t[i] else 0)
  }

  /**
   * The swapped text is kept up to its last significant byte, every byte
   * after it becomes NUL, and only spaces and NULs were cleared; with no
   * significant byte at all, only the first byte is kept.
   */
  lemma FixedKeepsText(s: seq<u8>)
    requires |s| % 2 == 0
    ensures var t, r := Swapped(s), Fixed(s);
      (forall i :: 0 <= i < |s| && Significant(t[i]) ==> r[i] == t[i])
      && (forall i :: 0 <= i < |s| && r[i] != t[i] ==> r[i] == 0 && !Significant(t[i]))
      && (forall i, k :: 0 <= i < k < |s| && r[i] != t[i] ==> r[k] == 0)
      && ((forall i :: 0 <= i < |s| ==> !Significant(t[i])) ==> forall i :: 1 <= i < |s| ==> r[i] == 0)
      && (|s| > 0 ==> r[0] == t[0])
  {
    var t := Swapped(s);
    LastSignificantIsLast(t, |t|);
  }

  /** The driver's own example: "EQUMH RADDSI K" becomes "QEMU HARDDISK" and a NUL. */
  lemma QemuModel()
    ensures Fixed([0x45, 0x51, 0x55, 0x4D, 0x48, 0x20, 0x52, 0x41, 0x44, 0x44, 0x53, 0x49, 0x20, 0x4B])
      == [0x51, 0x45, 0x4D, 0x55, 0x20, 0x48, 0x41, 0x52, 0x44, 0x44, 0x49, 0x53, 0x4B, 0x00]
  {
    var s: seq<u8> := [0x45, 0x51, 0x55, 0x4D, 0x48, 0x20, 0x52, 0x41, 0x44, 0x44, 0x53, 0x49, 0x20, 0x4B];
    var t := Swapped(s);
    assert t == [0x51, 0x45, 0x4D, 0x55, 0x20, 0x48, 0x41, 0x52, 0x44, 0x44, 0x49, 0x53, 0x4B, 0x20];
    assert LastSignificant(t, 14) == 12;
  }

  /**
   * The word swap as ide_fix_string writes it, `(w << 8) | (w >> 8)` kept
   * to 16 bits; the two shifted halves share no bit, so `|` adds them.
   */
  function SwapWord(w: u16): u16
  {
    (w * 0x100 + w / 0x100) % 0x10000
  }

  /** Swapping the halves of the word whose low byte is `lo` and high byte `hi`. */
  lemma SwapWordBytes(lo: u8, hi: u8)
    ensures SwapWord(lo + 0x100 * hi) % 0x100 == hi && SwapWord(lo + 0x100 * hi) / 0x100 == lo
  {
    var w := lo + 0x100 * hi;
    Arith.DivModUnique(w, 0x100, hi, lo);
    Arith.DivModUnique(w * 0x100 + hi, 0x10000, hi, 0x100 * lo + hi) by {
      assert w * 0x100 == lo * 0x100 + hi * 0x10000;
    }
    Arith.DivModUnique(0x100 * lo + hi, 0x100, lo, hi);
  }

  /**
   * ide_fix_string(s, len): panics when `len` is odd, and otherwise leaves
   * `Fixed` of the first `len` bytes in place; the rest of the buffer is
   * not touched. A panic stops the kernel, so nothing changes then.
   */
  method FixString(s: array<u8>, len: nat) returns (panicked: bool)
    requires len <= s.Length
    modifies s
    ensures panicked <==> len % 2 == 1
    ensures panicked ==> s[..] == old(s[..])
    ensures !panicked ==> s[..len] == Fixed(old(s[..len]))
    ensures forall k :: len <= k < s.Length ==> s[k] == old(s[k])
  {
    if len % 2 == 1 {
      return true;
    }
    panicked := false;
    ghost var t := Swapped(old(s[..len]));
    SwapWords(s, len);
    assert s[..len] == t;
    var end := LastSignificantOf(s, len);
    ClearTail(s, end + 1, len);
    assert forall k :: 0 <= k < len ==> s[k] == Fixed(old(s[..len]))[k];
  }

  /** The third loop of ide_fix_string: the bytes from `start` up to `len` become NUL. */
  method ClearTail(s: array<u8>, start: nat, len: nat)
    requires len <= s.Length
    modifies s
    ensures forall k :: 0 <= k < s.Length ==> s[k] == if start <= k < len then 0 else old(s[k])
  {
    var i := start;
    while i < len
      invariant start <= i <= if start <= len then len else start
      invariant forall k :: 0 <= k < s.Length ==> s[k] == if start <= k < i then 0 else old(s[k])
    {
      s[i] := 0;
      i := i + 1;
    }
  }

  /** The first loop of ide_fix_string: every word of the first `len` bytes has its bytes swapped. */
  method SwapWords(s: array<u8>, len: nat)
    requires len <= s.Length && len % 2 == 0
    modifies s
    ensures s[..len] == Swapped(old(s[..len]))
    ensures forall k :: len <= k < s.Length ==> s[k] == old(s[k])
  {
    ghost var t := Swapped(old(s[..len]));
    var i := 0;
    while i < len / 2
      invariant 0 <= i <= len / 2
      invariant forall k :: 0 <= k < 2 * i ==> s[k] == t[k]
      invariant forall k :: 2 * i <= k < s.Length ==> s[k] == old(s[k])
    {
      var word: u16 := s[2 * i] as int + 0x100 * s[2 * i + 1] as int;
      var w := SwapWord(word);
      SwapWordBytes(s[2 * i], s[2 * i + 1]);
      s[2 * i] := w % 0x100;
      s[2 * i + 1] := w / 0x100;
      i := i + 1;
    }
  }

  /** The second loop of ide_fix_string: the index of the last significant byte, 0 if none. */
  method LastSignificantOf(s: array<u8>, len: nat) returns (end: nat)
    requires len <= s.Length
    ensures end == LastSignificant(s[..len], len)
  {
    end := 0;
    var i := 0;
    while i < len
      invariant i <= len
      invariant end == LastSignificant(s[..len], i)
    {
      if s[i] != 0 && s[i] != SPACE {
        end := i;
      }
      i := i + 1;
    }
  }
}
