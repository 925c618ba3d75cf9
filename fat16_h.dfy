/**
 * The on-disk layout of a FAT16 volume as the kernel reads it: the packed
 * boot record and extended boot record at the start of the disk, the
 * packed 32-byte directory entry, and the macros that unpack the FAT date
 * and time fields (Microsoft FAT specification, "Boot Sector and BPB" and
 * "FAT Directory Structure"). Multi-byte fields are little-endian.
 */
module Fat16Layout {
  import opened Common
  import opened Arith

  const FAT_FILENAME_LENGTH: int := 11
  const FAT_ATTR_DIRECTORY: int := 0x10
  /** sizeof(struct FAT16DirEntry): packed, 11 + 1 + 1 + 1 + 2 * 7 + 4. */
  const DIR_ENTRY_SIZE: int := 11 + 1 + 1 + 1 + 2 * 7 + 4
  /** sizeof(struct FAT16BootRecord): 3 + 8 + 2 + 1 + 2 + 1 + 2 + 2 + 1 + 2 + 2 + 2 + 4 + 4. */
  const BOOT_RECORD_SIZE: int := 3 + 8 + 2 + 1 + 2 + 1 + 2 + 2 + 1 + 2 + 2 + 2 + 4 + 4
  /** sizeof(struct FAT16ExtendedBootRecord): 1 + 1 + 1 + 4 + 11 + 8 + 448 + 2. */
  const EXT_BOOT_RECORD_SIZE: int := 1 + 1 + 1 + 4 + 11 + 8 + 448 + 2

  /** The two records fill the first sector. */
  lemma RecordSizes()
    ensures DIR_ENTRY_SIZE == 32 && BOOT_RECORD_SIZE == 36 && BOOT_RECORD_SIZE + EXT_BOOT_RECORD_SIZE == 512
  {
  }

  /** The fields of the boot records the driver uses. */
  datatype BootRecord = BootRecord(
    bytesPerSector: u16, sectorsPerCluster: u8, reservedSectors: u16, fats: u8,
    maxRootEntries: u16, sectorsPerFat: u16)

  /** The boot record stored in the first 36 bytes. */
  function DecodeBootRecord(b: seq<u8>): BootRecord
    requires |b| == BOOT_RECORD_SIZE
  {
    BootRecord(LE16(b, 11), b[13], LE16(b, 14), b[16], LE16(b, 17), LE16(b, 22))
  }

  /** The extended boot record's signature byte, the third of the record. */
  function ExtendedSignature(b: seq<u8>): u8
    requires |b| == EXT_BOOT_RECORD_SIZE
  {
    b[2]
  }

  /** `struct FAT16DirEntry`. */
  datatype DirEntry = DirEntry(
    filename: seq<u8>, attributes: u8, reserved: u8, creationTimeSec: u8,
    creationTime: u16, creationDate: u16, lastAccessDate: u16, highStartingCluster: u16,
    lastModTime: u16, lastModDate: u16, lowStartingCluster: u16, filesize: u32)

  predicate WellFormed(e: DirEntry)
  {
    |e.filename| == FAT_FILENAME_LENGTH
  }

  function Bytes16(v: u16): seq<u8>
  {
    [v % 0x100, v / 0x100]
  }

  function Bytes32(v: u32): seq<u8>
  {
    [v % 0x100, (v / 0x100) % 0x100, (v / 0x1_0000) % 0x100, v / 0x100_0000]
  }

  /** The little-endian bytes of a 16-bit value read back as that value, and conversely. */
  lemma Bytes16RoundTrip(v: u16, b: seq<u8>)
    ensures LE16(Bytes16(v), 0) == v
    ensures |b| == 2 ==> Bytes16(LE16(b, 0)) == b
  {
    if |b| == 2 {
      DivModUnique(LE16(b, 0), 0x100, b[1], b[0]);
    }
  }

  lemma Bytes32RoundTrip(v: u32, b: seq<u8>)
    ensures LE32(Bytes32(v), 0) == v
    ensures |b| == 4 ==> Bytes32(LE32(b, 0)) == b
  {
    var b0, q1 := v % 0x100, v / 0x100;
    var b1, q2 := q1 % 0x100, q1 / 0x100;
    var b2, b3 := q2 % 0x100, q2 / 0x100;
    DivModUnique(v / 0x1_0000, 0x100, q2 / 0x100, q2 % 0x100) by {
      DivModUnique(v, 0x1_0000, q2, b1 * 0x100 + b0);
    }
    DivModUnique(v, 0x100_0000, b3, b2 * 0x1_0000 + b1 * 0x100 + b0);
    if |b| == 4 {
      var w := LE32(b, 0);
      var x0: int, x1: int, x2: int, x3: int := b[0], b[1], b[2], b[3];
      DivModUnique(w, 0x100, x1 + 0x100 * x2 + 0x1_0000 * x3, x0);
      DivModUnique(w / 0x100, 0x100, x2 + 0x100 * x3, x1);
      DivModUnique(w / 0x100 / 0x100, 0x100, x3, x2);
      DivModUnique(w, 0x1_0000, x2 + 0x100 * x3, x0 + 0x100 * x1);
      DivModUnique(w, 0x100_0000, x3, x0 + 0x100 * x1 + 0x1_0000 * x2);
    }
  }

  /** The entry stored in 32 bytes: name at 0..10, attributes at 11, start cluster at 26, size at 28. */
  function DecodeDirEntry(b: seq<u8>): (e: DirEntry)
    requires |b| == DIR_ENTRY_SIZE
    ensures WellFormed(e)
  {
    DirEntry(b[..11], b[11], b[12], b[13], LE16(b, 14), LE16(b, 16), LE16(b, 18), LE16(b, 20),
      LE16(b, 22), LE16(b, 24), LE16(b, 26), LE32(b, 28))
  }

  function EncodeDirEntry(e: DirEntry): (b: seq<u8>)
    requires WellFormed(e)
    ensures |b| == DIR_ENTRY_SIZE
  {
    e.filename + [e.attributes, e.reserved, e.creationTimeSec]
    + Bytes16(e.creationTime) + Bytes16(e.creationDate) + Bytes16(e.lastAccessDate)
    + Bytes16(e.highStartingCluster) + Bytes16(e.lastModTime) + Bytes16(e.lastModDate)
    + Bytes16(e.lowStartingCluster) + Bytes32(e.filesize)
  }

  /** The packed layout loses nothing: decoding an encoding gives the entry back. */
  lemma DirEntryRoundTrip(e: DirEntry)
    requires WellFormed(e)
    ensures DecodeDirEntry(EncodeDirEntry(e)) == e
  {
    var b := EncodeDirEntry(e);
    Bytes16RoundTrip(e.creationTime, []);
    Bytes16RoundTrip(e.creationDate, []);
    Bytes16RoundTrip(e.lastAccessDate, []);
    Bytes16RoundTrip(e.highStartingCluster, []);
    Bytes16RoundTrip(e.lastModTime, []);
    Bytes16RoundTrip(e.lastModDate, []);
    Bytes16RoundTrip(e.lowStartingCluster, []);
    Bytes32RoundTrip(e.filesize, []);
    assert b[..11] == e.filename;
    assert LE16(b, 26) == LE16(Bytes16(e.lowStartingCluster), 0);
    assert LE32(b, 28) == LE32(Bytes32(e.filesize), 0);
  }

  /** Every 32 bytes are the encoding of the entry they decode to. */
  lemma DirBytesRoundTrip(b: seq<u8>)
    requires |b| == DIR_ENTRY_SIZE
    ensures EncodeDirEntry(DecodeDirEntry(b)) == b
  {
    var e := DecodeDirEntry(b);
    TimesBytes(b);
    TailBytes(b);
    assert EncodeDirEntry(e) == b[..11] + b[11..14] + b[14..26] + b[26..32];
    assert b == b[..11] + b[11..14] + b[14..26] + b[26..32];
  }

  /** The six 16-bit fields between the attribute bytes and the start cluster. */
  lemma TimesBytes(b: seq<u8>)
    requires |b| == DIR_ENTRY_SIZE
    ensures Bytes16(LE16(b, 14)) + Bytes16(LE16(b, 16)) + Bytes16(LE16(b, 18))
      + Bytes16(LE16(b, 20)) + Bytes16(LE16(b, 22)) + Bytes16(LE16(b, 24)) == b[14..26]
  {
    Bytes16At(b, 14);
    Bytes16At(b, 16);
    Bytes16At(b, 18);
    Bytes16At(b, 20);
    Bytes16At(b, 22);
    Bytes16At(b, 24);
    assert b[14..26] == b[14..16] + b[16..18] + b[18..20] + b[20..22] + b[22..24] + b[24..26];
  }

  /** The start cluster and the file size. */
  lemma TailBytes(b: seq<u8>)
    requires |b| == DIR_ENTRY_SIZE
    ensures Bytes16(LE16(b, 26)) + Bytes32(LE32(b, 28)) == b[26..32]
  {
    Bytes16At(b, 26);
    Bytes32RoundTrip(0, b[28..32]);
    assert LE32(b[28..32], 0) == LE32(b, 28);
    assert b[26..32] == b[26..28] + b[28..32];
  }

  lemma Bytes16At(b: seq<u8>, off: nat)
    requires off + 2 <= |b|
    ensures Bytes16(LE16(b, off)) == b[off..off + 2]
  {
    Bytes16RoundTrip(0, b[off..off + 2]);
  }

  /** FAT_LFN_GET_ORDER: the low nibble of the order byte. */
  function LfnOrder(x: u8): (o: int)
    ensures 0 <= o < 16 && (x - o) % 16 == 0
  {
    x % 0x10
  }

  /** FAT16_GET_HOURS: the top five bits of a time field. */
  function Hours(x: u16): int { x / 0x800 }

  /** FAT16_GET_MINUTES as written: the mask 0x7F also takes the lowest hour bit. */
  function MinutesAsWritten(x: u16): int { (x / 0x20) % 0x80 }

  /** The six-bit minutes field (bits 5..10). */
  function Minutes(x: u16): int { (x / 0x20) % 0x40 }

  /** FAT16_GET_SECONDS: the field counts two-second units. */
  function Seconds(x: u16): int { 2 * (x % 0x20) }

  /** FAT16_GET_YEAR, FAT16_GET_MONTH, FAT16_GET_DAY. */
  function Year(x: u16): int { 1980 + x / 0x200 }
  function Month(x: u16): int { (x / 0x20) % 0x10 }
  function Day(x: u16): int { x % 0x20 }

  /** The time field for hours, minutes and two-second units in range. */
  function PackTime(h: int, m: int, s2: int): u16
    requires 0 <= h < 24 && 0 <= m < 60 && 0 <= s2 < 30
  {
    h * 0x800 + m * 0x20 + s2
  }

  function PackDate(y: int, m: int, d: int): u16
    requires 1980 <= y < 1980 + 128 && 0 <= m < 16 && 0 <= d < 32
  {
    (y - 1980) * 0x200 + m * 0x20 + d
  }

  /** The time decoders invert the packing. */
  lemma TimeRoundTrip(h: int, m: int, s2: int)
    requires 0 <= h < 24 && 0 <= m < 60 && 0 <= s2 < 30
    ensures var x := PackTime(h, m, s2);
      Hours(x) == h && Minutes(x) == m && Seconds(x) == 2 * s2
  {
    var x := PackTime(h, m, s2);
    DivModUnique(x, 0x800, h, m * 0x20 + s2);
    DivModUnique(x, 0x20, h * 0x40 + m, s2);
    DivModUnique(h * 0x40 + m, 0x40, h, m);
  }

  /** The date decoders invert the packing. */
  lemma DateRoundTrip(y: int, m: int, d: int)
    requires 1980 <= y < 1980 + 128 && 0 <= m < 16 && 0 <= d < 32
    ensures var x := PackDate(y, m, d);
      Year(x) == y && Month(x) == m && Day(x) == d
  {
    var x := PackDate(y, m, d);
    DivModUnique(x, 0x200, y - 1980, m * 0x20 + d);
    DivModUnique(x, 0x20, (y - 1980) * 0x10 + m, d);
    DivModUnique((y - 1980) * 0x10 + m, 0x10, y - 1980, m);
  }

  /** The decoded fields stay in their ranges: years 1980..2107, months below 16, days below 32, even seconds up to 62. */
  lemma DecodedRanges(x: u16)
    ensures 1980 <= Year(x) <= 2107 && 0 <= Month(x) < 16 && 0 <= Day(x) < 32
    ensures 0 <= Hours(x) < 32 && 0 <= Minutes(x) < 64 && 0 <= Seconds(x) <= 62 && Seconds(x) % 2 == 0
  {
  }

  /**
   * The written minutes add 64 whenever the hour is odd: one o'clock
   * sharp (0x0800) reads as 64 minutes.
   */
  lemma MinutesTakeHourBit(x: u16)
    ensures MinutesAsWritten(x) == Minutes(x) + 64 * (Hours(x) % 2)
    ensures MinutesAsWritten(PackTime(1, 0, 0)) == 64 && Minutes(PackTime(1, 0, 0)) == 0
  {
    var q := x / 0x20;
    var a := q / 0x40;
    DivModUnique(q, 0x80, a / 2, a % 2 * 0x40 + q % 0x40);
    DivModUnique(x, 0x800, a, q % 0x40 * 0x20 + x % 0x20);
    DivModUnique(PackTime(1, 0, 0), 0x20, 0x40, 0);
  }
}
