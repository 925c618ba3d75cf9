/**
 * The host tool that inspects a FAT16 image: it reads the boot records and
 * lists the root directory into an array that grows by doubling. The
 * image is the program's `ramdisk` buffer; reading outside it is undefined
 * behaviour in C, which the model reports as a failure.
 */
module Mkfat16 {
  import opened Common
  import opened Fat16Layout
  import opened Fat16
  import HostFat16
  import Ramdisk

  /** The capacity `fat16_listdir` allocates first. */
  const INITIAL_CAPACITY: nat := 20

  /** `struct FAT16FileSystem` as this tool fills it. */
  class FileSystem {
    var boot: BootRecord
    var signature: u8
    var tableOffset: int
    var rootDirOffset: int
    var dataOffset: int

    constructor ()
      ensures boot == BootRecord(0, 0, 0, 0, 0, 0) && signature == 0
      ensures tableOffset == 0 && rootDirOffset == 0 && dataOffset == 0
    {
      boot := BootRecord(0, 0, 0, 0, 0, 0);
      signature := 0;
      tableOffset, rootDirOffset, dataOffset := 0, 0, 0;
    }

    /**
     * fat16_read_filesystem on `disk`, which holds both boot records: they
     * are copied in, and when the extended signature is 0x28 or 0x29 the
     * three region offsets are those of the kernel's layout (the literal 32
     * is the directory-entry size).
     */
    method ReadFilesystem(disk: seq<u8>) returns (r: int)
      requires |disk| >= BOOT_RECORD_SIZE + EXT_BOOT_RECORD_SIZE
      modifies this
      ensures boot == DecodeBootRecord(disk[..BOOT_RECORD_SIZE])
      ensures signature == disk[BOOT_RECORD_SIZE + 2]
      ensures r == 0 <==> SignatureValid(signature)
      ensures r == 0 ==>
        var g := Layout(boot);
        tableOffset == g.tableOffset && rootDirOffset == g.rootDirOffset && dataOffset == g.dataOffset
      ensures r != 0 ==>
        r == -1 && tableOffset == old(tableOffset) && rootDirOffset == old(rootDirOffset) && dataOffset == old(dataOffset)
    {
      boot := DecodeBootRecord(disk[..BOOT_RECORD_SIZE]);
      signature := ExtendedSignature(disk[BOOT_RECORD_SIZE..BOOT_RECORD_SIZE + EXT_BOOT_RECORD_SIZE]);
      if signature != 0x29 && signature != 0x28 {
        return -1;
      }
      var sectorSize := boot.bytesPerSector;
      tableOffset := boot.reservedSectors * sectorSize;
      rootDirOffset := tableOffset;
      rootDirOffset := rootDirOffset + sectorSize * boot.sectorsPerFat * boot.fats;
      dataOffset := rootDirOffset + boot.maxRootEntries * 32;
      assert sectorSize * boot.sectorsPerFat * boot.fats == boot.fats * (boot.sectorsPerFat * sectorSize);
      return 0;
    }
  }

  /**
   * The entries fat16_listdir collects from `offset`, entry by entry up to
   * the one that starts with 0x00, leaving out those that start with 0xE5;
   * `None` when it would read outside the image.
   */
  function LiveEntries(disk: seq<u8>, offset: int): (r: Option<seq<DirEntry>>)
    decreases |disk| - offset
  {
    if !(0 <= offset < |disk|) then None
    else if disk[offset] == ENTRY_END then Some([])
    else if disk[offset] == ENTRY_UNUSED then LiveEntries(disk, offset + DIR_ENTRY_SIZE)
    else if offset + DIR_ENTRY_SIZE > |disk| then None
    else match LiveEntries(disk, offset + DIR_ENTRY_SIZE)
      case None => None
      case Some(rest) => Some([DecodeDirEntry(disk[offset..offset + DIR_ENTRY_SIZE])] + rest)
  }

  /** The entries of a directory listing's slots, in order. */
  function Entries(slots: seq<Slot>): (r: seq<DirEntry>)
    ensures |r| == |slots| && forall i :: 0 <= i < |slots| ==> r[i] == slots[i].entry
  {
    seq(|slots|, i requires 0 <= i < |slots| => slots[i].entry)
  }

  /**
   * Wherever the kernel's repeated fat16_ls reaches the end marker,
   * fat16_listdir collects exactly the entries it lists, in disk order.
   */
  lemma {:induction false} LiveEntriesAreListing(disk: seq<u8>, offset: int)
    requires Directory(disk, offset).complete
    ensures LiveEntries(disk, offset) == Some(Entries(Directory(disk, offset).slots))
    decreases |disk| - offset
  {
    match NextEntry(disk, offset)
    case Failed(_) =>
      assert false;
    case Exhausted(at) =>
      SkipUnused(disk, offset, at);
    case Listed(e, next) =>
      var at := next - DIR_ENTRY_SIZE;
      SkipUnused(disk, offset, at);
      assert disk[at..next][0] == disk[at];
      LiveEntriesAreListing(disk, next);
      EntriesCons(Slot(at, e), Directory(disk, next).slots);
  }

  /** fat16_listdir passes over a run of deleted entries. */
  lemma {:induction false} SkipUnused(disk: seq<u8>, start: int, stop: int)
    requires AllUnused(disk, start, stop)
    ensures LiveEntries(disk, start) == LiveEntries(disk, stop)
    decreases stop - start
  {
    if start != stop {
      SkipUnused(disk, start + DIR_ENTRY_SIZE, stop);
    }
  }

  lemma EntriesCons(s: Slot, rest: seq<Slot>)
    ensures Entries([s] + rest) == [s.entry] + Entries(rest)
  {
    assert Entries([s] + rest) == [s.entry] + Entries(rest) by {
      assert forall i :: 1 <= i < |rest| + 1 ==> ([s] + rest)[i] == rest[i - 1];
    }
  }

  /** One live entry moves from the entries still to collect to the collected prefix. */
  lemma LiveStep(disk: seq<u8>, offset: int, prefix: seq<DirEntry>)
    requires 0 <= offset && offset + DIR_ENTRY_SIZE <= |disk|
    requires disk[offset] != ENTRY_END && disk[offset] != ENTRY_UNUSED
    ensures Join(prefix, LiveEntries(disk, offset))
      == Join(prefix + [DecodeDirEntry(disk[offset..offset + DIR_ENTRY_SIZE])], LiveEntries(disk, offset + DIR_ENTRY_SIZE))
  {
    var e := DecodeDirEntry(disk[offset..offset + DIR_ENTRY_SIZE]);
    if LiveEntries(disk, offset + DIR_ENTRY_SIZE).Some? {
      var r := LiveEntries(disk, offset + DIR_ENTRY_SIZE).value;
      assert prefix + ([e] + r) == prefix + [e] + r;
    }
  }

  /** fat16_listdir as written: the 0xE5 test reads a signed `char`, so no entry is ever left out. */
  function ListDirAsWritten(disk: seq<u8>, offset: int): Option<seq<DirEntry>>
    decreases |disk| - offset
  {
    if !(0 <= offset < |disk|) then None
    else if disk[offset] == ENTRY_END then Some([])
    else if HostFat16.IsEntryUnusedAsWritten([disk[offset]]) then
      // Never taken: no signed byte equals 0xE5.
      assert false; None
    else if offset + DIR_ENTRY_SIZE > |disk| then None
    else match ListDirAsWritten(disk, offset + DIR_ENTRY_SIZE)
      case None => None
      case Some(rest) => Some([DecodeDirEntry(disk[offset..offset + DIR_ENTRY_SIZE])] + rest)
  }

  /**
   * A deleted entry is returned by the listing as written, while the
   * intended listing passes over it.
   */
  lemma DeletedEntryCollected(disk: seq<u8>, offset: int)
    requires 0 <= offset && offset + DIR_ENTRY_SIZE <= |disk| && disk[offset] == ENTRY_UNUSED
    requires ListDirAsWritten(disk, offset + DIR_ENTRY_SIZE).Some?
    ensures ListDirAsWritten(disk, offset)
      == Some([DecodeDirEntry(disk[offset..offset + DIR_ENTRY_SIZE])] + ListDirAsWritten(disk, offset + DIR_ENTRY_SIZE).value)
    ensures LiveEntries(disk, offset) == LiveEntries(disk, offset + DIR_ENTRY_SIZE)
  {
  }

  /** A capacity `fat16_listdir` can reach: 20 doubled some number of times. */
  predicate Doubled(capacity: nat)
    decreases capacity
  {
    capacity == INITIAL_CAPACITY || (capacity > INITIAL_CAPACITY && capacity % 2 == 0 && Doubled(capacity / 2))
  }

  /** Doubling a reachable capacity gives a reachable capacity. */
  lemma DoubledGrows(capacity: nat)
    requires Doubled(capacity)
    ensures Doubled(2 * capacity)
  {
    assert 2 * capacity / 2 == capacity;
  }

  /** `prefix` in front of the entries still to be collected. */
  function Join(prefix: seq<DirEntry>, rest: Option<seq<DirEntry>>): Option<seq<DirEntry>>
  {
    match rest
    case None => None
    case Some(r) => Some(prefix + r)
  }

  /** The `realloc` of fat16_listdir: twice the room, with the first `size` entries kept. */
  method Grow(out: array<DirEntry>, size: nat) returns (bigger: array<DirEntry>)
    requires size <= out.Length
    ensures fresh(bigger) && bigger.Length == 2 * out.Length && bigger[..size] == out[..size]
  {
    bigger := new DirEntry[2 * out.Length];
    forall i | 0 <= i < size {
      bigger[i] := out[i];
    }
  }

  /**
   * fat16_listdir(fs, folder, out) on `image`, with the root directory at
   * `rootDirOffset`; `folder` plays no part. On success the array's first
   * `size` entries are the live root entries in disk order, and its
   * capacity is 20 doubled only as often as the entries required.
   */
  method ListDir(image: seq<u8>, rootDirOffset: int, folder: Option<DirEntry>) returns (ok: bool, out: array<DirEntry>, size: nat)
    ensures ok <==> LiveEntries(image, rootDirOffset).Some?
    ensures ok ==> size <= out.Length && out[..size] == LiveEntries(image, rootDirOffset).value
    ensures Doubled(out.Length)
    ensures ok ==> out.Length == INITIAL_CAPACITY || out.Length < 2 * size
  {
    ghost var total := LiveEntries(image, rootDirOffset);
    out := new DirEntry[INITIAL_CAPACITY];
    size := 0;
    var offset := rootDirOffset;
    assert Join(out[..size], total) == total by {
      if total.Some? {
        assert [] + total.value == total.value;
      }
    }
    while true
      invariant fresh(out)
      invariant size <= out.Length && Doubled(out.Length)
      invariant out.Length == INITIAL_CAPACITY || out.Length < 2 * size
      invariant total == Join(out[..size], LiveEntries(image, offset))
      decreases |image| - offset
    {
      if !(0 <= offset < |image|) {
        return false, out, size;
      }
      if image[offset] == ENTRY_END {
        break;
      }
      if image[offset] == ENTRY_UNUSED {
        assert LiveEntries(image, offset) == LiveEntries(image, offset + DIR_ENTRY_SIZE);
        offset := offset + DIR_ENTRY_SIZE;
        continue;
      } else if size == out.Length {
        DoubledGrows(out.Length);
        out := Grow(out, size);
      }
      if offset + DIR_ENTRY_SIZE > |image| {
        assert LiveEntries(image, offset) == None;
        return false, out, size;
      }
      ghost var pre := out[..size];
      LiveStep(image, offset, pre);
      var entry := DecodeDirEntry(image[offset..offset + DIR_ENTRY_SIZE]);
      out[size] := entry;
      assert out[..size + 1] == pre + [entry];
      size := size + 1;
      offset := offset + DIR_ENTRY_SIZE;
    }
    assert out[..size] + [] == out[..size];
    ok := true;
  }
}
