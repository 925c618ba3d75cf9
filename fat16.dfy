/**
 * The kernel's FAT16 driver: it reads the boot records through a disk
 * interface, walks directories 32 bytes at a time, resolves absolute paths
 * component by component, and reads files cluster by cluster along the
 * allocation table's chain. The disk is the byte sequence behind the
 * interface; a read that leaves it fails, as the RAM disk's `read_bytes`
 * does. A failed `kassert` panics the kernel, which the model records as a
 * `Panicked` or `Halted` outcome.
 */
module Fat16 {
  import opened Common
  import opened Arith
  import opened KString
  import opened Fat16Layout
  import Ramdisk

  const ENTRY_END: u8 := 0x00
  const ENTRY_UNUSED: u8 := 0xE5
  const SPACE: u8 := 0x20
  const DOT: u8 := 0x2E
  const SLASH: u8 := 0x2F

  /** Where the regions of the volume start, in bytes, and the size of a cluster. */
  datatype Geometry = Geometry(tableOffset: int, rootDirOffset: int, dataOffset: int, clusterSize: int)

  /**
   * The offsets fat16_read_filesystem derives: the allocation tables follow
   * the reserved sectors, the root directory follows the tables, and the
   * data region follows the root directory's `maxRootEntries` entries.
   */
  function Layout(b: BootRecord): (g: Geometry)
    ensures 0 <= g.tableOffset <= g.rootDirOffset <= g.dataOffset
    ensures g.rootDirOffset - g.tableOffset == b.fats * (b.sectorsPerFat * b.bytesPerSector)
    ensures g.dataOffset - g.rootDirOffset == DIR_ENTRY_SIZE * b.maxRootEntries
  {
    var sectorSize := b.bytesPerSector;
    var table := b.reservedSectors * sectorSize;
    var fatBytes := b.fats * (b.sectorsPerFat * sectorSize);
    NonNegativeProduct(b.reservedSectors, sectorSize);
    NonNegativeProduct(b.sectorsPerFat, sectorSize);
    NonNegativeProduct(b.fats, b.sectorsPerFat * sectorSize);
    var root := table + fatBytes;
    Geometry(table, root, root + b.maxRootEntries * DIR_ENTRY_SIZE, b.sectorsPerCluster * sectorSize)
  }

  lemma NonNegativeProduct(x: int, y: int)
    requires x >= 0 && y >= 0
    ensures x * y >= 0
  {
    if x > 0 && y > 0 {
      MulAtLeast(x, y);
    }
  }

  /** The root directory region holds exactly `maxRootEntries` entries, and a cluster is whole 512-byte sectors when the sector size is valid. */
  lemma LayoutRegions(b: BootRecord)
    ensures var g := Layout(b);
      (g.dataOffset - g.rootDirOffset) / DIR_ENTRY_SIZE == b.maxRootEntries
      && (g.dataOffset - g.rootDirOffset) % DIR_ENTRY_SIZE == 0
    ensures SectorSizeValid(b.bytesPerSector) ==> Layout(b).clusterSize % 512 == 0 && Layout(b).clusterSize == 512 * (b.sectorsPerCluster * (b.bytesPerSector / 512))
  {
    MultipleMod(b.maxRootEntries, DIR_ENTRY_SIZE);
    if SectorSizeValid(b.bytesPerSector) {
      var k := b.bytesPerSector / 512;
      assert b.bytesPerSector == 512 * k;
      assert b.sectorsPerCluster * b.bytesPerSector == 512 * (b.sectorsPerCluster * k);
      MultipleMod(b.sectorsPerCluster * k, 512);
    }
  }

  predicate SignatureValid(signature: u8)
  {
    signature == 0x29 || signature == 0x28
  }

  predicate SectorSizeValid(bytesPerSector: u16)
  {
    bytesPerSector == 512 || bytesPerSector == 1024 || bytesPerSector == 2048 || bytesPerSector == 4096
  }

  /** What the driver works on: the disk behind its interface and the geometry it read. */
  datatype Volume = Volume(disk: seq<u8>, g: Geometry)

  /** fat16_is_entry_end: the first byte of the entry is 0. */
  predicate IsEntryEnd(raw: seq<u8>)
    requires |raw| > 0
  {
    raw[0] == ENTRY_END
  }

  /** fat16_is_entry_unused: the first byte, read unsigned, is 0xE5. */
  predicate IsEntryUnused(raw: seq<u8>)
    requires |raw| > 0
  {
    raw[0] == ENTRY_UNUSED
  }

  /**
   * fat16_cluster_to_offset: clusters are numbered from 2 at the start of
   * the data region, each `clusterSize` bytes on from the one before.
   * Written as repeated addition so that proofs about clusters stay linear;
   * ClusterOffsetIsProduct gives the product the source computes.
   */
  function ClusterToOffset(cluster: int, clusterSize: int): int
    decreases if cluster < 2 then 2 - cluster else cluster - 2
  {
    if cluster == 2 then 0
    else if cluster > 2 then ClusterToOffset(cluster - 1, clusterSize) + clusterSize
    else ClusterToOffset(cluster + 1, clusterSize) - clusterSize
  }

  /** The offset of a cluster is `(cluster - 2) * clusterSize`. */
  lemma {:induction false} ClusterOffsetIsProduct(cluster: int, clusterSize: int)
    ensures ClusterToOffset(cluster, clusterSize) == (cluster - 2) * clusterSize
    decreases if cluster < 2 then 2 - cluster else cluster - 2
  {
    if cluster > 2 {
      ClusterOffsetIsProduct(cluster - 1, clusterSize);
      assert (cluster - 2) * clusterSize == (cluster - 3) * clusterSize + clusterSize;
    } else if cluster < 2 {
      ClusterOffsetIsProduct(cluster + 1, clusterSize);
      assert (cluster - 2) * clusterSize == (cluster - 1) * clusterSize - clusterSize;
    }
  }

  /** Distinct clusters occupy disjoint byte ranges, in cluster order. */
  lemma ClustersDisjoint(c1: int, c2: int, clusterSize: int)
    requires c1 < c2 && clusterSize > 0
    ensures ClusterToOffset(c1, clusterSize) + clusterSize <= ClusterToOffset(c2, clusterSize)
    ensures ClusterToOffset(2, clusterSize) == 0
  {
    ClusterOffsetIsProduct(c1, clusterSize);
    ClusterOffsetIsProduct(c2, clusterSize);
    MulAtLeast(c2 - c1, clusterSize);
    assert (c2 - 2) * clusterSize - (c1 - 2) * clusterSize == (c2 - c1) * clusterSize;
  }

  /** `to` lies whole entries after `from`, and each entry from `from` up to `to` is unused. */
  predicate AllUnused(disk: seq<u8>, from: int, to: int)
    decreases to - from
  {
    from == to || (from < to && 0 <= from < |disk| && disk[from] == ENTRY_UNUSED && AllUnused(disk, from + DIR_ENTRY_SIZE, to))
  }

  /**
   * One call of fat16_ls: the entry listed and the offset just past it, the
   * offset of the end marker, or the offset whose read failed (a panic).
   */
  datatype Listing = Listed(entry: DirEntry, next: int) | Exhausted(at: int) | Failed(at: int)

  /**
   * fat16_ls from `offset`: unused entries are skipped; an end marker stops
   * the listing; otherwise the entry is listed and the offset moves past it.
   */
  function NextEntry(disk: seq<u8>, offset: int): (r: Listing)
    ensures r.Listed? ==>
      && 0 <= offset && offset + DIR_ENTRY_SIZE <= r.next <= |disk|
      && AllUnused(disk, offset, r.next - DIR_ENTRY_SIZE)
      && var raw := disk[r.next - DIR_ENTRY_SIZE..r.next];
        !IsEntryEnd(raw) && !IsEntryUnused(raw) && r.entry == DecodeDirEntry(raw)
    ensures r.Exhausted? ==>
      && 0 <= offset <= r.at && r.at + DIR_ENTRY_SIZE <= |disk|
      && AllUnused(disk, offset, r.at) && disk[r.at] == ENTRY_END
    ensures r.Failed? ==>
      && offset <= r.at && AllUnused(disk, offset, r.at)
      && Ramdisk.Read(disk, r.at, DIR_ENTRY_SIZE).None?
    decreases |disk| - offset
  {
    match Ramdisk.Read(disk, offset, DIR_ENTRY_SIZE)
    case None => Failed(offset)
    case Some(raw) =>
      if IsEntryUnused(raw) && !IsEntryEnd(raw) then NextEntry(disk, offset + DIR_ENTRY_SIZE)
      else if IsEntryEnd(raw) then Exhausted(offset)
      else Listed(DecodeDirEntry(raw), offset + DIR_ENTRY_SIZE)
  }

  /** The character fat16_filenamecmp keeps for `c`: none for a space or a dot, else `toupper(c)`. */
  function Kept(c: u8): seq<u8>
  {
    if c == SPACE || c == DOT then [] else [if 0x61 <= c <= 0x7A then c - 0x20 else c]
  }

  /** A name with spaces and dots dropped and letters upper-cased. */
  function Normalize(s: seq<u8>): (r: seq<u8>)
    ensures |r| <= |s|
    ensures forall i :: 0 <= i < |r| ==> r[i] != SPACE && r[i] != DOT && !(0x61 <= r[i] <= 0x7A)
    ensures 0 !in s ==> 0 !in r
  {
    if |s| == 0 then [] else Normalize(s[..|s| - 1]) + Kept(s[|s| - 1])
  }

  /** The first loop of fat16_filenamecmp: the kept characters of the first 11 bytes, then a NUL. */
  method CompactName(name: seq<u8>) returns (buffer: seq<u8>)
    requires |name| >= FAT_FILENAME_LENGTH
    ensures buffer == Normalize(name[..FAT_FILENAME_LENGTH]) + [0]
  {
    buffer := [];
    var i := 0;
    while i < FAT_FILENAME_LENGTH
      invariant i <= FAT_FILENAME_LENGTH && buffer == Normalize(name[..i])
    {
      assert name[..i + 1][..i] == name[..i];
      if name[i] != SPACE && name[i] != DOT {
        buffer := buffer + [if 0x61 <= name[i] <= 0x7A then name[i] - 0x20 else name[i]];
      }
      i := i + 1;
    }
    buffer := buffer + [0];
  }

  /**
   * fat16_filenamecmp: both names compacted, then compared with klibc's
   * strcmp as written, which misses a difference in the last character.
   */
  function FilenameCmp(a: seq<u8>, b: seq<u8>): int
    requires |a| >= FAT_FILENAME_LENGTH && |b| >= FAT_FILENAME_LENGTH
  {
    StrCmpWritten(Normalize(a[..FAT_FILENAME_LENGTH]) + [0], Normalize(b[..FAT_FILENAME_LENGTH]) + [0])
  }

  method FilenameCompare(a: seq<u8>, b: seq<u8>) returns (r: int)
    requires |a| >= FAT_FILENAME_LENGTH && |b| >= FAT_FILENAME_LENGTH
    ensures r == FilenameCmp(a, b)
  {
    var x := CompactName(a);
    var y := CompactName(b);
    assert 0 in x && 0 in y;
    r := StrCmpAsWritten(x, y);
  }

  /**
   * Names without a NUL in their first 11 bytes compare equal exactly when,
   * once spaces and dots are dropped and letters upper-cased, they are equal
   * or of the same length and differ only in their last character.
   */
  lemma FilenameCmpZeroIff(a: seq<u8>, b: seq<u8>)
    requires |a| >= FAT_FILENAME_LENGTH && |b| >= FAT_FILENAME_LENGTH
    requires 0 !in a[..FAT_FILENAME_LENGTH] && 0 !in b[..FAT_FILENAME_LENGTH]
    ensures FilenameCmp(a, b) == 0 <==> NearlyEqual(Normalize(a[..FAT_FILENAME_LENGTH]), Normalize(b[..FAT_FILENAME_LENGTH]))
  {
    var x, y := Normalize(a[..FAT_FILENAME_LENGTH]), Normalize(b[..FAT_FILENAME_LENGTH]);
    StrCmpWrittenZeroIff(x + [0], y + [0]);
    PrefixString(x + [0], |x|);
    PrefixString(y + [0], |y|);
    assert (x + [0])[..|x|] == x && (y + [0])[..|y|] == y;
  }

  /** Trailing spaces compact to nothing. */
  lemma {:induction false} NormalizeSpaces(p: seq<u8>, t: seq<u8>)
    requires forall i :: 0 <= i < |t| ==> t[i] == SPACE
    ensures Normalize(p + t) == Normalize(p)
  {
    if |t| > 0 {
      var s := p + t;
      var rest := t[..|t| - 1];
      assert s[..|s| - 1] == p + rest;
      assert s[|s| - 1] == SPACE;
      NormalizeSpaces(p, rest);
    } else {
      assert p + t == p;
    }
  }

  /** A name of kept characters only compacts to itself. */
  lemma {:induction false} NormalizeKept(s: seq<u8>)
    requires forall i :: 0 <= i < |s| ==> Kept(s[i]) == [s[i]]
    ensures Normalize(s) == s
  {
    if |s| > 0 {
      var prefix := s[..|s| - 1];
      NormalizeKept(prefix);
      assert prefix + [s[|s| - 1]] == s;
    }
  }

  /** A one-letter entry name padded with spaces compacts to its letter. */
  lemma LetterEntry(a: u8, entry: seq<u8>)
    requires 0x41 <= a <= 0x5A
    requires |entry| == FAT_FILENAME_LENGTH && entry[0] == a
    requires forall i :: 1 <= i < |entry| ==> entry[i] == SPACE
    ensures Normalize(entry[..FAT_FILENAME_LENGTH]) == [a]
  {
    assert entry[..FAT_FILENAME_LENGTH] == [a] + entry[1..];
    NormalizeSpaces([a], entry[1..]);
    NormalizeKept([a]);
  }

  /** A one-letter path component, NUL-padded, compacts to itself. */
  lemma LetterComponent(b: u8)
    requires 0x41 <= b <= 0x5A
    ensures var name := DirName([b])[..FAT_FILENAME_LENGTH];
      Normalize(name) == name && name[0] == b && name[1] == 0
  {
    var name := DirName([b])[..FAT_FILENAME_LENGTH];
    assert forall i :: 0 <= i < |name| ==> name[i] == if i == 0 then b else 0;
    NormalizeKept(name);
  }

  /**
   * Any two one-letter names compare equal: an entry "A" and the path
   * component "B" compact to the strings "A" and "B", which differ only in
   * their one character, so fat16_findentry takes an entry "A" for a lookup
   * of "B" when "A" comes first.
   */
  lemma OtherNameMatches(a: u8, b: u8, entry: seq<u8>)
    requires 0x41 <= a <= 0x5A && 0x41 <= b <= 0x5A
    requires |entry| == FAT_FILENAME_LENGTH && entry[0] == a
    requires forall i :: 1 <= i < |entry| ==> entry[i] == SPACE
    ensures var component := DirName([b]);
      && FilenameCmp(entry, component) == 0
      && Normalize(entry[..FAT_FILENAME_LENGTH]) == [a]
      && CString(Normalize(component[..FAT_FILENAME_LENGTH]) + [0]) == [b]
  {
    LetterEntry(a, entry);
    LetterComponent(b);
    var x: seq<u8> := [a, 0];
    var y: seq<u8> := DirName([b])[..FAT_FILENAME_LENGTH] + [0];
    assert x[0] != 0 && y[0] == b && x[1] == 0 && y[1] == 0;
    if a == b {
      assert StrCmpWritten(x, y) == StrCmpWritten(x[1..], y[1..]);
      assert x[1..][0] == 0 && y[1..][0] == 0;
    }
    assert StrCmpWritten(x, y) == Verdict(0, 0);
    assert y[1..][0] == 0;
  }

  /** A directory entry matches `name` under fat16_filenamecmp. */
  predicate Matches(e: DirEntry, name: seq<u8>)
  {
    WellFormed(e) && |name| >= FAT_FILENAME_LENGTH && FilenameCmp(e.filename, name) == 0
  }

  /** A C function's int result, or a kernel panic from a failed kassert. */
  datatype Status = Done(value: int) | Panicked

  /**
   * fat16_findentry: the offset of the first listed entry of the directory
   * at `offset` that matches `name`, -1 when the end marker comes first.
   */
  function Lookup(disk: seq<u8>, name: seq<u8>, offset: int): (r: Status)
    ensures r.Done? ==> r.value == -1 || (offset <= r.value && r.value + DIR_ENTRY_SIZE <= |disk|)
    decreases |disk| - offset
  {
    match NextEntry(disk, offset)
    case Failed(_) => Panicked
    case Exhausted(_) => Done(-1)
    case Listed(e, next) =>
      if Matches(e, name) then Done(next - DIR_ENTRY_SIZE) else Lookup(disk, name, next)
  }

  /** An entry of a directory and where it is on disk. */
  datatype Slot = Slot(offset: int, entry: DirEntry)

  /** A directory's listed entries in order, and whether its end marker was reached (rather than a failed read). */
  datatype Scan = Scan(slots: seq<Slot>, complete: bool)

  /** Repeated fat16_ls from `offset`: the listing of the whole directory. */
  function Directory(disk: seq<u8>, offset: int): (s: Scan)
    ensures forall i :: 0 <= i < |s.slots| ==> offset <= s.slots[i].offset && s.slots[i].offset + DIR_ENTRY_SIZE <= |disk|
    ensures forall i, j :: 0 <= i < j < |s.slots| ==> s.slots[i].offset + DIR_ENTRY_SIZE <= s.slots[j].offset
    decreases |disk| - offset
  {
    match NextEntry(disk, offset)
    case Failed(_) => Scan([], false)
    case Exhausted(_) => Scan([], true)
    case Listed(e, next) =>
      var rest := Directory(disk, next);
      Scan([Slot(next - DIR_ENTRY_SIZE, e)] + rest.slots, rest.complete)
  }

  /** The position of the first slot matching `name`. */
  function FirstMatch(slots: seq<Slot>, name: seq<u8>): (r: Option<nat>)
    ensures r.Some? ==> r.value < |slots| && Matches(slots[r.value].entry, name)
    ensures r.Some? ==> forall j :: 0 <= j < r.value ==> !Matches(slots[j].entry, name)
    ensures r.None? ==> forall j :: 0 <= j < |slots| ==> !Matches(slots[j].entry, name)
  {
    if |slots| == 0 then None
    else if Matches(slots[0].entry, name) then Some(0)
    else match FirstMatch(slots[1..], name)
      case None => None
      case Some(i) => Some(i + 1)
  }

  /**
   * fat16_findentry gives the offset of the first entry of the directory's
   * listing that matches, -1 when none does and the end marker was reached,
   * and panics when the listing ran into a failed read first.
   */
  lemma {:induction false} LookupFindsFirst(disk: seq<u8>, name: seq<u8>, offset: int)
    ensures var s := Directory(disk, offset);
      Lookup(disk, name, offset) ==
        match FirstMatch(s.slots, name)
        case Some(i) => Done(s.slots[i].offset)
        case None => if s.complete then Done(-1) else Panicked
    decreases |disk| - offset
  {
    match NextEntry(disk, offset)
    case Failed(_) =>
    case Exhausted(_) =>
    case Listed(e, next) =>
      var rest := Directory(disk, next);
      var slots := [Slot(next - DIR_ENTRY_SIZE, e)] + rest.slots;
      assert slots[1..] == rest.slots;
      if !Matches(e, name) {
        LookupFindsFirst(disk, name, next);
      }
  }

  /** The index of the last '/' at or before `i`, or 0 when there is none after the first byte. */
  function LastSlash(path: seq<u8>, i: int): (r: int)
    requires 0 <= i < |path|
    ensures 0 <= r <= i && (r == 0 || path[r] == SLASH)
    ensures forall k :: r < k <= i ==> path[k] != SLASH
    decreases i
  {
    if i > 0 && path[i] != SLASH then LastSlash(path, i - 1) else i
  }

  /** The backward scan of fat16_open_support for the last slash of `path[..length]`. */
  method FindLastSlash(path: seq<u8>, length: int) returns (lastSlash: int)
    requires 1 <= length <= |path|
    ensures lastSlash == LastSlash(path, length - 1)
  {
    lastSlash := length - 1;
    while lastSlash > 0 && path[lastSlash] != SLASH
      invariant 0 <= lastSlash <= length - 1
      invariant LastSlash(path, lastSlash) == LastSlash(path, length - 1)
    {
      lastSlash := lastSlash - 1;
    }
  }

  /** The components fat16_open_support resolves for `path[..length]`, outermost last. */
  function Components(path: seq<u8>, length: int): (cs: seq<seq<u8>>)
    requires length <= |path|
    decreases length
  {
    if length <= 1 then []
    else
      var slash := LastSlash(path, length - 1);
      Components(path, slash) + [path[slash + 1..length]]
  }

  /** Every component fits the 12-byte `dirname` buffer with its NUL. */
  predicate Fits(path: seq<u8>, length: int)
    requires length <= |path|
  {
    forall i :: 0 <= i < |Components(path, length)| ==> |Components(path, length)[i]| <= FAT_FILENAME_LENGTH
  }

  /** The `dirname` buffer for a component: its bytes, the NUL, and the rest of the 12 bytes. */
  function DirName(component: seq<u8>): (d: seq<u8>)
    requires |component| <= FAT_FILENAME_LENGTH
    ensures |d| == FAT_FILENAME_LENGTH + 1 && d[..|component|] == component && d[|component|] == 0
  {
    component + seq(FAT_FILENAME_LENGTH + 1 - |component|, _ => 0)
  }

  /**
   * The outcome of resolving a path: the disk offset of the content (-1
   * when the path could not be followed) and the entry last written to the
   * caller's `entry`, none for the root; or a panic.
   */
  datatype Resolution = Resolved(offset: int, entry: Option<DirEntry>) | Halted

  /** One step of fat16_open_support: look `component` up in the directory `dir` resolved to. */
  function Descend(v: Volume, dir: Resolution, component: seq<u8>): Resolution
    requires |component| <= FAT_FILENAME_LENGTH
  {
    match dir
    case Halted => Halted
    case Resolved(diroff, written) =>
      if diroff < 0 then Resolved(-1, written)
      else match Lookup(v.disk, DirName(component), diroff)
        case Panicked => Halted
        case Done(entryOff) =>
          if entryOff < 0 then Resolved(-1, written)
          else match Ramdisk.Read(v.disk, entryOff, DIR_ENTRY_SIZE)
            case None => Halted
            case Some(raw) =>
              var e := DecodeDirEntry(raw);
              Resolved(v.g.dataOffset + ClusterToOffset(e.lowStartingCluster, v.g.clusterSize), Some(e))
  }

  /** fat16_open_support: the root for a length up to 1, otherwise the last component looked up in the resolved parent. */
  function OpenSupport(v: Volume, path: seq<u8>, length: int): Resolution
    requires length <= |path| && Fits(path, length)
    decreases length
  {
    if length <= 1 then Resolved(v.g.rootDirOffset, None)
    else
      var slash := LastSlash(path, length - 1);
      assert Components(path, length) == Components(path, slash) + [path[slash + 1..length]];
      assert |path[slash + 1..length]| <= FAT_FILENAME_LENGTH by {
        assert Components(path, length)[|Components(path, length)| - 1] == path[slash + 1..length];
      }
      assert forall i :: 0 <= i < |Components(path, slash)| ==> Components(path, slash)[i] == Components(path, length)[i];
      Descend(v, OpenSupport(v, path, slash), path[slash + 1..length])
  }

  /** The reference walk: from the root directory, look the components up one after the other. */
  function Walk(v: Volume, dir: Resolution, components: seq<seq<u8>>): Resolution
    requires forall i :: 0 <= i < |components| ==> |components[i]| <= FAT_FILENAME_LENGTH
    decreases |components|
  {
    if |components| == 0 then dir else Walk(v, Descend(v, dir, components[0]), components[1..])
  }

  lemma {:induction false} WalkAppend(v: Volume, dir: Resolution, components: seq<seq<u8>>, last: seq<u8>)
    requires forall i :: 0 <= i < |components| ==> |components[i]| <= FAT_FILENAME_LENGTH
    requires |last| <= FAT_FILENAME_LENGTH
    ensures Walk(v, dir, components + [last]) == Descend(v, Walk(v, dir, components), last)
    decreases |components|
  {
    if |components| > 0 {
      assert (components + [last])[1..] == components[1..] + [last];
      WalkAppend(v, Descend(v, dir, components[0]), components[1..], last);
    } else {
      assert (components + [last])[1..] == [];
    }
  }

  /**
   * The recursion of fat16_open_support, which resolves the parent first,
   * agrees with walking the components down from the root directory.
   */
  lemma {:induction false} OpenSupportWalks(v: Volume, path: seq<u8>, length: int)
    requires length <= |path| && Fits(path, length)
    ensures OpenSupport(v, path, length) == Walk(v, Resolved(v.g.rootDirOffset, None), Components(path, length))
    decreases length
  {
    if length > 1 {
      var slash := LastSlash(path, length - 1);
      var cs := Components(path, slash);
      var last := path[slash + 1..length];
      assert Components(path, length) == cs + [last];
      assert Components(path, length)[|cs|] == last;
      assert forall i :: 0 <= i < |cs| ==> cs[i] == Components(path, length)[i];
      OpenSupportWalks(v, path, slash);
      WalkAppend(v, Resolved(v.g.rootDirOffset, None), cs, last);
    }
  }

  /** The re-read of a found entry in fat16_open_support never fails: fat16_findentry read it first. */
  lemma FoundEntryReadable(disk: seq<u8>, name: seq<u8>, offset: int)
    ensures Lookup(disk, name, offset).Done? && Lookup(disk, name, offset).value >= 0 ==>
      Ramdisk.Read(disk, Lookup(disk, name, offset).value, DIR_ENTRY_SIZE).Some?
  {
  }

  /** fat16_open: the path is the C string in `path`. */
  function Open(v: Volume, path: seq<u8>): Resolution
    requires Terminated(path) && Fits(path, |CString(path)|)
  {
    OpenSupport(v, path, |CString(path)|)
  }

  /** The disk offset of a cluster's first byte. */
  function ClusterStart(v: Volume, cluster: int): int
  {
    v.g.dataOffset + ClusterToOffset(cluster, v.g.clusterSize)
  }

  /** The cluster's bytes lie inside the disk, so the disk interface reads it. */
  predicate Readable(v: Volume, cluster: int)
  {
    0 <= ClusterStart(v, cluster) && ClusterStart(v, cluster) + v.g.clusterSize <= |v.disk|
  }

  /**
   * fat16_read_cluster: the cluster's bytes, read through the disk
   * interface, or nothing (status -1) when they leave the disk.
   */
  function LoadCluster(v: Volume, cluster: int): (r: Option<seq<u8>>)
    requires v.g.clusterSize >= 0
    ensures r.Some? <==> Readable(v, cluster)
    ensures r.Some? ==> |r.value| == v.g.clusterSize
  {
    Ramdisk.Read(v.disk, ClusterStart(v, cluster), v.g.clusterSize)
  }

  /** The allocation table's 16-bit entry for `cluster`: the next cluster of its chain. */
  function NextCluster(v: Volume, cluster: int): (r: Option<int>)
    ensures r.Some? ==> 0 <= r.value < 0x1_0000
  {
    match Ramdisk.Read(v.disk, v.g.tableOffset + 2 * cluster, 2)
    case None => None
    case Some(b) => Some(LE16(b, 0))
  }

  /**
   * fat16_get_next_cluster as written: `fs.fat` is never assigned, so it
   * stays NULL and the entry is read from the 16-bit word at address
   * `2 * cluster` of memory, not from the volume.
   */
  function NextClusterAsWritten(memory: seq<u8>, cluster: nat): u16
    requires 2 * cluster + 2 <= |memory|
  {
    LE16(memory, 2 * cluster)
  }

  /**
   * A volume whose table links cluster 2 to cluster 3, with zero bytes at
   * addresses 4 and 5, makes the written lookup end the chain at 0.
   */
  lemma NullTableLosesChain(v: Volume, memory: seq<u8>)
    requires |memory| >= 6 && memory[4] == 0 && memory[5] == 0
    requires NextCluster(v, 2) == Some(3)
    ensures NextClusterAsWritten(memory, 2) == 0 != NextCluster(v, 2).value
  {
  }

  /** The clusters of a chain: the one reached after `k` links from `first`. */
  function ChainAt(v: Volume, first: int, k: nat): Option<int>
  {
    if k == 0 then Some(first)
    else match ChainAt(v, first, k - 1)
      case None => None
      case Some(c) => NextCluster(v, c)
  }

  /**
   * `p % size`, by repeated subtraction so that proofs about positions stay
   * linear; QuotRem gives the C operator.
   */
  function Rem(p: nat, size: int): (r: nat)
    requires size > 0
    ensures r < size
    decreases p
  {
    if p < size then p else Rem(p - size, size)
  }

  /** `p / size`, by repeated subtraction. */
  function Quot(p: nat, size: int): nat
    requires size > 0
    decreases p
  {
    if p < size then 0 else Quot(p - size, size) + 1
  }

  /** Rem and Quot are the remainder and quotient of the division. */
  lemma {:induction false} QuotRem(p: nat, size: int)
    requires size > 0
    ensures Rem(p, size) == p % size && Quot(p, size) == p / size
    decreases p
  {
    if p < size {
      DivModUnique(p, size, 0, p);
    } else {
      QuotRem(p - size, size);
      DivModUnique(p, size, (p - size) / size + 1, (p - size) % size);
    }
  }

  /** Moving one position on stays in the same cluster unless it reaches the next cluster's first byte. */
  lemma {:induction false} NextBoundary(p: nat, size: int)
    requires size > 0
    ensures Rem(p + 1, size) != 0 ==> Quot(p + 1, size) == Quot(p, size)
    ensures Rem(p + 1, size) == 0 ==> Quot(p + 1, size) == Quot(p, size) + 1
    decreases p
  {
    if p + 1 == size {
      assert Rem(0, size) == 0 && Quot(0, size) == 0;
    } else if p + 1 > size {
      NextBoundary(p - size, size);
    }
  }

  /**
   * Byte `k` of the file whose first cluster is `first`: it lies
   * `k % clusterSize` bytes into the cluster `k / clusterSize` links down
   * the chain; nothing when the chain or that cluster cannot be read.
   */
  function FileByte(v: Volume, first: int, k: nat): Option<u8>
    requires v.g.clusterSize > 0
  {
    match ChainAt(v, first, Quot(k, v.g.clusterSize))
    case None => None
    case Some(c) => if Readable(v, c) then Some(v.disk[ClusterStart(v, c) + Rem(k, v.g.clusterSize)]) else None
  }

  /** What a read copied and where the handle is left, or a panic. */
  datatype Transfer = Transfer(bytes: seq<u8>, position: int, cluster: int) | Halt

  function Prepend(b: u8, t: Transfer): Transfer
  {
    match t
    case Halt => Halt
    case Transfer(bytes, p, c) => Transfer([b] + bytes, p, c)
  }

  /**
   * Where the copy loop of fat16_fread is: the file position and the
   * cluster whose bytes sit in the loop's cluster buffer.
   */
  datatype Cursor = Cursor(position: nat, cluster: int)

  /** The byte under the cursor: the cluster buffer at `position % clusterSize`. */
  function Under(v: Volume, cur: Cursor): u8
    requires v.g.clusterSize > 0 && Readable(v, cur.cluster)
  {
    v.disk[ClusterStart(v, cur.cluster) + Rem(cur.position, v.g.clusterSize)]
  }

  /**
   * The loop's move past the byte under the cursor: one position on, and at
   * a cluster boundary the next cluster of the chain, read from the disk;
   * nothing (a panic) when the table entry or that cluster cannot be read.
   */
  function Advance(v: Volume, cur: Cursor): (r: Option<Cursor>)
    requires v.g.clusterSize > 0 && Readable(v, cur.cluster)
    ensures r.Some? ==> r.value.position == cur.position + 1 && Readable(v, r.value.cluster)
  {
    var p := cur.position + 1;
    if Rem(p, v.g.clusterSize) != 0 then Some(Cursor(p, cur.cluster))
    else match NextCluster(v, cur.cluster)
      case None => None
      case Some(c) => if Readable(v, c) then Some(Cursor(p, c)) else None
  }

  /**
   * The copy loop of fat16_fread from `cur` for at most `n` more bytes: it
   * copies the byte under the cursor and advances, and stops at the file
   * size. It copies `min(n, filesize - position)` bytes, moves the position
   * by as many and leaves the handle on a cluster that can be read.
   */
  function Copy(v: Volume, cur: Cursor, filesize: int, n: nat): (t: Transfer)
    requires v.g.clusterSize > 0 && Readable(v, cur.cluster)
    ensures t.Transfer? ==> |t.bytes| == Min(n, Max(0, filesize - cur.position)) && t.position == cur.position + |t.bytes|
    ensures t.Transfer? ==> Readable(v, t.cluster)
    decreases n
  {
    if n == 0 || cur.position >= filesize then Transfer([], cur.position, cur.cluster)
    else match Advance(v, cur)
      case None => Halt
      case Some(next) => Prepend(Under(v, cur), Copy(v, next, filesize, n - 1))
  }

  /** The loop's cluster buffer at `position % clusterSize` holds the byte under the cursor. */
  lemma UnderIsBuffered(v: Volume, cur: Cursor, buffer: seq<u8>)
    requires v.g.clusterSize > 0 && LoadCluster(v, cur.cluster) == Some(buffer)
    ensures buffer[cur.position % v.g.clusterSize] == Under(v, cur)
  {
    QuotRem(cur.position, v.g.clusterSize);
  }

  /** Advance, with the boundary test written as the C remainder. */
  lemma AdvanceAtBoundary(v: Volume, cur: Cursor)
    requires v.g.clusterSize > 0 && Readable(v, cur.cluster)
    ensures (cur.position + 1) % v.g.clusterSize != 0 ==> Advance(v, cur) == Some(Cursor(cur.position + 1, cur.cluster))
    ensures (cur.position + 1) % v.g.clusterSize == 0 ==>
      Advance(v, cur) == match NextCluster(v, cur.cluster)
        case None => None
        case Some(c) => if Readable(v, c) then Some(Cursor(cur.position + 1, c)) else None
  {
    QuotRem(cur.position + 1, v.g.clusterSize);
  }

  /** One turn of the copy loop below the file size. */
  lemma CopyStep(v: Volume, cur: Cursor, filesize: int, n: nat, prefix: seq<u8>)
    requires v.g.clusterSize > 0 && Readable(v, cur.cluster) && n > 0 && cur.position < filesize
    ensures Advance(v, cur).None? ==> Glue(prefix, Copy(v, cur, filesize, n)) == Halt
    ensures Advance(v, cur).Some? ==>
      Glue(prefix, Copy(v, cur, filesize, n)) == Glue(prefix + [Under(v, cur)], Copy(v, Advance(v, cur).value, filesize, n - 1))
  {
    if Advance(v, cur).Some? {
      GluePrepend(prefix, Under(v, cur), Copy(v, Advance(v, cur).value, filesize, n - 1));
    }
  }

  /**
   * fat16_fread with the intended status check, from the handle at
   * `position` in `cluster`: read the current cluster (a panic when it
   * cannot be read), then copy.
   */
  function ReadFile(v: Volume, position: nat, cluster: int, filesize: int, count: int): (t: Transfer)
    requires v.g.clusterSize > 0
    ensures t.Transfer? ==> |t.bytes| == Min(Max(count, 0), Max(0, filesize - position)) && t.position == position + |t.bytes|
    ensures t.Transfer? ==> Readable(v, t.cluster)
  {
    match LoadCluster(v, cluster)
    case None => Halt
    case Some(_) => Copy(v, Cursor(position, cluster), filesize, if count < 0 then 0 else count)
  }

  /**
   * fat16_fread as written: its kassert compares CLUSTER_SIZE with the
   * status of fat16_read_cluster, which is 0 on success and -1 on failure.
   */
  function ReadFileAsWritten(v: Volume, position: nat, cluster: int, filesize: int, count: int): Transfer
    requires v.g.clusterSize > 0
  {
    var status := if LoadCluster(v, cluster).Some? then 0 else -1;
    if v.g.clusterSize != status then Halt else ReadFile(v, position, cluster, filesize, count)
  }

  /** Every read through the written fat16_fread panics, even of zero bytes. */
  lemma EveryReadPanics(v: Volume, position: nat, cluster: int, filesize: int, count: int)
    requires v.g.clusterSize > 0
    ensures ReadFileAsWritten(v, position, cluster, filesize, count) == Halt
  {
  }

  /** The transfer of `t` followed by a read of `m` more bytes from where it left the handle. */
  function Then(v: Volume, t: Transfer, filesize: int, m: nat): Transfer
    requires v.g.clusterSize > 0
  {
    match t
    case Halt => Halt
    case Transfer(bytes, p, c) =>
      if p < 0 then Halt
      else match ReadFile(v, p, c, filesize, m)
        case Halt => Halt
        case Transfer(more, p', c') => Transfer(bytes + more, p', c')
  }

  lemma ThenPrepends(v: Volume, b: u8, t: Transfer, filesize: int, m: nat)
    requires v.g.clusterSize > 0
    ensures Then(v, Prepend(b, t), filesize, m) == Prepend(b, Then(v, t, filesize, m))
  {
    if t.Transfer? && t.position >= 0 {
      match ReadFile(v, t.position, t.cluster, filesize, m)
      case Halt =>
      case Transfer(more, p', c') =>
        assert [b] + t.bytes + more == [b] + (t.bytes + more);
    }
  }

  lemma {:induction false} CopySplits(v: Volume, cur: Cursor, filesize: int, n: nat, m: nat)
    requires v.g.clusterSize > 0 && Readable(v, cur.cluster)
    ensures Copy(v, cur, filesize, n + m) == Then(v, Copy(v, cur, filesize, n), filesize, m)
    decreases n
  {
    if n == 0 || cur.position >= filesize {
      var rest := Copy(v, cur, filesize, m);
      assert ReadFile(v, cur.position, cur.cluster, filesize, m) == rest;
      if rest.Transfer? {
        assert [] + rest.bytes == rest.bytes;
      }
    } else {
      match Advance(v, cur)
      case None =>
      case Some(next) =>
        CopySplits(v, next, filesize, n - 1, m);
        ThenPrepends(v, Under(v, cur), Copy(v, next, filesize, n - 1), filesize, m);
    }
  }

  /**
   * Reading `n + m` bytes is reading `n` bytes and then `m` more from where
   * the first read left the handle: the file position is a cursor.
   */
  lemma ReadsCompose(v: Volume, position: nat, cluster: int, filesize: int, n: nat, m: nat)
    requires v.g.clusterSize > 0
    ensures ReadFile(v, position, cluster, filesize, n + m) == Then(v, ReadFile(v, position, cluster, filesize, n), filesize, m)
  {
    if Readable(v, cluster) {
      CopySplits(v, Cursor(position, cluster), filesize, n, m);
    }
  }

  /** The cursor sits on the chain of `first`: its cluster is the one its position lies in. */
  predicate OnChain(v: Volume, first: int, cur: Cursor)
    requires v.g.clusterSize > 0
  {
    Readable(v, cur.cluster) && ChainAt(v, first, Quot(cur.position, v.g.clusterSize)) == Some(cur.cluster)
  }

  /** A cursor on the chain of `first` stays on it when it advances. */
  lemma AdvanceFollowsChain(v: Volume, first: int, cur: Cursor, next: Cursor)
    requires v.g.clusterSize > 0 && OnChain(v, first, cur) && Advance(v, cur) == Some(next)
    ensures OnChain(v, first, next)
  {
    NextBoundary(cur.position, v.g.clusterSize);
  }

  /** The byte under a cursor on the chain of `first` is the file's byte at its position. */
  lemma CursorByte(v: Volume, first: int, cur: Cursor)
    requires v.g.clusterSize > 0 && OnChain(v, first, cur)
    ensures FileByte(v, first, cur.position) == Some(Under(v, cur))
  {
  }

  /** `bytes` are the file's bytes from `position` on. */
  predicate FileBytesFrom(v: Volume, first: int, position: nat, bytes: seq<u8>)
    requires v.g.clusterSize > 0
    decreases |bytes|
  {
    |bytes| == 0 || (FileByte(v, first, position) == Some(bytes[0]) && FileBytesFrom(v, first, position + 1, bytes[1..]))
  }

  /** Byte `k` of bytes that are the file's from `position` on is the file's byte at `position + k`. */
  lemma {:induction false} FileByteAt(v: Volume, first: int, position: nat, bytes: seq<u8>, k: nat)
    requires v.g.clusterSize > 0 && FileBytesFrom(v, first, position, bytes) && k < |bytes|
    ensures FileByte(v, first, position + k) == Some(bytes[k])
    decreases k
  {
    if k > 0 {
      FileByteAt(v, first, position + 1, bytes[1..], k - 1);
    }
  }

  /** The file's byte at `position` followed by its bytes from the next position. */
  lemma FileBytesCons(v: Volume, first: int, position: nat, b: u8, rest: seq<u8>)
    requires v.g.clusterSize > 0
    requires FileByte(v, first, position) == Some(b) && FileBytesFrom(v, first, position + 1, rest)
    ensures FileBytesFrom(v, first, position, [b] + rest)
  {
    assert ([b] + rest)[1..] == rest;
  }

  /** One step of CopyFollowsChain: the byte under the cursor, then the bytes from the advanced cursor. */
  lemma FollowStep(v: Volume, first: int, cur: Cursor, next: Cursor, filesize: int, n: nat)
    requires v.g.clusterSize > 0 && OnChain(v, first, cur)
    requires n > 0 && cur.position < filesize && Advance(v, cur) == Some(next)
    requires var rest := Copy(v, next, filesize, n - 1);
      rest.Transfer? ==> FileBytesFrom(v, first, next.position, rest.bytes)
    ensures var t := Copy(v, cur, filesize, n);
      t.Transfer? ==> FileBytesFrom(v, first, cur.position, t.bytes)
  {
    var rest := Copy(v, next, filesize, n - 1);
    if rest.Transfer? {
      CursorByte(v, first, cur);
      FileBytesCons(v, first, cur.position, Under(v, cur), rest.bytes);
    }
  }

  lemma {:induction false} CopyFollowsChain(v: Volume, first: int, cur: Cursor, filesize: int, n: nat)
    requires v.g.clusterSize > 0 && OnChain(v, first, cur)
    ensures var t := Copy(v, cur, filesize, n);
      t.Transfer? ==> FileBytesFrom(v, first, cur.position, t.bytes)
    decreases n
  {
    if n > 0 && cur.position < filesize {
      match Advance(v, cur)
      case None =>
      case Some(next) =>
        AdvanceFollowsChain(v, first, cur, next);
        CopyFollowsChain(v, first, next, filesize, n - 1);
        FollowStep(v, first, cur, next, filesize, n);
    }
  }

  /**
   * A read from the start of a file returns the file's bytes in order:
   * byte `k` lies in the cluster `k / clusterSize` links down the chain.
   */
  lemma ReadFollowsChain(v: Volume, first: int, filesize: int, count: int)
    requires v.g.clusterSize > 0
    ensures var t := ReadFile(v, 0, first, filesize, count);
      t.Transfer? ==> forall k :: 0 <= k < |t.bytes| ==> FileByte(v, first, k) == Some(t.bytes[k])
  {
    if Readable(v, first) {
      CopyFromStart(v, first, filesize, if count < 0 then 0 else count);
    }
  }

  lemma CopyFromStart(v: Volume, first: int, filesize: int, n: nat)
    requires v.g.clusterSize > 0 && Readable(v, first)
    ensures var t := Copy(v, Cursor(0, first), filesize, n);
      t.Transfer? ==> forall k :: 0 <= k < |t.bytes| ==> FileByte(v, first, k) == Some(t.bytes[k])
  {
    var t := Copy(v, Cursor(0, first), filesize, n);
    assert OnChain(v, first, Cursor(0, first));
    CopyFollowsChain(v, first, Cursor(0, first), filesize, n);
    if t.Transfer? {
      forall k | 0 <= k < |t.bytes|
        ensures FileByte(v, first, k) == Some(t.bytes[k])
      {
        FileByteAt(v, first, 0, t.bytes, k);
      }
    }
  }

  /**
   * The end of a turn of fat16_fread's copy loop: the position moves on,
   * and when it reaches a cluster boundary the next cluster of the chain is
   * looked up and read into the buffer; nothing when either fails (the
   * kasserts). The cursor reached is the one `Advance` gives.
   */
  method StepCluster(v: Volume, position: nat, cluster: int, buffer: seq<u8>) returns (next: Option<Cursor>, buffer': seq<u8>)
    requires v.g.clusterSize > 0 && LoadCluster(v, cluster) == Some(buffer)
    ensures next == Advance(v, Cursor(position, cluster))
    ensures next.Some? ==> LoadCluster(v, next.value.cluster) == Some(buffer')
  {
    AdvanceAtBoundary(v, Cursor(position, cluster));
    var p := position + 1;
    if p % v.g.clusterSize == 0 {
      var c := NextCluster(v, cluster);
      if c.None? {
        return None, buffer;
      }
      var loaded := LoadCluster(v, c.value);
      if loaded.None? {
        return None, buffer;
      }
      return Some(Cursor(p, c.value)), loaded.value;
    }
    return Some(Cursor(p, cluster)), buffer;
  }

  /** `struct FAT16FileHandle`. */
  class FileHandle {
    var initialCluster: int
    var position: int
    var cluster: int
    var filesize: int

    constructor ()
      ensures initialCluster == 0 && position == 0 && cluster == 0 && filesize == 0
    {
      initialCluster, position, cluster, filesize := 0, 0, 0, 0;
    }
  }

  /** The driver's globals: the disk interface, `fs` and `CLUSTER_SIZE`. */
  class Driver {
    var disk: seq<u8>
    var boot: BootRecord
    var signature: u8
    var geometry: Geometry

    constructor ()
      ensures disk == [] && boot == BootRecord(0, 0, 0, 0, 0, 0) && signature == 0
      ensures geometry == Geometry(0, 0, 0, 0)
    {
      disk := [];
      boot := BootRecord(0, 0, 0, 0, 0, 0);
      signature := 0;
      geometry := Geometry(0, 0, 0, 0);
    }

    function Vol(): Volume
      reads this
    {
      Volume(disk, geometry)
    }

    /** fat16_set_diskinterface. */
    method SetDiskInterface(d: seq<u8>)
      modifies this
      ensures disk == d && boot == old(boot) && signature == old(signature) && geometry == old(geometry)
    {
      disk := d;
    }

    /**
     * fat16_read_filesystem: the two boot records are read (a read that
     * fails leaves the old values), the disk is accepted when the extended
     * signature is 0x28 or 0x29 and a sector holds 512, 1024, 2048 or 4096
     * bytes, and then the geometry is set from the boot record.
     */
    method ReadFilesystem(d: seq<u8>) returns (r: int)
      modifies this
      ensures disk == d
      ensures boot == (if |d| >= BOOT_RECORD_SIZE then DecodeBootRecord(d[..BOOT_RECORD_SIZE]) else old(boot))
      ensures signature == (if |d| >= BOOT_RECORD_SIZE + EXT_BOOT_RECORD_SIZE then d[BOOT_RECORD_SIZE + 2] else old(signature))
      ensures r == 0 <==> SignatureValid(signature) && SectorSizeValid(boot.bytesPerSector)
      ensures r == 0 ==> geometry == Layout(boot)
      ensures r != 0 ==> r == -1 && geometry == old(geometry)
    {
      disk := d;
      var br := Ramdisk.Read(d, 0, BOOT_RECORD_SIZE);
      if br.Some? {
        boot := DecodeBootRecord(br.value);
      }
      var ebr := Ramdisk.Read(d, BOOT_RECORD_SIZE, EXT_BOOT_RECORD_SIZE);
      if ebr.Some? {
        signature := ExtendedSignature(ebr.value);
      }
      if signature != 0x29 && signature != 0x28 {
        return -1;
      }
      if boot.bytesPerSector != 512 && boot.bytesPerSector != 1024 && boot.bytesPerSector != 2048 && boot.bytesPerSector != 4096 {
        return -1;
      }
      geometry := Layout(boot);
      return 0;
    }

    /** fat16_ls from `offset`; the new offset is in the listing. */
    method Ls(offset: int) returns (r: Listing)
      ensures r == NextEntry(disk, offset)
    {
      var off := offset;
      var raw := Ramdisk.Read(disk, off, DIR_ENTRY_SIZE);
      if raw.None? {
        return Failed(off);
      }
      while IsEntryUnused(raw.value) && !IsEntryEnd(raw.value)
        invariant raw == Ramdisk.Read(disk, off, DIR_ENTRY_SIZE) && raw.Some?
        invariant NextEntry(disk, off) == NextEntry(disk, offset)
        decreases |disk| - off
      {
        off := off + DIR_ENTRY_SIZE;
        raw := Ramdisk.Read(disk, off, DIR_ENTRY_SIZE);
        if raw.None? {
          return Failed(off);
        }
      }
      if IsEntryEnd(raw.value) {
        return Exhausted(off);
      }
      return Listed(DecodeDirEntry(raw.value), off + DIR_ENTRY_SIZE);
    }

    /** fat16_findentry. */
    method FindEntry(name: seq<u8>, diroffset: int) returns (r: Status)
      requires |name| >= FAT_FILENAME_LENGTH
      ensures r == Lookup(disk, name, diroffset)
    {
      var off := diroffset;
      while true
        invariant Lookup(disk, name, off) == Lookup(disk, name, diroffset)
        decreases |disk| - off
      {
        var listing := Ls(off);
        if listing.Failed? {
          return Panicked;
        }
        if listing.Exhausted? {
          return Done(-1);
        }
        var cmp := FilenameCompare(listing.entry.filename, name);
        if cmp == 0 {
          return Done(listing.next - DIR_ENTRY_SIZE);
        }
        off := listing.next;
      }
    }

    /**
     * fat16_fopen for reading. The path must resolve to a positive offset;
     * the handle then starts at position 0 in the entry's first cluster.
     * For the root path nothing writes `entry`, so the handle takes the
     * stale contents `stale` of the caller's variable.
     */
    method FOpen(path: seq<u8>, mode: char, handle: FileHandle, stale: DirEntry) returns (r: Status)
      requires mode == 'r' && Terminated(path) && Fits(path, |CString(path)|)
      modifies handle
      ensures var o := Open(Vol(), path);
        && (o.Halted? ==> r == Panicked)
        && (o.Resolved? && o.offset <= 0 ==> r == Done(-1) && unchanged(handle))
        && (o.Resolved? && o.offset > 0 ==>
          var e := if o.entry.Some? then o.entry.value else stale;
          && r == Done(0) && handle.position == 0
          && handle.cluster == e.lowStartingCluster && handle.initialCluster == e.lowStartingCluster
          && handle.filesize == ToI32(e.filesize))
    {
      var res := Open(Vol(), path);
      if res.Halted? {
        return Panicked;
      }
      if res.offset <= 0 {
        return Done(-1);
      }
      var entry := if res.entry.Some? then res.entry.value else stale;
      handle.position, handle.cluster, handle.initialCluster, handle.filesize :=
        0, entry.lowStartingCluster, entry.lowStartingCluster, ToI32(entry.filesize);
      assert Vol() == old(Vol());
      return Done(0);
    }

    /**
     * fat16_fread with the intended status check: copies what `ReadFile`
     * copies to the front of `buffer`, leaves the rest of it, moves the
     * handle to where `ReadFile` leaves it and returns the number of bytes.
     */
    method FRead(handle: FileHandle, count: int, buffer: array<u8>) returns (r: Status)
      requires geometry.clusterSize > 0 && handle.position >= 0
      requires Min(count, handle.filesize - handle.position) <= buffer.Length
      modifies handle, buffer
      ensures var t := ReadFile(Vol(), old(handle.position), old(handle.cluster), old(handle.filesize), count);
        && (t.Halt? ==> r == Panicked)
        && (t.Transfer? ==>
          && r == Done(|t.bytes|) && buffer[..|t.bytes|] == t.bytes && buffer[|t.bytes|..] == old(buffer[|t.bytes|..])
          && handle.position == t.position && handle.cluster == t.cluster
          && handle.filesize == old(handle.filesize) && handle.initialCluster == old(handle.initialCluster))
    {
      var v := Vol();
      var loaded := LoadCluster(v, handle.cluster);
      if loaded.None? {
        return Panicked;
      }
      var ok, copied, position, cluster := CopyLoop(v, handle.position, handle.cluster, loaded.value, handle.filesize, count, buffer);
      if !ok {
        return Panicked;
      }
      handle.position := position;
      handle.cluster := cluster;
      return Done(copied);
    }
  }

  /**
   * The copy loop of fat16_fread, from the handle's position in `cluster`
   * whose bytes are in `data`: `ok` is false on a panic; otherwise the
   * bytes `Copy` gives are at the front of `buffer`, the rest of it is
   * untouched, and the position and cluster reached are returned.
   */
  method CopyLoop(v: Volume, start: nat, cluster: int, data: seq<u8>, filesize: int, count: int, buffer: array<u8>)
    returns (ok: bool, copied: nat, position: nat, clusterIndex: int)
    requires v.g.clusterSize > 0 && LoadCluster(v, cluster) == Some(data)
    requires Min(count, filesize - start) <= buffer.Length
    modifies buffer
    ensures var t := Copy(v, Cursor(start, cluster), filesize, if count < 0 then 0 else count);
      && (t.Halt? <==> !ok)
      && (t.Transfer? ==>
        && copied == |t.bytes| && buffer[..copied] == t.bytes && buffer[copied..] == old(buffer[copied..])
        && position == t.position && clusterIndex == t.cluster)
  {
    ghost var n: nat := if count < 0 then 0 else count;
    ghost var total := Copy(v, Cursor(start, cluster), filesize, n);
    var buffered := data;
    position, clusterIndex, copied := start, cluster, 0;
    while copied < count && position < filesize
      invariant copied <= n && copied <= buffer.Length && position == start + copied
      invariant LoadCluster(v, clusterIndex) == Some(buffered)
      invariant buffer[copied..] == old(buffer[copied..])
      invariant total == Glue(buffer[..copied], Copy(v, Cursor(position, clusterIndex), filesize, n - copied))
      decreases n - copied
    {
      ghost var pre := buffer[..copied];
      ghost var cur := Cursor(position, clusterIndex);
      CopyStep(v, cur, filesize, n - copied, pre);
      UnderIsBuffered(v, cur, buffered);
      buffer[copied] := buffered[position % v.g.clusterSize];
      assert buffer[..copied + 1] == pre + [Under(v, cur)];
      copied := copied + 1;
      var next;
      next, buffered := StepCluster(v, position, clusterIndex, buffered);
      if next.None? {
        return false, copied, position, clusterIndex;
      }
      position, clusterIndex := next.value.position, next.value.cluster;
    }
    assert buffer[..copied] + [] == buffer[..copied];
    ok := true;
  }

  /** A transfer with `prefix` already copied in front of it. */
  function Glue(prefix: seq<u8>, t: Transfer): Transfer
  {
    match t
    case Halt => Halt
    case Transfer(bytes, p, c) => Transfer(prefix + bytes, p, c)
  }

  lemma GluePrepend(prefix: seq<u8>, b: u8, t: Transfer)
    ensures Glue(prefix, Prepend(b, t)) == Glue(prefix + [b], t)
  {
    if t.Transfer? {
      assert prefix + ([b] + t.bytes) == prefix + [b] + t.bytes;
    }
  }
}
