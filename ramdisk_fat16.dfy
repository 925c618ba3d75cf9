/**
 * The host-side copy of the FAT16 reader used to build and inspect RAM
 * disk images. It works on the image in memory, with no disk interface in
 * between: a read outside the image is undefined behaviour in C, which the
 * model marks as an `Undefined` outcome instead of a value.
 */
module HostFat16 {
  import opened Common
  import opened Fat16Layout
  import opened Fat16
  import Ramdisk

  /**
   * fat16_is_entry_unused as written: the first byte is read as a plain
   * `char`, signed on the host, and compared with the int 0xE5.
   */
  predicate IsEntryUnusedAsWritten(raw: seq<u8>)
    requires |raw| > 0
  {
    SignedChar(raw[0]) == 0xE5
  }

  /**
   * fat16_ls as written, from `offset`: since no signed byte equals 0xE5,
   * the skip loop never runs and the entry at `offset` is returned whatever
   * its first byte.
   */
  function LsAsWritten(disk: seq<u8>, offset: int): (r: Listing)
    ensures r.Listed? ==> 0 <= offset && r.next == offset + DIR_ENTRY_SIZE <= |disk| && disk[offset] != ENTRY_END
    ensures r.Exhausted? ==> r.at == offset
    ensures r.Failed? ==> r.at == offset
  {
    match Ramdisk.Read(disk, offset, DIR_ENTRY_SIZE)
    case None => Failed(offset)
    case Some(raw) =>
      if !IsEntryEnd(raw) && IsEntryUnusedAsWritten(raw) then
        // The skip loop, which would move on to the next entry: no signed
        // byte equals 0xE5, so it is never entered.
        assert false; Failed(offset)
      else if IsEntryEnd(raw) then Exhausted(offset)
      else Listed(DecodeDirEntry(raw), offset + DIR_ENTRY_SIZE)
  }

  /**
   * A deleted entry (first byte 0xE5) is listed by the host's fat16_ls,
   * while the intended listing, which reads the byte unsigned, skips it.
   */
  lemma DeletedEntryListed(disk: seq<u8>, offset: int)
    requires 0 <= offset && offset + DIR_ENTRY_SIZE <= |disk| && disk[offset] == ENTRY_UNUSED
    ensures LsAsWritten(disk, offset) == Listed(DecodeDirEntry(disk[offset..offset + DIR_ENTRY_SIZE]), offset + DIR_ENTRY_SIZE)
    ensures NextEntry(disk, offset) != LsAsWritten(disk, offset)
  {
    var raw := disk[offset..offset + DIR_ENTRY_SIZE];
    assert raw[0] == ENTRY_UNUSED;
    assert NextEntry(disk, offset) == NextEntry(disk, offset + DIR_ENTRY_SIZE);
  }

  /** On an entry that is not deleted, the host's fat16_ls and the intended one agree. */
  lemma LiveEntryAgrees(disk: seq<u8>, offset: int)
    requires 0 <= offset < |disk| ==> disk[offset] != ENTRY_UNUSED
    ensures LsAsWritten(disk, offset) == NextEntry(disk, offset)
  {
    if Ramdisk.Read(disk, offset, DIR_ENTRY_SIZE).Some? {
      assert disk[offset..offset + DIR_ENTRY_SIZE][0] == disk[offset];
    }
  }

  /** fat16_find_cluster: the image offset of a cluster's first byte. */
  function FindCluster(g: Geometry, cluster: int): int
  {
    g.dataOffset + g.clusterSize * (cluster - 2)
  }

  /** The host's cluster address is the kernel's cluster offset on the same geometry. */
  lemma FindClusterIsClusterStart(v: Volume, cluster: int)
    ensures FindCluster(v.g, cluster) == ClusterStart(v, cluster)
  {
    ClusterOffsetIsProduct(cluster, v.g.clusterSize);
  }

  /** The 16-bit allocation-table entry of `cluster` lies inside the image. */
  predicate TableEntryInImage(v: Volume, cluster: int)
  {
    0 <= v.g.tableOffset + 2 * cluster && v.g.tableOffset + 2 * cluster + 2 <= |v.disk|
  }

  /** fat16_get_next_cluster: the little-endian word at `tableOffset + 2 * cluster` of the image. */
  function GetNextCluster(v: Volume, cluster: int): (r: u16)
    requires TableEntryInImage(v, cluster)
    ensures NextCluster(v, cluster) == Some(r as int)
  {
    LE16(v.disk, v.g.tableOffset + 2 * cluster)
  }

  /** The image byte fat16_fread copies at the cursor: `cluster[position % CLUSTER_SIZE]`. */
  function HostByte(v: Volume, cur: Cursor): Option<u8>
    requires v.g.clusterSize > 0
  {
    var at := ClusterStart(v, cur.cluster) + Rem(cur.position, v.g.clusterSize);
    if 0 <= at < |v.disk| then Some(v.disk[at]) else None
  }

  /**
   * The host's step past one byte: the next position, moving to the next
   * cluster of the chain on a cluster boundary. The cluster reached is not
   * read, so only its table entry has to lie inside the image.
   */
  function HostAdvance(v: Volume, cur: Cursor): (r: Option<Cursor>)
    requires v.g.clusterSize > 0
    ensures r.Some? ==> r.value.position == cur.position + 1
  {
    var p := cur.position + 1;
    if Rem(p, v.g.clusterSize) != 0 then Some(Cursor(p, cur.cluster))
    else if TableEntryInImage(v, cur.cluster) then Some(Cursor(p, GetNextCluster(v, cur.cluster) as int))
    else None
  }

  /**
   * The host's fat16_fread from the cursor for at most `n` bytes of a file
   * of `filesize` bytes: `Halt` when a byte or a table entry lies outside
   * the image.
   */
  function HostCopy(v: Volume, cur: Cursor, filesize: int, n: nat): Transfer
    requires v.g.clusterSize > 0
    decreases n
  {
    if n == 0 || cur.position >= filesize then Transfer([], cur.position, cur.cluster)
    else match HostByte(v, cur)
      case None => Halt
      case Some(b) =>
        match HostAdvance(v, cur)
        case None => Halt
        case Some(next) => Prepend(b, HostCopy(v, next, filesize, n - 1))
  }

  /** When no read leaves the image, min(n, filesize - position) bytes are copied and the position moves by as many. */
  lemma {:induction false} HostCopyLength(v: Volume, cur: Cursor, filesize: int, n: nat)
    requires v.g.clusterSize > 0
    ensures var t := HostCopy(v, cur, filesize, n);
      t.Transfer? ==> |t.bytes| == Min(n, Max(0, filesize - cur.position)) && t.position == cur.position + |t.bytes|
    decreases n
  {
    if n > 0 && cur.position < filesize && HostByte(v, cur).Some? && HostAdvance(v, cur).Some? {
      HostCopyLength(v, HostAdvance(v, cur).value, filesize, n - 1);
    }
  }

  /**
   * Wherever the kernel's read succeeds, the host's read of the same image
   * copies the same bytes and stops at the same position and cluster: the
   * two copies of fat16_fread agree.
   */
  lemma {:induction false} HostCopyAgrees(v: Volume, cur: Cursor, filesize: int, n: nat)
    requires v.g.clusterSize > 0 && Readable(v, cur.cluster)
    ensures Copy(v, cur, filesize, n).Transfer? ==> HostCopy(v, cur, filesize, n) == Copy(v, cur, filesize, n)
    decreases n
  {
    if n > 0 && cur.position < filesize && Advance(v, cur).Some? {
      var next := Advance(v, cur).value;
      assert HostByte(v, cur) == Some(Under(v, cur));
      assert HostAdvance(v, cur) == Some(next);
      HostCopyAgrees(v, next, filesize, n - 1);
    }
  }

  /** One byte of HostCopy, with `prefix` already copied. */
  lemma HostCopyStep(v: Volume, cur: Cursor, filesize: int, n: nat, prefix: seq<u8>)
    requires v.g.clusterSize > 0 && n > 0 && cur.position < filesize
    ensures HostByte(v, cur).None? || HostAdvance(v, cur).None? ==> Glue(prefix, HostCopy(v, cur, filesize, n)) == Halt
    ensures HostByte(v, cur).Some? && HostAdvance(v, cur).Some? ==>
      Glue(prefix, HostCopy(v, cur, filesize, n))
        == Glue(prefix + [HostByte(v, cur).value], HostCopy(v, HostAdvance(v, cur).value, filesize, n - 1))
  {
    if HostByte(v, cur).Some? && HostAdvance(v, cur).Some? {
      GluePrepend(prefix, HostByte(v, cur).value, HostCopy(v, HostAdvance(v, cur).value, filesize, n - 1));
    }
  }

  /** The read of a turn of the host's fat16_fread loop: `cluster[position % CLUSTER_SIZE]`, or None outside the image. */
  method HostRead(v: Volume, base: int, position: nat, cluster: int) returns (b: Option<u8>)
    requires v.g.clusterSize > 0 && base == FindCluster(v.g, cluster)
    ensures b == HostByte(v, Cursor(position, cluster))
  {
    FindClusterIsClusterStart(v, cluster);
    QuotRem(position, v.g.clusterSize);
    var at := base + position % v.g.clusterSize;
    if at < 0 || at >= |v.disk| {
      return None;
    }
    return Some(v.disk[at]);
  }

  /**
   * The end of a turn of the host's fat16_fread loop: the position moves on
   * and, on a cluster boundary, the next cluster of the chain and its
   * address are looked up; None when the table entry lies outside the image.
   */
  method HostStep(v: Volume, base: int, position: nat, cluster: int) returns (next: Option<Cursor>, base': int)
    requires v.g.clusterSize > 0 && base == FindCluster(v.g, cluster)
    ensures next == HostAdvance(v, Cursor(position, cluster))
    ensures next.Some? ==> base' == FindCluster(v.g, next.value.cluster)
  {
    var p := position + 1;
    QuotRem(p, v.g.clusterSize);
    if p % v.g.clusterSize != 0 {
      return Some(Cursor(p, cluster)), base;
    }
    if !TableEntryInImage(v, cluster) {
      return None, base;
    }
    var c := GetNextCluster(v, cluster) as int;
    return Some(Cursor(p, c)), FindCluster(v.g, c);
  }

  /**
   * One turn of the host's fat16_fread loop: the byte under the cursor is
   * stored at `buffer[copied]` and the cursor advances; `ok` is false when
   * the byte or the next table entry lies outside the image. The transfer
   * still to come, glued to what is copied so far, is unchanged.
   */
  method HostCopyTurn(v: Volume, buffer: array<u8>, copied: nat, position: nat, cluster: int, base: int, filesize: int, ghost m: nat)
    returns (ok: bool, position': nat, cluster': int, base': int)
    requires v.g.clusterSize > 0 && base == FindCluster(v.g, cluster)
    requires copied < buffer.Length && m > 0 && position < filesize
    modifies buffer
    ensures forall k :: 0 <= k < buffer.Length && k != copied ==> buffer[k] == old(buffer[k])
    ensures !ok ==> Glue(old(buffer[..copied]), HostCopy(v, Cursor(position, cluster), filesize, m)) == Halt
    ensures ok ==> position' == position + 1 && base' == FindCluster(v.g, cluster')
    ensures ok ==> (Glue(old(buffer[..copied]), HostCopy(v, Cursor(position, cluster), filesize, m))
      == Glue(buffer[..copied + 1], HostCopy(v, Cursor(position', cluster'), filesize, m - 1)))
  {
    ghost var pre := buffer[..copied];
    HostCopyStep(v, Cursor(position, cluster), filesize, m, pre);
    var b := HostRead(v, base, position, cluster);
    if b.None? {
      return false, position, cluster, base;
    }
    buffer[copied] := b.value;
    assert buffer[..copied + 1] == pre + [b.value];
    var next;
    next, base' := HostStep(v, base, position, cluster);
    if next.None? {
      return false, position, cluster, base;
    }
    position', cluster' := next.value.position, next.value.cluster;
    ok := true;
  }

  /** How the host's fat16_fread ends: the bytes copied, or undefined behaviour. */
  datatype Outcome = Copied(count: int) | Undefined

  /**
   * The copy loop of the host's fat16_fread: `ok` is false where C reads
   * outside the image; otherwise the bytes `HostCopy` gives are at the
   * front of `buffer`, the rest of it is untouched, and the position and
   * cluster reached are returned.
   */
  method HostCopyLoop(v: Volume, start: nat, cluster: int, filesize: int, count: int, buffer: array<u8>)
    returns (ok: bool, copied: nat, position: nat, clusterIndex: int)
    requires v.g.clusterSize > 0
    requires Min(count, filesize - start) <= buffer.Length
    modifies buffer
    ensures var t := HostCopy(v, Cursor(start, cluster), filesize, if count < 0 then 0 else count);
      && (t.Halt? <==> !ok)
      && (t.Transfer? ==>
        && copied == |t.bytes| <= buffer.Length && buffer[..copied] == t.bytes && buffer[copied..] == old(buffer[copied..])
        && position == t.position && clusterIndex == t.cluster)
  {
    ghost var n: nat := if count < 0 then 0 else count;
    ghost var total := HostCopy(v, Cursor(start, cluster), filesize, n);
    var base := FindCluster(v.g, cluster);
    position, clusterIndex, copied := start, cluster, 0;
    while copied < count && position < filesize
      invariant copied <= n && copied <= buffer.Length && position == start + copied
      invariant base == FindCluster(v.g, clusterIndex)
      invariant forall k :: copied <= k < buffer.Length ==> buffer[k] == old(buffer[k])
      invariant total == Glue(buffer[..copied], HostCopy(v, Cursor(position, clusterIndex), filesize, n - copied))
      decreases n - copied
    {
      var more;
      more, position, clusterIndex, base := HostCopyTurn(v, buffer, copied, position, clusterIndex, base, filesize, n - copied);
      if !more {
        assert total == Halt;
        return false, copied, position, clusterIndex;
      }
      copied := copied + 1;
    }
    assert HostCopy(v, Cursor(position, clusterIndex), filesize, n - copied) == Transfer([], position, clusterIndex);
    assert buffer[..copied] + [] == buffer[..copied];
    assert total == Transfer(buffer[..copied], position, clusterIndex);
    assert buffer[copied..] == old(buffer[copied..]);
    ok := true;
  }

  /** The host program's globals: the image `ramdisk`, `fs` and `CLUSTER_SIZE`. */
  class Host {
    var image: seq<u8>
    var boot: BootRecord
    var signature: u8
    var geometry: Geometry

    constructor (image: seq<u8>)
      ensures this.image == image && boot == BootRecord(0, 0, 0, 0, 0, 0) && signature == 0
      ensures geometry == Geometry(0, 0, 0, 0)
    {
      this.image := image;
      boot := BootRecord(0, 0, 0, 0, 0, 0);
      signature := 0;
      geometry := Geometry(0, 0, 0, 0);
    }

    function Vol(): Volume
      reads this
    {
      Volume(image, geometry)
    }

    /**
     * The host's fat16_read_filesystem on `disk`, which holds both boot
     * records: they are copied in, the disk is accepted when the extended
     * signature is 0x28 or 0x29, whatever the sector size, and then the
     * geometry is set from the boot record.
     */
    method ReadFilesystem(disk: seq<u8>) returns (r: int)
      requires |disk| >= BOOT_RECORD_SIZE + EXT_BOOT_RECORD_SIZE
      modifies this
      ensures image == old(image)
      ensures boot == DecodeBootRecord(disk[..BOOT_RECORD_SIZE])
      ensures signature == disk[BOOT_RECORD_SIZE + 2]
      ensures r == 0 <==> SignatureValid(signature)
      ensures r == 0 ==> geometry == Layout(boot)
      ensures r != 0 ==> r == -1 && geometry == old(geometry)
    {
      boot := DecodeBootRecord(disk[..BOOT_RECORD_SIZE]);
      signature := ExtendedSignature(disk[BOOT_RECORD_SIZE..BOOT_RECORD_SIZE + EXT_BOOT_RECORD_SIZE]);
      if signature != 0x29 && signature != 0x28 {
        return -1;
      }
      geometry := Layout(boot);
      return 0;
    }

    /**
     * The host's fat16_fread: the bytes `HostCopy` gives are copied to the
     * front of `buffer` and the handle moves to where it stops; `Undefined`
     * where C would read outside the image.
     */
    method FRead(handle: FileHandle, count: int, buffer: array<u8>) returns (r: Outcome)
      requires geometry.clusterSize > 0 && handle.position >= 0
      requires Min(count, handle.filesize - handle.position) <= buffer.Length
      modifies handle, buffer
      ensures var t := HostCopy(Vol(), Cursor(old(handle.position), old(handle.cluster)), old(handle.filesize), if count < 0 then 0 else count);
        && (t.Halt? ==> r == Undefined)
        && (t.Transfer? ==>
          && r == Copied(|t.bytes|) && |t.bytes| <= buffer.Length && buffer[..|t.bytes|] == t.bytes && buffer[|t.bytes|..] == old(buffer[|t.bytes|..])
          && handle.position == t.position && handle.cluster == t.cluster
          && handle.filesize == old(handle.filesize) && handle.initialCluster == old(handle.initialCluster))
    {
      var ok, copied, position, cluster := HostCopyLoop(Vol(), handle.position, handle.cluster, handle.filesize, count, buffer);
      if !ok {
        return Undefined;
      }
      handle.position := position;
      handle.cluster := cluster;
      return Copied(copied);
    }
  }
}
