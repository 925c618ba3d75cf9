/**
 * The kernel's RAM disk: a byte buffer handed over at boot, read and
 * written through a disk interface whose operations check that the byte
 * range lies inside the disk.
 */
module Ramdisk {
  import opened Common

  /** read_bytes on a disk holding `contents`: the bytes of the range, or nothing when it leaves the disk. */
  function Read(contents: seq<u8>, offset: int, count: nat): (r: Option<seq<u8>>)
    ensures r.Some? <==> 0 <= offset && offset + count <= |contents|
    ensures r.Some? ==> |r.value| == count
  {
    if offset < 0 || offset + count > |contents| then None else Some(contents[offset..offset + count])
  }

  /** `contents` with `data` written from `offset`, which lies inside it. */
  function Splice(contents: seq<u8>, offset: nat, data: seq<u8>): (r: seq<u8>)
    requires offset + |data| <= |contents|
    ensures |r| == |contents|
  {
    contents[..offset] + data + contents[offset + |data|..]
  }

  /** What was written is read back, and a range that does not overlap the write reads as before. */
  lemma ReadAfterWrite(contents: seq<u8>, offset: nat, data: seq<u8>, offset': int, count: nat)
    requires offset + |data| <= |contents|
    ensures Read(Splice(contents, offset, data), offset, |data|) == Some(data)
    ensures offset' + count <= offset || offset + |data| <= offset' ==>
      Read(Splice(contents, offset, data), offset', count) == Read(contents, offset', count)
  {
    var c' := Splice(contents, offset, data);
    assert c'[offset..offset + |data|] == data;
    if (offset' + count <= offset || offset + |data| <= offset') && 0 <= offset' && offset' + count <= |contents| {
      assert c'[offset'..offset' + count] == contents[offset'..offset' + count];
    }
  }

  class RamDisk {
    /** `ramdisk`: NULL until ramdisk_init. */
    var disk: array?<u8>
    /** `ramdisk_size`. */
    var size: int

    ghost predicate Valid()
      reads this
    {
      disk != null ==> 0 <= size <= disk.Length
    }

    /** The disk's bytes as the interface sees them. */
    ghost function Contents(): seq<u8>
      reads this, disk
      requires Valid() && disk != null
    {
      disk[..size]
    }

    constructor ()
      ensures Valid() && disk == null
    {
      disk := null;
      size := 0;
    }

    /** ramdisk_init: adopt a buffer the caller vouches holds `size` bytes. */
    method Init(buffer: array<u8>, size: int) returns (r: int)
      requires 0 <= size <= buffer.Length
      modifies this
      ensures Valid() && disk == buffer && this.size == size && r == 0
    {
      disk := buffer;
      this.size := size;
      r := 0;
    }

    /** ramdisk_get_diskinterface: -1 before ramdisk_init, 0 after. */
    method GetDiskInterface() returns (r: int)
      ensures r == (if disk == null then -1 else 0)
    {
      if disk == null {
        return -1;
      }
      return 0;
    }

    /**
     * read_bytes: -1 and nothing copied when the range leaves the disk,
     * otherwise 0 and the range copied to the front of `buffer`.
     */
    method ReadBytes(offset: int, count: int, buffer: array<u8>) returns (r: int)
      requires Valid() && disk != null && buffer != disk
      requires 0 <= count <= buffer.Length
      modifies buffer
      ensures var got := Read(Contents(), offset, count);
        && (got.None? ==> r == -1 && buffer[..] == old(buffer[..]))
        && (got.Some? ==> r == 0 && buffer[..count] == got.value && buffer[count..] == old(buffer[count..]))
    {
      if offset < 0 || offset + count > size {
        return -1;
      }
      forall k | 0 <= k < count {
        buffer[k] := disk[offset + k];
      }
      assert buffer[..count] == disk[..size][offset..offset + count];
      r := 0;
    }

    /**
     * write_bytes: -1 and nothing written when the range leaves the disk,
     * otherwise 0 and the first `count` bytes of `buffer` stored from `offset`.
     */
    method WriteBytes(offset: int, count: int, buffer: array<u8>) returns (r: int)
      requires Valid() && disk != null && buffer != disk
      requires 0 <= count <= buffer.Length
      modifies disk
      ensures Valid()
      ensures offset < 0 || offset + count > size ==> r == -1 && Contents() == old(Contents())
      ensures 0 <= offset && offset + count <= size ==>
        r == 0 && Contents() == Splice(old(Contents()), offset, buffer[..count])
      ensures disk[size..] == old(disk[size..])
    {
      if offset < 0 || offset + count > size {
        return -1;
      }
      forall k | 0 <= k < count {
        disk[offset + k] := buffer[k];
      }
      assert disk[..size] == Splice(old(disk[..size]), offset, buffer[..count]);
      r := 0;
    }
  }
}
