/**
 * The FAT16 driver behind the kernel's virtual file system interface:
 * installing the interface reads the filesystem once, opening a file
 * allocates a driver handle and records the file's name and size, reads
 * are the driver's reads, and writes are not implemented.
 */
module Fat16Vfs {
  import opened Common
  import opened KString
  import opened Fat16Layout
  import opened Fat16

  /** `VFS_FILE_LEN`: the longest name a `File` records. */
  const VFS_FILE_LEN: nat := 32

  /** Where the recorded name of the path `path[..length]` starts: its last '/', or 0 when it has none. */
  function NameStart(path: seq<u8>, length: nat): (r: nat)
    requires length <= |path|
    ensures length == 0 ==> r == 0
    ensures length > 0 ==> r < length && (r == 0 || path[r] == SLASH)
    ensures forall k :: r < k < length ==> path[k] != SLASH
  {
    if length == 0 then 0 else LastSlash(path, length - 1)
  }

  /** The forward scan of fat16vfs_fopen over the path for its last '/'. */
  method FindNameStart(path: seq<u8>, length: nat) returns (lastSlash: nat)
    requires length <= |path|
    ensures lastSlash == NameStart(path, length)
  {
    lastSlash := 0;
    var i := 0;
    while i < length
      invariant 0 <= i <= length
      invariant lastSlash == NameStart(path, i)
    {
      if path[i] == SLASH {
        lastSlash := i;
      }
      i := i + 1;
    }
  }

  /** The name fat16vfs_fopen records for the C string in `path`: from the last '/' on, at most 32 bytes. */
  function RecordedName(path: seq<u8>): (name: seq<u8>)
    requires Terminated(path)
    ensures |name| <= VFS_FILE_LEN && 0 !in name
  {
    var s := CString(path);
    var start := NameStart(s, |s|);
    s[start..start + Min(|s| - start, VFS_FILE_LEN)]
  }

  /** The 33-byte `filename` field after the name and its NUL are stored at its front. */
  function StoredName(field: seq<u8>, path: seq<u8>): (r: seq<u8>)
    requires Terminated(path) && |field| == VFS_FILE_LEN + 1
    ensures |r| == |field|
  {
    var name := RecordedName(path);
    name + [0] + field[|name| + 1..]
  }

  /** Read back as a C string, the stored field is exactly the recorded name. */
  lemma StoredNameReads(field: seq<u8>, path: seq<u8>)
    requires Terminated(path) && |field| == VFS_FILE_LEN + 1
    ensures CString(StoredName(field, path)) == RecordedName(path)
  {
    var name := RecordedName(path);
    var r := StoredName(field, path);
    assert r[..|name|] == name && r[|name|] == 0;
    PrefixString(r, |name|);
  }

  /**
   * A path ending in `/base`, with `base` free of slashes and short enough,
   * records `/base`: the slash and the last component.
   */
  lemma LastComponentRecorded(path: seq<u8>, dir: seq<u8>, base: seq<u8>)
    requires Terminated(path) && CString(path) == dir + [SLASH] + base
    requires SLASH !in base && |base| < VFS_FILE_LEN
    ensures RecordedName(path) == [SLASH] + base
  {
    var s := CString(path);
    assert s[|dir|] == SLASH;
    forall k | |dir| < k < |s|
      ensures s[k] != SLASH
    {
      assert s[k] == base[k - |dir| - 1];
    }
    var start := NameStart(s, |s|);
    assert start == |dir|;
    assert s[start..] == [SLASH] + base;
  }

  /** A path with no slash records its first 32 bytes. */
  lemma SlashlessPathRecorded(path: seq<u8>)
    requires Terminated(path) && SLASH !in CString(path)
    ensures RecordedName(path) == CString(path)[..Min(|CString(path)|, VFS_FILE_LEN)]
  {
    var s := CString(path);
    if |s| > 0 {
      assert NameStart(s, |s|) == 0;
    }
  }

  /** A recorded name longer than one byte has no slash after its first byte. */
  lemma RecordedNameHasOneSlash(path: seq<u8>)
    requires Terminated(path)
    ensures forall k :: 0 < k < |RecordedName(path)| ==> RecordedName(path)[k] != SLASH
  {
    var s := CString(path);
    var start := NameStart(s, |s|);
    forall k | 0 < k < |RecordedName(path)|
      ensures RecordedName(path)[k] != SLASH
    {
      assert RecordedName(path)[k] == s[start + k];
    }
  }

  /** `File`: the recorded name, the size and the driver's handle. */
  class File {
    var filename: seq<u8>
    var filesize: int
    var fsDefined: FileHandle?

    constructor ()
      ensures |filename| == VFS_FILE_LEN + 1 && filesize == 0 && fsDefined == null
    {
      filename := seq(VFS_FILE_LEN + 1, _ => 0);
      filesize := 0;
      fsDefined := null;
    }
  }

  /** The static `vfsinterface` over the FAT16 driver; `installed` is whether its `fopen` is set. */
  class Vfs {
    var installed: bool
    const driver: Driver

    constructor (driver: Driver)
      ensures !installed && this.driver == driver
    {
      installed := false;
      this.driver := driver;
    }

    /**
     * fat16_get_vfsinterface: the first successful call reads the
     * filesystem on `d` and installs the interface; a failed read leaves it
     * uninstalled and gives NULL (`false`); once installed, calls succeed
     * without touching the driver.
     */
    method GetVfsInterface(d: seq<u8>) returns (ok: bool)
      modifies this, driver
      ensures old(installed) ==> ok && installed && unchanged(driver)
      ensures !old(installed) ==> driver.disk == d && installed == ok
      ensures !old(installed) ==>
        (ok <==> SignatureValid(driver.signature) && SectorSizeValid(driver.boot.bytesPerSector))
      ensures ok ==> installed
      ensures !old(installed) && ok ==> driver.geometry == Layout(driver.boot)
    {
      if !installed {
        var result := driver.ReadFilesystem(d);
        if result < 0 {
          return false;
        }
        installed := true;
      }
      return true;
    }

    /**
     * fat16vfs_fopen(path, out), where `handle` is what kmalloc gave (null
     * when it failed) and `stale` is the contents of fat16_fopen's
     * uninitialised `entry`: -2 without a handle; the driver's panic; -1
     * when the driver does not open the path; otherwise 0, with the
     * recorded name stored in `out`, the file size copied and the handle
     * kept.
     */
    method FOpen(path: seq<u8>, handle: FileHandle?, stale: DirEntry, out: File) returns (r: Status)
      requires Terminated(path) && Fits(path, |CString(path)|)
      requires |out.filename| == VFS_FILE_LEN + 1
      modifies handle, out
      ensures handle == null ==> r == Done(-2) && unchanged(out)
      ensures handle != null && Open(driver.Vol(), path).Halted? ==> r == Panicked
      ensures handle != null && Open(driver.Vol(), path).Resolved? && Open(driver.Vol(), path).offset <= 0 ==>
        r == Done(-1) && unchanged(out) && unchanged(handle)
      ensures handle != null && Open(driver.Vol(), path).Resolved? && Open(driver.Vol(), path).offset > 0 ==>
        var res := Open(driver.Vol(), path);
        var e := if res.entry.Some? then res.entry.value else stale;
        && r == Done(0)
        && handle.position == 0 && handle.cluster == e.lowStartingCluster
        && handle.initialCluster == e.lowStartingCluster && handle.filesize == ToI32(e.filesize)
        && out.filename == StoredName(old(out.filename), path)
        && out.filesize == handle.filesize && out.fsDefined == handle
    {
      if handle == null {
        return Done(-2);
      }
      var status := driver.FOpen(path, 'r', handle, stale);
      if status != Done(0) {
        if status.Panicked? {
          return Panicked;
        }
        return Done(-1);
      }
      StoreName(path, out);
      out.filesize := handle.filesize;
      out.fsDefined := handle;
      return Done(0);
    }

    /** The name fat16vfs_fopen copies into `out->filename`, with its NUL. */
    method StoreName(path: seq<u8>, out: File)
      requires Terminated(path) && |out.filename| == VFS_FILE_LEN + 1
      modifies out
      ensures out.filename == StoredName(old(out.filename), path)
      ensures out.filesize == old(out.filesize) && out.fsDefined == old(out.fsDefined)
    {
      var pathlen := StrLen(path);
      var lastSlash := FindNameStart(path, pathlen);
      assert path[..pathlen] == CString(path);
      NameStartOfPrefix(path, pathlen);
      var filenameLen := pathlen - lastSlash;
      if filenameLen >= VFS_FILE_LEN {
        filenameLen := VFS_FILE_LEN;
      }
      out.filename := path[lastSlash..lastSlash + filenameLen] + [0] + out.filename[filenameLen + 1..];
    }

    /** fat16vfs_fread: the driver's read on the file's handle. */
    method FRead(buffer: array<u8>, count: int, file: File) returns (r: Status)
      requires file.fsDefined != null
      requires driver.geometry.clusterSize > 0 && file.fsDefined.position >= 0
      requires Min(count, file.fsDefined.filesize - file.fsDefined.position) <= buffer.Length
      modifies file.fsDefined, buffer
      ensures var h := file.fsDefined;
        var t := ReadFile(driver.Vol(), old(h.position), old(h.cluster), old(h.filesize), count);
        && (t.Halt? ==> r == Panicked)
        && (t.Transfer? ==>
          && r == Done(|t.bytes|) && buffer[..|t.bytes|] == t.bytes && buffer[|t.bytes|..] == old(buffer[|t.bytes|..])
          && h.position == t.position && h.cluster == t.cluster)
    {
      r := driver.FRead(file.fsDefined, count, buffer);
    }

    /** fat16vfs_fwrite: writing is not implemented and always fails. */
    method FWrite(buffer: array<u8>, count: int, file: File) returns (r: int)
      ensures r == -1
    {
      return -1;
    }

    /** fat16vfs_fclose: the handle is released and the call succeeds. */
    method FClose(file: File) returns (r: int)
      ensures r == 0
    {
      return 0;
    }
  }

  /** The last '/' of a prefix is found the same way in the prefix as in the whole sequence. */
  lemma NameStartOfPrefix(path: seq<u8>, length: nat)
    requires length <= |path|
    ensures NameStart(path[..length], length) == NameStart(path, length)
  {
  }
}
