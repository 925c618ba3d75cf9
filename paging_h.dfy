/**
 * Two-level i386 address arithmetic: the page-directory index, page-table
 * index and page offset of a linear address (32-bit paging, section 4.3 of
 * Intel SDM Vol. 3A), the frame address of an entry, rounding to a multiple,
 * and the conversion between frame numbers and physical addresses.
 *
 * The C macros work on `uint32_t` with shifts and masks; on a value below
 * 2^32, `x >> k` is `x / 2^k` and `x & (2^k - 1)` is `x % 2^k`, which is how
 * they are written here.
 */
module PageArith {
  import opened Common
  import Arith

  const PGSIZE: int := 4096
  const PGSHIFT: int := 12
  const PGDIR_ENTRIES: int := 1024
  const PGTABLE_ENTRIES: int := 1024

  const PG_PRESENT: int := 0x1
  const PG_RW: int := 0x2
  const PG_USER: int := 0x4

  /** PDX: bits 22..31 of a linear address. */
  function Pdx(la: u32): (r: nat)
    ensures r < PGDIR_ENTRIES
  {
    la / 0x40_0000 % 0x400
  }

  /** PTX: bits 12..21 of a linear address. */
  function Ptx(la: u32): (r: nat)
    ensures r < PGTABLE_ENTRIES
  {
    la / 0x1000 % 0x400
  }

  /** PGOFF: bits 0..11 of a linear address. */
  function PgOff(la: u32): (r: nat)
    ensures r < PGSIZE
  {
    la % 0x1000
  }

  /** PTE_ADDR: an entry with its low 12 flag bits cleared. */
  function PteAddr(pte: u32): (r: u32)
    ensures r % PGSIZE == 0 && r <= pte && pte - r < PGSIZE
  {
    pte - pte % 0x1000
  }

  /** The three fields of a linear address put back together give the address. */
  lemma AddressSplit(la: u32)
    ensures Pdx(la) * 0x40_0000 + Ptx(la) * 0x1000 + PgOff(la) == la
  {
    var hi := la / 0x1000;
    assert la == hi * 0x1000 + PgOff(la);
    assert hi == (hi / 0x400) * 0x400 + Ptx(la);
    assert hi / 0x400 == la / 0x40_0000;
  }

  /** A page-aligned frame combined with 12-bit flags keeps its frame under PTE_ADDR. */
  lemma PteAddrOfEntry(pa: u32, perms: int)
    requires pa % PGSIZE == 0 && 0 <= perms < PGSIZE
    ensures pa + perms < U32_LIMIT
    ensures PteAddr(pa + perms) == pa
    ensures (pa + perms) % PGSIZE == perms
    ensures (pa + perms) % 2 == perms % 2
  {
    Arith.DivModUnique(pa + perms, 2, pa / 2 + perms / 2, perms % 2);
  }

  /** ROUNDUP: `value` if it is a multiple, else the next multiple (uint32 wrap-around). */
  function RoundUp(value: u32, multiple: u32): u32
    requires multiple > 0
  {
    if value % multiple == 0 then value
    else Wrap32(value + (multiple - value % multiple))
  }

  /** ROUNDDOWN: `value` less its remainder. */
  function RoundDown(value: u32, multiple: u32): (r: u32)
    requires multiple > 0
    ensures r % multiple == 0
    ensures r <= value && value - r < multiple
  {
    Arith.LessRemainder(value, multiple);
    if value % multiple == 0 then value else value - value % multiple
  }

  /** Without uint32 overflow, ROUNDUP is the least multiple of `m` not below `v`. */
  lemma RoundUpProperties(v: u32, m: u32)
    requires m > 0 && v + m <= U32_LIMIT
    ensures RoundUp(v, m) % m == 0
    ensures v <= RoundUp(v, m) < v + m
    ensures RoundUp(v, m) == v <==> v % m == 0
  {
    if v % m != 0 {
      var r := v + (m - v % m);
      assert r == (v / m + 1) * m;
      Arith.MultipleMod(v / m + 1, m);
    }
  }

  lemma RoundDownLeRoundUp(v: u32, m: u32)
    requires m > 0 && v + m <= U32_LIMIT
    ensures RoundDown(v, m) <= v <= RoundUp(v, m)
  {
    RoundUpProperties(v, m);
  }

  /** ROUNDDOWN is idempotent. */
  lemma RoundDownIdempotent(v: u32, m: u32)
    requires m > 0
    ensures RoundDown(RoundDown(v, m), m) == RoundDown(v, m)
  {
  }

  /** Without uint32 overflow, ROUNDUP is idempotent. */
  lemma RoundUpIdempotent(v: u32, m: u32)
    requires m > 0 && v + m <= U32_LIMIT
    ensures RoundUp(RoundUp(v, m), m) == RoundUp(v, m)
  {
    RoundUpProperties(v, m);
  }

  /** The k-th page after an aligned address, wrapped to 32 bits, is still aligned. */
  lemma WrapAligned(a: u32, k: nat)
    requires a % PGSIZE == 0
    ensures Wrap32(a + k * PGSIZE) % PGSIZE == 0 && Wrap32(a + k * PGSIZE) <= U32_LIMIT - PGSIZE
  {
    var x := a + k * PGSIZE;
    var q := x / U32_LIMIT;
    var w := Wrap32(x);
    assert x == q * U32_LIMIT + w;
    var qa := a / PGSIZE;
    assert a == qa * PGSIZE;
    assert w == (qa + k - q * 0x10_0000) * PGSIZE;
    Arith.MultipleMod(qa + k - q * 0x10_0000, PGSIZE);
  }

  /** pageindex2pa: a frame number shifted into an address. */
  function PageIndexToPa(index: nat): (pa: u32)
    requires index < 0x10_0000
    ensures pa % PGSIZE == 0
  {
    index * 0x1000
  }

  /** pa2pageindex: the number of the frame containing `pa`. */
  function PaToPageIndex(pa: u32): (index: nat)
    ensures index < 0x10_0000
  {
    RoundDown(pa, 0x1000) / 0x1000
  }

  lemma PageIndexRoundTrip(index: nat)
    requires index < 0x10_0000
    ensures PaToPageIndex(PageIndexToPa(index)) == index
  {
  }

  lemma PaRoundTrip(pa: u32)
    ensures PageIndexToPa(PaToPageIndex(pa)) == RoundDown(pa, 0x1000)
  {
  }
}
