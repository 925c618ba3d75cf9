/**
 * Machine vocabulary shared by the kernel model: the C integer widths the
 * kernel uses, the wrap-around of unsigned 32-bit arithmetic, and an
 * optional value standing for a pointer that may be NULL.
 */
module Common {

  type u8 = x: int | 0 <= x < 0x100
  type u16 = x: int | 0 <= x < 0x1_0000
  type u32 = x: int | 0 <= x < 0x1_0000_0000
  type i32 = x: int | -0x8000_0000 <= x < 0x8000_0000

  const U32_LIMIT: int := 0x1_0000_0000

  /** A pointer that may be NULL, or a C result that may be absent. */
  datatype Option<T> = None | Some(value: T)

  /** Unsigned 32-bit wrap-around of a mathematical result. */
  function Wrap32(x: int): u32
  {
    if 0 <= x < 0x1_0000_0000 then x else x % 0x1_0000_0000
  }

  /** Reinterpretation of a 32-bit pattern as a two's-complement `int`. */
  function ToI32(x: u32): i32
  {
    if x < 0x8000_0000 then x else x - 0x1_0000_0000
  }

  /** Reinterpretation of an 8-bit pattern as a signed `char`. */
  function SignedChar(b: u8): int
  {
    if b < 0x80 then b else b - 0x100
  }

  /** The 16-bit little-endian value stored at `s[off]`, `s[off + 1]`. */
  function LE16(s: seq<u8>, off: nat): u16
    requires off + 2 <= |s|
  {
    s[off] as int + 0x100 * (s[off + 1] as int)
  }

  /** The 32-bit little-endian value stored at `s[off..off + 4]`. */
  function LE32(s: seq<u8>, off: nat): u32
    requires off + 4 <= |s|
  {
    s[off] as int + 0x100 * (s[off + 1] as int) + 0x1_0000 * (s[off + 2] as int) + 0x100_0000 * (s[off + 3] as int)
  }

  /** C's `/` on signed operands: the quotient is truncated toward zero. */
  function CDiv(a: int, b: int): int
    requires b > 0
  {
    if a >= 0 then a / b else -((-a) / b)
  }

  function Min(a: int, b: int): int { if a < b then a else b }
  function Max(a: int, b: int): int { if a > b then a else b }
}

/** Facts about Euclidean division that the solver does not find unaided. */
module Arith {

  lemma MulAtLeast(d: int, m: int)
    requires d >= 1 && m > 0
    ensures d * m >= m
  {
    assert d * m == (d - 1) * m + m;
  }

  /** Quotient and remainder are determined by `a == q * m + r` with `0 <= r < m`. */
  lemma DivModUnique(a: int, m: int, q: int, r: int)
    requires m > 0 && 0 <= r < m && a == q * m + r
    ensures a / m == q && a % m == r
  {
    var q', r' := a / m, a % m;
    assert a == q' * m + r';
    if q' > q {
      MulAtLeast(q' - q, m);
    } else if q' < q {
      MulAtLeast(q - q', m);
    }
  }

  lemma MultipleMod(q: int, m: int)
    requires m > 0
    ensures (q * m) % m == 0 && (q * m) / m == q
  {
    DivModUnique(q * m, m, q, 0);
  }

  /** Taking away the remainder leaves a multiple. */
  lemma LessRemainder(a: int, m: int)
    requires m > 0
    ensures (a - a % m) % m == 0
  {
    var q := a / m;
    assert a - a % m == q * m;
    MultipleMod(q, m);
  }
}
