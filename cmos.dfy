/**
 * The real-time clock's registers can hold binary-coded decimal: two
 * decimal digits, one per nibble, so that 34 is stored as 0x34.
 */
module Cmos {
  import opened Common
  import Arith

  /**
   * from_bcd: ten times the high nibble plus the low nibble; the low
   * nibble is `bcd & 0xf`, which for a byte is its remainder modulo 16.
   */
  function FromBcd(bcd: u8): (r: u8)
    ensures r <= 165
  {
    (bcd / 16) * 10 + bcd % 16
  }

  /** A byte whose two nibbles are both decimal digits. */
  predicate ValidBcd(b: u8)
  {
    b / 16 <= 9 && b % 16 <= 9
  }

  /** The BCD byte of a number below 100: tens in the high nibble, units in the low one. */
  function ToBcd(n: nat): (b: u8)
    requires n <= 99
  {
    16 * (n / 10) + n % 10
  }

  /** Every number below 100 survives the trip through BCD. */
  lemma BcdRoundTrip(n: nat)
    requires n <= 99
    ensures ValidBcd(ToBcd(n)) && FromBcd(ToBcd(n)) == n
  {
    var b := ToBcd(n);
    Arith.DivModUnique(b, 16, n / 10, n % 10);
  }

  /** A valid BCD byte reads as a number below 100 whose BCD form is the byte itself. */
  lemma BcdDigits(b: u8)
    requires ValidBcd(b)
    ensures FromBcd(b) <= 99 && ToBcd(FromBcd(b)) == b
  {
    var n := FromBcd(b);
    Arith.DivModUnique(n, 10, b / 16, b % 16);
  }

  /** The clock's example: 0x34 reads as 34; and 0xFF, the largest byte, reads as 165. */
  lemma BcdExamples()
    ensures FromBcd(0x34) == 34 && FromBcd(0xFF) == 165
  {
  }
}
