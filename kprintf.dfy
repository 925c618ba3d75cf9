/**
 * The kernel's formatted printing into a buffer: numbers are spelled digit
 * by digit through a ten-slot digit array, strings are copied up to their
 * NUL, and kvprintf walks the format expanding `%` specifiers into a
 * buffer that it NUL-terminates.
 */
module KPrintf {
  import opened Common
  import opened KString
  import opened Arith

  /** The slots of the local `digits` array. */
  const DIGIT_SLOTS: nat := 10
  /** The size of the static buffer kprintf formats into. */
  const BUFFER_SIZE: nat := 4096
  const INT_MIN: int := -0x8000_0000

  const ZERO: u8 := 0x30     // '0'
  const LOWER_A: u8 := 0x61  // 'a'
  const MINUS: u8 := 0x2D    // '-'
  const PERCENT: u8 := 0x25  // '%'

  const SPEC_D: u8 := 0x64        // 'd'
  const SPEC_U: u8 := 0x75        // 'u'
  const SPEC_X: u8 := 0x78        // 'x'
  const SPEC_UPPER_X: u8 := 0x58  // 'X'
  const SPEC_P: u8 := 0x70        // 'p'
  const SPEC_B: u8 := 0x62        // 'b'
  const SPEC_S: u8 := 0x73        // 's'
  const SPEC_C: u8 := 0x63        // 'c'

  /** "[ksprintf: unknown specifier]" */
  const UNKNOWN_TEXT: seq<u8> := [
    0x5B, 0x6B, 0x73, 0x70, 0x72, 0x69, 0x6E, 0x74, 0x66, 0x3A, 0x20, 0x75, 0x6E, 0x6B, 0x6E,
    0x6F, 0x77, 0x6E, 0x20, 0x73, 0x70, 0x65, 0x63, 0x69, 0x66, 0x69, 0x65, 0x72, 0x5D]

  function Pow(b: nat, k: nat): nat
  {
    if k == 0 then 1 else b * Pow(b, k - 1)
  }

  /** The character for a digit value: '0'..'9', then lowercase 'a'..'f'. */
  function DigitChar(v: int): u8
    requires 0 <= v < 16
  {
    if v < 10 then ZERO + v else LOWER_A + (v - 10)
  }

  /** The value of a digit character of a numeral, if it is one. */
  function CharValue(c: u8): Option<nat>
  {
    if ZERO <= c < ZERO + 10 then Some(c - ZERO)
    else if LOWER_A <= c < LOWER_A + 6 then Some(c - LOWER_A + 10)
    else None
  }

  /** The digit values of `n` in `base`, most significant first; 0 has the single digit 0. */
  function DigitValues(n: nat, base: nat): (ds: seq<int>)
    requires 2 <= base
    ensures 1 <= |ds| && forall k :: 0 <= k < |ds| ==> 0 <= ds[k] < base
    decreases n
  {
    if n < base then [n] else DigitValues(n / base, base) + [n % base]
  }

  /** The characters of a sequence of digit values. */
  function Spell(ds: seq<int>): (s: seq<u8>)
    requires forall k :: 0 <= k < |ds| ==> 0 <= ds[k] < 16
    ensures |s| == |ds|
  {
    seq(|ds|, k requires 0 <= k < |ds| => DigitChar(ds[k]))
  }

  /** `n` written in `base` the way append_unsigned_int writes it. */
  function Numeral(n: nat, base: nat): seq<u8>
    requires 2 <= base <= 16
  {
    Spell(DigitValues(n, base))
  }

  /** `v` written the way append_signed_int writes it: a '-' in base 10 only. */
  function SignedNumeral(v: int, base: nat): seq<u8>
    requires 2 <= base <= 16 && (v >= 0 || base == 10)
  {
    if v < 0 then [MINUS] + Numeral(-v, 10) else Numeral(v, base)
  }

  /** Reads a numeral in `base` back; the empty numeral reads as 0. */
  function ReadNumeral(s: seq<u8>, base: nat): Option<nat>
    requires 2 <= base
  {
    if |s| == 0 then Some(0)
    else
      var high := ReadNumeral(s[..|s| - 1], base);
      var d := CharValue(s[|s| - 1]);
      if high.Some? && d.Some? && d.value < base then Some(high.value * base + d.value) else None
  }

  lemma SpellAppend(a: seq<int>, b: seq<int>)
    requires forall k :: 0 <= k < |a| ==> 0 <= a[k] < 16
    requires forall k :: 0 <= k < |b| ==> 0 <= b[k] < 16
    ensures Spell(a + b) == Spell(a) + Spell(b)
  {
    assert forall k :: 0 <= k < |a + b| ==> Spell(a + b)[k] == (Spell(a) + Spell(b))[k];
  }

  /** Euclid's division of `n` by a base it reaches. */
  lemma DivStep(n: nat, base: nat)
    requires 2 <= base <= n
    ensures 0 < n / base < n && 0 <= n % base < base && n == (n / base) * base + n % base
  {
    MulAtLeast(n / base, 2);
  }

  /** A numeral of two or more digits is the numeral of `n / base` followed by the last digit. */
  lemma NumeralStep(n: nat, base: nat)
    requires 2 <= base <= 16 && n >= base
    ensures Numeral(n, base) == Numeral(n / base, base) + [DigitChar(n % base)]
  {
    SpellAppend(DigitValues(n / base, base), [n % base]);
  }

  /** Reading a printed number gives the number back. */
  lemma {:induction false} NumeralRoundTrip(n: nat, base: nat)
    requires 2 <= base <= 16
    ensures ReadNumeral(Numeral(n, base), base) == Some(n)
    decreases n
  {
    var s := Numeral(n, base);
    if n < base {
      assert s == [DigitChar(n)];
      assert s[..0] == [];
    } else {
      var q, r := n / base, n % base;
      DivStep(n, base);
      NumeralStep(n, base);
      assert s[..|s| - 1] == Numeral(q, base);
      NumeralRoundTrip(q, base);
    }
  }

  /** A numeral starts with '0' only when it is the numeral of 0, which is "0". */
  lemma {:induction false} NumeralLeadingDigit(n: nat, base: nat)
    requires 2 <= base <= 16
    ensures Numeral(n, base)[0] == ZERO <==> n == 0
    ensures n == 0 ==> Numeral(n, base) == [ZERO]
    decreases n
  {
    if n >= base {
      var q := n / base;
      DivStep(n, base);
      NumeralStep(n, base);
      NumeralLeadingDigit(q, base);
    }
  }

  lemma DivBelow(n: nat, b: nat, m: nat)
    requires b > 0
    ensures n / b < m <==> n < b * m
  {
    var q, r := n / b, n % b;
    assert n == q * b + r;
    if q < m {
      MulAtLeast(m - q, b);
      assert (m - q) * b == b * m - q * b;
    } else {
      assert (q - m) * b >= 0;
      assert (q - m) * b == q * b - b * m;
    }
  }

  lemma PowAtLeastBase(b: nat, k: nat)
    requires b >= 1 && k >= 1
    ensures Pow(b, k) >= b
    decreases k
  {
    if k > 1 {
      PowAtLeastBase(b, k - 1);
      MulAtLeast(Pow(b, k - 1), b);
    }
  }

  /** The numeral of `n` has at most `k` digits exactly when `n < base^k`. */
  lemma {:induction false} NumeralLength(n: nat, base: nat, k: nat)
    requires 2 <= base <= 16 && k >= 1
    ensures |Numeral(n, base)| <= k <==> n < Pow(base, k)
    decreases n
  {
    PowAtLeastBase(base, k);
    if n >= base {
      var q := n / base;
      DivStep(n, base);
      NumeralStep(n, base);
      if k > 1 {
        NumeralLength(q, base, k - 1);
        DivBelow(n, base, Pow(base, k - 1));
      }
    }
  }

  /**
   * The ten digit slots suffice for every unsigned 32-bit value in base 10
   * and 16, and in base 2 exactly for the values below 1024.
   */
  lemma DigitSlots(n: u32)
    ensures |Numeral(n, 10)| <= DIGIT_SLOTS && |Numeral(n, 16)| <= DIGIT_SLOTS
    ensures |Numeral(n, 2)| <= DIGIT_SLOTS <==> n < 1024
  {
    assert Pow(10, 10) == 10000000000;
    assert Pow(16, 10) == 0x100_0000_0000;
    assert Pow(2, 10) == 1024;
    NumeralLength(n, 10, 10);
    NumeralLength(n, 16, 10);
    NumeralLength(n, 2, 10);
  }

  /** A signed numeral starts with '-' exactly for negative values, and the rest reads as the magnitude. */
  lemma SignedNumeralReads(v: int)
    ensures SignedNumeral(v, 10)[0] == MINUS <==> v < 0
    ensures ReadNumeral(if v < 0 then SignedNumeral(v, 10)[1..] else SignedNumeral(v, 10), 10) == Some(if v < 0 then -v else v)
  {
    var m := if v < 0 then -v else v;
    NumeralRoundTrip(m, 10);
    if v >= 0 {
      assert Numeral(v, 10)[0] == DigitChar(DigitValues(v, 10)[0]);
    } else {
      assert SignedNumeral(v, 10)[1..] == Numeral(m, 10);
    }
  }

  /**
   * The do-while of append_unsigned_int and append_signed_int: the digits
   * of `data` are stored from slot 9 downwards; `start` is the first slot
   * used.
   */
  method CollectDigits(data: nat, base: nat) returns (digits: array<int>, start: nat)
    requires 2 <= base <= 16 && |Numeral(data, base)| <= DIGIT_SLOTS
    ensures fresh(digits) && digits.Length == DIGIT_SLOTS && start <= DIGIT_SLOTS
    ensures digits[start..] == DigitValues(data, base)
    ensures forall k :: start <= k < DIGIT_SLOTS ==> 0 <= digits[k] < base
    ensures Spell(digits[start..]) == Numeral(data, base)
  {
    digits := new int[DIGIT_SLOTS];
    var i: int := 9;
    var d: nat := data;
    while true
      invariant -1 <= i <= 9
      invariant DigitValues(d, base) + digits[i + 1..] == DigitValues(data, base)
      decreases d
    {
      ghost var before := digits[i + 1..];
      assert i >= 0 by {
        assert |DigitValues(d, base)| + |before| <= DIGIT_SLOTS;
      }
      digits[i] := d % base;
      assert digits[i..] == [d % base] + before;
      i := i - 1;
      if d < base {
        DivModUnique(d, base, 0, d);
        assert DigitValues(d, base) == [d % base];
        break;
      }
      DivStep(d, base);
      assert DigitValues(d, base) == DigitValues(d / base, base) + [d % base];
      d := d / base;
    }
    start := i + 1;
    assert forall k :: start <= k < DIGIT_SLOTS ==> digits[k] == DigitValues(data, base)[k - start];
  }

  /** The output loop of the append functions: the characters of `digits[start..]`. */
  method WriteDigits(dest: array<u8>, at: nat, digits: array<int>, start: nat) returns (characters: nat)
    requires start <= digits.Length
    requires forall k :: start <= k < digits.Length ==> 0 <= digits[k] < 16
    requires at + digits.Length - start <= dest.Length
    modifies dest
    ensures characters == digits.Length - start
    ensures dest[..at + characters] == old(dest[..at]) + Spell(digits[start..])
    ensures forall k :: at + characters <= k < dest.Length ==> dest[k] == old(dest[k])
  {
    characters := 0;
    var i := start;
    while i < digits.Length
      invariant start <= i <= digits.Length && characters == i - start
      invariant dest[..at + characters] == old(dest[..at]) + Spell(digits[start..i])
      invariant forall k :: at + characters <= k < dest.Length ==> dest[k] == old(dest[k])
    {
      ghost var written := dest[..at + characters];
      dest[at + characters] := DigitChar(digits[i]);
      assert dest[..at + characters + 1] == written + [DigitChar(digits[i])];
      assert digits[start..i + 1] == digits[start..i] + [digits[i]];
      SpellAppend(digits[start..i], [digits[i]]);
      characters := characters + 1;
      i := i + 1;
    }
    assert digits[start..i] == digits[start..];
  }

  /**
   * append_unsigned_int: writes the numeral of `data` in `base` at `at`
   * and returns its length. The ten digit slots must hold the numeral.
   */
  method AppendUnsignedInt(dest: array<u8>, at: nat, data: u32, base: nat) returns (characters: nat)
    requires 2 <= base <= 16 && |Numeral(data, base)| <= DIGIT_SLOTS
    requires at + |Numeral(data, base)| <= dest.Length
    modifies dest
    ensures characters == |Numeral(data, base)|
    ensures dest[..at + characters] == old(dest[..at]) + Numeral(data, base)
    ensures forall k :: at + characters <= k < dest.Length ==> dest[k] == old(dest[k])
  {
    var digits, start := CollectDigits(data, base);
    characters := WriteDigits(dest, at, digits, start);
  }

  /**
   * append_signed_int: in base 10 a negative value is written as '-' and
   * its magnitude. Negating INT_MIN overflows, so it is excluded, and so
   * are negative values in other bases, which no caller passes.
   */
  method AppendSignedInt(dest: array<u8>, at: nat, data: i32, base: nat) returns (characters: nat)
    requires 2 <= base <= 16 && (data >= 0 || (base == 10 && data != INT_MIN))
    requires |Numeral(if data < 0 then -data else data, base)| <= DIGIT_SLOTS
    requires at + |SignedNumeral(data, base)| <= dest.Length
    modifies dest
    ensures characters == |SignedNumeral(data, base)|
    ensures dest[..at + characters] == old(dest[..at]) + SignedNumeral(data, base)
    ensures forall k :: at + characters <= k < dest.Length ==> dest[k] == old(dest[k])
  {
    var isNegative := false;
    var d: int := data;
    if data < 0 && base == 10 {
      isNegative := true;
      d := -data;
    }
    var digits, start := CollectDigits(d, base);
    if isNegative && base == 10 {
      characters := WriteNegative(dest, at, digits, start);
    } else {
      characters := WriteDigits(dest, at, digits, start);
    }
  }

  /** The '-' and the digits of a negative value. */
  method WriteNegative(dest: array<u8>, at: nat, digits: array<int>, start: nat) returns (characters: nat)
    requires start <= digits.Length
    requires forall k :: start <= k < digits.Length ==> 0 <= digits[k] < 16
    requires at + 1 + digits.Length - start <= dest.Length
    modifies dest
    ensures characters == 1 + digits.Length - start
    ensures dest[..at + characters] == old(dest[..at]) + ([MINUS] + Spell(digits[start..]))
    ensures forall k :: at + characters <= k < dest.Length ==> dest[k] == old(dest[k])
  {
    dest[at] := MINUS;
    assert dest[..at + 1] == old(dest[..at]) + [MINUS];
    var written := WriteDigits(dest, at + 1, digits, start);
    characters := 1 + written;
  }

  /** append_string: copies the characters of the C string `str` before its NUL and returns how many. */
  method AppendString(dest: array<u8>, at: nat, str: seq<u8>) returns (copied: nat)
    requires Terminated(str) && at + |CString(str)| <= dest.Length
    modifies dest
    ensures copied == |CString(str)|
    ensures dest[..at + copied] == old(dest[..at]) + CString(str)
    ensures forall k :: at + copied <= k < dest.Length ==> dest[k] == old(dest[k])
  {
    TerminatedEnds(str);
    copied := 0;
    while str[copied] != 0
      invariant copied <= |CString(str)|
      invariant dest[..at + copied] == old(dest[..at]) + str[..copied]
      invariant forall k :: at + copied <= k < dest.Length ==> dest[k] == old(dest[k])
      decreases |str| - copied
    {
      dest[at + copied] := str[copied];
      assert str[..copied + 1] == str[..copied] + [str[copied]];
      copied := copied + 1;
    }
  }

  /** A variadic argument: an `int` or a `char *` to a C string. */
  datatype Arg = IntArg(i: i32) | StrArg(s: seq<u8>)

  /** kvprintf's progress: the text written, whether a '%' is pending, and the next argument. */
  datatype Scan = Scan(out: seq<u8>, inFormat: bool, next: nat)

  /** The specifiers that take an argument. */
  predicate TakesArgument(c: u8)
  {
    c == SPEC_D || c == SPEC_U || c == SPEC_X || c == SPEC_UPPER_X || c == SPEC_P
    || c == SPEC_B || c == SPEC_S || c == SPEC_C
  }

  /**
   * The text a specifier makes of its argument; None where C leaves the
   * behaviour undefined: an argument of the wrong kind, negating INT_MIN,
   * or a binary numeral that overruns the ten digit slots.
   */
  function Conversion(c: u8, a: Arg): Option<seq<u8>>
    requires TakesArgument(c)
  {
    if c == SPEC_S then
      if a.StrArg? && Terminated(a.s) then Some(CString(a.s)) else None
    else if !a.IntArg? then None
    else if c == SPEC_D then
      if a.i == INT_MIN then None else Some(SignedNumeral(a.i, 10))
    else if c == SPEC_U then Some(Numeral(Wrap32(a.i), 10))
    else if c == SPEC_X || c == SPEC_UPPER_X then Some(Numeral(Wrap32(a.i), 16))
    else if c == SPEC_P then Some([ZERO, SPEC_X] + Numeral(Wrap32(a.i), 16))
    else if c == SPEC_B then
      if |Numeral(Wrap32(a.i), 2)| <= DIGIT_SLOTS then Some(Numeral(Wrap32(a.i), 2)) else None
    else Some([a.i % 0x100])
  }

  /** What one format character does to kvprintf's progress. */
  function Step(st: Scan, c: u8, args: seq<Arg>): Option<Scan>
  {
    if !st.inFormat then
      if c == PERCENT then Some(Scan(st.out, true, st.next)) else Some(Scan(st.out + [c], false, st.next))
    else if c == PERCENT then Some(Scan(st.out + [PERCENT], false, st.next))
    else if !TakesArgument(c) then Some(Scan(st.out + UNKNOWN_TEXT, false, st.next))
    else if st.next >= |args| then None
    else
      var text := Conversion(c, args[st.next]);
      if text.None? then None else Some(Scan(st.out + text.value, false, st.next + 1))
  }

  /** kvprintf's progress after the first `n` characters of the format. */
  function Run(format: seq<u8>, n: nat, args: seq<Arg>): Option<Scan>
    requires n <= |format|
  {
    if n == 0 then Some(Scan([], false, 0))
    else
      var before := Run(format, n - 1, args);
      if before.None? then None else Step(before.value, format[n - 1], args)
  }

  /** The text kvprintf writes before its NUL, or None when the call is undefined. */
  function Formatted(format: seq<u8>, args: seq<Arg>): Option<seq<u8>>
    requires Terminated(format)
  {
    var r := Run(format, |CString(format)|, args);
    if r.None? then None else Some(r.value.out)
  }

  /** A defined run is defined at every earlier point, and its text only grows. */
  lemma {:induction false} RunGrows(format: seq<u8>, i: nat, n: nat, args: seq<Arg>)
    requires i <= n <= |format| && Run(format, n, args).Some?
    ensures Run(format, i, args).Some? && |Run(format, i, args).value.out| <= |Run(format, n, args).value.out|
    decreases n - i
  {
    if i < n {
      RunGrows(format, i, n - 1, args);
    }
  }

  /** The run depends only on the characters it has read. */
  lemma {:induction false} RunPrefix(a: seq<u8>, b: seq<u8>, n: nat, args: seq<Arg>)
    requires n <= |a| && n <= |b| && a[..n] == b[..n]
    ensures Run(a, n, args) == Run(b, n, args)
  {
    if n > 0 {
      assert a[..n - 1] == a[..n][..n - 1] && b[..n - 1] == b[..n][..n - 1];
      assert a[n - 1] == a[..n][n - 1] && b[n - 1] == b[..n][n - 1];
      RunPrefix(a, b, n - 1, args);
    }
  }

  /** One format character of kvprintf's loop. */
  method FormatCharacter(str: array<u8>, pos: nat, c: u8, inFormat: bool, next: nat, args: seq<Arg>)
    returns (pos': nat, inFormat': bool, next': nat)
    requires pos <= str.Length
    requires Step(Scan(str[..pos], inFormat, next), c, args).Some?
    requires |Step(Scan(str[..pos], inFormat, next), c, args).value.out| <= str.Length
    modifies str
    ensures pos' <= str.Length
    ensures Step(Scan(old(str[..pos]), inFormat, next), c, args) == Some(Scan(str[..pos'], inFormat', next'))
    ensures forall k :: pos' <= k < str.Length ==> str[k] == old(str[k])
  {
    pos', inFormat', next' := pos, false, next;
    if !inFormat {
      if c == PERCENT {
        inFormat' := true;
      } else {
        str[pos] := c;
        pos' := pos + 1;
        assert str[..pos'] == old(str[..pos]) + [c];
      }
    } else if c == PERCENT {
      str[pos] := PERCENT;
      pos' := pos + 1;
      assert str[..pos'] == old(str[..pos]) + [PERCENT];
    } else if !TakesArgument(c) {
      assert CString(UNKNOWN_TEXT + [0]) == UNKNOWN_TEXT by {
        PrefixString(UNKNOWN_TEXT + [0], |UNKNOWN_TEXT|);
      }
      var copied := AppendString(str, pos, UNKNOWN_TEXT + [0]);
      pos' := pos + copied;
    } else {
      pos' := ConvertArgument(str, pos, c, args[next]);
      next' := next + 1;
    }
  }

  /** The `switch` arms of kvprintf that read an argument. */
  method ConvertArgument(str: array<u8>, pos: nat, c: u8, a: Arg) returns (pos': nat)
    requires TakesArgument(c) && Conversion(c, a).Some?
    requires pos + |Conversion(c, a).value| <= str.Length
    modifies str
    ensures pos' == pos + |Conversion(c, a).value|
    ensures str[..pos'] == old(str[..pos]) + Conversion(c, a).value
    ensures forall k :: pos' <= k < str.Length ==> str[k] == old(str[k])
  {
    if c == SPEC_S {
      var copied := AppendString(str, pos, a.s);
      pos' := pos + copied;
    } else if c == SPEC_D {
      DigitSlots(if a.i < 0 then -a.i else a.i);
      var written := AppendSignedInt(str, pos, a.i, 10);
      pos' := pos + written;
    } else if c == SPEC_U {
      DigitSlots(Wrap32(a.i));
      var written := AppendUnsignedInt(str, pos, Wrap32(a.i), 10);
      pos' := pos + written;
    } else if c == SPEC_X || c == SPEC_UPPER_X {
      DigitSlots(Wrap32(a.i));
      var written := AppendUnsignedInt(str, pos, Wrap32(a.i), 16);
      pos' := pos + written;
    } else if c == SPEC_P {
      pos' := AppendPointer(str, pos, Wrap32(a.i));
    } else if c == SPEC_B {
      var written := AppendUnsignedInt(str, pos, Wrap32(a.i), 2);
      pos' := pos + written;
    } else {
      str[pos] := a.i % 0x100;
      pos' := pos + 1;
      assert str[..pos'] == old(str[..pos]) + [a.i % 0x100];
    }
  }

  /** The '%p' arm: "0x" and the hexadecimal digits. */
  method AppendPointer(str: array<u8>, pos: nat, v: u32) returns (pos': nat)
    requires pos + 2 + |Numeral(v, 16)| <= str.Length
    modifies str
    ensures pos' == pos + 2 + |Numeral(v, 16)|
    ensures str[..pos'] == old(str[..pos]) + ([ZERO, SPEC_X] + Numeral(v, 16))
    ensures forall k :: pos' <= k < str.Length ==> str[k] == old(str[k])
  {
    DigitSlots(v);
    str[pos] := ZERO;
    str[pos + 1] := SPEC_X;
    assert str[..pos + 2] == old(str[..pos]) + [ZERO, SPEC_X];
    var written := AppendUnsignedInt(str, pos + 2, v, 16);
    pos' := pos + 2 + written;
  }

  /**
   * kvprintf(str, format, args): the expanded format followed by a NUL is
   * written at the front of `str`, and the count includes the NUL. The
   * caller must pass arguments of the kinds the specifiers read and a
   * buffer that holds the output.
   */
  method KvPrintf(str: array<u8>, format: seq<u8>, args: seq<Arg>) returns (written: nat)
    requires Terminated(format) && Formatted(format, args).Some?
    requires |Formatted(format, args).value| < str.Length
    modifies str
    ensures written == |Formatted(format, args).value| + 1
    ensures str[..written] == Formatted(format, args).value + [0]
    ensures forall k :: written <= k < str.Length ==> str[k] == old(str[k])
  {
    TerminatedEnds(format);
    var pos: nat := 0;
    var current: nat := 0;
    var inFormat := false;
    var next: nat := 0;
    while format[current] != 0
      invariant current <= |CString(format)|
      invariant pos <= str.Length
      invariant Run(format, current, args) == Some(Scan(str[..pos], inFormat, next))
      invariant forall k :: pos <= k < str.Length ==> str[k] == old(str[k])
      decreases |format| - current
    {
      RunGrows(format, current + 1, |CString(format)|, args);
      pos, inFormat, next := FormatCharacter(str, pos, format[current], inFormat, next, args);
      current := current + 1;
    }
    str[pos] := 0;
    written := pos + 1;
  }

  /** kprintf: formats into the static buffer and returns what kvprintf returned. */
  method KPrintf(buffer: array<u8>, format: seq<u8>, args: seq<Arg>) returns (printed: nat)
    requires buffer.Length == BUFFER_SIZE
    requires Terminated(format) && Formatted(format, args).Some?
    requires |Formatted(format, args).value| < BUFFER_SIZE
    modifies buffer
    ensures printed == |Formatted(format, args).value| + 1
    ensures buffer[..printed] == Formatted(format, args).value + [0]
    ensures 0 !in Formatted(format, args).value ==> CString(buffer[..]) == Formatted(format, args).value
  {
    printed := KvPrintf(buffer, format, args);
    ghost var out := Formatted(format, args).value;
    if 0 !in out {
      assert forall k :: 0 <= k < |out| ==> buffer[k] == buffer[..printed][k];
      PrefixString(buffer[..], |out|);
    }
  }

  /** A format without '%' is copied as it is, whatever the arguments. */
  lemma {:induction false} LiteralRun(format: seq<u8>, n: nat, args: seq<Arg>)
    requires n <= |format| && forall k :: 0 <= k < n ==> format[k] != PERCENT
    ensures Run(format, n, args) == Some(Scan(format[..n], false, 0))
  {
    if n > 0 {
      LiteralRun(format, n - 1, args);
      assert format[..n] == format[..n - 1] + [format[n - 1]];
    }
  }

  lemma LiteralFormat(format: seq<u8>, args: seq<Arg>)
    requires Terminated(format) && PERCENT !in CString(format)
    ensures Formatted(format, args) == Some(CString(format))
  {
    LiteralRun(format, |CString(format)|, args);
  }

  /** A '%' at the very end of the format, with no specifier after it, adds nothing. */
  lemma TrailingPercent(format: seq<u8>, args: seq<Arg>)
    requires Terminated(format) && Formatted(format, args).Some?
    requires !Run(format, |CString(format)|, args).value.inFormat
    ensures Terminated(CString(format) + [PERCENT, 0])
    ensures Formatted(CString(format) + [PERCENT, 0], args) == Formatted(format, args)
  {
    var s := CString(format);
    var n := |s|;
    var longer := s + [PERCENT, 0];
    assert longer[n + 1] == 0;
    assert CString(longer) == s + [PERCENT] by {
      PrefixString(longer, n + 1);
      assert longer[..n + 1] == s + [PERCENT];
    }
    assert longer[..n] == format[..n];
    RunPrefix(longer, format, n, args);
  }

  /** An unknown specifier is replaced by the fixed message and consumes no argument. */
  lemma UnknownSpecifier(c: u8)
    requires c != PERCENT && !TakesArgument(c) && c != 0
    ensures Formatted([PERCENT, c, 0], []) == Some(UNKNOWN_TEXT)
  {
    var f := [PERCENT, c, 0];
    PrefixString(f, 2);
    assert Run(f, 1, []) == Some(Scan([], true, 0));
    assert [] + UNKNOWN_TEXT == UNKNOWN_TEXT;
  }
}
