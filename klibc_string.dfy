/**
 * The kernel's C string routines. A C string is a byte sequence read up to
 * its first NUL; `char` is signed on i386, so comparisons look at the bytes
 * as signed values.
 */
module KString {
  import opened Common

  /** The characters of the C string stored in `s`: everything before the first NUL. */
  function CString(s: seq<u8>): (r: seq<u8>)
    ensures |r| <= |s| && r == s[..|r|]
    ensures forall i :: 0 <= i < |r| ==> r[i] != 0
    ensures |r| < |s| ==> s[|r|] == 0
  {
    if |s| == 0 || s[0] == 0 then [] else [s[0]] + CString(s[1..])
  }

  /** `s` holds a NUL, so reading it as a C string stays inside it. */
  predicate Terminated(s: seq<u8>)
  {
    0 in s
  }

  /** A terminated string's characters end just before a NUL inside it. */
  lemma TerminatedEnds(s: seq<u8>)
    requires Terminated(s)
    ensures |CString(s)| < |s|
  {
  }

  /** strlen: the number of characters before the NUL. */
  method StrLen(s: seq<u8>) returns (len: nat)
    requires Terminated(s)
    ensures len == |CString(s)| && len < |s| && s[len] == 0
  {
    TerminatedEnds(s);
    len := 0;
    while s[len] != 0
      invariant len <= |CString(s)|
      invariant forall i :: 0 <= i < len ==> s[i] != 0
      decreases |CString(s)| - len
    {
      len := len + 1;
    }
  }

  /** The result strcmp gives once its loop stops with `x` under `a` and `y` under `b`. */
  function Verdict(x: u8, y: u8): int
  {
    if x == 0 && y == 0 then 0
    else if SignedChar(x) - SignedChar(y) < 0 then -1
    else 1
  }

  /**
   * klibc's strcmp as written: `while (*a && *b && *a++ == *b++)` steps
   * both pointers past the comparison even when it fails, so the verdict
   * is taken at the characters after the first difference.
   */
  function StrCmpWritten(a: seq<u8>, b: seq<u8>): int
    requires Terminated(a) && Terminated(b)
  {
    if a[0] == 0 || b[0] == 0 then Verdict(a[0], b[0])
    else if a[0] == b[0] then StrCmpWritten(a[1..], b[1..])
    else Verdict(a[1], b[1])
  }

  /** The loop of klibc's strcmp over both strings, as written. */
  method StrCmpAsWritten(a: seq<u8>, b: seq<u8>) returns (r: int)
    requires Terminated(a) && Terminated(b)
    ensures r == StrCmpWritten(a, b)
  {
    var i := 0;
    while a[i] != 0 && b[i] != 0 && a[i] == b[i]
      invariant i < |a| && i < |b| && Terminated(a[i..]) && Terminated(b[i..])
      invariant StrCmpWritten(a[i..], b[i..]) == StrCmpWritten(a, b)
      decreases |a| - i
    {
      assert a[i..][1..] == a[i + 1..] && b[i..][1..] == b[i + 1..];
      i := i + 1;
    }
    if a[i] != 0 && b[i] != 0 {
      assert a[i..][1] == a[i + 1] && b[i..][1] == b[i + 1];
      i := i + 1;
    }
    r := Verdict(a[i], b[i]);
  }

  /**
   * Two different one-letter strings compare equal under the strcmp as
   * written: after the failed comparison both pointers sit on the NULs.
   */
  lemma LastCharMissed()
    ensures StrCmpWritten([0x61, 0], [0x62, 0]) == 0
    ensures CString([0x61, 0]) != CString([0x62, 0])
  {
    assert [0x61 as u8, 0][1..] == [0];
    assert CString([0x61, 0]) == [0x61];
  }

  /** Two C strings that are equal, or of the same nonzero length and equal up to their last character. */
  predicate NearlyEqual(x: seq<u8>, y: seq<u8>)
  {
    x == y || (|x| == |y| > 0 && x[..|x| - 1] == y[..|y| - 1])
  }

  /** A common first character neither makes nor breaks near equality. */
  lemma NearlyEqualCons(c: u8, x: seq<u8>, y: seq<u8>)
    ensures NearlyEqual([c] + x, [c] + y) <==> NearlyEqual(x, y)
  {
    if NearlyEqual([c] + x, [c] + y) && x != y {
      assert |x| > 0;
      assert x[..|x| - 1] == ([c] + x)[..|x|][1..];
      assert y[..|y| - 1] == ([c] + y)[..|y|][1..];
    }
    if NearlyEqual(x, y) && x != y {
      assert ([c] + x)[..|x|] == [c] + x[..|x| - 1];
      assert ([c] + y)[..|y|] == [c] + y[..|y| - 1];
    }
  }

  /**
   * Exactly when the strcmp as written reports equality: for equal
   * strings, and for strings of the same length that differ only in their
   * last character.
   */
  lemma {:induction false} StrCmpWrittenZeroIff(a: seq<u8>, b: seq<u8>)
    requires Terminated(a) && Terminated(b)
    ensures StrCmpWritten(a, b) == 0 <==> NearlyEqual(CString(a), CString(b))
  {
    if a[0] == 0 || b[0] == 0 {
      if a[0] != 0 {
        assert CString(a)[0] == a[0];
      }
      if b[0] != 0 {
        assert CString(b)[0] == b[0];
      }
    } else if a[0] == b[0] {
      StrCmpWrittenZeroIff(a[1..], b[1..]);
      assert CString(a) == [a[0]] + CString(a[1..]);
      assert CString(b) == [b[0]] + CString(b[1..]);
      NearlyEqualCons(a[0], CString(a[1..]), CString(b[1..]));
    } else {
      assert CString(a) == [a[0]] + CString(a[1..]);
      assert CString(b) == [b[0]] + CString(b[1..]);
      assert CString(a)[0] != CString(b)[0];
      if a[1] == 0 && b[1] == 0 {
        assert CString(a[1..]) == [] && CString(b[1..]) == [];
      }
    }
  }

  /**
   * strcmp as intended: walk while the characters agree and are not NUL,
   * then give the sign of the difference of the characters reached.
   */
  function StrCmp(a: seq<u8>, b: seq<u8>): (r: int)
    requires Terminated(a) && Terminated(b)
    ensures r in {-1, 0, 1}
  {
    if a[0] == 0 || a[0] != b[0] then Verdict(a[0], b[0])
    else StrCmp(a[1..], b[1..])
  }

  /** The intended strcmp gives 0 exactly for equal strings. */
  lemma {:induction false} StrCmpZeroIffEqual(a: seq<u8>, b: seq<u8>)
    requires Terminated(a) && Terminated(b)
    ensures StrCmp(a, b) == 0 <==> CString(a) == CString(b)
  {
    if a[0] == 0 {
      assert CString(a) == [];
    } else if a[0] != b[0] {
      assert CString(a)[0] == a[0];
      if b[0] != 0 {
        assert CString(b)[0] == b[0];
      }
    } else {
      var x, y := CString(a[1..]), CString(b[1..]);
      StrCmpZeroIffEqual(a[1..], b[1..]);
      assert CString(a) == [a[0]] + x && ([a[0]] + x)[1..] == x;
      assert CString(b) == [b[0]] + y && ([b[0]] + y)[1..] == y;
    }
  }

  /** Swapping the operands of the intended strcmp flips its sign. */
  lemma {:induction false} StrCmpAntisymmetric(a: seq<u8>, b: seq<u8>)
    requires Terminated(a) && Terminated(b)
    ensures StrCmp(a, b) == -StrCmp(b, a)
  {
    if a[0] == 0 || a[0] != b[0] {
    } else {
      StrCmpAntisymmetric(a[1..], b[1..]);
    }
  }

  /**
   * strcpy: the characters of `source` and its NUL are copied to the front
   * of `destination`, which must have room for them; the rest is untouched.
   */
  method StrCpy(destination: array<u8>, source: seq<u8>)
    requires Terminated(source) && |CString(source)| < destination.Length
    modifies destination
    ensures destination[..|CString(source)| + 1] == CString(source) + [0]
    ensures forall k :: |CString(source)| < k < destination.Length ==> destination[k] == old(destination[k])
    ensures CString(destination[..]) == CString(source)
  {
    TerminatedEnds(source);
    var n := |CString(source)|;
    var i := 0;
    while source[i] != 0
      invariant i <= n
      invariant forall k :: 0 <= k < i ==> destination[k] == source[k]
      invariant forall k :: i <= k < destination.Length ==> destination[k] == old(destination[k])
      decreases n - i
    {
      destination[i] := source[i];
      i := i + 1;
    }
    destination[i] := 0;
    assert destination[..n + 1] == CString(source) + [0];
    PrefixString(destination[..], n);
  }

  /** A sequence whose first `n` bytes are not NUL and whose byte `n` is, holds a C string of length `n`. */
  lemma {:induction false} PrefixString(s: seq<u8>, n: nat)
    requires n < |s| && s[n] == 0 && forall k :: 0 <= k < n ==> s[k] != 0
    ensures CString(s) == s[..n]
    decreases n
  {
    if n > 0 {
      PrefixString(s[1..], n - 1);
      assert s[..n] == [s[0]] + s[1..][..n - 1];
    }
  }
}
