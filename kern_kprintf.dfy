/**
 * kprintf of the `kern` tree: the format is walked character by character
 * and everything goes straight to the VGA terminal; numbers are printed by
 * terminal_writeint and the return value counts the specifiers handled.
 */
module KernKPrintf {
  import opened Common
  import opened KString
  import opened Tty
  import Fmt = KPrintf

  const PERCENT: u8 := 0x25

  /** "[kprintf: unknown specifier]" */
  const UNKNOWN_TEXT: seq<u8> := [
    0x5B, 0x6B, 0x70, 0x72, 0x69, 0x6E, 0x74, 0x66, 0x3A, 0x20, 0x75, 0x6E, 0x6B, 0x6E,
    0x6F, 0x77, 0x6E, 0x20, 0x73, 0x70, 0x65, 0x63, 0x69, 0x66, 0x69, 0x65, 0x72, 0x5D]

  /** kprintf's progress: what it has sent to the terminal, a pending '%', the next argument and the count. */
  datatype Progress = Progress(out: seq<u8>, inFormat: bool, next: nat, printed: nat)

  /** The specifiers of this kprintf that read an argument: d, x, X, b, s and c. */
  predicate TakesArgument(c: u8)
  {
    c == Fmt.SPEC_D || c == Fmt.SPEC_X || c == Fmt.SPEC_UPPER_X
    || c == Fmt.SPEC_B || c == Fmt.SPEC_S || c == Fmt.SPEC_C
  }

  /**
   * The characters a specifier sends to the terminal; None where C leaves
   * the behaviour undefined: an argument of the wrong kind, negating
   * INT_MIN, or a binary magnitude that overruns the ten digit slots.
   */
  function Conversion(c: u8, a: Fmt.Arg): Option<seq<u8>>
    requires TakesArgument(c)
  {
    if c == Fmt.SPEC_S then
      if a.StrArg? && Terminated(a.s) then Some(CString(a.s)) else None
    else if !a.IntArg? then None
    else if c == Fmt.SPEC_C then Some([a.i % 0x100])
    else if a.i == Fmt.INT_MIN then None
    else if c == Fmt.SPEC_D then Some(IntText(a.i, 10))
    else if c == Fmt.SPEC_B then
      if |Fmt.Numeral(if a.i < 0 then -a.i else a.i, 2)| <= Fmt.DIGIT_SLOTS then Some(IntText(a.i, 2)) else None
    else Some(IntText(a.i, 16))
  }

  /** What one format character does to kprintf's progress. */
  function Step(p: Progress, c: u8, args: seq<Fmt.Arg>): Option<Progress>
  {
    if !p.inFormat then
      if c == PERCENT then Some(p.(inFormat := true)) else Some(p.(out := p.out + [c]))
    else if c == PERCENT then Some(Progress(p.out + [PERCENT], false, p.next, p.printed + 1))
    else if !TakesArgument(c) then Some(Progress(p.out + UNKNOWN_TEXT, false, p.next, p.printed + 1))
    else if p.next >= |args| then None
    else
      var text := Conversion(c, args[p.next]);
      if text.None? then None else Some(Progress(p.out + text.value, false, p.next + 1, p.printed + 1))
  }

  /** kprintf's progress after the first `n` characters of the format. */
  function Run(format: seq<u8>, n: nat, args: seq<Fmt.Arg>): Option<Progress>
    requires n <= |format|
  {
    if n == 0 then Some(Progress([], false, 0, 0))
    else
      var before := Run(format, n - 1, args);
      if before.None? then None else Step(before.value, format[n - 1], args)
  }

  /** kprintf over the whole format, or None when the call is undefined. */
  function Printed(format: seq<u8>, args: seq<Fmt.Arg>): Option<Progress>
    requires Terminated(format)
  {
    Run(format, |CString(format)|, args)
  }

  /** A defined run is defined at every earlier point. */
  lemma {:induction false} RunDefined(format: seq<u8>, i: nat, n: nat, args: seq<Fmt.Arg>)
    requires i <= n <= |format| && Run(format, n, args).Some?
    ensures Run(format, i, args).Some?
    decreases n - i
  {
    if i < n {
      RunDefined(format, i, n - 1, args);
    }
  }

  /**
   * The specifiers in `format[i..len]`, counted as pairs: a '%' and the
   * character after it. A '%' in the last place has no specifier after it.
   */
  function Specifiers(format: seq<u8>, len: nat, i: nat): nat
    requires len <= |format| && i <= len + 1
    decreases len + 1 - i
  {
    if i + 1 >= len then 0
    else if format[i] == PERCENT then 1 + Specifiers(format, len, i + 2)
    else Specifiers(format, len, i + 1)
  }

  /**
   * How far a run has counted: with no '%' pending, the specifiers still
   * ahead complete the count; with one pending, the specifier it opens is
   * counted next.
   */
  ghost predicate CountSoFar(format: seq<u8>, len: nat, n: nat, p: Progress)
    requires n <= len <= |format|
  {
    if !p.inFormat then
      p.printed + Specifiers(format, len, n) == Specifiers(format, len, 0)
    else
      n >= 1 && format[n - 1] == PERCENT
      && (n < len ==> p.printed + 1 + Specifiers(format, len, n + 1) == Specifiers(format, len, 0))
      && (n == len ==> p.printed == Specifiers(format, len, 0))
  }

  lemma {:induction false} RunCounts(format: seq<u8>, len: nat, n: nat, args: seq<Fmt.Arg>)
    requires n <= len <= |format| && Run(format, n, args).Some?
    ensures CountSoFar(format, len, n, Run(format, n, args).value)
  {
    if n > 0 {
      RunDefined(format, n - 1, n, args);
      RunCounts(format, len, n - 1, args);
    }
  }

  /** kprintf returns the number of specifiers in the format, whatever they print. */
  lemma PrintedCountsSpecifiers(format: seq<u8>, args: seq<Fmt.Arg>)
    requires Terminated(format) && Printed(format, args).Some?
    ensures Printed(format, args).value.printed == Specifiers(format, |CString(format)|, 0)
  {
    RunCounts(format, |CString(format)|, |CString(format)|, args);
  }

  /** A format without '%' is sent to the terminal as it is, and the count is 0. */
  lemma {:induction false} LiteralRun(format: seq<u8>, n: nat, args: seq<Fmt.Arg>)
    requires n <= |format| && forall k :: 0 <= k < n ==> format[k] != PERCENT
    ensures Run(format, n, args) == Some(Progress(format[..n], false, 0, 0))
  {
    if n > 0 {
      LiteralRun(format, n - 1, args);
      assert format[..n] == format[..n - 1] + [format[n - 1]];
    }
  }

  lemma LiteralFormat(format: seq<u8>, args: seq<Fmt.Arg>)
    requires Terminated(format) && PERCENT !in CString(format)
    ensures Printed(format, args) == Some(Progress(CString(format), false, 0, 0))
  {
    LiteralRun(format, |CString(format)|, args);
  }

  /** "%x" of a negative value shows its magnitude without a sign: -255 prints as "ff". */
  lemma NegativeHexShowsMagnitude()
    ensures Printed([PERCENT, Fmt.SPEC_X, 0], [Fmt.IntArg(-255)]) == Some(Progress([0x66, 0x66], false, 1, 1))
  {
    var f: seq<u8> := [PERCENT, Fmt.SPEC_X, 0];
    var args := [Fmt.IntArg(-255)];
    PrefixString(f, 2);
    assert Run(f, 1, args) == Some(Progress([], true, 0, 0));
    Fmt.NumeralStep(255, 16);
    assert Fmt.DigitValues(15, 16) == [15];
    assert Fmt.Numeral(15, 16) == [0x66];
    assert 255 / 16 == 15 && 255 % 16 == 15;
    assert Fmt.Numeral(255, 16) == [0x66, 0x66];
    IntTextSign(-255, 16);
    assert IntText(-255, 16) == [0x66, 0x66];
    assert Conversion(Fmt.SPEC_X, args[0]) == Some([0x66, 0x66]);
    assert [] + [0x66, 0x66] == [0x66, 0x66];
    assert Run(f, 2, args) == Some(Progress([0x66, 0x66], false, 1, 1));
  }

  /**
   * kprintf(format, ...) on `term`: the expanded format is typed on the
   * terminal and the number of specifiers is returned. The caller must
   * pass arguments of the kinds the specifiers read.
   */
  method KPrintf(term: Terminal, format: seq<u8>, args: seq<Fmt.Arg>) returns (printed: nat)
    requires term.Ready() && Terminated(format) && Printed(format, args).Some?
    modifies term, term.buffer
    ensures term.Ready() && term.buffer == old(term.buffer)
    ensures term.State() == Typed(old(term.State()), Printed(format, args).value.out)
    ensures printed == Printed(format, args).value.printed
  {
    TerminatedEnds(format);
    var current: nat := 0;
    var inFormat := false;
    var next: nat := 0;
    printed := 0;
    ghost var out: seq<u8> := [];
    while format[current] != 0
      invariant current <= |CString(format)|
      invariant term.Ready() && term.buffer == old(term.buffer)
      invariant Run(format, current, args) == Some(Progress(out, inFormat, next, printed))
      invariant term.State() == Typed(old(term.State()), out)
      decreases |format| - current
    {
      inFormat, next, printed, out := PrintCharacter(term, format, current, inFormat, next, printed, args, old(term.State()), out);
      current := current + 1;
    }
    assert current == |CString(format)|;
  }

  /** One turn of kprintf's loop: format[current] is handled and what it prints is typed after `out`. */
  method PrintCharacter(term: Terminal, format: seq<u8>, current: nat, inFormat: bool, next: nat, printed: nat,
                        args: seq<Fmt.Arg>, ghost start: Screen, ghost out: seq<u8>)
    returns (inFormat': bool, next': nat, printed': nat, ghost out': seq<u8>)
    requires term.Ready() && Tty.Valid(start) && Terminated(format) && current < |CString(format)|
    requires Printed(format, args).Some? && Run(format, current, args) == Some(Progress(out, inFormat, next, printed))
    requires term.State() == Typed(start, out)
    modifies term, term.buffer
    ensures term.Ready() && term.buffer == old(term.buffer)
    ensures Run(format, current + 1, args) == Some(Progress(out', inFormat', next', printed'))
    ensures term.State() == Typed(start, out')
  {
    RunDefined(format, current + 1, |CString(format)|, args);
    ghost var text;
    inFormat', next', printed', text := FormatCharacter(term, format[current], inFormat, next, printed, args, out);
    TypedAppend(start, out, text);
    out' := out + text;
  }

  /** One format character of kprintf's loop; `text` is what it sends to the terminal. */
  method FormatCharacter(term: Terminal, c: u8, inFormat: bool, next: nat, printed: nat, args: seq<Fmt.Arg>, ghost out: seq<u8>)
    returns (inFormat': bool, next': nat, printed': nat, ghost text: seq<u8>)
    requires term.Ready() && Step(Progress(out, inFormat, next, printed), c, args).Some?
    modifies term, term.buffer
    ensures term.Ready() && term.buffer == old(term.buffer)
    ensures Step(Progress(out, inFormat, next, printed), c, args) == Some(Progress(out + text, inFormat', next', printed'))
    ensures term.State() == Typed(old(term.State()), text)
  {
    inFormat', next', printed' := false, next, printed;
    if inFormat {
      if c == PERCENT {
        PutOne(term, PERCENT);
        text := [PERCENT];
      } else if !TakesArgument(c) {
        assert CString(UNKNOWN_TEXT + [0]) == UNKNOWN_TEXT by {
          PrefixString(UNKNOWN_TEXT + [0], |UNKNOWN_TEXT|);
        }
        term.WriteString(UNKNOWN_TEXT + [0]);
        text := UNKNOWN_TEXT;
      } else {
        text := ConvertArgument(term, c, args[next]);
        next' := next + 1;
      }
      printed' := printed + 1;
    } else if c == PERCENT {
      inFormat' := true;
      text := [];
      assert out + text == out;
    } else {
      PutOne(term, c);
      text := [c];
    }
  }

  /** terminal_putchar, seen as typing a one-character text. */
  method PutOne(term: Terminal, c: u8)
    requires term.Ready()
    modifies term, term.buffer
    ensures term.Ready() && term.buffer == old(term.buffer)
    ensures term.State() == Typed(old(term.State()), [c])
  {
    term.PutChar(c);
    assert [c][..0] == [];
  }

  /** The `switch` arms of kprintf that read an argument. */
  method ConvertArgument(term: Terminal, c: u8, a: Fmt.Arg) returns (ghost text: seq<u8>)
    requires term.Ready() && TakesArgument(c) && Conversion(c, a).Some?
    modifies term, term.buffer
    ensures term.Ready() && term.buffer == old(term.buffer)
    ensures Conversion(c, a) == Some(text)
    ensures term.State() == Typed(old(term.State()), text)
  {
    if c == Fmt.SPEC_S {
      term.WriteString(a.s);
      text := CString(a.s);
    } else if c == Fmt.SPEC_C {
      PutOne(term, a.i % 0x100);
      text := [a.i % 0x100];
    } else if c == Fmt.SPEC_D {
      Fmt.DigitSlots(if a.i < 0 then -a.i else a.i);
      term.WriteInt(a.i, 10);
      text := IntText(a.i, 10);
    } else if c == Fmt.SPEC_B {
      term.WriteInt(a.i, 2);
      text := IntText(a.i, 2);
    } else {
      Fmt.DigitSlots(if a.i < 0 then -a.i else a.i);
      term.WriteInt(a.i, 16);
      text := IntText(a.i, 16);
    }
  }
}
