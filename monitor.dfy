/**
 * The kernel monitor's command line: a command is split at every space
 * into at most 25 arguments, and the first argument is looked up among
 * the eight command names with klibc's strcmp.
 */
module Monitor {
  import opened Common
  import opened KString

  const SPACE: u8 := 0x20

  /** `MAX_ARGS`: the room in the argument array. */
  const MAX_ARGS: nat := 25

  /** The names of the `commands` table, in table order. */
  const NAMES: seq<seq<u8>> := [
    [0x68, 0x65, 0x6C, 0x70],        // help
    [0x74, 0x69, 0x63, 0x6B, 0x73],  // ticks
    [0x73, 0x79, 0x73, 0x74, 0x65, 0x6D], // system
    [0x65, 0x63, 0x68, 0x6F],        // echo
    [0x6C, 0x73],                    // ls
    [0x63, 0x61, 0x74],              // cat
    [0x72, 0x75, 0x6E],              // run
    [0x70, 0x73]                     // ps
  ]

  /**
   * The arguments of the first `n` characters of `s`, read left to right:
   * every space ends one argument and starts the next, so two spaces in a
   * row give an empty argument. The last one may still be growing.
   */
  function Scanned(s: seq<u8>, n: nat): (r: seq<seq<u8>>)
    requires n <= |s|
    ensures |r| >= 1
  {
    if n == 0 then [[]]
    else
      var init := Scanned(s, n - 1);
      if s[n - 1] == SPACE then init + [[]]
      else init[..|init| - 1] + [init[|init| - 1] + [s[n - 1]]]
  }

  /** The arguments of the command line held as a C string in `command`. */
  function Arguments(command: seq<u8>): (r: seq<seq<u8>>)
    requires Terminated(command)
    ensures |r| >= 1
  {
    Scanned(command, |CString(command)|)
  }

  /** The first `m` arguments put back together, one space between neighbours. */
  function JoinFirst(args: seq<seq<u8>>, m: nat): seq<u8>
    requires 1 <= m <= |args|
  {
    if m == 1 then args[0] else JoinFirst(args, m - 1) + [SPACE] + args[m - 1]
  }

  /** All the arguments put back together. */
  function Join(args: seq<seq<u8>>): seq<u8>
    requires |args| >= 1
  {
    JoinFirst(args, |args|)
  }

  /** The number of spaces among the first `n` characters of `s`. */
  function Spaces(s: seq<u8>, n: nat): nat
    requires n <= |s|
  {
    if n == 0 then 0 else Spaces(s, n - 1) + (if s[n - 1] == SPACE then 1 else 0)
  }

  /** Joining depends only on the arguments joined. */
  lemma {:induction false} JoinAgree(a: seq<seq<u8>>, b: seq<seq<u8>>, m: nat)
    requires 1 <= m <= |a| && m <= |b|
    requires forall k :: 0 <= k < m ==> a[k] == b[k]
    ensures JoinFirst(a, m) == JoinFirst(b, m)
  {
    if m > 1 {
      JoinAgree(a, b, m - 1);
    }
  }

  /** An empty last argument adds a space to the joined line. */
  lemma JoinAppendEmpty(a: seq<seq<u8>>)
    requires |a| >= 1
    ensures Join(a + [[]]) == Join(a) + [SPACE]
  {
    JoinAgree(a + [[]], a, |a|);
  }

  /** A character added to the last argument is added to the end of the joined line. */
  lemma JoinExtendLast(a: seq<seq<u8>>, c: u8)
    requires |a| >= 1
    ensures Join(a[..|a| - 1] + [a[|a| - 1] + [c]]) == Join(a) + [c]
  {
    var L := |a|;
    if L > 1 {
      JoinAgree(a[..L - 1] + [a[L - 1] + [c]], a, L - 1);
    }
  }

  /** Joining the arguments with spaces gives back the command line exactly. */
  lemma {:induction false} JoinScanned(s: seq<u8>, n: nat)
    requires n <= |s|
    ensures Join(Scanned(s, n)) == s[..n]
  {
    if n > 0 {
      JoinScanned(s, n - 1);
      var init := Scanned(s, n - 1);
      assert s[..n] == s[..n - 1] + [s[n - 1]];
      if s[n - 1] == SPACE {
        assert Scanned(s, n) == init + [[]];
        JoinAppendEmpty(init);
      } else {
        assert Scanned(s, n) == init[..|init| - 1] + [init[|init| - 1] + [s[n - 1]]];
        JoinExtendLast(init, s[n - 1]);
      }
    }
  }

  /** No argument holds a space, and there is one argument more than there are spaces. */
  lemma {:induction false} ScannedSpaces(s: seq<u8>, n: nat)
    requires n <= |s|
    ensures forall j :: 0 <= j < |Scanned(s, n)| ==> SPACE !in Scanned(s, n)[j]
    ensures |Scanned(s, n)| == Spaces(s, n) + 1
  {
    if n > 0 {
      ScannedSpaces(s, n - 1);
    }
  }

  /** A byte the line does not hold is in none of its arguments. */
  lemma {:induction false} ScannedAvoids(s: seq<u8>, n: nat, c: u8)
    requires n <= |s| && c !in s[..n]
    ensures forall j :: 0 <= j < |Scanned(s, n)| ==> c !in Scanned(s, n)[j]
  {
    if n > 0 {
      assert s[..n - 1] == s[..n][..n - 1];
      ScannedAvoids(s, n - 1, c);
      assert s[n - 1] in s[..n];
    }
  }

  /** An argument complete early in the scan stays as it is to the end. */
  lemma {:induction false} ScannedKeeps(s: seq<u8>, i: nat, n: nat, k: nat)
    requires i <= n <= |s| && k + 1 < |Scanned(s, i)|
    ensures k + 1 < |Scanned(s, n)| && Scanned(s, n)[k] == Scanned(s, i)[k]
    decreases n - i
  {
    if i < n {
      ScannedKeeps(s, i + 1, n, k);
    }
  }

  /** A run without spaces is a single argument. */
  lemma {:induction false} ScannedNoSpace(s: seq<u8>, n: nat)
    requires n <= |s| && SPACE !in s[..n]
    ensures Scanned(s, n) == [s[..n]]
  {
    if n > 0 {
      assert s[..n - 1] == s[..n][..n - 1];
      ScannedNoSpace(s, n - 1);
      assert s[..n] == s[..n - 1] + [s[n - 1]];
    }
  }

  /** The first argument is the command line up to its first space. */
  lemma FirstArgument(command: seq<u8>, i: nat)
    requires Terminated(command)
    requires i <= |CString(command)| && SPACE !in command[..i] && (i == |CString(command)| || command[i] == SPACE)
    ensures Arguments(command)[0] == command[..i]
  {
    ScannedNoSpace(command, i);
    if i < |CString(command)| {
      ScannedKeeps(command, i + 1, |CString(command)|, 0);
    }
  }

  /** Joining the arguments gives back the line; none holds a space; there is one more than there are spaces. */
  lemma ArgumentsJoin(command: seq<u8>)
    requires Terminated(command)
    ensures Join(Arguments(command)) == CString(command)
    ensures forall j :: 0 <= j < |Arguments(command)| ==> SPACE !in Arguments(command)[j]
    ensures |Arguments(command)| == Spaces(command, |CString(command)|) + 1
  {
    JoinScanned(command, |CString(command)|);
    ScannedSpaces(command, |CString(command)|);
  }

  /** How one more character changes the arguments found so far. */
  lemma ScannedNext(s: seq<u8>, i: nat)
    requires i < |s|
    ensures var a, b := Scanned(s, i), Scanned(s, i + 1);
      && (s[i] == SPACE ==> |b| == |a| + 1 && b[|a|] == [] && b[|a| - 1] == a[|a| - 1])
      && (s[i] != SPACE ==> |b| == |a| && b[|a| - 1] == a[|a| - 1] + [s[i]])
      && forall k :: 0 <= k < |a| - 1 ==> b[k] == a[k]
  {
  }

  /**
   * parse_args on the C string in `command`, writing into `args`: when the
   * line has at most 25 arguments their number, with the arguments in
   * `args[0..]`; otherwise -1, with the first 25 arguments stored.
   */
  method ParseArgs(command: seq<u8>, args: array<seq<u8>>) returns (argc: int)
    requires Terminated(command) && args.Length == MAX_ARGS
    modifies args
    ensures var all := Arguments(command);
      && (argc == -1 <==> |all| > MAX_ARGS)
      && (argc != -1 ==> argc == |all| && args[..argc] == all && args[argc..] == old(args[argc..]))
      && (argc == -1 ==> args[..] == all[..MAX_ARGS])
  {
    var commandLen := StrLen(command);
    var argPos: nat := 0;
    var lastSpace: nat := 0;
    var i := 0;
    while i < commandLen + 1
      invariant ScanState(command, commandLen, i, argPos, lastSpace, args[..])
      invariant forall k :: argPos <= k < MAX_ARGS ==> args[k] == old(args[k])
    {
      if i < commandLen {
        assert command[i] != 0 by {
          assert CString(command)[i] == command[i];
        }
      }
      var overflow;
      overflow, argPos, lastSpace := ScanCharacter(command, commandLen, args, i, argPos, lastSpace);
      if overflow {
        return -1;
      }
      i := i + 1;
    }
    assert args[..argPos] == Scanned(command, commandLen);
    return argPos;
  }

  /**
   * Where parse_args stands after `i` steps over the `n` characters of `s`
   * and their NUL: `argPos` arguments complete and stored, the one in
   * progress starting at `lastSpace`.
   */
  ghost predicate ScanState(s: seq<u8>, n: nat, i: nat, argPos: nat, lastSpace: nat, stored: seq<seq<u8>>)
  {
    && n < |s| && lastSpace <= i <= n + 1 && argPos <= MAX_ARGS && |stored| == MAX_ARGS
    && (i <= n ==>
      && |Scanned(s, i)| == argPos + 1 && Scanned(s, i)[argPos] == s[lastSpace..i]
      && forall k :: 0 <= k < argPos ==> stored[k] == Scanned(s, i)[k])
    && (i == n + 1 ==>
      && |Scanned(s, n)| == argPos
      && forall k :: 0 <= k < argPos ==> stored[k] == Scanned(s, n)[k])
  }

  /** At a space, or at the NUL, the argument in progress is complete and is stored. */
  lemma SeparatorStep(s: seq<u8>, n: nat, i: nat, argPos: nat, lastSpace: nat, stored: seq<seq<u8>>)
    requires ScanState(s, n, i, argPos, lastSpace, stored)
    requires i <= n && (i < n ==> s[i] == SPACE) && argPos < MAX_ARGS
    ensures ScanState(s, n, i + 1, argPos + 1, i + 1, stored[argPos := s[lastSpace..i]])
  {
    if i < n {
      ScannedNext(s, i);
      assert s[i + 1..i + 1] == [];
    }
  }

  /** Any other character lengthens the argument in progress. */
  lemma CharacterStep(s: seq<u8>, n: nat, i: nat, argPos: nat, lastSpace: nat, stored: seq<seq<u8>>)
    requires ScanState(s, n, i, argPos, lastSpace, stored)
    requires i < n && s[i] != SPACE
    ensures ScanState(s, n, i + 1, argPos, lastSpace, stored)
  {
    ScannedNext(s, i);
    assert s[lastSpace..i + 1] == s[lastSpace..i] + [s[i]];
  }

  /** A 26th argument means more than 25, of which the first 25 are those already stored. */
  lemma TooManyArguments(s: seq<u8>, i: nat, n: nat, stored: seq<seq<u8>>)
    requires i <= n <= |s| && |stored| == MAX_ARGS && |Scanned(s, i)| == MAX_ARGS + 1
    requires forall k :: 0 <= k < MAX_ARGS ==> stored[k] == Scanned(s, i)[k]
    ensures |Scanned(s, n)| > MAX_ARGS && stored == Scanned(s, n)[..MAX_ARGS]
  {
    ScannedKeeps(s, i, n, 0);
    forall k | 0 <= k < MAX_ARGS
      ensures k < |Scanned(s, n)| && stored[k] == Scanned(s, n)[k]
    {
      ScannedKeeps(s, i, n, k);
    }
  }

  /**
   * One turn of the parse_args loop, at `command[i]`: a space or the NUL
   * completes the argument in progress and stores it, unless 25 are
   * stored already (`overflow`); any other character extends it.
   */
  method ScanCharacter(command: seq<u8>, n: nat, args: array<seq<u8>>, i: nat, argPos: nat, lastSpace: nat)
    returns (overflow: bool, argPos': nat, lastSpace': nat)
    requires ScanState(command, n, i, argPos, lastSpace, args[..]) && i <= n && args.Length == MAX_ARGS
    requires command[n] == 0 && (i < n ==> command[i] != 0)
    modifies args
    ensures overflow ==> |Scanned(command, n)| > MAX_ARGS && args[..] == Scanned(command, n)[..MAX_ARGS]
    ensures !overflow ==>
      && ScanState(command, n, i + 1, argPos', lastSpace', args[..])
      && argPos <= argPos' && forall k :: argPos' <= k < MAX_ARGS ==> args[k] == old(args[k])
  {
    if command[i] == SPACE || command[i] == 0 {
      if argPos == MAX_ARGS {
        TooManyArguments(command, i, n, args[..]);
        return true, argPos, lastSpace;
      }
      var piece := command[lastSpace..i];
      SeparatorStep(command, n, i, argPos, lastSpace, args[..]);
      StoreArgument(args, argPos, piece);
      return false, argPos + 1, i + 1;
    }
    CharacterStep(command, n, i, argPos, lastSpace, args[..]);
    return false, argPos, lastSpace;
  }

  /** One argument stored into its slot of the array. */
  method StoreArgument(args: array<seq<u8>>, pos: nat, piece: seq<u8>)
    requires pos < args.Length
    modifies args
    ensures args[..] == old(args[..])[pos := piece]
  {
    args[pos] := piece;
  }

  /** The command the monitor runs for the first argument: some name strcmp finds equal to it. */
  predicate Dispatches(arg0: seq<u8>)
    requires 0 !in arg0
  {
    exists i :: 0 <= i < |NAMES| && StrCmpWritten(NAMES[i] + [0], arg0 + [0]) == 0
  }

  /**
   * monitor_handle(command): 1 when the first argument names a command,
   * 0 otherwise; `freed` is how many arguments it releases, which is all of
   * them only when nothing was run (and none when parsing failed).
   */
  method MonitorHandle(command: seq<u8>) returns (r: int, freed: int)
    requires Terminated(command)
    ensures var arg0 := Arguments(command)[0];
      && 0 !in arg0
      && (r == 1 <==> Dispatches(arg0))
      && (r == 0 <==> !Dispatches(arg0))
    ensures r == 1 ==> freed == 0
    ensures r == 0 ==> freed == (if |Arguments(command)| > MAX_ARGS then 0 else |Arguments(command)|)
  {
    var args := new seq<u8>[MAX_ARGS];
    var argc := ParseArgs(command, args);
    ghost var all := Arguments(command);
    ArgumentsAreCharacters(command);
    ghost var arg0 := args[0];
    assert arg0 == all[0];
    var i := 0;
    while i < |NAMES|
      invariant 0 <= i <= |NAMES| && args[0] == arg0
      invariant forall j :: 0 <= j < i ==> StrCmpWritten(NAMES[j] + [0], arg0 + [0]) != 0
    {
      assert 0 in NAMES[i] + [0];
      assert 0 in args[0] + [0];
      var c := StrCmpAsWritten(NAMES[i] + [0], args[0] + [0]);
      if c == 0 {
        return 1, 0;
      }
      i := i + 1;
    }
    freed := 0;
    while freed < argc
      invariant 0 <= freed <= Max(argc, 0)
    {
      freed := freed + 1;
    }
    return 0, freed;
  }

  /** The arguments of a C string hold no NUL. */
  lemma ArgumentsAreCharacters(command: seq<u8>)
    requires Terminated(command)
    ensures 0 !in Arguments(command)[0]
  {
    ScannedAvoids(command, |CString(command)|, 0);
  }

  /**
   * The monitor runs a command exactly when the first argument equals its
   * name, or has the same length and differs from it only in the last
   * character (strcmp as written misses that difference).
   */
  lemma DispatchesIff(arg0: seq<u8>)
    requires 0 !in arg0
    ensures Dispatches(arg0) <==> exists i :: 0 <= i < |NAMES| && NearlyEqual(NAMES[i], arg0)
  {
    forall i | 0 <= i < |NAMES|
      ensures StrCmpWritten(NAMES[i] + [0], arg0 + [0]) == 0 <==> NearlyEqual(NAMES[i], arg0)
    {
      StrCmpWrittenZeroIff(NAMES[i] + [0], arg0 + [0]);
      PrefixString(NAMES[i] + [0], |NAMES[i]|);
      PrefixString(arg0 + [0], |arg0|);
      assert (NAMES[i] + [0])[..|NAMES[i]|] == NAMES[i];
      assert (arg0 + [0])[..|arg0|] == arg0;
    }
  }

  /** Every command name runs its command. */
  lemma NamesDispatch(i: nat)
    requires i < |NAMES|
    ensures 0 !in NAMES[i] && Dispatches(NAMES[i])
  {
    DispatchesIff(NAMES[i]);
  }

  /** "helq" runs `help`: the mistyped last letter goes unnoticed. */
  lemma MistypedCommandRuns()
    ensures Dispatches([0x68, 0x65, 0x6C, 0x71])
    ensures [0x68, 0x65, 0x6C, 0x71] !in NAMES
  {
    var arg0: seq<u8> := [0x68, 0x65, 0x6C, 0x71];
    DispatchesIff(arg0);
    assert NearlyEqual(NAMES[0], arg0);
  }
}
