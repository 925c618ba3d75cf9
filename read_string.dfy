/**
 * The kernel's line editor: characters from the keyboard's action queue are
 * stored into the caller's buffer until Enter, Ctrl-C or a full buffer
 * ends the line; backspace takes back the last stored character, and what
 * is typed is echoed. Each poll of the queue is one element of the input
 * (`None` when the queue was empty); the echo that `kprintf` prints is an
 * output sequence.
 */
module ReadString {
  import opened Common
  import opened PS2Keyboard

  const BACKSPACE: char := 8 as char
  const NUL: char := 0 as char

  /** Whether the editor acts on a poll: an action was read, it is a press, and it has a character. */
  predicate Accepted(p: Option<KeyAction>)
  {
    p.Some? && p.value.pressed && p.value.character != NUL
  }

  /** Ctrl with `c` or `C`. */
  predicate Interrupts(a: KeyAction)
  {
    (a.character == 'c' || a.character == 'C') && a.modifiers.ctrl
  }

  /** Whether the action ends the line (Ctrl-C or Enter). */
  predicate Ends(a: KeyAction)
  {
    Interrupts(a) || a.character == '\n'
  }

  /** The buffer, the write position `index`, and what has been echoed. */
  datatype Editor = Editor(buf: seq<char>, index: nat, echo: seq<char>)

  /** How read_string ended: its return value, or still polling when the input ran out. */
  datatype Outcome = Returned(code: int) | Pending

  /** The editor at the end, the outcome, and how many polls were consumed. */
  datatype Session = Session(editor: Editor, outcome: Outcome, used: nat)

  /** The reference behaviour of a line: backspace drops the last character if there is one. */
  function Apply(line: seq<char>, c: char): seq<char>
  {
    if c == BACKSPACE then (if |line| > 0 then line[..|line| - 1] else line) else line + [c]
  }

  /** A line after a run of keys. */
  function Edit(line: seq<char>, keys: seq<char>): seq<char>
    decreases |keys|
  {
    if |keys| == 0 then line else Edit(Apply(line, keys[0]), keys[1..])
  }

  /** The characters of the polls that edit the line: accepted actions other than Enter and Ctrl-C. */
  function Keys(polls: seq<Option<KeyAction>>): seq<char>
    decreases |polls|
  {
    if |polls| == 0 then []
    else (if Accepted(polls[0]) && !Ends(polls[0].value) then [polls[0].value.character] else []) + Keys(polls[1..])
  }

  /** One accepted action; `Some(code)` when it makes read_string return. */
  function Step(e: Editor, a: KeyAction): (Editor, Option<int>)
    requires e.index < |e.buf|
  {
    if Interrupts(a) then (e.(buf := e.buf[e.index := NUL]), Some(-2))
    else
      var echo := if a.character != BACKSPACE || e.index > 0 then e.echo + [a.character] else e.echo;
      if a.character == '\n' then (Editor(e.buf[e.index := NUL], e.index, echo), Some(0))
      else if a.character == BACKSPACE then (Editor(e.buf, if e.index > 0 then e.index - 1 else 0, echo), None)
      else (Editor(e.buf[e.index := a.character], e.index + 1, echo), None)
  }

  function Advance(s: Session): Session
  {
    s.(used := s.used + 1)
  }

  /**
   * read_string from editor `e` on the polls, for a buffer of `size`
   * characters: the position stays within `[0, size - 1]`, the buffer keeps
   * its length, a returned line is NUL-terminated at the position, -1 means
   * `size - 1` characters were stored, and 0 and -1 have echoed a newline
   * last.
   */
  function Read(e: Editor, polls: seq<Option<KeyAction>>, size: int): (s: Session)
    requires e.index <= size - 1 < |e.buf|
    ensures s.editor.index <= size - 1 && |s.editor.buf| == |e.buf| && s.used <= |polls|
    ensures s.outcome.Returned? ==> s.editor.buf[s.editor.index] == NUL
    ensures s.outcome.Returned? ==> s.outcome.code in {0, -1, -2}
    ensures s.outcome == Returned(-1) ==> s.editor.index == size - 1
    ensures s.outcome in {Returned(0), Returned(-1)} ==> |s.editor.echo| > 0 && s.editor.echo[|s.editor.echo| - 1] == '\n'
    ensures s.outcome.Pending? ==> s.used == |polls|
    ensures forall k :: size <= k < |e.buf| ==> s.editor.buf[k] == e.buf[k]
    decreases |polls|
  {
    if e.index >= size - 1 then Session(Editor(e.buf[e.index := NUL], e.index, e.echo + ['\n']), Returned(-1), 0)
    else if |polls| == 0 then Session(e, Pending, 0)
    else if !Accepted(polls[0]) then Advance(Read(e, polls[1..], size))
    else
      var (e', code) := Step(e, polls[0].value);
      if code.Some? then Session(e', Returned(code.value), 1)
      else Advance(Read(e', polls[1..], size))
  }

  /**
   * The line read_string leaves before the NUL is the reference editing of
   * the keys it consumed: every accepted character but Enter and Ctrl-C,
   * with backspace dropping the last stored character.
   */
  lemma {:induction false} ReadEditsLine(e: Editor, polls: seq<Option<KeyAction>>, size: int)
    requires e.index <= size - 1 < |e.buf|
    ensures var s := Read(e, polls, size);
      s.editor.buf[..s.editor.index] == Edit(e.buf[..e.index], Keys(polls[..s.used]))
    decreases |polls|
  {
    var s := Read(e, polls, size);
    if e.index >= size - 1 {
      assert polls[..s.used] == [];
      assert s.editor.buf[..s.editor.index] == e.buf[..e.index];
    } else if |polls| == 0 {
    } else {
      if !Accepted(polls[0]) {
        var rest := Read(e, polls[1..], size);
        assert polls[..s.used][1..] == polls[1..][..rest.used];
        assert Keys(polls[..s.used]) == Keys(polls[1..][..rest.used]);
        ReadEditsLine(e, polls[1..], size);
      } else {
        var a := polls[0].value;
        var (e', code) := Step(e, a);
        if code.Some? {
          assert Keys(polls[..1]) == [] by {
            assert polls[..1][1..] == [];
          }
          assert s.editor.buf[..s.editor.index] == e.buf[..e.index];
        } else {
          var rest := Read(e', polls[1..], size);
          var keys := Keys(polls[1..][..rest.used]);
          assert polls[..s.used][1..] == polls[1..][..rest.used];
          assert Keys(polls[..s.used]) == [a.character] + keys;
          assert ([a.character] + keys)[1..] == keys;
          ReadEditsLine(e', polls[1..], size);
          assert e'.buf[..e'.index] == Apply(e.buf[..e.index], a.character);
        }
      }
    }
  }

  /** Released actions, actions without a character and empty polls leave the line as it was. */
  lemma IgnoredPollsKeepLine(line: seq<char>, polls: seq<Option<KeyAction>>)
    requires forall i :: 0 <= i < |polls| ==> !Accepted(polls[i])
    ensures Edit(line, Keys(polls)) == line
  {
    NoKeys(polls);
  }

  lemma {:induction false} NoKeys(polls: seq<Option<KeyAction>>)
    requires forall i :: 0 <= i < |polls| ==> !Accepted(polls[i])
    ensures Keys(polls) == []
    decreases |polls|
  {
    if |polls| > 0 {
      NoKeys(polls[1..]);
    }
  }

  /** Backspace on an empty line is ignored; otherwise it takes back the character just typed. */
  lemma BackspaceUndoes(line: seq<char>, c: char)
    ensures |line| == 0 ==> Edit(line, [BACKSPACE]) == []
    ensures |line| > 0 ==> Edit(line, [BACKSPACE]) == line[..|line| - 1]
    ensures c != BACKSPACE ==> Edit(line, [c, BACKSPACE]) == line
  {
    assert [BACKSPACE][1..] == [];
    assert Edit(line, [BACKSPACE]) == Apply(line, BACKSPACE);
    if c != BACKSPACE {
      assert [c, BACKSPACE][1..] == [BACKSPACE];
      assert Edit(line, [c, BACKSPACE]) == Edit(line + [c], [BACKSPACE]);
      assert Edit(line + [c], [BACKSPACE]) == Apply(line + [c], BACKSPACE);
      assert (line + [c])[..|line|] == line;
    }
  }

  /** `Read` resumed at poll `i`, counting the polls already consumed. */
  function ReadFrom(e: Editor, polls: seq<Option<KeyAction>>, i: nat, size: int): Session
    requires e.index <= size - 1 < |e.buf| && i <= |polls|
  {
    var s := Read(e, polls[i..], size);
    s.(used := s.used + i)
  }

  /** One poll of `ReadFrom` below a full buffer. */
  lemma ReadFromStep(e: Editor, polls: seq<Option<KeyAction>>, i: nat, size: int)
    requires e.index < size - 1 < |e.buf| && i < |polls|
    ensures !Accepted(polls[i]) ==> ReadFrom(e, polls, i, size) == ReadFrom(e, polls, i + 1, size)
    ensures Accepted(polls[i]) ==>
      var (e', code) := Step(e, polls[i].value);
      && (code.Some? ==> ReadFrom(e, polls, i, size) == Session(e', Returned(code.value), i + 1))
      && (code.None? ==> e'.index <= size - 1 && ReadFrom(e, polls, i, size) == ReadFrom(e', polls, i + 1, size))
  {
    assert polls[i..][1..] == polls[i + 1..];
  }

  /**
   * read_string(buffer, size), polling the queue through `polls`. The
   * caller's buffer holds at least `size >= 1` characters. The result is
   * the reference `Read` from an empty line: the buffer, the outcome, the
   * echo and the polls consumed.
   */
  method ReadLine(buffer: array<char>, size: int, polls: seq<Option<KeyAction>>)
    returns (outcome: Outcome, echo: seq<char>, used: nat)
    requires 1 <= size <= buffer.Length
    modifies buffer
    ensures var s := Read(Editor(old(buffer[..]), 0, []), polls, size);
      && buffer[..] == s.editor.buf && outcome == s.outcome && echo == s.editor.echo && used == s.used
  {
    ghost var start := Editor(buffer[..], 0, []);
    assert polls[0..] == polls;
    var index := 0;
    var i := 0;
    echo := [];
    while index < size - 1
      invariant 0 <= index <= size - 1 && 0 <= i <= |polls|
      invariant Read(start, polls, size) == ReadFrom(Editor(buffer[..], index, echo), polls, i, size)
      decreases |polls| - i, 1
    {
      if i == |polls| {
        return Pending, echo, i;
      }
      var poll := polls[i];
      ReadFromStep(Editor(buffer[..], index, echo), polls, i, size);
      i := i + 1;
      if poll.Some? && poll.value.pressed && poll.value.character != NUL {
        var action := poll.value;
        if (action.character == 'c' || action.character == 'C') && action.modifiers.ctrl {
          buffer[index] := NUL;
          return Returned(-2), echo, i;
        }
        if action.character != BACKSPACE || index > 0 {
          echo := echo + [action.character];
        }
        if action.character == '\n' {
          buffer[index] := NUL;
          return Returned(0), echo, i;
        } else if action.character == BACKSPACE {
          if index > 0 {
            index := index - 1;
          }
          continue;
        }
        buffer[index] := action.character;
        index := index + 1;
      }
    }
    buffer[index] := NUL;
    echo := echo + ['\n'];
    return Returned(-1), echo, i;
  }
}
