/** The demo terminal: a scripted pseudo-terminal whose keypresses reveal the
    output of the prepared terminal commands one character at a time. The
    command list, the index of the current command and the prompt are
    extension-wide; the reveal position and the echoed line belong to the open
    session. `Input` is what one `handleInput` call does; the class
    `DemoTerminal` holds the same state in fields and its methods are proved
    against `Input` and the list operations. */
module Terminal {
  import opened Wrappers

  /** A prepared command: its id, the label shown in the tree, the output
      revealed keystroke by keystroke and a delay that playback never reads. */
  datatype TerminalCommand = TerminalCommand(id: string, command: string, output: string, delay: int)

  /** The prompt before any is set, and the one `setPrompt` falls back to. */
  const InitialPrompt: string := "PS C:\\Users\\y2171\\Desktop\\xiaoyuan> "
  const FallbackPrompt: string := "PS C:\\> "
  const DefaultDelay: int := 500

  /** The key the terminal receives for backspace, and what it writes to
      erase the character before the cursor (cursor left, erase to end of line). */
  const Backspace: string := "\U{7F}"
  const Erase: string := "\U{1B}[D\U{1B}[K"

  /** A line break followed by the prompt. */
  function NewPrompt(prompt: string): (r: string)
    ensures |r| == |prompt| + 2 && r[..2] == "\r\n" && r[2..] == prompt
  {
    "\r\n" + prompt
  }

  /** What the terminal writes for one transcript character: a line break as
      carriage return and line feed, anything else as it is. */
  function Reveal(c: char): (r: string)
    ensures |r| >= 1 && r[|r| - 1] == c
    ensures c == '\n' <==> r == "\r\n"
    ensures c != '\n' ==> r == [c]
  {
    if c == '\n' then "\r\n" else [c]
  }

  /** The state one keypress can change. */
  datatype Tty = Tty(commands: seq<TerminalCommand>, current: nat, charIndex: nat, displayed: string, prompt: string)

  /** The current command index never passes the end of the list. */
  predicate Consistent(t: Tty) {
    t.current <= |t.commands|
  }

  /** No command is left to play: keys are echoed as typed. */
  predicate Passthrough(t: Tty) {
    |t.commands| == 0 || t.current >= |t.commands|
  }

  /** What one keypress does and what it writes, in order. */
  datatype Reaction = Reaction(next: Tty, writes: seq<string>)

  /** The pty's `handleInput`. With no command left, Enter redraws the prompt
      and clears the echoed line, backspace erases an echoed character if there
      is one, and anything else is echoed. Otherwise backspace steps the reveal
      position back (never below zero), and any other input reveals at most the
      one next character of the current command's output; once the position
      reaches the end of that output, the next command becomes current, the
      position returns to zero and the prompt is redrawn. */
  function Input(t: Tty, data: string): (r: Reaction)
    ensures r.next.commands == t.commands && r.next.prompt == t.prompt
    ensures Consistent(t) ==> Consistent(r.next)
    ensures Passthrough(t) ==> r.next.current == t.current && r.next.charIndex == t.charIndex
    ensures !Passthrough(t) ==> r.next.displayed == t.displayed
    ensures r.next.current == t.current || (!Passthrough(t) && r.next.current == t.current + 1 && r.next.charIndex == 0)
  {
    if Passthrough(t) then
      if data == "\r" then
        Reaction(t.(displayed := []), [NewPrompt(t.prompt)])
      else if data == Backspace then
        if |t.displayed| > 0 then Reaction(t.(displayed := t.displayed[..|t.displayed| - 1]), [Erase])
        else Reaction(t, [])
      else
        Reaction(t.(displayed := t.displayed + data), [data])
    else
      var output := t.commands[t.current].output;
      if data == Backspace then
        if t.charIndex > 0 then Reaction(t.(charIndex := t.charIndex - 1), [Erase])
        else Reaction(t, [])
      else
        var shown := if t.charIndex < |output| then [Reveal(output[t.charIndex])] else [];
        var position := if t.charIndex < |output| then t.charIndex + 1 else t.charIndex;
        if position >= |output| then
          Reaction(t.(current := t.current + 1, charIndex := 0), shown + [NewPrompt(t.prompt)])
        else
          Reaction(t.(charIndex := position), shown)
  }

  /** In passthrough mode no script index moves: Enter writes a line break
      and the prompt and clears the echoed line, backspace erases only when
      something is echoed, and any other input is appended and echoed. */
  lemma PassthroughEcho(t: Tty, data: string)
    requires Passthrough(t)
    ensures var r := Input(t, data);
      && r.next.current == t.current && r.next.charIndex == t.charIndex
      && (data == "\r" ==> r.writes == ["\r\n" + t.prompt] && r.next.displayed == [])
      && (data == Backspace ==>
            (|t.displayed| > 0 <==> r.writes == [Erase])
            && (|t.displayed| > 0 ==> r.next.displayed + [t.displayed[|t.displayed| - 1]] == t.displayed)
            && (|t.displayed| == 0 ==> r.writes == [] && r.next == t))
      && (data != "\r" && data != Backspace ==> r.writes == [data] && r.next.displayed == t.displayed + data)
  {
    if data == Backspace && |t.displayed| > 0 {
      var d := t.displayed;
      assert d[..|d| - 1] + [d[|d| - 1]] == d;
    }
  }

  /** In script mode backspace lowers the reveal position by one, never below
      zero, erasing a character only when it does lower it; the current
      command stays. */
  lemma ScriptBackspace(t: Tty)
    requires !Passthrough(t)
    ensures var r := Input(t, Backspace);
      && r.next.current == t.current
      && r.next.charIndex == (if t.charIndex > 0 then t.charIndex - 1 else 0)
      && (r.writes == [Erase] <==> t.charIndex > 0)
      && (t.charIndex == 0 ==> r.writes == [])
  {
  }

  /** In script mode any other input, however long, reveals at most one
      character: the one at the reveal position, a line break written as
      carriage return and line feed. */
  lemma ScriptRevealsOne(t: Tty, data: string)
    requires !Passthrough(t) && data != Backspace
    ensures var r, output := Input(t, data), t.commands[t.current].output;
      && 1 <= |r.writes| <= 2
      && (t.charIndex < |output| ==> r.writes[0] == Reveal(output[t.charIndex]))
      && (t.charIndex + 1 < |output| ==>
            r.writes == [Reveal(output[t.charIndex])] && r.next == t.(charIndex := t.charIndex + 1))
  {
  }

  /** Reaching the end of the output moves on to the next command, back to the
      start of its output, and redraws the prompt; a command whose output is
      empty is passed on the first key. */
  lemma ScriptAdvances(t: Tty, data: string)
    requires !Passthrough(t) && data != Backspace
    requires t.charIndex + 1 >= |t.commands[t.current].output|
    ensures var r := Input(t, data);
      && r.next == t.(current := t.current + 1, charIndex := 0)
      && r.writes[|r.writes| - 1] == "\r\n" + t.prompt
      && (t.commands[t.current].output == [] ==> r.writes == ["\r\n" + t.prompt])
  {
  }

  /** A run of keypresses: the final state and everything written, in order. */
  function Feed(t: Tty, keys: seq<string>): Reaction
    decreases |keys|
  {
    if keys == [] then Reaction(t, [])
    else
      var r := Input(t, keys[0]);
      var rest := Feed(r.next, keys[1..]);
      Reaction(rest.next, r.writes + rest.writes)
  }

  /** What the terminal writes for a run of transcript characters. */
  function Reveals(s: string): (r: seq<string>)
    ensures |r| == |s|
    ensures forall i :: 0 <= i < |s| ==> r[i] == Reveal(s[i])
  {
    if s == [] then [] else [Reveal(s[0])] + Reveals(s[1..])
  }

  predicate NoBackspace(keys: seq<string>) {
    forall i :: 0 <= i < |keys| ==> keys[i] != Backspace
  }

  /** Keys that stay short of the end of the output reveal the characters
      from the reveal position on, one per key, and move the position along. */
  lemma {:induction false} RevealRun(t: Tty, keys: seq<string>)
    requires !Passthrough(t) && NoBackspace(keys)
    requires t.charIndex + |keys| < |t.commands[t.current].output|
    ensures var output := t.commands[t.current].output;
      var r := Feed(t, keys);
      && r.next == t.(charIndex := t.charIndex + |keys|)
      && r.writes == Reveals(output[t.charIndex..t.charIndex + |keys|])
    decreases |keys|
  {
    var output := t.commands[t.current].output;
    if keys != [] {
      var k := t.charIndex;
      var first := Input(t, keys[0]);
      var t1 := t.(charIndex := k + 1);
      ScriptRevealsOne(t, keys[0]);
      assert first == Reaction(t1, [Reveal(output[k])]);
      assert NoBackspace(keys[1..]) by {
        forall i | 0 <= i < |keys[1..]| ensures keys[1..][i] != Backspace {
          assert keys[1..][i] == keys[i + 1];
        }
      }
      var rest := Feed(t1, keys[1..]);
      RevealRun(t1, keys[1..]);
      assert Feed(t, keys) == Reaction(rest.next, first.writes + rest.writes);
      var shown := output[k..k + |keys|];
      assert shown[0] == output[k] && shown[1..] == output[k + 1..k + |keys|];
    }
  }

  /** Playing a command from the start of its output: as many keys as it has
      characters (one key when it has none) write its output with line breaks
      as carriage return and line feed, then the prompt; the next command is
      then current, from the start of its output. */
  lemma PlayCommand(t: Tty, keys: seq<string>)
    requires !Passthrough(t) && t.charIndex == 0 && NoBackspace(keys)
    requires var output := t.commands[t.current].output;
      |keys| == if output == [] then 1 else |output|
    ensures var output, r := t.commands[t.current].output, Feed(t, keys);
      && r.next == t.(current := t.current + 1)
      && r.writes == Reveals(output) + ["\r\n" + t.prompt]
  {
    var output := t.commands[t.current].output;
    var n := |keys| - 1;
    assert NoBackspace(keys[..n]);
    PlayFront(t, keys[..n]);
    var front := Feed(t, keys[..n]);
    var tn := t.(charIndex := n);
    assert front == Reaction(tn, Reveals(output[..n]));
    FeedSplit(t, keys, n);
    assert keys[n..] == [keys[n]];
    var last := Input(tn, keys[n]);
    FeedOne(tn, keys[n]);
    assert Feed(tn, keys[n..]) == last;
    PlayLast(t, keys[n]);
    assert Feed(t, keys) == Reaction(last.next, front.writes + last.writes);
  }

  /** All keys but the last reveal all characters but the last. */
  lemma PlayFront(t: Tty, keys: seq<string>)
    requires !Passthrough(t) && t.charIndex == 0 && NoBackspace(keys)
    requires var output := t.commands[t.current].output;
      |keys| + 1 == if output == [] then 1 else |output|
    ensures var output := t.commands[t.current].output;
      Feed(t, keys) == Reaction(t.(charIndex := |keys|), Reveals(output[..|keys|]))
  {
    if keys == [] {
      assert t.(charIndex := 0) == t;
    } else {
      RevealRun(t, keys);
    }
  }

  /** The last key reveals the last character, if any, and moves on. */
  lemma PlayLast(t: Tty, key: string)
    requires !Passthrough(t) && t.charIndex == 0 && key != Backspace
    ensures var output := t.commands[t.current].output;
      var n := if output == [] then 0 else |output| - 1;
      var r := Input(t.(charIndex := n), key);
      && r.next == t.(current := t.current + 1)
      && Reveals(output[..n]) + r.writes == Reveals(output) + ["\r\n" + t.prompt]
  {
    var output := t.commands[t.current].output;
    var n := if output == [] then 0 else |output| - 1;
    var r := Input(t.(charIndex := n), key);
    ScriptAdvances(t.(charIndex := n), key);
    if output != [] {
      assert r.writes == [Reveal(output[n])] + ["\r\n" + t.prompt];
      assert output[..n] + [output[n]] == output;
      RevealsAppend(output[..n], [output[n]]);
    } else {
      assert Reveals(output[..n]) == [];
    }
  }

  lemma FeedOne(t: Tty, key: string)
    ensures Feed(t, [key]) == Input(t, key)
  {
    assert [key][1..] == [];
    assert Input(t, key).writes + [] == Input(t, key).writes;
  }

  /** A run of keys is its first `n` keys followed by the rest. */
  lemma {:induction false} FeedSplit(t: Tty, keys: seq<string>, n: nat)
    requires n < |keys|
    ensures var front := Feed(t, keys[..n]);
      var back := Feed(front.next, keys[n..]);
      Feed(t, keys) == Reaction(back.next, front.writes + back.writes)
    decreases n
  {
    if n == 0 {
      assert keys[..0] == [] && keys[0..] == keys;
    } else {
      var r := Input(t, keys[0]);
      FeedSplit(r.next, keys[1..], n - 1);
      assert keys[..n][0] == keys[0] && keys[..n][1..] == keys[1..][..n - 1];
      assert keys[1..][n - 1..] == keys[n..];
      assert keys[n..][1..] == keys[n + 1..];
      var front := Feed(r.next, keys[1..][..n - 1]);
      var back := Feed(front.next, keys[n..]);
      assert r.writes + (front.writes + back.writes) == (r.writes + front.writes) + back.writes;
    }
  }

  lemma {:induction false} RevealsAppend(a: string, b: string)
    ensures Reveals(a + b) == Reveals(a) + Reveals(b)
    decreases |a|
  {
    if a != [] {
      assert (a + b)[1..] == a[1..] + b;
      RevealsAppend(a[1..], b);
    } else {
      assert a + b == b;
    }
  }

  /** Two commands, `"A\n"` and `"B"`, with prompt `"$ "`: the first key shows
      `A`, the second the line break together with the move to the second
      command and a fresh prompt, the third shows `B` and a fresh prompt; the
      list is then played out and a fourth key is echoed as typed. */
  lemma TwoCommandSession(a: TerminalCommand, b: TerminalCommand, keys: seq<string>)
    requires a.output == "A\n" && b.output == "B"
    requires |keys| == 4 && NoBackspace(keys)
    ensures var t := Tty([a, b], 0, 0, [], "$ ");
      var r := Feed(t, keys);
      && r.writes == ["A", "\r\n", "\r\n$ ", "B", "\r\n$ "] + (if keys[3] == "\r" then ["\r\n$ "] else [keys[3]])
      && r.next.current == 2 && Passthrough(r.next)
  {
    var t0, t1 := Tty([a, b], 0, 0, [], "$ "), Tty([a, b], 1, 0, [], "$ ");
    var rest := keys[2..];
    assert NoBackspace(keys[..2]) && NoBackspace(rest[..1]) && rest[1..] == [keys[3]];
    SessionFirst(a, b, keys[..2]);
    SessionSecond(a, b, rest[..1]);
    SessionLast(a, b, keys[3]);
    var last := Feed(Tty([a, b], 2, 0, [], "$ "), [keys[3]]);
    FeedSplit(t1, rest, 1);
    assert Feed(t1, rest) == Reaction(last.next, ["B", "\r\n$ "] + last.writes);
    FeedSplit(t0, keys, 2);
    assert Feed(t0, keys) == Reaction(last.next, ["A", "\r\n", "\r\n$ "] + (["B", "\r\n$ "] + last.writes));
  }

  lemma SessionFirst(a: TerminalCommand, b: TerminalCommand, keys: seq<string>)
    requires a.output == "A\n" && |keys| == 2 && NoBackspace(keys)
    ensures Feed(Tty([a, b], 0, 0, [], "$ "), keys) == Reaction(Tty([a, b], 1, 0, [], "$ "), ["A", "\r\n", "\r\n$ "])
  {
    var t := Tty([a, b], 0, 0, [], "$ ");
    PlayCommand(t, keys);
    assert Reveals("A\n") == ["A", "\r\n"] by {
      assert Reveal('A') == "A";
    }
    assert NewPrompt("$ ") == "\r\n$ ";
  }

  lemma SessionSecond(a: TerminalCommand, b: TerminalCommand, keys: seq<string>)
    requires b.output == "B" && |keys| == 1 && NoBackspace(keys)
    ensures Feed(Tty([a, b], 1, 0, [], "$ "), keys) == Reaction(Tty([a, b], 2, 0, [], "$ "), ["B", "\r\n$ "])
  {
    var t := Tty([a, b], 1, 0, [], "$ ");
    PlayCommand(t, keys);
    assert Reveals("B") == ["B"];
    assert NewPrompt("$ ") == "\r\n$ ";
  }

  lemma SessionLast(a: TerminalCommand, b: TerminalCommand, key: string)
    requires key != Backspace
    ensures var r := Feed(Tty([a, b], 2, 0, [], "$ "), [key]);
      && r.writes == (if key == "\r" then ["\r\n$ "] else [key])
      && r.next.current == 2 && Passthrough(r.next)
  {
    FeedOne(Tty([a, b], 2, 0, [], "$ "), key);
    assert NewPrompt("$ ") == "\r\n$ ";
  }

  /** The first command id in the list equal to `id`, as `findIndex` returns it. */
  function FindIndex(commands: seq<TerminalCommand>, id: string): (r: Option<nat>)
    ensures r.None? <==> forall i :: 0 <= i < |commands| ==> commands[i].id != id
    ensures r.Some? ==>
      && r.value < |commands| && commands[r.value].id == id
      && forall j :: 0 <= j < r.value ==> commands[j].id != id
  {
    if commands == [] then None
    else if commands[0].id == id then Some(0)
    else
      var rest := FindIndex(commands[1..], id);
      if rest.None? then None else Some(rest.value + 1)
  }

  /** The current index after a command is removed: `Math.max(0, length - 1)`
      when it no longer points into the shortened list. */
  function ClampCurrent(current: nat, length: nat): (r: nat)
    ensures r <= length
    ensures current < length ==> r == current
    ensures current >= length ==> r + 1 == length || (length == 0 && r == 0)
  {
    if current >= length then (if length > 0 then length - 1 else 0) else current
  }

  /** A missing field of the add-command message becomes the empty text, a
      missing or zero delay becomes 500. */
  function TextOrEmpty(s: Option<string>): string {
    if s.Some? then s.value else ""
  }

  function DelayOrDefault(d: Option<int>): (r: int)
    ensures r != 0
    ensures d.Some? && d.value != 0 ==> r == d.value
    ensures d.None? || d.value == 0 ==> r == DefaultDelay
  {
    if d.Some? && d.value != 0 then d.value else DefaultDelay
  }

  /** The prompt set from the terminal panel; an empty or missing one falls back. */
  function PromptOrFallback(p: Option<string>): (r: string)
    ensures r != []
    ensures p.Some? && p.value != [] ==> r == p.value
    ensures p.None? || p.value == [] ==> r == FallbackPrompt
  {
    if p.Some? && p.value != [] then p.value else FallbackPrompt
  }

  /** `resetTerminalCommands` puts the current command back to the first but,
      as written, leaves the open session's reveal position where it was: the
      next key continues the first command's output from that position. */
  lemma ResetKeepsRevealPosition(t: Tty, data: string)
    requires |t.commands| > 0 && data != Backspace
    requires t.charIndex + 1 < |t.commands[0].output|
    ensures var r := Input(t.(current := 0), data);
      r.writes == [Reveal(t.commands[0].output[t.charIndex])] && r.next.charIndex == t.charIndex + 1
  {
    ScriptRevealsOne(t.(current := 0), data);
  }

  class DemoTerminal {
    var commands: seq<TerminalCommand>
    var current: nat
    var prompt: string
    var charIndex: nat
    var displayed: string

    ghost predicate Valid() reads this {
      Consistent(View())
    }

    function View(): Tty reads this {
      Tty(commands, current, charIndex, displayed, prompt)
    }

    /** Activation with empty storage. */
    constructor ()
      ensures Valid()
      ensures commands == [] && current == 0 && prompt == InitialPrompt
      ensures charIndex == 0 && displayed == []
    {
      commands := [];
      current := 0;
      prompt := InitialPrompt;
      charIndex := 0;
      displayed := [];
    }

    /** `fakeType.openDemoTerminal` and the pty's `open`: the session starts at
        the first command with nothing revealed or echoed and writes the prompt. */
    method Open() returns (writes: seq<string>)
      modifies this
      ensures Valid()
      ensures commands == old(commands) && prompt == old(prompt)
      ensures current == 0 && charIndex == 0 && displayed == []
      ensures writes == [prompt]
    {
      current := 0;
      charIndex := 0;
      displayed := [];
      writes := [prompt];
    }

    /** The pty's `handleInput`: returns what it writes, in order. */
    method HandleInput(data: string) returns (writes: seq<string>)
      requires Valid()
      modifies this
      ensures Valid()
      ensures View() == Input(old(View()), data).next
      ensures writes == Input(old(View()), data).writes
    {
      if |commands| == 0 || current >= |commands| {
        if data == "\r" {
          writes := [NewPrompt(prompt)];
          displayed := [];
        } else if data == Backspace {
          writes := [];
          if |displayed| > 0 {
            displayed := displayed[..|displayed| - 1];
            writes := [Erase];
          }
        } else {
          displayed := displayed + data;
          writes := [data];
        }
        return;
      }
      var output := commands[current].output;
      writes := [];
      if data == Backspace {
        if charIndex > 0 {
          charIndex := charIndex - 1;
          writes := [Erase];
        }
      } else {
        if charIndex < |output| {
          var next := output[charIndex];
          charIndex := charIndex + 1;
          writes := writes + [Reveal(next)];
        }
        if charIndex >= |output| {
          current := current + 1;
          charIndex := 0;
          writes := writes + [NewPrompt(prompt)];
        }
      }
    }

    /** The terminal panel's `addCommand`: a new command at the end of the list. */
    method AddCommand(id: string, command: Option<string>, output: Option<string>, delay: Option<int>)
      requires Valid()
      modifies this`commands
      ensures Valid()
      ensures commands == old(commands) + [TerminalCommand(id, TextOrEmpty(command), TextOrEmpty(output), DelayOrDefault(delay))]
    {
      commands := commands + [TerminalCommand(id, TextOrEmpty(command), TextOrEmpty(output), DelayOrDefault(delay))];
    }

    /** `fakeType.deleteTerminalCommand`, after the confirmation prompt: the
        first command with that id leaves the list, the others keep their
        order, and a current index past the shortened list is clamped. */
    method DeleteCommand(id: string, confirmed: bool)
      requires Valid()
      modifies this`commands, this`current
      ensures Valid()
      ensures FindIndex(old(commands), id).None? || !confirmed ==>
        commands == old(commands) && current == old(current)
      ensures FindIndex(old(commands), id).Some? && confirmed ==> var i := FindIndex(old(commands), id).value;
        && commands == old(commands)[..i] + old(commands)[i + 1..]
        && |commands| + 1 == |old(commands)|
        && current == ClampCurrent(old(current), |commands|)
    {
      var found := FindIndex(commands, id);
      if found.None? {
        return;
      }
      if confirmed {
        var i := found.value;
        commands := commands[..i] + commands[i + 1..];
        if current >= |commands| {
          current := if |commands| - 1 > 0 then |commands| - 1 else 0;
        }
      }
    }

    /** `fakeType.resetTerminalCommands`: back to the first command. */
    method ResetProgress()
      requires Valid()
      modifies this`current
      ensures Valid() && current == 0
    {
      current := 0;
    }

    /** `fakeType.clearAllTerminalCommands`, after the confirmation prompt. */
    method ClearAll(confirmed: bool)
      requires Valid()
      modifies this`commands, this`current
      ensures Valid()
      ensures !confirmed ==> commands == old(commands) && current == old(current)
      ensures confirmed ==> commands == [] && current == 0
    {
      if confirmed {
        commands := [];
        current := 0;
      }
    }

    /** The terminal panel's `setPrompt`. */
    method SetPrompt(p: Option<string>)
      modifies this`prompt
      ensures prompt == PromptOrFallback(p)
    {
      prompt := PromptOrFallback(p);
    }
  }
}
