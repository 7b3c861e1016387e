/** The first version of the extension: one prepared text for whatever
    document is active, the position of the next character to type in it and
    an enabled flag, all module globals that the command handlers reassign.
    Every printable or control keystroke is substituted while the text is not
    fully typed; the edit's outcome is never consulted. `Keystroke` is what
    one `type` call does; the class `LegacyFakeType` holds the same state in
    fields and its `Type` method is proved against `Keystroke`. */
module Legacy {
  import opened Wrappers
  import opened Text
  import opened Document
  import opened EditBuilder
  import Staging

  /** What the `type` override asks of the editor and the UI, in order. */
  datatype Effect =
    | DefaultType(text: string)
    | TypeEdit(ch: char, ops: seq<EditOp>)
    | AllTyped

  /** The globals `preparedContent`, `currentIndex` and `enabled`, and the
      effects so far. */
  datatype State = State(content: string, index: nat, enabled: bool, effects: seq<Effect>)

  predicate InRange(s: State) {
    s.index <= |s.content|
  }

  /** `enabled && preparedContent && currentIndex < preparedContent.length`:
      there is no exemption for Enter or Tab. */
  predicate Substitutes(s: State) {
    s.enabled && s.content != [] && s.index < |s.content|
  }

  /** The `type` override: nothing without an active editor; the editor's own
      typing when the text cannot be substituted; otherwise the character at
      the index is read, the index advanced, the character typed over every
      selection and, when that was the last one, the completion message shown. */
  function Keystroke(s: State, text: string, editor: Option<Staging.Editor>): (r: State)
    ensures r.content == s.content && r.enabled == s.enabled
    ensures InRange(s) ==> InRange(r)
    ensures s.effects <= r.effects
    ensures editor.None? ==> r == s
  {
    if editor.None? then s
    else if !Substitutes(s) then s.(effects := s.effects + [DefaultType(text)])
    else
      var c := s.content[s.index];
      var i := s.index + 1;
      s.(index := i,
         effects := s.effects + [TypeEdit(c, SubstitutionEdits(editor.value.selections, c))]
                    + (if i >= |s.content| then [AllTyped] else []))
  }

  /** The characters typed in place of keystrokes, in order. */
  function TypedChars(effs: seq<Effect>): string
  {
    if effs == [] then []
    else TypedChars(effs[..|effs| - 1]) + (if effs[|effs| - 1].TypeEdit? then [effs[|effs| - 1].ch] else [])
  }

  /** How many completion messages were shown. */
  function Completions(effs: seq<Effect>): nat
  {
    if effs == [] then 0
    else Completions(effs[..|effs| - 1]) + (if effs[|effs| - 1].AllTyped? then 1 else 0)
  }

  lemma {:induction false} CountedAppend(a: seq<Effect>, b: seq<Effect>)
    ensures TypedChars(a + b) == TypedChars(a) + TypedChars(b)
    ensures Completions(a + b) == Completions(a) + Completions(b)
    decreases |b|
  {
    if b == [] {
      assert a + b == a;
    } else {
      assert (a + b)[..|a + b| - 1] == a + b[..|b| - 1];
      CountedAppend(a, b[..|b| - 1]);
    }
  }

  lemma CountedSingle(x: Effect)
    ensures TypedChars([x]) == if x.TypeEdit? then [x.ch] else []
    ensures Completions([x]) == if x.AllTyped? then 1 else 0
  {
    assert [x][..0] == [];
  }

  /** A keystroke with an active editor either types the staged character at
      the index and moves the index on by one, or leaves the index and types
      nothing staged; the completion message is shown exactly when the
      character typed was the last one. */
  lemma KeystrokeObserved(s: State, text: string, ed: Staging.Editor)
    requires InRange(s)
    ensures var r := Keystroke(s, text, Some(ed));
      && r.index == (if Substitutes(s) then s.index + 1 else s.index)
      && TypedChars(r.effects) == TypedChars(s.effects) + (if Substitutes(s) then [s.content[s.index]] else [])
      && Completions(r.effects) == Completions(s.effects) + (if Substitutes(s) && s.index + 1 == |s.content| then 1 else 0)
      && (!Substitutes(s) ==> r.effects == s.effects + [DefaultType(text)] && r.content == s.content && r.enabled == s.enabled)
  {
    var r := Keystroke(s, text, Some(ed));
    if Substitutes(s) {
      var c := s.content[s.index];
      var x := TypeEdit(c, SubstitutionEdits(ed.selections, c));
      var tail: seq<Effect> := if s.index + 1 >= |s.content| then [AllTyped] else [];
      assert r.effects == (s.effects + [x]) + tail;
      CountedSingle(x);
      CountedAppend(s.effects, [x]);
      CountedAppend(s.effects + [x], tail);
      if tail != [] {
        CountedSingle(AllTyped);
      }
    } else {
      CountedSingle(DefaultType(text));
      CountedAppend(s.effects, [DefaultType(text)]);
    }
  }

  /** The completion message is shown exactly when a substitution makes the
      index reach the end of the prepared text. */
  lemma CompletionExactlyAtEnd(s: State, text: string, ed: Staging.Editor)
    requires InRange(s)
    ensures var r := Keystroke(s, text, Some(ed));
      Completions(r.effects) > Completions(s.effects) <==> s.index < |s.content| == r.index
  {
    KeystrokeObserved(s, text, ed);
  }

  /** Keystrokes typed one after another in the same editor. */
  function Keystrokes(s: State, ed: Staging.Editor, texts: seq<string>): State
  {
    if texts == [] then s else Keystroke(Keystrokes(s, ed, texts[..|texts| - 1]), texts[|texts| - 1], Some(ed))
  }

  /** While enabled, `n` keystrokes of any kind move the index on by `n`,
      capped at the end of the text, and type exactly the prepared characters
      in between; the completion message is shown once if the end is reached
      from below, never otherwise. */
  lemma {:induction false} TypingRun(s: State, ed: Staging.Editor, texts: seq<string>)
    requires InRange(s) && s.enabled
    ensures var n, r := Min(|s.content|, s.index + |texts|), Keystrokes(s, ed, texts);
      && r.content == s.content && r.enabled && r.index == n
      && TypedChars(r.effects) == TypedChars(s.effects) + s.content[s.index..n]
      && Completions(r.effects) == Completions(s.effects) + (if s.index < |s.content| && n == |s.content| then 1 else 0)
    decreases |texts|
  {
    if texts != [] {
      var init, last := texts[..|texts| - 1], texts[|texts| - 1];
      TypingRun(s, ed, init);
      var m := Keystrokes(s, ed, init);
      assert Keystrokes(s, ed, texts) == Keystroke(m, last, Some(ed));
      KeystrokeObserved(m, last, ed);
      RunStep(s, m, Keystroke(m, last, Some(ed)), |init|);
    } else {
      assert s.content[s.index..s.index] == [];
    }
  }

  /** One more keystroke of a run, in terms of what a keystroke observably does. */
  lemma RunStep(s: State, m: State, r: State, k: nat)
    requires InRange(s) && s.enabled
    requires m.content == s.content && m.enabled && m.index == Min(|s.content|, s.index + k)
    requires TypedChars(m.effects) == TypedChars(s.effects) + s.content[s.index..m.index]
    requires Completions(m.effects) == Completions(s.effects) + (if s.index < |s.content| && m.index == |s.content| then 1 else 0)
    requires r.content == m.content && r.enabled
    requires r.index == (if Substitutes(m) then m.index + 1 else m.index)
    requires TypedChars(r.effects) == TypedChars(m.effects) + (if Substitutes(m) then [m.content[m.index]] else [])
    requires Completions(r.effects) == Completions(m.effects) + (if Substitutes(m) && m.index + 1 == |m.content| then 1 else 0)
    ensures var n := Min(|s.content|, s.index + k + 1);
      && r.index == n
      && TypedChars(r.effects) == TypedChars(s.effects) + s.content[s.index..n]
      && Completions(r.effects) == Completions(s.effects) + (if s.index < |s.content| && n == |s.content| then 1 else 0)
  {
    var n0 := m.index;
    if n0 < |s.content| {
      assert s.content[s.index..n0] + [s.content[n0]] == s.content[s.index..n0 + 1];
    }
  }

  /** Unlike the current engine, Enter is substituted like any other key
      while the text lasts; the current engine always hands it to the editor. */
  lemma EnterNotExempt(s: State, ed: Staging.Editor, snap: Staging.Snapshot, enabled: bool)
    requires Substitutes(s)
    ensures Keystroke(s, "\n", Some(ed)).index == s.index + 1
    ensures TypedChars(Keystroke(s, "\n", Some(ed)).effects) == TypedChars(s.effects) + [s.content[s.index]]
    ensures Staging.Admit(snap, enabled, Staging.KeyPress("\n", Some(ed)))
      == snap.(effects := snap.effects + [Staging.DefaultType("\n")])
  {
    KeystrokeObserved(s, "\n", ed);
  }

  /** A non-empty selection covers at least one character. */
  lemma SelectionText(doc: Lines, sel: Range)
    requires ValidRange(doc, sel) && !sel.IsEmpty()
    ensures |TextIn(doc, sel)| > 0
  {
    OffsetMonotone(doc, sel.start, sel.end);
  }

  /** What the status bar shows. */
  datatype Status = NotLoaded | Paused | Left(remaining: int)

  /** `updateStatusBar`: no text loaded, else paused, else what is left. */
  function StatusOf(content: string, index: nat, enabled: bool): (st: Status)
    ensures st.NotLoaded? <==> content == []
    ensures st.Paused? <==> content != [] && !enabled
    ensures st.Left? ==> st.remaining + index == |content|
    ensures st.Left? && index <= |content| ==> 0 <= st.remaining <= |content| && (st.remaining == 0 <==> index == |content|)
  {
    if content == [] then NotLoaded
    else if !enabled then Paused
    else Left(|content| - index)
  }

  function StatusText(st: Status): string
  {
    match st
    case NotLoaded => "$(keyboard) 未加载内容"
    case Paused => "$(keyboard) 已暂停"
    case Left(n) => "$(keyboard) 剩余 " + IntToString(n) + " 字符"
  }

  /** The three texts tell the three situations apart, and the count shown is
      the count meant. */
  lemma StatusTextInjective(a: Status, b: Status)
    requires a.Left? ==> a.remaining >= 0
    requires b.Left? ==> b.remaining >= 0
    requires StatusText(a) == StatusText(b)
    ensures a == b
  {
    if a.Left? && b.Left? {
      LeftCount(a.remaining);
      LeftCount(b.remaining);
      NatToStringRoundTrip(a.remaining);
      NatToStringRoundTrip(b.remaining);
    } else if a.Left? {
      LeftDiffers(a.remaining, b);
    } else if !b.Left? {
      assert StatusText(a)[12] == StatusText(b)[12];
    }
  }

  lemma LeftCount(n: nat)
    ensures var t := StatusText(Left(n));
      |t| == 18 + |NatToString(n)| && t[15..|t| - 3] == NatToString(n)
  {
    var d := NatToString(n);
    assert StatusText(Left(n)) == "$(keyboard) 剩余 " + d + " 字符";
  }

  lemma LeftDiffers(n: nat, st: Status)
    requires !st.Left?
    ensures StatusText(Left(n)) != StatusText(st)
  {
    assert StatusText(Left(n))[12] == '剩';
    assert StatusText(st)[12] in {'未', '已'};
  }

  class LegacyFakeType {
    var preparedContent: string
    var currentIndex: nat
    var enabled: bool
    var effects: seq<Effect>

    /** The index never passes the end of the prepared text. */
    ghost predicate Valid() reads this {
      InRange(View())
    }

    function View(): State reads this {
      State(preparedContent, currentIndex, enabled, effects)
    }

    /** Load time: disabled, nothing prepared. */
    constructor ()
      ensures Valid()
      ensures preparedContent == [] && currentIndex == 0 && !enabled && effects == []
    {
      preparedContent := [];
      currentIndex := 0;
      enabled := false;
      effects := [];
    }

    /** `fakeType.toggle`: flips only the enabled flag. */
    method Toggle()
      requires Valid()
      modifies this`enabled
      ensures Valid()
      ensures enabled == !old(enabled)
    {
      enabled := !enabled;
    }

    /** `fakeType.setFromClipboard`: non-empty clipboard text becomes the
        prepared text, from its start, and enables; an empty clipboard
        changes nothing. */
    method SetFromClipboard(clipboard: string)
      requires Valid()
      modifies this`preparedContent, this`currentIndex, this`enabled
      ensures Valid()
      ensures clipboard == [] ==>
        preparedContent == old(preparedContent) && currentIndex == old(currentIndex) && enabled == old(enabled)
      ensures clipboard != [] ==> preparedContent == clipboard && currentIndex == 0 && enabled
    {
      if clipboard != [] {
        preparedContent := clipboard;
        currentIndex := 0;
        enabled := true;
      }
    }

    /** `fakeType.setFromSelection`: the text of the primary selection, when
        it is not empty, becomes the prepared text, from its start, and
        enables; otherwise nothing changes. */
    method SetFromSelection(editor: Option<Staging.Editor>)
      requires Valid()
      requires editor.Some? ==> Staging.EditorOk(editor.value)
      modifies this`preparedContent, this`currentIndex, this`enabled
      ensures Valid()
      ensures editor.None? || editor.value.selections[0].IsEmpty() ==>
        preparedContent == old(preparedContent) && currentIndex == old(currentIndex) && enabled == old(enabled)
      ensures editor.Some? && !editor.value.selections[0].IsEmpty() ==>
        && preparedContent == TextIn(editor.value.doc, editor.value.selections[0])
        && preparedContent != [] && currentIndex == 0 && enabled
    {
      if editor.Some? && !editor.value.selections[0].IsEmpty() {
        var ed := editor.value;
        SelectionText(ed.doc, ed.selections[0]);
        preparedContent := TextIn(ed.doc, ed.selections[0]);
        currentIndex := 0;
        enabled := true;
      }
    }

    /** `fakeType.reset`: back to the start of the prepared text. */
    method Reset()
      requires Valid()
      modifies this`currentIndex
      ensures Valid() && currentIndex == 0
    {
      currentIndex := 0;
    }

    /** The `type` override. */
    method Type(text: string, editor: Option<Staging.Editor>)
      requires Valid()
      modifies this`currentIndex, this`effects
      ensures Valid()
      ensures View() == Keystroke(old(View()), text, editor)
    {
      if editor.None? {
        return;
      }
      if !enabled || preparedContent == [] || currentIndex >= |preparedContent| {
        effects := effects + [DefaultType(text)];
        return;
      }
      var next := preparedContent[currentIndex];
      currentIndex := currentIndex + 1;
      effects := effects + [TypeEdit(next, SubstitutionEdits(editor.value.selections, next))];
      if currentIndex >= |preparedContent| {
        effects := effects + [AllTyped];
      }
    }

    /** The status bar text. */
    function CurrentStatus(): (r: string)
      reads this
    {
      StatusText(StatusOf(preparedContent, currentIndex, enabled))
    }
  }
}
