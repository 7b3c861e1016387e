/** The current engine as an object: the mapping store, the enabled flag, the
    type queue with its guard, the paste area's chosen target and the log of
    effects; its methods are the command handlers and the `type`,
    `deleteLeft` and `deleteRight` interceptors, each proved against the
    pure model of the same behaviour. */
module Engine {
  import opened Wrappers
  import opened Text
  import opened EditBuilder
  import opened Staging

  /** What the status bar shows. */
  datatype Status = NoEditor | Unmapped | Paused | Counting(remaining: int)

  /** The characters still to type. */
  function Remaining(fc: FileContent): (r: int)
    ensures InRange(fc) ==> 0 <= r <= |fc.content|
    ensures r == 0 <==> fc.index == |fc.content|
  {
    |fc.content| - fc.index
  }

  function StatusOf(active: Option<string>, files: Files, enabled: bool): (st: Status)
    ensures st == NoEditor <==> active.None?
    ensures st == Unmapped <==> active.Some? && active.value !in files
    ensures st == Paused <==> active.Some? && active.value in files && !enabled
    ensures st.Counting? <==> active.Some? && active.value in files && enabled
    ensures st.Counting? ==> st.remaining == |files[active.value].content| - files[active.value].index
    ensures st.Counting? && AllInRange(files) ==>
      var fc := files[active.value]; st.remaining == |fc.content[fc.index..]|
    ensures st.Counting? && AllInRange(files) ==>
      0 <= st.remaining <= |files[active.value].content|
      && (st.remaining == 0 <==> files[active.value].index == |files[active.value].content|)
  {
    if active.None? then NoEditor
    else if active.value !in files then Unmapped
    else if !enabled then Paused
    else Counting(Remaining(files[active.value]))
  }

  function StatusText(st: Status): string
  {
    match st
    case NoEditor => "$(keyboard) Fake Type"
    case Unmapped => "$(keyboard) 未映射"
    case Paused => "$(keyboard) 已暂停"
    case Counting(n) => "$(keyboard) " + IntToString(n) + " 字符"
  }

  /** The four texts tell the four situations apart, and the count shown is
      the count meant. */
  lemma StatusTextInjective(a: Status, b: Status)
    requires a.Counting? ==> a.remaining >= 0
    requires b.Counting? ==> b.remaining >= 0
    requires StatusText(a) == StatusText(b)
    ensures a == b
  {
    if a.Counting? && b.Counting? {
      CountInText(a.remaining);
      CountInText(b.remaining);
      NatToStringRoundTrip(a.remaining);
      NatToStringRoundTrip(b.remaining);
    } else if a.Counting? {
      CountingTextDiffers(a.remaining, b);
    } else if b.Counting? {
      CountingTextDiffers(b.remaining, a);
    }
  }

  /** The count is the part of the counting text between the prefix and the unit. */
  lemma CountInText(n: nat)
    ensures var t := StatusText(Counting(n));
      |t| == 15 + |NatToString(n)| && t[12..|t| - 3] == NatToString(n)
  {
    var d := NatToString(n);
    assert StatusText(Counting(n)) == "$(keyboard) " + d + " 字符";
  }

  /** A counting text shows a digit where the other texts show a letter. */
  lemma CountingTextDiffers(n: nat, st: Status)
    requires !st.Counting?
    ensures StatusText(Counting(n)) != StatusText(st)
  {
    var d := NatToString(n);
    assert StatusText(Counting(n))[12] == d[0];
    assert StatusText(st)[12] in {'F', '未', '已'};
  }

  /** Appending the three optional groups one after another appends `Notices`. */
  lemma NoticesAppend(e0: seq<Effect>, e1: seq<Effect>, e2: seq<Effect>, e3: seq<Effect>,
                      save: bool, refresh: bool, done: bool, name: string)
    requires e1 == e0 + (if save then [Saved] else [])
    requires e2 == e1 + (if refresh then [TreeRefreshed] else [])
    requires e3 == e2 + (if done then [Saved] + [Completed(name)] + [TreeRefreshed] else [])
    ensures e3 == e0 + Notices(save, refresh, done, name)
  {
    var a: seq<Effect> := if save then [Saved] else [];
    var b: seq<Effect> := if refresh then [TreeRefreshed] else [];
    var c: seq<Effect> := if done then [Saved] + [Completed(name)] + [TreeRefreshed] else [];
    assert e3 == ((e0 + a) + b) + c;
    assert ((e0 + a) + b) + c == e0 + ((a + b) + c);
  }

  /** The file picked in the paste area's file dialog. */
  datatype PickedFile = PickedFile(uri: string, fsPath: string)

  /** The target chosen for the next paste-area save. */
  datatype Target = Target(uri: string, fileName: string)

  class FakeType {
    var files: Files
    var enabled: bool
    var typeQueue: seq<string>
    var processingQueue: bool
    var selectedTarget: Option<Target>
    var effects: seq<Effect>

    ghost predicate IndicesInRange() reads this {
      AllInRange(files)
    }

    /** Between handlers no drain is running and nothing is queued. */
    ghost predicate Valid() reads this {
      IndicesInRange() && (!processingQueue ==> typeQueue == [])
    }

    function View(): Snapshot reads this {
      Snapshot(files, typeQueue, effects)
    }

    /** Activation with empty storage: enabled, nothing mapped. */
    constructor ()
      ensures Valid()
      ensures files == map[] && enabled && typeQueue == [] && !processingQueue
      ensures selectedTarget == None && effects == []
    {
      files := map[];
      enabled := true;
      typeQueue := [];
      processingQueue := false;
      selectedTarget := None;
      effects := [];
    }

    /** The `type` override. Called while a drain is running it only queues or
        defers; otherwise it then runs the drain over `env`. */
    method Type(text: string, editor: Option<Editor>, env: seq<Env>)
      requires Valid()
      requires processingQueue || 1 + ArrivalCount(env) <= |env|
      modifies this
      ensures Valid()
      ensures enabled == old(enabled) && selectedTarget == old(selectedTarget)
      ensures processingQueue == old(processingQueue)
      ensures old(processingQueue) ==> View() == Admit(old(View()), enabled, KeyPress(text, editor))
      ensures !old(processingQueue) ==>
        View() == Drain(Admit(old(View()), enabled, KeyPress(text, editor)), enabled, env) && typeQueue == []
      decreases if processingQueue then 0 else 2, 1
    {
      ghost var before := View();
      if IsControlKey(text) {
        effects := effects + [DefaultType(text)];
        return;
      }
      if editor.None? {
        return;
      }
      var uri := editor.value.uri;
      if !enabled || uri !in files || files[uri].index >= |files[uri].content| {
        effects := effects + [DefaultType(text)];
        return;
      }
      typeQueue := typeQueue + [text];
      assert View() == Admit(before, enabled, KeyPress(text, editor));
      ProcessTypeQueue(env);
    }

    /** `processTypeQueue`: returns at once if a drain is running or nothing is
        queued; otherwise sets the guard, handles the queue front to back
        (one `Env` per iteration) and clears the guard. */
    method ProcessTypeQueue(env: seq<Env>)
      requires IndicesInRange()
      requires processingQueue || |typeQueue| + ArrivalCount(env) <= |env|
      modifies this
      ensures IndicesInRange()
      ensures enabled == old(enabled) && selectedTarget == old(selectedTarget)
      ensures old(processingQueue) || old(typeQueue) == [] ==>
        View() == old(View()) && processingQueue == old(processingQueue)
      ensures !old(processingQueue) ==> View() == Drain(old(View()), enabled, env) && typeQueue == [] && !processingQueue
      decreases if processingQueue then 0 else 1, 0
    {
      if processingQueue || |typeQueue| == 0 {
        return;
      }
      processingQueue := true;
      var k := 0;
      while |typeQueue| > 0
        invariant processingQueue && IndicesInRange()
        invariant enabled == old(enabled) && selectedTarget == old(selectedTarget)
        invariant 0 <= k <= |env|
        invariant |typeQueue| + ArrivalCount(env[k..]) <= |env| - k
        invariant Drain(View(), enabled, env[k..]) == Drain(old(View()), enabled, env)
        decreases |env| - k
      {
        ghost var v := View();
        assert env[k..][0] == env[k] && env[k..][1..] == env[k + 1..];
        IterateOnce(env[k]);
        k := k + 1;
      }
      processingQueue := false;
    }

    /** One pass of the drain loop: take the front of the queue; with no
        active editor go on; when the document cannot take a staged character
        hand the text to `default:type`; otherwise read the character, advance
        the index, dispatch the edit (keystrokes arriving meanwhile are
        admitted) and settle it. */
    method IterateOnce(e: Env)
      requires processingQueue && IndicesInRange() && typeQueue != []
      modifies this
      ensures processingQueue && IndicesInRange()
      ensures enabled == old(enabled) && selectedTarget == old(selectedTarget)
      ensures View() == Iterate(old(View()), enabled, e)
      decreases 0, 3
    {
      ghost var v := View();
      var text := typeQueue[0];
      typeQueue := typeQueue[1..];
      if e.editor.None? {
        return;
      }
      var ed := e.editor.value;
      var uri := ed.uri;
      if !enabled || uri !in files || files[uri].index >= |files[uri].content| {
        effects := effects + [DefaultType(text)];
        ReceiveArrivals(e.arrivals);
        return;
      }
      var fc := files[uri];
      var c := fc.content[fc.index];
      files := files[uri := fc.(index := fc.index + 1)];
      effects := effects + [SubstituteEdit(c, SubstitutionEdits(ed.selections, c))];
      assert View() == Dispatch(v.(queue := v.queue[1..]), ed);
      ReceiveArrivals(e.arrivals);
      SettleEdit(uri, e.editOk);
      IterateKeepsInRange(v, enabled, e);
    }

    /** After the edit returns: roll back on failure, save at every 50th
        character, refresh at every 20th and at the end, and at the end save,
        report completion and refresh. */
    method SettleEdit(uri: string, editOk: bool)
      requires uri in files && files[uri].index > 0
      modifies this`files, this`effects
      ensures View() == Settle(old(View()), uri, editOk)
    {
      var fc := files[uri];
      if !editOk {
        fc := fc.(index := fc.index - 1);
      }
      files := files[uri := fc];
      var save := fc.index % 50 == 0;
      var refresh := fc.index % 20 == 0 || fc.index >= |fc.content|;
      var done := fc.index >= |fc.content|;
      ghost var e0 := effects;
      if save {
        effects := effects + [Saved];
      }
      ghost var e1 := effects;
      if refresh {
        effects := effects + [TreeRefreshed];
      }
      ghost var e2 := effects;
      if done {
        effects := effects + [Saved] + [Completed(fc.fileName)] + [TreeRefreshed];
      }
      NoticesAppend(e0, e1, e2, effects, save, refresh, done, fc.fileName);
    }

    /** The keystrokes that arrive while an iteration awaits its editor call:
        each is a `type` call that finds the guard set. */
    method ReceiveArrivals(arrivals: seq<KeyPress>)
      requires processingQueue && IndicesInRange()
      modifies this
      ensures processingQueue && IndicesInRange()
      ensures enabled == old(enabled) && selectedTarget == old(selectedTarget)
      ensures View() == AdmitAll(old(View()), enabled, arrivals)
      decreases 0, 2
    {
      var j := 0;
      while j < |arrivals|
        invariant 0 <= j <= |arrivals|
        invariant processingQueue && IndicesInRange()
        invariant enabled == old(enabled) && selectedTarget == old(selectedTarget)
        invariant View() == AdmitAll(old(View()), enabled, arrivals[..j])
      {
        AdmitAllSnoc(old(View()), enabled, arrivals, j);
        Type(arrivals[j].text, arrivals[j].editor, []);
        j := j + 1;
      }
      assert arrivals[..j] == arrivals;
    }

    /** `deleteLeft`: rewind, then delete before each selection. */
    method DeleteLeft(editor: Option<Editor>)
      requires Valid() && (editor.Some? ==> EditorOk(editor.value))
      modifies this
      ensures Valid()
      ensures enabled == old(enabled) && selectedTarget == old(selectedTarget)
      ensures typeQueue == old(typeQueue) && processingQueue == old(processingQueue)
      ensures editor.None? ==> files == old(files) && effects == old(effects)
      ensures editor.Some? ==> var ed := editor.value;
        && files == Rewind(old(files), enabled, ed.uri)
        && effects == old(effects) + RewindRefresh(old(files), enabled, ed.uri) + [DeleteEdit(DeleteLeftEdits(ed.doc, ed.selections))]
    {
      if editor.None? {
        return;
      }
      var ed := editor.value;
      RewindActive(ed.uri);
      effects := effects + [DeleteEdit(DeleteLeftEdits(ed.doc, ed.selections))];
    }

    /** `deleteRight`: rewind, then delete after each selection. */
    method DeleteRight(editor: Option<Editor>)
      requires Valid() && (editor.Some? ==> EditorOk(editor.value))
      modifies this
      ensures Valid()
      ensures enabled == old(enabled) && selectedTarget == old(selectedTarget)
      ensures typeQueue == old(typeQueue) && processingQueue == old(processingQueue)
      ensures editor.None? ==> files == old(files) && effects == old(effects)
      ensures editor.Some? ==> var ed := editor.value;
        && files == Rewind(old(files), enabled, ed.uri)
        && effects == old(effects) + RewindRefresh(old(files), enabled, ed.uri) + [DeleteEdit(DeleteRightEdits(ed.doc, ed.selections))]
    {
      if editor.None? {
        return;
      }
      var ed := editor.value;
      RewindActive(ed.uri);
      effects := effects + [DeleteEdit(DeleteRightEdits(ed.doc, ed.selections))];
    }

    /** The rewind both delete handlers share, with its tree refresh at every
        tenth index. */
    method RewindActive(uri: string)
      requires Valid()
      modifies this`files, this`effects
      ensures Valid()
      ensures files == Rewind(old(files), enabled, uri)
      ensures effects == old(effects) + RewindRefresh(old(files), enabled, uri)
    {
      if enabled && uri in files && files[uri].index > 0 {
        var fc := files[uri];
        fc := fc.(index := fc.index - 1);
        files := files[uri := fc];
        if fc.index % 10 == 0 {
          effects := effects + [TreeRefreshed];
        }
      }
    }

    /** The paste area's file dialog: remember the picked file and its name. */
    method SelectFile(picked: Option<PickedFile>)
      modifies this`selectedTarget
      ensures picked.None? ==> selectedTarget == old(selectedTarget)
      ensures picked.Some? ==>
        selectedTarget == Some(Target(picked.value.uri, BaseName(picked.value.fsPath, "未知文件")))
    {
      if picked.Some? {
        selectedTarget := Some(Target(picked.value.uri, BaseName(picked.value.fsPath, "未知文件")));
      }
    }

    /** The paste area's save: needs a picked file and content that is not
        blank; stages it at index 0, saves, enables and forgets the target. */
    method SaveContent(content: string)
      requires Valid()
      modifies this
      ensures Valid()
      ensures typeQueue == old(typeQueue) && processingQueue == old(processingQueue)
      ensures old(selectedTarget).None? || IsBlank(content) ==>
        files == old(files) && enabled == old(enabled) && effects == old(effects) && selectedTarget == old(selectedTarget)
      ensures old(selectedTarget).Some? && !IsBlank(content) ==> var t := old(selectedTarget).value;
        && files == old(files)[t.uri := FileContent(content, 0, t.fileName)]
        && enabled && selectedTarget.None?
        && effects == old(effects) + [Saved, TreeRefreshed]
    {
      if selectedTarget.None? {
        return;
      }
      TrimEmptyIffBlank(content);
      if content == [] || Trim(content) == [] {
        return;
      }
      var t := selectedTarget.value;
      var fc := FileContent(content, 0, t.fileName);
      UpdateInRange(files, t.uri, fc);
      files := files[t.uri := fc];
      enabled := true;
      effects := effects + [Saved, TreeRefreshed];
      selectedTarget := None;
    }

    /** `fakeType.setFromClipboard`: stages non-empty clipboard text for the
        active document (no trimming here). */
    method SetFromClipboard(editor: Option<Editor>, clipboard: string)
      requires Valid()
      modifies this
      ensures Valid()
      ensures typeQueue == old(typeQueue) && processingQueue == old(processingQueue) && selectedTarget == old(selectedTarget)
      ensures editor.None? || clipboard == [] ==>
        files == old(files) && enabled == old(enabled) && effects == old(effects)
      ensures editor.Some? && clipboard != [] ==> var ed := editor.value;
        && files == old(files)[ed.uri := FileContent(clipboard, 0, BaseName(ed.fileName, "未知"))]
        && enabled
        && effects == old(effects) + [Saved, TreeRefreshed]
    {
      if editor.None? {
        return;
      }
      if clipboard != [] {
        var ed := editor.value;
        var fc := FileContent(clipboard, 0, BaseName(ed.fileName, "未知"));
        UpdateInRange(files, ed.uri, fc);
        files := files[ed.uri := fc];
        enabled := true;
        effects := effects + [Saved, TreeRefreshed];
      }
    }

    /** `fakeType.resetMapping` on a tree item: index back to 0. */
    method ResetMapping(uri: string)
      requires Valid()
      modifies this`files, this`effects
      ensures Valid()
      ensures uri !in old(files) ==> files == old(files) && effects == old(effects)
      ensures uri in old(files) ==>
        files == old(files)[uri := old(files)[uri].(index := 0)]
        && effects == old(effects) + [Saved, TreeRefreshed]
    {
      if uri !in files {
        return;
      }
      files := files[uri := files[uri].(index := 0)];
      effects := effects + [Saved, TreeRefreshed];
    }

    /** `fakeType.reset`: the same for the active document. */
    method Reset(editor: Option<Editor>)
      requires Valid()
      modifies this`files, this`effects
      ensures Valid()
      ensures editor.None? || editor.value.uri !in old(files) ==> files == old(files) && effects == old(effects)
      ensures editor.Some? && editor.value.uri in old(files) ==> var uri := editor.value.uri;
        files == old(files)[uri := old(files)[uri].(index := 0)]
        && effects == old(effects) + [Saved, TreeRefreshed]
    {
      if editor.Some? {
        ResetMapping(editor.value.uri);
      }
    }

    /** `fakeType.deleteMapping`, after the confirmation prompt. */
    method DeleteMapping(uri: string, confirmed: bool)
      requires Valid()
      modifies this`files, this`effects
      ensures Valid()
      ensures uri !in old(files) || !confirmed ==> files == old(files) && effects == old(effects)
      ensures uri in old(files) && confirmed ==>
        files == old(files) - {uri} && effects == old(effects) + [Saved, TreeRefreshed]
    {
      if uri !in files {
        return;
      }
      if confirmed {
        files := files - {uri};
        effects := effects + [Saved, TreeRefreshed];
      }
    }

    /** `fakeType.clearAll`, after the confirmation prompt. */
    method ClearAll(confirmed: bool)
      requires Valid()
      modifies this`files, this`effects
      ensures Valid()
      ensures !confirmed ==> files == old(files) && effects == old(effects)
      ensures confirmed ==> files == map[] && effects == old(effects) + [Saved, TreeRefreshed]
    {
      if confirmed {
        files := map[];
        effects := effects + [Saved, TreeRefreshed];
      }
    }

    /** `fakeType.toggle`. */
    method Toggle()
      modifies this`enabled
      ensures enabled == !old(enabled)
    {
      enabled := !enabled;
    }

    /** The status bar text for the active editor. */
    function CurrentStatus(active: Option<Editor>): (r: string)
      reads this
    {
      StatusText(StatusOf(if active.Some? then Some(active.value.uri) else None, files, enabled))
    }
  }

}
