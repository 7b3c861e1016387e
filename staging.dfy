/** The typing model of the current engine as values: per-document staged
    mappings keyed by document URI, what one call of the `type` override
    does, what one iteration of the drain loop does, the whole drain, and
    the index rewind of the delete interceptors. Calls into the editor
    (`default:type`, `editor.edit`), persistence (`saveData`) and the UI
    (tree refresh, completion message) are recorded as effects in order. */
module Staging {
  import opened Wrappers
  import opened Text
  import opened Document
  import opened EditBuilder

  /** One staged mapping: the prepared text, the index of the next character
      to type and the name shown in the tree. */
  datatype FileContent = FileContent(content: string, index: nat, fileName: string)

  type Files = map<string, FileContent>

  predicate InRange(fc: FileContent) {
    fc.index <= |fc.content|
  }

  predicate AllInRange(files: Files) {
    forall u :: u in files ==> InRange(files[u])
  }

  /** Storing an entry whose index is within its text keeps every index within its text. */
  lemma UpdateInRange(files: Files, uri: string, fc: FileContent)
    requires AllInRange(files) && InRange(fc)
    ensures AllInRange(files[uri := fc])
  {
  }

  /** The active text editor: its document's URI and file path, its lines and
      its selections. */
  datatype Editor = Editor(uri: string, fileName: string, doc: Lines, selections: seq<Range>)

  predicate EditorOk(ed: Editor) {
    WellFormed(ed.doc) && |ed.selections| >= 1 && ValidSelections(ed.doc, ed.selections)
  }

  /** What the handlers ask of the editor, the storage and the UI, in order. */
  datatype Effect =
    | DefaultType(text: string)
    | SubstituteEdit(ch: char, ops: seq<EditOp>)
    | DeleteEdit(ops: seq<EditOp>)
    | Saved
    | TreeRefreshed
    | Completed(fileName: string)

  /** A call of the `type` override: the typed text and the editor active then. */
  datatype KeyPress = KeyPress(text: string, editor: Option<Editor>)

  /** What one iteration of the drain loop meets: the active editor, whether the
      edit it applies succeeds, and the keystrokes that arrive while it awaits. */
  datatype Env = Env(editor: Option<Editor>, editOk: bool, arrivals: seq<KeyPress>)

  /** The part of the engine state a keystroke can change. */
  datatype Snapshot = Snapshot(files: Files, queue: seq<string>, effects: seq<Effect>)

  /** The test made before queueing and again before substituting: enabled,
      mapped, and not yet fully typed. */
  predicate Substitutable(files: Files, enabled: bool, uri: string) {
    enabled && uri in files && files[uri].index < |files[uri].content|
  }

  /** The keystrokes the `type` override queues: not a control key, an editor
      is active, and its document can take a staged character. */
  predicate Queues(files: Files, enabled: bool, k: KeyPress) {
    !IsControlKey(k.text) && k.editor.Some? && Substitutable(files, enabled, k.editor.value.uri)
  }

  /** The `type` override up to the point where it starts the drain: control
      keys and keystrokes that cannot be substituted go to `default:type`
      with their own text, a keystroke without an editor is dropped, the rest
      join the back of the queue. The mappings are never touched. */
  function Admit(s: Snapshot, enabled: bool, k: KeyPress): (r: Snapshot)
    ensures r.files == s.files
    ensures r.queue == (if Queues(s.files, enabled, k) then s.queue + [k.text] else s.queue)
    ensures r.effects == (if Queues(s.files, enabled, k) || (!IsControlKey(k.text) && k.editor.None?)
                          then s.effects else s.effects + [DefaultType(k.text)])
  {
    if IsControlKey(k.text) then s.(effects := s.effects + [DefaultType(k.text)])
    else if k.editor.None? then s
    else if !Substitutable(s.files, enabled, k.editor.value.uri) then s.(effects := s.effects + [DefaultType(k.text)])
    else s.(queue := s.queue + [k.text])
  }

  /** The texts among `ks` that admission queues, in arrival order. */
  function Admitted(files: Files, enabled: bool, ks: seq<KeyPress>): seq<string>
  {
    if ks == [] then []
    else Admitted(files, enabled, ks[..|ks| - 1]) + (if Queues(files, enabled, ks[|ks| - 1]) then [ks[|ks| - 1].text] else [])
  }

  /** Keystrokes arriving one after another while the drain is busy: they join
      the back of the queue in arrival order or go to `default:type`. */
  function AdmitAll(s: Snapshot, enabled: bool, ks: seq<KeyPress>): (r: Snapshot)
    ensures r.files == s.files
    ensures r.queue == s.queue + Admitted(s.files, enabled, ks)
    ensures |r.queue| <= |s.queue| + |ks|
    ensures s.effects <= r.effects
  {
    if ks == [] then s else Admit(AdmitAll(s, enabled, ks[..|ks| - 1]), enabled, ks[|ks| - 1])
  }

  lemma AdmitAllSnoc(s: Snapshot, enabled: bool, ks: seq<KeyPress>, j: nat)
    requires j < |ks|
    ensures AdmitAll(s, enabled, ks[..j + 1]) == Admit(AdmitAll(s, enabled, ks[..j]), enabled, ks[j])
  {
    assert ks[..j + 1][..j] == ks[..j];
  }

  predicate OnlyDefaults(effs: seq<Effect>) {
    forall i :: 0 <= i < |effs| ==> effs[i].DefaultType?
  }

  /** Arrivals add nothing but `default:type` requests to the effects. */
  lemma {:induction false} AdmitAllDefers(s: Snapshot, enabled: bool, ks: seq<KeyPress>)
    ensures OnlyDefaults(AdmitAll(s, enabled, ks).effects[|s.effects|..])
  {
    if ks != [] {
      var m := AdmitAll(s, enabled, ks[..|ks| - 1]);
      AdmitAllDefers(s, enabled, ks[..|ks| - 1]);
      var k := ks[|ks| - 1];
      var r := Admit(m, enabled, k);
      if r.effects != m.effects {
        assert r.effects[|s.effects|..] == m.effects[|s.effects|..] + [DefaultType(k.text)];
      }
    }
  }

  /** The mapping with its index advanced by one. */
  function Advance(files: Files, uri: string): Files
    requires uri in files
  {
    files[uri := files[uri].(index := files[uri].index + 1)]
  }

  /** A substitution up to its await: the staged character at the index is
      read, the index advanced, and one edit typing the character over every
      selection is dispatched. */
  function Dispatch(s: Snapshot, ed: Editor): Snapshot
    requires ed.uri in s.files && s.files[ed.uri].index < |s.files[ed.uri].content|
  {
    var fc := s.files[ed.uri];
    var c := fc.content[fc.index];
    s.(files := Advance(s.files, ed.uri), effects := s.effects + [SubstituteEdit(c, SubstitutionEdits(ed.selections, c))])
  }

  /** What follows a settled substitution: a save at every 50th character, a
      tree refresh at every 20th and at the end, and at the end a save, the
      completion message and a refresh. */
  function SettleEffects(fc: FileContent): seq<Effect>
  {
    var done := fc.index >= |fc.content|;
    Notices(fc.index % 50 == 0, fc.index % 20 == 0 || done, done, fc.fileName)
  }

  function Notices(save: bool, refresh: bool, done: bool, name: string): seq<Effect>
  {
    (if save then [Saved] else [])
    + (if refresh then [TreeRefreshed] else [])
    + (if done then [Saved] + [Completed(name)] + [TreeRefreshed] else [])
  }

  /** After the edit returns: roll the index back when it failed, then the
      effects above. */
  function Settle(s: Snapshot, uri: string, editOk: bool): (r: Snapshot)
    requires uri in s.files && s.files[uri].index > 0
    ensures s.effects <= r.effects
  {
    var fc := s.files[uri];
    var fc' := if editOk then fc else fc.(index := fc.index - 1);
    var files := s.files[uri := fc'];
    s.(files := files, effects := s.effects + SettleEffects(fc'))
  }

  /** The texts queued while one iteration awaits (none when no editor is
      active: that iteration does not await). */
  function NewlyQueued(s: Snapshot, enabled: bool, e: Env): seq<string>
  {
    if e.editor.None? then []
    else if Substitutable(s.files, enabled, e.editor.value.uri) then
      Admitted(Advance(s.files, e.editor.value.uri), enabled, e.arrivals)
    else Admitted(s.files, enabled, e.arrivals)
  }

  /** One iteration of the drain loop on the head of the queue. */
  function Iterate(s: Snapshot, enabled: bool, e: Env): (r: Snapshot)
    requires s.queue != []
    ensures r.queue == s.queue[1..] + NewlyQueued(s, enabled, e)
    ensures |NewlyQueued(s, enabled, e)| <= |e.arrivals|
    ensures r.files.Keys == s.files.Keys
    ensures s.effects <= r.effects
  {
    var s1 := s.(queue := s.queue[1..]);
    if e.editor.None? then s1
    else if !Substitutable(s1.files, enabled, e.editor.value.uri) then
      AdmitAll(s1.(effects := s1.effects + [DefaultType(s.queue[0])]), enabled, e.arrivals)
    else
      Settle(AdmitAll(Dispatch(s1, e.editor.value), enabled, e.arrivals), e.editor.value.uri, e.editOk)
  }

  /** An iteration keeps every index within its text. */
  lemma IterateKeepsInRange(s: Snapshot, enabled: bool, e: Env)
    requires s.queue != [] && AllInRange(s.files)
    ensures AllInRange(Iterate(s, enabled, e).files)
  {
    if e.editor.Some? && Substitutable(s.files, enabled, e.editor.value.uri) {
      var uri := e.editor.value.uri;
      var r := Iterate(s, enabled, e);
      forall u | u in r.files ensures InRange(r.files[u]) {
        if u != uri {
          assert r.files[u] == s.files[u];
        }
      }
    }
  }

  /** The whole drain loop: iterate while the queue is non-empty, one `Env`
      per iteration. */
  function Drain(s: Snapshot, enabled: bool, env: seq<Env>): Snapshot
    decreases |env|
  {
    if s.queue == [] || env == [] then s else Drain(Iterate(s, enabled, env[0]), enabled, env[1..])
  }

  function ArrivalCount(env: seq<Env>): nat
  {
    if env == [] then 0 else |env[0].arrivals| + ArrivalCount(env[1..])
  }

  /** The texts the drain loop takes off the front of the queue, in order. */
  function Dequeued(s: Snapshot, enabled: bool, env: seq<Env>): seq<string>
    decreases |env|
  {
    if s.queue == [] || env == [] then []
    else [s.queue[0]] + Dequeued(Iterate(s, enabled, env[0]), enabled, env[1..])
  }

  /** The texts queued during the drain, in the order they were queued. */
  function Pushed(s: Snapshot, enabled: bool, env: seq<Env>): seq<string>
    decreases |env|
  {
    if s.queue == [] || env == [] then []
    else NewlyQueued(s, enabled, env[0]) + Pushed(Iterate(s, enabled, env[0]), enabled, env[1..])
  }

  /** Given one `Env` per iteration, the drain ends with an empty queue. */
  lemma {:induction false} DrainEmptiesQueue(s: Snapshot, enabled: bool, env: seq<Env>)
    requires |s.queue| + ArrivalCount(env) <= |env|
    ensures Drain(s, enabled, env).queue == []
    decreases |env|
  {
    if s.queue != [] {
      DrainEmptiesQueue(Iterate(s, enabled, env[0]), enabled, env[1..]);
    }
  }

  /** The drain keeps every index within its text and every mapping in place. */
  lemma {:induction false} DrainKeepsInRange(s: Snapshot, enabled: bool, env: seq<Env>)
    requires AllInRange(s.files)
    ensures AllInRange(Drain(s, enabled, env).files)
    ensures Drain(s, enabled, env).files.Keys == s.files.Keys
    decreases |env|
  {
    if s.queue != [] && env != [] {
      IterateKeepsInRange(s, enabled, env[0]);
      DrainKeepsInRange(Iterate(s, enabled, env[0]), enabled, env[1..]);
    }
  }

  /** First in, first out: what is taken off the queue followed by what is
      left is what was queued before the drain followed by what was queued
      during it. */
  lemma {:induction false} DrainOrder(s: Snapshot, enabled: bool, env: seq<Env>)
    ensures Dequeued(s, enabled, env) + Drain(s, enabled, env).queue == s.queue + Pushed(s, enabled, env)
    decreases |env|
  {
    if s.queue != [] && env != [] {
      DrainOrder(Iterate(s, enabled, env[0]), enabled, env[1..]);
      DrainOrderStep(s, enabled, env);
    } else {
      DrainStopped(s, enabled, env);
    }
  }

  lemma DrainStopped(s: Snapshot, enabled: bool, env: seq<Env>)
    requires s.queue == [] || env == []
    ensures Dequeued(s, enabled, env) == [] && Pushed(s, enabled, env) == []
    ensures Drain(s, enabled, env).queue == s.queue
  {
  }

  lemma DrainOrderStep(s: Snapshot, enabled: bool, env: seq<Env>)
    requires s.queue != [] && env != []
    requires var s' := Iterate(s, enabled, env[0]);
      Dequeued(s', enabled, env[1..]) + Drain(s', enabled, env[1..]).queue == s'.queue + Pushed(s', enabled, env[1..])
    ensures Dequeued(s, enabled, env) + Drain(s, enabled, env).queue == s.queue + Pushed(s, enabled, env)
  {
    var s' := Iterate(s, enabled, env[0]);
    assert Drain(s, enabled, env).queue == Drain(s', enabled, env[1..]).queue;
    assert Dequeued(s, enabled, env) == [s.queue[0]] + Dequeued(s', enabled, env[1..]);
    assert Pushed(s, enabled, env) == NewlyQueued(s, enabled, env[0]) + Pushed(s', enabled, env[1..]);
    Regroup(s.queue, Dequeued(s', enabled, env[1..]), Drain(s', enabled, env[1..]).queue,
            NewlyQueued(s, enabled, env[0]), Pushed(s', enabled, env[1..]));
  }

  lemma Regroup<T>(q: seq<T>, d: seq<T>, x: seq<T>, n: seq<T>, p: seq<T>)
    requires q != [] && d + x == (q[1..] + n) + p
    ensures ([q[0]] + d) + x == q + (n + p)
  {
    assert q == [q[0]] + q[1..];
    assert ([q[0]] + d) + x == [q[0]] + (d + x);
    assert [q[0]] + ((q[1..] + n) + p) == ([q[0]] + q[1..]) + (n + p);
  }

  /** Hence a complete drain handles the queued keystrokes exactly once each,
      in arrival order. */
  lemma DrainIsFifo(s: Snapshot, enabled: bool, env: seq<Env>)
    requires |s.queue| + ArrivalCount(env) <= |env|
    ensures Dequeued(s, enabled, env) == s.queue + Pushed(s, enabled, env)
  {
    DrainOrder(s, enabled, env);
    DrainEmptiesQueue(s, enabled, env);
  }

  /** A substitution: the staged character at the index is typed over every
      selection; the index advances by one exactly when the edit succeeds; no
      other mapping changes. */
  lemma SubstitutionStep(s: Snapshot, enabled: bool, e: Env)
    requires s.queue != [] && e.editor.Some?
    requires Substitutable(s.files, enabled, e.editor.value.uri)
    ensures var uri, r := e.editor.value.uri, Iterate(s, enabled, e);
      var fc := s.files[uri];
      && r.files == s.files[uri := fc.(index := if e.editOk then fc.index + 1 else fc.index)]
      && |r.effects| > |s.effects|
      && r.effects[|s.effects|]
           == SubstituteEdit(fc.content[fc.index], SubstitutionEdits(e.editor.value.selections, fc.content[fc.index]))
  {
    var ed := e.editor.value;
    var uri, fc := ed.uri, s.files[ed.uri];
    var s1 := s.(queue := s.queue[1..]);
    var d := Dispatch(s1, ed);
    var m := AdmitAll(d, enabled, e.arrivals);
    assert Iterate(s, enabled, e) == Settle(m, uri, e.editOk);
    DispatchStep(s1, ed);
    SettleStep(m, uri, e.editOk);
    var r := Settle(m, uri, e.editOk);
    assert d.effects <= m.effects <= r.effects;
    assert r.effects[|s.effects|] == d.effects[|s.effects|];
    ReIndex(s.files, uri, fc.index + 1, if e.editOk then fc.index + 1 else fc.index);
  }

  lemma DispatchStep(s: Snapshot, ed: Editor)
    requires ed.uri in s.files && s.files[ed.uri].index < |s.files[ed.uri].content|
    ensures var d, fc := Dispatch(s, ed), s.files[ed.uri];
      var c := fc.content[fc.index];
      && d.files == s.files[ed.uri := fc.(index := fc.index + 1)]
      && d.effects == s.effects + [SubstituteEdit(c, SubstitutionEdits(ed.selections, c))]
  {
  }

  lemma SettleStep(m: Snapshot, uri: string, editOk: bool)
    requires uri in m.files && m.files[uri].index > 0
    ensures var r, fm := Settle(m, uri, editOk), m.files[uri];
      r.files == m.files[uri := fm.(index := if editOk then fm.index else fm.index - 1)]
  {
    var fm := m.files[uri];
    assert editOk ==> fm == fm.(index := fm.index);
  }

  /** A queued keystroke that finds its document disabled, unmapped or fully
      typed when it is dequeued goes to `default:type` with its own text and
      changes no mapping. */
  lemma DeferredAtDequeue(s: Snapshot, enabled: bool, e: Env)
    requires s.queue != [] && e.editor.Some?
    requires !Substitutable(s.files, enabled, e.editor.value.uri)
    ensures var r := Iterate(s, enabled, e);
      && r.files == s.files
      && |r.effects| > |s.effects|
      && r.effects[..|s.effects| + 1] == s.effects + [DefaultType(s.queue[0])]
  {
    var s1 := s.(queue := s.queue[1..], effects := s.effects + [DefaultType(s.queue[0])]);
    assert s1.effects <= Iterate(s, enabled, e).effects;
  }

  /** How many completion messages the effects hold. */
  function CompletedCount(effs: seq<Effect>): nat
  {
    if effs == [] then 0
    else CompletedCount(effs[..|effs| - 1]) + (if effs[|effs| - 1].Completed? then 1 else 0)
  }

  /** The staged characters sent to the editor, in order. */
  function SubstitutedChars(effs: seq<Effect>): string
  {
    if effs == [] then []
    else SubstitutedChars(effs[..|effs| - 1]) + (if effs[|effs| - 1].SubstituteEdit? then [effs[|effs| - 1].ch] else [])
  }

  /** How many saves the effects hold, the one at completion included. */
  function SaveCount(effs: seq<Effect>): nat
  {
    if effs == [] then 0
    else SaveCount(effs[..|effs| - 1]) + (if effs[|effs| - 1].Saved? then 1 else 0)
  }

  /** How many of the numbers `i + 1` to `j` are multiples of `k`. */
  function Multiples(i: nat, j: nat, k: nat): nat
    requires k > 0
  {
    if j <= i then 0 else Multiples(i, j - 1, k) + (if j % k == 0 then 1 else 0)
  }

  /** From zero, the multiples of 50 up to `j` number `j / 50`. */
  lemma {:induction false} FiftiesFromZero(j: nat)
    ensures Multiples(0, j, 50) == j / 50
  {
    if j > 0 {
      FiftiesFromZero(j - 1);
      assert j / 50 == (j - 1) / 50 + (if j % 50 == 0 then 1 else 0);
    }
  }

  lemma {:induction false} ObservedAppend(a: seq<Effect>, b: seq<Effect>)
    ensures CompletedCount(a + b) == CompletedCount(a) + CompletedCount(b)
    ensures SubstitutedChars(a + b) == SubstitutedChars(a) + SubstitutedChars(b)
    ensures SaveCount(a + b) == SaveCount(a) + SaveCount(b)
    decreases |b|
  {
    if b == [] {
      assert a + b == a;
    } else {
      assert (a + b)[..|a + b| - 1] == a + b[..|b| - 1];
      ObservedAppend(a, b[..|b| - 1]);
    }
  }

  lemma ObservedSingle(x: Effect)
    ensures CompletedCount([x]) == if x.Completed? then 1 else 0
    ensures SubstitutedChars([x]) == if x.SubstituteEdit? then [x.ch] else []
    ensures SaveCount([x]) == if x.Saved? then 1 else 0
  {
    assert [x][..0] == [];
  }

  /** `default:type` requests carry no staged character and no completion. */
  lemma {:induction false} ObservedDefaults(effs: seq<Effect>)
    requires OnlyDefaults(effs)
    ensures CompletedCount(effs) == 0 && SubstitutedChars(effs) == [] && SaveCount(effs) == 0
  {
    if effs != [] {
      ObservedDefaults(effs[..|effs| - 1]);
    }
  }

  /** The completion message is sent exactly when the settled index is at the
      end; the data is saved when the settled index is a multiple of 50, and
      once more at the end. */
  lemma ObservedSettle(fc: FileContent)
    ensures CompletedCount(SettleEffects(fc)) == if fc.index >= |fc.content| then 1 else 0
    ensures SubstitutedChars(SettleEffects(fc)) == []
    ensures SaveCount(SettleEffects(fc)) == (if fc.index % 50 == 0 then 1 else 0) + (if fc.index >= |fc.content| then 1 else 0)
  {
    var done := fc.index >= |fc.content|;
    ObservedNotices(fc.index % 50 == 0, fc.index % 20 == 0 || done, done, fc.fileName);
  }

  lemma ObservedNotices(save: bool, refresh: bool, done: bool, name: string)
    ensures CompletedCount(Notices(save, refresh, done, name)) == if done then 1 else 0
    ensures SubstitutedChars(Notices(save, refresh, done, name)) == []
    ensures SaveCount(Notices(save, refresh, done, name)) == (if save then 1 else 0) + (if done then 1 else 0)
  {
    var e1: seq<Effect> := if save then [Saved] else [];
    var e2: seq<Effect> := if refresh then [TreeRefreshed] else [];
    var e3: seq<Effect> := if done then [Saved] + [Completed(name)] + [TreeRefreshed] else [];
    ObservedOptional(save, Saved);
    ObservedOptional(refresh, TreeRefreshed);
    if done {
      ObservedFinish(name);
    }
    ObservedAppend(e1, e2);
    ObservedAppend(e1 + e2, e3);
  }

  lemma ObservedOptional(b: bool, x: Effect)
    requires x.Saved? || x.TreeRefreshed?
    ensures var e: seq<Effect> := if b then [x] else [];
      CompletedCount(e) == 0 && SubstitutedChars(e) == [] && SaveCount(e) == if b && x.Saved? then 1 else 0
  {
    if b {
      ObservedSingle(x);
    }
  }

  lemma ObservedFinish(name: string)
    ensures CompletedCount([Saved] + [Completed(name)] + [TreeRefreshed]) == 1
    ensures SubstitutedChars([Saved] + [Completed(name)] + [TreeRefreshed]) == []
    ensures SaveCount([Saved] + [Completed(name)] + [TreeRefreshed]) == 1
  {
    ObservedSingle(Saved);
    ObservedSingle(TreeRefreshed);
    ObservedSingle(Completed(name));
    ObservedAppend([Saved], [Completed(name)]);
    ObservedAppend([Saved] + [Completed(name)], [TreeRefreshed]);
  }

  lemma ObservedAdmitAll(s: Snapshot, enabled: bool, ks: seq<KeyPress>)
    ensures var r := AdmitAll(s, enabled, ks);
      && CompletedCount(r.effects) == CompletedCount(s.effects)
      && SubstitutedChars(r.effects) == SubstitutedChars(s.effects)
      && SaveCount(r.effects) == SaveCount(s.effects)
  {
    var r := AdmitAll(s, enabled, ks);
    var tail := r.effects[|s.effects|..];
    assert r.effects == s.effects + tail;
    AdmitAllDefers(s, enabled, ks);
    ObservedDefaults(tail);
    ObservedAppend(s.effects, tail);
  }

  /** What one iteration sends to the editor: the staged character exactly when
      it substitutes, and the completion message exactly when that character
      was the last one and its edit succeeded; the data is saved when the
      index it settles on is a multiple of 50, and once more at the end. */
  lemma IterateObserved(s: Snapshot, enabled: bool, e: Env)
    requires s.queue != []
    ensures var r := Iterate(s, enabled, e);
      e.editor.None? || !Substitutable(s.files, enabled, e.editor.value.uri) ==>
        && CompletedCount(r.effects) == CompletedCount(s.effects)
        && SubstitutedChars(r.effects) == SubstitutedChars(s.effects)
        && SaveCount(r.effects) == SaveCount(s.effects)
    ensures var r := Iterate(s, enabled, e);
      e.editor.Some? && Substitutable(s.files, enabled, e.editor.value.uri) ==>
        var fc := s.files[e.editor.value.uri];
        && SubstitutedChars(r.effects) == SubstitutedChars(s.effects) + [fc.content[fc.index]]
        && CompletedCount(r.effects) == CompletedCount(s.effects) + (if e.editOk && fc.index + 1 == |fc.content| then 1 else 0)
        && var settled := if e.editOk then fc.index + 1 else fc.index;
        SaveCount(r.effects) == SaveCount(s.effects) + (if settled % 50 == 0 then 1 else 0) + (if e.editOk && settled == |fc.content| then 1 else 0)
  {
    if e.editor.Some? && Substitutable(s.files, enabled, e.editor.value.uri) {
      SubstitutingIterationObserved(s, enabled, e);
    } else {
      DeferringIterationObserved(s, enabled, e);
    }
  }

  lemma DeferringIterationObserved(s: Snapshot, enabled: bool, e: Env)
    requires s.queue != []
    requires e.editor.None? || !Substitutable(s.files, enabled, e.editor.value.uri)
    ensures var r := Iterate(s, enabled, e);
      && CompletedCount(r.effects) == CompletedCount(s.effects)
      && SubstitutedChars(r.effects) == SubstitutedChars(s.effects)
      && SaveCount(r.effects) == SaveCount(s.effects)
  {
    var s1 := s.(queue := s.queue[1..]);
    if e.editor.Some? {
      var x := DefaultType(s.queue[0]);
      var d := s1.(effects := s1.effects + [x]);
      assert Iterate(s, enabled, e) == AdmitAll(d, enabled, e.arrivals);
      ObservedAdmitAll(d, enabled, e.arrivals);
      ObservedAppend(s.effects, [x]);
      ObservedSingle(x);
    }
  }

  lemma SubstitutingIterationObserved(s: Snapshot, enabled: bool, e: Env)
    requires s.queue != []
    requires e.editor.Some? && Substitutable(s.files, enabled, e.editor.value.uri)
    ensures var r, fc := Iterate(s, enabled, e), s.files[e.editor.value.uri];
      && SubstitutedChars(r.effects) == SubstitutedChars(s.effects) + [fc.content[fc.index]]
      && CompletedCount(r.effects) == CompletedCount(s.effects) + (if e.editOk && fc.index + 1 == |fc.content| then 1 else 0)
      && var settled := if e.editOk then fc.index + 1 else fc.index;
      SaveCount(r.effects) == SaveCount(s.effects) + (if settled % 50 == 0 then 1 else 0) + (if e.editOk && settled == |fc.content| then 1 else 0)
  {
    var s1 := s.(queue := s.queue[1..]);
    var ed := e.editor.value;
    assert s1.files == s.files && s1.effects == s.effects;
    assert Iterate(s, enabled, e) == Settle(AdmitAll(Dispatch(s1, ed), enabled, e.arrivals), ed.uri, e.editOk);
    SubstitutionObserved(s1, enabled, ed, e.arrivals, e.editOk);
  }

  lemma SubstitutionObserved(s: Snapshot, enabled: bool, ed: Editor, arrivals: seq<KeyPress>, editOk: bool)
    requires Substitutable(s.files, enabled, ed.uri)
    ensures var r, fc := Settle(AdmitAll(Dispatch(s, ed), enabled, arrivals), ed.uri, editOk), s.files[ed.uri];
      && SubstitutedChars(r.effects) == SubstitutedChars(s.effects) + [fc.content[fc.index]]
      && CompletedCount(r.effects) == CompletedCount(s.effects) + (if editOk && fc.index + 1 == |fc.content| then 1 else 0)
      && var settled := if editOk then fc.index + 1 else fc.index;
      SaveCount(r.effects) == SaveCount(s.effects) + (if settled % 50 == 0 then 1 else 0) + (if editOk && settled == |fc.content| then 1 else 0)
  {
    var d := Dispatch(s, ed);
    DispatchObserved(s, ed);
    var m := AdmitAll(d, enabled, arrivals);
    ObservedAdmitAll(d, enabled, arrivals);
    SettleObserved(m, ed.uri, editOk);
  }

  lemma DispatchObserved(s: Snapshot, ed: Editor)
    requires ed.uri in s.files && s.files[ed.uri].index < |s.files[ed.uri].content|
    ensures var d, fc := Dispatch(s, ed), s.files[ed.uri];
      && ed.uri in d.files && d.files[ed.uri].index == fc.index + 1 && d.files[ed.uri].content == fc.content
      && SubstitutedChars(d.effects) == SubstitutedChars(s.effects) + [fc.content[fc.index]]
      && CompletedCount(d.effects) == CompletedCount(s.effects)
      && SaveCount(d.effects) == SaveCount(s.effects)
  {
    var fc := s.files[ed.uri];
    var c := fc.content[fc.index];
    var x := SubstituteEdit(c, SubstitutionEdits(ed.selections, c));
    assert Dispatch(s, ed).effects == s.effects + [x];
    ObservedAppend(s.effects, [x]);
    ObservedSingle(x);
  }

  /** Settling reports completion exactly when the settled index is at the end. */
  lemma SettleObserved(m: Snapshot, uri: string, editOk: bool)
    requires uri in m.files && m.files[uri].index > 0
    ensures var r, fm := Settle(m, uri, editOk), m.files[uri];
      var settled := if editOk then fm.index else fm.index - 1;
      && SubstitutedChars(r.effects) == SubstitutedChars(m.effects)
      && CompletedCount(r.effects) == CompletedCount(m.effects) + (if settled >= |fm.content| then 1 else 0)
      && SaveCount(r.effects) == SaveCount(m.effects) + (if settled % 50 == 0 then 1 else 0) + (if settled >= |fm.content| then 1 else 0)
  {
    var fm := m.files[uri];
    var fc' := if editOk then fm else fm.(index := fm.index - 1);
    assert Settle(m, uri, editOk).effects == m.effects + SettleEffects(fc');
    ObservedSettle(fc');
    ObservedAppend(m.effects, SettleEffects(fc'));
  }

  /** One call of the `type` override when no drain is running and the edit
      succeeds, with no other keystroke arriving meanwhile. */
  function Keystroke(s: Snapshot, enabled: bool, ed: Editor, text: string): Snapshot
  {
    Drain(Admit(s, enabled, KeyPress(text, Some(ed))), enabled, [Env(Some(ed), true, [])])
  }

  /** A run of such calls, one after another. */
  function Keystrokes(s: Snapshot, enabled: bool, ed: Editor, texts: seq<string>): Snapshot
  {
    if texts == [] then s else Keystroke(Keystrokes(s, enabled, ed, texts[..|texts| - 1]), enabled, ed, texts[|texts| - 1])
  }

  /** How many of the texts are not control keys. */
  function Printable(texts: seq<string>): nat
  {
    if texts == [] then 0
    else Printable(texts[..|texts| - 1]) + (if IsControlKey(texts[|texts| - 1]) then 0 else 1)
  }

  /** What one keystroke with nothing queued does to the snapshot `m`: when
      printable and the mapping is not fully typed, it types the next staged
      character and advances the index by one; otherwise the mapping is left
      alone. Completion is signalled exactly when that was the last character. */
  predicate Stepped(m: Snapshot, ed: Editor, printable: bool, r: Snapshot)
    requires ed.uri in m.files
  {
    var fc := m.files[ed.uri];
    var typed := printable && fc.index < |fc.content|;
    && r.queue == []
    && r.files == (if typed then m.files[ed.uri := fc.(index := fc.index + 1)] else m.files)
    && SubstitutedChars(r.effects) == SubstitutedChars(m.effects) + (if typed then [fc.content[fc.index]] else [])
    && CompletedCount(r.effects) == CompletedCount(m.effects) + (if typed && fc.index + 1 == |fc.content| then 1 else 0)
    && SaveCount(r.effects) == SaveCount(m.effects)
         + (if typed then (if (fc.index + 1) % 50 == 0 then 1 else 0) + (if fc.index + 1 == |fc.content| then 1 else 0) else 0)
  }

  /** One keystroke with nothing queued types the next staged character,
      unless it is a control key or the mapping is fully typed. */
  lemma KeystrokeEffect(s: Snapshot, enabled: bool, ed: Editor, text: string)
    requires s.queue == [] && enabled && ed.uri in s.files && InRange(s.files[ed.uri])
    ensures Stepped(s, ed, !IsControlKey(text), Keystroke(s, enabled, ed, text))
  {
    var k := KeyPress(text, Some(ed));
    if Queues(s.files, enabled, k) {
      QueuedKeystrokeEffect(s, enabled, ed, text);
    } else {
      var a := Admit(s, enabled, k);
      assert Keystroke(s, enabled, ed, text) == a;
      if a.effects != s.effects {
        ObservedAppend(s.effects, [DefaultType(text)]);
        ObservedSingle(DefaultType(text));
      }
    }
  }

  lemma QueuedKeystrokeEffect(s: Snapshot, enabled: bool, ed: Editor, text: string)
    requires s.queue == [] && enabled && ed.uri in s.files && InRange(s.files[ed.uri])
    requires Queues(s.files, enabled, KeyPress(text, Some(ed)))
    ensures Stepped(s, ed, true, Keystroke(s, enabled, ed, text))
  {
    var a := Admit(s, enabled, KeyPress(text, Some(ed)));
    var e := Env(Some(ed), true, []);
    assert a.queue == [text] && a.files == s.files && a.effects == s.effects;
    assert Keystroke(s, enabled, ed, text) == Iterate(a, enabled, e) by {
      assert [e][0] == e && [e][1..] == [];
      assert Drain(a, enabled, [e]) == Drain(Iterate(a, enabled, e), enabled, []);
    }
    SubstitutionStep(a, enabled, e);
    SubstitutingIterationObserved(a, enabled, e);
  }

  /** `r` is `s` after `p` printable keystrokes on the editor's mapping: the
      index has moved on by `p`, capped at the length of the staged text; the
      characters sent to the editor are exactly the staged characters in
      between, in order; completion was signalled once if the end was reached
      from below, never otherwise; nothing is queued and no other mapping
      changed. */
  predicate TypedUpTo(s: Snapshot, ed: Editor, r: Snapshot, p: nat)
    requires ed.uri in s.files && InRange(s.files[ed.uri])
  {
    var fc := s.files[ed.uri];
    var n := Min(|fc.content|, fc.index + p);
    && r.queue == []
    && r.files == s.files[ed.uri := fc.(index := n)]
    && SubstitutedChars(r.effects) == SubstitutedChars(s.effects) + fc.content[fc.index..n]
    && CompletedCount(r.effects) == CompletedCount(s.effects) + (if fc.index < |fc.content| && n == |fc.content| then 1 else 0)
    && SaveCount(r.effects) == SaveCount(s.effects) + Multiples(fc.index, n, 50)
         + (if fc.index < |fc.content| && n == |fc.content| then 1 else 0)
  }

  /** Typing a run of keystrokes, one after another, with successful edits. */
  lemma {:induction false} TypingRun(s: Snapshot, enabled: bool, ed: Editor, texts: seq<string>)
    requires s.queue == [] && enabled && ed.uri in s.files && InRange(s.files[ed.uri])
    ensures TypedUpTo(s, ed, Keystrokes(s, enabled, ed, texts), Printable(texts))
    decreases |texts|
  {
    if texts == [] {
      SameIndex(s.files, ed.uri);
    } else {
      TypingRun(s, enabled, ed, texts[..|texts| - 1]);
      TypingStep(s, enabled, ed, texts);
    }
  }

  lemma TypingStep(s: Snapshot, enabled: bool, ed: Editor, texts: seq<string>)
    requires s.queue == [] && enabled && ed.uri in s.files && InRange(s.files[ed.uri])
    requires texts != []
    requires var init := texts[..|texts| - 1];
      TypedUpTo(s, ed, Keystrokes(s, enabled, ed, init), Printable(init))
    ensures TypedUpTo(s, ed, Keystrokes(s, enabled, ed, texts), Printable(texts))
  {
    var init, last := texts[..|texts| - 1], texts[|texts| - 1];
    var m, p := Keystrokes(s, enabled, ed, init), Printable(init);
    KeystrokesSnoc(s, enabled, ed, texts);
    TypedInRange(s, ed, m, p);
    KeystrokeEffect(m, enabled, ed, last);
    TypedStep(s, ed, m, p, !IsControlKey(last), Keystroke(m, enabled, ed, last));
  }

  lemma KeystrokesSnoc(s: Snapshot, enabled: bool, ed: Editor, texts: seq<string>)
    requires texts != []
    ensures var init, last := texts[..|texts| - 1], texts[|texts| - 1];
      && Keystrokes(s, enabled, ed, texts) == Keystroke(Keystrokes(s, enabled, ed, init), enabled, ed, last)
      && Printable(texts) == Printable(init) + (if IsControlKey(last) then 0 else 1)
  {
  }

  lemma TypedInRange(s: Snapshot, ed: Editor, m: Snapshot, p: nat)
    requires ed.uri in s.files && InRange(s.files[ed.uri])
    requires TypedUpTo(s, ed, m, p)
    ensures m.queue == [] && ed.uri in m.files && InRange(m.files[ed.uri])
  {
  }

  /** One more keystroke extends a typed run by one printable keystroke. */
  lemma TypedStep(s: Snapshot, ed: Editor, m: Snapshot, p: nat, printable: bool, r: Snapshot)
    requires ed.uri in s.files && InRange(s.files[ed.uri])
    requires TypedUpTo(s, ed, m, p) && Stepped(m, ed, printable, r)
    ensures TypedUpTo(s, ed, r, p + (if printable then 1 else 0))
  {
    var fc := s.files[ed.uri];
    var n0 := Min(|fc.content|, fc.index + p);
    assert m.files[ed.uri] == fc.(index := n0);
    if printable && n0 < |fc.content| {
      TypedAdvance(s, ed, m, p, r);
    }
  }

  lemma TypedAdvance(s: Snapshot, ed: Editor, m: Snapshot, p: nat, r: Snapshot)
    requires ed.uri in s.files && InRange(s.files[ed.uri])
    requires s.files[ed.uri].index + p < |s.files[ed.uri].content|
    requires TypedUpTo(s, ed, m, p) && Stepped(m, ed, true, r)
    ensures TypedUpTo(s, ed, r, p + 1)
  {
    var fc := s.files[ed.uri];
    var n0 := fc.index + p;
    assert m.files[ed.uri] == fc.(index := n0);
    var a, b, c := SubstitutedChars(s.effects), fc.content[fc.index..n0], fc.content[n0];
    assert SubstitutedChars(r.effects) == (a + b) + [c];
    assert (a + b) + [c] == a + (b + [c]);
    assert b + [c] == fc.content[fc.index..n0 + 1];
    assert r.files == s.files[ed.uri := fc.(index := n0)][ed.uri := fc.(index := n0 + 1)];
    ReIndex(s.files, ed.uri, n0, n0 + 1);
  }

  /** Freshly staged content typed with `N <= |content|` printable keystrokes
      leaves the index at `N` and has sent exactly the first `N` staged
      characters; the completion signal fires once, when `N == |content|`;
      the data has been saved `N / 50` times, and once more at completion.
      Other mappings are untouched. */
  lemma FreshStagingTypesPrefix(s: Snapshot, ed: Editor, content: string, name: string, texts: seq<string>)
    requires s.queue == [] && Printable(texts) <= |content|
    requires ed.uri in s.files && s.files[ed.uri] == FileContent(content, 0, name)
    ensures var r, n := Keystrokes(s, true, ed, texts), Printable(texts);
      var completed := if 0 < |content| == n then 1 else 0;
      && r.files == s.files[ed.uri := FileContent(content, n, name)]
      && SubstitutedChars(r.effects) == SubstitutedChars(s.effects) + content[..n]
      && CompletedCount(r.effects) == CompletedCount(s.effects) + completed
      && SaveCount(r.effects) == SaveCount(s.effects) + n / 50 + completed
  {
    TypingRun(s, true, ed, texts);
    var fc, p := s.files[ed.uri], Printable(texts);
    assert fc.(index := p) == FileContent(content, p, name);
    assert fc.content[fc.index..p] == content[..p];
    FiftiesFromZero(p);
  }

  /** The `deleteLeft`/`deleteRight` rewind: the index of the active document's
      mapping drops by exactly one when enabled, mapped and above zero;
      nothing else changes. */
  function Rewind(files: Files, enabled: bool, uri: string): (r: Files)
    ensures r.Keys == files.Keys
  {
    if enabled && uri in files && files[uri].index > 0 then
      files[uri := files[uri].(index := files[uri].index - 1)]
    else files
  }

  /** Only the active mapping's index moves, by exactly one and only when
      enabled and above zero; so no index leaves its text. */
  lemma RewindOnlyLowers(files: Files, enabled: bool, uri: string)
    ensures forall u :: u in files ==>
      Rewind(files, enabled, uri)[u]
        == files[u].(index := files[u].index - (if u == uri && enabled && files[u].index > 0 then 1 else 0))
    ensures AllInRange(files) ==> AllInRange(Rewind(files, enabled, uri))
  {
  }

  /** The tree refresh a rewind triggers: when the lowered index is a multiple of ten. */
  function RewindRefresh(files: Files, enabled: bool, uri: string): seq<Effect>
  {
    if enabled && uri in files && files[uri].index > 0 && (files[uri].index - 1) % 10 == 0 then [TreeRefreshed] else []
  }

  function Rewinds(files: Files, enabled: bool, uri: string, k: nat): Files
  {
    if k == 0 then files else Rewind(Rewinds(files, enabled, uri, k - 1), enabled, uri)
  }

  /** K deletions lower the index by K, but never below zero. */
  lemma {:induction false} RewindsLower(files: Files, uri: string, k: nat)
    requires uri in files
    ensures Rewinds(files, true, uri, k) == files[uri := files[uri].(index := if files[uri].index >= k then files[uri].index - k else 0)]
    decreases k
  {
    if k == 0 {
      SameIndex(files, uri);
    } else {
      RewindsLower(files, uri, k - 1);
      var j: nat := if files[uri].index >= k - 1 then files[uri].index - (k - 1) else 0;
      RewindOnce(files, uri, j);
    }
  }

  lemma RewindOnce(files: Files, uri: string, j: nat)
    requires uri in files
    ensures Rewind(files[uri := files[uri].(index := j)], true, uri) == files[uri := files[uri].(index := if j > 0 then j - 1 else 0)]
  {
    var f := files[uri := files[uri].(index := j)];
    var g := files[uri := files[uri].(index := if j > 0 then j - 1 else 0)];
    var r := Rewind(f, true, uri);
    assert r.Keys == g.Keys;
    forall u | u in r ensures r[u] == g[u] {
      if u == uri {
        assert r[u].index == g[u].index;
      } else {
        assert r[u] == f[u];
      }
    }
  }

  lemma SameIndex(files: Files, uri: string)
    requires uri in files
    ensures files[uri := files[uri].(index := files[uri].index)] == files
  {
    var g := files[uri := files[uri].(index := files[uri].index)];
    assert g.Keys == files.Keys;
    forall u | u in g ensures g[u] == files[u] {
      if u == uri {
        assert g[u].index == files[u].index;
      }
    }
  }

  lemma ReIndex(files: Files, uri: string, i: nat, j: nat)
    requires uri in files
    ensures files[uri := files[uri].(index := i)][uri := files[uri].(index := j)] == files[uri := files[uri].(index := j)]
  {
    var f := files[uri := files[uri].(index := i)][uri := files[uri].(index := j)];
    var g := files[uri := files[uri].(index := j)];
    assert f.Keys == g.Keys;
    forall u | u in f ensures f[u] == g[u] {
      if u == uri {
        assert f[u].index == g[u].index;
      }
    }
  }

  /** K printable keystrokes followed by K deletions leave the mapping at the
      index it had, provided the staged text had K characters left. */
  lemma TypeThenDeleteRestores(s: Snapshot, ed: Editor, texts: seq<string>)
    requires s.queue == [] && ed.uri in s.files
    requires s.files[ed.uri].index + Printable(texts) <= |s.files[ed.uri].content|
    ensures Rewinds(Keystrokes(s, true, ed, texts).files, true, ed.uri, Printable(texts)) == s.files
  {
    TypingRun(s, true, ed, texts);
    RewindsAfterTyping(s, ed, Keystrokes(s, true, ed, texts), Printable(texts));
  }

  lemma RewindsAfterTyping(s: Snapshot, ed: Editor, r: Snapshot, k: nat)
    requires ed.uri in s.files && InRange(s.files[ed.uri])
    requires s.files[ed.uri].index + k <= |s.files[ed.uri].content|
    requires TypedUpTo(s, ed, r, k)
    ensures Rewinds(r.files, true, ed.uri, k) == s.files
  {
    var fc := s.files[ed.uri];
    assert Min(|fc.content|, fc.index + k) == fc.index + k;
    RewindsUndo(s.files, ed.uri, k, r.files);
  }

  /** Lowering an index that was raised by K, K times, restores the map. */
  lemma RewindsUndo(files: Files, uri: string, k: nat, f: Files)
    requires uri in files && f == files[uri := files[uri].(index := files[uri].index + k)]
    ensures Rewinds(f, true, uri, k) == files
  {
    var fc := files[uri];
    RewindsLower(f, uri, k);
    assert f[uri].(index := fc.index) == fc.(index := fc.index);
    ReIndex(files, uri, fc.index + k, fc.index);
    SameIndex(files, uri);
  }
}
