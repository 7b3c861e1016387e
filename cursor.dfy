/** The document as the presenter sees it while typing with one cursor: each
    staged character is handed to the editor as the substitution edit at the
    cursor, and each backspace as the `deleteLeft` edit at the cursor. After an
    insertion the editor puts the cursor behind the inserted character, and
    after a deletion at the start of the deleted range. `TypeAt` and
    `BackspaceAt` say what one keystroke does to the text, and
    `TypeAtIsSubstitution` and `BackspaceAtIsDeleteLeft` prove that this is
    the document the extension's own edits produce; the other lemmas state
    what a run of such keystrokes does to the text and to the document. */
module Cursor {
  import opened Document
  import opened EditBuilder
  import Staging

  /** A document with a single empty selection at index `at` of its text. */
  datatype Caret = Caret(doc: Lines, at: nat)

  predicate CaretOk(c: Caret) {
    WellFormed(c.doc) && c.at <= |Text(c.doc)|
  }

  /** The selection the editor reports: empty, at the cursor. */
  function Selection(c: Caret): (sel: Range)
    requires CaretOk(c)
    ensures ValidRange(c.doc, sel) && sel.IsEmpty() && Offset(c.doc, sel.start) == c.at
  {
    var p := PosOf(c.doc, c.at);
    Range(p, p)
  }

  /** One staged character typed at the cursor: the text gains it at the
      cursor and the cursor moves past it. */
  function TypeAt(c: Caret, ch: char): (r: Caret)
    requires CaretOk(c)
    ensures CaretOk(r)
    ensures var t := Text(c.doc);
      Text(r.doc) == t[..c.at] + [ch] + t[c.at..] && r.at == c.at + 1
  {
    var t := Text(c.doc);
    Caret(Split(t[..c.at] + [ch] + t[c.at..]), c.at + 1)
  }

  /** `TypeAt` is what the editor makes of the substitution edit the
      extension issues for the cursor's selection. */
  lemma TypeAtIsSubstitution(c: Caret, ch: char)
    requires CaretOk(c)
    ensures var sel := Selection(c); var ops := SubstitutionEdits([sel], ch);
      && |ops| == 1 && ValidOp(c.doc, ops[0])
      && TypeAt(c, ch).doc == ApplyOp(c.doc, ops[0])
  {
    var sel := Selection(c);
    var op := SubstitutionOp(sel, ch);
    assert SubstitutionEdits([sel], ch) == [op];
    SubstitutionReplacesSelection(c.doc, sel, ch);
    SameText(TypeAt(c, ch).doc, ApplyOp(c.doc, op));
  }

  /** One backspace at the cursor: nothing at the start of the document,
      otherwise the character before the cursor goes and the cursor with it. */
  function BackspaceAt(c: Caret): (r: Caret)
    requires CaretOk(c)
    ensures CaretOk(r)
    ensures var t := Text(c.doc);
      c.at > 0 ==> Text(r.doc) == t[..c.at - 1] + t[c.at..] && r.at == c.at - 1
  {
    var t := Text(c.doc);
    if c.at == 0 then c else Caret(Split(t[..c.at - 1] + t[c.at..]), c.at - 1)
  }

  /** `BackspaceAt` is what the editor makes of the `deleteLeft` edits the
      extension issues for the cursor's selection: none at the start of the
      document, one otherwise. */
  lemma BackspaceAtIsDeleteLeft(c: Caret)
    requires CaretOk(c)
    ensures var ops := DeleteLeftEdits(c.doc, [Selection(c)]);
      && (ops == [] <==> c.at == 0)
      && (ops == [] ==> BackspaceAt(c) == c)
      && (ops != [] ==> |ops| == 1 && BackspaceAt(c).doc == ApplyOp(c.doc, ops[0]))
  {
    DeleteLeftAtCursor(c);
    if c.at > 0 {
      BackspaceDeletes(c);
    }
  }

  lemma BackspaceDeletes(c: Caret)
    requires CaretOk(c) && c.at > 0
    ensures var ops := DeleteLeftEdits(c.doc, [Selection(c)]);
      ops != [] && ValidOp(c.doc, ops[0]) && BackspaceAt(c).doc == ApplyOp(c.doc, ops[0])
  {
    DeleteLeftAtCursor(c);
    var ops := DeleteLeftEdits(c.doc, [Selection(c)]);
    SameText(BackspaceAt(c).doc, ApplyOp(c.doc, ops[0]));
  }

  lemma DeleteLeftAtCursor(c: Caret)
    requires CaretOk(c)
    ensures var ops, t := DeleteLeftEdits(c.doc, [Selection(c)]), Text(c.doc);
      && |ops| <= 1
      && (ops == [] <==> c.at == 0)
      && (ops != [] ==> ValidOp(c.doc, ops[0]) && Text(ApplyOp(c.doc, ops[0])) == t[..c.at - 1] + t[c.at..])
  {
    var sel := Selection(c);
    DeleteLeftSingle(c.doc, sel);
  }

  /** Characters typed one after another at the cursor. */
  function TypeRun(c: Caret, cs: string): (r: Caret)
    requires CaretOk(c)
    ensures CaretOk(r)
    decreases |cs|
  {
    if cs == [] then c else TypeRun(TypeAt(c, cs[0]), cs[1..])
  }

  /** Backspace pressed `k` times. */
  function BackspaceRun(c: Caret, k: nat): (r: Caret)
    requires CaretOk(c)
    ensures CaretOk(r)
    decreases k
  {
    if k == 0 then c else BackspaceRun(BackspaceAt(c), k - 1)
  }

  /** A run of typed characters lands in the text at the cursor, in order,
      and leaves the cursor behind them. */
  lemma {:induction false} TypeRunText(c: Caret, cs: string)
    requires CaretOk(c)
    ensures var r, t := TypeRun(c, cs), Text(c.doc);
      && CaretOk(r)
      && Text(r.doc) == t[..c.at] + cs + t[c.at..]
      && r.at == c.at + |cs|
    decreases |cs|
  {
    if cs != [] {
      var c1 := TypeAt(c, cs[0]);
      TypeRunText(c1, cs[1..]);
      var r := TypeRun(c1, cs[1..]);
      assert TypeRun(c, cs) == r;
      InsertInsert(Text(c.doc), c.at, cs, Text(c1.doc), Text(r.doc));
    }
  }

  /** `k` backspaces, no more than the characters before the cursor, move
      the cursor back by `k`. */
  lemma {:induction false} BackspaceRunCursor(c: Caret, k: nat)
    requires CaretOk(c) && k <= c.at
    ensures BackspaceRun(c, k).at == c.at - k
    decreases k
  {
    if k > 0 {
      var c1 := BackspaceAt(c);
      var j: nat := k - 1;
      BackspaceRunCursor(c1, j);
      assert BackspaceRun(c, k) == BackspaceRun(c1, j);
    }
  }

  /** `k` backspaces, no more than the characters before the cursor, remove
      the `k` characters before it and nothing else. */
  lemma {:induction false} BackspaceRunText(c: Caret, k: nat)
    requires CaretOk(c) && k <= c.at
    ensures var t := Text(c.doc);
      Text(BackspaceRun(c, k).doc) == t[..c.at - k] + t[c.at..]
    decreases k
  {
    if k == 0 {
      assert Text(c.doc)[..c.at] + Text(c.doc)[c.at..] == Text(c.doc);
    } else {
      var j: nat := k - 1;
      var c1 := BackspaceAt(c);
      assert CaretOk(c1) && j <= c1.at;
      BackspaceRunText(c1, j);
      BackspaceTextStep(c, k, j);
    }
  }

  /** The inductive step of `BackspaceRunText`: its claim for `k - 1`
      backspaces after the first one gives its claim for `k`. */
  lemma BackspaceTextStep(c: Caret, k: nat, j: nat)
    requires CaretOk(c) && k == j + 1 <= c.at
    requires var c1 := BackspaceAt(c); var t1 := Text(c1.doc);
      Text(BackspaceRun(c1, j).doc) == t1[..c1.at - j] + t1[c1.at..]
    ensures var t := Text(c.doc);
      Text(BackspaceRun(c, k).doc) == t[..c.at - k] + t[c.at..]
  {
    var c1 := BackspaceAt(c);
    var t, t1 := Text(c.doc), Text(c1.doc);
    assert c1.at == c.at - 1 && t1 == t[..c.at - 1] + t[c.at..];
    var u := Text(BackspaceRun(c1, j).doc);
    RemoveRemove(t, c.at, k, t1, u);
    BackspaceUnfold(c, k, j);
  }

  lemma BackspaceUnfold(c: Caret, k: nat, j: nat)
    requires CaretOk(c) && k == j + 1
    ensures BackspaceRun(c, k) == BackspaceRun(BackspaceAt(c), j)
  {
  }

  lemma InsertInsert(t: string, at: nat, cs: string, t1: string, u: string)
    requires at <= |t| && cs != []
    requires t1 == t[..at] + [cs[0]] + t[at..]
    requires u == t1[..at + 1] + cs[1..] + t1[at + 1..]
    ensures u == t[..at] + cs + t[at..]
  {
    assert t1[..at + 1] == t[..at] + [cs[0]];
    assert t1[at + 1..] == t[at..];
    assert cs == [cs[0]] + cs[1..];
  }

  lemma RemoveRemove(t: string, at: nat, k: nat, t1: string, u: string)
    requires 0 < k <= at <= |t|
    requires t1 == t[..at - 1] + t[at..]
    requires u == t1[..at - 1 - (k - 1)] + t1[at - 1..]
    ensures u == t[..at - k] + t[at..]
  {
    assert t1[..at - k] == t[..at - k];
    assert t1[at - 1..] == t[at..];
  }

  /** Typing a run of characters and then pressing backspace as many times
      gives back the document as it was, cursor included. */
  lemma TypeThenBackspaceRestores(c: Caret, cs: string)
    requires CaretOk(c)
    ensures var typed := TypeRun(c, cs);
      CaretOk(typed) && BackspaceRun(typed, |cs|) == c
  {
    var t := Text(c.doc);
    var typed := TypeRun(c, cs);
    var t1 := Text(typed.doc);
    assert t1 == t[..c.at] + cs + t[c.at..] && typed.at == c.at + |cs| by {
      TypeRunText(c, cs);
    }
    var r := BackspaceRun(typed, |cs|);
    assert r.at == c.at by {
      BackspaceRunCursor(typed, |cs|);
    }
    assert Text(r.doc) == t1[..typed.at - |cs|] + t1[typed.at..] by {
      BackspaceRunText(typed, |cs|);
    }
    Unwrap(t, c.at, cs, t1, Text(r.doc));
    SameText(r.doc, c.doc);
  }

  /** Well-formed documents with the same text are the same document. */
  lemma SameText(d1: Lines, d2: Lines)
    requires WellFormed(d1) && WellFormed(d2) && Text(d1) == Text(d2)
    ensures d1 == d2
  {
    SplitText(d1);
    SplitText(d2);
  }

  lemma Unwrap(t: string, at: nat, cs: string, t1: string, u: string)
    requires at <= |t| && t1 == t[..at] + cs + t[at..]
    requires u == t1[..at] + t1[at + |cs|..]
    ensures u == t
  {
    assert t1[..at] == t[..at];
    assert t1[at + |cs|..] == t[at..];
  }

  /** After fresh staging, `N` printable keystrokes put exactly the first `N`
      staged characters into the document at the cursor; then `N` presses of
      backspace restore both the document and the mapping. */
  lemma FreshStagingDocument(s: Staging.Snapshot, ed: Staging.Editor, content: string, name: string, texts: seq<string>, c: Caret)
    requires s.queue == [] && Staging.Printable(texts) <= |content|
    requires ed.uri in s.files && s.files[ed.uri] == Staging.FileContent(content, 0, name)
    requires CaretOk(c)
    ensures var r, n := Staging.Keystrokes(s, true, ed, texts), Staging.Printable(texts);
      var typed, t := TypeRun(c, content[..n]), Text(c.doc);
      && Staging.SubstitutedChars(r.effects) == Staging.SubstitutedChars(s.effects) + content[..n]
      && CaretOk(typed)
      && Text(typed.doc) == t[..c.at] + content[..n] + t[c.at..]
      && BackspaceRun(typed, n) == c
      && Staging.Rewinds(r.files, true, ed.uri, n) == s.files
  {
    var n := Staging.Printable(texts);
    Staging.FreshStagingTypesPrefix(s, ed, content, name, texts);
    TypeRunText(c, content[..n]);
    TypeThenBackspaceRestores(c, content[..n]);
    Staging.TypeThenDeleteRestores(s, ed, texts);
  }
}
