/** The edit lists the extension's edit callbacks build: one edit per selection.
    Typing a staged character inserts it at an empty selection and replaces a
    non-empty one; `deleteLeft` and `deleteRight` remove one character beside an
    empty selection (a line break at a line boundary, nothing at the start or
    end of the document) and the whole of a non-empty one. Each edit's meaning
    is stated on the text of the document. */
module EditBuilder {
  import opened Wrappers
  import opened Document

  predicate ValidSelections(doc: Lines, sels: seq<Range>) {
    forall i :: 0 <= i < |sels| ==> ValidRange(doc, sels[i])
  }

  function SubstitutionOp(sel: Range, c: char): EditOp {
    if sel.IsEmpty() then Insert(sel.start, [c]) else Replace(sel, [c])
  }

  /** The callback passed to `editor.edit` when a staged character `c` is typed. */
  function SubstitutionEdits(sels: seq<Range>, c: char): (ops: seq<EditOp>)
    ensures |ops| == |sels|
    ensures forall i :: 0 <= i < |sels| ==>
      ops[i].From() == sels[i].start && ops[i].To() == sels[i].end && ops[i].NewText() == [c]
  {
    if sels == [] then [] else [SubstitutionOp(sels[0], c)] + SubstitutionEdits(sels[1..], c)
  }

  /** Typing a staged character over one selection leaves the text with the
      selection's contents replaced by that single character. */
  lemma SubstitutionReplacesSelection(doc: Lines, sel: Range, c: char)
    requires WellFormed(doc) && ValidRange(doc, sel)
    ensures ValidOp(doc, SubstitutionOp(sel, c))
    ensures var t := Text(doc);
      Text(ApplyOp(doc, SubstitutionOp(sel, c))) == t[..Offset(doc, sel.start)] + [c] + t[Offset(doc, sel.end)..]
  {
  }

  /** The `deleteLeft` callback's edit for one selection. */
  function DeleteLeftOp(doc: Lines, sel: Range): (r: Option<EditOp>)
    requires ValidRange(doc, sel)
    ensures r.Some? ==> ValidOp(doc, r.value) && r.value.Delete?
  {
    if sel.IsEmpty() then
      var p := sel.start;
      if p.col > 0 then Some(Delete(Range(Pos(p.line, p.col - 1), p)))
      else if p.line > 0 then Some(Delete(Range(Pos(p.line - 1, |doc[p.line - 1]|), Pos(p.line, 0))))
      else None
    else Some(Delete(sel))
  }

  /** The `deleteRight` callback's edit for one selection. */
  function DeleteRightOp(doc: Lines, sel: Range): (r: Option<EditOp>)
    requires ValidRange(doc, sel)
    ensures r.Some? ==> ValidOp(doc, r.value) && r.value.Delete?
  {
    if sel.IsEmpty() then
      var p := sel.start;
      if p.col < |doc[p.line]| then Some(Delete(Range(p, Pos(p.line, p.col + 1))))
      else if p.line < |doc| - 1 then Some(Delete(Range(p, Pos(p.line + 1, 0))))
      else None
    else Some(Delete(sel))
  }

  function Present(r: Option<EditOp>): seq<EditOp> {
    if r.Some? then [r.value] else []
  }

  /** The edits `deleteLeft` issues: a deletion for each selection that has
      something to delete, and nothing else. */
  function DeleteLeftEdits(doc: Lines, sels: seq<Range>): (ops: seq<EditOp>)
    requires ValidSelections(doc, sels)
    ensures |ops| <= |sels|
    ensures forall i :: 0 <= i < |ops| ==> ValidOp(doc, ops[i]) && ops[i].Delete?
    ensures forall i :: 0 <= i < |ops| ==> exists j :: 0 <= j < |sels| && DeleteLeftOp(doc, sels[j]) == Some(ops[i])
    ensures forall j :: 0 <= j < |sels| && DeleteLeftOp(doc, sels[j]).Some? ==> DeleteLeftOp(doc, sels[j]).value in ops
  {
    if sels == [] then []
    else
      var head, rest := Present(DeleteLeftOp(doc, sels[0])), DeleteLeftEdits(doc, sels[1..]);
      assert forall j :: 1 <= j < |sels| ==> sels[j] == sels[1..][j - 1];
      assert forall i :: 0 <= i < |rest| ==> (head + rest)[|head| + i] == rest[i];
      head + rest
  }

  /** The edits `deleteRight` issues: a deletion for each selection that has
      something to delete, and nothing else. */
  function DeleteRightEdits(doc: Lines, sels: seq<Range>): (ops: seq<EditOp>)
    requires ValidSelections(doc, sels)
    ensures |ops| <= |sels|
    ensures forall i :: 0 <= i < |ops| ==> ValidOp(doc, ops[i]) && ops[i].Delete?
    ensures forall i :: 0 <= i < |ops| ==> exists j :: 0 <= j < |sels| && DeleteRightOp(doc, sels[j]) == Some(ops[i])
    ensures forall j :: 0 <= j < |sels| && DeleteRightOp(doc, sels[j]).Some? ==> DeleteRightOp(doc, sels[j]).value in ops
  {
    if sels == [] then []
    else
      var head, rest := Present(DeleteRightOp(doc, sels[0])), DeleteRightEdits(doc, sels[1..]);
      assert forall j :: 1 <= j < |sels| ==> sels[j] == sels[1..][j - 1];
      assert forall i :: 0 <= i < |rest| ==> (head + rest)[|head| + i] == rest[i];
      head + rest
  }

  /** The last position of line `l` lies one character before the first
      position of line `l + 1`: the line break between them. */
  lemma LineBreakOffset(doc: Lines, l: nat)
    requires l + 1 < |doc|
    ensures Offset(doc, Pos(l + 1, 0)) == Offset(doc, Pos(l, |doc[l]|)) + 1
  {
    LineStartNext(doc, l);
  }

  lemma OffsetZero(doc: Lines, p: Pos)
    requires ValidPos(doc, p)
    ensures Offset(doc, p) == 0 <==> p == Pos(0, 0)
  {
  }

  lemma OffsetEnd(doc: Lines, p: Pos)
    requires ValidPos(doc, p)
    ensures Offset(doc, p) == |Text(doc)| <==> p == Pos(|doc| - 1, |doc[|doc| - 1]|)
  {
    LineEnd(doc, p.line);
  }

  /** Backspace on a selection: an empty one loses the character before it
      (the line break when it stands at the start of a line) and nothing
      happens at the start of the document; a non-empty one loses its whole
      contents. */
  lemma DeleteLeftMeaning(doc: Lines, sel: Range)
    requires WellFormed(doc) && ValidRange(doc, sel)
    ensures var o, t, r := Offset(doc, sel.start), Text(doc), DeleteLeftOp(doc, sel);
      && (sel.IsEmpty() ==> (r.None? <==> o == 0))
      && (sel.IsEmpty() && r.Some? ==> 0 < o && Text(ApplyOp(doc, r.value)) == t[..o - 1] + t[o..])
      && (!sel.IsEmpty() ==> r.Some? && Text(ApplyOp(doc, r.value)) == t[..o] + t[Offset(doc, sel.end)..])
  {
    var p := sel.start;
    if !sel.IsEmpty() {
      DeleteSelection(doc, sel);
    } else if p.col > 0 {
      DeleteCharBefore(doc, p);
    } else if p.line > 0 {
      DeleteBreakBefore(doc, p);
    } else {
      OffsetZero(doc, p);
    }
  }

  /** With one selection, `deleteLeft` issues at most one edit: none exactly
      when the cursor stands at the start of the document, otherwise one that
      removes the character before the cursor or the selected text. */
  lemma DeleteLeftSingle(doc: Lines, sel: Range)
    requires WellFormed(doc) && ValidRange(doc, sel)
    ensures var ops, o, t := DeleteLeftEdits(doc, [sel]), Offset(doc, sel.start), Text(doc);
      && |ops| <= 1
      && (ops == [] <==> sel.IsEmpty() && o == 0)
      && (ops != [] && sel.IsEmpty() ==> 0 < o && Text(ApplyOp(doc, ops[0])) == t[..o - 1] + t[o..])
      && (!sel.IsEmpty() ==> ops != [] && Text(ApplyOp(doc, ops[0])) == t[..o] + t[Offset(doc, sel.end)..])
  {
    assert [sel][1..] == [];
    assert DeleteLeftEdits(doc, [sel]) == Present(DeleteLeftOp(doc, sel));
    DeleteLeftMeaning(doc, sel);
  }

  /** With one selection, `deleteRight` issues at most one edit: none exactly
      when the cursor stands at the end of the document, otherwise one that
      removes the character after the cursor or the selected text. */
  lemma DeleteRightSingle(doc: Lines, sel: Range)
    requires WellFormed(doc) && ValidRange(doc, sel)
    ensures var ops, o, t := DeleteRightEdits(doc, [sel]), Offset(doc, sel.start), Text(doc);
      && |ops| <= 1
      && (ops == [] <==> sel.IsEmpty() && o == |t|)
      && (ops != [] && sel.IsEmpty() ==> o < |t| && Text(ApplyOp(doc, ops[0])) == t[..o] + t[o + 1..])
      && (!sel.IsEmpty() ==> ops != [] && Text(ApplyOp(doc, ops[0])) == t[..o] + t[Offset(doc, sel.end)..])
  {
    assert [sel][1..] == [];
    assert DeleteRightEdits(doc, [sel]) == Present(DeleteRightOp(doc, sel));
    DeleteRightMeaning(doc, sel);
  }

  lemma DeleteSelection(doc: Lines, sel: Range)
    requires WellFormed(doc) && ValidRange(doc, sel) && !sel.IsEmpty()
    ensures DeleteLeftOp(doc, sel) == Some(Delete(sel)) == DeleteRightOp(doc, sel)
    ensures var t := Text(doc);
      Text(ApplyOp(doc, Delete(sel))) == t[..Offset(doc, sel.start)] + t[Offset(doc, sel.end)..]
  {
  }

  lemma DeleteCharBefore(doc: Lines, p: Pos)
    requires WellFormed(doc) && ValidPos(doc, p) && p.col > 0
    ensures var op := Delete(Range(Pos(p.line, p.col - 1), p));
      && DeleteLeftOp(doc, Range(p, p)) == Some(op)
      && var o, t := Offset(doc, p), Text(doc);
      0 < o && Text(ApplyOp(doc, op)) == t[..o - 1] + t[o..]
  {
    var op := Delete(Range(Pos(p.line, p.col - 1), p));
    DeleteOne(doc, op, Offset(doc, op.From()));
  }

  lemma DeleteBreakBefore(doc: Lines, p: Pos)
    requires WellFormed(doc) && ValidPos(doc, p) && p.col == 0 && p.line > 0
    ensures var op := Delete(Range(Pos(p.line - 1, |doc[p.line - 1]|), p));
      && DeleteLeftOp(doc, Range(p, p)) == Some(op)
      && var o, t := Offset(doc, p), Text(doc);
      0 < o && Text(ApplyOp(doc, op)) == t[..o - 1] + t[o..]
  {
    var op := Delete(Range(Pos(p.line - 1, |doc[p.line - 1]|), p));
    BreakBefore(doc, p);
    DeleteOne(doc, op, Offset(doc, op.From()));
  }

  lemma BreakBefore(doc: Lines, p: Pos)
    requires ValidPos(doc, p) && p.col == 0 && p.line > 0
    ensures var op := Delete(Range(Pos(p.line - 1, |doc[p.line - 1]|), p));
      && DeleteLeftOp(doc, Range(p, p)) == Some(op)
      && ValidOp(doc, op) && op.NewText() == []
      && Offset(doc, op.From()) + 1 == Offset(doc, p)
  {
    LineBreakOffset(doc, p.line - 1);
    assert p == Pos(p.line, 0);
  }

  /** A deletion spanning one index of the text removes exactly that character. */
  lemma DeleteOne(doc: Lines, op: EditOp, k: nat)
    requires WellFormed(doc) && ValidOp(doc, op) && op.NewText() == []
    requires Offset(doc, op.From()) == k && Offset(doc, op.To()) == k + 1
    ensures var t := Text(doc); k < |t| && Text(ApplyOp(doc, op)) == t[..k] + t[k + 1..]
  {
    var t := Text(doc);
    assert Text(ApplyOp(doc, op)) == t[..k] + [] + t[k + 1..];
    assert t[..k] + [] == t[..k];
  }

  /** Delete on a selection: an empty one loses the character after it (the
      line break when it stands at the end of a line) and nothing happens at
      the end of the document; a non-empty one loses its whole contents. */
  lemma DeleteRightMeaning(doc: Lines, sel: Range)
    requires WellFormed(doc) && ValidRange(doc, sel)
    ensures var o, t, r := Offset(doc, sel.start), Text(doc), DeleteRightOp(doc, sel);
      && (sel.IsEmpty() ==> (r.None? <==> o == |t|))
      && (sel.IsEmpty() && r.Some? ==> o < |t| && Text(ApplyOp(doc, r.value)) == t[..o] + t[o + 1..])
      && (!sel.IsEmpty() ==> r.Some? && Text(ApplyOp(doc, r.value)) == t[..o] + t[Offset(doc, sel.end)..])
  {
    var p := sel.start;
    if !sel.IsEmpty() {
      DeleteSelection(doc, sel);
    } else if p.col < |doc[p.line]| {
      DeleteCharAfter(doc, p);
    } else if p.line < |doc| - 1 {
      DeleteBreakAfter(doc, p);
    } else {
      OffsetEnd(doc, p);
    }
  }

  lemma DeleteCharAfter(doc: Lines, p: Pos)
    requires WellFormed(doc) && ValidPos(doc, p) && p.col < |doc[p.line]|
    ensures var op := Delete(Range(p, Pos(p.line, p.col + 1)));
      && DeleteRightOp(doc, Range(p, p)) == Some(op)
      && var o, t := Offset(doc, p), Text(doc);
      o < |t| && Text(ApplyOp(doc, op)) == t[..o] + t[o + 1..]
  {
    var op := Delete(Range(p, Pos(p.line, p.col + 1)));
    DeleteOne(doc, op, Offset(doc, p));
  }

  lemma DeleteBreakAfter(doc: Lines, p: Pos)
    requires WellFormed(doc) && ValidPos(doc, p) && p.col == |doc[p.line]| && p.line < |doc| - 1
    ensures var op := Delete(Range(p, Pos(p.line + 1, 0)));
      && DeleteRightOp(doc, Range(p, p)) == Some(op)
      && var o, t := Offset(doc, p), Text(doc);
      o < |t| && Text(ApplyOp(doc, op)) == t[..o] + t[o + 1..]
  {
    BreakAfter(doc, p);
    DeleteOne(doc, Delete(Range(p, Pos(p.line + 1, 0))), Offset(doc, p));
  }

  lemma BreakAfter(doc: Lines, p: Pos)
    requires ValidPos(doc, p) && p.col == |doc[p.line]| && p.line < |doc| - 1
    ensures var op := Delete(Range(p, Pos(p.line + 1, 0)));
      && DeleteRightOp(doc, Range(p, p)) == Some(op)
      && ValidOp(doc, op) && op.NewText() == []
      && Offset(doc, op.To()) == Offset(doc, p) + 1
  {
    LineBreakOffset(doc, p.line);
    assert p == Pos(p.line, |doc[p.line]|);
  }
}
