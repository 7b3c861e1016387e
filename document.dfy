/** The editor document as the extension's edit callbacks see it: a sequence of
    lines addressed by (line, character) positions. The text of the document is
    its lines joined by line breaks; every edit the extension issues replaces
    the text between two positions, and the lemmas here state what that does
    to the text. */
module Document {

  /** A document: at least one line, no line break inside a line. */
  type Lines = seq<string>

  predicate WellFormed(doc: Lines) {
    |doc| >= 1 && forall i :: 0 <= i < |doc| ==> '\n' !in doc[i]
  }

  /** The text of the document: its lines joined by line breaks. */
  function Text(doc: Lines): string
    requires |doc| >= 1
  {
    if |doc| == 1 then doc[0] else doc[0] + "\n" + Text(doc[1..])
  }

  lemma TextCons(l: string, rest: Lines)
    requires |rest| >= 1
    ensures Text([l] + rest) == l + "\n" + Text(rest)
  {
    assert ([l] + rest)[1..] == rest;
  }

  lemma ConsWellFormed(l: string, rest: Lines)
    requires '\n' !in l && WellFormed(rest)
    ensures WellFormed([l] + rest)
  {
    var d := [l] + rest;
    forall i | 0 <= i < |d| ensures '\n' !in d[i] {
      if i > 0 {
        assert d[i] == rest[i - 1];
      }
    }
  }

  lemma TailWellFormed(doc: Lines)
    requires WellFormed(doc) && |doc| >= 2
    ensures WellFormed(doc[1..])
  {
    forall i | 0 <= i < |doc| - 1 ensures '\n' !in doc[1..][i] {
      assert doc[1..][i] == doc[i + 1];
    }
  }

  /** The text of two runs of lines put together. */
  lemma {:induction false} TextAppend(a: Lines, b: Lines)
    requires |a| >= 1
    ensures Text(a + b) == Text(a) + (if b == [] then "" else "\n" + Text(b))
  {
    if b == [] {
      assert a + b == a;
    } else if |a| == 1 {
      assert a + b == [a[0]] + b;
      TextCons(a[0], b);
    } else {
      TextAppend(a[1..], b);
      assert a + b == [a[0]] + (a[1..] + b);
      TextCons(a[0], a[1..] + b);
    }
  }

  /** A character in front of the first line is a character in front of the text. */
  lemma PrependText(c: char, d: Lines)
    requires |d| >= 1
    ensures Text([[c] + d[0]] + d[1..]) == [c] + Text(d)
  {
    var l, rest := d[0], d[1..];
    assert d == [l] + rest;
    if rest == [] {
      PrependLine(c, l);
    } else {
      PrependLines(c, l, rest);
    }
  }

  lemma PrependLine(c: char, l: string)
    ensures Text([[c] + l]) == [c] + Text([l])
  {
  }

  lemma PrependLines(c: char, l: string, rest: Lines)
    requires |rest| >= 1
    ensures Text([[c] + l] + rest) == [c] + Text([l] + rest)
  {
    TextCons([c] + l, rest);
    TextCons(l, rest);
  }

  lemma PrependWellFormed(c: char, d: Lines)
    requires c != '\n' && WellFormed(d)
    ensures WellFormed([[c] + d[0]] + d[1..])
  {
    var d' := [[c] + d[0]] + d[1..];
    assert '\n' !in [c] + d[0];
    forall i | 0 <= i < |d'| ensures '\n' !in d'[i] {
      if i > 0 {
        assert d'[i] == d[i];
      }
    }
  }

  /** The lines of a text: `Split(x)` is the document whose text is `x`. */
  function Split(x: string): (r: Lines)
    ensures WellFormed(r)
    ensures Text(r) == x
  {
    if x == [] then [[]]
    else
      var rest := Split(x[1..]);
      if x[0] == '\n' then
        TextCons([], rest);
        ConsWellFormed([], rest);
        assert x == "\n" + x[1..];
        [[]] + rest
      else
        PrependText(x[0], rest);
        PrependWellFormed(x[0], rest);
        assert x == [x[0]] + x[1..];
        [[x[0]] + rest[0]] + rest[1..]
  }

  /** A document is determined by its text. */
  lemma {:induction false} SplitText(doc: Lines)
    requires WellFormed(doc)
    ensures Split(Text(doc)) == doc
    decreases |doc|, |doc[0]|
  {
    if |doc| == 1 {
      SplitLine(doc[0]);
    } else if doc[0] == [] {
      var t := Text(doc[1..]);
      assert Text(doc) == "\n" + t;
      TailWellFormed(doc);
      SplitText(doc[1..]);
      assert ("\n" + t)[1..] == t;
      assert doc == [[]] + doc[1..];
    } else {
      var c := doc[0][0];
      var d := [doc[0][1..]] + doc[1..];
      assert doc[0] == [c] + d[0];
      assert doc == [[c] + d[0]] + d[1..];
      assert '\n' !in d[0] by { assert forall i :: 0 <= i < |d[0]| ==> d[0][i] == doc[0][i + 1]; }
      TailWellFormed(doc);
      ConsWellFormed(d[0], doc[1..]);
      PrependText(c, d);
      SplitText(d);
      assert ([c] + Text(d))[1..] == Text(d);
    }
  }

  lemma {:induction false} SplitLine(line: string)
    requires '\n' !in line
    ensures Split(line) == [line]
  {
    if line != [] {
      assert '\n' !in line[1..] by { assert forall i :: 0 <= i < |line[1..]| ==> line[1..][i] == line[i + 1]; }
      SplitLine(line[1..]);
      assert [line[0]] + line[1..] == line;
    }
  }

  /** A position: a line number and a character offset within the line. */
  datatype Pos = Pos(line: nat, col: nat)

  predicate ValidPos(doc: Lines, p: Pos) {
    p.line < |doc| && p.col <= |doc[p.line]|
  }

  /** `p` is at or before `q` in the document. */
  predicate Before(p: Pos, q: Pos) {
    p.line < q.line || (p.line == q.line && p.col <= q.col)
  }

  /** A range between two positions; a selection is a range, empty when its
      two ends coincide. */
  datatype Range = Range(start: Pos, end: Pos) {
    predicate IsEmpty() { start == end }
  }

  predicate ValidRange(doc: Lines, r: Range) {
    ValidPos(doc, r.start) && ValidPos(doc, r.end) && Before(r.start, r.end)
  }

  /** The index in the text where line `l` begins. */
  function LineStart(doc: Lines, l: nat): (k: nat)
    requires l < |doc|
    ensures k + |doc[l]| <= |Text(doc)|
  {
    if l == 0 then 0 else |doc[0]| + 1 + LineStart(doc[1..], l - 1)
  }

  /** Consecutive lines are one line break apart. */
  lemma {:induction false} LineStartNext(doc: Lines, l: nat)
    requires l + 1 < |doc|
    ensures LineStart(doc, l + 1) == LineStart(doc, l) + |doc[l]| + 1
  {
    if l > 0 {
      LineStartNext(doc[1..], l - 1);
    }
  }

  /** Only the last line ends where the text ends. */
  lemma {:induction false} LineEnd(doc: Lines, l: nat)
    requires l < |doc|
    ensures LineStart(doc, l) + |doc[l]| == |Text(doc)| <==> l == |doc| - 1
  {
    if l > 0 {
      LineEnd(doc[1..], l - 1);
    }
  }

  /** The index of a position in the text of the document. */
  function Offset(doc: Lines, p: Pos): (k: nat)
    requires ValidPos(doc, p)
    ensures k <= |Text(doc)|
  {
    LineStart(doc, p.line) + p.col
  }

  /** What follows line `l` in the text: nothing after the last line,
      otherwise a line break and the remaining lines. */
  function After(doc: Lines, l: nat): string
    requires l < |doc|
  {
    if l + 1 == |doc| then "" else "\n" + Text(doc[l + 1..])
  }

  /** The text splits at a position into what stands before it and the rest of
      its line followed by the lines after it. */
  lemma {:induction false} TextFrom(doc: Lines, p: Pos)
    requires ValidPos(doc, p)
    ensures Text(doc)[Offset(doc, p)..] == doc[p.line][p.col..] + After(doc, p.line)
  {
    if p.line == 0 {
      TextFromFirst(doc, p.col);
    } else {
      var p' := Pos(p.line - 1, p.col);
      TextFrom(doc[1..], p');
      TextFromTail(doc, p);
    }
  }

  lemma TextFromFirst(doc: Lines, c: nat)
    requires |doc| >= 1 && c <= |doc[0]|
    ensures Text(doc)[c..] == doc[0][c..] + After(doc, 0)
  {
    assert Text(doc) == doc[0] + After(doc, 0);
  }

  lemma TextFromTail(doc: Lines, p: Pos)
    requires ValidPos(doc, p) && p.line > 0
    requires var d, p' := doc[1..], Pos(p.line - 1, p.col);
      Text(d)[Offset(d, p')..] == d[p'.line][p'.col..] + After(d, p'.line)
    ensures Text(doc)[Offset(doc, p)..] == doc[p.line][p.col..] + After(doc, p.line)
  {
    var d, p' := doc[1..], Pos(p.line - 1, p.col);
    var h, x, o := doc[0] + "\n", Text(d), Offset(d, p');
    assert After(d, p'.line) == After(doc, p.line) by {
      assert d[p.line..] == doc[p.line + 1..];
    }
    assert Text(doc) == h + x;
    assert Offset(doc, p) == |h| + o;
    assert (h + x)[|h| + o..] == x[o..];
  }

  lemma TextFromStart(doc: Lines)
    requires |doc| >= 1
    ensures Text(doc)[..|doc[0]|] == doc[0]
  {
  }

  lemma {:induction false} OffsetMonotone(doc: Lines, p: Pos, q: Pos)
    requires ValidPos(doc, p) && ValidPos(doc, q) && Before(p, q)
    ensures Offset(doc, p) <= Offset(doc, q)
    ensures p != q ==> Offset(doc, p) < Offset(doc, q)
  {
    if p.line > 0 {
      OffsetMonotone(doc[1..], Pos(p.line - 1, p.col), Pos(q.line - 1, q.col));
    }
  }

  /** Every index of the text is the offset of some position. */
  function PosOf(doc: Lines, k: nat): (p: Pos)
    requires |doc| >= 1 && k <= |Text(doc)|
    ensures ValidPos(doc, p) && Offset(doc, p) == k
  {
    if k <= |doc[0]| then Pos(0, k)
    else
      var p := PosOf(doc[1..], k - |doc[0]| - 1);
      Pos(p.line + 1, p.col)
  }

  /** Replace the text between `s` and `e` by `t`. */
  function Splice(doc: Lines, s: Pos, e: Pos, t: string): Lines
    requires ValidPos(doc, s) && ValidPos(doc, e) && Before(s, e)
  {
    doc[..s.line] + Split(doc[s.line][..s.col] + t + doc[e.line][e.col..]) + doc[e.line + 1..]
  }

  lemma {:induction false} SpliceText(doc: Lines, s: Pos, e: Pos, t: string)
    requires WellFormed(doc)
    requires ValidPos(doc, s) && ValidPos(doc, e) && Before(s, e)
    ensures WellFormed(Splice(doc, s, e, t))
    ensures Text(Splice(doc, s, e, t)) == Text(doc)[..Offset(doc, s)] + t + Text(doc)[Offset(doc, e)..]
  {
    SpliceWellFormed(doc, s, e, t);
    if s.line == 0 {
      SpliceFirstLine(doc, s, e, t);
    } else {
      var s', e' := Pos(s.line - 1, s.col), Pos(e.line - 1, e.col);
      TailWellFormed(doc);
      SpliceText(doc[1..], s', e', t);
      SpliceTail(doc, s, e, t);
    }
  }

  lemma SpliceFirstLine(doc: Lines, s: Pos, e: Pos, t: string)
    requires s.line == 0
    requires ValidPos(doc, s) && ValidPos(doc, e) && Before(s, e)
    ensures Text(Splice(doc, s, e, t)) == Text(doc)[..Offset(doc, s)] + t + Text(doc)[Offset(doc, e)..]
  {
    var head, tail, rest := doc[0][..s.col], doc[e.line][e.col..], After(doc, e.line);
    var m, b := Split(head + t + tail), doc[e.line + 1..];
    assert Text(Splice(doc, s, e, t)) == head + t + (tail + rest) by {
      assert doc[..s.line] == [];
      assert Splice(doc, s, e, t) == m + b;
      TextAppend(m, b);
    }
    assert Text(doc)[Offset(doc, e)..] == tail + rest by {
      TextFrom(doc, e);
    }
    assert Text(doc)[..Offset(doc, s)] == head by {
      TextFromStart(doc);
    }
  }

  lemma SpliceTail(doc: Lines, s: Pos, e: Pos, t: string)
    requires WellFormed(doc) && s.line > 0
    requires ValidPos(doc, s) && ValidPos(doc, e) && Before(s, e)
    requires var s', e' := Pos(s.line - 1, s.col), Pos(e.line - 1, e.col);
      var d := doc[1..];
      Text(Splice(d, s', e', t)) == Text(d)[..Offset(d, s')] + t + Text(d)[Offset(d, e')..]
    ensures Text(Splice(doc, s, e, t)) == Text(doc)[..Offset(doc, s)] + t + Text(doc)[Offset(doc, e)..]
  {
    var s', e' := Pos(s.line - 1, s.col), Pos(e.line - 1, e.col);
    var d := doc[1..];
    var h := doc[0] + "\n";
    var x, o1, o2 := Text(d), Offset(d, s'), Offset(d, e');
    var inner := Splice(d, s', e', t);
    assert Text(Splice(doc, s, e, t)) == h + Text(inner) by {
      SpliceShift(doc, s, e, t);
      TextCons(doc[0], inner);
    }
    assert Text(doc) == h + x;
    assert Offset(doc, s) == |h| + o1 && Offset(doc, e) == |h| + o2;
    assert o1 <= o2 by {
      OffsetMonotone(d, s', e');
    }
    Reassemble(Text(Splice(doc, s, e, t)), h, Text(inner), x, o1, o2, t, Text(doc), Offset(doc, s), Offset(doc, e));
  }

  lemma Reassemble(a: string, h: string, i: string, x: string, o1: nat, o2: nat, t: string, y: string, m: nat, n: nat)
    requires o1 <= o2 <= |x|
    requires a == h + i && i == x[..o1] + t + x[o2..]
    requires y == h + x && m == |h| + o1 && n == |h| + o2
    ensures a == y[..m] + t + y[n..]
  {
    SliceAround(h, x, o1, o2, t);
  }

  /** Splicing below the first line leaves the first line in front. */
  lemma SpliceShift(doc: Lines, s: Pos, e: Pos, t: string)
    requires s.line > 0
    requires ValidPos(doc, s) && ValidPos(doc, e) && Before(s, e)
    ensures Splice(doc, s, e, t) == [doc[0]] + Splice(doc[1..], Pos(s.line - 1, s.col), Pos(e.line - 1, e.col), t)
  {
    var d := doc[1..];
    assert d[s.line - 1] == doc[s.line] && d[e.line - 1] == doc[e.line];
    assert doc[..s.line] == [doc[0]] + d[..s.line - 1];
    assert d[e.line..] == doc[e.line + 1..];
  }

  lemma SliceAround(h: string, x: string, i: nat, j: nat, t: string)
    requires i <= j <= |x|
    ensures (h + x)[..|h| + i] + t + (h + x)[|h| + j..] == h + (x[..i] + t + x[j..])
  {
    assert (h + x)[..|h| + i] == h + x[..i];
    assert (h + x)[|h| + j..] == x[j..];
  }

  lemma SpliceWellFormed(doc: Lines, s: Pos, e: Pos, t: string)
    requires WellFormed(doc)
    requires ValidPos(doc, s) && ValidPos(doc, e) && Before(s, e)
    ensures WellFormed(Splice(doc, s, e, t))
  {
    var a, mid, b := doc[..s.line], Split(doc[s.line][..s.col] + t + doc[e.line][e.col..]), doc[e.line + 1..];
    var r := a + mid + b;
    forall i | 0 <= i < |r| ensures '\n' !in r[i] {
      if i < |a| {
        assert r[i] == doc[i];
      } else if i >= |a| + |mid| {
        assert r[i] == doc[i - |a| - |mid| + e.line + 1];
      } else {
        assert r[i] == mid[i - |a|];
      }
    }
  }

  /** The text a range covers (`document.getText(range)`). */
  function TextIn(doc: Lines, r: Range): string
    requires ValidRange(doc, r)
  {
    OffsetMonotone(doc, r.start, r.end);
    Text(doc)[Offset(doc, r.start)..Offset(doc, r.end)]
  }

  /** The three edits an edit callback can issue. */
  datatype EditOp =
    | Insert(at: Pos, text: string)
    | Replace(range: Range, text: string)
    | Delete(range: Range)
  {
    function From(): Pos {
      match this
      case Insert(p, _) => p
      case Replace(r, _) => r.start
      case Delete(r) => r.start
    }
    function To(): Pos {
      match this
      case Insert(p, _) => p
      case Replace(r, _) => r.end
      case Delete(r) => r.end
    }
    function NewText(): string {
      match this
      case Insert(_, t) => t
      case Replace(_, t) => t
      case Delete(_) => ""
    }
  }

  predicate ValidOp(doc: Lines, op: EditOp) {
    ValidPos(doc, op.From()) && ValidPos(doc, op.To()) && Before(op.From(), op.To())
  }

  /** Applying one edit: the text between its two ends gives way to its new text. */
  function ApplyOp(doc: Lines, op: EditOp): (r: Lines)
    requires WellFormed(doc) && ValidOp(doc, op)
    ensures WellFormed(r)
    ensures Text(r) == Text(doc)[..Offset(doc, op.From())] + op.NewText() + Text(doc)[Offset(doc, op.To())..]
  {
    SpliceText(doc, op.From(), op.To(), op.NewText());
    Splice(doc, op.From(), op.To(), op.NewText())
  }
}
