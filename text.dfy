/** Pure string helpers of the fake-typing extension: the control-key test of the
    `type` override, JavaScript's `trim` emptiness test, the tree-view previews,
    the file-name extraction and decimal rendering used in status texts. */
module Text {

  /** The inputs the `type` override always hands to the editor's own typing
      command: Enter (as `\n`, `\r\n` or `\r`) and Tab. */
  predicate IsControlKey(text: string) {
    text == "\n" || text == "\r\n" || text == "\r" || text == "\t"
  }

  /** The characters JavaScript's `String.prototype.trim` removes: the
      WhiteSpace and LineTerminator code points of ECMAScript. */
  const JsWhitespace: set<char> := {
    '\t', '\n', '\U{000B}', '\U{000C}', '\r', ' ', '\U{00A0}', '\U{1680}',
    '\U{2000}', '\U{2001}', '\U{2002}', '\U{2003}', '\U{2004}', '\U{2005}',
    '\U{2006}', '\U{2007}', '\U{2008}', '\U{2009}', '\U{200A}',
    '\U{2028}', '\U{2029}', '\U{202F}', '\U{205F}', '\U{3000}', '\U{FEFF}'
  }

  predicate IsBlank(s: string) {
    forall i :: 0 <= i < |s| ==> s[i] in JsWhitespace
  }

  /** `s.trim()`: drops the leading whitespace, then the trailing whitespace. */
  function Trim(s: string): (r: string)
    ensures exists a, b :: 0 <= a <= b <= |s| && r == s[a..b] && IsBlank(s[..a]) && IsBlank(s[b..])
    ensures r == [] || (r[0] !in JsWhitespace && r[|r| - 1] !in JsWhitespace)
  {
    var a := LeadingBlanks(s);
    var b := |s| - TrailingBlanks(s[a..]);
    TrimEnds(s, a, b);
    s[a..b]
  }

  /** The cut points of `Trim` leave whitespace only outside and none at
      either end inside. */
  lemma TrimEnds(s: string, a: nat, b: int)
    requires a == LeadingBlanks(s) && b == |s| - TrailingBlanks(s[a..])
    ensures a <= b <= |s| && IsBlank(s[..a]) && IsBlank(s[b..])
    ensures a < b ==> s[a] !in JsWhitespace && s[b - 1] !in JsWhitespace
  {
    var t := s[a..];
    var k := TrailingBlanks(t);
    forall i | 0 <= i < |s[b..]| ensures s[b..][i] in JsWhitespace {
      assert s[b..][i] == t[|t| - k + i];
    }
    if a < b {
      assert s[b - 1] == t[|t| - k - 1];
    }
  }

  /** How many whitespace characters `s` starts with. */
  function LeadingBlanks(s: string): (k: nat)
    ensures k <= |s|
    ensures forall i :: 0 <= i < k ==> s[i] in JsWhitespace
    ensures k == |s| || s[k] !in JsWhitespace
  {
    if s == [] || s[0] !in JsWhitespace then 0 else 1 + LeadingBlanks(s[1..])
  }

  /** How many whitespace characters `s` ends with. */
  function TrailingBlanks(s: string): (k: nat)
    ensures k <= |s|
    ensures forall i :: |s| - k <= i < |s| ==> s[i] in JsWhitespace
    ensures k == |s| || s[|s| - k - 1] !in JsWhitespace
  {
    if s == [] || s[|s| - 1] !in JsWhitespace then 0 else 1 + TrailingBlanks(s[..|s| - 1])
  }

  /** The webview's `!content || !content.trim()` test: a text is rejected
      exactly when it consists of whitespace only (the empty text included). */
  lemma TrimEmptyIffBlank(s: string)
    ensures Trim(s) == [] <==> IsBlank(s)
  {
    var k := LeadingBlanks(s);
    if k < |s| {
      assert s[k] !in JsWhitespace;
      var t := s[k..];
      assert t[0] == s[k];
      assert TrailingBlanks(t) < |t|;
    }
  }

  /** `.replace(/\n/g, '↵')`. */
  function ShowNewlines(s: string): (r: string)
    ensures |r| == |s|
    ensures forall i :: 0 <= i < |s| ==> r[i] == (if s[i] == '\n' then '↵' else s[i])
    ensures '\n' !in r
  {
    if s == [] then [] else [if s[0] == '\n' then '↵' else s[0]] + ShowNewlines(s[1..])
  }

  function Min(a: int, b: int): int { if a <= b then a else b }

  /** `s.substring(0, width).replace(/\n/g, '↵') + (s.length > width ? '...' : '')`:
      the mapping preview uses width 50, the terminal-command preview width 30. */
  function Preview(s: string, width: nat): (r: string)
    ensures |s| <= width ==> |r| == |s|
    ensures width < |s| ==> |r| == width + 3 && r[width..] == "..."
    ensures forall i :: 0 <= i < Min(width, |s|) ==> r[i] == (if s[i] == '\n' then '↵' else s[i])
    ensures '\n' !in r
  {
    var shown := ShowNewlines(s[..Min(width, |s|)]);
    shown + (if |s| > width then "..." else "")
  }

  const MappingPreviewWidth: nat := 50
  const CommandPreviewWidth: nat := 30

  predicate IsSeparator(c: char) { c == '/' || c == '\\' }

  /** The last element of `path.split(/[/\\]/)`: the longest suffix of `path`
      that holds no path separator. */
  function LastSegment(path: string): (r: string)
    ensures |r| <= |path| && r == path[|path| - |r|..]
    ensures forall i :: 0 <= i < |r| ==> !IsSeparator(r[i])
    ensures |r| == |path| || IsSeparator(path[|path| - |r| - 1])
  {
    if path == [] then []
    else if IsSeparator(path[|path| - 1]) then []
    else LastSegment(path[..|path| - 1]) + [path[|path| - 1]]
  }

  /** `path.split(/[/\\]/)`: the pieces between separators, in order. */
  function SplitOnSeparators(path: string): (r: seq<string>)
    ensures |r| >= 1
  {
    if path == [] then [[]]
    else
      var init := SplitOnSeparators(path[..|path| - 1]);
      if IsSeparator(path[|path| - 1]) then init + [[]]
      else init[..|init| - 1] + [init[|init| - 1] + [path[|path| - 1]]]
  }

  /** `pop()` of the split returns exactly the separator-free suffix. */
  lemma {:induction false} PopIsLastSegment(path: string)
    ensures var parts := SplitOnSeparators(path); parts[|parts| - 1] == LastSegment(path)
  {
    if path != [] {
      PopIsLastSegment(path[..|path| - 1]);
    }
  }

  /** `path.split(/[/\\]/).pop() || fallback`. */
  function BaseName(path: string, fallback: string): (r: string)
    ensures LastSegment(path) != [] ==> r == LastSegment(path)
    ensures LastSegment(path) == [] ==> r == fallback
  {
    var parts := SplitOnSeparators(path);
    PopIsLastSegment(path);
    if parts[|parts| - 1] != [] then parts[|parts| - 1] else fallback
  }

  /** Decimal rendering of a number inside a template string. */
  function NatToString(n: nat): (r: string)
    ensures |r| >= 1
    ensures forall i :: 0 <= i < |r| ==> '0' <= r[i] <= '9'
    ensures |r| > 1 ==> r[0] != '0'
  {
    if n < 10 then [Digit(n)] else NatToString(n / 10) + [Digit(n % 10)]
  }

  function Digit(d: nat): (c: char)
    requires d < 10
    ensures '0' <= c <= '9'
  {
    ['0', '1', '2', '3', '4', '5', '6', '7', '8', '9'][d]
  }

  function DigitsValue(s: string): int
  {
    if s == [] then 0 else DigitsValue(s[..|s| - 1]) * 10 + ((s[|s| - 1] as int) - ('0' as int))
  }

  /** The rendering loses nothing: reading the digits back gives the number. */
  lemma {:induction false} NatToStringRoundTrip(n: nat)
    ensures DigitsValue(NatToString(n)) == n
  {
    var r := NatToString(n);
    if n < 10 {
      assert r[..0] == [];
    } else {
      NatToStringRoundTrip(n / 10);
      assert r[..|r| - 1] == NatToString(n / 10);
    }
  }

  function IntToString(i: int): string
  {
    if i >= 0 then NatToString(i) else "-" + NatToString(-i)
  }
}
