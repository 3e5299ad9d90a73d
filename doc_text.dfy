/** The text of a docstring as `ast.get_docstring` sees it: `inspect.cleandoc` (as in
    Python 3.12) written out step by step, and `BlankDoc`, a direct test on the raw text
    that is proved to say exactly when the cleaned text is empty. */
module DocText {
  import opened Wrappers

  /** Python's `str.isspace` for one character. */
  predicate IsSpace(c: char)
  {
    var n := c as int;
    (9 <= n <= 13) || (28 <= n <= 32) || n == 0x85 || n == 0xA0 || n == 0x1680
    || (0x2000 <= n <= 0x200A) || n == 0x2028 || n == 0x2029 || n == 0x202F
    || n == 0x205F || n == 0x3000
  }

  function Spaces(n: nat): (r: string)
    ensures |r| == n && forall i :: 0 <= i < n ==> r[i] == ' '
  {
    seq(n, _ => ' ')
  }

  /** `s.expandtabs()` with the text starting at column `col`: a tab becomes the spaces up
      to the next multiple of 8, and a newline or carriage return starts column 0 again. */
  function ExpandTabs(s: string, col: nat): string
  {
    if s == [] then []
    else if s[0] == '\t' then Spaces(8 - col % 8) + ExpandTabs(s[1..], col + 8 - col % 8)
    else [s[0]] + ExpandTabs(s[1..], if s[0] == '\n' || s[0] == '\r' then 0 else col + 1)
  }

  /** No tab is left after expansion, and the text only grows. */
  lemma {:induction false} ExpandTabsNoTabs(s: string, col: nat)
    ensures '\t' !in ExpandTabs(s, col) && |ExpandTabs(s, col)| >= |s|
  {
    if s != [] {
      var col' := if s[0] == '\t' then col + 8 - col % 8 else if s[0] == '\n' || s[0] == '\r' then 0 else col + 1;
      ExpandTabsNoTabs(s[1..], col');
    }
  }

  /** `s.split('\n')`: at least one line, none holding a newline. */
  function Split(s: string): (lines: seq<string>)
    ensures |lines| >= 1
    ensures forall i :: 0 <= i < |lines| ==> '\n' !in lines[i]
  {
    if s == [] then [""]
    else
      var rest := Split(s[1..]);
      if s[0] == '\n' then [""] + rest else [[s[0]] + rest[0]] + rest[1..]
  }

  /** `'\n'.join(lines)`. */
  function Join(lines: seq<string>): (r: string)
    ensures lines != [] ==> |lines[0]| <= |r| && r[..|lines[0]|] == lines[0]
  {
    if lines == [] then ""
    else if |lines| == 1 then lines[0]
    else lines[0] + "\n" + Join(lines[1..])
  }

  /** Splitting at the newlines and joining with newlines gives the text back. */
  lemma {:induction false} JoinSplit(s: string)
    ensures Join(Split(s)) == s
  {
    if s != [] {
      JoinSplit(s[1..]);
      var rest := Split(s[1..]);
      if s[0] == '\n' {
        assert s == "\n" + s[1..];
      } else if |rest| == 1 {
        assert s == [s[0]] + rest[0];
      } else {
        assert ([[s[0]] + rest[0]] + rest[1..])[1..] == rest[1..];
        assert s == [s[0]] + (rest[0] + "\n" + Join(rest[1..]));
      }
    }
  }

  /** `line.lstrip()`: the line without its leading whitespace. */
  function LStrip(line: string): (r: string)
    ensures |r| <= |line|
  {
    if line != [] && IsSpace(line[0]) then LStrip(line[1..]) else line
  }

  /** `lstrip` keeps a suffix of the line; what it removes is whitespace, and what it keeps
      does not start with whitespace. */
  lemma {:induction false} LStripRemovesSpace(line: string)
    ensures LStrip(line) == line[|line| - |LStrip(line)|..]
    ensures LStrip(line) == [] || !IsSpace(LStrip(line)[0])
    ensures forall i :: 0 <= i < |line| - |LStrip(line)| ==> IsSpace(line[i])
  {
    if line != [] && IsSpace(line[0]) {
      LStripRemovesSpace(line[1..]);
      assert forall i :: 1 <= i < |line| ==> line[i] == line[1..][i - 1];
    }
  }

  /** The width of the leading whitespace of a line. */
  function Indent(line: string): nat
  {
    |line| - |LStrip(line)|
  }

  /** The margin `cleandoc` removes from the lines after the first: the least indentation
      of a line with content, or `None` (Python's `sys.maxsize`) when no line has content. */
  function Margin(lines: seq<string>): Option<nat>
  {
    if lines == [] then None
    else
      var m := Margin(lines[1..]);
      if LStrip(lines[0]) == "" then m
      else Some(if m.Some? && m.value < Indent(lines[0]) then m.value else Indent(lines[0]))
  }

  /** No line with content is indented less than the margin (so there is a margin as soon
      as one line has content). */
  lemma {:induction false} MarginBelow(lines: seq<string>, i: nat)
    requires i < |lines| && LStrip(lines[i]) != ""
    ensures Margin(lines).Some? && Margin(lines).value <= Indent(lines[i])
  {
    if i > 0 {
      MarginBelow(lines[1..], i - 1);
      assert lines[1..][i - 1] == lines[i];
    }
  }

  /** A margin is the indentation of some line with content. */
  lemma {:induction false} MarginAttained(lines: seq<string>)
    requires Margin(lines).Some?
    ensures exists i :: 0 <= i < |lines| && LStrip(lines[i]) != "" && Margin(lines).value == Indent(lines[i])
  {
    var tail := lines[1..];
    var m := Margin(tail);
    if LStrip(lines[0]) != "" && (m.None? || m.value >= Indent(lines[0])) {
      assert Margin(lines).value == Indent(lines[0]);
    } else {
      MarginAttained(tail);
      var k :| 0 <= k < |tail| && LStrip(tail[k]) != "" && m.value == Indent(tail[k]);
      assert lines[k + 1] == tail[k];
    }
  }

  /** `line[margin:]`. */
  function DropPrefix(line: string, margin: nat): string
  {
    if margin <= |line| then line[margin..] else ""
  }

  /** The lines after the first, their margin removed. */
  function Dedent(lines: seq<string>, margin: Option<nat>): (r: seq<string>)
    ensures |r| == |lines|
  {
    match margin
    case None => lines
    case Some(m) => seq(|lines|, i requires 0 <= i < |lines| => DropPrefix(lines[i], m))
  }

  /** `while lines and not lines[-1]: lines.pop()`. */
  function DropTrailingEmpty(lines: seq<string>): (r: seq<string>)
    ensures r <= lines
    ensures r != [] ==> r[|r| - 1] != ""
    ensures forall i :: |r| <= i < |lines| ==> lines[i] == ""
  {
    if lines != [] && lines[|lines| - 1] == "" then DropTrailingEmpty(lines[..|lines| - 1]) else lines
  }

  /** `while lines and not lines[0]: lines.pop(0)`. */
  function DropLeadingEmpty(lines: seq<string>): (r: seq<string>)
    ensures |r| <= |lines| && r == lines[|lines| - |r|..]
    ensures forall i :: 0 <= i < |lines| - |r| ==> lines[i] == ""
    ensures r == [] || r[0] != ""
    ensures r == [] ==> forall i :: 0 <= i < |lines| ==> lines[i] == ""
  {
    if lines != [] && lines[0] == "" then
      var r := DropLeadingEmpty(lines[1..]);
      assert r == [] ==> forall i :: 1 <= i < |lines| ==> lines[i] == lines[1..][i - 1];
      r
    else lines
  }

  /** The lines of a docstring once the first is stripped and the margin is removed from
      the others. */
  function Dedented(lines: seq<string>): (r: seq<string>)
    requires |lines| >= 1
    ensures |r| == |lines|
  {
    var rest := lines[1..];
    [LStrip(lines[0])] + Dedent(rest, Margin(rest))
  }

  /** `inspect.cleandoc(doc)`. */
  function CleanDoc(doc: string): string
  {
    Join(DropLeadingEmpty(DropTrailingEmpty(Dedented(Split(ExpandTabs(doc, 0))))))
  }

  /** The cleaned text is empty: the first line is all whitespace, and every character
      after the first newline is a newline. */
  predicate BlankDoc(s: string)
  {
    forall i :: 0 <= i < |s| ==>
      IsSpace(s[i]) && (s[i] == '\n' ==> forall j :: i < j < |s| ==> s[j] == '\n')
  }

  predicate AllNewlines(s: string)
  {
    forall i :: 0 <= i < |s| ==> s[i] == '\n'
  }

  /** `cleandoc` gives the empty text exactly for the texts `BlankDoc` describes. */
  lemma CleanDocEmptyIff(doc: string)
    ensures CleanDoc(doc) == "" <==> BlankDoc(doc)
  {
    var t := ExpandTabs(doc, 0);
    ExpandTabsBlank(doc, 0);
    SplitBlank(t);
    DedentedEmptyIff(Split(t));
    TrimmedEmptyIff(Dedented(Split(t)));
  }

  /** Every line is empty after dedenting exactly when the first line was all whitespace
      and the later ones were empty. */
  lemma DedentedEmptyIff(lines: seq<string>)
    requires |lines| >= 1
    ensures AllEmpty(Dedented(lines)) <==> LStrip(lines[0]) == "" && AllEmpty(lines[1..])
  {
    var rest := lines[1..];
    DedentEmptyIff(rest);
    AllEmptyCons(LStrip(lines[0]), Dedent(rest, Margin(rest)));
  }

  predicate AllEmpty(lines: seq<string>)
  {
    forall i :: 0 <= i < |lines| ==> lines[i] == ""
  }

  lemma AllEmptyCons(x: string, lines: seq<string>)
    ensures AllEmpty([x] + lines) <==> x == "" && AllEmpty(lines)
    ensures ([x] + lines)[1..] == lines
  {
    var s := [x] + lines;
    assert s[1..] == lines;
    if AllEmpty(s) {
      assert s[0] == x;
      forall j | 0 <= j < |lines| ensures lines[j] == "" {
        assert lines[j] == s[j + 1];
      }
    }
    if x == "" && AllEmpty(lines) {
      forall i | 0 <= i < |s| ensures s[i] == "" {
        if i > 0 { assert s[i] == lines[i - 1]; }
      }
    }
  }

  /** Dropping the blank lines at both ends and joining gives "" exactly when every line
      is empty. */
  lemma TrimmedEmptyIff(d: seq<string>)
    ensures Join(DropLeadingEmpty(DropTrailingEmpty(d))) == "" <==> AllEmpty(d)
  {
    var tr := DropTrailingEmpty(d);
    if DropLeadingEmpty(tr) == [] {
      forall i | 0 <= i < |d| ensures d[i] == "" {
        if i < |tr| { assert d[i] == tr[i]; }
      }
    }
    if AllEmpty(d) {
      assert tr == [];
    }
  }

  /** Removing the margin leaves every line empty exactly when every line was empty. */
  lemma DedentEmptyIff(lines: seq<string>)
    ensures AllEmpty(Dedent(lines, Margin(lines))) <==> AllEmpty(lines)
  {
    var m := Margin(lines);
    if m.Some? {
      MarginAttained(lines);
      var k :| 0 <= k < |lines| && LStrip(lines[k]) != "" && m.value == Indent(lines[k]);
      assert Dedent(lines, m)[k] == DropPrefix(lines[k], m.value);
      assert |DropPrefix(lines[k], m.value)| > 0;
      assert lines[k] != "";
    }
  }

  /** A text is blank exactly when its first line is all whitespace and every later line
      is empty. */
  lemma {:induction false} SplitBlank(s: string)
    ensures BlankDoc(s) <==> LStrip(Split(s)[0]) == "" && AllEmpty(Split(s)[1..])
  {
    var lines := Split(s);
    if s != [] {
      var c, y := s[0], s[1..];
      var rest := Split(y);
      BlankCons(c, y);
      assert [c] + y == s;
      if c == '\n' {
        NewlinesSplit(y);
        assert lines[1..] == rest;
      } else {
        SplitBlank(y);
        assert lines[1..] == rest[1..];
        var x := lines[0];
        assert x == [c] + rest[0];
        if IsSpace(c) {
          assert x[1..] == rest[0];
        }
      }
    }
  }

  /** A text is all newlines exactly when every piece between its newlines is empty. */
  lemma {:induction false} NewlinesSplit(s: string)
    ensures AllNewlines(s) <==> AllEmpty(Split(s))
  {
    if s != [] {
      var c, y := s[0], s[1..];
      NewlinesSplit(y);
      NewlinesCons(c, y);
      assert [c] + y == s;
      if c == '\n' {
        AllEmptyCons("", Split(y));
      } else {
        assert Split(s)[0] != "";
      }
    }
  }

  lemma NewlinesCons(c: char, y: string)
    ensures AllNewlines([c] + y) <==> c == '\n' && AllNewlines(y)
  {
    var s := [c] + y;
    if AllNewlines(s) {
      assert s[0] == c;
      forall j | 0 <= j < |y| ensures y[j] == '\n' {
        assert y[j] == s[j + 1];
      }
    }
    if c == '\n' && AllNewlines(y) {
      forall i | 0 <= i < |s| ensures s[i] == '\n' {
        if i > 0 { assert s[i] == y[i - 1]; }
      }
    }
  }

  /** `BlankDoc` one character at a time. */
  lemma BlankCons(c: char, y: string)
    ensures BlankDoc([c] + y) <==> IsSpace(c) && (if c == '\n' then AllNewlines(y) else BlankDoc(y))
  {
    var s := [c] + y;
    assert s[0] == c;
    if BlankDoc(s) {
      if c == '\n' {
        forall j | 0 <= j < |y| ensures y[j] == '\n' {
          assert y[j] == s[j + 1];
        }
      } else {
        forall i | 0 <= i < |y|
          ensures IsSpace(y[i]) && (y[i] == '\n' ==> forall j :: i < j < |y| ==> y[j] == '\n')
        {
          assert y[i] == s[i + 1];
          assert forall j :: i < j < |y| ==> y[j] == s[j + 1];
        }
      }
    }
    if IsSpace(c) && c == '\n' && AllNewlines(y) {
      forall i | 0 <= i < |s|
        ensures IsSpace(s[i]) && (s[i] == '\n' ==> forall j :: i < j < |s| ==> s[j] == '\n')
      {
        assert forall j :: 0 < j < |s| ==> s[j] == y[j - 1];
      }
    }
    if IsSpace(c) && c != '\n' && BlankDoc(y) {
      forall i | 0 <= i < |s|
        ensures IsSpace(s[i]) && (s[i] == '\n' ==> forall j :: i < j < |s| ==> s[j] == '\n')
      {
        assert forall j :: 0 < j < |s| ==> s[j] == y[j - 1];
        if i > 0 {
          assert s[i] == y[i - 1];
        }
      }
    }
  }

  /** Leading spaces do not change whether a text is blank. */
  lemma {:induction false} BlankSpaces(n: nat, y: string)
    ensures BlankDoc(Spaces(n) + y) <==> BlankDoc(y)
    ensures n > 0 ==> !AllNewlines(Spaces(n) + y)
  {
    if n > 0 {
      assert (Spaces(n) + y)[0] == ' ';
      assert Spaces(n) + y == [' '] + (Spaces(n - 1) + y);
      BlankCons(' ', Spaces(n - 1) + y);
      BlankSpaces(n - 1, y);
    } else {
      assert Spaces(n) + y == y;
    }
  }

  /** Expanding tabs changes neither whether a text is blank nor whether it is all
      newlines. */
  lemma {:induction false} ExpandTabsBlank(s: string, col: nat)
    ensures BlankDoc(ExpandTabs(s, col)) <==> BlankDoc(s)
    ensures AllNewlines(ExpandTabs(s, col)) <==> AllNewlines(s)
  {
    if s != [] {
      var c, y := s[0], s[1..];
      assert s == [c] + y;
      BlankCons(c, y);
      NewlinesCons(c, y);
      var col' := if c == '\t' then col + 8 - col % 8 else if c == '\n' || c == '\r' then 0 else col + 1;
      var e := ExpandTabs(y, col');
      ExpandTabsBlank(y, col');
      if c == '\t' {
        assert ExpandTabs(s, col) == Spaces(8 - col % 8) + e;
        BlankSpaces(8 - col % 8, e);
      } else {
        assert ExpandTabs(s, col) == [c] + e;
        BlankCons(c, e);
        NewlinesCons(c, e);
      }
    }
  }
}
