/** The capture-after line of `generate_rst` (lib/sphinx_exhibit/_implementation.py:106)
    counts the newlines of the comments and blank lines before a code
    group's first statement, although the group's line number is already
    that of the first statement. The export call of such a group then runs
    too late. This module exhibits that and states the line the export
    call evidently belongs after: the last line of the group's statements. */
module CaptureLineFinding {
  import opened Wrappers
  import opened Text
  import opened Segmentation
  import opened RstGeneration
  import opened ExportInsertion

  // -------------------------------------------------------------------
  // As written: a script whose two export calls both run after line 6

  /** One line holding a statement, without its newline. */
  predicate IsStatementLine(x: string) {
    x != [] && '\n' !in x && !IsSpace(x[0]) && x[0] != '#'
  }

  /** The segments of the script
        1  """T"""
        2
        3
        4  x                 (say `a = plot1()`)
        5  """text"""
        6  y                 (say `b = plot2()`)
      The blank lines 2 and 3 are the prefix of line 4's statement. */
  function Script(x: string, y: string): seq<Segment> {
    [ Segment(TextKind, "T", 1),
      Segment(CodeKind, "\n\n" + x + "\n", 4),
      Segment(TextKind, "text", 5),
      Segment(CodeKind, y + "\n", 6) ]
  }

  /** The statements `ast.parse` finds in that script. */
  function ScriptBody(x: string, y: string): seq<Statement> {
    [ Statement(1, "\"\"\"T\"\"\""),
      Statement(4, x),
      Statement(5, "\"\"\"text\"\"\""),
      Statement(6, y) ]
  }

  /** Every export call of `items` comes after every statement. */
  predicate ExportsAfterAllStatements(items: seq<Item>) {
    forall i, j :: 0 <= i < |items| && 0 <= j < |items| && items[i].Export? && items[j].Stmt? ==> j < i
  }

  /** An entry of the new body is a statement of the script or an export call
      for one of the capture lines. */
  lemma InterleavedFrom(body: seq<Statement>, lines: seq<int>, k: nat)
    requires k < |Interleave(body, lines)|
    ensures Interleave(body, lines)[k].Stmt? ==> Interleave(body, lines)[k].statement in body
    ensures Interleave(body, lines)[k].Export? ==> Interleave(body, lines)[k].lineno in lines
  {
    var b := BodyEntries(body);
    var e := ExportEntries(lines);
    var r := Entries(body, lines);
    assert r[k] in multiset(b + e);
    var m :| 0 <= m < |b + e| && (b + e)[m] == r[k];
    if m >= |b| {
      assert (b + e)[m] == e[m - |b|];
    }
  }

  /** The two code groups are the kept ones. */
  lemma ScriptKept(x: string, y: string)
    requires IsStatementLine(x) && IsStatementLine(y)
    ensures Kept(Script(x, y)) == [Script(x, y)[1], Script(x, y)[3]]
  {
    var s := Script(x, y);
    assert !IsBlank(s[1].text) by { assert s[1].text[2] == x[0]; }
    assert !IsBlank(s[3].text) by { assert s[3].text[0] == y[0]; }
    assert s[..1][..0] == [] && s[..2][..1] == s[..1] && s[..3][..2] == s[..2] && s[..3] == s[..4][..3];
    assert Kept(s[..1]) == [];
    assert Kept(s[..2]) == [s[1]];
    assert Kept(s[..3]) == [s[1]];
    assert s[..4] == s;
  }

  /** When no statement starts after any capture line, every export call
      comes after every statement. */
  lemma ExportsLast(body: seq<Statement>, lines: seq<int>)
    requires forall s, l :: s in body && l in lines ==> s.lineno <= l
    ensures ExportsAfterAllStatements(Interleave(body, lines))
  {
    var r := Interleave(body, lines);
    forall i, j | 0 <= i < |r| && 0 <= j < |r| && r[i].Export? && r[j].Stmt?
      ensures j < i
    {
      InterleavedFrom(body, lines, i);
      InterleavedFrom(body, lines, j);
      ExportPlacement(body, lines, i, j);
    }
  }

  /** Both kept code groups get capture line 6, so both export calls run
      after line 6: block 0 shows the figures of both statements and block 1
      shows none. */
  lemma CaptureLinesCollide(x: string, y: string)
    requires IsStatementLine(x) && IsStatementLine(y)
    ensures Emit(Script(x, y)).Success?
    ensures Emit(Script(x, y)).value.captureAfterLines == [6, 6]
    ensures ExportsAfterAllStatements(Interleave(ScriptBody(x, y), Emit(Script(x, y)).value.captureAfterLines))
  {
    var s := Script(x, y);
    EmitSucceeds(s);
    EmitCounts(s);
    ScriptKept(x, y);
    assert CountChar(s[1].text, '\n') == 3 by {
      CountCharConcat("\n\n" + x, "\n", '\n');
      CountCharConcat("\n\n", x, '\n');
    }
    assert CountChar(s[3].text, '\n') == 1 by {
      CountCharConcat(y, "\n", '\n');
    }
    ScriptExportsLast(x, y, Emit(s).value.captureAfterLines);
  }

  /** In the script, export calls for line 6 come after every statement. */
  lemma ScriptExportsLast(x: string, y: string, lines: seq<int>)
    requires forall l :: l in lines ==> l == 6
    ensures ExportsAfterAllStatements(Interleave(ScriptBody(x, y), lines))
  {
    var body := ScriptBody(x, y);
    assert forall st :: st in body ==> st.lineno <= 6;
    ExportsLast(body, lines);
  }

  // -------------------------------------------------------------------
  // Intended: capture after the last line of the group's statements

  /** Where the first line of `s` ends: the index of its first newline, or |s|. */
  function LineEnd(s: string): (k: nat)
    ensures k <= |s|
    ensures '\n' !in s[..k]
    ensures k < |s| ==> s[k] == '\n'
  {
    if s == [] || s[0] == '\n' then 0
    else
      var k := 1 + LineEnd(s[1..]);
      assert s[..k] == [s[0]] + s[1..][..k - 1];
      k
  }

  /** A line without a statement: spaces, tabs and form feeds, then perhaps a comment. */
  predicate IsCommentLine(l: string) {
    '\n' !in l && (l == [] || l[0] == '#' || (l[0] in " \t\U{000C}" && IsCommentLine(l[1..])))
  }

  /** A statement's prefix as lib2to3 keeps it: whole lines without a statement. */
  predicate IsPrefixLines(p: string)
    decreases |p|
  {
    p == [] || (var k := LineEnd(p); k < |p| && IsCommentLine(p[..k]) && IsPrefixLines(p[k + 1..]))
  }

  /** Text that starts with a statement. */
  predicate StartsStatement(body: string) {
    body != [] && body[0] !in " \t\U{000C}#\n"
  }

  /** Number of leading lines of `s` that hold no statement. */
  function LeadingPrefixLines(s: string): nat
    decreases |s|
  {
    var k := LineEnd(s);
    if k < |s| && IsCommentLine(s[..k]) then 1 + LeadingPrefixLines(s[k + 1..]) else 0
  }

  /** The capture line without the group's leading prefix lines. */
  function IntendedCaptureLine(s: Segment): int {
    CaptureLine(s) - LeadingPrefixLines(s.text)
  }

  /** A prefix's lines end where its first line ends, whatever follows. */
  lemma LineEndAppend(p: string, rest: string)
    requires LineEnd(p) < |p|
    ensures LineEnd(p + rest) == LineEnd(p)
    decreases |p|
  {
    if p[0] != '\n' {
      assert (p + rest)[1..] == p[1..] + rest;
      LineEndAppend(p[1..], rest);
    }
  }

  /** Text starting with a statement has no leading prefix line. */
  lemma NoLeadingPrefix(body: string)
    requires StartsStatement(body)
    ensures LeadingPrefixLines(body) == 0
  {
    var k := LineEnd(body);
    if k < |body| {
      assert body[..k][0] == body[0];
    }
  }

  /** The first line of a non-empty prefix is a whole line without a statement. */
  lemma PrefixLinesStep(p: string)
    requires p != [] && IsPrefixLines(p)
    ensures LineEnd(p) < |p| && IsCommentLine(p[..LineEnd(p)]) && IsPrefixLines(p[LineEnd(p) + 1..])
  {
  }

  /** Counting a leading prefix line. */
  lemma LeadingPrefixLinesStep(s: string)
    requires LineEnd(s) < |s| && IsCommentLine(s[..LineEnd(s)])
    ensures LeadingPrefixLines(s) == 1 + LeadingPrefixLines(s[LineEnd(s) + 1..])
  {
  }

  /** The newlines of a text whose first line ends at `k`. */
  lemma CountCharAfterLine(p: string, k: nat)
    requires k < |p| && p[k] == '\n' && '\n' !in p[..k]
    ensures CountChar(p, '\n') == 1 + CountChar(p[k + 1..], '\n')
  {
    assert p == p[..k] + ("\n" + p[k + 1..]);
    CountCharConcat(p[..k], "\n" + p[k + 1..], '\n');
    CountCharConcat("\n", p[k + 1..], '\n');
  }

  /** The leading prefix lines of a prefix followed by a statement are the prefix's newlines. */
  lemma {:induction false} LeadingPrefixLinesOf(prefix: string, body: string)
    requires IsPrefixLines(prefix) && StartsStatement(body)
    ensures LeadingPrefixLines(prefix + body) == CountChar(prefix, '\n')
    decreases |prefix|
  {
    if prefix == [] {
      assert prefix + body == body;
      NoLeadingPrefix(body);
    } else {
      var k := LineEnd(prefix);
      var rest := prefix[k + 1..];
      PrefixLinesStep(prefix);
      var s := prefix + body;
      assert LineEnd(s) == k && s[..k] == prefix[..k] && s[k + 1..] == rest + body by {
        LineEndAppend(prefix, body);
      }
      assert LeadingPrefixLines(s) == 1 + LeadingPrefixLines(rest + body) by {
        LeadingPrefixLinesStep(s);
      }
      LeadingPrefixLinesOf(rest, body);
      CountCharAfterLine(prefix, k);
    }
  }

  /** The intended capture line of a code group is the last line of its
      statements: it no longer depends on the comments and blank lines
      before the first one. */
  lemma IntendedCaptureLineIsLastLine(prefix: string, body: string, lineno: int)
    requires IsPrefixLines(prefix) && StartsStatement(body)
    ensures IntendedCaptureLine(Segment(CodeKind, prefix + body, lineno)) == lineno + CountChar(body, '\n') - 1
  {
    LeadingPrefixLinesOf(prefix, body);
    CaptureLineCountsPrefix(prefix, body, lineno);
  }

  /** On the script above, the intended lines are 4 and 6, and the export
      call for line 4 runs after the statements up to line 4 and before those
      of lines 5 and 6: each block shows only its own figures. */
  lemma IntendedLinesSeparate(x: string, y: string)
    requires IsStatementLine(x) && IsStatementLine(y)
    ensures IntendedCaptureLine(Script(x, y)[1]) == 4
    ensures IntendedCaptureLine(Script(x, y)[3]) == 6
    ensures ExportRunsAfterLine(
              Interleave(ScriptBody(x, y), [IntendedCaptureLine(Script(x, y)[1]), IntendedCaptureLine(Script(x, y)[3])]), 4)
  {
    assert IsPrefixLines("\n\n");
    assert StartsStatement(x + "\n") by { assert (x + "\n")[0] == x[0]; }
    assert StartsStatement(y + "\n") by { assert (y + "\n")[0] == y[0]; }
    assert CountChar(x + "\n", '\n') == 1 by { CountCharConcat(x, "\n", '\n'); }
    assert CountChar(y + "\n", '\n') == 1 by { CountCharConcat(y, "\n", '\n'); }
    IntendedCaptureLineIsLastLine("\n\n", x + "\n", 4);
    assert "\n\n" + (x + "\n") == Script(x, y)[1].text;
    assert IsPrefixLines("");
    IntendedCaptureLineIsLastLine("", y + "\n", 6);
    assert "" + (y + "\n") == Script(x, y)[3].text;
    ExportPlaced(ScriptBody(x, y), [IntendedCaptureLine(Script(x, y)[1]), IntendedCaptureLine(Script(x, y)[3])], 4);
  }

  /** The export calls for line `l` come after exactly the statements that
      start on line `l` or before. */
  predicate ExportRunsAfterLine(items: seq<Item>, l: int) {
    forall i, j :: 0 <= i < |items| && 0 <= j < |items| && items[i] == Export(l) && items[j].Stmt? ==>
      (j < i <==> items[j].statement.lineno <= l)
  }

  lemma ExportPlaced(body: seq<Statement>, lines: seq<int>, l: int)
    ensures ExportRunsAfterLine(Interleave(body, lines), l)
  {
    var r := Interleave(body, lines);
    forall i, j | 0 <= i < |r| && 0 <= j < |r| && r[i] == Export(l) && r[j].Stmt?
      ensures j < i <==> r[j].statement.lineno <= l
    {
      ExportPlacement(body, lines, i, j);
    }
  }
}
