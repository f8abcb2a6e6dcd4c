/** Splitting a script into alternating prose and code segments
    (`split_text_and_code_blocks`, lib/sphinx_exhibit/_implementation.py).

    The script is parsed losslessly; every top-level child of the `file_input`
    node is classified as prose (a bare string literal that is neither a bytes
    nor a formatted literal) or code. A prose unit hands its prefix (comments
    and blank lines before it) on to the next unit, and consecutive units of
    the same kind are merged, as `itertools.groupby` does. */
module Segmentation {
  import opened Wrappers
  import opened Text
  import opened LosslessParser

  /** The tag of a generated triple: "text", "code", or any other string
      (which the splitter never produces and `generate_rst` rejects). */
  datatype SegmentKind = TextKind | CodeKind | OtherKind(tag: string)

  /** One `(tp, string, lineno)` triple. */
  datatype Segment = Segment(kind: SegmentKind, text: string, lineno: int)

  datatype SplitError = ParseFailed(parseError: ParseError) | LiteralEvalFailed(source: string)

  // -------------------------------------------------------------------
  // Classification

  predicate IsQuote(c: char) { c == '\'' || c == '"' }

  predicate IsBytesOrFormatLetter(c: char) { c == 'b' || c == 'B' || c == 'f' || c == 'F' }

  /** `re.search(r"""\A[^'"]*[bBfF]""", value)` succeeds. */
  predicate MarksBytesOrFormat(value: string)
    decreases |value|
  {
    value != [] && !IsQuote(value[0])
    && (IsBytesOrFormatLetter(value[0]) || MarksBytesOrFormat(value[1..]))
  }

  /** The regular expression finds a b, B, f or F among the characters before the first quote. */
  lemma {:induction false} MarksBytesOrFormatMeaning(value: string)
    ensures MarksBytesOrFormat(value) <==>
              exists i :: 0 <= i < |value| && IsBytesOrFormatLetter(value[i])
                          && forall j :: 0 <= j < i ==> !IsQuote(value[j])
  {
    if value != [] && !IsQuote(value[0]) {
      MarksBytesOrFormatMeaning(value[1..]);
      if MarksBytesOrFormat(value[1..]) {
        var i :| 0 <= i < |value[1..]| && IsBytesOrFormatLetter(value[1..][i])
                 && forall j :: 0 <= j < i ==> !IsQuote(value[1..][j]);
        assert IsBytesOrFormatLetter(value[i + 1]);
        assert forall j :: 0 <= j < i + 1 ==> !IsQuote(value[j]) by {
          forall j | 0 <= j < i + 1 ensures !IsQuote(value[j]) {
            if j > 0 { assert value[j] == value[1..][j - 1]; }
          }
        }
      }
      if exists i :: 0 <= i < |value| && IsBytesOrFormatLetter(value[i])
                     && forall j :: 0 <= j < i ==> !IsQuote(value[j]) {
        var i :| 0 <= i < |value| && IsBytesOrFormatLetter(value[i])
                 && forall j :: 0 <= j < i ==> !IsQuote(value[j]);
        if i > 0 {
          assert IsBytesOrFormatLetter(value[1..][i - 1]);
          assert forall j :: 0 <= j < i - 1 ==> !IsQuote(value[1..][j]) by {
            forall j | 0 <= j < i - 1 ensures !IsQuote(value[1..][j]) {
              assert value[1..][j] == value[j + 1];
            }
          }
        }
      }
    }
  }

  /** A top-level unit is prose: a simple statement whose first child is a
      string token not marked as bytes or formatted. */
  predicate IsProse(node: Cst) {
    && node.Node? && node.symbol == SimpleStmt && |node.children| > 0
    && node.children[0].Leaf? && node.children[0].tokenType == StringToken
    && !MarksBytesOrFormat(node.children[0].value)
  }

  /** Raw strings stay prose: an `r` or `R` before the quote is not a bytes or format marker. */
  lemma RawStringIsProse(node: Cst)
    requires node.Node? && node.symbol == SimpleStmt && |node.children| > 0
    requires node.children[0].Leaf? && node.children[0].tokenType == StringToken
    requires |node.children[0].value| >= 2
    requires node.children[0].value[0] in "rR" && IsQuote(node.children[0].value[1])
    ensures IsProse(node)
  {
    var v := node.children[0].value;
    assert v[1..][0] == v[1];
  }

  /** Moving a prefix onto a unit does not change how it is classified. */
  lemma WithPrefixKeepsKind(node: Cst, p: string)
    requires WellFormed(node)
    ensures IsProse(WithPrefix(node, p)) == IsProse(node)
  {
  }

  // -------------------------------------------------------------------
  // Moving prose prefixes forward

  /** Iteration `i` of the loop: a prose unit's prefix is prepended to the next unit's prefix. */
  function Step(units: seq<Cst>, i: nat): (r: seq<Cst>)
    requires i < |units|
    ensures |r| == |units|
  {
    if IsProse(units[i]) && i + 1 < |units| then
      units[i + 1 := WithPrefix(units[i + 1], Prefix(units[i]) + Prefix(units[i + 1]))]
    else units
  }

  /** The children after the first `k` iterations. */
  function MovedUpTo(units: seq<Cst>, k: nat): (r: seq<Cst>)
    requires k <= |units|
    ensures |r| == |units|
  {
    if k == 0 then units else Step(MovedUpTo(units, k - 1), k - 1)
  }

  /** Iterations before `i` leave unit `i + 1` and later ones untouched. */
  lemma {:induction false} MovedUpToUntouched(units: seq<Cst>, k: nat, i: nat)
    requires k < i < |units|
    ensures MovedUpTo(units, k)[i] == units[i]
  {
    if k > 0 {
      MovedUpToUntouched(units, k - 1, i);
    }
  }

  /** After `k` iterations, unit `k` differs from the original at most in its prefix. */
  lemma MovedUpToCurrent(units: seq<Cst>, k: nat)
    requires k < |units|
    requires WellFormed(units[k])
    ensures WellFormed(MovedUpTo(units, k)[k])
    ensures Body(MovedUpTo(units, k)[k]) == Body(units[k])
    ensures IsProse(MovedUpTo(units, k)[k]) == IsProse(units[k])
    ensures Lineno(MovedUpTo(units, k)[k]) == Lineno(units[k])
    ensures LeafValues(MovedUpTo(units, k)[k]) == LeafValues(units[k])
  {
    if k > 0 {
      var m := MovedUpTo(units, k - 1);
      MovedUpToUntouched(units, k - 1, k);
      if IsProse(m[k - 1]) {
        WithPrefixFacts(units[k], Prefix(m[k - 1]) + Prefix(units[k]));
        WithPrefixKeepsKind(units[k], Prefix(m[k - 1]) + Prefix(units[k]));
      }
    }
  }

  /** The loop from iteration `i` on: the children once every remaining
      iteration has re-prefixed its successor. */
  function MovedFrom(units: seq<Cst>, i: nat): (r: seq<Cst>)
    requires i <= |units|
    ensures |r| == |units|
    decreases |units| - i
  {
    if i == |units| then units else MovedFrom(Step(units, i), i + 1)
  }

  /** Iterations from `i` on leave units `0..i` as they are. */
  lemma {:induction false} MovedFromKeepsDone(units: seq<Cst>, i: nat, j: nat)
    requires i <= |units| && j <= i && j < |units|
    ensures MovedFrom(units, i)[j] == units[j]
    decreases |units| - i
  {
    if i < |units| {
      MovedFromKeepsDone(Step(units, i), i + 1, j);
    }
  }

  /** The first `k` iterations followed by the rest are the whole loop. */
  lemma {:induction false} MovedFromUpTo(units: seq<Cst>, k: nat)
    requires k <= |units|
    ensures MovedFrom(MovedUpTo(units, k), k) == MovedFrom(units, 0)
  {
    if k > 0 {
      MovedFromUpTo(units, k - 1);
    }
  }

  /** Re-prefixing keeps every unit well formed. */
  lemma {:induction false} MovedFromWellFormed(units: seq<Cst>, i: nat)
    requires i <= |units|
    requires forall j :: 0 <= j < |units| ==> WellFormed(units[j])
    ensures forall j :: 0 <= j < |units| ==> WellFormed(MovedFrom(units, i)[j])
    decreases |units| - i
  {
    if i < |units| {
      var s := Step(units, i);
      assert forall j :: 0 <= j < |s| ==> WellFormed(s[j]);
      MovedFromWellFormed(s, i + 1);
    }
  }

  // -------------------------------------------------------------------
  // Classified pieces and grouping

  /** The triple the inner generator yields for one (already re-prefixed) unit. */
  function PieceOf(node: Cst, literalEval: string -> Option<string>): (r: Result<Segment, SplitError>)
    requires WellFormed(node)
    ensures r.Success? ==> r.value.lineno == Lineno(node)
    ensures r.Success? ==> (r.value.kind == TextKind <==> IsProse(node))
    ensures r.Success? && !IsProse(node) ==> r.value.text == Str(node)
    ensures r.Failure? <==> IsProse(node) && literalEval(LeafValues(node)).None?
  {
    if IsProse(node) then
      match literalEval(LeafValues(node))
      case None => Failure(LiteralEvalFailed(LeafValues(node)))
      case Some(v) => Success(Segment(TextKind, v, Lineno(node)))
    else Success(Segment(CodeKind, Str(node), Lineno(node)))
  }

  /** The inner generator over a list of units: the first failing literal evaluation aborts. */
  function Pieces(nodes: seq<Cst>, literalEval: string -> Option<string>): (r: Result<seq<Segment>, SplitError>)
    requires AllWellFormed(nodes)
    ensures r.Success? ==> |r.value| == |nodes|
  {
    if nodes == [] then Success([])
    else
      match Pieces(nodes[..|nodes| - 1], literalEval)
      case Failure(e) => Failure(e)
      case Success(ps) =>
        match PieceOf(nodes[|nodes| - 1], literalEval)
        case Failure(e) => Failure(e)
        case Success(p) => Success(ps + [p])
  }

  /** The first failure ends the generator: later units are never classified. */
  lemma {:induction false} PiecesFailureSticks(nodes: seq<Cst>, k: nat, literalEval: string -> Option<string>)
    requires AllWellFormed(nodes) && k <= |nodes|
    requires Pieces(nodes[..k], literalEval).Failure?
    ensures Pieces(nodes, literalEval) == Pieces(nodes[..k], literalEval)
  {
    if k < |nodes| {
      var init := nodes[..|nodes| - 1];
      assert init[..k] == nodes[..k];
      PiecesFailureSticks(init, k, literalEval);
    } else {
      assert nodes[..k] == nodes;
    }
  }

  /** One step of `itertools.groupby`: a piece of the same kind as the last
      group extends it, otherwise it opens a new group. */
  function Absorb(groups: seq<Segment>, p: Segment): (r: seq<Segment>)
    ensures |r| == if groups != [] && groups[|groups| - 1].kind == p.kind then |groups| else |groups| + 1
  {
    if groups != [] && groups[|groups| - 1].kind == p.kind then
      var last := groups[|groups| - 1];
      groups[..|groups| - 1] + [last.(text := last.text + p.text)]
    else groups + [p]
  }

  /** `groupby` followed by `"".join(strs)` and `linenos[0]` on every group. */
  function GroupBy(pieces: seq<Segment>): (r: seq<Segment>)
    ensures |r| <= |pieces|
    ensures pieces != [] ==> r != []
  {
    if pieces == [] then [] else Absorb(GroupBy(pieces[..|pieces| - 1]), pieces[|pieces| - 1])
  }

  lemma GroupBySnoc(pieces: seq<Segment>, piece: Segment)
    ensures GroupBy(pieces + [piece]) == Absorb(GroupBy(pieces), piece)
  {
    assert (pieces + [piece])[..|pieces|] == pieces;
  }

  /** Indices of the pieces that start a run of equal kind. */
  function RunStarts(pieces: seq<Segment>): (r: seq<nat>)
    ensures forall j :: 0 <= j < |r| ==> r[j] < |pieces|
    ensures forall j, k :: 0 <= j < k < |r| ==> r[j] < r[k]
    ensures pieces != [] ==> r != [] && r[0] == 0
  {
    if pieces == [] then []
    else
      var n := |pieces| - 1;
      var prev := RunStarts(pieces[..n]);
      if n == 0 || pieces[n - 1].kind != pieces[n].kind then prev + [n] else prev
  }

  /** Concatenation of the texts of the segments of one kind. */
  function KindText(segments: seq<Segment>, kind: SegmentKind): string {
    if segments == [] then ""
    else
      var last := segments[|segments| - 1];
      KindText(segments[..|segments| - 1], kind) + (if last.kind == kind then last.text else "")
  }

  /** Groups strictly alternate kind. */
  lemma {:induction false} GroupsAlternate(pieces: seq<Segment>)
    ensures forall j :: 0 <= j < |GroupBy(pieces)| - 1 ==> GroupBy(pieces)[j].kind != GroupBy(pieces)[j + 1].kind
    ensures pieces != [] ==> GroupBy(pieces)[|GroupBy(pieces)| - 1].kind == pieces[|pieces| - 1].kind
  {
    if pieces != [] {
      GroupsAlternate(pieces[..|pieces| - 1]);
    }
  }

  /** Groups of `pieces` follow the runs of `pieces`. */
  ghost predicate FollowsRuns(pieces: seq<Segment>) {
    && |GroupBy(pieces)| == |RunStarts(pieces)|
    && forall j :: 0 <= j < |GroupBy(pieces)| ==>
         GroupBy(pieces)[j].kind == pieces[RunStarts(pieces)[j]].kind
         && GroupBy(pieces)[j].lineno == pieces[RunStarts(pieces)[j]].lineno
  }

  /** There is one group per run of equal kind; the group has the kind and
      the line number of the first piece of its run. */
  lemma {:induction false} GroupsFollowRuns(pieces: seq<Segment>)
    ensures |GroupBy(pieces)| == |RunStarts(pieces)|
    ensures forall j :: 0 <= j < |GroupBy(pieces)| ==>
              GroupBy(pieces)[j].kind == pieces[RunStarts(pieces)[j]].kind
              && GroupBy(pieces)[j].lineno == pieces[RunStarts(pieces)[j]].lineno
  {
    if pieces != [] {
      var n := |pieces| - 1;
      GroupsFollowRuns(pieces[..n]);
      GroupsAlternate(pieces[..n]);
      var g := GroupBy(pieces[..n]);
      if g != [] && g[|g| - 1].kind == pieces[n].kind {
        RunContinues(pieces);
      } else {
        RunOpens(pieces);
      }
      assert FollowsRuns(pieces);
    }
  }

  /** A last piece of the same kind as the last group extends that group's run. */
  lemma RunContinues(pieces: seq<Segment>)
    requires pieces != [] && FollowsRuns(pieces[..|pieces| - 1])
    requires var g := GroupBy(pieces[..|pieces| - 1]);
      g != [] && g[|g| - 1].kind == pieces[|pieces| - 1].kind
      && g[|g| - 1].kind == pieces[|pieces| - 2].kind
    ensures FollowsRuns(pieces)
  {
    var n := |pieces| - 1;
    var p := pieces[..n];
    var g := GroupBy(p);
    var rs := RunStarts(p);
    var r := GroupBy(pieces);
    var rs' := RunStarts(pieces);
    assert r == Absorb(g, pieces[n]);
    assert rs' == rs;
    forall j | 0 <= j < |r|
      ensures r[j].kind == pieces[rs'[j]].kind && r[j].lineno == pieces[rs'[j]].lineno
    {
      assert p[rs[j]] == pieces[rs[j]];
      if j < |r| - 1 {
        assert r[j] == g[j];
      }
    }
  }

  /** A last piece of another kind than the last group opens a new run. */
  lemma RunOpens(pieces: seq<Segment>)
    requires pieces != [] && FollowsRuns(pieces[..|pieces| - 1])
    requires var g := GroupBy(pieces[..|pieces| - 1]);
      |pieces| == 1 || (g != [] && g[|g| - 1].kind == pieces[|pieces| - 2].kind
                        && g[|g| - 1].kind != pieces[|pieces| - 1].kind)
    ensures FollowsRuns(pieces)
  {
    var n := |pieces| - 1;
    var p := pieces[..n];
    var g := GroupBy(p);
    var rs := RunStarts(p);
    var r := GroupBy(pieces);
    var rs' := RunStarts(pieces);
    assert rs' == rs + [n];
    assert r == g + [pieces[n]];
    forall j | 0 <= j < |r|
      ensures r[j].kind == pieces[rs'[j]].kind && r[j].lineno == pieces[rs'[j]].lineno
    {
      if j < |g| {
        assert p[rs[j]] == pieces[rs[j]];
      }
    }
  }


  /** Grouping loses no text of either kind and reorders nothing. */
  lemma {:induction false} GroupsKeepText(pieces: seq<Segment>, kind: SegmentKind)
    ensures KindText(GroupBy(pieces), kind) == KindText(pieces, kind)
  {
    if pieces != [] {
      var n := |pieces| - 1;
      var p := pieces[..n];
      var pn := pieces[n];
      GroupsKeepText(p, kind);
      assert pieces == p + [pn];
      GroupBySnoc(p, pn);
      KindTextSnoc(p, pn, kind);
      AbsorbKeepsText(GroupBy(p), pn, kind);
    }
  }

  lemma KindTextSnoc(segments: seq<Segment>, s: Segment, kind: SegmentKind)
    ensures KindText(segments + [s], kind) == KindText(segments, kind) + (if s.kind == kind then s.text else "")
  {
    assert (segments + [s])[..|segments|] == segments;
  }

  /** Absorbing a piece appends its text to the text of its kind. */
  lemma AbsorbKeepsText(groups: seq<Segment>, p: Segment, kind: SegmentKind)
    ensures KindText(Absorb(groups, p), kind) == KindText(groups, kind) + (if p.kind == kind then p.text else "")
  {
    if groups != [] && groups[|groups| - 1].kind == p.kind {
      var init := groups[..|groups| - 1];
      var last := groups[|groups| - 1];
      var merged := last.(text := last.text + p.text);
      assert groups == init + [last];
      KindTextSnoc(init, last, kind);
      KindTextSnoc(init, merged, kind);
      if last.kind == kind {
        assert KindText(init, kind) + (last.text + p.text) == (KindText(init, kind) + last.text) + p.text;
      }
    } else {
      KindTextSnoc(groups, p, kind);
    }
  }

  // -------------------------------------------------------------------
  // No prefix is lost

  /** The concatenated text of the code units among the first `i` units. */
  function CodeBefore(units: seq<Cst>, i: nat): string
    requires i <= |units|
  {
    if i == 0 then "" else CodeBefore(units, i - 1) + (if IsProse(units[i - 1]) then "" else Str(units[i - 1]))
  }

  /** What the code segments must cover among the first `i` units: every
      unit's prefix, and the body of every code unit. */
  function SourceBefore(units: seq<Cst>, i: nat): string
    requires i <= |units|
  {
    if i == 0 then ""
    else SourceBefore(units, i - 1) + Prefix(units[i - 1]) + (if IsProse(units[i - 1]) then "" else Body(units[i - 1]))
  }

  lemma {:induction false} CodeBeforeAgrees(s: seq<Cst>, t: seq<Cst>, i: nat)
    requires i <= |s| && i <= |t| && s[..i] == t[..i]
    ensures CodeBefore(s, i) == CodeBefore(t, i)
  {
    if i > 0 {
      assert s[i - 1] == s[..i][i - 1] == t[..i][i - 1] == t[i - 1];
      assert s[..i - 1] == s[..i][..i - 1];
      assert t[..i - 1] == t[..i][..i - 1];
      CodeBeforeAgrees(s, t, i - 1);
    }
  }

  lemma {:induction false} SourceBeforeAgrees(s: seq<Cst>, t: seq<Cst>, i: nat)
    requires i <= |s| && i <= |t| && s[..i] == t[..i]
    ensures SourceBefore(s, i) == SourceBefore(t, i)
  {
    if i > 0 {
      assert s[i - 1] == s[..i][i - 1] == t[..i][i - 1] == t[i - 1];
      assert s[..i - 1] == s[..i][..i - 1];
      assert t[..i - 1] == t[..i][..i - 1];
      SourceBeforeAgrees(s, t, i - 1);
    }
  }

  /** The string algebra of one iteration of the carried-prefix argument. */
  lemma CarryAlgebra(code: string, source: string, pu: string, bu: string, pv: string, pnext: string, pnext': string, prose: bool)
    requires code + pu == source + pv
    requires prose ==> pnext' == pu + pnext
    requires !prose ==> pnext' == pnext
    ensures code + (if prose then "" else pu + bu) + pnext' == source + pv + (if prose then "" else bu) + pnext
  {
  }

  /** The step at index `i` changes nothing before `i + 1`. */
  lemma StepKeepsPrefix(units: seq<Cst>, i: nat)
    requires i < |units|
    ensures Step(units, i)[..i + 1] == units[..i + 1]
    ensures !IsProse(units[i]) ==> Step(units, i) == units
    ensures IsProse(units[i]) && i + 1 < |units| ==>
              Step(units, i)[i + 1] == WithPrefix(units[i + 1], Prefix(units[i]) + Prefix(units[i + 1]))
  {
  }

  /** After `k` iterations, the code before unit `k` together with the
      prefix unit `k` now carries is all the text before unit `k`'s body. */
  lemma {:induction false} PrefixCarried(units: seq<Cst>, k: nat)
    requires k < |units|
    requires forall i :: 0 <= i < |units| ==> WellFormed(units[i])
    ensures CodeBefore(MovedUpTo(units, k), k) + Prefix(MovedUpTo(units, k)[k])
            == SourceBefore(units, k) + Prefix(units[k])
  {
    if k > 0 {
      PrefixCarried(units, k - 1);
      PrefixCarriedStep(units, k);
    }
  }

  /** One iteration keeps the carried-prefix equation. */
  lemma PrefixCarriedStep(units: seq<Cst>, k: nat)
    requires 0 < k < |units| && WellFormed(units[k - 1]) && WellFormed(units[k])
    requires CodeBefore(MovedUpTo(units, k - 1), k - 1) + Prefix(MovedUpTo(units, k - 1)[k - 1])
             == SourceBefore(units, k - 1) + Prefix(units[k - 1])
    ensures CodeBefore(MovedUpTo(units, k), k) + Prefix(MovedUpTo(units, k)[k])
            == SourceBefore(units, k) + Prefix(units[k])
  {
    var m := MovedUpTo(units, k - 1);
    var m' := MovedUpTo(units, k);
    var u := m[k - 1];
    var v := units[k - 1];
    assert m' == Step(m, k - 1);
    assert WellFormed(u) && Body(u) == Body(v) && IsProse(u) == IsProse(v) by {
      MovedUpToCurrent(units, k - 1);
    }
    assert m[k] == units[k] by {
      MovedUpToUntouched(units, k - 1, k);
    }
    assert CodeBefore(m', k) == CodeBefore(m, k) by {
      StepKeepsPrefix(m, k - 1);
      CodeBeforeAgrees(m', m, k);
    }
    assert Prefix(m'[k]) == if IsProse(u) then Prefix(u) + Prefix(units[k]) else Prefix(units[k]) by {
      StepKeepsPrefix(m, k - 1);
      if IsProse(u) {
        WithPrefixPrefix(units[k], Prefix(u) + Prefix(units[k]));
      }
    }
    StrIsPrefixBody(u);
    CarryAlgebra(CodeBefore(m, k - 1), SourceBefore(units, k - 1), Prefix(u), Body(u), Prefix(v),
                 Prefix(units[k]), Prefix(m'[k]), IsProse(u));
  }

  /** The last unit is code, as the end marker is. */
  predicate EndsWithCode(units: seq<Cst>) {
    units != [] && !IsProse(units[|units| - 1])
  }

  /** The concatenated text of the code units. */
  function CodeText(units: seq<Cst>): string {
    if units == [] then ""
    else
      var last := units[|units| - 1];
      CodeText(units[..|units| - 1]) + (if IsProse(last) then "" else Str(last))
  }

  /** Every unit's prefix, and the body of every code unit, in order. */
  function SourceText(units: seq<Cst>): string {
    if units == [] then ""
    else
      var last := units[|units| - 1];
      SourceText(units[..|units| - 1]) + Prefix(last) + (if IsProse(last) then "" else Body(last))
  }

  lemma {:induction false} CodeTextBefore(units: seq<Cst>, n: nat)
    requires n == |units|
    ensures CodeText(units) == CodeBefore(units, n)
  {
    if n > 0 {
      var init := units[..n - 1];
      CodeTextBefore(init, n - 1);
      assert init[..n - 1] == units[..n - 1];
      CodeBeforeAgrees(init, units, n - 1);
    }
  }

  lemma {:induction false} SourceTextBefore(units: seq<Cst>, n: nat)
    requires n == |units|
    ensures SourceText(units) == SourceBefore(units, n)
  {
    if n > 0 {
      var init := units[..n - 1];
      SourceTextBefore(init, n - 1);
      assert init[..n - 1] == units[..n - 1];
      SourceBeforeAgrees(init, units, n - 1);
    }
  }

  /** Once the last unit is code (the end marker), the code units of the
      re-prefixed list spell out every prefix and every code body in order:
      a prose unit's comments and blank lines move on and are not lost. */
  lemma NoPrefixLost(units: seq<Cst>)
    requires EndsWithCode(units) && AllWellFormed(units)
    ensures CodeText(MovedFrom(units, 0)) == SourceText(units)
  {
    NoPrefixLostAt(units, |units|);
  }

  lemma NoPrefixLostAt(units: seq<Cst>, n: nat)
    requires n == |units| && n > 0 && !IsProse(units[n - 1])
    requires AllWellFormed(units)
    ensures CodeText(MovedFrom(units, 0)) == SourceText(units)
  {
    var m := MovedUpTo(units, n - 1);
    MovedAll(units, n);
    CodeBeforeAll(units, n);
    CodeTextBefore(m, n);
    SourceTextBefore(units, n);
  }

  /** The last iteration changes nothing: there is no unit after the last one. */
  lemma MovedAll(units: seq<Cst>, n: nat)
    requires n == |units| && n > 0
    ensures MovedFrom(units, 0) == MovedUpTo(units, n - 1)
  {
    var m := MovedUpTo(units, n - 1);
    assert MovedUpTo(units, n) == m by {
      assert MovedUpTo(units, n) == Step(m, n - 1);
    }
    MovedFromUpTo(units, n);
  }

  lemma CodeBeforeAll(units: seq<Cst>, n: nat)
    requires n == |units| && n > 0 && !IsProse(units[n - 1])
    requires AllWellFormed(units)
    ensures CodeBefore(MovedUpTo(units, n - 1), n) == SourceBefore(units, n)
  {
    var m := MovedUpTo(units, n - 1);
    assert CodeBefore(m, n - 1) + Prefix(m[n - 1]) == SourceBefore(units, n - 1) + Prefix(units[n - 1]) by {
      PrefixCarried(units, n - 1);
    }
    assert Body(m[n - 1]) == Body(units[n - 1]) && !IsProse(m[n - 1]) by {
      MovedUpToCurrent(units, n - 1);
    }
    var code, source := CodeBefore(m, n - 1), SourceBefore(units, n - 1);
    var pu, bu := Prefix(m[n - 1]), Body(m[n - 1]);
    assert Str(m[n - 1]) == pu + bu by {
      StrIsPrefixBody(m[n - 1]);
    }
    assert CodeBefore(m, n) == code + Str(m[n - 1]);
    assert SourceBefore(units, n) == source + Prefix(units[n - 1]) + bu;
    assert code + (pu + bu) == code + pu + bu;
  }

  // -------------------------------------------------------------------
  // The operation

  /** The grammar driver always produces a `file_input` tree that ends with the end marker. */
  ghost predicate IsFileInput(t: Cst) {
    && WellFormed(t)
    && (t.Leaf? ==> t.tokenType == EndMarker)
    && (t.Node? ==> t.children[|t.children| - 1].Leaf? && t.children[|t.children| - 1].tokenType == EndMarker)
  }

  ghost predicate BuildsFileInput(driver: string -> Result<Cst, ParseError>) {
    forall s :: driver(s).Success? ==> IsFileInput(driver(s).value)
  }

  /** Classifying one more unit extends the pieces by that unit's piece. */
  lemma PiecesSnoc(nodes: seq<Cst>, i: nat, literalEval: string -> Option<string>)
    requires AllWellFormed(nodes) && i < |nodes|
    requires Pieces(nodes[..i], literalEval).Success?
    ensures Pieces(nodes[..i + 1], literalEval) ==
      match PieceOf(nodes[i], literalEval)
      case Failure(e) => Failure(e)
      case Success(p) => Success(Pieces(nodes[..i], literalEval).value + [p])
  {
    assert nodes[..i + 1][..i] == nodes[..i];
  }

  /** The invariant of the loop over the children `units` of the tree after
      `i` iterations: the current children `cur`, moved from `i` on, give the
      fully moved list, and the pieces so far are those of the first `i`
      moved units. */
  ghost predicate ClassifyInvariant(units: seq<Cst>, cur: seq<Cst>, i: nat, pieces: seq<Segment>,
                                    literalEval: string -> Option<string>)
  {
    && AllWellFormed(units)
    && i <= |cur| == |units|
    && MovedFrom(cur, i) == MovedFrom(units, 0)
    && (MovedFromWellFormed(units, 0);
        Pieces(MovedFrom(units, 0)[..i], literalEval) == Success(pieces))
  }

  lemma ClassifyStart(units: seq<Cst>, literalEval: string -> Option<string>)
    requires AllWellFormed(units)
    ensures ClassifyInvariant(units, units, 0, [], literalEval)
  {
    MovedFromWellFormed(units, 0);
    assert MovedFrom(units, 0)[..0] == [];
  }

  /** One iteration: the unit classified is the fully moved one; a piece
      extends the invariant over the moved children, and a failure is the
      failure of the whole classification. */
  lemma ClassifyAdvance(units: seq<Cst>, cur: seq<Cst>, i: nat, pieces: seq<Segment>,
                        literalEval: string -> Option<string>)
    requires ClassifyInvariant(units, cur, i, pieces, literalEval) && i < |cur|
    ensures WellFormed(cur[i])
    ensures PieceOf(cur[i], literalEval).Success? ==>
              ClassifyInvariant(units, Step(cur, i), i + 1, pieces + [PieceOf(cur[i], literalEval).value], literalEval)
    ensures PieceOf(cur[i], literalEval).Failure? ==>
              Classify(units, literalEval) == Failure(PieceOf(cur[i], literalEval).error)
  {
    var moved := MovedFrom(units, 0);
    MovedFromWellFormed(units, 0);
    MovedFromKeepsDone(cur, i, i);
    assert cur[i] == moved[i];
    if PieceOf(cur[i], literalEval).Success? {
      PiecesSnoc(moved, i, literalEval);
    } else {
      PiecesSnoc(moved, i, literalEval);
      PiecesFailureSticks(moved, i + 1, literalEval);
    }
  }

  lemma ClassifyEnd(units: seq<Cst>, cur: seq<Cst>, pieces: seq<Segment>, literalEval: string -> Option<string>)
    requires ClassifyInvariant(units, cur, |cur|, pieces, literalEval)
    ensures Classify(units, literalEval) == Success(GroupBy(pieces))
  {
    var moved := MovedFrom(units, 0);
    assert moved[..|cur|] == moved;
  }

  /** The segments of the children of a parsed tree. */
  function Classify(units: seq<Cst>, literalEval: string -> Option<string>): Result<seq<Segment>, SplitError>
    requires AllWellFormed(units)
  {
    MovedFromWellFormed(units, 0);
    match Pieces(MovedFrom(units, 0), literalEval)
    case Failure(e) => Failure(e)
    case Success(ps) => Success(GroupBy(ps))
  }

  /** What `split_text_and_code_blocks(src)` yields. */
  function Split(src: string, driver: string -> Result<Cst, ParseError>, literalEval: string -> Option<string>)
    : Result<seq<Segment>, SplitError>
    requires BuildsFileInput(driver)
  {
    match Parse(src, driver)
    case Failure(e) => Failure(ParseFailed(e))
    case Success(tree) => Classify(tree.root.children, literalEval)
  }

  /** `split_text_and_code_blocks`: parses the script, then classifies the
      children of the tree. */
  method SplitTextAndCodeBlocks(src: string, driver: string -> Result<Cst, ParseError>,
                                literalEval: string -> Option<string>)
    returns (r: Result<seq<Segment>, SplitError>)
    requires BuildsFileInput(driver)
    ensures r == Split(src, driver, literalEval)
  {
    var parsed := Parse(src, driver);
    if parsed.Failure? {
      return Failure(ParseFailed(parsed.error));
    }
    var tree := parsed.value;
    var children := new Cst[|tree.root.children|](i requires 0 <= i < |tree.root.children| => tree.root.children[i]);
    assert children[..] == tree.root.children;
    r := ClassifyInPlace(children, literalEval);
  }

  /** The loop of `split_text_and_code_blocks`: the children are re-prefixed
      in place while being classified, and the classified pieces are grouped
      as they are produced. */
  method ClassifyInPlace(children: array<Cst>, literalEval: string -> Option<string>)
    returns (r: Result<seq<Segment>, SplitError>)
    requires AllWellFormed(children[..])
    modifies children
    ensures r == Classify(old(children[..]), literalEval)
  {
    ghost var units := children[..];
    ClassifyStart(units, literalEval);
    var n := children.Length;
    var groups: seq<Segment> := [];
    ghost var pieces: seq<Segment> := [];
    var i := 0;
    while i < n
      invariant ClassifyInvariant(units, children[..], i, pieces, literalEval)
      invariant groups == GroupBy(pieces)
    {
      ClassifyAdvance(units, children[..], i, pieces, literalEval);
      var node := children[i];
      CarryPrefix(children, i);
      match PieceOf(node, literalEval)
      case Failure(e) =>
        return Failure(e);
      case Success(piece) =>
        GroupBySnoc(pieces, piece);
        pieces := pieces + [piece];
        groups := Absorb(groups, piece);
      i := i + 1;
    }
    ClassifyEnd(units, children[..], pieces, literalEval);
    return Success(groups);
  }

  /** The body of the loop for a prose unit: its prefix (comments and blank
      lines before the string) is prepended to the next unit's prefix. */
  method CarryPrefix(children: array<Cst>, i: nat)
    requires i < children.Length
    modifies children
    ensures children[..] == Step(old(children[..]), i)
  {
    var node := children[i];
    if IsProse(node) && i + 1 < children.Length {
      children[i + 1] := WithPrefix(children[i + 1], Prefix(node) + Prefix(children[i + 1]));
    }
  }

  /** The code pieces of a unit list are the code units' text. */
  lemma {:induction false} PiecesCodeText(nodes: seq<Cst>, literalEval: string -> Option<string>)
    requires AllWellFormed(nodes) && Pieces(nodes, literalEval).Success?
    ensures KindText(Pieces(nodes, literalEval).value, CodeKind) == CodeText(nodes)
  {
    if nodes != [] {
      var init := nodes[..|nodes| - 1];
      var last := nodes[|nodes| - 1];
      assert AllWellFormed(init);
      var ps := Pieces(init, literalEval).value;
      var p := PieceOf(last, literalEval).value;
      assert Pieces(nodes, literalEval).value == ps + [p];
      PiecesCodeText(init, literalEval);
      assert KindText(ps + [p], CodeKind) == KindText(ps, CodeKind) + (if p.kind == CodeKind then p.text else "") by {
        assert (ps + [p])[..|ps|] == ps;
      }
      assert CodeText(nodes) == CodeText(init) + (if IsProse(last) then "" else Str(last));
    }
  }

  /** The code segments of a split script hold every comment and blank line
      of the script and all of its code, in order; only the string literals
      that became text segments are missing. */
  lemma SplitKeepsCode(src: string, driver: string -> Result<Cst, ParseError>, literalEval: string -> Option<string>)
    requires BuildsFileInput(driver)
    requires Split(src, driver, literalEval).Success?
    ensures KindText(Split(src, driver, literalEval).value, CodeKind) == SourceText(Parse(src, driver).value.root.children)
  {
    var units := Parse(src, driver).value.root.children;
    assert AllWellFormed(units) && EndsWithCode(units) by {
      ParsedChildren(src, driver);
    }
    MovedFromWellFormed(units, 0);
    var moved := MovedFrom(units, 0);
    assert Split(src, driver, literalEval) == Classify(units, literalEval);
    var ps := Pieces(moved, literalEval).value;
    assert KindText(GroupBy(ps), CodeKind) == KindText(ps, CodeKind) by {
      GroupsKeepText(ps, CodeKind);
    }
    assert KindText(ps, CodeKind) == CodeText(moved) by {
      PiecesCodeText(moved, literalEval);
    }
    assert CodeText(moved) == SourceText(units) by {
      NoPrefixLost(units);
    }
  }

  /** The children of a parsed script are well formed and end with the end
      marker, a code unit. */
  lemma ParsedChildren(src: string, driver: string -> Result<Cst, ParseError>)
    requires BuildsFileInput(driver) && Parse(src, driver).Success?
    ensures AllWellFormed(Parse(src, driver).value.root.children)
    ensures EndsWithCode(Parse(src, driver).value.root.children)
  {
    var t := driver(Padded(src)).value;
    assert IsFileInput(t);
  }
}
