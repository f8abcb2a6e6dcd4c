/** Annotating a parsed script with flat character offsets,
    lib/sphinx_exhibit/_offset_annotator.py.

    Prose lines of the script are blanked, so offsets count only code. Each
    `Name` node gets the offset of its own position; each `Attribute` node
    gets the offset of the token that spells its attribute, taken from the
    shared stream of tokens that follow a dot. */
module OffsetAnnotation {
  import opened Wrappers

  /** A token of the tokenizer: its text and its start `(line, column)`. */
  datatype Token = Token(text: string, line: int, col: int)

  // -------------------------------------------------------------------
  // `iter_attribute_tokens`

  /** The token stream without the tokens whose text is a lone newline. */
  function WithoutNewlines(tokens: seq<Token>): (r: seq<Token>)
    ensures |r| <= |tokens|
    ensures forall t :: t in r <==> t in tokens && t.text != "\n"
  {
    if tokens == [] then []
    else (if tokens[0].text == "\n" then [] else [tokens[0]]) + WithoutNewlines(tokens[1..])
  }

  /** The positions, from `i` on, of the tokens yielded by the generator: the
      token after each dot, which is consumed and not itself tested as a dot.
      A dot with nothing after it yields nothing. */
  function AfterDots(ts: seq<Token>, i: nat): (r: seq<nat>)
    requires i <= |ts|
    ensures forall k :: 0 <= k < |r| ==> i < r[k] < |ts| && ts[r[k] - 1].text == "."
    ensures forall k, l :: 0 <= k < l < |r| ==> r[k] + 1 < r[l]
    decreases |ts| - i
  {
    if i == |ts| then []
    else if ts[i].text == "." && i + 1 < |ts| then [i + 1] + AfterDots(ts, i + 2)
    else AfterDots(ts, i + 1)
  }

  /** No dot is overlooked: a dot that was tested (not itself yielded) has its
      successor yielded whenever it has one. */
  lemma {:induction false} AfterDotsComplete(ts: seq<Token>, i: nat, j: nat)
    requires i <= j < |ts| - 1 && ts[j].text == "."
    requires j !in AfterDots(ts, i)
    ensures j + 1 in AfterDots(ts, i)
    decreases |ts| - i
  {
    if ts[i].text == "." && i + 1 < |ts| {
      if j != i {
        assert j != i + 1;
        AfterDotsComplete(ts, i + 2, j);
      }
    } else {
      AfterDotsComplete(ts, i + 1, j);
    }
  }

  function Select(ts: seq<Token>, idx: seq<nat>): (r: seq<Token>)
    requires forall k :: 0 <= k < |idx| ==> idx[k] < |ts|
    ensures |r| == |idx| && forall k :: 0 <= k < |idx| ==> r[k] == ts[idx[k]]
  {
    seq(|idx|, k requires 0 <= k < |idx| => ts[idx[k]])
  }

  /** The tokens `iter_attribute_tokens` yields, in stream order. */
  function AttributeTokens(tokens: seq<Token>): seq<Token> {
    var ts := WithoutNewlines(tokens);
    Select(ts, AfterDots(ts, 0))
  }

  lemma AfterDotsStep(ts: seq<Token>, i: nat)
    requires i < |ts|
    ensures Select(ts, AfterDots(ts, i)) ==
      if ts[i].text == "." && i + 1 < |ts| then [ts[i + 1]] + Select(ts, AfterDots(ts, i + 2))
      else Select(ts, AfterDots(ts, i + 1))
  {
    if ts[i].text == "." && i + 1 < |ts| {
      var rest := AfterDots(ts, i + 2);
      assert AfterDots(ts, i) == [i + 1] + rest;
      assert Select(ts, [i + 1] + rest) == [ts[i + 1]] + Select(ts, rest);
    }
  }

  /** The generator, consuming the filtered stream with `next`. */
  method IterAttributeTokens(tokens: seq<Token>) returns (r: seq<Token>)
    ensures r == AttributeTokens(tokens)
  {
    var ts := WithoutNewlines(tokens);
    var i := 0;
    r := [];
    while i < |ts|
      invariant i <= |ts|
      invariant r + Select(ts, AfterDots(ts, i)) == Select(ts, AfterDots(ts, 0))
      decreases |ts| - i
    {
      AfterDotsStep(ts, i);
      if ts[i].text == "." && i + 1 < |ts| {
        ghost var rest := Select(ts, AfterDots(ts, i + 2));
        assert r + [ts[i + 1]] + rest == r + ([ts[i + 1]] + rest);
        r := r + [ts[i + 1]];
        i := i + 2;
      } else {
        i := i + 1;
      }
    }
  }

  // -------------------------------------------------------------------
  // `parse`: blanked lines, line starts and offsets

  /** The lines with every line whose 1-based number is not a code line replaced by "". */
  function Blanked(lines: seq<string>, codeLines: set<int>): (r: seq<string>)
    ensures |r| == |lines|
  {
    seq(|lines|, i requires 0 <= i < |lines| => if i + 1 in codeLines then lines[i] else "")
  }

  /** The blanking loop. The source walks the set of skipped line numbers;
      blanking one line does not touch another, so walking them in ascending
      order gives the same lines. */
  method BlankSkippedLines(lines: seq<string>, codeLines: set<int>) returns (r: seq<string>)
    ensures r == Blanked(lines, codeLines)
  {
    r := lines;
    for idx := 1 to |lines| + 1
      invariant |r| == |lines|
      invariant forall i :: 0 <= i < |lines| ==> r[i] == if i + 1 in codeLines || i + 1 >= idx then lines[i] else ""
    {
      if idx !in codeLines {
        r := r[idx - 1 := ""];
      }
    }
  }

  /** The lines joined back into one text. */
  function Concat(lines: seq<string>): string {
    if lines == [] then "" else Concat(lines[..|lines| - 1]) + lines[|lines| - 1]
  }

  /** `[0, *accumulate(len(line) for line in lines)]`. */
  function LineStarts(lines: seq<string>): (r: seq<int>)
    ensures |r| == |lines| + 1 && r[0] == 0
    ensures r[|lines|] == |Concat(lines)|
  {
    if lines == [] then [0]
    else
      var init := LineStarts(lines[..|lines| - 1]);
      init + [init[|lines| - 1] + |lines[|lines| - 1]|]
  }

  /** Each entry is the length of the text before that line, so consecutive
      entries differ by the line's length and never decrease. */
  lemma {:induction false} LineStartsPrefix(lines: seq<string>, i: nat)
    requires i <= |lines|
    ensures LineStarts(lines)[i] == |Concat(lines[..i])|
    ensures i < |lines| ==> LineStarts(lines)[i + 1] - LineStarts(lines)[i] == |lines[i]|
  {
    if i < |lines| {
      var init := lines[..|lines| - 1];
      assert lines[..i + 1][..i] == lines[..i];
      if i + 1 < |lines| {
        LineStartsPrefix(init, i);
        LineStartsPrefix(init, i + 1);
        assert init[..i] == lines[..i] && init[..i + 1] == lines[..i + 1];
      } else {
        assert lines[..i] == init && lines[..i + 1] == lines;
      }
    } else {
      assert lines[..i] == lines;
    }
  }

  lemma {:induction false} ConcatAppend(a: seq<string>, b: seq<string>)
    ensures Concat(a + b) == Concat(a) + Concat(b)
    decreases |b|
  {
    if b == [] {
      assert a + b == a;
    } else {
      var init, y := b[..|b| - 1], b[|b| - 1];
      assert Concat(a + b) == Concat(a + init) + y by {
        assert (a + b)[..|a + b| - 1] == a + init;
        assert (a + b)[|a + b| - 1] == y;
      }
      ConcatAppend(a, init);
      assert Concat(a) + Concat(init) + y == Concat(a) + (Concat(init) + y);
    }
  }

  /** `to_offset`: the start of the line plus the column. */
  function ToOffset(starts: seq<int>, lineno: int, col: int): int
    requires 1 <= lineno <= |starts|
  {
    starts[lineno - 1] + col
  }

  /** The joined text is the lines before line `i`, line `i`, then the lines after it. */
  lemma ConcatAround(lines: seq<string>, i: nat)
    requires i < |lines|
    ensures Concat(lines) == Concat(lines[..i]) + lines[i] + Concat(lines[i + 1..])
  {
    var upTo, after := lines[..i + 1], lines[i + 1..];
    assert Concat(lines) == Concat(upTo) + Concat(after) by {
      assert lines == upTo + after;
      ConcatAppend(upTo, after);
    }
    ConcatPrefixSnoc(lines, i);
  }

  /** Joining one more line of a prefix. */
  lemma ConcatPrefixSnoc(lines: seq<string>, i: nat)
    requires i < |lines|
    ensures Concat(lines[..i + 1]) == Concat(lines[..i]) + lines[i]
  {
    assert lines[..i + 1][..i] == lines[..i];
  }

  /** An offset of a position inside a line points at that character of the joined text. */
  lemma OffsetPointsIntoLine(lines: seq<string>, lineno: int, col: int)
    requires 1 <= lineno <= |lines| && 0 <= col < |lines[lineno - 1]|
    ensures 0 <= ToOffset(LineStarts(lines), lineno, col) < |Concat(lines)|
    ensures Concat(lines)[ToOffset(LineStarts(lines), lineno, col)] == lines[lineno - 1][col]
  {
    var i := lineno - 1;
    var before, after := Concat(lines[..i]), Concat(lines[i + 1..]);
    ConcatAround(lines, i);
    assert ToOffset(LineStarts(lines), lineno, col) == |before| + col by {
      LineStartsPrefix(lines, i);
    }
    assert (before + lines[i] + after)[|before| + col] == lines[i][col];
  }

  /** Summed lengths of the code lines among the first `n` lines. */
  function CodeLength(lines: seq<string>, codeLines: set<int>, n: nat): nat
    requires n <= |lines|
  {
    if n == 0 then 0 else CodeLength(lines, codeLines, n - 1) + (if n in codeLines then |lines[n - 1]| else 0)
  }

  /** After blanking, a line starts after exactly the code that precedes it. */
  lemma {:induction false} BlankedStarts(lines: seq<string>, codeLines: set<int>, n: nat)
    requires n <= |lines|
    ensures LineStarts(Blanked(lines, codeLines))[n] == CodeLength(lines, codeLines, n)
  {
    var b := Blanked(lines, codeLines);
    if n > 0 {
      BlankedStarts(lines, codeLines, n - 1);
      LineStartsPrefix(b, n - 1);
    }
  }

  // -------------------------------------------------------------------
  // The syntax tree and the visitor

  /** The nodes the visitor treats specially; every other node is `Other`
      with its child nodes in field order. `FunctionDef` stands for both
      plain and `async` definitions. Offsets are `None` until annotated. */
  datatype Node =
    | Name(id: string, lineno: int, col: int, offset: Option<int>)
    | Attribute(value: Node, attr: string, offset: Option<int>)
    | FunctionDef(decorators: seq<Node>, args: Node, annotation: Option<Node>, body: seq<Node>)
    | ClassDef(decorators: seq<Node>, bases: seq<Node>, keywords: seq<Node>, body: seq<Node>)
    | Other(children: seq<Node>)

  /** Every `Name` sits on an existing line (the tree was parsed from these lines). */
  predicate NamesIn(n: Node, lineCount: nat)
    decreases n
  {
    match n
    case Name(_, lineno, _, _) => 1 <= lineno <= lineCount
    case Attribute(v, _, _) => NamesIn(v, lineCount)
    case FunctionDef(d, a, r, b) =>
      AllNamesIn(d, lineCount) && NamesIn(a, lineCount) && (r.Some? ==> NamesIn(r.value, lineCount)) && AllNamesIn(b, lineCount)
    case ClassDef(d, bs, k, b) =>
      AllNamesIn(d, lineCount) && AllNamesIn(bs, lineCount) && AllNamesIn(k, lineCount) && AllNamesIn(b, lineCount)
    case Other(c) => AllNamesIn(c, lineCount)
  }

  predicate AllNamesIn(ns: seq<Node>, lineCount: nat)
    decreases ns
  {
    forall i :: 0 <= i < |ns| ==> NamesIn(ns[i], lineCount)
  }

  /** Every token sits on an existing line. */
  predicate TokensIn(tokens: seq<Token>, lineCount: nat) {
    forall i :: 0 <= i < |tokens| ==> 1 <= tokens[i].line <= lineCount
  }

  /** The attribute names in the order the visitor reaches them: children of
      an attribute first, definitions in source order. */
  function AttrNames(n: Node): seq<string>
    decreases n
  {
    match n
    case Name(_, _, _, _) => []
    case Attribute(v, a, _) => AttrNames(v) + [a]
    case FunctionDef(d, a, r, b) =>
      AllAttrNames(d) + AttrNames(a) + (if r.Some? then AttrNames(r.value) else []) + AllAttrNames(b)
    case ClassDef(d, bs, k, b) => AllAttrNames(d) + AllAttrNames(bs) + AllAttrNames(k) + AllAttrNames(b)
    case Other(c) => AllAttrNames(c)
  }

  function AllAttrNames(ns: seq<Node>): seq<string>
    decreases ns
  {
    if ns == [] then [] else AttrNames(ns[0]) + AllAttrNames(ns[1..])
  }

  /** The first token at or after `pos` that spells `attr`; the tokens before it are skipped. */
  function FindAttr(tokens: seq<Token>, pos: nat, attr: string): (r: Option<nat>)
    ensures r.Some? ==> pos <= r.value < |tokens| && tokens[r.value].text == attr
    ensures r.Some? ==> forall k :: pos <= k < r.value ==> tokens[k].text != attr
    ensures r.None? ==> forall k :: pos <= k < |tokens| ==> tokens[k].text != attr
    decreases |tokens| - pos
  {
    if pos >= |tokens| then None
    else if tokens[pos].text == attr then Some(pos)
    else FindAttr(tokens, pos + 1, attr)
  }

  /** Matching a list of names one after the other against the stream, from `pos`:
      the position after the last match, or `None` once the stream runs out. */
  function Greedy(names: seq<string>, tokens: seq<Token>, pos: nat): (r: Option<nat>)
    ensures r.Some? ==> pos <= r.value
    decreases |names|
  {
    if names == [] then Some(pos)
    else match FindAttr(tokens, pos, names[0])
      case None => None
      case Some(j) => Greedy(names[1..], tokens, j + 1)
  }

  /** The visit of `n` with the stream at `pos`: the annotated node and the new
      stream position, or `None` when an attribute finds no token. */
  function Annotate(n: Node, tokens: seq<Token>, starts: seq<int>, pos: nat): Option<(Node, nat)>
    requires NamesIn(n, |starts|) && TokensIn(tokens, |starts|)
    decreases n
  {
    match n {
    case Name(id, lineno, col, _) =>
      Some((Name(id, lineno, col, Some(ToOffset(starts, lineno, col))), pos))
    case Attribute(v, attr, _) =>
      match Annotate(v, tokens, starts, pos) {
      case None => None
      case Some((v', p)) =>
        match FindAttr(tokens, p, attr) {
        case None => None
        case Some(j) => Some((Attribute(v', attr, Some(ToOffset(starts, tokens[j].line, tokens[j].col))), j + 1))
        }
      }
    case FunctionDef(d, a, r, b) =>
      match AnnotateAll(d, tokens, starts, pos) {
      case None => None
      case Some((d', p1)) =>
        match Annotate(a, tokens, starts, p1) {
        case None => None
        case Some((a', p2)) =>
          match AnnotateReturns(r, tokens, starts, p2) {
          case None => None
          case Some((r', p3)) =>
            match AnnotateAll(b, tokens, starts, p3) {
            case None => None
            case Some((b', p4)) => Some((FunctionDef(d', a', r', b'), p4))
            }
          }
        }
      }
    case ClassDef(d, bs, k, b) =>
      match AnnotateAll(d, tokens, starts, pos) {
      case None => None
      case Some((d', p1)) =>
        match AnnotateAll(bs, tokens, starts, p1) {
        case None => None
        case Some((bs', p2)) =>
          match AnnotateAll(k, tokens, starts, p2) {
          case None => None
          case Some((k', p3)) =>
            match AnnotateAll(b, tokens, starts, p3) {
            case None => None
            case Some((b', p4)) => Some((ClassDef(d', bs', k', b'), p4))
            }
          }
        }
      }
    case Other(c) =>
      match AnnotateAll(c, tokens, starts, pos) {
      case None => None
      case Some((c', p)) => Some((Other(c'), p))
      }
    }
  }

  function AnnotateReturns(r: Option<Node>, tokens: seq<Token>, starts: seq<int>, pos: nat): Option<(Option<Node>, nat)>
    requires r.Some? ==> NamesIn(r.value, |starts|)
    requires TokensIn(tokens, |starts|)
    decreases r
  {
    match r {
    case None => Some((None, pos))
    case Some(n) =>
      match Annotate(n, tokens, starts, pos) {
      case None => None
      case Some((n', p)) => Some((Some(n'), p))
      }
    }
  }

  function AnnotateAll(ns: seq<Node>, tokens: seq<Token>, starts: seq<int>, pos: nat): Option<(seq<Node>, nat)>
    requires AllNamesIn(ns, |starts|) && TokensIn(tokens, |starts|)
    decreases ns
  {
    if ns == [] then Some(([], pos))
    else
      match Annotate(ns[0], tokens, starts, pos) {
      case None => None
      case Some((n', p)) =>
        match AnnotateAll(ns[1..], tokens, starts, p) {
        case None => None
        case Some((rest, q)) => Some(([n'] + rest, q))
        }
      }
  }

  /** `done` followed by the nodes of a successful visit. */
  function Prepend(done: seq<Node>, r: Option<(seq<Node>, nat)>): Option<(seq<Node>, nat)> {
    match r
    case None => None
    case Some((rest, q)) => Some((done + rest, q))
  }

  lemma PrependNothing(r: Option<(seq<Node>, nat)>)
    ensures Prepend([], r) == r
  {
    match r {
      case None =>
      case Some((rest, q)) => assert [] + rest == rest;
    }
  }

  lemma PrependAssoc(done: seq<Node>, x: Node, r: Option<(seq<Node>, nat)>)
    ensures Prepend(done, Prepend([x], r)) == Prepend(done + [x], r)
  {
    match r {
      case None =>
      case Some((rest, q)) => assert done + ([x] + rest) == (done + [x]) + rest;
    }
  }

  lemma AnnotateAllUnfold(ns: seq<Node>, tokens: seq<Token>, starts: seq<int>, pos: nat)
    requires ns != [] && AllNamesIn(ns, |starts|) && TokensIn(tokens, |starts|)
    ensures AllNamesIn(ns[1..], |starts|)
    ensures AnnotateAll(ns, tokens, starts, pos) ==
      match Annotate(ns[0], tokens, starts, pos) {
        case None => None
        case Some((n', p)) => Prepend([n'], AnnotateAll(ns[1..], tokens, starts, p))
      }
  {
  }

  /** The stream position after a visit, or `None` when it fails. */
  function EndOf<T>(r: Option<(T, nat)>): Option<nat> {
    match r {
    case None => None
    case Some((_, p)) => Some(p)
    }
  }

  // -------------------------------------------------------------------
  // The visitor consumes the stream exactly as greedy matching of its names does

  lemma {:induction false} GreedyAppend(a: seq<string>, b: seq<string>, tokens: seq<Token>, pos: nat)
    ensures Greedy(a + b, tokens, pos) == match Greedy(a, tokens, pos) case None => None case Some(p) => Greedy(b, tokens, p)
    decreases |a|
  {
    if a == [] {
      assert a + b == b;
    } else {
      assert (a + b)[0] == a[0] && (a + b)[1..] == a[1..] + b;
      match FindAttr(tokens, pos, a[0]) {
      case None =>
      case Some(j) => GreedyAppend(a[1..], b, tokens, j + 1);
      }
    }
  }

  lemma {:induction false} AnnotateConsumes(n: Node, tokens: seq<Token>, starts: seq<int>, pos: nat)
    requires NamesIn(n, |starts|) && TokensIn(tokens, |starts|)
    ensures EndOf(Annotate(n, tokens, starts, pos)) == Greedy(AttrNames(n), tokens, pos)
    decreases n, 1
  {
    match n {
    case Name(_, _, _, _) =>
    case Attribute(_, _, _) =>
      AttributeConsumes(n, tokens, starts, pos);
    case FunctionDef(_, _, _, _) =>
      FunctionDefConsumes(n, tokens, starts, pos);
    case ClassDef(_, _, _, _) =>
      ClassDefConsumes(n, tokens, starts, pos);
    case Other(c) =>
      AnnotateAllConsumes(c, tokens, starts, pos);
    }
  }

  /** An attribute consumes its value's names, then the first remaining
      token spelling its own name. */
  lemma {:induction false} AttributeConsumes(n: Node, tokens: seq<Token>, starts: seq<int>, pos: nat)
    requires n.Attribute? && NamesIn(n, |starts|) && TokensIn(tokens, |starts|)
    ensures EndOf(Annotate(n, tokens, starts, pos)) == Greedy(AttrNames(n), tokens, pos)
    decreases n, 0
  {
    var Attribute(v, attr, _) := n;
    AnnotateConsumes(v, tokens, starts, pos);
    GreedyAppend(AttrNames(v), [attr], tokens, pos);
    match Greedy(AttrNames(v), tokens, pos) {
    case None =>
    case Some(p) =>
      assert [attr][1..] == [];
    }
  }

  /** A function definition consumes its decorators', arguments', return
      annotation's and body's names, in that order. */
  lemma {:induction false} FunctionDefConsumes(n: Node, tokens: seq<Token>, starts: seq<int>, pos: nat)
    requires n.FunctionDef? && NamesIn(n, |starts|) && TokensIn(tokens, |starts|)
    ensures EndOf(Annotate(n, tokens, starts, pos)) == Greedy(AttrNames(n), tokens, pos)
    decreases n, 0
  {
    var FunctionDef(d, a, r, b) := n;
    var nd, na, nr, nb := AllAttrNames(d), AttrNames(a), (if r.Some? then AttrNames(r.value) else []), AllAttrNames(b);
    assert AttrNames(n) == ((nd + na) + nr) + nb;
    AnnotateAllConsumes(d, tokens, starts, pos);
    GreedyAppend(nd + na + nr, nb, tokens, pos);
    GreedyAppend(nd + na, nr, tokens, pos);
    GreedyAppend(nd, na, tokens, pos);
    match Greedy(nd, tokens, pos) {
    case None =>
    case Some(p1) =>
      AnnotateConsumes(a, tokens, starts, p1);
      match Greedy(na, tokens, p1) {
      case None =>
      case Some(p2) =>
        AnnotateReturnsConsumes(r, tokens, starts, p2);
        match Greedy(nr, tokens, p2) {
        case None =>
        case Some(p3) =>
          AnnotateAllConsumes(b, tokens, starts, p3);
        }
      }
    }
  }

  /** A class definition consumes its decorators', bases', keywords' and
      body's names, in that order. */
  lemma {:induction false} ClassDefConsumes(n: Node, tokens: seq<Token>, starts: seq<int>, pos: nat)
    requires n.ClassDef? && NamesIn(n, |starts|) && TokensIn(tokens, |starts|)
    ensures EndOf(Annotate(n, tokens, starts, pos)) == Greedy(AttrNames(n), tokens, pos)
    decreases n, 0
  {
    var ClassDef(d, bs, k, b) := n;
    var nd, nbs, nk, nb := AllAttrNames(d), AllAttrNames(bs), AllAttrNames(k), AllAttrNames(b);
    assert AttrNames(n) == ((nd + nbs) + nk) + nb;
    AnnotateAllConsumes(d, tokens, starts, pos);
    GreedyAppend(nd + nbs + nk, nb, tokens, pos);
    GreedyAppend(nd + nbs, nk, tokens, pos);
    GreedyAppend(nd, nbs, tokens, pos);
    match Greedy(nd, tokens, pos) {
    case None =>
    case Some(p1) =>
      AnnotateAllConsumes(bs, tokens, starts, p1);
      match Greedy(nbs, tokens, p1) {
      case None =>
      case Some(p2) =>
        AnnotateAllConsumes(k, tokens, starts, p2);
        match Greedy(nk, tokens, p2) {
        case None =>
        case Some(p3) =>
          AnnotateAllConsumes(b, tokens, starts, p3);
        }
      }
    }
  }

  lemma {:induction false} AnnotateReturnsConsumes(r: Option<Node>, tokens: seq<Token>, starts: seq<int>, pos: nat)
    requires r.Some? ==> NamesIn(r.value, |starts|)
    requires TokensIn(tokens, |starts|)
    ensures EndOf(AnnotateReturns(r, tokens, starts, pos)) == Greedy(if r.Some? then AttrNames(r.value) else [], tokens, pos)
    decreases r, 2
  {
    if r.Some? {
      AnnotateConsumes(r.value, tokens, starts, pos);
    }
  }

  lemma {:induction false} AnnotateAllConsumes(ns: seq<Node>, tokens: seq<Token>, starts: seq<int>, pos: nat)
    requires AllNamesIn(ns, |starts|) && TokensIn(tokens, |starts|)
    ensures EndOf(AnnotateAll(ns, tokens, starts, pos)) == Greedy(AllAttrNames(ns), tokens, pos)
    decreases ns, 2
  {
    if ns != [] {
      AnnotateConsumes(ns[0], tokens, starts, pos);
      GreedyAppend(AttrNames(ns[0]), AllAttrNames(ns[1..]), tokens, pos);
      match Greedy(AttrNames(ns[0]), tokens, pos) {
      case None =>
      case Some(p) =>
        AnnotateAllConsumes(ns[1..], tokens, starts, p);
      }
    }
  }

  // -------------------------------------------------------------------
  // Greedy matching succeeds exactly on subsequences

  /** `idx` places `names` at strictly increasing stream positions from `pos` on. */
  predicate EmbedsFrom(names: seq<string>, tokens: seq<Token>, pos: nat, idx: seq<nat>) {
    && |idx| == |names|
    && (forall k :: 0 <= k < |idx| ==> pos <= idx[k] < |tokens| && tokens[idx[k]].text == names[k])
    && (forall k :: 0 <= k < |idx| - 1 ==> idx[k] < idx[k + 1])
  }

  lemma {:induction false} GreedyWitness(names: seq<string>, tokens: seq<Token>, pos: nat) returns (idx: seq<nat>)
    requires Greedy(names, tokens, pos).Some?
    ensures EmbedsFrom(names, tokens, pos, idx)
    decreases |names|
  {
    if names == [] {
      idx := [];
    } else {
      var j := FindAttr(tokens, pos, names[0]).value;
      var rest := GreedyWitness(names[1..], tokens, j + 1);
      idx := [j] + rest;
      assert forall k :: 1 <= k < |idx| ==> idx[k] == rest[k - 1];
    }
  }

  lemma {:induction false} FirstIsLeast(idx: seq<nat>, k: nat)
    requires forall m :: 0 <= m < |idx| - 1 ==> idx[m] < idx[m + 1]
    requires 1 <= k < |idx|
    ensures idx[0] < idx[k]
  {
    if k > 1 {
      FirstIsLeast(idx, k - 1);
    }
  }

  lemma {:induction false} GreedyFinds(names: seq<string>, tokens: seq<Token>, pos: nat, idx: seq<nat>)
    requires EmbedsFrom(names, tokens, pos, idx)
    ensures Greedy(names, tokens, pos).Some?
    decreases |names|
  {
    if names != [] {
      var j := FindAttr(tokens, pos, names[0]);
      assert j.Some? && j.value <= idx[0];
      assert EmbedsFrom(names[1..], tokens, idx[0] + 1, idx[1..]) by {
        forall k | 1 <= k < |idx| ensures idx[0] < idx[k] {
          FirstIsLeast(idx, k);
        }
        assert forall k :: 0 <= k < |idx| - 1 ==> idx[1..][k] == idx[k + 1];
      }
      GreedyFinds(names[1..], tokens, j.value + 1, idx[1..]);
    }
  }

  /** The visit gives every attribute an offset exactly when the attribute
      names, in visit order, occur in that order among the remaining attribute
      tokens; otherwise the stream runs out and the visit fails. */
  lemma AnnotateSucceedsIff(n: Node, tokens: seq<Token>, starts: seq<int>, pos: nat)
    requires NamesIn(n, |starts|) && TokensIn(tokens, |starts|)
    ensures Annotate(n, tokens, starts, pos).Some? <==> exists idx :: EmbedsFrom(AttrNames(n), tokens, pos, idx)
  {
    AnnotateConsumes(n, tokens, starts, pos);
    if Annotate(n, tokens, starts, pos).Some? {
      var idx := GreedyWitness(AttrNames(n), tokens, pos);
    }
    if idx :| EmbedsFrom(AttrNames(n), tokens, pos, idx) {
      GreedyFinds(AttrNames(n), tokens, pos, idx);
    }
  }

  /** The stream only moves forward, by at least one token per attribute. */
  lemma {:induction false} GreedyAdvances(names: seq<string>, tokens: seq<Token>, pos: nat)
    requires Greedy(names, tokens, pos).Some?
    ensures Greedy(names, tokens, pos).value >= pos + |names|
    ensures Greedy(names, tokens, pos).value <= |tokens| || names == []
    decreases |names|
  {
    if names != [] {
      var j := FindAttr(tokens, pos, names[0]).value;
      GreedyAdvances(names[1..], tokens, j + 1);
    }
  }

  // -------------------------------------------------------------------
  // The visitor object

  /** `OffsetAnnotator` with the shared attribute-token stream: `pos` is how
      many attribute tokens have been consumed. */
  class OffsetAnnotator {
    const starts: seq<int>
    const attrTokens: seq<Token>
    var pos: nat

    constructor(starts: seq<int>, attrTokens: seq<Token>)
      ensures this.starts == starts && this.attrTokens == attrTokens && pos == 0
    {
      this.starts := starts;
      this.attrTokens := attrTokens;
      pos := 0;
    }

    /** The `while True` loop of `visit_Attribute`: skip tokens up to the first one spelling `attr`. */
    method NextMatching(attr: string) returns (found: Option<nat>)
      modifies this
      ensures found == FindAttr(attrTokens, old(pos), attr)
      ensures found.Some? ==> pos == found.value + 1
    {
      while true
        invariant old(pos) <= pos
        invariant FindAttr(attrTokens, pos, attr) == FindAttr(attrTokens, old(pos), attr)
        decreases |attrTokens| - pos
      {
        if pos >= |attrTokens| {
          return None;
        }
        var token := attrTokens[pos];
        pos := pos + 1;
        if token.text == attr {
          return Some(pos - 1);
        }
      }
    }

    method Visit(n: Node) returns (r: Option<Node>)
      requires NamesIn(n, |starts|) && TokensIn(attrTokens, |starts|)
      modifies this
      ensures r.None? <==> Annotate(n, attrTokens, starts, old(pos)).None?
      ensures r.Some? ==> Annotate(n, attrTokens, starts, old(pos)) == Some((r.value, pos))
      decreases n, 1
    {
      match n
      case Name(id, lineno, col, _) =>
        r := Some(Name(id, lineno, col, Some(ToOffset(starts, lineno, col))));
      case Attribute(v, attr, _) =>
        var v' := Visit(v);
        if v'.None? {
          return None;
        }
        var j := NextMatching(attr);
        if j.None? {
          return None;
        }
        var token := attrTokens[j.value];
        r := Some(Attribute(v'.value, attr, Some(ToOffset(starts, token.line, token.col))));
      case FunctionDef(d, a, ret, b) =>
        var d' := VisitAll(d);
        if d'.None? {
          return None;
        }
        var a' := Visit(a);
        if a'.None? {
          return None;
        }
        var ret' := None;
        if ret.Some? {
          var x := Visit(ret.value);
          if x.None? {
            return None;
          }
          ret' := Some(x.value);
        }
        var b' := VisitAll(b);
        if b'.None? {
          return None;
        }
        r := Some(FunctionDef(d'.value, a'.value, ret', b'.value));
      case ClassDef(d, bs, k, b) =>
        var d' := VisitAll(d);
        if d'.None? {
          return None;
        }
        var bs' := VisitAll(bs);
        if bs'.None? {
          return None;
        }
        var k' := VisitAll(k);
        if k'.None? {
          return None;
        }
        var b' := VisitAll(b);
        if b'.None? {
          return None;
        }
        r := Some(ClassDef(d'.value, bs'.value, k'.value, b'.value));
      case Other(c) =>
        var c' := VisitAll(c);
        if c'.None? {
          return None;
        }
        r := Some(Other(c'.value));
    }

    method VisitAll(ns: seq<Node>) returns (r: Option<seq<Node>>)
      requires AllNamesIn(ns, |starts|) && TokensIn(attrTokens, |starts|)
      modifies this
      ensures r.None? <==> AnnotateAll(ns, attrTokens, starts, old(pos)).None?
      ensures r.Some? ==> AnnotateAll(ns, attrTokens, starts, old(pos)) == Some((r.value, pos))
      decreases ns, 2
    {
      var done: seq<Node> := [];
      var i := 0;
      ghost var total := AnnotateAll(ns, attrTokens, starts, pos);
      assert ns[0..] == ns;
      PrependNothing(total);
      while i < |ns|
        invariant i <= |ns|
        invariant AllNamesIn(ns[i..], |starts|)
        invariant total == Prepend(done, AnnotateAll(ns[i..], attrTokens, starts, pos))
      {
        ghost var before := pos;
        AnnotateAllUnfold(ns[i..], attrTokens, starts, pos);
        assert ns[i..][0] == ns[i] && ns[i..][1..] == ns[i + 1..];
        var x := Visit(ns[i]);
        if x.None? {
          return None;
        }
        PrependAssoc(done, x.value, AnnotateAll(ns[i + 1..], attrTokens, starts, pos));
        done := done + [x.value];
        i := i + 1;
      }
      assert ns[i..] == [];
      assert done + [] == done;
      r := Some(done);
    }
  }

  /** `parse`: attribute tokens of the file, the code lines' starts, and the
      visit of the module parsed from the whole source. The tokenizer and
      `ast.parse` are outside the model: their results are the parameters. */
  method Parse(tokens: seq<Token>, lines: seq<string>, codeLines: set<int>, tree: Node) returns (r: Option<Node>)
    requires forall i :: 0 <= i < |tokens| ==> 1 <= tokens[i].line <= |lines| + 1
    requires NamesIn(tree, |lines| + 1)
    ensures var starts := LineStarts(Blanked(lines, codeLines));
            r == match Annotate(tree, AttributeTokens(tokens), starts, 0) {
              case None => None
              case Some((n, _)) => Some(n)
            }
  {
    var attrTokens := IterAttributeTokens(tokens);
    assert TokensIn(attrTokens, |lines| + 1) by {
      var ts := WithoutNewlines(tokens);
      forall k | 0 <= k < |attrTokens| ensures 1 <= attrTokens[k].line <= |lines| + 1 {
        assert attrTokens[k] in ts;
      }
    }
    var blanked := BlankSkippedLines(lines, codeLines);
    var starts := LineStarts(blanked);
    var annotator := new OffsetAnnotator(starts, attrTokens);
    r := annotator.Visit(tree);
  }
}
