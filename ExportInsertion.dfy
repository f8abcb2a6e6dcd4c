/** Running a script with export calls (`ExhibitSource.run`) and collecting a
    block's figures (`ExhibitBlock.run`), lib/sphinx_exhibit/_implementation.py.

    `ExhibitSource.run` inserts one call to the export function after each
    capture-after line into the script's top-level statements, by a stable
    sort on the key `lineno` for a statement and `lineno + .5` for a call.
    Each call saves the open figures as `<doc>-<block>-<figure>.png`, where
    the block number counts the calls made so far. `ExhibitBlock.run` for
    block `k` then lists the directory and keeps the names that fully match
    the escaped `<doc>-<k>` followed by `-\d*.png`. */
module ExportInsertion {
  import opened Text

  /** A top-level statement of the parsed script: its line and its code. */
  datatype Statement = Statement(lineno: int, code: string)

  /** An entry of the new module body: an original statement or an export call. */
  datatype Item = Stmt(statement: Statement) | Export(lineno: int)

  /** An entry with its sort key. */
  datatype Keyed = Keyed(key: real, item: Item)

  /** The sort key the source gives each entry. */
  function KeyOf(item: Item): real {
    match item
    case Stmt(s) => s.lineno as real
    case Export(l) => l as real + 0.5
  }

  predicate WellKeyed(xs: seq<Keyed>) {
    forall i :: 0 <= i < |xs| ==> xs[i].key == KeyOf(xs[i].item)
  }

  predicate SortedByKey(xs: seq<Keyed>) {
    forall i, j :: 0 <= i < j < |xs| ==> xs[i].key <= xs[j].key
  }

  // -------------------------------------------------------------------
  // Python's `sorted` with a key: a stable sort

  /** Places `x` after every entry whose key is not greater than its own. */
  function InsertLast(s: seq<Keyed>, x: Keyed): (r: seq<Keyed>)
    ensures |r| == |s| + 1
    ensures multiset(r) == multiset(s) + multiset{x}
  {
    if s == [] || s[|s| - 1].key <= x.key then s + [x]
    else
      var init := s[..|s| - 1];
      assert s == init + [s[|s| - 1]];
      InsertLast(init, x) + [s[|s| - 1]]
  }

  lemma {:induction false} InsertLastSorted(s: seq<Keyed>, x: Keyed)
    requires SortedByKey(s)
    ensures SortedByKey(InsertLast(s, x))
    ensures InsertLast(s, x) != [] && InsertLast(s, x)[|s|].key == if s == [] then x.key else Max(s[|s| - 1].key, x.key)
  {
    if s != [] && s[|s| - 1].key > x.key {
      var init := s[..|s| - 1];
      InsertLastSorted(init, x);
      var r := InsertLast(init, x);
      assert init == [] || init[|init| - 1].key <= s[|s| - 1].key;
    }
  }

  function Max(a: real, b: real): real {
    if a <= b then b else a
  }

  /** The stable sort: each entry goes after the entries before it with no greater key. */
  function StableSort(xs: seq<Keyed>): (r: seq<Keyed>)
    ensures |r| == |xs|
    ensures multiset(r) == multiset(xs)
  {
    if xs == [] then []
    else
      var init := xs[..|xs| - 1];
      assert xs == init + [xs[|xs| - 1]];
      InsertLast(StableSort(init), xs[|xs| - 1])
  }

  lemma {:induction false} StableSortSorted(xs: seq<Keyed>)
    ensures SortedByKey(StableSort(xs))
  {
    if xs != [] {
      StableSortSorted(xs[..|xs| - 1]);
      InsertLastSorted(StableSort(xs[..|xs| - 1]), xs[|xs| - 1]);
    }
  }

  /** The entries of `xs` that satisfy `p`, in order. */
  function Filter(xs: seq<Keyed>, p: Item -> bool): (r: seq<Keyed>)
    ensures |r| <= |xs|
  {
    if xs == [] then []
    else Filter(xs[..|xs| - 1], p) + (if p(xs[|xs| - 1].item) then [xs[|xs| - 1]] else [])
  }

  lemma {:induction false} FilterAppend(xs: seq<Keyed>, ys: seq<Keyed>, p: Item -> bool)
    ensures Filter(xs + ys, p) == Filter(xs, p) + Filter(ys, p)
    decreases |ys|
  {
    if ys == [] {
      assert xs + ys == xs;
    } else {
      var init := ys[..|ys| - 1];
      assert (xs + ys)[..|xs + ys| - 1] == xs + init;
      FilterAppend(xs, init, p);
    }
  }

  /** Entries selected by `p` come in nondecreasing key order. */
  predicate KeysInOrder(xs: seq<Keyed>, p: Item -> bool) {
    forall i, j :: 0 <= i < j < |xs| && p(xs[i].item) && p(xs[j].item) ==> xs[i].key <= xs[j].key
  }

  lemma {:induction false} InsertLastFilter(s: seq<Keyed>, x: Keyed, p: Item -> bool)
    requires p(x.item) ==> forall y :: y in s && p(y.item) ==> y.key <= x.key
    ensures Filter(InsertLast(s, x), p) == Filter(s, p) + (if p(x.item) then [x] else [])
  {
    if s == [] || s[|s| - 1].key <= x.key {
      assert InsertLast(s, x) == s + [x];
      FilterSnoc(s, x, p);
    } else {
      var init := s[..|s| - 1];
      var last := s[|s| - 1];
      assert s == init + [last];
      assert p(x.item) ==> !p(last.item) by {
        assert last in s;
      }
      assert forall y :: y in init ==> y in s;
      InsertLastFilter(init, x, p);
      assert InsertLast(s, x) == InsertLast(init, x) + [last];
      FilterSnoc(InsertLast(init, x), last, p);
      FilterSnoc(init, last, p);
      if p(x.item) {
        assert Filter(s, p) == Filter(init, p) + [];
      } else if p(last.item) {
        assert Filter(InsertLast(init, x), p) == Filter(init, p) + [];
      }
    }
  }

  /** Stability: entries selected by `p` that were already in key order keep their order. */
  lemma {:induction false} StableSortFilter(xs: seq<Keyed>, p: Item -> bool)
    requires KeysInOrder(xs, p)
    ensures Filter(StableSort(xs), p) == Filter(xs, p)
  {
    if xs != [] {
      var init := xs[..|xs| - 1];
      var x := xs[|xs| - 1];
      assert xs == init + [x];
      assert KeysInOrder(init, p) by {
        forall i, j | 0 <= i < j < |init| ensures init[i] == xs[i] && init[j] == xs[j] {}
      }
      StableSortFilter(init, p);
      forall y | y in StableSort(init) && p(y.item) && p(x.item)
        ensures y.key <= x.key
      {
        assert y in multiset(init) by {
          assert y in multiset(StableSort(init));
        }
        var i :| 0 <= i < |init| && init[i] == y;
        assert xs[i] == y;
      }
      InsertLastFilter(StableSort(init), x, p);
      assert StableSort(xs) == InsertLast(StableSort(init), x);
      FilterSnoc(init, x, p);
    }
  }

  // -------------------------------------------------------------------
  // `ExhibitSource.run`: the new module body

  function BodyEntries(body: seq<Statement>): (r: seq<Keyed>)
    ensures |r| == |body|
    ensures forall i :: 0 <= i < |r| ==> r[i] == Keyed(body[i].lineno as real, Stmt(body[i]))
  {
    if body == [] then [] else BodyEntries(body[..|body| - 1]) + [Keyed(body[|body| - 1].lineno as real, Stmt(body[|body| - 1]))]
  }

  /** One export call per capture-after line `L`: the parsed call, moved to line `L`, with key `L + .5`. */
  function ExportEntries(lines: seq<int>): (r: seq<Keyed>)
    ensures |r| == |lines|
    ensures forall i :: 0 <= i < |r| ==> r[i] == Keyed(lines[i] as real + 0.5, Export(lines[i]))
  {
    if lines == [] then [] else ExportEntries(lines[..|lines| - 1]) + [Keyed(lines[|lines| - 1] as real + 0.5, Export(lines[|lines| - 1]))]
  }

  function Items(xs: seq<Keyed>): (r: seq<Item>)
    ensures |r| == |xs|
    ensures forall i :: 0 <= i < |xs| ==> r[i] == xs[i].item
  {
    if xs == [] then [] else Items(xs[..|xs| - 1]) + [xs[|xs| - 1].item]
  }

  /** The sorted entries of the new body. */
  function Entries(body: seq<Statement>, lines: seq<int>): seq<Keyed> {
    StableSort(BodyEntries(body) + ExportEntries(lines))
  }

  /** `mod.body` after the insertion. */
  function Interleave(body: seq<Statement>, lines: seq<int>): seq<Item> {
    Items(Entries(body, lines))
  }

  /** `ExhibitSource.run` up to compiling the new body. */
  method InsertExports(body: seq<Statement>, captureAfterLines: seq<int>) returns (newBody: seq<Item>)
    ensures newBody == Interleave(body, captureAfterLines)
  {
    var entries := BodyEntries(body);
    var insertions: seq<Keyed> := [];
    for i := 0 to |captureAfterLines|
      invariant insertions == ExportEntries(captureAfterLines[..i])
    {
      assert captureAfterLines[..i + 1][..i] == captureAfterLines[..i];
      var lineno := captureAfterLines[i];
      // The parsed call sits on line 1; `increment_lineno` moves it by `lineno - 1`.
      var stmt := Export(1 + (lineno - 1));
      insertions := insertions + [Keyed(lineno as real + 0.5, stmt)];
    }
    assert captureAfterLines[..|captureAfterLines|] == captureAfterLines;
    newBody := Items(StableSort(entries + insertions));
  }

  predicate IsStmt(item: Item) { item.Stmt? }

  predicate IsExport(item: Item) { item.Export? }

  /** The statements of a body, in order. */
  function Statements(items: seq<Item>): seq<Statement> {
    if items == [] then []
    else Statements(items[..|items| - 1]) + (if items[|items| - 1].Stmt? then [items[|items| - 1].statement] else [])
  }

  /** The lines of the export calls of a body, in order. */
  function ExportLines(items: seq<Item>): seq<int> {
    if items == [] then []
    else ExportLines(items[..|items| - 1]) + (if items[|items| - 1].Export? then [items[|items| - 1].lineno] else [])
  }

  lemma ItemsSnoc(xs: seq<Keyed>, x: Keyed)
    ensures Items(xs + [x]) == Items(xs) + [x.item]
  {
  }

  lemma StatementsSnoc(items: seq<Item>, it: Item)
    ensures Statements(items + [it]) == Statements(items) + (if it.Stmt? then [it.statement] else [])
    ensures ExportLines(items + [it]) == ExportLines(items) + (if it.Export? then [it.lineno] else [])
  {
    assert (items + [it])[..|items|] == items;
  }

  /** Filtering a sequence with one more entry at the end. */
  lemma FilterSnoc(xs: seq<Keyed>, x: Keyed, p: Item -> bool)
    ensures Filter(xs + [x], p) == Filter(xs, p) + (if p(x.item) then [x] else [])
  {
    assert (xs + [x])[..|xs|] == xs;
  }

  /** The statements of a sequence of entries are those of its statement entries. */
  lemma {:induction false} StatementsOfFilter(xs: seq<Keyed>)
    ensures Statements(Items(xs)) == Statements(Items(Filter(xs, IsStmt)))
  {
    if xs != [] {
      var init, x := xs[..|xs| - 1], xs[|xs| - 1];
      assert xs == init + [x];
      StatementsOfFilter(init);
      ItemsSnoc(init, x);
      StatementsSnoc(Items(init), x.item);
      FilterSnoc(init, x, IsStmt);
      if IsStmt(x.item) {
        assert Filter(xs, IsStmt) == Filter(init, IsStmt) + [x];
        ItemsSnoc(Filter(init, IsStmt), x);
        StatementsSnoc(Items(Filter(init, IsStmt)), x.item);
      } else {
        assert Filter(xs, IsStmt) == Filter(init, IsStmt);
        assert Statements(Items(xs)) == Statements(Items(init));
      }
    }
  }

  /** The export lines of a sequence of entries are those of its export entries. */
  lemma {:induction false} ExportLinesOfFilter(xs: seq<Keyed>)
    ensures ExportLines(Items(xs)) == ExportLines(Items(Filter(xs, IsExport)))
  {
    if xs != [] {
      var init, x := xs[..|xs| - 1], xs[|xs| - 1];
      assert xs == init + [x];
      ExportLinesOfFilter(init);
      ItemsSnoc(init, x);
      StatementsSnoc(Items(init), x.item);
      FilterSnoc(init, x, IsExport);
      if IsExport(x.item) {
        assert Filter(xs, IsExport) == Filter(init, IsExport) + [x];
        ItemsSnoc(Filter(init, IsExport), x);
        StatementsSnoc(Items(Filter(init, IsExport)), x.item);
      } else {
        assert Filter(xs, IsExport) == Filter(init, IsExport);
        assert ExportLines(Items(xs)) == ExportLines(Items(init));
      }
    }
  }

  lemma {:induction false} FilterBody(body: seq<Statement>)
    ensures Filter(BodyEntries(body), IsStmt) == BodyEntries(body)
    ensures Filter(BodyEntries(body), IsExport) == []
  {
    if body != [] {
      var init := body[..|body| - 1];
      FilterBody(init);
      assert BodyEntries(body) == BodyEntries(init) + [BodyEntries(body)[|body| - 1]];
      FilterSnoc(BodyEntries(init), BodyEntries(body)[|body| - 1], IsStmt);
      FilterSnoc(BodyEntries(init), BodyEntries(body)[|body| - 1], IsExport);
    }
  }

  lemma {:induction false} FilterExports(lines: seq<int>)
    ensures Filter(ExportEntries(lines), IsExport) == ExportEntries(lines)
    ensures Filter(ExportEntries(lines), IsStmt) == []
  {
    if lines != [] {
      var init := lines[..|lines| - 1];
      FilterExports(init);
      assert ExportEntries(lines) == ExportEntries(init) + [ExportEntries(lines)[|lines| - 1]];
      FilterSnoc(ExportEntries(init), ExportEntries(lines)[|lines| - 1], IsStmt);
      FilterSnoc(ExportEntries(init), ExportEntries(lines)[|lines| - 1], IsExport);
    }
  }

  lemma {:induction false} StatementsOfBody(body: seq<Statement>)
    ensures Statements(Items(BodyEntries(body))) == body
  {
    if body != [] {
      var init := body[..|body| - 1];
      StatementsOfBody(init);
      var last := BodyEntries(body)[|body| - 1];
      assert BodyEntries(body) == BodyEntries(init) + [last];
      ItemsSnoc(BodyEntries(init), last);
      StatementsSnoc(Items(BodyEntries(init)), last.item);
      assert body == init + [body[|body| - 1]];
    }
  }

  lemma {:induction false} LinesOfExports(lines: seq<int>)
    ensures ExportLines(Items(ExportEntries(lines))) == lines
  {
    if lines != [] {
      var init := lines[..|lines| - 1];
      LinesOfExports(init);
      var last := ExportEntries(lines)[|lines| - 1];
      assert ExportEntries(lines) == ExportEntries(init) + [last];
      ItemsSnoc(ExportEntries(init), last);
      StatementsSnoc(Items(ExportEntries(init)), last.item);
      assert lines == init + [lines[|lines| - 1]];
    }
  }

  predicate Nondecreasing(xs: seq<int>) {
    forall i, j :: 0 <= i < j < |xs| ==> xs[i] <= xs[j]
  }

  /** One entry per statement and per capture line, and the statements, whose
      lines never decrease in a parsed module, keep their order. */
  lemma InterleaveKeepsStatements(body: seq<Statement>, lines: seq<int>)
    requires forall i, j :: 0 <= i < j < |body| ==> body[i].lineno <= body[j].lineno
    ensures |Interleave(body, lines)| == |body| + |lines|
    ensures Statements(Interleave(body, lines)) == body
  {
    var b := BodyEntries(body);
    var e := ExportEntries(lines);
    var all := b + e;
    assert KeysInOrder(all, IsStmt) by {
      forall i, j | 0 <= i < j < |all| && IsStmt(all[i].item) && IsStmt(all[j].item)
        ensures all[i].key <= all[j].key
      {
        assert j < |b|;
      }
    }
    StableSortFilter(all, IsStmt);
    assert Filter(all, IsStmt) == b by {
      FilterAppend(b, e, IsStmt);
      FilterBody(body);
      FilterExports(lines);
      assert b + [] == b;
    }
    StatementsOfFilter(Entries(body, lines));
    StatementsOfBody(body);
  }

  /** The export calls keep the order of the capture lines when those are given in order. */
  lemma InterleaveKeepsExports(body: seq<Statement>, lines: seq<int>)
    requires Nondecreasing(lines)
    ensures ExportLines(Interleave(body, lines)) == lines
  {
    var b := BodyEntries(body);
    var e := ExportEntries(lines);
    var all := b + e;
    assert KeysInOrder(all, IsExport) by {
      forall i, j | 0 <= i < j < |all| && IsExport(all[i].item) && IsExport(all[j].item)
        ensures all[i].key <= all[j].key
      {
        assert i >= |b|;
        assert all[i] == e[i - |b|] && all[j] == e[j - |b|];
      }
    }
    StableSortFilter(all, IsExport);
    assert Filter(all, IsExport) == e by {
      FilterAppend(b, e, IsExport);
      FilterBody(body);
      FilterExports(lines);
      assert [] + e == e;
    }
    ExportLinesOfFilter(Entries(body, lines));
    LinesOfExports(lines);
  }

  lemma {:induction false} PermutationWellKeyed(xs: seq<Keyed>, ys: seq<Keyed>)
    requires WellKeyed(xs) && multiset(xs) == multiset(ys)
    ensures WellKeyed(ys)
  {
    forall k | 0 <= k < |ys| ensures ys[k].key == KeyOf(ys[k].item) {
      assert ys[k] in multiset(xs);
      var m :| 0 <= m < |xs| && xs[m] == ys[k];
    }
  }

  lemma EntriesWellKeyed(body: seq<Statement>, lines: seq<int>)
    ensures WellKeyed(Entries(body, lines))
    ensures SortedByKey(Entries(body, lines))
  {
    var b := BodyEntries(body);
    var e := ExportEntries(lines);
    var all := b + e;
    assert WellKeyed(all) by {
      forall k | 0 <= k < |all| ensures all[k].key == KeyOf(all[k].item) {
        if k >= |b| {
          assert all[k] == e[k - |b|];
        }
      }
    }
    PermutationWellKeyed(all, Entries(body, lines));
    StableSortSorted(all);
  }

  /** Every export call for line `L` comes after each statement starting on
      line `L` or before, and before each statement starting after `L`. */
  lemma ExportPlacement(body: seq<Statement>, lines: seq<int>, i: nat, j: nat)
    requires i < |Interleave(body, lines)| && j < |Interleave(body, lines)|
    requires Interleave(body, lines)[i].Export? && Interleave(body, lines)[j].Stmt?
    ensures var l := Interleave(body, lines)[i].lineno;
            var s := Interleave(body, lines)[j].statement;
            (j < i <==> s.lineno <= l)
  {
    var r := Entries(body, lines);
    EntriesWellKeyed(body, lines);
    var l := r[i].item.lineno;
    var s := r[j].item.statement;
    assert r[i].key == l as real + 0.5 && r[j].key == s.lineno as real;
    if j < i {
      assert r[j].key <= r[i].key;
    } else if i < j {
      assert r[i].key <= r[j].key;
    }
  }

  // -------------------------------------------------------------------
  // The export function and the figure names

  /** The name of figure `f` saved by the export call numbered `k`. */
  function FigureName(doc: string, k: nat, f: nat): string {
    doc + "-" + NatToString(k) + "-" + NatToString(f) + ".png"
  }

  /** The export closure of `ExhibitSource.run`: a call counter and the
      figure files saved so far. */
  class Exporter {
    const doc: string
    var blockCounter: nat
    var saved: seq<string>

    /** Every saved file belongs to an export call already made. */
    ghost predicate Valid()
      reads this
    {
      forall n :: n in saved ==> exists k: nat, f: nat :: k < blockCounter && n == FigureName(doc, k, f)
    }

    constructor(doc: string)
      ensures this.doc == doc && blockCounter == 0 && saved == []
      ensures Valid()
    {
      this.doc := doc;
      blockCounter := 0;
      saved := [];
    }

    /** `_sphinx_exhibit_export_()` with `figures` figures open: saves them
      as figure 0, 1, ... of the next block number. */
    method Export(figures: nat)
      requires Valid()
      modifies this
      ensures Valid()
      ensures blockCounter == old(blockCounter) + 1
      ensures saved == old(saved) + seq(figures, f requires 0 <= f < figures => FigureName(doc, old(blockCounter), f))
    {
      var blockIdx := blockCounter;
      blockCounter := blockCounter + 1;
      for figIdx := 0 to figures
        invariant blockCounter == old(blockCounter) + 1
        invariant saved == old(saved) + seq(figIdx, f requires 0 <= f < figIdx => FigureName(doc, blockIdx, f))
        invariant Valid()
      {
        saved := saved + [FigureName(doc, blockIdx, figIdx)];
      }
    }

    /** Every figure file saved so far is shown under exactly one block of
        any document: the block of its own document whose export call saved it. */
    lemma SavedShownOnce(n: string)
      requires Valid() && n in saved
      ensures exists k: nat :: k < blockCounter && ShownUnder(n, doc, k)
                && forall doc': string, k': nat :: ShownUnder(n, doc', k') ==> doc' == doc && k' == k
    {
      var k: nat, f: nat :| k < blockCounter && n == FigureName(doc, k, f);
      FigureSelectedByItsBlock(doc, k, doc, k, f);
      forall doc': string, k': nat | ShownUnder(n, doc', k')
        ensures doc' == doc && k' == k
      {
        FigureSelectedByItsBlock(doc', k', doc, k, f);
      }
      assert ShownUnder(n, doc, k);
    }
  }

  // -------------------------------------------------------------------
  // `ExhibitBlock.run`: the figures of a block

  /** `re.fullmatch(re.escape(prefix) + "-\d*.png", name)`: the prefix, a dash,
      any digits, any one character but a newline, then `png`. */
  predicate MatchesBlock(name: string, prefix: string) {
    && |name| >= |prefix| + 5
    && name[..|prefix| + 1] == prefix + "-"
    && AllDigits(name[|prefix| + 1..|name| - 4])
    && name[|name| - 4] != '\n'
    && name[|name| - 3..] == "png"
  }

  /** Block `k` of `doc` shows the file `name`. */
  predicate ShownUnder(name: string, doc: string, k: nat) {
    MatchesBlock(name, BlockPrefix(doc, NatToString(k)))
  }

  /** The name `<doc>-<k>` the block looks for. */
  function BlockPrefix(doc: string, arg: string): string {
    doc + "-" + arg
  }

  /** The directory entries shown under block `arg`, in listing order. */
  function BlockImages(listing: seq<string>, doc: string, arg: string): (r: seq<string>)
    ensures forall n :: n in r <==> n in listing && MatchesBlock(n, BlockPrefix(doc, arg))
  {
    if listing == [] then []
    else
      var last := listing[|listing| - 1];
      BlockImages(listing[..|listing| - 1], doc, arg) + (if MatchesBlock(last, BlockPrefix(doc, arg)) then [last] else [])
  }

  /** The text after the last dash of `s` (all of `s` when it has none). */
  function AfterLastDash(s: string): (r: string)
    ensures '-' !in r
  {
    if s == [] || s[|s| - 1] == '-' then []
    else AfterLastDash(s[..|s| - 1]) + [s[|s| - 1]]
  }

  lemma {:induction false} AfterLastDashOf(a: string, b: string)
    requires '-' !in b
    ensures AfterLastDash(a + "-" + b) == b
  {
    var s := a + "-" + b;
    if b != [] {
      var init := b[..|b| - 1];
      assert s[..|s| - 1] == a + "-" + init;
      assert '-' !in init by {
        assert forall c :: c in init ==> c in b;
      }
      AfterLastDashOf(a, init);
      assert b == init + [b[|b| - 1]];
    }
  }

  /** Splitting at the last dash: a dash followed by dash-free text fixes both sides. */
  lemma LastDash(a: string, b: string, c: string, d: string)
    requires '-' !in b && '-' !in d && a + "-" + b == c + "-" + d
    ensures a == c && b == d
  {
    var s := a + "-" + b;
    AfterLastDashOf(a, b);
    AfterLastDashOf(c, d);
    assert a == s[..|a|] == c;
  }

  lemma NoDashInNumber(n: nat)
    ensures '-' !in NatToString(n)
  {
    var s := NatToString(n);
    assert forall i :: 0 <= i < |s| ==> IsDigit(s[i]);
  }

  /** Block `k` of a document shows every figure its export call `k` saved. */
  lemma OwnFigureSelected(doc: string, k: nat, f: nat)
    ensures MatchesBlock(FigureName(doc, k, f), BlockPrefix(doc, NatToString(k)))
  {
    var name := FigureName(doc, k, f);
    var prefix := BlockPrefix(doc, NatToString(k));
    var fs := NatToString(f);
    assert name == prefix + "-" + fs + ".png";
    assert name[..|prefix| + 1] == prefix + "-";
    assert name[|prefix| + 1..|name| - 4] == fs;
    assert name[|name| - 3..] == "png";
  }

  /** A figure file shown under block `k` of `doc` was saved by export call `k`
      of `doc`: no other call and no other document in the directory produces
      a matching name. */
  lemma SelectedFigureIsOwn(doc: string, k: nat, doc': string, j: nat, f: nat)
    requires MatchesBlock(FigureName(doc', j, f), BlockPrefix(doc, NatToString(k)))
    ensures doc' == doc && j == k
  {
    var name := FigureName(doc', j, f);
    var js, fs, ks := NatToString(j), NatToString(f), NatToString(k);
    var prefix := doc + "-" + ks;
    assert |name| >= |prefix| + 5 && name[..|prefix| + 1] == prefix + "-";
    var digits := name[|prefix| + 1..|name| - 4];
    assert '-' !in digits by {
      assert AllDigits(digits);
      assert forall i :: 0 <= i < |digits| ==> IsDigit(digits[i]);
    }
    var stem := name[..|name| - 4];
    assert stem == doc' + "-" + js + "-" + fs by {
      assert name == (doc' + "-" + js + "-" + fs) + ".png";
    }
    assert stem == prefix + "-" + digits by {
      assert stem == name[..|prefix| + 1] + digits;
    }
    assert doc' + "-" + js == prefix by {
      NoDashInNumber(f);
      LastDash(doc' + "-" + js, fs, prefix, digits);
    }
    assert doc' == doc && js == ks by {
      NoDashInNumber(j);
      NoDashInNumber(k);
      LastDash(doc', js, doc, ks);
    }
    NatToStringInjective(j, k);
  }

  /** Both directions together. */
  lemma FigureSelectedByItsBlock(doc: string, k: nat, doc': string, j: nat, f: nat)
    ensures MatchesBlock(FigureName(doc', j, f), BlockPrefix(doc, NatToString(k))) <==> doc' == doc && j == k
  {
    if doc' == doc && j == k {
      OwnFigureSelected(doc, k, f);
    }
    if MatchesBlock(FigureName(doc', j, f), BlockPrefix(doc, NatToString(k))) {
      SelectedFigureIsOwn(doc, k, doc', j, f);
    }
  }

  /** A saved figure file: the document, the export call and the figure number. */
  datatype Figure = Figure(doc: string, block: nat, index: nat)

  function FigureNames(figs: seq<Figure>): (r: seq<string>)
    ensures |r| == |figs|
    ensures forall i :: 0 <= i < |figs| ==> r[i] == FigureName(figs[i].doc, figs[i].block, figs[i].index)
  {
    if figs == [] then []
    else FigureNames(figs[..|figs| - 1]) + [FigureName(figs[|figs| - 1].doc, figs[|figs| - 1].block, figs[|figs| - 1].index)]
  }

  /** The figures of one export call of one document, in listing order. */
  function FiguresOf(figs: seq<Figure>, doc: string, k: nat): seq<Figure> {
    if figs == [] then []
    else
      var last := figs[|figs| - 1];
      FiguresOf(figs[..|figs| - 1], doc, k) + (if last.doc == doc && last.block == k then [last] else [])
  }

  /** In a directory holding saved figures, block `k` of `doc` lists exactly the
      figures export call `k` of `doc` saved, in directory order. */
  lemma {:induction false} BlockListsItsFigures(figs: seq<Figure>, doc: string, k: nat)
    ensures BlockImages(FigureNames(figs), doc, NatToString(k)) == FigureNames(FiguresOf(figs, doc, k))
  {
    if figs != [] {
      var init := figs[..|figs| - 1];
      var last := figs[|figs| - 1];
      BlockListsItsFigures(init, doc, k);
      assert FigureNames(figs)[..|figs| - 1] == FigureNames(init);
      FigureSelectedByItsBlock(doc, k, last.doc, last.block, last.index);
      var mine := FiguresOf(init, doc, k);
      if last.doc == doc && last.block == k {
        assert FigureNames(mine + [last])[..|mine|] == FigureNames(mine);
      } else {
        assert FiguresOf(figs, doc, k) == mine;
      }
    }
  }

  /** The reStructuredText `ExhibitBlock.run` hands to docutils: the block's
      code, indented, then one image per selected figure. */
  function BlockRst(content: seq<string>, images: seq<string>): (r: seq<string>)
    ensures |r| == |content| + |images| + 3
    ensures r[..2] == [".. code-block:: python", ""] && r[|content| + 2] == ""
    ensures forall i :: 0 <= i < |content| ==> r[i + 2] == "   " + content[i]
    ensures forall j :: 0 <= j < |images| ==> r[|content| + 3 + j] == ".. image:: " + images[j]
  {
    [".. code-block:: python", ""]
    + seq(|content|, i requires 0 <= i < |content| => "   " + content[i])
    + [""]
    + seq(|images|, j requires 0 <= j < |images| => ".. image:: " + images[j])
  }
}
