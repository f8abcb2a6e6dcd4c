/** Choosing the scripts an `exhibit` directive covers and where their pages
    go (`ExhibitBase.get_src_and_dest_paths`,
    lib/sphinx_exhibit/_implementation.py).

    Each content line of the directive is a glob pattern relative to the
    source directory. A line starting with `!` removes the matching paths
    accumulated so far; a line starting with `\!` adds the paths matching the
    rest of the line (the backslash is dropped); any other line adds its
    matches. Matches are added in sorted order. Globbing is a parameter. */
module SourceSelection {
  import opened Wrappers
  import opened Text

  /** A path as the sequence of its parts, as pathlib splits it. */
  datatype Path = Path(parts: seq<string>)

  datatype PathError =
    | NotRelative(path: Path, base: Path)   // `relative_to` raises ValueError
    | EmptyName(path: Path)                 // `with_suffix` raises ValueError

  // -------------------------------------------------------------------
  // Ordering: Python compares strings by code point and paths by their parts

  /** `a <= b` on strings. */
  predicate StrLe(a: string, b: string) {
    a == [] || (b != [] && (a[0] < b[0] || (a[0] == b[0] && StrLe(a[1..], b[1..]))))
  }

  predicate StrLt(a: string, b: string) {
    StrLe(a, b) && a != b
  }

  lemma {:induction false} StrLeTotal(a: string, b: string)
    ensures StrLe(a, b) || StrLe(b, a)
  {
    if a != [] && b != [] && a[0] == b[0] {
      StrLeTotal(a[1..], b[1..]);
    }
  }

  lemma {:induction false} StrLeAntisymmetric(a: string, b: string)
    requires StrLe(a, b) && StrLe(b, a)
    ensures a == b
  {
    if a != [] && b != [] {
      StrLeAntisymmetric(a[1..], b[1..]);
      assert a == [a[0]] + a[1..];
      assert b == [b[0]] + b[1..];
    }
  }

  lemma {:induction false} StrLeTransitive(a: string, b: string, c: string)
    requires StrLe(a, b) && StrLe(b, c)
    ensures StrLe(a, c)
  {
    if a != [] && b != [] && c != [] && a[0] == b[0] == c[0] {
      StrLeTransitive(a[1..], b[1..], c[1..]);
    }
  }

  /** `p <= q` on paths: the parts compared lexicographically. */
  predicate PartsLe(a: seq<string>, b: seq<string>) {
    a == [] || (b != [] && (StrLt(a[0], b[0]) || (a[0] == b[0] && PartsLe(a[1..], b[1..]))))
  }

  predicate PathLe(p: Path, q: Path) {
    PartsLe(p.parts, q.parts)
  }

  lemma {:induction false} PartsLeTotal(a: seq<string>, b: seq<string>)
    ensures PartsLe(a, b) || PartsLe(b, a)
  {
    if a != [] && b != [] {
      if a[0] == b[0] {
        PartsLeTotal(a[1..], b[1..]);
      } else {
        StrLeTotal(a[0], b[0]);
      }
    }
  }

  lemma {:induction false} PartsLeTransitive(a: seq<string>, b: seq<string>, c: seq<string>)
    requires PartsLe(a, b) && PartsLe(b, c)
    ensures PartsLe(a, c)
  {
    if a != [] && b != [] && c != [] {
      if a[0] == b[0] && b[0] == c[0] {
        PartsLeTransitive(a[1..], b[1..], c[1..]);
      } else if StrLt(a[0], b[0]) && StrLt(b[0], c[0]) {
        StrLeTransitive(a[0], b[0], c[0]);
        if a[0] == c[0] {
          StrLeAntisymmetric(a[0], b[0]);
        }
      }
    }
  }

  predicate Sorted(ps: seq<Path>) {
    forall i, j :: 0 <= i < j < |ps| ==> PathLe(ps[i], ps[j])
  }

  // -------------------------------------------------------------------
  // `sorted`

  /** Inserts `x` before the first element it does not follow. */
  function Insert(x: Path, s: seq<Path>): (r: seq<Path>)
    requires Sorted(s)
    ensures Sorted(r)
    ensures multiset(r) == multiset(s) + multiset{x}
    ensures |r| == |s| + 1
  {
    if s == [] then [x]
    else if PathLe(x, s[0]) then
      InsertFrontSorted(x, s);
      [x] + s
    else
      assert Sorted(s[1..]);
      var rest := Insert(x, s[1..]);
      InsertBehindSorted(x, s, rest);
      [s[0]] + rest
  }

  lemma InsertFrontSorted(x: Path, s: seq<Path>)
    requires Sorted(s) && s != [] && PathLe(x, s[0])
    ensures Sorted([x] + s)
  {
    var r := [x] + s;
    forall j | 0 < j < |r| ensures PathLe(x, r[j]) {
      if j > 1 {
        PartsLeTransitive(x.parts, s[0].parts, r[j].parts);
      }
    }
  }

  lemma InsertBehindSorted(x: Path, s: seq<Path>, rest: seq<Path>)
    requires Sorted(s) && s != [] && !PathLe(x, s[0])
    requires Sorted(rest) && multiset(rest) == multiset(s[1..]) + multiset{x}
    ensures Sorted([s[0]] + rest)
    ensures multiset([s[0]] + rest) == multiset(s) + multiset{x}
  {
    assert s == [s[0]] + s[1..];
    PartsLeTotal(x.parts, s[0].parts);
    forall j | 0 <= j < |rest| ensures PathLe(s[0], rest[j]) {
      assert rest[j] in multiset(rest);
      assert rest[j] == x || rest[j] in multiset(s[1..]);
    }
  }

  /** Python's `sorted` on paths: an ordered permutation. */
  function SortPaths(ps: seq<Path>): (r: seq<Path>)
    ensures Sorted(r)
    ensures multiset(r) == multiset(ps)
    ensures |r| == |ps|
  {
    if ps == [] then []
    else
      assert ps == [ps[0]] + ps[1..];
      Insert(ps[0], SortPaths(ps[1..]))
  }

  // -------------------------------------------------------------------
  // Building the list of sources

  /** Position of the first occurrence of `x` in `ps`. */
  function IndexOf(ps: seq<Path>, x: Path): (i: nat)
    requires x in ps
    ensures i < |ps| && ps[i] == x
    ensures forall j :: 0 <= j < i ==> ps[j] != x
  {
    if ps[0] == x then 0 else 1 + IndexOf(ps[1..], x)
  }

  /** `list.remove(x)`, with a missing `x` ignored as the `except ValueError` does. */
  function RemoveFirst(ps: seq<Path>, x: Path): (r: seq<Path>)
    ensures x !in ps ==> r == ps
    ensures x in ps ==> r == ps[..IndexOf(ps, x)] + ps[IndexOf(ps, x) + 1..]
    ensures multiset(r) == multiset(ps) - multiset{x}
  {
    if x in ps then
      var i := IndexOf(ps, x);
      assert ps == ps[..i] + [x] + ps[i + 1..];
      ps[..i] + ps[i + 1..]
    else ps
  }

  /** The inner loop of a `!` line: each excluded path is removed once. */
  function RemoveEach(ps: seq<Path>, xs: seq<Path>): (r: seq<Path>)
  {
    if xs == [] then ps else RemoveFirst(RemoveEach(ps, xs[..|xs| - 1]), xs[|xs| - 1])
  }

  /** The paths a `!` line takes away are exactly its matches, counted with multiplicity. */
  lemma {:induction false} RemoveEachDifference(ps: seq<Path>, xs: seq<Path>)
    ensures multiset(RemoveEach(ps, xs)) == multiset(ps) - multiset(xs)
  {
    if xs != [] {
      var init := xs[..|xs| - 1];
      var x := xs[|xs| - 1];
      var mid := RemoveEach(ps, init);
      assert multiset(mid) == multiset(ps) - multiset(init) by {
        RemoveEachDifference(ps, init);
      }
      assert multiset(xs) == multiset(init) + multiset{x} by {
        assert xs == init + [x];
      }
      assert multiset(RemoveEach(ps, xs)) == multiset(mid) - multiset{x};
      DifferenceStep(multiset(ps), multiset(init), x);
    }
  }

  lemma DifferenceStep(m: multiset<Path>, a: multiset<Path>, x: Path)
    ensures (m - a) - multiset{x} == m - (a + multiset{x})
  {
  }

  /** `f` maps each position of `a` to a position of `b` holding the same
      path, strictly increasingly: `a` is `b` with some elements left out. */
  predicate Embeds(a: seq<Path>, b: seq<Path>, f: seq<nat>) {
    && |f| == |a|
    && (forall k :: 0 <= k < |f| ==> f[k] < |b| && a[k] == b[f[k]])
    && (forall k, l :: 0 <= k < l < |f| ==> f[k] < f[l])
  }

  ghost predicate IsSubsequence(a: seq<Path>, b: seq<Path>) {
    exists f :: Embeds(a, b, f)
  }

  lemma EmbedsCompose(a: seq<Path>, b: seq<Path>, c: seq<Path>, f: seq<nat>, g: seq<nat>) returns (h: seq<nat>)
    requires Embeds(a, b, f) && Embeds(b, c, g)
    ensures Embeds(a, c, h)
  {
    h := seq(|f|, k requires 0 <= k < |f| => g[f[k]]);
  }

  lemma IdentityEmbeds(ps: seq<Path>) returns (f: seq<nat>)
    ensures Embeds(ps, ps, f)
  {
    f := seq(|ps|, k requires 0 <= k < |ps| => k);
  }

  lemma SkipEmbeds(ps: seq<Path>, i: nat) returns (f: seq<nat>)
    requires i < |ps|
    ensures Embeds(ps[..i] + ps[i + 1..], ps, f)
  {
    var r := ps[..i] + ps[i + 1..];
    f := seq(|r|, k requires 0 <= k < |r| => if k < i then k else k + 1);
    forall k | 0 <= k < |r|
      ensures r[k] == ps[f[k]]
    {
      if k < i {
        assert r[k] == ps[..i][k];
      } else {
        assert r[k] == ps[i + 1..][k - i];
      }
    }
  }

  lemma RemoveFirstEmbeds(ps: seq<Path>, x: Path) returns (f: seq<nat>)
    ensures Embeds(RemoveFirst(ps, x), ps, f)
  {
    if x in ps {
      f := SkipEmbeds(ps, IndexOf(ps, x));
    } else {
      f := IdentityEmbeds(ps);
    }
  }

  /** Removing never reorders what remains: the result is a subsequence. */
  lemma {:induction false} RemoveEachKeepsOrder(ps: seq<Path>, xs: seq<Path>)
    ensures IsSubsequence(RemoveEach(ps, xs), ps)
  {
    var f := RemoveEachEmbeds(ps, xs);
  }

  lemma {:induction false} RemoveEachEmbeds(ps: seq<Path>, xs: seq<Path>) returns (f: seq<nat>)
    ensures Embeds(RemoveEach(ps, xs), ps, f)
  {
    if xs == [] {
      f := seq(|ps|, k requires 0 <= k < |ps| => k);
    } else {
      var init := xs[..|xs| - 1];
      var mid := RemoveEach(ps, init);
      var g := RemoveEachEmbeds(ps, init);
      var h := RemoveFirstEmbeds(mid, xs[|xs| - 1]);
      f := EmbedsCompose(RemoveEach(ps, xs), mid, ps, h, g);
    }
  }

  /** What one content line does to the accumulated sources. */
  function ApplyLine(ps: seq<Path>, line: string, glob: string -> seq<Path>): seq<Path> {
    if StartsWith(line, "!") then RemoveEach(ps, SortPaths(glob(line[1..])))
    else
      var pattern := if StartsWith(line, "\\!") then line[1..] else line;
      ps + SortPaths(glob(pattern))
  }

  /** The sources selected by the first lines of the content. */
  function Selected(lines: seq<string>, glob: string -> seq<Path>): seq<Path> {
    if lines == [] then [] else ApplyLine(Selected(lines[..|lines| - 1], glob), lines[|lines| - 1], glob)
  }

  /** The pattern a non-`!` line globs: a leading `\!` loses its backslash. */
  function AddedPattern(line: string): string {
    if StartsWith(line, "\\!") then line[1..] else line
  }

  /** What each kind of line does: a `!` line removes its matches (once each,
      absent ones ignored) and keeps the order of the rest; any other line
      keeps what was there and appends its matches in sorted order. */
  lemma ApplyLineEffect(ps: seq<Path>, line: string, glob: string -> seq<Path>)
    ensures var r := ApplyLine(ps, line, glob);
            StartsWith(line, "!") ==>
              multiset(r) == multiset(ps) - multiset(glob(line[1..])) && IsSubsequence(r, ps)
    ensures var r := ApplyLine(ps, line, glob);
            !StartsWith(line, "!") ==>
              && |r| == |ps| + |glob(AddedPattern(line))|
              && r[..|ps|] == ps
              && Sorted(r[|ps|..])
              && multiset(r[|ps|..]) == multiset(glob(AddedPattern(line)))
  {
    var r := ApplyLine(ps, line, glob);
    if StartsWith(line, "!") {
      var xs := SortPaths(glob(line[1..]));
      RemoveEachDifference(ps, xs);
      RemoveEachKeepsOrder(ps, xs);
    } else {
      var added := SortPaths(glob(AddedPattern(line)));
      assert r == ps + added;
      assert r[|ps|..] == added;
    }
  }

  /** An escaped line adds the paths matching the pattern that starts with `!`. */
  lemma EscapedBangAdds(ps: seq<Path>, line: string, glob: string -> seq<Path>)
    requires StartsWith(line, "\\!")
    ensures StartsWith(AddedPattern(line), "!")
    ensures multiset(ApplyLine(ps, line, glob)) == multiset(ps) + multiset(glob(line[1..]))
  {
    assert line[0] == line[..2][0] == '\\';
    assert !StartsWith(line, "!");
    assert line[1..][..1] == line[..2][1..];
    var added := SortPaths(glob(line[1..]));
    assert ApplyLine(ps, line, glob) == ps + added;
  }

  lemma SelectedStep(lines: seq<string>, i: nat, glob: string -> seq<Path>)
    requires i < |lines|
    ensures Selected(lines[..i + 1], glob) == ApplyLine(Selected(lines[..i], glob), lines[i], glob)
  {
    assert lines[..i + 1][..i] == lines[..i];
  }

  /** The inner loop of a `!` line: `src_paths.remove(path)` for each
      excluded path, a missing one ignored. */
  method RemoveExcluded(srcPaths: seq<Path>, excluded: seq<Path>) returns (r: seq<Path>)
    ensures r == RemoveEach(srcPaths, excluded)
  {
    r := srcPaths;
    for j := 0 to |excluded|
      invariant r == RemoveEach(srcPaths, excluded[..j])
    {
      assert excluded[..j + 1][..j] == excluded[..j];
      r := RemoveFirst(r, excluded[j]);
    }
    assert excluded[..|excluded|] == excluded;
  }

  /** The content loop of `get_src_and_dest_paths`. */
  method SelectSources(content: seq<string>, glob: string -> seq<Path>) returns (srcPaths: seq<Path>)
    ensures srcPaths == Selected(content, glob)
  {
    srcPaths := [];
    for li := 0 to |content|
      invariant srcPaths == Selected(content[..li], glob)
    {
      SelectedStep(content, li, glob);
      var line := content[li];
      if StartsWith(line, "!") {
        var excluded := SortPaths(glob(line[1..]));
        srcPaths := RemoveExcluded(srcPaths, excluded);
      } else {
        if StartsWith(line, "\\!") {
          line := line[1..];
        }
        var added := SortPaths(glob(line));
        srcPaths := srcPaths + added;
      }
    }
    assert content[..|content|] == content;
  }

  // -------------------------------------------------------------------
  // Destinations

  /** `p.relative_to(base)`: the parts of `p` after those of `base`. */
  function RelativeTo(p: Path, base: Path): (r: Result<seq<string>, PathError>)
    ensures r.Success? <==> base.parts <= p.parts
    ensures r.Success? ==> base.parts + r.value == p.parts
  {
    if base.parts <= p.parts then Success(p.parts[|base.parts|..]) else Failure(NotRelative(p, base))
  }

  /** Index of the last `.` in `name`, or -1. */
  function LastDot(name: string): (i: int)
    ensures -1 <= i < |name|
    ensures i >= 0 ==> name[i] == '.'
    ensures forall j :: i < j < |name| ==> name[j] != '.'
  {
    if name == [] then -1
    else if name[|name| - 1] == '.' then |name| - 1
    else LastDot(name[..|name| - 1])
  }

  /** `PurePath.suffix` of a name: from the last dot, unless that dot is the
      first or the last character. */
  function Suffix(name: string): (s: string)
    ensures |s| <= |name| && s == name[|name| - |s|..]
  {
    var i := LastDot(name);
    if 0 < i < |name| - 1 then name[i..] else ""
  }

  function Stem(name: string): string {
    name[..|name| - |Suffix(name)|]
  }

  /** `p.with_suffix(suffix)`: replaces the suffix of the last part. */
  function WithSuffix(p: Path, suffix: string): (r: Result<Path, PathError>)
    ensures r.Success? <==> p.parts != [] && p.parts[|p.parts| - 1] != ""
  {
    if p.parts == [] || p.parts[|p.parts| - 1] == "" then Failure(EmptyName(p))
    else
      var name := p.parts[|p.parts| - 1];
      Success(Path(p.parts[..|p.parts| - 1] + [Stem(name) + suffix]))
  }

  /** The page for a source: `(dest_dir / src.relative_to(src_dir)).with_suffix(".rst")`. */
  function DestPath(src: Path, srcDir: Path, destDir: Path): Result<Path, PathError> {
    match RelativeTo(src, srcDir)
    case Failure(e) => Failure(e)
    case Success(rel) => WithSuffix(Path(destDir.parts + rel), ".rst")
  }

  /** The comprehension pairing each selected source with its page; the
      first error raises. */
  function SrcAndDest(srcPaths: seq<Path>, srcDir: Path, destDir: Path): Result<seq<(Path, Path)>, PathError> {
    PairEach(srcPaths, p => DestPath(p, srcDir, destDir))
  }

  /** Pairs each path with `page` of it, in order; the first error raises. */
  function PairEach(srcPaths: seq<Path>, page: Path -> Result<Path, PathError>): Result<seq<(Path, Path)>, PathError> {
    if srcPaths == [] then Success([])
    else
      match page(srcPaths[0])
      case Failure(e) => Failure(e)
      case Success(d) =>
        match PairEach(srcPaths[1..], page)
        case Failure(e) => Failure(e)
        case Success(rest) => Success([(srcPaths[0], d)] + rest)
  }

  /** `get_src_and_dest_paths`, with the source and destination directories
      already resolved against the current document's directory. */
  method GetSrcAndDestPaths(content: seq<string>, glob: string -> seq<Path>, srcDir: Path, destDir: Path)
    returns (r: Result<seq<(Path, Path)>, PathError>)
    ensures r == SrcAndDest(Selected(content, glob), srcDir, destDir)
  {
    var srcPaths := SelectSources(content, glob);
    r := SrcAndDest(srcPaths, srcDir, destDir);
  }

  /** The pairing succeeds exactly when every selected source has a page. */
  lemma SrcAndDestSucceeds(srcPaths: seq<Path>, srcDir: Path, destDir: Path)
    ensures SrcAndDest(srcPaths, srcDir, destDir).Success? <==>
            forall i :: 0 <= i < |srcPaths| ==> DestPath(srcPaths[i], srcDir, destDir).Success?
  {
    var page := p => DestPath(p, srcDir, destDir);
    PairEachSucceeds(srcPaths, page);
    assert forall i :: 0 <= i < |srcPaths| ==> page(srcPaths[i]) == DestPath(srcPaths[i], srcDir, destDir);
  }

  lemma {:induction false} PairEachSucceeds(srcPaths: seq<Path>, page: Path -> Result<Path, PathError>)
    ensures PairEach(srcPaths, page).Success? <==> forall i :: 0 <= i < |srcPaths| ==> page(srcPaths[i]).Success?
  {
    if srcPaths != [] {
      PairEachSucceeds(srcPaths[1..], page);
      assert forall i :: 1 <= i < |srcPaths| ==> srcPaths[i] == srcPaths[1..][i - 1];
    }
  }

  /** One pair per selected source, in order, each with its own page. */
  lemma SrcAndDestPairs(srcPaths: seq<Path>, srcDir: Path, destDir: Path)
    requires SrcAndDest(srcPaths, srcDir, destDir).Success?
    ensures var pairs := SrcAndDest(srcPaths, srcDir, destDir).value;
            && |pairs| == |srcPaths|
            && forall i :: 0 <= i < |pairs| ==>
                 pairs[i].0 == srcPaths[i] && DestPath(srcPaths[i], srcDir, destDir) == Success(pairs[i].1)
  {
    var page := p => DestPath(p, srcDir, destDir);
    PairEachLength(srcPaths, page);
    forall i | 0 <= i < |srcPaths|
      ensures PairEach(srcPaths, page).value[i].0 == srcPaths[i]
      ensures DestPath(srcPaths[i], srcDir, destDir) == Success(PairEach(srcPaths, page).value[i].1)
    {
      PairEachAt(srcPaths, page, i);
    }
  }

  /** A successful pairing is the first path's pair followed by a successful
      pairing of the rest. */
  lemma PairEachCons(srcPaths: seq<Path>, page: Path -> Result<Path, PathError>)
    requires srcPaths != [] && PairEach(srcPaths, page).Success?
    ensures page(srcPaths[0]).Success? && PairEach(srcPaths[1..], page).Success?
    ensures PairEach(srcPaths, page).value == [(srcPaths[0], page(srcPaths[0]).value)] + PairEach(srcPaths[1..], page).value
  {
  }

  lemma {:induction false} PairEachLength(srcPaths: seq<Path>, page: Path -> Result<Path, PathError>)
    requires PairEach(srcPaths, page).Success?
    ensures |PairEach(srcPaths, page).value| == |srcPaths|
  {
    if srcPaths != [] {
      PairEachCons(srcPaths, page);
      PairEachLength(srcPaths[1..], page);
    }
  }

  lemma {:induction false} PairEachAt(srcPaths: seq<Path>, page: Path -> Result<Path, PathError>, i: nat)
    requires PairEach(srcPaths, page).Success? && i < |srcPaths|
    ensures |PairEach(srcPaths, page).value| == |srcPaths|
    ensures PairEach(srcPaths, page).value[i].0 == srcPaths[i]
    ensures page(srcPaths[i]) == Success(PairEach(srcPaths, page).value[i].1)
    decreases i
  {
    PairEachLength(srcPaths, page);
    PairEachCons(srcPaths, page);
    if i > 0 {
      PairEachAt(srcPaths[1..], page, i - 1);
      assert srcPaths[1..][i - 1] == srcPaths[i];
    }
  }

  /** A page mirrors its source's place under the source directory inside the
      destination directory; only the suffix of the last part becomes `.rst`. */
  lemma DestPathShape(src: Path, srcDir: Path, destDir: Path)
    requires DestPath(src, srcDir, destDir).Success?
    ensures var rel := src.parts[|srcDir.parts|..];
            var dest := DestPath(src, srcDir, destDir).value;
            && srcDir.parts <= src.parts
            && |dest.parts| == |destDir.parts| + |rel|
            && (rel != [] ==> destDir.parts + rel[..|rel| - 1] <= dest.parts)
            && Stem(dest.parts[|dest.parts| - 1]) + Suffix(dest.parts[|dest.parts| - 1])
               == dest.parts[|dest.parts| - 1]
            && EndsWith(dest.parts[|dest.parts| - 1], ".rst")
  {
    var rel := src.parts[|srcDir.parts|..];
    var joined := destDir.parts + rel;
    assert RelativeTo(src, srcDir) == Success(rel);
    assert DestPath(src, srcDir, destDir) == WithSuffix(Path(joined), ".rst");
    var dest := DestPath(src, srcDir, destDir).value;
    var name := joined[|joined| - 1];
    assert name != [];
    var newName := Stem(name) + ".rst";
    assert dest.parts == joined[..|joined| - 1] + [newName];
    assert dest.parts[|dest.parts| - 1] == newName;
    if rel != [] {
      assert joined[..|joined| - 1] == destDir.parts + rel[..|rel| - 1];
    }
    StemNonEmpty(name);
    SuffixOfRst(Stem(name));
    assert newName[|newName| - 4..] == ".rst";
  }

  /** A non-empty name keeps a non-empty stem: a leading dot is no suffix. */
  lemma StemNonEmpty(name: string)
    requires name != []
    ensures Stem(name) != []
  {
    var i := LastDot(name);
    if 0 < i < |name| - 1 {
      assert |Suffix(name)| == |name| - i;
    }
  }

  /** Past a non-empty stem, ".rst" is the suffix. */
  lemma SuffixOfRst(stem: string)
    requires stem != []
    ensures Suffix(stem + ".rst") == ".rst" && Stem(stem + ".rst") == stem
  {
    var n := stem + ".rst";
    assert n == (stem + ".") + "rst";
    LastDotAppend(stem + ".", "rst");
  }

  lemma {:induction false} LastDotAppend(a: string, b: string)
    requires '.' !in b
    ensures LastDot(a + b) == LastDot(a)
  {
    if b != [] {
      var c := a + b;
      assert c[..|c| - 1] == a + b[..|b| - 1];
      LastDotAppend(a, b[..|b| - 1]);
    } else {
      assert a + b == a;
    }
  }

  /** Giving a page name the `.rst` suffix again changes nothing. */
  lemma WithSuffixIdempotent(p: Path)
    requires WithSuffix(p, ".rst").Success?
    ensures WithSuffix(WithSuffix(p, ".rst").value, ".rst") == WithSuffix(p, ".rst")
  {
    var name := p.parts[|p.parts| - 1];
    assert |Stem(name)| > 0;
    SuffixOfRst(Stem(name));
    var q := WithSuffix(p, ".rst").value;
    assert q.parts[..|q.parts| - 1] == p.parts[..|p.parts| - 1];
  }

  /** When every glob match lies under the source directory, so does every
      selected source. */
  lemma {:induction false} SelectedUnder(lines: seq<string>, glob: string -> seq<Path>, srcDir: Path)
    requires forall s: string, q :: q in glob(s) ==> srcDir.parts <= q.parts
    ensures forall p :: p in Selected(lines, glob) ==> srcDir.parts <= p.parts
  {
    if lines != [] {
      var init := lines[..|lines| - 1];
      var line := lines[|lines| - 1];
      var ps := Selected(init, glob);
      SelectedUnder(init, glob, srcDir);
      var r := ApplyLine(ps, line, glob);
      forall p | p in r ensures srcDir.parts <= p.parts {
        ApplyLineEffect(ps, line, glob);
        if StartsWith(line, "!") {
          assert p in multiset(r);
          assert p in multiset(ps);
        } else {
          var k :| 0 <= k < |r| && r[k] == p;
          if k < |ps| {
            assert p == r[..|ps|][k];
          } else {
            assert p == r[|ps|..][k - |ps|];
            assert p in multiset(r[|ps|..]);
            assert p in glob(AddedPattern(line));
          }
        }
      }
    }
  }
}
