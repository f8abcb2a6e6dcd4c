/** Writing the reStructuredText page of one script (`generate_rst`,
    lib/sphinx_exhibit/_implementation.py) and recognising such pages on the
    next build (`gen_exhibits`). */
module RstGeneration {
  import opened Wrappers
  import opened Text
  import opened LosslessParser
  import opened Segmentation

  /** The comment every generated page starts with. */
  const DeletionNotice: string :=
    ".. This file was autogenerated by sphinx-exhibit, and will be deleted in the\n   next build.\n\n"

  datatype RstError = SplitFailed(error: SplitError) | UnknownKind(kind: SegmentKind)

  /** The state of the loop over the segments: the paragraphs so far, the
      next block number and the capture-after lines so far. */
  datatype Emitted = Emitted(paragraphs: seq<string>, blocks: nat, captureAfterLines: seq<int>)

  /** The directive that opens kept code block `k`. */
  function BlockHeader(k: nat): string {
    ".. exhibit-block:: " + NatToString(k)
  }

  /** The line after which block `s` is captured. */
  function CaptureLine(s: Segment): int {
    s.lineno + CountChar(s.text, '\n') - 1
  }

  /** A code segment that gets an `exhibit-block` (whitespace-only ones do not). */
  predicate IsKept(s: Segment) {
    s.kind == CodeKind && !IsBlank(s.text)
  }

  /** The kept code segments, in order. */
  function Kept(segments: seq<Segment>): (r: seq<Segment>)
    ensures |r| <= |segments|
    ensures forall j :: 0 <= j < |r| ==> IsKept(r[j])
  {
    if segments == [] then []
    else
      var last := segments[|segments| - 1];
      Kept(segments[..|segments| - 1]) + (if IsKept(last) then [last] else [])
  }

  /** One iteration of the loop of `generate_rst`. */
  function EmitOne(e: Emitted, s: Segment): Result<Emitted, RstError> {
    match s.kind
    case TextKind => Success(e.(paragraphs := e.paragraphs + [s.text]))
    case CodeKind =>
      if IsBlank(s.text) then Success(e)
      else Success(Emitted(e.paragraphs + [BlockHeader(e.blocks), Indent(s.text, "   ")],
                           e.blocks + 1, e.captureAfterLines + [CaptureLine(s)]))
    case OtherKind(_) => Failure(UnknownKind(s.kind))
  }

  /** The loop of `generate_rst` over all segments. */
  function Emit(segments: seq<Segment>): Result<Emitted, RstError> {
    if segments == [] then Success(Emitted([], 0, []))
    else
      match Emit(segments[..|segments| - 1])
      case Failure(err) => Failure(err)
      case Success(e) => EmitOne(e, segments[|segments| - 1])
  }

  /** The page for the script at `srcPath` from the emitted paragraphs. */
  function Page(srcPath: string, e: Emitted): string {
    DeletionNotice + PageBody(srcPath, e)
  }

  /** Everything on the page after the deletion notice. */
  function PageBody(srcPath: string, e: Emitted): string {
    ":orphan:\n"
    + "\n"
    + ".. exhibit-source::\n"
    + "   :source: " + srcPath + "\n"
    + "   :capture-after-lines: " + CaptureOption(e.captureAfterLines) + "\n"
    + "\n"
    + Join("\n\n", e.paragraphs)
  }

  /** The value of the `:capture-after-lines:` option: the lines, space-separated. */
  function CaptureOption(lines: seq<int>): string {
    Join(" ", IntStrings(lines))
  }

  function Rst(srcPath: string, segments: seq<Segment>): Result<string, RstError> {
    match Emit(segments)
    case Failure(err) => Failure(err)
    case Success(e) => Success(Page(srcPath, e))
  }

  /** The loop of `generate_rst`, over segments already split. */
  method RstFromSegments(srcPath: string, segments: seq<Segment>) returns (r: Result<string, RstError>)
    ensures r == Rst(srcPath, segments)
  {
    var paragraphs: seq<string> := [];
    var blockCounter: nat := 0;
    var captureAfterLines: seq<int> := [];
    var i := 0;
    while i < |segments|
      invariant 0 <= i <= |segments|
      invariant Emit(segments[..i]) == Success(Emitted(paragraphs, blockCounter, captureAfterLines))
    {
      var s := segments[i];
      EmitStep(segments, i);
      match s.kind {
        case TextKind =>
          paragraphs := paragraphs + [s.text];
        case CodeKind =>
          if !IsBlank(s.text) {
            AppendTwice(paragraphs, BlockHeader(blockCounter), Indent(s.text, "   "));
            captureAfterLines := captureAfterLines + [CaptureLine(s)];
            paragraphs := paragraphs + [BlockHeader(blockCounter)];
            blockCounter := blockCounter + 1;
            paragraphs := paragraphs + [Indent(s.text, "   ")];
          }
        case OtherKind(_) =>
          EmitStops(segments, i);
          return Failure(UnknownKind(s.kind));
      }
      i := i + 1;
    }
    assert segments[..i] == segments;
    return Success(Page(srcPath, Emitted(paragraphs, blockCounter, captureAfterLines)));
  }

  /** `generate_rst(src_path)` for the script text `src` read from `srcPath`. */
  method GenerateRst(srcPath: string, src: string, driver: string -> Result<Cst, ParseError>,
                     literalEval: string -> Option<string>) returns (r: Result<string, RstError>)
    requires BuildsFileInput(driver)
    ensures Split(src, driver, literalEval).Failure? ==>
              r == Failure(SplitFailed(Split(src, driver, literalEval).error))
    ensures Split(src, driver, literalEval).Success? ==>
              r == Rst(srcPath, Split(src, driver, literalEval).value)
  {
    var blocks := SplitTextAndCodeBlocks(src, driver, literalEval);
    if blocks.Failure? {
      return Failure(SplitFailed(blocks.error));
    }
    r := RstFromSegments(srcPath, blocks.value);
  }

  // -------------------------------------------------------------------
  // Properties of the loop

  /** One more segment: a text segment appends its string, a blank code
      segment changes nothing, and a kept code segment appends its header and
      its indented code, takes the next block number and its capture line. */
  lemma EmitStep(segments: seq<Segment>, i: nat)
    requires i < |segments| && Emit(segments[..i]).Success?
    ensures var e := Emit(segments[..i]).value; var s := segments[i];
      && (s.kind == TextKind ==> Emit(segments[..i + 1]) == Success(e.(paragraphs := e.paragraphs + [s.text])))
      && (s.kind == CodeKind && IsBlank(s.text) ==> Emit(segments[..i + 1]) == Success(e))
      && (s.kind == CodeKind && !IsBlank(s.text) ==>
            Emit(segments[..i + 1]) == Success(Emitted(e.paragraphs + [BlockHeader(e.blocks), Indent(s.text, "   ")],
                                                       e.blocks + 1, e.captureAfterLines + [CaptureLine(s)])))
  {
    var longer := segments[..i + 1];
    assert longer[..|longer| - 1] == segments[..i];
    assert longer[|longer| - 1] == segments[i];
    assert Emit(longer) == EmitOne(Emit(segments[..i]).value, segments[i]);
  }

  lemma AppendTwice<T>(xs: seq<T>, a: T, b: T)
    ensures xs + [a] + [b] == xs + [a, b]
  {
  }

  /** The first segment with an unknown tag ends the loop with an error. */
  lemma {:induction false} EmitStops(segments: seq<Segment>, i: nat)
    requires i < |segments| && segments[i].kind.OtherKind?
    requires Emit(segments[..i]).Success?
    ensures Emit(segments) == Failure(UnknownKind(segments[i].kind))
  {
    if i + 1 < |segments| {
      var init := segments[..|segments| - 1];
      assert init[..i] == segments[..i];
      assert init[i] == segments[i];
      EmitStops(init, i);
    } else {
      assert segments[..|segments| - 1] == segments[..i];
    }
  }

  /** `generate_rst` succeeds exactly when every tag is "text" or "code". */
  lemma EmitSucceeds(segments: seq<Segment>)
    ensures Emit(segments).Success? <==> forall i :: 0 <= i < |segments| ==> !segments[i].kind.OtherKind?
  {
    if forall i :: 0 <= i < |segments| ==> !segments[i].kind.OtherKind? {
      EmitKnownSucceeds(segments);
    } else {
      var i :| 0 <= i < |segments| && segments[i].kind.OtherKind?;
      EmitUnknownFails(segments, i);
    }
  }

  /** A run over segments of known kinds only goes through. */
  lemma {:induction false} EmitKnownSucceeds(segments: seq<Segment>)
    requires forall i :: 0 <= i < |segments| ==> !segments[i].kind.OtherKind?
    ensures Emit(segments).Success?
  {
    if segments != [] {
      var init := segments[..|segments| - 1];
      assert forall i :: 0 <= i < |init| ==> init[i] == segments[i];
      EmitKnownSucceeds(init);
      EmitLastFails(segments);
    }
  }

  /** A run that meets a segment of unknown kind at `i` fails. */
  lemma {:induction false} EmitUnknownFails(segments: seq<Segment>, i: nat)
    requires i < |segments| && segments[i].kind.OtherKind?
    ensures Emit(segments).Failure?
  {
    var init := segments[..|segments| - 1];
    if i < |init| {
      assert init[i] == segments[i];
      EmitUnknownFails(init, i);
      EmitFailureSticks(segments);
    } else if Emit(init).Success? {
      assert i == |segments| - 1;
      EmitLastFails(segments);
    } else {
      EmitFailureSticks(segments);
    }
  }

  /** Once the earlier segments failed, the whole run fails. */
  lemma EmitFailureSticks(segments: seq<Segment>)
    requires segments != [] && Emit(segments[..|segments| - 1]).Failure?
    ensures Emit(segments).Failure?
  {
  }

  /** Once the earlier segments went through, the run fails exactly when the
      last segment is of an unknown kind. */
  lemma EmitLastFails(segments: seq<Segment>)
    requires segments != [] && Emit(segments[..|segments| - 1]).Success?
    ensures Emit(segments).Failure? <==> segments[|segments| - 1].kind.OtherKind?
  {
    var e := Emit(segments[..|segments| - 1]).value;
    assert Emit(segments) == EmitOne(e, segments[|segments| - 1]);
  }

  /** Every kept code segment, and only those, gets a block number and a
      capture-after line; the numbers are 0, 1, 2, ... and the lines are the
      blocks' start lines plus their newline counts minus one, in order. */
  lemma {:induction false} EmitCounts(segments: seq<Segment>)
    requires Emit(segments).Success?
    ensures Emit(segments).value.blocks == |Kept(segments)|
    ensures |Emit(segments).value.captureAfterLines| == |Kept(segments)|
    ensures forall j :: 0 <= j < |Kept(segments)| ==>
              Emit(segments).value.captureAfterLines[j]
              == Kept(segments)[j].lineno + CountChar(Kept(segments)[j].text, '\n') - 1
  {
    if segments != [] {
      var init := segments[..|segments| - 1];
      EmitCounts(init);
    }
  }

  /** The paragraphs of a shorter run are a prefix of those of a longer one. */
  lemma {:induction false} EmitGrows(segments: seq<Segment>, i: nat)
    requires i <= |segments| && Emit(segments).Success?
    ensures Emit(segments[..i]).Success?
    ensures Emit(segments[..i]).value.paragraphs <= Emit(segments).value.paragraphs
    decreases |segments| - i
  {
    if i < |segments| {
      var init := segments[..|segments| - 1];
      assert init[..i] == segments[..i];
      EmitGrows(init, i);
    } else {
      assert segments[..i] == segments;
    }
  }

  /** Where segment `i` lands among the paragraphs: a text segment is one
      paragraph, unchanged; a kept code segment is its `exhibit-block` header,
      numbered by the kept code segments before it, then its indented code;
      a whitespace-only code segment adds nothing. */
  lemma SegmentParagraphs(segments: seq<Segment>, i: nat)
    requires i < |segments| && Emit(segments).Success?
    ensures Emit(segments[..i]).Success? && Emit(segments[..i + 1]).Success?
    ensures var before := Emit(segments[..i]).value.paragraphs;
            var after := Emit(segments[..i + 1]).value.paragraphs;
            var all := Emit(segments).value.paragraphs;
            && after <= all
            && (segments[i].kind == TextKind ==> after == before + [segments[i].text])
            && (IsKept(segments[i]) ==>
                  after == before + [BlockHeader(|Kept(segments[..i])|), Indent(segments[i].text, "   ")])
            && (segments[i].kind == CodeKind && !IsKept(segments[i]) ==> after == before)
  {
    EmitGrows(segments, i + 1);
    var pre := segments[..i + 1];
    assert pre[..i] == segments[..i];
    assert pre[i] == segments[i];
    EmitCounts(segments[..i]);
  }

  // -------------------------------------------------------------------
  // The page

  /** A generated page is recognised on the next build by its first lines. */
  predicate IsGenerated(contents: string) {
    StartsWith(contents, DeletionNotice)
  }

  /** Every page `generate_rst` writes is deleted by the next build. */
  lemma RstIsGenerated(srcPath: string, segments: seq<Segment>)
    requires Rst(srcPath, segments).Success?
    ensures IsGenerated(Rst(srcPath, segments).value)
  {
    var e := Emit(segments).value;
    StartsWithAppend(DeletionNotice, PageBody(srcPath, e));
  }

  /** docutils reading an option declared `positive_int_list`: an empty field
      is passed on as None, which the converter rejects; otherwise every
      space-separated word must be an integer of at least 1. */
  function ReadCaptureOption(value: string): (r: Option<seq<int>>)
    ensures r.Some? ==> value != [] && AllPositive(r.value)
  {
    if value == [] then None
    else
      match ParseInts(Words(value))
      case Some(xs) => if AllPositive(xs) then Some(xs) else None
      case None => None
  }

  predicate AllPositive(xs: seq<int>) {
    forall i :: 0 <= i < |xs| ==> xs[i] >= 1
  }

  /** The `:capture-after-lines:` value reads back as the capture lines, in
      order, exactly when there is at least one and all are positive; the
      page of a script without a kept code block has an empty value, which
      `exhibit-source` rejects. */
  lemma CaptureOptionReadsBack(lines: seq<int>)
    ensures ReadCaptureOption(CaptureOption(lines)) == (if lines != [] && AllPositive(lines) then Some(lines) else None)
  {
    ParseIntsJoin(lines);
    if lines != [] {
      var parts := IntStrings(lines);
      assert CaptureOption(lines) != [] by {
        if |parts| > 1 {
          assert CaptureOption(lines) == parts[0] + " " + Join(" ", parts[1..]);
        }
      }
    }
  }

  /** The capture line counts the newlines of the whole group text, so the
      comments and blank lines before the group's first statement push it
      past the group's last line by their number of lines. */
  lemma CaptureLineCountsPrefix(prefix: string, body: string, lineno: int)
    ensures CaptureLine(Segment(CodeKind, prefix + body, lineno))
            == (lineno + CountChar(body, '\n') - 1) + CountChar(prefix, '\n')
  {
    CountCharConcat(prefix, body, '\n');
  }

  // -------------------------------------------------------------------
  // Deleting generated pages (the first loop of `gen_exhibits`)

  datatype Document = Document(path: string, contents: string)

  /** The found documents that are generated pages. */
  function GeneratedPaths(docs: seq<Document>): (r: seq<string>)
    ensures |r| <= |docs|
  {
    if docs == [] then []
    else
      var last := docs[|docs| - 1];
      GeneratedPaths(docs[..|docs| - 1]) + (if IsGenerated(last.contents) then [last.path] else [])
  }

  /** The found documents that are scanned for `exhibit` directives. */
  function AuthoredPaths(docs: seq<Document>): (r: seq<string>)
    ensures |r| <= |docs|
  {
    if docs == [] then []
    else
      var last := docs[|docs| - 1];
      AuthoredPaths(docs[..|docs| - 1]) + (if IsGenerated(last.contents) then [] else [last.path])
  }

  /** The loop of `gen_exhibits`: generated pages are unlinked, the others
      are kept for the directive scan. */
  method SortFoundDocs(docs: seq<Document>) returns (unlinked: seq<string>, scanned: seq<string>)
    ensures unlinked == GeneratedPaths(docs)
    ensures scanned == AuthoredPaths(docs)
  {
    unlinked, scanned := [], [];
    var i := 0;
    while i < |docs|
      invariant 0 <= i <= |docs|
      invariant unlinked == GeneratedPaths(docs[..i])
      invariant scanned == AuthoredPaths(docs[..i])
    {
      assert docs[..i + 1][..i] == docs[..i];
      if StartsWith(docs[i].contents, DeletionNotice) {
        unlinked := unlinked + [docs[i].path];
      } else {
        scanned := scanned + [docs[i].path];
      }
      i := i + 1;
    }
    assert docs[..i] == docs;
  }

  /** Each found document is either unlinked or scanned, never both. */
  lemma {:induction false} FoundDocsPartition(docs: seq<Document>)
    ensures |GeneratedPaths(docs)| + |AuthoredPaths(docs)| == |docs|
    ensures forall d :: d in docs && IsGenerated(d.contents) ==> d.path in GeneratedPaths(docs)
    ensures forall d :: d in docs && !IsGenerated(d.contents) ==> d.path in AuthoredPaths(docs)
  {
    if docs != [] {
      var init := docs[..|docs| - 1];
      FoundDocsPartition(init);
      assert docs == init + [docs[|docs| - 1]];
    }
  }
}
