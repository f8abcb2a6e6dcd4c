# sphinx-exhibit, modelled in Dafny

sphinx-exhibit turns Python example scripts into Sphinx pages. An
`exhibit` directive lists scripts by glob patterns. For each script it
writes a generated reStructuredText page. On that page:
- the script's module-level string literals become prose;
- the remaining code becomes numbered `exhibit-block`s.

When the page is built, an `exhibit-source` directive runs the script with
an export call inserted after each block. Each `exhibit-block` then shows
the figures that call saved.

This project models the core of that pipeline and proves properties of it:

- `LosslessParser` (`_parser.py`): `parse` pads the code with a newline
  and wraps a lone leaf. `regenerate` undoes the padding, so a lossless
  parser round-trips.
- `Segmentation` (`split_text_and_code_blocks`):
  - classifies the top-level statements of the concrete syntax tree;
  - moves each prose statement's prefix (its leading comments and blank
    lines) onto the next statement, in place on an array of children;
  - groups runs of the same kind.
- `RstGeneration` (`generate_rst` and the deletion pass of `gen_exhibits`):
  - emits paragraphs and numbered code blocks;
  - emits the capture-after lines and the page header;
  - separates generated pages from authored ones.
- `SourceSelection` (`get_src_and_dest_paths`):
  - adding and removing glob lines over sorted path lists;
  - destination paths relative to the source directory, with a `.rst` suffix.
- `ExportInsertion` (`ExhibitSource.run`, the export function, `ExhibitBlock.run`):
  - the stable sort that interleaves export calls with statements;
  - the figure naming;
  - the file-name pattern that picks a block's figures.
- `OffsetAnnotation` (`_offset_annotator.py`):
  - the attribute-token generator;
  - blanking of prose lines;
  - line-start offsets;
  - the visitor, which consumes one shared token stream.
- `DirectiveRunner` (`_util.py`):
  - `item`;
  - the signature-to-directive loop of `directive_runner`;
  - the argument and option remapping of the generated `run`.

`CaptureLineFinding` exhibits a script on which the capture-after line of
`generate_rst` runs a block's export call too late, and defines the line the
call evidently belongs after (see "## Findings").

`Wrappers` holds `Option` and `Result`. `Text` holds string helpers: decimal
rendering and parsing, `Join`, splitting on spaces, `Indent`, and counting a
character.

Calls into code outside the model are passed in as function parameters:
- the lib2to3 driver;
- `ast.literal_eval`;
- `glob`.

Results the model cannot compute are passed in as plain values:
- the tokenizer's tokens;
- the statements produced by `ast.parse`;
- the directory listing.

A raised exception is a `Failure` or `None` result.

## Model

| member | source | states |
|---|---|---|
| LosslessParser.Padded | lib/sphinx_exhibit/_parser.py:15-18 | the text handed to the driver always ends with a newline; it is the code unchanged when the code already ends with one, otherwise the code plus one character |
| LosslessParser.Parse | lib/sphinx_exhibit/_parser.py:9-29 | fails exactly when the driver fails on the padded code; always returns a Node, wrapping a lone Leaf as the only child of `file_input`; `addedNewline` is set exactly when the code did not end with a newline |
| LosslessParser.Regenerate | lib/sphinx_exhibit/_parser.py:32-40 | drops exactly the last character of the tree's text when `added_newline` is set, and otherwise returns the text unchanged (also when the attribute is missing) |
| LosslessParser.WrapKeepsText | lib/sphinx_exhibit/_parser.py:24-25 | wrapping a leaf in a `file_input` node does not change its text |
| LosslessParser.WithPrefixFacts | lib/sphinx_exhibit/_implementation.py:71-72 | setting a node's prefix changes only the prefix: body, line number and leaf values stay |
| LosslessParser.RegenerateParse | lib/sphinx_exhibit/_parser.py:9-40 | round trip: with a parser whose tree prints back its input, `regenerate(parse(code)) == code` for every code it parses |
| Segmentation.MarksBytesOrFormatMeaning | lib/sphinx_exhibit/_implementation.py:67-69 | the search for a `b`/`B`/`f`/`F` before the first quote holds iff such a letter occurs before any quote character |
| Segmentation.RawStringIsProse | lib/sphinx_exhibit/_implementation.py:65-69 | a statement made of an `r`-prefixed string literal counts as prose |
| Segmentation.WithPrefixKeepsKind | lib/sphinx_exhibit/_implementation.py:65-72 | moving prefixes never changes whether a statement is prose or code |
| Segmentation.MovedFromUpTo | lib/sphinx_exhibit/_implementation.py:63-72 | the prefix moves of the loop up to step k followed by the rest give the moves over the whole list |
| Segmentation.PrefixCarried | lib/sphinx_exhibit/_implementation.py:71-72 | before step k, the code emitted so far plus the prefix statement k now carries equals the source text of the first k statements plus its own prefix |
| Segmentation.NoPrefixLost | lib/sphinx_exhibit/_implementation.py:63-78 | when the statements end with code, the code text after all prefix moves equals the source text of the prose prefixes and code statements together: no comment or blank line is lost |
| Segmentation.GroupsAlternate | lib/sphinx_exhibit/_implementation.py:80-82 | consecutive groups always differ in kind, and the last group has the kind of the last piece |
| Segmentation.GroupsFollowRuns | lib/sphinx_exhibit/_implementation.py:80-82 | there is one group per run of equal kinds, with the kind and the first line number of the run's first piece |
| Segmentation.GroupsKeepText | lib/sphinx_exhibit/_implementation.py:80-82 | the text of each kind, read across the groups, equals that text read across the pieces (`"".join` inside groups loses nothing) |
| Segmentation.PiecesCodeText | lib/sphinx_exhibit/_implementation.py:73-78 | the code pieces' text is the concatenated text of the code statements |
| Segmentation.CarryPrefix | lib/sphinx_exhibit/_implementation.py:71-72 | moving statement i's prefix onto statement i + 1 in the array leaves the array as one step of the moves |
| Segmentation.ClassifyInPlace | lib/sphinx_exhibit/_implementation.py:63-82 | the loop over the array of children returns the grouped pieces of the moved statements, or the first `literal_eval` failure |
| Segmentation.SplitTextAndCodeBlocks | lib/sphinx_exhibit/_implementation.py:60-82 | parses and classifies the whole script |
| Segmentation.SplitKeepsCode | lib/sphinx_exhibit/_implementation.py:60-82 | after a successful split, the code blocks hold exactly the source text of the parsed statements outside the prose literals, prefixes included |
| RstGeneration.EmitSucceeds | lib/sphinx_exhibit/_implementation.py:99-111 | the loop succeeds iff no segment has a kind other than text or code |
| RstGeneration.EmitStops | lib/sphinx_exhibit/_implementation.py:110-111 | the first segment of another kind ends the loop with the assertion error |
| RstGeneration.EmitCounts | lib/sphinx_exhibit/_implementation.py:103-108 | one block number and one capture line per non-blank code segment, and the j-th capture line is the j-th kept segment's line number plus its newline count minus one |
| RstGeneration.EmitGrows | lib/sphinx_exhibit/_implementation.py:99-109 | the loop only appends: paragraphs after any prefix of the segments are a prefix of the final paragraphs |
| RstGeneration.SegmentParagraphs | lib/sphinx_exhibit/_implementation.py:100-109 | a text segment appends its string; a kept code segment appends the header numbered by the count of earlier kept code segments and the code indented by three spaces; a blank code segment appends nothing |
| RstGeneration.RstFromSegments | lib/sphinx_exhibit/_implementation.py:96-122 | the loop and the assembled page agree with the page defined from the emitted paragraphs and capture lines |
| RstGeneration.GenerateRst | lib/sphinx_exhibit/_implementation.py:85-122 | a split failure is reported as such; otherwise the page is built from the split's segments |
| RstGeneration.RstIsGenerated | lib/sphinx_exhibit/_implementation.py:113-122 | every generated page starts with the deletion notice, the very test (line 46) under which the next build deletes it |
| RstGeneration.CaptureOptionReadsBack | lib/sphinx_exhibit/_implementation.py:119-120 | read by docutils as the `positive_int_list` option `capture-after-lines` of `exhibit-source` (lines 195, 205), the space-joined capture lines give back the same list exactly when there is at least one and all are positive; an empty list leaves the option empty, which is rejected |
| RstGeneration.CaptureLineCountsPrefix | lib/sphinx_exhibit/_implementation.py:106 | the capture line of a code group counts the newlines of the group's leading prefix as well as those of its body |
| CaptureLineFinding.CaptureLinesCollide | lib/sphinx_exhibit/_implementation.py:97-108 | for a script whose first code statement follows blank lines, both kept groups get capture line 6, and every export call then runs after every statement |
| CaptureLineFinding.IntendedCaptureLineIsLastLine | lib/sphinx_exhibit/_implementation.py:106 | the corrected capture line, which drops the group's leading comment and blank lines, is the last line of the group's statements whatever prefix comes before them |
| CaptureLineFinding.IntendedLinesSeparate | lib/sphinx_exhibit/_implementation.py:106 | on the same script the corrected lines are 4 and 6, and the export call for line 4 runs after the statements up to line 4 and before the later ones |
| RstGeneration.SortFoundDocs | lib/sphinx_exhibit/_implementation.py:44-51 | the loop over found documents unlinks exactly the generated ones and scans exactly the others |
| RstGeneration.FoundDocsPartition | lib/sphinx_exhibit/_implementation.py:44-51 | every found document is either unlinked or scanned, never both |
| SourceSelection.StrLeTotal | lib/sphinx_exhibit/_implementation.py:142-154 | the path order used by `sorted` (lines 142 and 154) is total |
| SourceSelection.PartsLeTransitive | lib/sphinx_exhibit/_implementation.py:142-154 | the path order used by `sorted` is transitive |
| SourceSelection.SortPaths | lib/sphinx_exhibit/_implementation.py:142-154 | `sorted` (lines 142 and 154) returns an ordered permutation of the glob's paths |
| SourceSelection.RemoveFirst | lib/sphinx_exhibit/_implementation.py:146-150 | `list.remove` drops the first occurrence, and a missing path leaves the list unchanged |
| SourceSelection.RemoveEachDifference | lib/sphinx_exhibit/_implementation.py:146-150 | removing each excluded path gives the multiset difference |
| SourceSelection.RemoveEachKeepsOrder | lib/sphinx_exhibit/_implementation.py:146-150 | removal keeps the remaining paths in their order |
| SourceSelection.RemoveExcluded | lib/sphinx_exhibit/_implementation.py:146-150 | the loop over the excluded paths gives `RemoveEach`: each excluded path's first occurrence is removed, a missing one is ignored |
| SourceSelection.ApplyLineEffect | lib/sphinx_exhibit/_implementation.py:140-158 | a `!` line removes its matches and keeps the order of the rest; any other line keeps the list and appends its matches sorted |
| SourceSelection.EscapedBangAdds | lib/sphinx_exhibit/_implementation.py:152-154 | a line starting with a backslash and `!` adds the matches of the pattern starting with `!` |
| SourceSelection.SelectSources | lib/sphinx_exhibit/_implementation.py:139-158 | the loop over the content lines computes the selected paths |
| SourceSelection.RelativeTo | lib/sphinx_exhibit/_implementation.py:161 | `relative_to` succeeds iff the base is a prefix of the path, and then base plus result is the path |
| SourceSelection.Suffix | lib/sphinx_exhibit/_implementation.py:163 | a name's suffix is a tail of the name |
| SourceSelection.WithSuffix | lib/sphinx_exhibit/_implementation.py:163 | `with_suffix` fails iff the path has an empty name |
| SourceSelection.GetSrcAndDestPaths | lib/sphinx_exhibit/_implementation.py:136-164 | the method returns the source/destination pairs of the selected paths |
| SourceSelection.SrcAndDestSucceeds | lib/sphinx_exhibit/_implementation.py:160-164 | the pairing succeeds iff every selected path has a destination |
| SourceSelection.SrcAndDestPairs | lib/sphinx_exhibit/_implementation.py:160-164 | one pair per selected path, in order, with its destination |
| SourceSelection.DestPathShape | lib/sphinx_exhibit/_implementation.py:160-163 | a destination lies under the destination directory at the source's relative place and ends in `.rst` |
| SourceSelection.WithSuffixIdempotent | lib/sphinx_exhibit/_implementation.py:163 | giving a path the `.rst` suffix twice is the same as once |
| SourceSelection.SelectedUnder | lib/sphinx_exhibit/_implementation.py:138-158 | when the glob only returns paths under the source directory, so does the selection |
| Text.ParseIntsJoin | lib/sphinx_exhibit/_implementation.py:119-120 | integers joined by spaces split and parse back to the same list |
| Text.NatToStringInjective | lib/sphinx_exhibit/_implementation.py:107-108 | distinct block numbers render as distinct strings |
| ExportInsertion.StableSort | lib/sphinx_exhibit/_implementation.py:209-210 | `sorted` returns a permutation of its input |
| ExportInsertion.StableSortSorted | lib/sphinx_exhibit/_implementation.py:209-210 | `sorted` orders the entries by key |
| ExportInsertion.StableSortFilter | lib/sphinx_exhibit/_implementation.py:209-210 | stability: entries of one class whose keys were in order keep their relative order |
| ExportInsertion.InsertExports | lib/sphinx_exhibit/_implementation.py:202-210 | the loop over the capture lines and the sort build the interleaved body |
| ExportInsertion.InterleaveKeepsStatements | lib/sphinx_exhibit/_implementation.py:202-210 | the new body has one entry per statement and per capture line, and the script's statements stay in their order |
| ExportInsertion.InterleaveKeepsExports | lib/sphinx_exhibit/_implementation.py:204-210 | export calls for capture lines given in order appear in that order, one per line |
| ExportInsertion.ExportPlacement | lib/sphinx_exhibit/_implementation.py:202-210 | an export call for line L comes after a statement iff that statement starts on line L or before |
| ExportInsertion.Exporter.Export | lib/sphinx_exhibit/_implementation.py:213-222 | each call takes the next block number and saves its open figures as `<doc>-<block>-<figure>.png`, figure numbers counting from 0 |
| ExportInsertion.Exporter.SavedShownOnce | lib/sphinx_exhibit/_implementation.py:215-243 | every file the export calls have saved is shown under exactly one block of any document: the block of its own document numbered by the call that saved it |
| ExportInsertion.BlockImages | lib/sphinx_exhibit/_implementation.py:241-243 | keeps, in listing order, exactly the listed names that match the block's pattern: `<doc>-<k>-`, digits, one character other than a newline, then `png` |
| ExportInsertion.FigureSelectedByItsBlock | lib/sphinx_exhibit/_implementation.py:215-243 | block k of a document matches a saved figure iff it was saved by export call k of the same document: no other call or document collides |
| ExportInsertion.BlockListsItsFigures | lib/sphinx_exhibit/_implementation.py:241-247 | over a listing of saved figures, the images shown under block k are exactly that call's figures, in listing order |
| ExportInsertion.BlockRst | lib/sphinx_exhibit/_implementation.py:244-247 | the directive's output is the code block header, the code indented, a blank line, then one image line per figure |
| OffsetAnnotation.AfterDots | lib/sphinx_exhibit/_offset_annotator.py:13-15 | every yielded token directly follows a dot, yielded tokens are in stream order, and a yielded token is never itself tested as a dot |
| OffsetAnnotation.AfterDotsComplete | lib/sphinx_exhibit/_offset_annotator.py:13-15 | no dot is missed: a tested dot with a successor has that successor yielded |
| OffsetAnnotation.WithoutNewlines | lib/sphinx_exhibit/_offset_annotator.py:11-12 | the filter keeps exactly the tokens whose text is not a newline |
| OffsetAnnotation.IterAttributeTokens | lib/sphinx_exhibit/_offset_annotator.py:7-15 | the generator's loop yields the token after each dot of the filtered stream |
| OffsetAnnotation.BlankSkippedLines | lib/sphinx_exhibit/_offset_annotator.py:24-27 | the line count is unchanged, code lines keep their text, and every other line becomes empty |
| OffsetAnnotation.LineStarts | lib/sphinx_exhibit/_offset_annotator.py:28-29 | one more entry than lines, starting at 0 and ending at the total length |
| OffsetAnnotation.LineStartsPrefix | lib/sphinx_exhibit/_offset_annotator.py:28-29 | each entry is the length of the text before that line, and consecutive entries differ by the line's length |
| OffsetAnnotation.OffsetPointsIntoLine | lib/sphinx_exhibit/_offset_annotator.py:31-32 | the offset of a position inside a line indexes that same character in the joined text |
| OffsetAnnotation.BlankedStarts | lib/sphinx_exhibit/_offset_annotator.py:24-32 | after blanking, a line starts after exactly the summed length of the code lines before it |
| OffsetAnnotation.FindAttr | lib/sphinx_exhibit/_offset_annotator.py:41-45 | the match is the first remaining token spelling the attribute, and none exists when the stream runs out |
| OffsetAnnotation.AnnotateConsumes | lib/sphinx_exhibit/_offset_annotator.py:35-69 | the visit consumes the shared stream exactly as greedy matching of the node's attribute names in visit order (children first, definitions in source order) |
| OffsetAnnotation.GreedyAdvances | lib/sphinx_exhibit/_offset_annotator.py:41-46 | the stream only moves forward, by at least one token per attribute |
| OffsetAnnotation.AnnotateSucceedsIff | lib/sphinx_exhibit/_offset_annotator.py:19-46 | the visit succeeds iff the attribute names occur, in visit order, as a subsequence of the remaining attribute tokens |
| OffsetAnnotation.OffsetAnnotator.NextMatching | lib/sphinx_exhibit/_offset_annotator.py:41-45 | the `while True` loop stops after the first token spelling the attribute |
| OffsetAnnotation.OffsetAnnotator.Visit | lib/sphinx_exhibit/_offset_annotator.py:34-69 | the visitor's recursive methods compute the annotated tree and stream position of the visit |
| OffsetAnnotation.OffsetAnnotator.VisitAll | lib/sphinx_exhibit/_offset_annotator.py:51-69 | the loops over node lists visit each node in order |
| OffsetAnnotation.Parse | lib/sphinx_exhibit/_offset_annotator.py:18-73 | `parse` annotates the tree with the attribute tokens of the stream and the line starts of the blanked lines |
| DirectiveRunner.Item | lib/sphinx_exhibit/_util.py:11-13 | succeeds iff the sequence has exactly one element, and returns that element |
| DirectiveRunner.UndashedDashed | lib/sphinx_exhibit/_util.py:47-71 | an identifier spelled with dashes (line 47) and back (lines 67 and 71) is unchanged |
| DirectiveRunner.DashedInjective | lib/sphinx_exhibit/_util.py:47 | distinct identifiers get distinct option names |
| DirectiveRunner.DirectiveRunnerSpec | lib/sphinx_exhibit/_util.py:34-50 | the parameter loop computes the derived class attributes or the first error |
| DirectiveRunner.DeriveSpecFails | lib/sphinx_exhibit/_util.py:39-50 | fails iff some parameter is `*args` or `**kwargs`, and then names the first one |
| DirectiveRunner.DeriveSpecCounts | lib/sphinx_exhibit/_util.py:39-47 | required arguments count the positional parameters without a default; optional arguments count those with one; the options are exactly the keyword-only names with dashes |
| DirectiveRunner.DeriveSpecAccountsForAll | lib/sphinx_exhibit/_util.py:39-50 | for distinct identifiers, required plus optional plus the number of options equals the number of parameters |
| DirectiveRunner.ApplyAnnotationUnchanged | lib/sphinx_exhibit/_util.py:59-61 | the value is passed through the parameter's annotation iff there is one, and is passed on unconverted otherwise |
| DirectiveRunner.ParamNamed | lib/sphinx_exhibit/_util.py:67 | a lookup that succeeds gives a parameter with that name, and one that fails means no parameter has it |
| DirectiveRunner.Directive.Run | lib/sphinx_exhibit/_util.py:63-71 | arguments are converted in place by their positional parameters; options are replaced by their converted values; the call passes the arguments and the options with names spelled back with `_` |
| DirectiveRunner.CallUsesParameterNames | lib/sphinx_exhibit/_util.py:46-71 | an option named from a keyword-only parameter reaches the call under that parameter's own name, through its annotation |

## Findings

| source | as written | input that shows it | evidently intended | confidence | as-written member | corrected member |
|---|---|---|---|---|---|---|
| lib/sphinx_exhibit/_implementation.py:106 | the capture line is the group's line number plus all newlines of the group's text minus one, and the text starts with the comments and blank lines before the first statement while the line number is already that of the first statement | a docstring on line 1, two blank lines, a statement on line 4, a docstring on line 5, a statement on line 6: both capture lines are 6, so both export calls run after line 6, block 0 shows the figures of both statements and block 1 shows none | the capture line is the last line of the group's statements (4 and 6 here), so each export call runs before the next group's statements | not executed | CaptureLineFinding.CaptureLinesCollide | CaptureLineFinding.IntendedCaptureLineIsLastLine |

The rest of the model keeps the formula as written (`RstGeneration.CaptureLine`), since it models the code.
`CaptureLineFinding.IntendedCaptureLine` is the corrected definition, and `CaptureLineFinding.IntendedLinesSeparate` shows that it separates the two blocks of the script above.

## Left out

- File and directory I/O, `chdir_cm`, `mkdir`, `unlink`, `copyfile` and `write_text`. Directory listings and glob results are inputs; unlinking and scanning are recorded as lists of paths.
- Running the script (`compile`, `exec`) and matplotlib. `Exporter.Export` takes the number of open figures as a parameter and records the file names it would save.
- The lib2to3 driver, the tokenizer, `ast.parse` and `ast.literal_eval` are not part of this model. Their results are parameters.
- `Segmentation.SplitTextAndCodeBlocks` requires the driver to return a `file_input` tree whose last child is the end marker, a code leaf. lib2to3 always does this, and the code relies on it ("This is never the last node").
- Sphinx and docutils plumbing is left out: `setup`, directive registration, `ViewList`, `nested_parse`, logging, `BuildEnvironment` and `doc2path`.
- The `findall` of `exhibit` directives in authored pages is left out (a multi-line regular expression over page text). So is `publish_doctree`.
- The `sphinx-gallery` branch of `generate_rst` calls another package.
- `ExhibitAsGenerator.run` only writes each generated page and copies the script. The pairs it iterates are modelled by `GetSrcAndDestPaths`.
- `ExhibitAsRunner.run` builds a list of `:doc:` links from the same pairs. The link text is not modelled.
- `directive_runner` details left out:
  - reading the signature with `inspect`;
  - the `functools.partial` form of the decorator;
  - writing class attributes through the caller's frame;
  - the pass-through option converters.

  The model starts from the parameter list and returns the derived attributes.
- Path joining of the `srcdir`/`destdir` option strings with the current directory is left out: the joined directories are inputs.
- docutils' `positive_int_list` is modelled as an empty value failing, then splitting on spaces and requiring positive integers. Its comma separator and other whitespace are left out.
- RstGeneration.CaptureOptionReadsBack: a script with no kept code block gets an empty `:capture-after-lines:` value, which docutils rejects, so its `exhibit-source` directive fails instead of running the script with no export calls. The lemma states this case; the model does not follow the directive's error report.
- ExportInsertion.BlockImages: `\d` in the pattern matches only the ASCII digits `0`-`9` here; Python's `re` also accepts other Unicode decimal digits. The export calls only write ASCII digits.
- `OffsetAnnotation.ToOffset` requires the line number to be an existing line. The tree and tokens come from the same source, so other positions do not arise. Python's negative list indexing for line 0 is therefore not modelled.
- `OffsetAnnotation.IterAttributeTokens`: a dot with nothing after it yields nothing. The source raises when the visitor reaches that point. The visitor fails on an exhausted stream either way, so only the kind of error differs.
- `OffsetAnnotation.OffsetAnnotator.Visit` returns an annotated copy of the tree. The source sets `node.offset` on the nodes in place.
- Column units: `col_offset` counts UTF-8 bytes while token columns count characters. Columns are plain integers here, and nothing is claimed for non-ASCII text.
- `OffsetAnnotation.BlankSkippedLines` visits the skipped line numbers in ascending order. The source walks a set in hash order. Blanking one line never affects another, so the result is the same.
- `ExportInsertion.InsertExports` uses exact rational keys (`lineno` and `lineno + 0.5`) in place of Python's mix of ints and floats. The order is the same.
