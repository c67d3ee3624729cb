# Region viewports of a source file

This project models the viewport extractor of Try .NET
(`Microsoft.DotNet.Try.Project/Extensions/FileExtensions.cs`). A source file
marks the part a reader may edit with `#region <label>` and `#endregion`
directives. The extractor pairs these directives with a stack. For each pair
it yields a *viewport*: the span of text strictly between the two directives,
named by a `BufferId` made of the file name and the region label.

The model is split into modules that follow the extractor's structure.

- `Syntax` is the parsed file as the extractor sees it. It is a sequence of
  nodes and tokens in document order, each with its leading trivia. Each
  piece of trivia has a kind, its full text, its full span and its location.
  The region query selects a node once for every directive in its leading
  trivia, as the LINQ query does.
- `Text` covers `String.Trim` and `String.Replace(keyword, "")`. Together
  they compute a region label from the opening directive's full text.
- `Regions` is the reference pairing of directives: a stack, with a
  `RegionMatch` produced per closing directive that finds an open one. It
  also holds the proofs about counts, last-in-first-out order and nesting.
- `Scanner` is `FindRegions` as written. It has nested loops over the
  selected nodes and their trivia, plus a `processedSpans` set that skips
  trivia seen before. The module proves that this scan equals the reference
  pairing over each processed piece of trivia, taken once.
- `Extraction` covers the label-uniqueness check, the iterators that yield
  viewports, and the overloads over one file, many files and workspace
  files. A lazily yielded sequence that may throw part-way is an
  `Extraction`: either `Complete(items)`, or `Thrown(error, emitted)` where
  `emitted` holds what was yielded before the exception.
- `ViewportProperties` holds the end-to-end properties of one file's
  viewports.
- `ViewportFixture` is the `ViewportCode.cs` buffer from the API contract
  tests, worked through the whole extractor.

Parsing with Roslyn is a parameter: `parse: string -> seq<Node>`.

Four behaviours of the code are worth stating plainly.

- Duplicate labels throw only within one file. The `ids` set belongs to one
  call of `ExtractRegions`, and `SelectMany` makes one such call per file.
  The same label in two files yields two viewports
  (`ViewportFixture.SameLabelInTwoFiles`).
- Nested regions give nested spans. Any two viewports of a file are either
  disjoint or one lies within the other (`ViewportsNest`).
- An opening directive that is never closed is dropped silently. It
  produces no viewport and no error (`ViewportsCount`).
- The keyword is removed wherever it occurs in the directive's text, not
  only at its start. A label that itself contains `#region` loses it
  (`Regions.KeywordRemovedInsideLabel`).

## Model

| member | source | states |
|---|---|---|
| Text.Trim | Microsoft.DotNet.Try.Project/Extensions/FileExtensions.cs:79 | the label neither starts nor ends with white space, and it is a slice of the text whose prefix and suffix outside the slice are all white space |
| Text.TrimPadded | Microsoft.DotNet.Try.Project/Extensions/FileExtensions.cs:79 | trimming a trimmed string padded on both sides with white space gives back exactly that string |
| Text.TrimIdempotent | Microsoft.DotNet.Try.Project/Extensions/FileExtensions.cs:79 | trimming a trimmed label changes nothing |
| Text.RemoveAll | Microsoft.DotNet.Try.Project/Extensions/FileExtensions.cs:79 | replacing the keyword with the empty string never lengthens the text |
| Text.RemoveAllKeepsCharacters | Microsoft.DotNet.Try.Project/Extensions/FileExtensions.cs:79 | replacing never introduces a character that was not in the text |
| Text.RemoveAllShortens | Microsoft.DotNet.Try.Project/Extensions/FileExtensions.cs:79 | text in which the keyword occurs gets strictly shorter |
| Text.RemoveAllUnchangedIff | Microsoft.DotNet.Try.Project/Extensions/FileExtensions.cs:79 | the replacement leaves the text unchanged exactly when the keyword does not occur in it |
| Text.RemoveAllWithoutOccurrence | Microsoft.DotNet.Try.Project/Extensions/FileExtensions.cs:79 | text in which the keyword does not occur is left unchanged by the replacement |
| Text.RemoveAllAfterKeptPrefix | Microsoft.DotNet.Try.Project/Extensions/FileExtensions.cs:79 | characters that cannot start the keyword are kept, the first occurrence after them is removed, and replacement carries on after it without rescanning |
| Text.RemoveAllTwice | Microsoft.DotNet.Try.Project/Extensions/FileExtensions.cs:79 | both of two occurrences of the keyword are removed and the text around them is kept in order |
| Text.LabelOfKeywordLine | Microsoft.DotNet.Try.Project/Extensions/FileExtensions.cs:79 | for white space, keyword, white space, a trimmed name and trailing white space, replace-then-trim yields exactly the name |
| Text.LabelWithInnerKeyword | Microsoft.DotNet.Try.Project/Extensions/FileExtensions.cs:79 | when the keyword occurs again inside the name, replace-then-trim yields the name with that occurrence cut out |
| Text.TrimAfterCut | Microsoft.DotNet.Try.Project/Extensions/FileExtensions.cs:79 | after the keyword is removed, trimming strips the white space around the name and nothing else |
| Regions.RegionName | Microsoft.DotNet.Try.Project/Extensions/FileExtensions.cs:79 | a label never begins or ends with white space and is never longer than its directive's text |
| Regions.RegionNameOfDirective | Microsoft.DotNet.Try.Project/Extensions/FileExtensions.cs:79 | the label of `#region name` with any surrounding white space and line break is exactly `name` |
| Regions.KeywordRemovedInsideLabel | Microsoft.DotNet.Try.Project/Extensions/FileExtensions.cs:79 | a second `#region` inside the directive's text is removed from the label as well |
| Regions.MatchSpan | Microsoft.DotNet.Try.Project/Extensions/FileExtensions.cs:92-95 | a pair's span starts where the opening directive's location ends and ends where the closing directive's location starts |
| Regions.PairingAppend | Microsoft.DotNet.Try.Project/Extensions/FileExtensions.cs:64-84 | pairing a concatenation equals pairing the second part from the state the first part leaves, so the scan is a left fold over the trivia |
| Regions.PairingCounts | Microsoft.DotNet.Try.Project/Extensions/FileExtensions.cs:72-81 | every opening directive is either paired or still on the stack, and there are never more new pairs than closing directives |
| Regions.PairingMatchesEveryClose | Microsoft.DotNet.Try.Project/Extensions/FileExtensions.cs:76-81 | when no closing directive meets an empty stack, each closing directive produces exactly one pair |
| Regions.BalancedPairsEveryOpen | Microsoft.DotNet.Try.Project/Extensions/FileExtensions.cs:61-81 | for well-nested directives, every opening directive is paired and the stack ends empty |
| Regions.PairingSkipsUnmatchedClose | Microsoft.DotNet.Try.Project/Extensions/FileExtensions.cs:76 | a closing directive that meets an empty stack changes nothing, so the result is the same as if it were absent |
| Regions.PairingLifo | Microsoft.DotNet.Try.Project/Extensions/FileExtensions.cs:72-80 | an opening directive, a well-nested inner part and a closing directive give the inner pairs first and then the outer pair, and they leave the stack as it was |
| Regions.PairingNests | Microsoft.DotNet.Try.Project/Extensions/FileExtensions.cs:61-95 | for trivia in document order, every pair's span has a non-negative length and any two spans are disjoint or nested |
| Syntax.DirectiveCount | Microsoft.DotNet.Try.Project/Extensions/FileExtensions.cs:57-58 | a node's directive count is at most its trivia count, and it is zero exactly when no trivia is a region or endregion directive |
| Syntax.NodesWithRegionDirectives | Microsoft.DotNet.Try.Project/Extensions/FileExtensions.cs:53-59 | a node is selected exactly when it is one of the file's nodes and carries a directive |
| Syntax.NodesWithRegionDirectivesAppend | Microsoft.DotNet.Try.Project/Extensions/FileExtensions.cs:53-59 | the query works node by node, so it distributes over a concatenation of node lists |
| Scanner.ScanTrivia | Microsoft.DotNet.Try.Project/Extensions/FileExtensions.cs:68-82 | each piece of trivia adds its full span to the processed set; trivia already processed leaves the pairing state unchanged, and fresh trivia is paired exactly as the reference step pairs it |
| Scanner.Dedup | Microsoft.DotNet.Try.Project/Extensions/FileExtensions.cs:62-70 | the processed trivia have distinct full spans and cover exactly the full spans met that were not already processed |
| Scanner.ScanTriviaListIsPairing | Microsoft.DotNet.Try.Project/Extensions/FileExtensions.cs:68-83 | the inner loop with its skip equals pairing the trivia de-duplicated by full span, and it leaves every full span met processed |
| Scanner.ScanEnumeratedNode | Microsoft.DotNet.Try.Project/Extensions/FileExtensions.cs:53-84 | a node enumerated once per directive it carries is scanned as if its trivia were paired once |
| Scanner.FindRegions | Microsoft.DotNet.Try.Project/Extensions/FileExtensions.cs:51-85 | for every parse, the pairs found are exactly those of the reference pairing over the trivia the scan processes, so each directive is paired at most once; every pair carries the file name and its opening directive's label |
| Regions.PairingLabels | Microsoft.DotNet.Try.Project/Extensions/FileExtensions.cs:78-80 | every pair the pairing records names the file and carries the label of its own opening directive |
| Extraction.CheckLabels | Microsoft.DotNet.Try.Project/Extensions/FileExtensions.cs:90-101 | the region loop completes exactly when all labels are new; otherwise it throws the uniqueness exception at the first repeated label, having yielded the regions before it in order |
| Extraction.ExtractRegions | Microsoft.DotNet.Try.Project/Extensions/FileExtensions.cs:48-102 | the i-th region yielded is the i-th pair's span under the file's name and the pair's label; the call completes with one region per pair exactly when labels are unique within the file, and otherwise throws the uniqueness exception at the first repetition |
| Extraction.ExtractViewPorts | Microsoft.DotNet.Try.Project/Extensions/FileExtensions.cs:25-36 | the i-th viewport yielded is the i-th pair's span and label in this file; extraction completes with one viewport per pair exactly when labels are unique, and otherwise throws at the first repetition |
| Extraction.Then | Microsoft.DotNet.Try.Project/Extensions/FileExtensions.cs:45 | a sequence followed by another completes exactly when both do; what it yields is the first one's items followed by the second one's, or the first one's prefix if it threw; and the exception it throws is the first one's, or else the second one's, unchanged |
| Extraction.ThenAssociative | Microsoft.DotNet.Try.Project/Extensions/FileExtensions.cs:45 | chaining lazy sequences is associative, exceptions included |
| Extraction.Concat | Microsoft.DotNet.Try.Project/Extensions/FileExtensions.cs:45 | flattening sequences completes exactly when every part completes |
| Extraction.ConcatAppend | Microsoft.DotNet.Try.Project/Extensions/FileExtensions.cs:45 | flattening two lists of sequences one after the other equals flattening them together |
| Extraction.ConcatError | Microsoft.DotNet.Try.Project/Extensions/FileExtensions.cs:45 | flattening passes an exception through unchanged: when every part that throws throws the same exception, so does the whole |
| Extraction.ExtractViewports | Microsoft.DotNet.Try.Project/Extensions/FileExtensions.cs:43-46 | extraction over many files completes exactly when every file's extraction completes; when it throws, it throws the per-file uniqueness exception unchanged |
| Extraction.ExtractViewportsAppend | Microsoft.DotNet.Try.Project/Extensions/FileExtensions.cs:43-46 | the files are processed one after another, and an exception in one file stops the files after it |
| Extraction.TwoFilesConcatenate | Microsoft.DotNet.Try.Project/Extensions/FileExtensions.cs:43-46 | two files that both extract cleanly yield the first file's viewports followed by the second's |
| Extraction.ExtractWorkspaceFileViewPorts | Microsoft.DotNet.Try.Project/Extensions/FileExtensions.cs:15-23 | a workspace file yields exactly what the source file with its name and text yields: the same viewports in the same order, and the same exception at the same point |
| Extraction.ExtractWorkspaceViewports | Microsoft.DotNet.Try.Project/Extensions/FileExtensions.cs:38-41 | extraction over workspace files completes exactly when each file's own extraction completes; when it throws, it throws the per-file uniqueness exception unchanged |
| Extraction.ExtractWorkspaceViewportsAppend | Microsoft.DotNet.Try.Project/Extensions/FileExtensions.cs:38-41 | workspace files are processed one after another, and an exception in one file stops the files after it |
| Extraction.ExtractWorkspaceViewportsSingle | Microsoft.DotNet.Try.Project/Extensions/FileExtensions.cs:38-41 | one workspace file alone yields exactly its own viewports |
| ViewportProperties.ViewportsNest | Microsoft.DotNet.Try.Project/Extensions/FileExtensions.cs:61-100 | for trivia in document order, every viewport has a non-negative length and any two viewports of a file are disjoint or nested |
| ViewportProperties.ViewportsCount | Microsoft.DotNet.Try.Project/Extensions/FileExtensions.cs:61-84 | a clean extraction yields one viewport per opening directive except those left open, which are dropped silently, and never more viewports than closing directives |
| ViewportProperties.WellNestedViewports | Microsoft.DotNet.Try.Project/Extensions/FileExtensions.cs:61-101 | well-nested directives with distinct labels yield exactly one viewport per opening directive, without an exception |
| ViewportProperties.RepeatedLabelThrows | Microsoft.DotNet.Try.Project/Extensions/FileExtensions.cs:96-99 | a label repeated within one file makes extraction throw the uniqueness exception, after yielding no more viewports than precede the repetition |
| ViewportFixture.OffsetsOfDirectives | MLS.Agent.Tests/ApiOutputContractTests.cs:236-251 | in the test buffer, the text between the opening and closing directives is the method body line |
| ViewportFixture.LabelOfOpen | MLS.Agent.Tests/ApiOutputContractTests.cs:246 | the label of `#region viewport` is `viewport` |
| ViewportFixture.DedupRepeatedPair | Microsoft.DotNet.Try.Project/Extensions/FileExtensions.cs:62-70 | a node and its first token, which share leading trivia, have that trivia processed once |
| ViewportFixture.PairingOnePair | Microsoft.DotNet.Try.Project/Extensions/FileExtensions.cs:72-81 | one opening and one closing directive with other trivia around them give exactly one pair |
| ViewportFixture.ProcessedOnce | Microsoft.DotNet.Try.Project/Extensions/FileExtensions.cs:53-70 | in the test buffer's parse, the directives and the trivia next to them are each processed once, in document order |
| ViewportFixture.FoundInFixture | Microsoft.DotNet.Try.Project/Extensions/FileExtensions.cs:51-85 | the test buffer contains exactly one pair, labelled `viewport` |
| ViewportFixture.SingleViewport | Microsoft.DotNet.Try.Project/Extensions/FileExtensions.cs:25-36 | a file with exactly one pair extracts cleanly to exactly one viewport with that pair's span and label |
| ViewportFixture.ViewportCodeFixture | MLS.Agent.Tests/ApiOutputContractTests.cs:234-259 | `ViewportCode.cs` yields exactly one viewport, `viewport`, spanning the method body between the directives |
| ViewportFixture.OneViewportEach | Microsoft.DotNet.Try.Project/Extensions/FileExtensions.cs:43-46 | two files with one viewport each yield both viewports, in file order |
| ViewportFixture.SameLabelInTwoFiles | Microsoft.DotNet.Try.Project/Extensions/FileExtensions.cs:50 | the set of seen labels belongs to one file, so the same label in two files gives two viewports and no exception |

## Left out

- Parsing is not modelled. `CSharpSyntaxTree.ParseText`, `DescendantNodesAndTokens`, `GetLeadingTrivia`, `ToFullString` and `GetLocation` are replaced by the `parse` parameter, which returns the nodes and tokens in document order. Any positions it reports are accepted as given.
- Lazy evaluation is modelled only by its outcome. An `IEnumerable` is an `Extraction`: its complete items, or the prefix it yielded before throwing. Interleaving with a consumer, and a consumer that stops early, are not modelled.
- The `TextSpan` constructor's argument checks are not modelled. It throws for a negative length, which happens when a closing directive lies before its opening one. `ViewportsNest` proves that lengths are non-negative when the trivia are in document order.
- `SourceFile.Create` and `SourceText` are not modelled: a file is its name and its text. Characters are Dafny `char`s, and UTF-16 surrogate pairs are not treated specially.
- `Char.IsWhiteSpace` is the fixed set of the 25 white-space characters of the Unicode tables (`Text.WhiteSpaceChars`); the character tables themselves are not modelled.
- The test buffer's `$$` position marker is removed before the text is modelled, as `MarkupTestFile.GetPosition` does. The buffer's cursor position is not modelled.
- `WorkspaceServer/Servers/OmniSharp/OmniSharpServer.cs`, `MLS.Agent.Tools/TaskExtensions.cs` and `Microsoft.DotNet.Try.Jupyter/RequestHandlerStatus.cs` are not part of this model. They are process, task and messaging plumbing that the extractor does not use.
- Syntax.NodesWithRegionDirectives: its contract says which nodes are selected, not how often. The count (once per directive) is in its definition, and `Scanner.ScanEnumeratedNode` is the result about it.
- Text.RemoveAll: its contract bounds only the length of the result. Its exact behaviour is given by `RemoveAllWithoutOccurrence`, `RemoveAllAfterKeptPrefix` and `RemoveAllTwice` for the shapes a directive's text takes. For every text, `RemoveAllKeepsCharacters` and `RemoveAllUnchangedIff` bound it without determining it.
- Regions.RegionName: its contract says only that a label is trimmed and no longer than the directive's text. Its exact value for the shapes of directive text is given by `RegionNameOfDirective` and `KeywordRemovedInsideLabel`.
