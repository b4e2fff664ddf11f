# Proofs about the repository's scripts

A Dafny model of the algorithms in `scripts/`, and proofs of what they keep, what they lose and what they give back.
`dafny verify dfyconfig.toml` checks the whole project.

## What is modelled

**The Markdown parser of the documentation build** (`scripts/build-blog.js`). `MarkdownParser` is the program: one loop
over the lines with its flags, buffers, look-ahead and recursion into tab panels. `MarkdownGrammar` is a second,
independent definition without any flag: a page is a list of blocks, each block owns the lines it was made from and
renders on its own. The parser is proved to produce exactly what the grammar says, for every page. Everything else is
proved about the grammar and so holds of the program: the output is well nested (`MarkdownNesting`), panels never nest
(`MarkdownDepth`), and every line has a known fate. `MarkdownFate` computes, from the block a line lies in and its number
there, the place in the output where its text stands or the reason why it is lost. `MarkdownPlaces` shows that no two lines
share a place, `MarkdownTrace` that a lost line leaves no trace: the page stays the same with any other line that may stand
there. `MarkdownMeaning` says on the characters of a line what the tests for it and the texts taken out of it mean, and a
line that is kept is told by these meanings, not by the functions that compute them. `MarkdownCut` and `MarkdownEdges` follow
the lines of a text through the metadata cut and the trim, and `MarkdownLedger` puts it together for whole texts and the
panels inside them. `MarkdownReplace` follows the replacement of one line of a text to the lines of the page,
`MarkdownOpenEnd` cuts short a page that ends inside an open fence or region, and `MarkdownNoTrace` concludes for whole texts:
a lost line, in a panel or not, can be replaced without a trace. Output is a sequence of tokens; the text inside a token is
the argument that the inline formatter receives.
`Frontmatter`, `Slug` and `CodeEscape` hold the metadata block, the two slug pipelines and the code escape, `SlugMeaning` what
becomes of each character of a heading or a title.

**The concurrent suite runner** (`scripts/test-runner.ts`). `TestRunner` is a step relation over the points where the
event loop hands control over, with any number of workers, and a class whose methods are the uninterrupted pieces of
program between those points. Every object of the class is in a state that its own history leads to, so the results, which
are about every interleaving, hold of it. What the exit code says is told on the events alone: which first event each child
fired.

**The arithmetic and the codecs.** `Lcg`: the generator of `scripts/validate-context-management.ts` has full period.
`ZipWriter`: the archive writer of `scripts/validate-doc-extractor.ts`, with a reader for section 4.3.7 of PKWARE
APPNOTE.TXT written for the proof. `Percentile`: the nearest rank of `scripts/benchmark-parent-io.ts`.

**The record keepers.** `AdrHeading`, `AdrGraph`, `AdrDiagram` and `ReadmeSplice` (`scripts/link-adr.ts`), with a reader for the
diagram written for the proof; `AdrScaffold` (`scripts/scaffold-adr.ts`); `Probe` (`scripts/meow-io-benchmark.ts`); `TokenPool`
(`scripts/add-token.ts`), and `TokenMeaning`, which tells a run on the values of the configuration alone.

`Text` and `Digits` hold the string operations the scripts use, defined directly where a script uses a regular expression;
`Doubles` holds whole numbers as JavaScript rounds them.

## Where a promise fails

The code is modelled as it is. Where an expected property does not hold of it, the exact condition is proved:

- A second README update gives the same text if and only if the text the first one inserted holds no `##`
  (`ReadmeSplice.SpliceIdempotentExactly`); otherwise it is strictly longer. For a graph without `$` that is a condition on
  the graph (`ReadmeSplice.SettlesExactly`), and for titles without `$` one on the titles (`AdrGraph.RunsSettleExactly`).
- The runner reaches the total it announces if and only if at most one file ends in `validate-repo.ts`
  (`TestRunner.TotalReached`): `find` takes the first such file and `filter` drops them all.
- A lost line does not always leave the page alone when another line is put in its place, even one that would be lost
  there too: a new line with a `---` can close a metadata block (`MarkdownNoTrace.CutIsNeeded`). The block ends where it did
  if and only if the opening fence stays, no fence comes in before the line it ends in, and that line keeps one; without a
  block, if and only if none comes about (`MarkdownCut.KeepsCutExactly`). Then lost lines leave no trace
  (`MarkdownNoTrace.LostLeavesNoTrace`).
- The scaffolder's number exceeds every number in the directory if and only if the largest is below 2^53, or below 2^54 and
  an odd multiple of two (`AdrScaffold.NextIsGreaterExactly`). For ids below 2^54 it picks the name of an existing file if and
  only if the largest id is at least 2^53, no odd multiple of two, and a file bears the name made with it and the same title
  (`AdrScaffold.OverwritesExactly`).
- No line of a tab panel trims to `:::`, but the page parsed from the panel can begin with such a line: if and only if the
  panel has a metadata block and the rest of the line that closes it is one (`MarkdownDepth.RevealsEndExactly`, with a page
  in `MarkdownDepth.CutPage`). No other line can be one, and a nested parse still never compiles tabs.
- The primary login repeats the pool record's refresh token if and only if one was given or the old login and the replaced
  record had the same one (`TokenMeaning.PrimaryMirrorsExactly`). Otherwise it keeps what the old login had, which may be another
  account's token (`TokenPool.PrimaryCanMixAccounts`) or none.
- The percentile is defined exactly for a non-empty sample and a share of at most one (`Percentile.DefinedExactly`).

## Model

| member | source | states |
|---|---|---|
| MarkdownParser.ParseMarkdown | scripts/build-blog.js:56-356 | for every page the loop with its flags, buffers and look-ahead emits exactly the tokens of the block grammar; the table of contents is exactly the in-order list of emitted level 2 and 3 headings with the same ids; the metadata is that of the leading block |
| MarkdownParser.Parser.ParseLines | scripts/build-blog.js:164-349 | the loop terminates and its output is the rendering of the lines' blocks, nothing of an unclosed fence or tabs region included |
| MarkdownParser.Parser.Turn | scripts/build-blog.js:164-346 | one turn, branches in the source's order: output so far plus what the grammar still owes is unchanged, the flags stay exclusive, and lines are consumed from where the turn began |
| MarkdownParser.Parser.CloseList | scripts/build-blog.js:98-103 | appends the closing tag of the open list, of its own kind, and nothing when none is open; on a line that does not continue the list, what is still owed is unchanged |
| MarkdownParser.Parser.CloseTable | scripts/build-blog.js:105-123 | appends the collected table and clears it, and nothing when none is open; on a line that is no row, what is still owed is unchanged |
| MarkdownParser.Parser.PushTable | scripts/build-blog.js:107-119 | appends the whole table: header cells in the first row only, the separator in second place left out |
| MarkdownParser.Parser.CloseTabContent | scripts/build-blog.js:125-130 | moves the current tab to the end of the collection and loses none |
| MarkdownParser.Parser.CompileTabsHtml | scripts/build-blog.js:132-162 | one panel for each collected tab, in order, each the rendering of its own text as a page; an empty token when there is none |
| MarkdownParser.Parser.OpenTabs | scripts/build-blog.js:168-175 | `:::tabs` is honoured inside a fence and wipes a region already open |
| MarkdownParser.Parser.EndTabs | scripts/build-blog.js:177-186 | a `:::` closes an open region with its panels; anywhere else it adds nothing and interrupts nothing, a list or a table included |
| MarkdownParser.Parser.TabsLine | scripts/build-blog.js:189-202 | a line of a region starts a tab, joins the current one, or is lost before the first |
| MarkdownParser.Parser.Fence | scripts/build-blog.js:205-228 | a fence line opens or closes a code block; closing emits the code read so far |
| MarkdownParser.Parser.FencedLine | scripts/build-blog.js:230-233 | every other line inside a fence is code |
| MarkdownParser.Parser.Row | scripts/build-blog.js:236-242 | a row ends a list and extends or starts a table |
| MarkdownParser.Parser.ListItem | scripts/build-blog.js:275-298 | an item opens a list of its kind unless one is open, and closes one of the other kind first |
| MarkdownParser.Parser.PushHeading | scripts/build-blog.js:250-270 | a heading is emitted with its anchor and enters the table of contents at levels 2 and 3 only |
| MarkdownParser.Parser.AlertAt | scripts/build-blog.js:301-317 | an alert takes every quoted line that follows, even one that starts another alert |
| MarkdownParser.Parser.QuoteAt | scripts/build-blog.js:320-329 | a quote stops before a line that starts an alert |
| MarkdownGrammar.BlocksPartition | scripts/build-blog.js:164-346 | the source lines of the blocks, put together, are the page: every line is consumed once and in order |
| MarkdownGrammar.BlocksAreGood | scripts/build-blog.js:164-346 | every block has the shape its kind promises: closed regions lie between `:::tabs` and `:::` and hold no `:::`, unclosed ones hold none either, code lines are no delimiters, list, table, alert and quote blocks hold only lines that continue them |
| MarkdownGrammar.ScanFenceSource | scripts/build-blog.js:204-233 | a fence accounts for each line up to its closing fence, with the tabs regions inside it |
| MarkdownLines.HeadingMeaning | scripts/build-blog.js:250 | the scanner matches exactly: one to six hashes, white space, the rest of the line |
| MarkdownLines.BulletMeaning | scripts/build-blog.js:275 | the scanner matches exactly: indent, one of `-*+`, white space, the rest of the line |
| MarkdownLines.NumberMeaning | scripts/build-blog.js:288 | the scanner matches exactly: indent, digits, a full stop, white space, the rest of the line |
| MarkdownLines.HashIsNoItem | scripts/build-blog.js:248-275 | closing the list early at a hash is safe: such a line is never an item |
| MarkdownMeaning.ClassifyExactly | scripts/build-blog.js:164-346 | a line is of a kind if and only if the test for that kind holds of it; only an alert is also a quote, so the order of the branches decides nothing else |
| MarkdownMeaning.ExactTests | scripts/build-blog.js:168-339 | the delimiters, the rules and the blank line, up to white space around them |
| MarkdownMeaning.PrefixTests | scripts/build-blog.js:189-320 | a fence, a tab start and a quote begin with their mark but for white space |
| MarkdownMeaning.RowTest | scripts/build-blog.js:236 | a row is what begins and ends with a bar up to white space; one bar may be both |
| MarkdownMeaning.AlertMeaning | scripts/build-blog.js:301-304 | an alert is `>`, white space, `[!`, one of the five names in any case, and `]`; its type is that name in capitals |
| MarkdownMeaning.AlertStartMeaning | scripts/build-blog.js:323 | what stops a quote: `>`, white space, `[!` |
| MarkdownMeaning.QuoteMeaning | scripts/build-blog.js:308-325 | the text of a quoted line is what stands behind its `>`, without the white space at either end, and nothing else |
| MarkdownMeaning.LanguageMeaning | scripts/build-blog.js:225 | the language of a fence is what stands behind the three ticks, without the white space at either end |
| MarkdownMeaning.CellsMeaning | scripts/build-blog.js:239 | the cells of a row are what stands between its bars, in order, and none for a single bar |
| MarkdownMeaning.TitleMeaning | scripts/build-blog.js:191-192 | a tab is called by the first non-empty text between quote marks behind `title=`, and `Tab` if there is none |
| MarkdownMeaning.TocTextMeans | scripts/build-blog.js:263 | the text of a contents entry loses the four marks and nothing else |
| MarkdownCoverage.SilentExactly | scripts/build-blog.js:164-349 | a block adds nothing if and only if it is blank, a stray `:::`, an unclosed tabs region, or an unclosed fence without a closed region inside |
| MarkdownFate.FateHolds | scripts/build-blog.js:164-349 | a line that is not lost stands in the output at the place computed from its block and its number there: what is left of a quoted line behind its `>`, the text between a row's bars, the language behind a fence's ticks, a code line whole, a panel line in its panel |
| MarkdownFate.SeparatorMeans | scripts/build-blog.js:109 | a separator row is one whose every cell begins with a dash but for white space |
| MarkdownPlaces.PlacesDiffer | scripts/build-blog.js:164-349 | no two lines of a page stand at the same place, equal texts included |
| MarkdownTrace.NoTrace | scripts/build-blog.js:164-349 | a lost line leaves no trace: replaced by any line lost for the same reason, the page stays the same; so does the text behind an alert's marker (305-309), the text around a tab's title (189-194), and a panel line whenever the panel's own page does |
| MarkdownLedger.LossFits | scripts/build-blog.js:164-349 | a lost line is of a kind that is lost: stray, blank, separator, delimiter, unclosed code or region, wiped by a nested `:::tabs`, or before the first tab |
| MarkdownLedger.EveryLineHasItsFate | scripts/build-blog.js:56-356 | each line of each text is metadata, blank at an edge, kept at its place, lost for its reason, or a line of a panel whose fate is followed in the panel's own page |
| MarkdownLedger.TextPlacesDiffer | scripts/build-blog.js:56-356 | no two lines of a text share a place on the page or in a panel |
| MarkdownLedger.PanelIsFlat | scripts/build-blog.js:132-150 | a line followed into a panel is not followed into a further one |
| MarkdownCut.CutByLines | scripts/build-blog.js:60-65 | the metadata block and the body can be told from the lines alone: the block ends in the first line with a fence behind the opening one, and the body begins behind that fence |
| MarkdownCut.MetadataExactly | scripts/build-blog.js:60-65 | a line belongs to the block if and only if there is one and no line up to this one has a fence besides the opening one |
| MarkdownCut.KeepsCutExactly | scripts/build-blog.js:60-65 | with another line in place of line k the block ends in the same line, or stays away, if and only if the stated test on k and the new line holds |
| MarkdownCut.BodyFollows | scripts/build-blog.js:60-65 | the body then stays as it is when a line of the block is replaced, and changes in that one line otherwise |
| MarkdownEdges.SpotMeans | scripts/build-blog.js:60-82 | a line of a text is metadata and in front of any closing fence, blank at an edge, or reaches the page whole up to white space at its ends and the metadata fence |
| MarkdownEdges.SpotsCoverThePage | scripts/build-blog.js:60-82 | every line of the page comes from exactly one line of the text |
| MarkdownReplace.LinesFollow | scripts/build-blog.js:60-82 | with another line in a text, the cut kept, the lines of the page stay when it was metadata or is still blank at an edge, and else change in the one line, trimmed if it is the first or last; a last line that turns blank goes, with the blank ones before it |
| MarkdownOpenEnd.ShorterPage | scripts/build-blog.js:164-349 | a page that ends inside an unclosed fence or region renders the same without its last line |
| MarkdownNoTrace.OpenTail | scripts/build-blog.js:81-349 | there, trimming the end of the page changes nothing |
| MarkdownNoTrace.LostLeavesNoTrace | scripts/build-blog.js:56-356 | for whole texts: with the cut kept, a line of the metadata block may become any line, a blank line at an edge any blank one, a lost line of the page or of a panel any line lost for the same reason, and the text gives the same page |
| MarkdownNoTrace.LostMayStay | scripts/build-blog.js:56-356 | every lost line of every text, in panels too, passes the test the replacement has to pass |
| MarkdownNoTrace.CutIsNeeded | scripts/build-blog.js:60-65 | a text in which a line lost before the first tab is replaced by another that is lost there, but closes a metadata block, and the page is a different one |
| MarkdownFate.RegionFateHolds | scripts/build-blog.js:168-202 | a line of a closed region that is kept is the title of its own panel or its own line in it, and the panel is rendered from that tab of the region |
| MarkdownCoverage.PanelsKeepLines | scripts/build-blog.js:189-202 | from the first `::tab` on, the panels' lines are exactly the other lines, in order |
| MarkdownCoverage.PanelTitles | scripts/build-blog.js:189-195 | as many panels as `::tab` lines, in order, with their titles |
| MarkdownCoverage.CodeSurvives | scripts/build-blog.js:206-220 | the lines of a code block can be read back from its token, and the token's text holds no tag |
| MarkdownNesting.PageIsWellNested | scripts/build-blog.js:98-123 | for every page, panels included: lists and tables never nest, each item sits in a list of its own kind, all that opens closes in order |
| MarkdownPage.PageUnfolds | scripts/build-blog.js:132-150 | the recursion into panels is always on a shorter text |
| MarkdownDepth.PanelsNeverNest | scripts/build-blog.js:132-202 | a panel parsed as a page emits no tabs, whatever would render them |
| MarkdownDepth.PageDepthIsTwo | scripts/build-blog.js:147 | a page is rendered with panels that have no panels: the depth is at most two |
| MarkdownDepth.LinesEndOnlyFirst | scripts/build-blog.js:60-82 | the metadata cut and the trim can turn only the first line of a page into a `:::` |
| MarkdownDepth.RevealsEndExactly | scripts/build-blog.js:60-82 | the page of a panel begins with a `:::` line if and only if the panel has a metadata block and the rest of the line that closes it is one |
| MarkdownDepth.CutPage | scripts/build-blog.js:56-150 | a concrete page whose panel is parsed from a single `:::` line that none of its own lines is |
| Frontmatter.ParseFrontmatter | scripts/build-blog.js:60-79 | the loop over the lines computes the metadata and the body of the specification |
| Frontmatter.ParseLineAtFirstColon | scripts/build-blog.js:67-74 | the key is the text before the first colon, the value all the text after it, further colons included, both trimmed, the value without one quote mark in front and one at its end if it has them |
| Frontmatter.StripMeaning | scripts/build-blog.js:74 | a value without quote marks at its ends is kept whole; one mark in front goes, one at the end goes, and nothing else does |
| Frontmatter.ParseLineWithoutColon | scripts/build-blog.js:67-68 | a line sets nothing if and only if it has no colon |
| Frontmatter.CutAtFirstFence | scripts/build-blog.js:61-65 | the block ends at the first fence after the opening one |
| Frontmatter.FrontmatterRoundTrip | scripts/build-blog.js:60-79 | printing any well-formed entries, each bare, in single or in double quotes, and parsing the page gives them back, later keys winning, and the body untouched |
| Frontmatter.MetadataMeans | scripts/build-blog.js:60-79 | for every page: a key has a value if and only if some line of the block sets it to that value and no later line sets the key |
| CodeEscape.EscapeIsOnePass | scripts/build-blog.js:207 | the three replacements in sequence equal one pass over the characters |
| CodeEscape.EscapeHidesTags | scripts/build-blog.js:207 | escaped code holds no `<` and no `>` |
| CodeEscape.UnescapeEscape | scripts/build-blog.js:207 | reading the entities back from left to right gives the code |
| Slug.AnchorIsSinglePass | scripts/build-blog.js:255-260 | the pipeline equals one filter and one squeeze, and its final trim never finds anything |
| Slug.AnchorNormalForm | scripts/build-blog.js:255-260 | an anchor has only the allowed characters, no capital, no white space and no doubled dash |
| Slug.AnchorIdempotent | scripts/build-blog.js:255-260 | the anchor of an anchor is itself |
| Slug.SlugifyIsWords | scripts/scaffold-adr.ts:28-33 | a slug is the words of the lowered text joined by single dashes |
| Slug.SlugifyNormalForm | scripts/scaffold-adr.ts:28-33 | only `[a-z0-9-]`, no doubled dash, none at an edge |
| Slug.SlugifyIdempotent | scripts/scaffold-adr.ts:28-33 | the slug of a slug is itself |
| SlugMeaning.LowerMeans | scripts/build-blog.js:256 | lowering leaves no ASCII capital and changes nothing but the case |
| SlugMeaning.CaseIsIgnored | scripts/build-blog.js:255-260 | anchor and slug do not depend on the case of a letter |
| SlugMeaning.AnchorOfWord | scripts/build-blog.js:255-260 | a text of `[a-z0-9_]` is its own anchor |
| SlugMeaning.AnchorJoins | scripts/build-blog.js:258-259 | white space and dashes in a row, between words or at an edge, become one dash, and the anchor on either side stays |
| SlugMeaning.AnchorDrops | scripts/build-blog.js:257 | every other character goes, wherever it stands |
| SlugMeaning.SlugOfWord | scripts/scaffold-adr.ts:28-33 | a text of `[a-z0-9]` is its own slug |
| SlugMeaning.SlugParts | scripts/scaffold-adr.ts:28-33 | any other character parts two slugs: one dash between them, none when one side has nothing to show |
| TestRunner.RunInv | scripts/test-runner.ts:97-139 | after every interleaving: claims, recorded results and counters agree |
| TestRunner.ClaimedOnce | scripts/test-runner.ts:104-111 | claimed indices are 0 to nextIndex-1, each awaited or recorded exactly once; finished plus in flight is claimed; never more in flight than workers |
| TestRunner.NothingInFlightAfterJoin | scripts/test-runner.ts:124-128 | when the isolated suite starts, nothing is in flight and every suite has been recorded once |
| TestRunner.FinalResults | scripts/test-runner.ts:87-158 | at the end the results are a permutation of the parallel suites, then the isolated one; passed plus failed is completed; exit code 0 if and only if every result is a success |
| TestRunner.TotalReached | scripts/test-runner.ts:87-90 | completed equals the announced total if and only if at most one file is a repo validator |
| TestRunner.ConfigureMeans | scripts/test-runner.ts:87-91 | the pool gets the files that do not end in `validate-repo.ts`, in order, the first that does runs alone, and there are as many workers as processors, at most four, and four if none are reported |
| TestRunner.ChildrenAreHeard | scripts/test-runner.ts:44-66 | after every interleaving a child counts as succeeded or failed by its first event alone: succeeded if and only if that was `close` with code 0 |
| TestRunner.RepoIsHeard | scripts/test-runner.ts:128-138 | the same of the isolated suite |
| TestRunner.ExitsWellExactly | scripts/test-runner.ts:44-158 | a finished run exits with 0 if and only if the first event of every suite, the isolated one included, was `close` with code 0 |
| TestRunner.TurnsDecrease | scripts/test-runner.ts:105-122 | every turn of a worker strictly decreases the remaining work, every event keeps it |
| TestRunner.TurnsBounded | scripts/test-runner.ts:105-125 | no run gives control to workers more than twice the suites plus the workers times |
| TestRunner.NeverStuck | scripts/test-runner.ts:104-158 | until the end something can go on, or a child that has not reported is awaited |
| TestRunner.SecondEventIgnored | scripts/test-runner.ts:44-66 | `error` after `close`, or the other way round, changes nothing |
| TestRunner.Runner.ClaimNext | scripts/test-runner.ts:106-109 | checking and taking the index is one step: it is the claim of the step relation |
| TestRunner.Runner.Push | scripts/test-runner.ts:110-120 | one result, one completion and one of the two counters |
| TestRunner.Runner.LaunchWorker | scripts/test-runner.ts:105-109 | a worker's first turn is its first claim |
| TestRunner.Runner.OnChildEvent | scripts/test-runner.ts:44-66 | the first event resolves the child's promise, to success if and only if it is `close` with code 0; a resolved promise and all others stay |
| TestRunner.Runner.ResumeWorker | scripts/test-runner.ts:109-122 | what follows the await is the step relation's resume: record, count, claim again |
| TestRunner.Runner.AfterJoin | scripts/test-runner.ts:125-158 | all workers gone: the isolated suite starts, or the run ends with its exit code |
| TestRunner.Runner.OnRepoEvent | scripts/test-runner.ts:44-66 | the first event of the isolated suite resolves its promise, to success if and only if it is `close` with code 0; a second changes nothing |
| TestRunner.Runner.ResumeAfterRepo | scripts/test-runner.ts:128-158 | the isolated suite is recorded last and decides the exit code with the others |
| TestRunner.Runner.ExitFacts | scripts/test-runner.ts:141-158 | what the program's own variables hold when it exits: counters that add up, a permutation of the suites as results, exit code 0 if and only if the first event of every suite was `close` with code 0 |
| TestRunner.Runner.AwaitingFacts | scripts/test-runner.ts:107-109 | a worker that awaits a suite awaits a claimed one, and the pool is still on |
| Lcg.StepIsExact | scripts/validate-context-management.ts:222 | product and sum stay below 2^53, so the step computed in rounded doubles is the step over the integers |
| Lcg.FullPeriod | scripts/validate-context-management.ts:222 | n draws lead back to the same state if and only if 2^32 divides n |
| Lcg.SeriesDivisibility | scripts/validate-context-management.ts:222 | 2^k divides the multiplier's series of n terms if and only if it divides n |
| Lcg.NoEarlyRepeat | scripts/validate-context-management.ts:222 | no state comes twice within one period |
| Lcg.StepIsPermutation | scripts/validate-context-management.ts:222 | every state has a predecessor |
| Lcg.StepIsInjective | scripts/validate-context-management.ts:222 | and only one |
| Lcg.EveryStateVisited | scripts/validate-context-management.ts:221-222 | from any seed all 2^32 states are reached within one period |
| Lcg.Random.Next | scripts/validate-context-management.ts:222 | a draw is the new state over 2^32 and lies in [0, 1) |
| Lcg.Random.Below | scripts/validate-context-management.ts:223-228 | the floor of the product as doubles round it; for bounds up to 2^21 the exact quotient, below the bound |
| Lcg.ScaledIsExact | scripts/validate-context-management.ts:222-238 | scaling a draw by a bound of at most 2^21 rounds nothing, and the bounds of the script, 40, 800, 2000, 20 and 300, are such |
| Lcg.BuildHistory | scripts/validate-context-management.ts:221-230 | one system message and 2 to 41 turns with consecutive time stamps, each text of the length its own draw gives |
| Lcg.MessagesDrawFresh | scripts/validate-context-management.ts:225-230 | no two messages draw from the same generator state |
| ZipWriter.WriteUIntLE | scripts/validate-doc-extractor.ts:30-40 | writes in place the little-endian bytes and nothing else, or fails and writes nothing when the value does not fit |
| ZipWriter.FillHeader | scripts/validate-doc-extractor.ts:28-40 | the eleven writes at their offsets fill the 30 bytes with exactly the header's fields, in order |
| ZipWriter.CreateZip | scripts/validate-doc-extractor.ts:20-46 | the concatenated members of all entries, or a range error if and only if some length does not fit |
| ZipWriter.HeaderReadsBack | scripts/validate-doc-extractor.ts:30-40 | a reader of section 4.3.7 sees every field as it was written, whatever follows |
| ZipWriter.HeaderStarts | scripts/validate-doc-extractor.ts:30-36 | a header begins with the bytes `PK`, 3, 4, version 20, no flags, method 8, and no time, date or checksum |
| ZipWriter.MemberReadsBack | scripts/validate-doc-extractor.ts:42 | the first member is read whole and reading goes on right behind it |
| ZipWriter.ZipRoundTrip | scripts/validate-doc-extractor.ts:20-46 | a sequential reader recovers all names and contents in order, from inflate being an inverse of deflate alone |
| ZipWriter.ArchiveSize | scripts/validate-doc-extractor.ts:20-46 | the size is the sum of 30 + name + compressed content |
| ReadmeSplice.UpdateReadme | scripts/link-adr.ts:79-86 | the branch and the replacement, dollar patterns of the replacement text included, compute the specified text |
| ReadmeSplice.SpliceMeans | scripts/link-adr.ts:76-86 | at the first graph header the text up to the next `##`, or to the end, gives way to header, graph and a line break, dollar patterns replaced; without a header both are appended |
| ReadmeSplice.ExpandMeans | scripts/link-adr.ts:83 | the dollar patterns of the replacement text: `$$`, `$&` and the texts before and behind the match; any other dollar stays |
| ReadmeSplice.SpliceIdempotentExactly | scripts/link-adr.ts:82-83 | with the section present, updating twice is updating once if and only if the inserted text holds no `##` |
| ReadmeSplice.StableWithoutMark | scripts/link-adr.ts:82-83 | one direction: a fixed point after one update |
| ReadmeSplice.GrowsWithMark | scripts/link-adr.ts:82-83 | the other: the second update is strictly longer |
| ReadmeSplice.CleanSplice | scripts/link-adr.ts:79-83 | with a graph free of `##` and `$`: the text around the section stays, the section is the new graph, a second update changes nothing |
| ReadmeSplice.CleanAppend | scripts/link-adr.ts:84-86 | without the section the graph is appended, the second run adds a line break, and from then on nothing changes |
| ReadmeSplice.MarkedGraphGrows | scripts/link-adr.ts:82-83 | a graph with a `##` makes every further update longer |
| ReadmeSplice.SettlesExactly | scripts/link-adr.ts:82-83 | for a graph without `$`: updating twice is updating once if and only if the graph holds no `##` |
| AdrGraph.MatchesAreMentions | scripts/link-adr.ts:42 | the left-to-right matches are exactly the identifiers the text mentions anywhere; going on behind a match skips none |
| AdrGraph.MatchMeaning | scripts/link-adr.ts:42 | a match is `MEOW-` in any case and all the digits that follow, at least one |
| AdrGraph.LinksInOrder | scripts/link-adr.ts:42-43 | a record's links come in the order in which its text first mentions them |
| AdrHeading.HeadingMeans | scripts/link-adr.ts:38 | the title is that of the first line start where the pattern matches, taken from where the pattern's preferred match has its second group, up to the end of that line and trimmed; none if and only if it matches nowhere |
| AdrHeading.HeadingExactly | scripts/link-adr.ts:38-39 | the same as an equivalence: `title` is the record's title if and only if it is the trimmed rest of the first matching line from there on; none if and only if no line start matches |
| AdrHeading.TitleIsPreferred | scripts/link-adr.ts:38 | where a title is found, it begins behind the match the greedy pattern prefers: all the white space it can have, then the longest label |
| AdrHeading.LabelIsDropped | scripts/link-adr.ts:38 | a label followed on its line by text is no part of the title, which is that text trimmed |
| AdrHeading.TitleLeads | scripts/link-adr.ts:38 | where a title is found, a hash, white space and at most one label lead up to it |
| AdrGraph.CollectNodes | scripts/link-adr.ts:28-51 | the loop over the files builds the specified node map, titles from the records' texts |
| AdrGraph.NodesAreFiles | scripts/link-adr.ts:34-50 | one node for each identifier among the file names, made from the last file with it |
| AdrGraph.NodesInOrder | scripts/link-adr.ts:45-50 | the nodes come in the order in which their identifiers first occur among the file names |
| AdrGraph.FileIdMeans | scripts/link-adr.ts:34-36 | a file makes the identifier its name begins with, and none if it begins with none |
| AdrGraph.TitleMeans | scripts/link-adr.ts:38-39 | a node is called by the record's heading, or by its identifier if it has none |
| AdrGraph.RecordsMean | scripts/link-adr.ts:27 | the records are the `.md` files but the README |
| AdrGraph.EdgesExact | scripts/link-adr.ts:62-72 | an edge (u, v) is drawn if and only if both are nodes, they differ, and the text of u mentions v; none is drawn twice |
| AdrGraph.EdgeKeyInjective | scripts/link-adr.ts:65 | two edges with the same key are the same edge |
| AdrGraph.Draw | scripts/link-adr.ts:54-74 | the nested loop with its key set yields the diagram line by line, and the set's size is the number of edges |
| AdrDiagram.DiagramLines | scripts/link-adr.ts:54-74 | the lines of the diagram, written out: the head, a box for each node with its identifier and cleaned title, an arrow for each edge with its source on the left, the end |
| AdrDiagram.DiagramReadsBack | scripts/link-adr.ts:54-74 | a reader of the diagram gets the identifiers and cleaned titles in order and exactly the edges, in order and in their direction |
| AdrDiagram.ArrowsExactly | scripts/link-adr.ts:27-74 | for any files: the line `u --> v` is in the diagram if and only if u and v differ, a file name begins with v, and the last file whose name begins with u mentions v |
| AdrGraph.CleanTitleMeans | scripts/link-adr.ts:58 | a cleaned title has lost brackets and quote marks and nothing else |
| AdrGraph.DiagramCleanExactly | scripts/link-adr.ts:54-74 | the diagram holds neither `##` nor `$` if and only if no title does once its brackets and quotes are dropped |
| AdrGraph.LinkAdr | scripts/link-adr.ts:27-90 | the whole run on a directory: the README written, if there is one, and the two counts |
| AdrGraph.RunsSettle | scripts/link-adr.ts:27-88 | with clean titles, repeated runs reach a fixed point after one run, or two if the section was missing |
| AdrGraph.RunsSettleExactly | scripts/link-adr.ts:27-88 | for titles without `$` repeated runs settle if and only if no title holds a `##` once its brackets and quotes are dropped |
| AdrScaffold.GetNextAdrNumber | scripts/scaffold-adr.ts:11-26 | one more than the largest number in the directory and at least 15, in double arithmetic |
| AdrScaffold.ScaffoldName | scripts/scaffold-adr.ts:38-41 | the name made from that number and the title |
| AdrScaffold.FileNameMeans | scripts/scaffold-adr.ts:38-41 | the name is `MEOW-`, the number with at least three digits and no more zeros than that takes, a dash, the slug and `.md` |
| AdrScaffold.FileNumberMeans | scripts/scaffold-adr.ts:18-22 | a file has a number if and only if its name begins with `MEOW-`, in any case, and a digit: the double nearest to what all its digits say |
| AdrScaffold.MaxIsMax | scripts/scaffold-adr.ts:17-24 | the loop's number bounds every parsed number and is 14 or one of them |
| AdrScaffold.NameParsesBack | scripts/scaffold-adr.ts:19-41 | parsing the zero-padded prefix of a made name gives its number, for every number that is a double |
| AdrScaffold.NumberExceedsAll | scripts/scaffold-adr.ts:17-25 | with ids below 2^53 the chosen number exceeds them all |
| AdrScaffold.NeverOverwrites | scripts/scaffold-adr.ts:11-42 | with ids below 2^53 the chosen name is not in the directory, whatever the title |
| AdrScaffold.NextIsGreaterExactly | scripts/scaffold-adr.ts:16-25 | the number chosen exceeds every number in the directory if and only if the largest is below 2^53, or below 2^54 and an odd multiple of two |
| AdrScaffold.OverwritesExactly | scripts/scaffold-adr.ts:11-42 | for ids below 2^54 and each title: the chosen name is that of an existing file if and only if the largest id is at least 2^53, no odd multiple of two, and a file bears the name made with it and that title |
| AdrScaffold.MaxIsRounded | scripts/scaffold-adr.ts:21-22 | the largest number of a directory is itself a double |
| Doubles.RoundIdempotent | scripts/scaffold-adr.ts:21 | rounding to a double twice is rounding once |
| AdrScaffold.OverwritesAtLimit | scripts/scaffold-adr.ts:11-42 | beside a record numbered 2^53 the same title gets that record's name |
| Percentile.DefinedExactly | scripts/benchmark-parent-io.ts:84-87 | the index is in range if and only if there are samples and p is at most one |
| Percentile.PickedIsNearestRank | scripts/benchmark-parent-io.ts:84-87 | for whatever positive product up to n the multiplication yields, rounded or not, the result is v if and only if v is a sample with at least that many samples at most it and fewer below it |
| Percentile.ValueIsNearestRank | scripts/benchmark-parent-io.ts:84-87 | for p in (0, 1] the result is v if and only if v is a sample with at least p*n samples at most it and fewer than p*n below it |
| Percentile.ValueIsLeast | scripts/benchmark-parent-io.ts:84-87 | for p of zero or less it is the smallest sample |
| Percentile.NearestRankUnique | scripts/benchmark-parent-io.ts:84-87 | there is only one such value |
| Percentile.SortKeeps | scripts/benchmark-parent-io.ts:85 | sorting orders the samples and keeps members and counts |
| Probe.ActiveIsUnfinished | scripts/meow-io-benchmark.ts:84-94 | after every history `active` is the number of operations begun and not ended, repeated ends included |
| Probe.ClampNeverActs | scripts/meow-io-benchmark.ts:92 | an end that counts finds at least one active operation, so the clamp changes nothing |
| Probe.EndTwiceIsOnce | scripts/meow-io-benchmark.ts:89-93 | ending twice is ending once |
| Probe.MaxIsPeak | scripts/meow-io-benchmark.ts:84-87 | `maxConcurrency` is reached at some moment of the history and exceeded at none |
| Probe.Probe.Begin | scripts/meow-io-benchmark.ts:72-88 | the start time of the first operation, one more active operation, the peak kept up, and a fresh end function |
| Probe.Probe.End | scripts/meow-io-benchmark.ts:89-93 | only the first call of an end function counts |
| Probe.Probe.EndOnCloseAndError | scripts/meow-io-benchmark.ts:125-126 | a child that fires both events ends its operation once |
| TokenPool.ConfigFile.Run | scripts/add-token.ts:68-145 | one run ends as its arguments and the file decide, and a run that fails writes nothing; what that is, on the values of the file, say the rows of TokenMeaning |
| TokenMeaning.SavingRun | scripts/add-token.ts:90-143 | a saving run, on the values alone: the list it starts from, the one record it writes in place or behind, property by property, the login it writes, and everything else in the file untouched |
| TokenMeaning.LoginIsMoved | scripts/add-token.ts:90-100 | without a list, the stored login becomes the first record of the new pool, with all it had, under its own identifier or `codex_primary_legacy`, with weight 1 and priority 10; the run's record, for another account or for none, is the second |
| TokenMeaning.LoginIsReplaced | scripts/add-token.ts:90-131 | for the login's own account there is one record, which keeps that identifier |
| TokenMeaning.NoLoginToMove | scripts/add-token.ts:90-134 | without a list and without a login that has a token, the run's record is alone |
| TokenMeaning.EndingMeans | scripts/add-token.ts:68-118 | how a run ends, the first failure deciding: no token, a null entry before the account's record, a weight outside 1 to 1000, a priority outside 0 to 1000 |
| TokenMeaning.FileMeans | scripts/add-token.ts:77-145 | a missing file is an empty object, one that is not JSON or no object stops the run, a JSON list is read as an empty object and written back as it was |
| TokenPool.FileFollows | scripts/add-token.ts:77-145 | over any sequence of runs the file is the configuration the model computes |
| TokenPool.UpsertIsLocal | scripts/add-token.ts:90-134 | the matched record is replaced where it stands and keeps its identifier, all others stay, and a record is appended if and only if the account is unknown or unmatched |
| TokenPool.SettledAlways | scripts/add-token.ts:90-134 | over any sequence of runs, each known account keeps at most one record |
| TokenPool.OnceAddedStays | scripts/add-token.ts:107-134 | a known account, once added, has exactly one record ever after, at the same place with the same identifier |
| TokenPool.AnonymousAlways | scripts/add-token.ts:107-111 | records of no known account are never merged, replaced or moved by any sequence of runs |
| TokenPool.UnknownNeverMerged | scripts/add-token.ts:102-134 | a run without an account appends a record that no later run touches |
| TokenPool.FindFromMeaning | scripts/add-token.ts:109-111 | the search gives the first matching record, or none, or fails at a null entry before any match |
| TokenMeaning.PrimaryMirrorsExactly | scripts/add-token.ts:120-143 | the primary login repeats the token, account and e-mail of the record the run writes into the pool, and its refresh token if and only if one was given or the old login and the replaced record had the same one |
| TokenPool.PrimaryCanMixAccounts | scripts/add-token.ts:137-143 | two runs after which the primary login pairs one account with the refresh token of another |

## Left out

- `inlineFormatting` (scripts/build-blog.js:359-397): overlapping rewrites of text; here the text is the atom handed to it.
- The HTML templates around tokens, and the rest of the site build (routing, search index, file copies).
- Characters beyond the basic plane: strings are sequences of code points, not of UTF-16 units, which no modelled test can tell apart except by length.
- `toLowerCase` of capitals outside ASCII other than the Kelvin sign and the dotted I: both slug pipelines drop them in either case.
- DEFLATE, and UTF-8 encoding of names and contents: a codec with an inverse, and bytes; object key order decides entry order.
- `makeTurns` and the compaction, truncation and everything else the validation scripts import from `src/`.
- The runner's output, timings, directory listing and `--filter` argument; process creation is an event source.
- AdrScaffold.GetNextAdrNumber: numbers above the largest double are not modelled as infinity; a file name with one has more than 308 digits, which common file systems do not allow.
- AdrScaffold.OverwritesExactly: from 2^54 on a double may print with other digits than its own, which is not modelled, so directories with such ids are left to `NextIsGreaterExactly`.
- AdrScaffold.NameParsesBack: likewise about names made with all the digits of the number.
- Percentile.ValueIsNearestRank: with the exact product; `PickedIsNearestRank` is about the rounded one. `toFixed` and NaN samples are left out.
- Probe.Probe.Begin: the other time stamps and the per-operation counters are not modelled.
- TokenPool.ConfigFile.Run: the key order in the file, the push to the worker and the argument parsing are not modelled.
- The file system, git, npm, OAuth and HTTP calls of all scripts.
