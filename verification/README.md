# Verified models of the release tooling

This project models the parts of the outer CLI runner's release tooling where a mistake would be hard to see
by reading: hand-written scanners, worklists and fixed points, and the protocols that publish a release to
servers which can fail at any request. Each module names the source file it models.

* **Scanners and parsers.** `Comments` blanks comments, with nested blocks, escapes and Rust raw strings;
  `Literals` extracts Rust and TypeScript string literals; `TrailingCommas` cleans a Bun lockfile;
  `TomlAssignments` and `CargoLock` read Cargo manifests and lock files over `Lines`; `CodexWire` fills the
  prompt frame's markers one after another.
* **Worklists and fixed points.** `CargoInventory` and `BunInventory` propagate dependency scopes and are
  compared with `Reachability`, `FlowClosure` is taint and alias propagation, `ResolvedPaths` resolves build
  paths in bounded rounds, `TreeIdentity` walks a directory tree whose enumeration order is arbitrary.
* **Protocols.** `DraftRelease` with `ReleaseApi` creates or resumes a draft release, `StageUpload` uploads to a
  draft with bounded retries, `Publication` publishes five npm packages, `CheckpointStore` saves checkpoints
  under a lock.

`Text`, `Wrappers`, `Collections` and `Ordering` are shared helpers. Each scanner is characterized on every text,
and each reader by a description of exactly the inputs it accepts, stated over characters and lines.

Where the source loops or changes state, a method with loop invariants, or a class whose methods change its
fields, is proved equal to a function of the input or of the old state. The results are lemmas about that
function. In the protocols the world is a value holding the remote state, a log of the requests made, and the
answers still to come; the lemmas hold for every sequence of answers, and a run whose answers have been used up
is a run that was interrupted. A history is any number of runs, each with its own answers.

## What the models found

* `strip_json_trailing_commas` is not idempotent: `[1,,]` needs two passes. A second pass changes its output
  exactly when a kept comma stands directly before a dropped one (`TrailingCommas.SecondPass`).
* `toml_assignments` joins the lines of a value with a line feed that its quote tracking does not see. The text it
  yields can therefore be unbalanced although the tracked characters balance: after `a = "x\` the line `""`
  ends the value (`TomlAssignments.YieldedTextCanBeUnbalanced`). Whatever lines a value has so far, every last line
  yields a balanced text if and only if the joined text and a line feed are read to the same depth as the lines
  themselves (`JoiningIsSafe`); after a first line that means it does not end in an open escape (`FirstJoinIsSafe`).
* `parse_toml_string_array` looks for `]` inside strings too, so a dependency array is read back exactly when no
  string in it holds one, and is refused otherwise (`CargoLock.ReadBackIffNoBracket`).
* `resolve_cargo_dependency` tries a version before a source. A source that follows the name directly is read as a
  source exactly when it holds white space and what comes after its first white space does not open a parenthesis;
  otherwise its first word, with the parenthesis, is taken for a version, as in `n (a)` and `n (a (b)`
  (`CargoInventory.SourceAloneIsRead`, `SourcesTakenForVersions`).
* A draft upload that was cut off blocks every later run (`DraftRelease.CutOffBlocks`, with an input in `CutOffInput`).
  On a server that runs of the protocol left behind, a run that meets no fault returns exactly when there is no such
  upload, the tag resolves, and the paged search has room (`DraftRelease.ReturnsExactlyWhen`). On any other server the
  tag's releases must also be at most one exact draft of the plan with exact assets (`DraftRelease.ReturnsOnAnyServer`).
  `StageUpload.ReturnsExactlyWhen` is the same for the other uploader, on any draft.
* The codex frame can be refused although the template is right, because an image may hold a later marker
  (`CodexWire.HeldMarkerRefuses`, with an input in `RightTemplateCanBeRefused`) or complete one; when it is not refused
  it is exactly simultaneous substitution (`CodexWire.OneByOneIsSimultaneous`).
* Page and count limits of the asset listing, the round limit of the path resolver, the fall-through of the retry
  loop and the `seen` skip of the worklists never decide anything.
* The blanker's Rust mode does not know character literals, so `'"'` opens a string for it; nothing here relates it
  to the literal extractor, which does.

## Model

| member | source | states |
|---|---|---|
| Comments.RustRawLiteralEnd | cli/ci/check_architecture.py:220-236 | the index loop finds the end of a raw literal that the prefix, hash run and first terminator determine |
| Comments.RawLiteralExactly | cli/ci/check_architecture.py:220-236 | a raw literal is found, and ends, exactly where `r`, `br` or `cr`, hashes, a quote, a body and its first terminator stand |
| Comments.TerminatorFound | cli/ci/check_architecture.py:234-236 | a raw terminator cannot straddle a body's end: the search stops exactly after a body free of it |
| Comments.WithoutComments | cli/ci/check_architecture.py:239-292 | the quote, escape and depth flags of the loop implement the turn-by-turn scan, in both modes |
| Comments.KeepsPositions | cli/ci/check_architecture.py:239-292 | the result has the same length, differs only by spaces, and keeps every newline where it was |
| Comments.BlankingIsIdempotent | cli/ci/check_architecture.py:239-292 | blanking a blanked text changes nothing, although raw literals look ahead into text blanked later |
| Comments.NoRawAppears | cli/ci/check_architecture.py:220-236 | blanking later comments cannot create a raw literal |
| Comments.BlanksExactlyTheComments | cli/ci/check_architecture.py:239-292 | on any text spelled by code, strings, raw strings and nested comments, closed or not, exactly the comments become blanks |
| Comments.EveryTextIsSpelled | cli/ci/check_architecture.py:239-292 | every text is spelled so, in both modes |
| Comments.BlankingOfAnyText | cli/ci/check_architecture.py:239-292 | so for any text the result is its spelling with the comments turned into blanks |
| Literals.EscapedLiteral | cli/ci/check_architecture.py:868-879 | gives the body up to the first unescaped delimiter and the position after it, or nothing |
| Literals.BodyCloses | cli/ci/check_architecture.py:868-879 | a body without bare delimiter or open escape is closed by the delimiter right after it |
| Literals.TypescriptStringLiterals | cli/ci/check_architecture.py:882-896 | the cursor loop collects what the turn-by-turn reading takes |
| Literals.TsExtractionUndoesPrinting | cli/ci/check_architecture.py:882-896 | returns exactly the bodies of the printed strings, in order, whatever other delimiters they hold |
| Literals.TsExtractionOfAnyCode | cli/ci/check_architecture.py:882-896 | any code is strings with other characters between them, the last perhaps not closed, and the bodies of the closed ones are returned in order |
| Literals.RustCharLiteralEnd | cli/ci/check_architecture.py:899-923 | the digit loop finds the end that the literal's form determines |
| Literals.CharTokenEnd | cli/ci/check_architecture.py:899-923 | plain, escaped, hexadecimal and Unicode character literals are recognized whole, quotes included |
| Literals.CharLiteralExactly | cli/ci/check_architecture.py:899-923 | a character literal is recognized, up to its end, exactly where one of the four forms stands |
| Literals.RustStringLiterals | cli/ci/check_architecture.py:926-957 | the cursor loop collects what the turn-by-turn reading takes |
| Literals.ExtractionUndoesPrinting | cli/ci/check_architecture.py:926-957 | for any filler, lifetimes, escaped and raw strings and character literals, returns exactly the string bodies in order |
| Literals.ExtractionOfAnyCode | cli/ci/check_architecture.py:926-957 | any code is literals with other characters between them, the last perhaps not closed, and the bodies of the closed strings are returned in order |
| TrailingCommas.StripJsonTrailingCommas | cli/ci/dependency_evidence.py:142-176 | removes exactly the commas outside strings whose next non-space character closes, and fails exactly when the text ends in a string |
| TrailingCommas.TrailingExactly | cli/ci/dependency_evidence.py:163-170 | of any text, a comma outside strings is dropped if and only if nothing but white space stands between it and a closing bracket or brace |
| TrailingCommas.LiteralsSurvive | cli/ci/dependency_evidence.py:142-176 | a reader of the output finds the same string literals in the same order |
| TrailingCommas.StripsExactlyTheTrailingCommas | cli/ci/dependency_evidence.py:142-176 | every JSON tree printed with any spaces and trailing commas comes back as the same print without those commas |
| TrailingCommas.SecondPass | cli/ci/dependency_evidence.py:142-176 | the output is accepted again, and a second pass leaves it alone if and only if no kept comma stood before a dropped one |
| TrailingCommas.SecondPassCanChange | cli/ci/dependency_evidence.py:142-176 | `[1,,]` gives `[1,]`, which gives `[1]` |
| Text.SpacesAreWhiteSpace | cli/ci/dependency_evidence.py:166 | white space is exactly the 29 characters listed one by one |
| Lines.SplitsAtEveryEnd | cli/ci/dependency_evidence.py:410 | lines are split at each of the eleven line ends, a carriage return with its line feed counting once; a last line without an end counts unless empty |
| Lines.SplittingUndoesWriting | cli/ci/dependency_evidence.py:410 | lines free of every character that `splitlines` breaks at are recovered from the text they form |
| Lines.StripExactly | cli/ci/dependency_evidence.py:413 | stripping gives the one text without white space at its ends that white space surrounds |
| Lines.KeyAndValueSplit | cli/ci/dependency_evidence.py:437 | the first equals sign separates key and value, and both are stripped |
| Lines.SplitsIntoKeyAndValue | cli/ci/dependency_evidence.py:437 | a printed field splits back into its key and value |
| CargoLock.ParseStringArray | cli/ci/dependency_evidence.py:224-241 | the line-gathering loop reads the array that the assembled text holds, and ends on its last line |
| CargoLock.StringArrayExactly | cli/ci/dependency_evidence.py:224-241 | an array is read exactly where one stands: one opening bracket, literals that decode among commas and white space, the first line with a closing bracket, and white space |
| CargoLock.ElementsOfSpelled | cli/ci/dependency_evidence.py:234-241 | any spelling of plain strings with commas and spaces around them is read as those strings |
| CargoLock.ElementsExactly | cli/ci/dependency_evidence.py:234-241 | the text between brackets is read as these values if and only if it is literals of them among commas and white space |
| CargoLock.ReadBackIffNoBracket | cli/ci/dependency_evidence.py:224-241 | a printed array, on one line or many, is read back if and only if no string holds a closing bracket; otherwise it is refused |
| CargoLock.ParseCargoLock | cli/ci/dependency_evidence.py:409-456 | the package loop computes what reading line after line gives, with the same failures |
| CargoLock.ParsingUndoesPrinting | cli/ci/dependency_evidence.py:409-456 | 1 to 16384 packages with optional fields, printed with any comments and array layout, come back unchanged; no package, or more, is refused |
| CargoLock.ReadsExactlyLockFiles | cli/ci/dependency_evidence.py:409-456 | a text is read as these packages if and only if its lines hold `version = 4` once before any package, known fields given once, decodable strings, and 1 to 16384 packages |
| TomlAssignments.ConsumeCharacters | cli/ci/dependency_evidence.py:333-355 | the flags and counters follow the depth of quotes, brackets and braces and fail at the first that closes too early |
| TomlAssignments.ScanSucceeds | cli/ci/dependency_evidence.py:333-355 | the scan gets through a text if and only if no prefix has more closing than opening brackets or braces outside strings |
| TomlAssignments.ClosesIsBalanced | cli/ci/dependency_evidence.py:357-358 | it ends with nothing open if and only if the text balances outside its strings |
| TomlAssignments.ReadAssignments | cli/ci/dependency_evidence.py:297-367 | the nested loops yield the entries, and end in the failure, of reading line after line |
| TomlAssignments.ReadingIsSound | cli/ci/dependency_evidence.py:297-367 | what was yielded is a document up to some line with every entry in the section of the header last above it; values are whole lines and end where they first balance; no (section, key) comes twice |
| TomlAssignments.EveryLineIsRead | cli/ci/dependency_evidence.py:304-367 | up to that line, the last one without failure, every line is blank, a comment, a header or part of exactly one entry, in order and under its header |
| TomlAssignments.ReadsExactlyDocuments | cli/ci/dependency_evidence.py:297-367 | the lines are read without failure as these entries if and only if they are a document of them, section by section, in which no key comes twice |
| TomlAssignments.HeaderKeeps | cli/ci/dependency_evidence.py:309-319 | every `[[name]]` opens a section that no earlier array table, plain table or entry has |
| TomlAssignments.HeaderBelow | cli/ci/dependency_evidence.py:309-319 | a header is accepted if and only if its brackets match, and then the section is its name, or the element numbered by its occurrences |
| TomlAssignments.ElementsApart | cli/ci/dependency_evidence.py:315 | the section's spelling determines the array name and the occurrence |
| TomlAssignments.ValueBalances | cli/ci/dependency_evidence.py:357-366 | a yielded value of one line balances; one of several lines does when its earlier lines were safe to join, and they were if and only if every last line would have given a balanced text |
| TomlAssignments.JoiningIsSafe | cli/ci/dependency_evidence.py:357-366 | for a value of any number of lines: every last line that ends it gives a balanced text if and only if the joined text and a line feed are read to the same depth as the lines |
| TomlAssignments.FirstJoinIsSafe | cli/ci/dependency_evidence.py:357-363 | after the first line that condition is that it does not end in an open escape |
| TomlAssignments.DepthsTellApart | cli/ci/dependency_evidence.py:333-357 | two different depths of quotes and brackets are told apart by a line that ends the value at one and not at the other |
| TomlAssignments.YieldedTextCanBeUnbalanced | cli/ci/dependency_evidence.py:297-367 | the reading of `a = "x\` and `""` yields one entry whose text does not balance |
| CodexWire.Frame | cli/ci/alpha_package_admission.py:1766-1776 | the loop over the four markers computes the one-after-another replacement with its refusals |
| CodexWire.ReplacedThere | cli/ci/alpha_package_admission.py:1772-1775 | a marker counted once is replaced where it is known to stand, and nothing else changes |
| CodexWire.CountIsHoles | cli/ci/alpha_package_admission.py:1773 | counting a marker in the template is counting its holes in one left-to-right reading |
| CodexWire.CountIsOnce | cli/ci/alpha_package_admission.py:1773 | a marker is counted once if and only if it stands at exactly one position |
| CodexWire.OneByOneIsSimultaneous | cli/ci/alpha_package_admission.py:1766-1776 | for a template with each marker once: the frame returns if and only if each marker is still found once in its turn, and then equals simultaneous substitution |
| CodexWire.FramedByName | cli/ci/alpha_package_admission.py:1766-1776 | in whatever order the named markers stand, a returned frame has each named text where its marker stood and everything else as it was |
| CodexWire.HeldMarkerRefuses | cli/ci/alpha_package_admission.py:1772-1774 | a value that holds a later marker makes a right template refused |
| CodexWire.RightTemplateCanBeRefused | cli/ci/alpha_package_admission.py:1766-1774 | the four markers in a row, with an image that is the last marker, are refused |
| CodexWire.FrameHoldsTheTexts | cli/ci/alpha_package_admission.py:1766-1776 | a returned frame holds the image and the task's JSON verbatim |
| CargoInventory.ReferencesReadBack | cli/ci/dependency_evidence.py:464-467 | a name, a name with a version, and both with a source are read as that name and version |
| CargoInventory.ReadsThePattern | cli/ci/dependency_evidence.py:464-467 | any text is read as a reference if and only if it matches the pattern, with the version preferred to the source |
| CargoInventory.SourceAloneIsRead | cli/ci/dependency_evidence.py:464-467 | the exact reading of a name with a source alone: no version if and only if the source has white space that is not followed by an opening parenthesis, else its first word |
| CargoInventory.SourcesTakenForVersions | cli/ci/dependency_evidence.py:464-467 | `n (a)` and `n (a (b)` are read with versions, `n (a b)` without |
| CargoInventory.ResolveCargoDependency | cli/ci/dependency_evidence.py:459-476 | returns the one lock package a reference matches, and fails if and only if there is not exactly one |
| CargoInventory.PropagateScopes | cli/ci/dependency_evidence.py:550-569 | the worklist ends with exactly the reachable package and scope pairs, and fails if and only if a reachable reference does not resolve |
| CargoInventory.AdmittedExactly | cli/ci/dependency_evidence.py:491-523 | a lock package is admitted if and only if its name, version, source and checksum have the forms spelled out, or it is a local package under its own version |
| CargoInventory.ResolvedCargoComponent | cli/ci/dependency_evidence.py:479-594 | succeeds exactly when the lock is admissible, complete and fully reachable, with strictly ascending records of every package |
| CargoInventory.ScopesAreReachability | cli/ci/dependency_evidence.py:506-586 | each package is listed under its name, version, checksum and normalized source; its scopes are the local scope if it is local plus every scope it is reachable for, never none |
| CargoInventory.RecordsAscend | cli/ci/dependency_evidence.py:587 | records come in strictly ascending order of name, version and source |
| CargoInventory.OrderDoesNotMatter | cli/ci/dependency_evidence.py:489-594 | success and the output sequence are the same for any order of packages, direct dependencies and dependency arrays |
| Ordering.AscendingUnique | cli/ci/dependency_evidence.py:587 | a strictly ascending arrangement is determined by its members |
| Ordering.StringOrder | cli/ci/dependency_evidence.py:587 | strings are ordered by the first character that differs |
| Ordering.TupleOrder | cli/ci/dependency_evidence.py:587 | tuples are ordered by the first item that differs |
| BunInventory.PropagateScopes | cli/ci/dependency_evidence.py:803-825 | the worklist stops at a reachable name outside the lock file or ends with exactly the reachable pairs |
| BunInventory.PackageScopes | cli/ci/dependency_evidence.py:803-847 | succeeds if and only if reachable names and lock packages coincide, and scopes are reachability |
| FlowClosure.TaintedNames | cli/ci/check_architecture.py:1187-1200 | the change-flag loop ends with exactly the names a flow chain leads to from a seed |
| FlowClosure.ReadAliases | cli/ci/check_architecture.py:1203-1248 | in Rust the imported aliases only; in TypeScript exactly those and the names copied from them along chains |
| FlowClosure.FlowIsLeast | cli/ci/check_architecture.py:1187-1200 | the reached names lie in every set that holds the seeds and is closed under the assignments |
| FlowClosure.FlowIsMonotone | cli/ci/check_architecture.py:1187-1200 | more seeds or assignments reach no less |
| FlowClosure.OrderDoesNotMatter | cli/ci/check_architecture.py:1187-1200 | order and repetition of the assignments do not matter |
| ResolvedPaths.Round | cli/ci/check_architecture.py:1430-1461 | one pass keeps the values derivable, reports exactly the forbidden ones once, and either grows or is closed |
| ResolvedPaths.DescendsByJoining | cli/ci/check_architecture.py:1451-1452 | the target is reached by one join for each literal, in order |
| ResolvedPaths.CheckResolvedPaths | cli/ci/check_architecture.py:1420-1464 | the round limit never cuts resolution short: the values are derivable and closed, and exactly the forbidden ones are reported |
| ResolvedPaths.ValuesAreTheSolution | cli/ci/check_architecture.py:1427-1463 | for distinct names the values are exactly the derivable ones |
| ResolvedPaths.OrderDoesNotMatter | cli/ci/check_architecture.py:1427-1463 | for distinct names the textual order does not matter |
| TreeIdentity.Walk | cli/ci/package_lifecycle.py:292-309 | for any enumeration order the stack walk collects every descendant once, and refuses if and only if there are more than 8192 |
| TreeIdentity.IdentityOf | cli/ci/package_lifecycle.py:261-339 | the records, or the refusal, depend on the tree alone |
| TreeIdentity.IdentityIsSortedRecords | cli/ci/package_lifecycle.py:310-338 | the identity is one record for each member, with kind, permission bits and content or target, in strictly ascending order of relative paths |
| TreeIdentity.PosixIsInjective | cli/ci/package_lifecycle.py:311-312 | relative paths spell members apart |
| TreeIdentity.PosixJoins | cli/ci/package_lifecycle.py:311-312 | a relative path is the names with slashes between them |
| TreeIdentity.RefusesExactly | cli/ci/package_lifecycle.py:261-338 | a tree is refused if and only if it is too large or holds a regular file above 256 MiB, an escaping link or an unsupported member |
| TreeIdentity.RefusesTheFirst | cli/ci/package_lifecycle.py:310-338 | a refused tree of admissible size is refused for its first unacceptable member in path order |
| TreeIdentity.IdentityDiscriminates | cli/ci/package_lifecycle.py:310-339 | two identities are equal if and only if paths, kinds, permission bits, contents and link targets agree |
| ReleaseApi.Search | cli/ci/create_draft_release.py:3553-3594 | the paging loops compute the search page after page |
| ReleaseApi.SearchIsFilter | cli/ci/create_draft_release.py:3553-3594 | below 1000 releases the search is the plain filter: none, the one match, or refused as ambiguous; from 1000 on it refuses |
| ReleaseApi.SearchOverAnyPages | cli/ci/create_draft_release.py:3553-3594 | for any page responses the search finds what at most ten well-formed pages hold for the tag, and refuses anything else or more than one |
| ReleaseApi.ValidateIsExact | cli/ci/create_draft_release.py:3596-3626 | an asset is valid if and only if it is expected, uploaded and well formed under a positive id, with the expected size and digest |
| ReleaseApi.ListExactAssets | cli/ci/create_draft_release.py:3637-3673 | the paging loops compute the listing page after page |
| ReleaseApi.ListingNeverRunsOut | cli/ci/create_draft_release.py:3640-3673 | for any page responses neither the page limit nor the count limit is what stops a listing |
| ReleaseApi.ListingIsExact | cli/ci/create_draft_release.py:3637-3673 | a truthful listing succeeds if and only if every asset is expected with its size and digest, and unrepeated, and returns all of them |
| ReleaseApi.ListingOverAnyPages | cli/ci/create_draft_release.py:3637-3673 | for any page responses a listing returns exactly the names of a clean inventory that well-formed pages hold, and refuses anything else |
| ReleaseApi.ResolveExistingTag | cli/ci/create_draft_release.py:3426-3490 | the peel loop computes the bounded, cycle-checked descent |
| ReleaseApi.TagResolvesWithinDepth | cli/ci/create_draft_release.py:3431-3490 | succeeds if and only if at most eight tag objects lead to the requested commit; the cycle check turns nothing else away |
| DraftRelease.GitHub.CreateDraftRelease | cli/ci/create_draft_release.py:3752-3868 | the imperative protocol does to server and log, and returns, what one run is |
| DraftRelease.GitHub.UploadAll | cli/ci/create_draft_release.py:3809-3832 | the upload loop sends the missing assets in order until the first refusal |
| DraftRelease.RunKeeps | cli/ci/create_draft_release.py:3752-3894 | any run keeps one exact draft at most; one that returns leaves exactly the plan, with reused and uploaded adding up |
| DraftRelease.RunAsksEverything | cli/ci/create_draft_release.py:3752-3868 | a run that returns made every request: tag, search, creation unless it resumes, listing, one upload for each missing asset, and the three rechecks |
| DraftRelease.RecheckSeesTheServer | cli/ci/create_draft_release.py:3834-3868 | whatever others did before, rechecks that succeed have just seen the plan's draft under the same id, exactly its assets, and the tag at the source |
| DraftRelease.ChangesNeedAPreflight | cli/ci/create_draft_release.py:3752-3807 | nothing is created or uploaded unless the tag resolves and what the tag has can be resumed |
| DraftRelease.HistoryIsSafe | cli/ci/create_draft_release.py:3752-3868 | over any history of interrupted runs: one release for the tag, assets a part of the plan, nothing uploaded twice, other releases untouched |
| DraftRelease.CompleteIsLeftAlone | cli/ci/create_draft_release.py:3801-3832 | a run on a complete draft changes nothing and uploads nothing |
| DraftRelease.ReturnsExactlyWhen | cli/ci/create_draft_release.py:3752-3868 | on a server the protocol left behind a run without faults returns if and only if no upload was cut off, the tag resolves and the search has room |
| DraftRelease.ReturnsOnAnyServer | cli/ci/create_draft_release.py:3752-3868 | on any truthful server a run without faults returns if and only if the tag has at most one release, an exact draft with exact assets, the tag resolves and the search has room |
| DraftRelease.CutOffBlocks | cli/ci/create_draft_release.py:3801-3824 | once a first upload was cut off after a stub was stored, no later run returns, whatever answers it meets |
| DraftRelease.CutOffInput | cli/ci/create_draft_release.py:3801-3824 | one asset and an empty server: after such a run a run without faults is refused |
| StageUpload.ObserveIsClean | cli/ci/stage_upload.py:38-47 | a snapshot succeeds if and only if every asset is wanted, complete, exact and unrepeated |
| StageUpload.AttemptsSafe | cli/ci/stage_upload.py:64-86 | at most three attempts, a further one only after a transient error; the loop never falls through unverified |
| StageUpload.AttemptsExactly | cli/ci/stage_upload.py:64-86 | for any answers an artifact is returned if and only if one of three uploads takes effect after transient errors without effect, with checks and snapshots good |
| StageUpload.StageIsSafe | cli/ci/stage_upload.py:50-89 | on any draft nothing is replaced, only names missing from the latest snapshot are sent, a changed draft is part of the plan, and a return means exactly the plan's nonempty artifacts |
| StageUpload.HistoryIsSafe | cli/ci/stage_upload.py:50-89 | over any number of runs on any draft it only grows, within the plan if it changes, and no present name is ever sent |
| StageUpload.ReturnsExactlyWhen | cli/ci/stage_upload.py:50-89 | without faults a run returns if and only if tag, draft state, present assets and empty evidence are right |
| StageUpload.ReturnsForAnyAnswers | cli/ci/stage_upload.py:50-89 | for any answers a run returns if and only if it starts right and every answer is good, except that each artifact's upload may fail so up to twice, or report anything once it took effect |
| StageUpload.Draft.StagePlan | cli/ci/stage_upload.py:50-89 | the imperative protocol does to the draft, and returns, what one run is |
| StageUpload.Draft.UploadWithRetries | cli/ci/stage_upload.py:64-86 | the attempt loop, with reconciliation after every attempt, is the bounded retry |
| Publication.Registry.Publish | cli/ci/publication.py:336-369 | the imperative publication does to the registry, and returns, what one run is |
| Publication.RunIsSafe | cli/ci/publication.py:336-369 | nothing published changes, each package is sent at most once on its chosen route, and the root only after all platforms |
| Publication.NothingWithoutPreflight | cli/ci/publication.py:336-362 | whatever the answers, nothing is sent and nothing changes unless verification, every lookup, every comparison of published bytes, a route for every missing package and signing have succeeded |
| Publication.OtherBytesStopEverything | cli/ci/publication.py:354-358 | a published version with other bytes stops a run before anything is sent |
| Publication.TokenOnlyForAbsentNames | cli/ci/publication.py:302-311 | whatever was decided before, the token is never sent for a name that exists at that moment, nor for the root |
| Publication.PublishingAsksEverything | cli/ci/publication.py:346-368 | a run that publishes made the whole preflight and, for each package, both checks and its publication |
| Publication.HistoryIsSafe | cli/ci/publication.py:302-311 | over any history versions never change, what is added is the plan's bytes, a root that was absent or complete at the start never stands without all platforms, the token only opens absent platform names |
| Publication.RerunCompletes | cli/ci/publication.py:354-369 | from wherever interrupted runs left the registry, one authorised run without faults completes all five packages |
| Publication.PublishesExactlyWhen | cli/ci/publication.py:336-369 | from any registry a run without faults publishes all five if and only if what is there are the plan's bytes and every missing package is allowed a route |
| CheckpointStore.CheckpointIsAlwaysWhole | experiments/weave/store.py:15-39 | under any interleaving, crash or power loss the checkpoint is absent or one complete save, and no torn file is read |
| CheckpointStore.SectionsExclude | experiments/weave/store.py:16-20 | at most one process is inside a locked section |
| CheckpointStore.SectionSeesTheCurrent | experiments/weave/store.py:31-39 | from its read to its unlock a process knows the current checkpoint |
| CheckpointStore.NoUpdateIsLost | experiments/weave/store.py:31-39 | every committed checkpoint was derived from the one it replaced |
| CheckpointStore.SavedSurvivesPowerLoss | experiments/weave/store.py:23-30 | a power loss later in the section keeps a save that returned, and every commit before it |
| CheckpointStore.DurableForGood | experiments/weave/store.py:23-30 | what a directory sync covered stays, in order, through any later sections, crashes and power losses |
| CheckpointStore.SavedForGood | experiments/weave/store.py:23-39 | a save that returned, with every commit before it, stays for good |
| CheckpointStore.SectionRuns | experiments/weave/store.py:31-39 | an uninterrupted section starts from the last commit, appends its saves and frees the lock |
| CheckpointStore.SectionRunsAfterCrash | experiments/weave/store.py:15-39 | after the holder of the lock crashed any process can run a whole section from the last commit on |
| CheckpointStore.FileHost.Section | experiments/weave/store.py:31-39 | refused if and only if the lock is held; otherwise reads the last commit and does exactly the section's steps |

## Left out

- HTTP, `gh`, `npm`, `cosign` and subprocess calls: a request is one answer from an arbitrary sequence, and a pagination or tag peel inside a run counts as one request that fails or reads the state at that moment.
- Another writer: the remote changes only through the modelled requests, and server answers other than failures and arbitrary upload bodies are truthful.
- Digests (SHA-256, SHA-512): constructors that keep their content, so that equal digests mean equal bytes.
- Regular expressions that find assignments, imports and mentions in code: `FlowClosure` and `ResolvedPaths` start from the assignments found, with the set of names each expression mentions.
- Release and asset JSON shapes (URLs, node IDs, content types): one flag says whether they are as required; of the draft's identity only its id is compared in the recheck, since a release found with that id and the plan's fields has no other freedom.
- The JSON decoder in `parse_string_literal`: a parameter, assumed in the round trip only to take the quotes off plain strings.
- Very long digit strings in a lock file's version, which the interpreter refuses to convert.
- `DraftRelease.ReturnsExactlyWhen`, `DraftRelease.ReturnsOnAnyServer` and `Publication.PublishesExactlyWhen` are about runs whose requests and local checks all succeed; which answers make such a run fail is the protocol function itself. `StageUpload.ReturnsForAnyAnswers` has no such limit.
- Which failure ends a malformed manifest or lock file: `ReadsExactlyDocuments` and `ReadsExactlyLockFiles` say when there is one, the methods which.
- Scopes are kept as sets, not as the sorted lists printed in the report, which adds a sort of distinct strings.
- Bun lockfile fields before the worklist, and the workspace record added to its output: flat checks.
- Process details of `CheckpointStore`: `reconcile` is an arbitrary sequence of saves, directories exist, and a failed write ends the process.
- Errors while enumerating a directory, and members that change during the walk of `TreeIdentity`: operating-system facts, as is that the root is a directory. Whether a link stays inside the root is given with the link.
- Publication.Registry.Publish: one read of the local package stands for the three the source makes in a turn (digest, upload, integrity), so a file that another process changes between them is not modelled; a change before or after a turn is.
- Local artifact verification, notarization, signing and the fetch of a release: one step that succeeds or fails.
- The token's format, the npm tag, receipts and the alpha handoff: they change no decision of the protocols.
- Report and manifest validators, workflow policy, README guidance and argument parsing: conjunctions of field checks that would add only easy members.
