# Proofs about the app workbench

The workbench generates small web apps, lets people change them by request,
previews and publishes them, and keeps records of its jobs and agent runs. This
project models the parts of it whose correctness is easiest to get wrong and
proves what they keep. `dafny verify dfyconfig.toml` checks all of it.

Six groups of modules follow the program's structure.

- **JSON text and sealed manifests.** `Json`, over `Decimals` and `Separators`, is
  one tree, one printer and one parser; `CanonicalJson`, `Utf16`, `Diagnostics` and `GeneratedAppRuntime` state
  what the canonical printer, the surrogate scan, the brace scanner and the
  embedding in HTML do to its text. `ArtifactPaths`, `PublishTree`,
  `StaticAssetGraph`, `PublishManifest`, `PublishIntegrity`, `PublishVerification`
  and `PublishSeal` take a publish package from sealing to verification against a directory tree.
- **Sanitizing object graphs.** `AgentRunTrace` walks a heap that may be cyclic,
  with the mutable set of objects the walk is inside of.
- **Trees and drafts.** `FileTrees` compares and scopes generated file trees;
  `DraftMutation`, `SortedValues`, `RouteAccess` and `RoutePaths` apply a change
  plan to a draft; `ShortHash` is the fingerprint.
- **Top-k and retention.** `SnapshotRetention`, `MergeReads` and `SessionMemory`,
  over `Ordering`, `Ranking`, `Lists` and `OrderedMaps`.
- **Streams in flight.** `StreamRegistry` is the shared map of running model
  streams, over every interleaving of its steps.
- **Bounds.** `OutputBounds` caps what is read; `Reachability` logs what a
  published app answers; `PreviewCapability` mints and verifies time-bounded
  tokens.

Code of the original that works in steps is a method with its loop, or a class
with its fields, proved equal to a function; the properties are lemmas about
that function. What an order, a text, a code or a limit is, is stated once more on
the stored fields and in plain numbers and characters, so that no property rests on
the function it is about.

## What the proofs found

Each of these is a property that fails on some inputs, with its exact condition.

- A thousand files can be sealed, but on disk the manifest counts as one more, so
  verification succeeds exactly up to 999 (`PublishSeal.SealThenVerify`).
- Cutting the primary listing before merging is sound exactly if no legacy copy
  of a cut row reaches the first rows of the merge; `MergeReads.NewerCopyIsListed`
  is an input where a stale store's newer copy displaces a record.
- A listing that selects by status or agent filters each store before merging, so
  a legacy copy that still passes is listed although its row no longer does:
  `MergeReads.StaleCopyIsListed` lists as running a job whose row has failed. A
  listing shows the selected records of both stores exactly if each such copy has
  the limit of these before it (`SelectionExactly`), and exactly then looking its
  records up by id finds them (`ListedAreFoundExactly`). Selecting a whole
  workspace is safe (`ListedIsFound`).
- A finished stream deletes the registry entry of its id, whoever's it is by then
  (`StreamRegistry.StayRegisteredExactly`, `DisciplineIsNeeded`), and a stream whose
  route cannot be resolved keeps its id taken exactly until its workspace cancels
  it or an earlier stream with the id, cancelled but still running, finishes
  (`StuckExactly`).
- A change of access is lost exactly if the target route is not clean text and is
  not to be private, or is clean and another form of it stays in a list that is read
  before (`RouteAccess.AccessExactly`). A target path is normalized twice; `/a / /`
  becomes `/a / ` and then `/a `, which is not clean (`RoutePaths.NormalizedTwiceMayEndBlank`),
  so made public or to be held by the admin role it reads back as private
  (`UncleanAccessIsLost`). Stored as ` /a`, a private route stays private when `/a` is
  to be held by the admin role (`LeftFormHidesAccess`). The same forms decide
  whether a route ends up with two accesses (`PartitionIsKept`). Repeating a request
  changes nothing exactly if a clean target has no other form listed anywhere but
  where it goes, while an unclean one has its access named in the wording, is to be
  private, or has another form that is private already (`RepeatExactly`). A request
  that names no access moves a route held by any other role over to the admin role.
- A plan to remove the auth or config section shows that the section will be gone,
  but applying it never removes the section (`DraftMutation.PlanShowsResult`).
- The target of a new API route is keyed by its path alone, the entry made for it
  by its method as well, so a plan that adds one by path adds it again each time it
  is applied. A target without a path, keyed by a key of its own, finds the entry
  again exactly if that is the entry's key, like `GET:/api/generated/iteration`
  (`DraftMutation.NewRouteAddedTwiceExactly`, `MadeKeyIsFound`); in general an added
  entry is found again exactly if it has the target's key (`AddedAgain`).
- Among facts of equal weight, one without a date takes precedence over a dated one
  (`SessionMemory.UndatedIsPrior`). The remembered fact for a key is a latest one
  exactly if the heaviest facts offered for the key are all dated or all without a
  date (`LatestExactly`).
- The issues of a verification are shown once for each key, which is code, path and
  message joined with a zero. All that is recorded is shown exactly if the keys tell
  the records apart (`PublishVerification.ShownExactly`). They do if neither the
  wording nor the codes and messages of the sealed asset report hold a zero
  (`AllAreShown`, by `StaticAssetGraph.JoinedTells`); but a tampered manifest whose
  report holds issues with the codes `a\0` and `a` and the paths `b` and `\0b` shows
  the first alone (`TamperedIssuesMerge`, by `JoinedMerges`). References of the asset
  graph are joined in the same way; their source paths are normalized and never hold
  a zero (`ArtifactPaths.NormalizedHasNoZero`).

## Model

| member | source | states |
|---|---|---|
| Json.ParsePrint | src/generated-app-publish-integrity.ts:577-601 | the text of any JSON value, before any text that does not go on with a number, parses to exactly that value and leaves that text |
| Json.ParseOfPrint | src/app-preview-capability.ts:64 | `JSON.parse` undoes `JSON.stringify`, with or without the markup escapes |
| Json.UnitIsPrinted | src/generated-app-publish-integrity.ts:581-584 | a unit of a quoted string is itself, except that quotes, backslashes and controls, lone surrogates and, for HTML, markup are escaped, by two letters where there is such an escape and by four lower-case hexadecimal digits otherwise |
| Json.MarksArePrinted | src/generated-app-publish-integrity.ts:577-601 | the words, quotes, brackets, braces, colons and commas of JSON text |
| Decimals.NumberIsReadBack | src/generated-app-publish-integrity.ts:585-588 | a finite number's shortest decimal text, plain, with a point or with an exponent, reads back as that number before any text that does not go on with one |
| Decimals.TextTells | src/generated-app-publish-integrity.ts:585-588 | a number is written with an "e" exactly from 10 to the 21st on and between 0 and 10 to the minus sixth, otherwise with a point exactly if it is not whole, and with a minus exactly if it is negative |
| Decimals.WholeText | src/generated-app-publish-integrity.ts:585-588 | an integer below 10 to the 21st is its decimal digits after its sign |
| Decimals.FractionText | src/generated-app-publish-integrity.ts:585-588 | any other number that is not far is digits, a point and digits, with no needless zero at either end |
| Decimals.FarText | src/generated-app-publish-integrity.ts:585-588 | any other is its digits, with a point behind the first, and the signed power of ten of that first digit |
| Utf16.AssertUnicodeScalarString | src/generated-app-publish-integrity.ts:603-616 | the single-pass scan accepts exactly the texts that encode some sequence of Unicode scalar values |
| Utf16.PairedIsWellFormed | src/generated-app-publish-integrity.ts:603-616 | every surrogate is paired if and only if the text is the UTF-16 encoding of scalar values |
| CanonicalJson.CanonicalIsPrintOfNormal | src/generated-app-publish-integrity.ts:577-601 | the printer throws exactly on undefined, non-finite, foreign or ill-formed parts, and otherwise prints the value's key-sorted tree |
| CanonicalJson.PrintedKeys | src/generated-app-publish-integrity.ts:590-598 | the printed keys come in code-unit order, each once |
| Texts.BeforeExactly | src/generated-app-publish-integrity.ts:590-594 | the order of keys is decided by the first unit in which they differ, or by their length |
| Texts.UnitsAreNamed | src/generated-app-publish-integrity.ts:589-597 | the marks of JSON text are the characters they are named after |
| CanonicalJson.CanonicalDecodesUniquely | src/generated-app-publish-integrity.ts:577-616 | canonical JSON decodes uniquely in front of any text that does not go on with a number, to a tree of the value's meaning |
| CanonicalJson.CanonicalTextIsMeaning | src/generated-app-publish-integrity.ts:577-601 | two values print alike if and only if they are equal but for key order and keys without a value |
| CanonicalJson.CanonicalIsPaired | src/generated-app-publish-integrity.ts:577-616 | canonical text is well-formed UTF-16, so its UTF-8 bytes determine it |
| Diagnostics.ExtractJson | src/diagnostics.ts:23-54 | the index loop over depth, string and escape state computes what scanning the remaining text says, error cases included |
| Diagnostics.ValuePasses | src/diagnostics.ts:27-53 | scanning the text of any value inside an object returns to the depth it started from, outside a string, without stopping on the way |
| Diagnostics.ScanObject | src/diagnostics.ts:27-53 | from depth zero the scanner stops at the last character of a printed object and no earlier |
| Diagnostics.ExtractIsExact | src/diagnostics.ts:23-54 | a printed object after any text without an opening brace is extracted and read exactly, whatever follows it |
| Diagnostics.CutIsUnbalanced | src/diagnostics.ts:23-54 | a printed object that is cut off anywhere is reported as unbalanced |
| Diagnostics.NoObjectExactly | src/diagnostics.ts:23-24 | nothing is found exactly in a text without an opening brace |
| GeneratedAppRuntime.SafeJsonIsEscapedPrint | src/generated-app-runtime.ts:1386-1392 | replacing the three markup characters in printed text only ever rewrites string literals |
| GeneratedAppRuntime.SafeJsonSurvives | src/generated-app-runtime.ts:1386-1392 | embedded JSON has no `<`, `>` or `&` and still parses to the value |
| GeneratedAppRuntime.EscapeHtmlSurvives | src/generated-app-runtime.ts:1394-1409 | reading escaped text as HTML gives back the text, and it holds no tag or quote character |
| GeneratedAppRuntime.ReferencesAreNamed | src/generated-app-runtime.ts:1394-1409 | which five characters are escaped, and as which references |
| ArtifactPaths.NormalizeClean | src/generated-app-publish-integrity.ts:514-531 | normalization leaves the text of a clean relative path as it is |
| ArtifactPaths.NormalizedHasNoZero | src/generated-app-publish-integrity.ts:514-531 | a normalized path holds no zero character |
| ArtifactPaths.NormalizedExactly | src/generated-app-publish-integrity.ts:514-531 | a path is refused exactly if it is blank, absolute, holds a zero, ends with a slash or resolves to nothing or above the root; any other becomes the names it resolves to |
| ArtifactPaths.NamesAreLeft | src/generated-app-publish-integrity.ts:521 | without steps to a parent a path resolves to its segments that are names |
| ArtifactPaths.ParentCancels | src/generated-app-publish-integrity.ts:521 | a name and the step back to its parent cancel each other out, wherever they are |
| ArtifactPaths.ParentFirst | src/generated-app-publish-integrity.ts:521-527 | a path that first steps to the parent of the root is never brought back |
| ArtifactPaths.TrimExactly | src/generated-app-publish-integrity.ts:515-517 | trimming takes all blanks away at both ends and nothing else |
| ArtifactPaths.BlanksExactly | src/generated-app-publish-integrity.ts:516 | what counts as blank at the edges of a path |
| PublishTree.DiscoverArtifactFiles | src/generated-app-publish-integrity.ts:543-558 | the early-stopping recursive walk lists everything whenever its result is within the limit, and never anything that is not there |
| PublishTree.ListedExactly | src/generated-app-publish-integrity.ts:543-558 | a complete listing holds a text exactly if it is a clean path to something that is not a directory |
| StaticAssetGraph.UniqueByLoop | src/generated-app-publish-integrity.ts:663-680 | the filter with a mutable set keeps the first element for each key |
| StaticAssetGraph.ValidateStaticAssetGraph | src/generated-app-publish-integrity.ts:385-432 | the loops over HTML and CSS references compute the report, with the missing entrypoint, missing targets and thrown cases |
| StaticAssetGraph.ReportPassesExactly | src/generated-app-publish-integrity.ts:385-432 | there is a report exactly if the entrypoint is a safe path and everything can be read; it passes exactly if the entrypoint and the target of every reference of its page and of every style sheet are among the files |
| StaticAssetGraph.ReportListsExactly | src/generated-app-publish-integrity.ts:426-431 | the report lists exactly the extracted references, each once, and exactly the missing entrypoint and targets |
| StaticAssetGraph.LastFileCounts | src/generated-app-publish-integrity.ts:390 | of files with one path the last counts |
| StaticAssetGraph.ReferencesInOrder | src/generated-app-publish-integrity.ts:674-680 | references come by source, then target, then attribute |
| StaticAssetGraph.ReportWords | src/generated-app-publish-integrity.ts:394-411 | the codes and messages of a report |
| StaticAssetGraph.StatusExactly | src/generated-app-publish-integrity.ts:427 | a report passes exactly if it lists no issue |
| StaticAssetGraph.JoinedTells | src/generated-app-publish-integrity.ts:663-692 | the key joined by zeros tells triples apart whose first and last parts hold none, whatever the middle one holds |
| StaticAssetGraph.JoinedMerges | src/generated-app-publish-integrity.ts:682-692 | two triples with one joined key: a zero at the end of the first part stands for the one that joins |
| PublishManifest.ManifestIsDetermined | src/generated-app-publish-integrity.ts:501-512 | the digest subject's meaning determines every field of the manifest but its integrity record |
| PublishManifest.StaticAssetsAreDetermined | src/generated-app-publish-integrity.ts:305-330 | the canonical text of a static asset report determines the report |
| PublishManifest.DigestSubjectSays | src/generated-app-publish-integrity.ts:501-512 | the digest is computed over eight values, each under its name |
| PublishManifest.SubjectSays | src/generated-app-publish-integrity.ts:79-83 | the subject's three ids, each under its name |
| PublishManifest.EntrySays | src/generated-app-publish-integrity.ts:84-92 | the seven parts of an entry, each under its name |
| PublishManifest.StaticAssetsSay | src/generated-app-publish-integrity.ts:426-431 | the four parts of an asset report, each under its name |
| PublishManifest.AssetPartsSay | src/store/types.ts:447-451 | the parts of a reference and of an issue, each under its name |
| PublishVerification.CheckSubject | src/generated-app-publish-integrity.ts:157-167 | each part of the subject that differs from the expected one has an issue under its own path, and nothing else has |
| PublishVerification.CheckIntegrity | src/generated-app-publish-integrity.ts:169-212 | on the manifest file: that it has no canonical form or another digest, and that a signature cannot be checked or does not hold, each exactly then; the signature status says which |
| PublishVerification.CheckEntry | src/generated-app-publish-integrity.ts:222-281 | the original throws exactly at a new path that begins with two dots; otherwise an entry has exactly the issue of its first fault in path, newness, presence and limits, or those of size and digest, and is bound and counted accordingly |
| PublishVerification.CheckEntries | src/generated-app-publish-integrity.ts:214-282 | over the first entries, one more than the limit at most: the issues, bound paths and counts are those of the entries in turn, and it throws exactly if one does |
| PublishVerification.EntriesAreFine | src/generated-app-publish-integrity.ts:214-282 | nothing throws and there is no issue exactly if all entries hold with distinct paths within both limits; then all are bound and counted |
| PublishVerification.CheckListing | src/generated-app-publish-integrity.ts:284-303 | too many files are named exactly if there are; within the limit the unexpected files named are exactly the listed ones that no entry looked at has, beyond it some of these |
| PublishVerification.CheckAssets | src/generated-app-publish-integrity.ts:305-335 | the issues of comparing the sealed report with the one on the disk files, or that they could not be compared |
| PublishVerification.ComparedExactly | src/generated-app-publish-integrity.ts:306-314 | the files compared are exactly those at the paths of entries looked at that no earlier issue names, and all of them can be read |
| PublishVerification.BlamedExactly | src/generated-app-publish-integrity.ts:126-345 | each of the five checks records an issue exactly if it fails, the assets exactly if the sealed report does not match the one on the files compared; nothing is recorded exactly if the directory verifies |
| PublishVerification.VerifyManifest | src/generated-app-publish-integrity.ts:126-345 | the verification throws exactly at an entry that does, and otherwise records exactly the issues of the five checks and shows them; it says "verified" exactly if subject, checksum, signature, entries, listing and assets all hold, with the right counts and signature status |
| PublishVerification.ShownExactly | src/generated-app-publish-integrity.ts:682-692 | only recorded issues are shown, no key twice, and all of them exactly if the joined keys tell them apart |
| PublishVerification.AllAreShown | src/generated-app-publish-integrity.ts:322-344 | all recorded issues are shown if the wording and the codes and messages of a report that did not pass hold no zero |
| PublishVerification.TamperedIssuesMerge | src/generated-app-publish-integrity.ts:322-344 | whenever the reports can be compared, two given issues of a tampered report are both recorded, but only the first is shown |
| PublishVerification.CodesAreShown | src/generated-app-publish-integrity.ts:142-334 | the codes of all issues of the verification itself |
| PublishIntegrity.VerifiedManifestPinsDisk | src/generated-app-publish-integrity.ts:214-303 | two directories that verify against one manifest hold the same paths with the same bytes, apart from the manifest file |
| PublishIntegrity.DigestPinsManifest | src/generated-app-publish-integrity.ts:160-180 | two manifests with the same valid digest agree in everything but the integrity record |
| PublishIntegrity.VerifiedAssetsPass | src/generated-app-publish-integrity.ts:305-330 | a verified manifest's asset report is the one recomputed from the bound files, and it passes |
| PublishIntegrity.EmptyKeyIsNone | src/generated-app-publish-integrity.ts:190-192 | an empty signing key counts as none |
| PublishSeal.NormalizeArtifactFiles | src/generated-app-publish-integrity.ts:347-383 | the loop over input files normalizes, refuses duplicates, the manifest's own name and too many or too large files, and sorts |
| PublishSeal.SealedFilesShape | src/generated-app-publish-integrity.ts:347-383 | sealed files have distinct safe paths other than the manifest's and fit the byte limit |
| PublishSeal.SealShape | src/generated-app-publish-integrity.ts:94-123 | the digest and the signature of a sealed manifest are those of its own canonical bytes, the signature by the given key, of 32 bytes at least, under its trimmed id; its report is that of the sealed files |
| PublishSeal.SealedTexts | src/generated-app-publish-integrity.ts:69-83 | ids, package and time of a sealed manifest are those of the input, trimmed and none of them blank, with the fixed names of schema, file and algorithms |
| PublishSeal.SealedEntriesExactly | src/generated-app-publish-integrity.ts:84-92 | each input file has one entry, at its normalized path, with its kind, trimmed description, given or derived media type, length and digest; there is no other, and they come by path |
| PublishSeal.SealsExactly | src/generated-app-publish-integrity.ts:69-123 | sealing succeeds exactly on one to a thousand files of 25 MiB at most with safe and distinct paths other than the manifest's and with descriptions, if there is a report, all texts and a readable time, a canonical form and, to sign, a key id and a key of 32 bytes |
| PublishSeal.PublishedCount | src/generated-app-publish-integrity.ts:277-291 | a disk holding the sealed files and the manifest lists one file more than was sealed |
| PublishSeal.SealThenVerify | src/generated-app-publish-integrity.ts:69-383 | sealing and then verifying the published files, for the ids of the input and with its key, succeeds if and only if the static report passed and at most 999 files were sealed |
| AgentRunTrace.Sanitizer.SanitizePayloadValue | src/agent-run-trace.ts:401-442 | ends on every object graph, leaves `seen` as it was even when it throws, and equals the function that carries the ancestors |
| AgentRunTrace.Sanitizer.SanitizePayload | src/agent-run-trace.ts:393-399 | the outer function keeps the sanitized value or replaces it by the bounded start of its text |
| AgentRunTrace.CleanFits | src/agent-run-trace.ts:418-438 | the result nests at most `maxDepth` containers, none with more than one element above its limit |
| AgentRunTrace.CircularExactly | src/agent-run-trace.ts:401-442 | the circular marker occurs if and only if a walk along shown references, within the depth limit, returns to an object it is inside of |
| AgentRunTrace.SharingIsNotCircular | src/agent-run-trace.ts:417-441 | in an acyclic graph nothing is marked circular, however often objects are shared |
| AgentRunTrace.LeafExactly | src/agent-run-trace.ts:407-416 | what each kind of leaf becomes: strings are redacted and then cut to the limit with a note on how many characters are missing |
| AgentRunTrace.ArrayExactly | src/agent-run-trace.ts:422-427 | an array becomes its first items, each sanitized, and a note on how many more there are |
| AgentRunTrace.RecordExactly | src/agent-run-trace.ts:429-438 | an object becomes its first properties, each sanitized, or masked under a sensitive key, without `__proto__`, and a note on how many are not shown |
| AgentRunTrace.SecretsDoNotShow | src/agent-run-trace.ts:401-450 | two graphs that differ only in strings that are redacted or masked to the same, and in whatever hangs on sensitive keys, are sanitized to the same |
| AgentRunTrace.HarmlessIsKept | src/agent-run-trace.ts:401-442 | a graph without cycles, within all limits and with nothing to redact, is kept leaf by leaf, item by item and key by key |
| FileTrees.GeneratedFileContentMap | src/app-iteration-service.ts:1592-1600 | the loop builds the map that keeps the last content and the first position of each path |
| FileTrees.ContentMapExactly | src/app-iteration-service.ts:1592-1600 | looking a path up in the map gives the content of the last file with that path |
| FileTrees.DiffFileTrees | src/app-iteration-service.ts:1456-1504 | the two loops emit the changes of the new paths and then the deletions, in insertion order |
| FileTrees.DiffExactly | src/app-iteration-service.ts:1456-1504 | the difference lists each path whose content differs, once, with the right kind and both texts, and no other |
| FileTrees.ChangeExactly | src/app-iteration-service.ts:1476-1501 | the kind and the texts of an entry, by what the trees hold at its path |
| FileTrees.DiffReplays | src/app-iteration-service.ts:1456-1504 | replaying the difference on the old tree gives the new one |
| FileTrees.ReviewCovers | src/app-iteration-service.ts:1507-1551 | a review has an entry for a path exactly if one of the trees has it |
| FileTrees.ReviewAgrees | src/app-iteration-service.ts:1507-1551 | a review without its unchanged entries is the difference, as a multiset |
| FileTrees.ReviewInOrder | src/app-iteration-service.ts:1507-1551 | a review comes in the order of the paths, each with what both trees hold there |
| FileTrees.ScopeGeneratedFileTree | src/app-iteration-service.ts:1562-1590 | the loop over the sorted union of paths computes the scoped tree and the out-of-scope paths; a whole-app target keeps the proposal |
| FileTrees.ScopedContent | src/app-iteration-service.ts:1562-1590 | a path in scope has the proposed content, any other its current one; out-of-scope paths are exactly the changed ones not in scope |
| FileTrees.ScopedInOrder | src/app-iteration-service.ts:1573-1587 | a scoped tree and its out-of-scope paths come in the order of the paths |
| FileTrees.ScopeSplits | src/app-iteration-service.ts:1562-1590 | the changes of a proposal are the disjoint union of those of its scoped form and the out-of-scope paths |
| FileTrees.ScopeTwice | src/app-iteration-service.ts:1562-1590 | scoping a scoped tree gives the same list of files, in the same order whatever the collation ties, and nothing out of scope |
| ShortHash.ComputeShortHash | src/app-iteration-service.ts:1024-1031 | the loop of exclusive or and 32-bit multiplication computes the fingerprint, eight digits long |
| ShortHash.RoundExactly | src/app-iteration-service.ts:1026-1029 | a round is a bitwise exclusive or with the unit and a product with 16777619, modulo 2 to the 32nd |
| ShortHash.HashOf | src/app-iteration-service.ts:1024-1031 | the fingerprint reads as the state that starts with 2166136261 and takes in one unit after the other |
| ShortHash.FingerprintShape | src/app-iteration-service.ts:1030 | a fingerprint is eight lower-case hexadecimal digits |
| ShortHash.RoundInjective | src/app-iteration-service.ts:1026-1029 | a round is injective in the state and in the code unit |
| ShortHash.SuffixCancels | src/app-iteration-service.ts:1024-1031 | a common ending neither makes nor hides a difference of fingerprints |
| ShortHash.OneUnitShows | src/app-iteration-service.ts:1024-1031 | changing one code unit changes the 8-digit fingerprint, and leaving it leaves it |
| SortedValues.SortValueKeeps | src/app-iteration-service.ts:1013-1022 | the key-sorted copy means what the value means and is again a proper value |
| SortedValues.SortedCopyIsMeaning | src/app-iteration-service.ts:1009-1022 | two values have the same sorted copy, and the same text to fingerprint, if and only if they mean the same |
| SortedValues.CopiedRecord | src/app-iteration-service.ts:1013-1021 | a copied object lists its keys in the order of the collation, each with the copy of its value, and none without a value |
| RoutePaths.CleanExactly | src/app-iteration-service.ts:967-971 | cleaning gives single blanks inside and none at the edges, and leaves exactly such texts alone |
| RoutePaths.CleanIsWords | src/app-iteration-service.ts:967-971 | cleaning gives the words of a text with one blank between them |
| RoutePaths.NormalizedExactly | src/app-iteration-service.ts:958-965 | a normalized path is the segments before the question mark, however they were separated, after a slash each, and the query up to a second mark |
| RoutePaths.TakenApart | src/app-iteration-service.ts:961 | a path is taken apart at its first question mark |
| RoutePaths.SlashesAreForward | src/app-iteration-service.ts:962 | a backslash counts as a slash, and every other character as itself |
| RoutePaths.NormalizedTwiceMayEndBlank | src/app-iteration-service.ts:958-965 | the path `/a / /`, normalized twice, still ends with a blank |
| RouteAccess.SourceIsLawful | src/app-iteration-service.ts:958-971 | the original's cleaning and path normalization have the laws the proofs about routes use |
| RouteAccess.AuthAfterSnapshot | src/app-iteration-service.ts:659-708 | the edits of the local sets and groups compute the auth section after a request |
| RouteAccess.RouteIsPlaced | src/app-iteration-service.ts:659-708 | whatever the lists held, a text is listed afterwards exactly where another text with it as clean form was and, if it is the clean form of the route the request is about, where the access it is for says |
| RouteAccess.RequestExactly | src/app-iteration-service.ts:664-670 | a request is about its target's path, or else the path its wording names, and for the access its wording names, or else the one the route is listed under |
| RouteAccess.NothingIsMoved | src/app-iteration-service.ts:673-708 | a request about no route cleans the lists and moves nothing |
| RouteAccess.RequestIsRecorded | src/app-iteration-service.ts:688-707 | the policy is kept or set, and the request is added to the decisions |
| RouteAccess.GroupsKeepReasons | src/app-iteration-service.ts:679-702 | every role group keeps its role and reason, and only an admin group is ever added |
| RouteAccess.SectionInOrder | src/app-iteration-service.ts:690-707 | all lists are sorted and without repetition, and the groups sorted by role with none of them empty |
| RouteAccess.SelectedExactly | src/app-iteration-service.ts:820-823 | an auth target's path is the one given, or else one named in the wording, or else the first of the draft |
| RouteAccess.CleanRouteIsPlaced | src/app-iteration-service.ts:659-708 | of clean lists, a clean target is in exactly the place asked for, and every other route keeps all its memberships |
| RouteAccess.AccessExactly | src/app-iteration-service.ts:659-708 | reading the target's access back gives the requested one exactly if no other form of a clean target stays in a list read before, or an unclean one is to be private |
| RouteAccess.LeftFormHidesAccess | src/app-iteration-service.ts:672-686 | a route stored private with a blank in front stays private when it is to be held by the admin role |
| RouteAccess.UncleanAccessIsLost | src/app-iteration-service.ts:659-708 | asked for as `/a / /`, a route that is to be public or held by the admin role reads back as private |
| RouteAccess.UncleanTargetOverlaps | src/app-iteration-service.ts:677-700 | an unclean target made public leaves its clean form both public and private |
| RouteAccess.PartitionIsKept | src/app-iteration-service.ts:659-708 | if no route has two accesses before, however spaced, then none has after exactly if no other form of the target is listed anywhere but where it goes |
| RouteAccess.RoleRoutesBecomeAdmin | src/app-iteration-service.ts:666-681 | a request that names no access moves a route of another role to the admin role, and leaves it with the other exactly in another form |
| RouteAccess.RepeatExactly | src/app-iteration-service.ts:659-708 | making the same request again gives the same auth section, group order included, exactly if a clean target has no other form listed anywhere but where it goes, and an unclean one is to be private, has its access named in the wording or another form of it private already; without a target always |
| DraftMutation.MutateList | src/app-iteration-service.ts:479-539 | finding the index and splicing computes the list of entries after a request |
| DraftMutation.WorkingDraft.constructor | src/app-iteration-service.ts:1053-1055 | a working draft starts as the key-sorted copy of the draft |
| DraftMutation.WorkingDraft.ApplyTargetMutation | src/app-iteration-service.ts:468-477 | the step for the target's kind changes that section alone, to what the specification says |
| DraftMutation.ApplyAppIterationToDraft | src/app-iteration-service.ts:413-439 | a plan without a requested change, or to remove what is not there, gives the copy, any other the mutated copy |
| DraftMutation.ListFrame | src/app-iteration-service.ts:479-539 | at most the first entry with the key goes, at most the new one comes, all others survive as a multiset |
| DraftMutation.OthersInPlace | src/app-iteration-service.ts:479-539 | replacing and deleting touch the first match only and leave every other entry in its place |
| DraftMutation.ChangesFirst | src/app-iteration-service.ts:479-539 | what is changed is the first entry with the target's key, and without one a new entry is made of nothing |
| DraftMutation.AddedInOrder | src/app-iteration-service.ts:492-537 | after an entry was added the list is in the order of its kind |
| DraftMutation.PlanShowsResult | src/app-iteration-service.ts:330-349 | in the changed copy the target reads, up to key order, as the plan showed it if and only if the new entry has the target's key, or the removed one was the only match; never for removing auth or config |
| DraftMutation.AddedAgain | src/app-iteration-service.ts:413-539 | applied to the copy of its own result, a plan that adds an entry changes the copy of that entry if it has the target's key, and adds another otherwise |
| DraftMutation.NewRouteAddedTwiceExactly | src/app-iteration-service.ts:767-790 | a plan that adds an API route by path adds it again when applied again; one without a path finds the entry again exactly if the target's own key is the entry's |
| DraftMutation.MadeKeyIsFound | src/app-iteration-service.ts:607-615 | the default path is normal, and a target keyed by a method and that path has the key of the entry made for it |
| DraftMutation.StableKeyExactly | src/app-iteration-service.ts:973-980 | a key is made of small letters, digits and four marks, without dashes at its edges; a text that is so is its own key, and an empty one is "generated" |
| DraftMutation.RunIsOneDash | src/app-iteration-service.ts:973-980 | each run of other units is one dash in a key |
| DraftMutation.OtherSectionsKept | src/app-iteration-service.ts:413-439 | every other section of the applied draft means what it meant in the original |
| SnapshotRetention.RetentionConsistent | src/app-preview-snapshots.ts:526-538 | the retention comparator is a total preorder for all snapshots |
| SnapshotRetention.RetentionExactly | src/app-preview-snapshots.ts:426-454 | each snapshot has one entry; its rank is one more than the number of those that precede it by capture time, readiness and names, and it is retained exactly if these are fewer than asked for, three by default, or it is kept as ready; the entry says which |
| SnapshotRetention.PrecedesExactly | src/app-preview-snapshots.ts:526-538 | the retention order: later captured first, then ready ones, then by workspace, app, checkpoint and id |
| SnapshotRetention.PrunedExactly | src/app-preview-snapshots.ts:426-454 | pruning leaves exactly those snapshots; one captured later than all others is always left if any is to be kept |
| SnapshotRetention.RetentionIgnoresOrder | src/app-preview-snapshots.ts:426-454 | the entries do not depend on the order of the input |
| SnapshotRetention.PruneIncrementally | src/app-preview-snapshots.ts:426-454 | pruning, adding snapshots and pruning again leaves exactly what pruning all at once leaves |
| SnapshotRetention.BatchesDoNotMatter | src/app-preview-snapshots.ts:426-454 | over any series of batches, pruning after each is pruning once at the end |
| SnapshotRetention.RelationTells | src/app-preview-snapshots.ts:263-317 | "unchanged" is exactly the same state, "regressed" exactly worse in readiness, build or smoke checks, "advanced" exactly better in one or another checkpoint and worse in none; undoing an advance within a checkpoint is a regression |
| SnapshotRetention.NeverRegressedExactly | src/app-preview-snapshots.ts:486-495 | no adjacent comparison in a history is "regressed" if and only if no later snapshot is worse than any earlier one |
| SnapshotRetention.StaysReady | src/app-preview-snapshots.ts:380-424 | once ready, every later snapshot of a history without regressions is ready with its build passed and smoke checks passing |
| SnapshotRetention.ReadyExactly | src/app-preview-snapshots.ts:380-407 | a snapshot is ready exactly if it has a checkpoint, build and smoke checks passed, and it has a preview and an artifact |
| MergeReads.MergeAndLimit | src/jobs-read.ts:66-81 | the loop over `seen` and `combined`, the sort and the cut compute the merged listing |
| MergeReads.FreshExactly | src/jobs-read.ts:70-74 | a legacy record is added exactly if it is the first with its id and no primary record has it |
| MergeReads.NewerExactly | src/jobs-read.ts:75-79 | the order of a listing: created later first, then by id |
| MergeReads.LimitExactly | src/jobs-read.ts:83-86 | a listing is limited to fifty unless asked otherwise, and to two hundred at most |
| MergeReads.SelectsExactly | src/jobs-read.ts:24-31 | what each listing selects by |
| MergeReads.RowsAlone | src/agent-runs-read.ts:27-77 | without SQLite or without a legacy store the rows alone are listed and looked up |
| MergeReads.PushdownExactly | src/jobs-read.ts:66-86 | merging the cut primary rows is cutting the full merge if and only if each legacy copy of a cut row has the limit of other records before it |
| MergeReads.PushdownIsSound | src/jobs-read.ts:66-86 | with copies no newer than their rows the cut merge is the full one over the given rows, and the given row wins for every id |
| MergeReads.PushdownOfSameCreation | src/agent-runs-read.ts:87-111 | so it is if records in both stores were created at the same time |
| MergeReads.NewerCopyIsListed | src/jobs-read.ts:66-86 | an input where a newer legacy copy of a cut row is listed in place of a newer record |
| MergeReads.ListJobsForWorkspace | src/jobs-read.ts:14-33 | a listing holds selected records of the stores, newest first, within the limit, no two with the same id |
| MergeReads.ListAgentRunsForWorkspace | src/agent-runs-read.ts:17-34 | the runs of a workspace from both stores, newest first, within the limit, no two with the same id |
| MergeReads.ListAgentRunsForAgent | src/agent-runs-read.ts:36-54 | the runs of an agent in a workspace in the same way |
| MergeReads.SelectionExactly | src/jobs-read.ts:24-32 | filtering each store before merging gives the newest selected records of both exactly if each stale one has the limit of these before it, and exactly if none is listed |
| MergeReads.StaleBehindItsRow | src/jobs-read.ts:24-32 | a stale copy no newer than its row, where the row is selected too, always has the limit before it |
| MergeReads.StaleCopyIsListed | src/jobs-read.ts:24-32 | a job listed by the status its legacy copy still has, while looking it up finds the row with another |
| MergeReads.ListedAreFoundExactly | src/agent-runs-read.ts:36-77 | whatever a listing of a workspace selects, looking its records up finds these very records exactly under that condition |
| MergeReads.ListedIsFound | src/agent-runs-read.ts:17-34 | a listing of a whole workspace with copies no newer than their rows is the newest of both stores, and looking its records up finds them |
| SessionMemory.FactComparatorsConsistent | src/builder-session-memory.ts:528-550 | both comparators of facts are total preorders |
| SessionMemory.PriorExactly | src/builder-session-memory.ts:540-572 | a fact takes another's place if it is pinned instead or surer; of equal weight if it is undated or dated later; or else if it comes first by id |
| SessionMemory.FactIsTaken | src/builder-session-memory.ts:375-388 | an offer makes a fact exactly if it has a key and a value; its parts are trimmed and its certainty is between 0 and 1 |
| SessionMemory.NormalizeProjectMemoryFacts | src/builder-session-memory.ts:370-396 | the loop over the map keyed by lower-cased key computes the remembered facts |
| SessionMemory.RememberedExactly | src/builder-session-memory.ts:370-396 | a fact is remembered exactly if it is the first that no other fact for its key comes before |
| SessionMemory.OneFactPerKey | src/builder-session-memory.ts:389-393 | no two remembered facts have the same key, whatever its case |
| SessionMemory.RememberedInOrder | src/builder-session-memory.ts:528-538 | remembered facts come pinned ones first, then by certainty, key and id |
| SessionMemory.FactOrderDoesNotMatter | src/builder-session-memory.ts:370-396 | without ties the remembered facts do not depend on the order of the input |
| SessionMemory.UndatedIsPrior | src/builder-session-memory.ts:540-572 | among facts of equal weight one without a date comes before a dated one |
| SessionMemory.LatestExactly | src/builder-session-memory.ts:370-396 | the remembered fact for a key is a latest one of its weight exactly if the heaviest offers for the key are all dated or all without a date |
| SessionMemory.NormalizeClarifyQuestions | src/builder-session-memory.ts:398-418 | the loop, the sort and the cut to three compute the questions |
| SessionMemory.QuestionsExactly | src/builder-session-memory.ts:552-566 | questions come open ones first and dismissed ones last, then dated ones, by date, then by id |
| SessionMemory.QuestionIsTaken | src/builder-session-memory.ts:402-415 | a question is taken exactly if it has a text, and without a status is open exactly if it has no answer |
| SessionMemory.CutKeepsOpen | src/builder-session-memory.ts:398-418 | the cut keeps the first open questions and loses one exactly if more than three are open |
| SessionMemory.CutKeepsNextAction | src/builder-session-memory.ts:229-328 | cutting the questions never changes the kind of the next action |
| SessionMemory.NextActionExactly | src/builder-session-memory.ts:229-328 | the next action is the first of eight that there is a reason for |
| SessionMemory.NextActionNames | src/builder-session-memory.ts:250-295 | it names the open questions or the selected options, in order, exactly if it is about them |
| SessionMemory.SelectedExactly | src/builder-session-memory.ts:242-244 | the options named are exactly the selected ones |
| StreamRegistry.Registry.Start | src/llm-stream-routes.ts:65-85 | a start never replaces a present entry; it is refused with 409 or 403 by workspace |
| StreamRegistry.Registry.Cancel | src/llm-stream-routes.ts:129-144 | a cancel aborts and removes only its own workspace's stream, and treats another's like an unknown id |
| StreamRegistry.Registry.Finish | src/llm-stream-routes.ts:121-125 | a finish deletes by id |
| StreamRegistry.EntriesSurvive | src/llm-stream-routes.ts:66-78 | no start changes a present entry; only a cancel of its workspace or a finish of a stream with its id removes it |
| StreamRegistry.RunRegistered | src/llm-stream-routes.ts:34-144 | in every run each entry is that of a started, unfinished, uncancelled stream under its own id and workspace |
| StreamRegistry.AbortedByOwner | src/llm-stream-routes.ts:79-136 | in every run a stream is aborted only by its own workspace's cancel of its id or by its own client |
| StreamRegistry.NothingLeftBehind | src/llm-stream-routes.ts:121-137 | once all streams are finished the registry is empty |
| StreamRegistry.StayRegisteredExactly | src/llm-stream-routes.ts:121-124 | unfinished uncancelled streams stay registered throughout a run if and only if no finish deletes another stream's entry |
| StreamRegistry.DisciplineSuffices | src/llm-stream-routes.ts:65-124 | if no id is reused before its cancelled stream finishes, they stay registered |
| StreamRegistry.DisciplineIsNeeded | src/llm-stream-routes.ts:121-137 | after any earlier reuse one finish orphans the new stream |
| StreamRegistry.StuckExactly | src/llm-stream-routes.ts:77-124 | a stream whose route cannot be resolved keeps its id taken, through any run, exactly until its workspace's cancel or the finish of a stream with the id that was still running when it started |
| OutputBounds.CommandOutput.Capture | src/generated-app-publish-verify.ts:401-407 | one chunk of either stream uses up the shared budget and no more |
| OutputBounds.CapturesFirstArrivals | src/generated-app-publish-verify.ts:397-409 | under any interleaving a capture is its stream's part of the first bytes to arrive, up to the limit |
| OutputBounds.CapturesPrefixes | src/generated-app-publish-verify.ts:397-409 | each capture is a prefix of its stream, and together they are the smaller of what was delivered and the limit |
| OutputBounds.ReadBoundedResponse | src/generated-app-publish-reachability.ts:313-339 | an accepted body is the exact concatenation of its chunks within 64 KiB; a larger one is refused at the first chunk that exceeds it |
| OutputBounds.BodyExactly | src/generated-app-publish-reachability.ts:313-339 | a body is accepted, whole, exactly if neither its declared nor its real length is above 64 KiB |
| Reachability.ReachabilityCheck.Verify | src/generated-app-publish-reachability.ts:51-184 | the log holds the outcomes of the steps in order up to the first failure, each with its code |
| Reachability.PassExactly | src/generated-app-publish-reachability.ts:63-149 | the check passes exactly if the origin is secure or local and can be connected to, and the service answers live, ready as this app, checkpoint and policy, and with a page, without redirects, each body arriving whole and within the limit |
| Reachability.IncludesExactly | src/generated-app-publish-reachability.ts:295-296 | a content type or a page includes a text exactly if it is a part of it |
| Reachability.StepsInOrder | src/generated-app-publish-reachability.ts:63-149 | the six steps and their order |
| Reachability.ConnectionCodes | src/generated-app-publish-reachability.ts:189-267 | with what code a target, a lookup or a connection fails, and when |
| Reachability.RefusalExactly | src/generated-app-publish-reachability.ts:269-339 | with what code a fetch is refused, and when |
| Reachability.AnswerCodes | src/generated-app-publish-reachability.ts:63-149 | when an answer fails as another identity, another policy or an invalid response |
| Reachability.RefusedCodes | src/generated-app-publish-reachability.ts:151-187 | a refused fetch fails its step with the same code |
| PreviewCapability.ClaimsRoundTrip | src/app-preview-capability.ts:139-187 | reading the text of minted claims gives the claims |
| PreviewCapability.MintedIsWellMade | src/app-preview-capability.ts:28-67 | minted claims carry valid identifiers and a lifetime between zero and the maximum of their scope |
| PreviewCapability.MintedVerifies | src/app-preview-capability.ts:69-116 | a minted token verifies to its claims exactly if it has at most 4096 characters and the time is from 300 seconds before issue until expiry |
| PreviewCapability.AcceptedIsBounded | src/app-preview-capability.ts:69-116 | an accepted token is signed under the secret, names the route's app, and has between zero and its scope's maximum plus 300 seconds left |
| PreviewCapability.MintedExactly | src/app-preview-capability.ts:28-67 | minting succeeds exactly for valid ids and, to interact, an origin; the claims are those asked for, from now on, for the lifetime asked for within an hour or a day, or by default 15 or 60 minutes |
| PreviewCapability.ClaimsInOrder | src/app-preview-capability.ts:55-65 | the payload lists the claims under their names, in this order |
| PreviewCapability.ParsedExactly | src/app-preview-capability.ts:139-187 | claims are read out of exactly the members that carry them, and no others |
| PreviewCapability.AcceptedExactly | src/app-preview-capability.ts:69-116 | a token is accepted exactly if it has 4096 characters at most, is signed under the secret, and its payload carries current claims for the app, which are what is accepted |
| PreviewCapability.IdentifierExactly | src/app-preview-capability.ts:226-233 | what a valid identifier is |

## Left out

- A number in JSON is its shortest decimal text; the rounding of longer decimals to doubles is not part of this model.
- The fenced-block pattern and the trim before the brace scanner.
- SHA-256 is taken to be injective, HMAC as a function of key and bytes, and UTF-8 to be injective on well-formed text.
- base64url is taken as an encoder with a left inverse whose alphabet has no dot; `URL` as the function to an origin.
- The extraction of asset references from HTML and CSS by pattern is any function that may throw.
- `localeCompare` is any total preorder; where a result needs that no two different texts tie, it says so.
- SQLite orders ids byte by byte while merging collates them; the listings take both orders to be one.
- Directory trees hold names without blank edges, drive letters or two leading dots; symbolic links are neither files nor directories.
- The wording of the verification's own issues is any function of code and path; the name of a signing key, which occurs in it, is fixed for one manifest.
- Redaction, sensitive keys, intent in the wording of requests and the match of paths with a target are any functions.
- PublishVerification.VerifyManifest: which unexpected files are named on a disk with more files than the limit depends on where the walk stops, and is only stated to be some of those there are.
- PublishIntegrity.VerifiedManifestPinsDisk: directories with names that normalization alters are left out, because the walk then lists other names than the disk has.
- PublishSeal.SealThenVerify: sealed paths with blank edges or two leading dots are left out with the names that such files would have on disk.
- DraftMutation.ApplyAppIterationToDraft: what a page, API, data or config entry becomes is any function of the existing entry and the request, because it is text built from patterns.
- Key order of JavaScript objects with integer-like keys, and copies that only add keys without a value.
- SnapshotRetention.StaysReady: the building of a snapshot's ids and hashes is not part of it, because readiness depends on the stored fields only.
- The diff text of a file is a preview of its first lines; entries carry the two texts it is made from.
- Deriving trace spans from a run, and the order of spans.
- The event stream itself, role checks, provider calls and heartbeats around the stream registry.
- Docker, DNS, TCP, TLS and HTTP in the reachability and compose checks; what the network answers is given.
- RouteAccess.RepeatExactly: for a clean target it asks that the collation ties it with no other text, or that no other form of it is listed where it goes, because a tied route may change places otherwise; unclean targets need nothing of the kind.
- Page templates, prompts, readiness checklists and catalogues.
