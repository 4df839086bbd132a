# Verification of the core data paths

This project models the core components of the repository in Dafny and proves what they promise for all
inputs, all runs and all interleavings. `dafny verify dfyconfig.toml` checks everything.

## What is modelled

- **PII redaction** (`Detectors`, `Regions`, `Overlaps`, `Tokens`, `Redaction`, `Restoring`, `StrayTokens`). The scanning
  detectors, the greedy left-to-right replacement by numbered tokens, scrubbing, and the search-and-replace
  restore. Redacted and scrubbed texts are laid out region by region. A redacted text is proved to be a document of gaps and tokens, and one replace over the text is
  proved to be one resolution of that document. Restoring is then lossless for every text that holds none of
  the minted tokens, in any replacement order. It is not lossless for every text: `8005551234[PHONE_1]` is
  lost. For values without `[` it is lossless exactly when no token stands in the text clear of all regions
  whose tokens are replaced at its turn or later, which text, regions and tokens tell without any replacing;
  for arbitrary values that condition suffices.
- **Exact artifacts** (`ExactTree`, `FileSystem`, `ExactImport`, `ExactMaterialize`, `Containment`, `GraphStore`,
  `Persistence`, `PersistenceLaws`, `FileRecords`, `CrashPoints`, `Isolation`, `Reimport`). A directory tree is imported,
  written record by record into a flat keyed store, read back and written to disk. Proved: the exact-import
  law through the whole path, the records that stand for a file, exactly when materializing follows a link of its own making, exactly what a crash after any
  number of writes leaves to read, idempotence, exactly when two repositories in one store keep out of each
  other's way, and what two imports under one name read back as, with the exact condition for that to
  materialize.
- **Content addressing** (`GitProjection`, `Canonical`, `Merkle`). Git tree objects, the canonical JSON
  form and the graph roots: independence from input order (with the exact condition), unique decoding,
  and equal ids meaning equal contents. The hash is any function; "no collision" is assumed only for the
  finitely many byte strings at hand.
- **Scheduler** (`Cron`, `Commands`, `Scheduler`). Cron fields denote sets of values; the task map is a
  class; a step machine interleaves the tick loop with completions and API calls, and spacing, once-only
  and matching-minute guarantees hold in every run. A late completion can cost a cron task its next minute;
  exactly when is stated.
- **Causal timeline** (`Chronos`). The timeline object, its queries, and runs in which builds and the two
  writes of each record, by many writers, interleave. Walks follow parent ids through the store.
- **Audit log** (`Audit`, `Timestamps`). The CSV printer against a reader for section 2 of RFC 4180 that
  decodes whole events, the form and order of formatted timestamps (section 5.1 of RFC 3339 asks for equal
  fraction lengths; the formatter's output needs no such restriction), what query bounds written with `Z`
  keep, and the agreement of the two stores.
- **Executor and approvals** (`Executor`, `SelfMade`, `Approval`). Dispatch behind three gates, the
  last-in-first-out worklist of follow-ups with the exact condition for it to empty, the events the executor
  makes itself and exactly when they keep a tick going forever, and the one-shot approval protocol under
  every interleaving.

Conventions. Text is a sequence of characters; positions are character positions. On UTF-8 text byte order
and code point order coincide, so byte-wise sorting is modelled on code points. Times are integers. Hashes,
the UTF-8 test, serializers, the calendar, user patterns and procedure bodies are function or data
parameters. Loops of the source are loops here, proved equal to specification functions; the theorems are
about those functions and about step machines whose transitions are the methods' effects.

## Where code and documentation disagree

- The documentation of `redact` promises exact reversal; a text already holding a minted token may not be
  restored (`Overlaps.RestoreNotAlwaysLossless`, `StrayTokens.RestoreExact`).
- `detect_pii` is documented to return non-overlapping spans; spans of different kinds may overlap, and so may
  two e-mail spans (`Overlaps.OverlapExample`, `Overlaps.EmailOverlapExample`, `Overlaps.DetectedDisjointExactly`).
- `materialize_tree` is documented to write nothing that resolves outside the root through a link; it follows
  links listed earlier in the same tree (`Containment.EscapeExample`, `Containment.ThroughExactly`).
- `project_tree` is documented to reject duplicate names; it compares neighbours in key order only
  (`GitProjection.SuccessExact`, `GitProjection.SameNameCanPass`).
- The comment on edge keys calls their encoding unambiguous; repository names may contain `:`
  (`Isolation.EdgeKeysClash`, `Isolation.EdgeKeysMeetExample`; for node keys `Isolation.DirectoryKeysClash`).
- The comment on `Executor::run` says follow-ups are not fed back; the loop feeds them back.
- A file whose name holds a backslash imports and materializes exactly, and yet its record fails the
  metadata validation (`ExactMaterialize.ImportedValidates`).
- `since` is documented to include events at its timestamp; written with `Z` it drops them, and with it the
  rest of the last unit written (`AuditStores.ZuluSinceDropsItsSecond`, `AuditStores.WindowQuery`).
- The canonical encoder's comments expect insertion-ordered JSON maps; without that option the maps are
  already ordered by key. The model takes members in any order, so it covers both.

## Model

| member | source | states |
|---|---|---|
| Tokens.PrefixFree | crates/privacy/src/lib.rs:1025-1045 | no placeholder is a proper prefix of another, so replacing one never touches the front of another |
| Tokens.TokenInjective | crates/privacy/src/lib.rs:877-886 | placeholders of different types or numbers differ |
| Numerals.DecimalDigits | crates/privacy/src/lib.rs:877-886 | the number in a placeholder is written with its decimal digits, the last one the units, and no leading zero |
| Tokens.TagOfToken | crates/privacy/src/lib.rs:895-899 | the tag read back from a minted placeholder is the type it was minted for, underscores in the tag included |
| Restoring.ReplaceBetween | crates/privacy/src/lib.rs:921-935 | one search-and-replace cuts the text at its occurrences, found from the left and never overlapping, and glues the parts with the value |
| Restoring.ReplaceResolves | crates/privacy/src/lib.rs:921-935 | one search-and-replace over a redacted text replaces exactly the occurrences of its own token and acts on gaps alone otherwise |
| Restoring.CleanRestores | crates/privacy/src/lib.rs:921-935 | if no gap holds a token at the moment it is replaced, the sequential replaces give the original text |
| Restoring.DirtyCanRestore | crates/privacy/src/lib.rs:921-935 | without the restriction on values that condition is not necessary |
| Regions.KeptChain | crates/privacy/src/lib.rs:1011-1053 | the replaced regions are detected spans, in bounds, disjoint and in order |
| Regions.KeptCovers | crates/privacy/src/lib.rs:1011-1053 | every non-empty detected span starts inside a replaced region |
| Regions.KeptGreedily | crates/privacy/src/lib.rs:1011-1023 | a span is replaced if and only if it starts at or behind the end of every replaced span before it |
| Redaction.RedactedFacts | crates/privacy/src/lib.rs:998-1080 | distinct values carry distinct tokens, every region's token maps to its value, and gaps plus values are the text |
| Redaction.Redact | crates/privacy/src/lib.rs:998-1080 | the loop produces the specified map, audit and text: gap, token, gap, token and so on up to the last gap |
| Redaction.RedactedSpliced | crates/privacy/src/lib.rs:998-1080 | the redacted text is the text between the replaced regions, cut at their bounds, with the token of each region's value in its place |
| Redaction.LedgerByFirstAppearance | crates/privacy/src/lib.rs:1025-1045 | the values are minted in the order of their first appearance, with the kind of that region, and those of one kind get rising numbers |
| Redaction.ScrubText | crates/privacy/src/lib.rs:775-799 | the scrubbed text is the text between the replaced regions, cut at their bounds, with `[REDACTED]` in each place, and its length follows |
| Redaction.ScrubbedSpliced | crates/privacy/src/lib.rs:775-799 | the same of any mask |
| Redaction.Restore | crates/privacy/src/lib.rs:921-935 | the loop replaces the entries one after the other, longest token first |
| Redaction.RestoredLongestFirst | crates/privacy/src/lib.rs:921-935 | longer tokens are replaced first, those of one length in the order of their minting |
| Redaction.RedactThenRestoreAnyOrder | crates/privacy/src/lib.rs:974-980 | a text holding no minted token is restored exactly by every replacement order |
| Redaction.RedactThenRestore | crates/privacy/src/lib.rs:974-1080 | the same for the order the code uses |
| Redaction.RestoreBracketFree | crates/privacy/src/lib.rs:974-1080 | every text without `[` is restored exactly, for any in-bounds spans |
| StrayTokens.CleanStatic | crates/privacy/src/lib.rs:921-935 | the replaces act on tokens alone if and only if no token stands in the text clear of the regions whose tokens are replaced at its turn or later |
| StrayTokens.RestoreExact | crates/privacy/src/lib.rs:921-1080 | for values without `[`: restored exactly if and only if the text holds no such stray token |
| StrayTokens.RestoreWithoutStrays | crates/privacy/src/lib.rs:921-1080 | for all values: restored exactly if the text holds none |
| Redaction.RestoreLosesStrayToken | crates/privacy/src/lib.rs:921-935 | for values without `[`: a minted token standing in copied text loses the text |
| Overlaps.RestoreLosesDetected | crates/privacy/src/lib.rs:974-980 | ten to twelve digits followed by the first phone token are never restored, with the span the phone detector reports |
| Overlaps.RestoreNotAlwaysLossless | crates/privacy/src/lib.rs:974-980 | `8005551234[PHONE_1]`: the e-mail, phone, SSN and card detectors report the digits alone, and restoring fails |
| Redaction.AuditAddsUp | crates/privacy/src/lib.rs:1055-1077 | the per-type counts sum to the total, which is the number of distinct replaced values |
| Redaction.NumberedFromOne | crates/privacy/src/lib.rs:1025-1045 | each type's tokens carry exactly the numbers 1 to its count |
| Detectors.DetectRuns | crates/privacy/src/lib.rs:509-551 | phone and card spans are exactly the maximal stretches of allowed characters, from the first starting character, with an admissible digit count; disjoint and in order |
| Detectors.DetectSsns | crates/privacy/src/lib.rs:554-581 | the spans are exactly the `DDD-DD-DDDD` positions not flanked by digits |
| Detectors.SsnsDisjoint | crates/privacy/src/lib.rs:554-581 | two such positions never overlap, although the scan advances by one |
| Detectors.DetectEmails | crates/privacy/src/lib.rs:467-506 | the spans are exactly the `@`s with address characters on both sides, as far as these go, and a dot on the right; by ascending start |
| Detectors.WordRunOffsets | crates/privacy/src/lib.rs:671-688 | the range runs from the first place of the run's first word to the end of the next place of its last word; without such places there is none |
| Detectors.DetectPii | crates/privacy/src/lib.rs:283-344 | the result is the stable sort by start of what the enabled categories report in their fixed order; in bounds, and exactly those spans |
| Detectors.TiesByCategory | crates/privacy/src/lib.rs:283-344 | spans with equal start come e-mail, phone, SSN, card, name, address |
| Detectors.DetectionUnique | crates/privacy/src/lib.rs:283-344 | that determines the result, the order of spans with equal start included |
| Overlaps.CardMeetsPhone | crates/privacy/src/lib.rs:509-551 | a card span meets a phone span if and only if the phone stretch around it has at most 15 digits |
| Overlaps.SsnMeetsRun | crates/privacy/src/lib.rs:509-581 | an SSN meets a phone or card span if and only if the stretch around it has an admissible number of digits |
| Overlaps.EmailsMeet | crates/privacy/src/lib.rs:467-506 | two addresses meet if and only if only address characters stand between their `@`s |
| Overlaps.EmailMeetsRun | crates/privacy/src/lib.rs:467-551 | an address meets a phone or card span if and only if at some of its characters the stretch around has an admissible number of digits and a starting character comes no later |
| Overlaps.EmailMeetsSsn | crates/privacy/src/lib.rs:467-581 | an address meets an SSN if and only if it holds it whole |
| Overlaps.ScannedDisjointExactly | crates/privacy/src/lib.rs:275-344 | the e-mail, phone, SSN and card spans of a text are pairwise disjoint if and only if no stretch holds spans of two enabled kinds, no address meets another kind and no two addresses share a word |
| Overlaps.DetectedDisjointExactly | crates/privacy/src/lib.rs:275-344 | the same of those spans in the result of `detect_pii` |
| Overlaps.OverlapExample | crates/privacy/src/lib.rs:275-344 | `4111111111111` is reported as a phone and as a card |
| Overlaps.EmailOverlapExample | crates/privacy/src/lib.rs:275-344 | in `a@b.c@d.e` the addresses `a@b.c` and `b.c@d.e` overlap |
| Detectors.DetectedRoundTrip | crates/privacy/src/lib.rs:467-1080 | for any spans the e-mail, phone, card and SSN detectors find, the round trip is exact if and only if the text holds no stray token |
| GraphStore.EdgeTargets | crates/px-graph-store/src/edge.rs:53-63 | among edges of one kind from one node the storage key determines the target |
| GraphStore.KindNames | crates/px-graph-store/src/node.rs:45-127 | the kind of a node can be read off its key, whatever the key is made of, so keys of different kinds never coincide |
| GraphStore.PutAllLast | crates/px-graph-store/src/store.rs:321-331 | after a series of writes a key holds the last record written to it, or what it held before |
| GraphStore.PutAllIdempotent | crates/px-graph-store/src/store.rs:162-170 | repeating a series of writes changes nothing |
| GraphStore.Store.PutEmptyDirectory | crates/px-graph-store/src/store.rs:141-159 | writes the edge, then the bookkeeping node |
| GraphStore.Store.GetChildren | crates/px-graph-store/src/store.rs:276-289 | the sorted list of distinct edge targets, whatever the listing order |
| GraphStore.Store.GetEmptyDirectories | crates/px-graph-store/src/store.rs:254-270 | the sorted paths of listed directories whose node exists |
| ExactTree.CanonicalUnique | crates/px-adapter-exact/src/tree.rs:56-60 | trees with the same entries have the same canonical form |
| ExactTree.CanonicalOrder | crates/px-adapter-exact/src/tree.rs:56-60 | directories and files are permuted into path order |
| Persistence.PersistImportedFile | crates/px-adapter-exact/src/persistence.rs:56-120 | issues exactly the file's series of writes, containment edge last |
| Persistence.PersistImportedTree | crates/px-adapter-exact/src/persistence.rs:40-54 | issues exactly the tree's series of writes |
| FileRecords.PersistRecords | crates/px-adapter-exact/src/persistence.rs:56-120 | after persisting a tree every file's procedure stands under its id with path and file name, the revision it names is stored with the file's source text, and the artifact stands under id and content hash |
| FileRecords.FurtherWritesKeep | crates/px-adapter-exact/src/persistence.rs:40-120 | persisting any other tree with other ids keeps these records |
| FileRecords.PersistedListing | crates/px-adapter-exact/src/persistence.rs:98-109 | the procedures a persisted tree leaves to list are those of its files at their revisions |
| Persistence.MaterializeFromStore | crates/px-adapter-exact/src/persistence.rs:136-167 | reads the tree the records describe; `None` stands for the two panics |
| PersistenceLaws.PersistThenRead | crates/px-adapter-exact/src/persistence.rs:40-167 | persisting into a store that holds nothing for the repository and reading back gives the canonical tree |
| CrashPoints.CrashPrefix | crates/px-adapter-exact/src/persistence.rs:56-167 | after the first k writes the store reads as exactly the directories and files all of whose writes are among them |
| PersistenceLaws.PersistTwice | crates/px-adapter-exact/src/persistence.rs:40-54 | persisting the same tree again changes no record |
| Reimport.ReimportReads | crates/px-adapter-exact/src/persistence.rs:40-167 | persisting a second import with other ids under the same name: every directory once and all files of both are read back, in path order and by procedure key within a path |
| Reimport.ReimportMaterializesExactly | crates/px-adapter-exact/src/persistence.rs:130-167 | that tree materializes if and only if what the two imported disks have in common are directories and regular files |
| Reimport.SameDiskTwice | crates/px-adapter-exact/src/materializer.rs:44-141 | an unchanged disk imported twice comes back as it was if and only if it holds no link |
| Isolation.RepositoriesIsolated | crates/px-graph-store/src/node.rs:45-127 | persisting another repository with other ids and a name that does not clash leaves the first tree as it was |
| Isolation.DirectoryKeysClash | crates/px-graph-store/src/node.rs:121-127 | directory keys of two names are equal for some relative paths if and only if one name with a colon starts the other, closed by a colon, and what follows can start a relative path |
| Isolation.EdgeKeysClash | crates/px-graph-store/src/edge.rs:53-63 | directory edges of two names share a storage key for some relative paths if and only if the names nest as stated |
| Isolation.EdgeKeysMeet | crates/px-graph-store/src/edge.rs:53-63 | a family of slash-free names for which they do |
| Isolation.EdgeKeysMeetExample | crates/px-graph-store/src/edge.rs:53-63 | repositories `r` and `r:empty_directory:r:y` have an edge key in common |
| Isolation.ClashingNamesInterfere | crates/px-graph-store/src/node.rs:121-127 | for clashing names a tree of the other repository, all its paths valid, changes what the first one reads as |
| Isolation.IsolationExact | crates/px-graph-store/src/node.rs:121-127 | isolation for all trees with valid relative paths if and only if the names do not clash |
| ExactImport.ModeRoundTrip | crates/px-adapter-exact/src/importer.rs:145-151 | the octal text of a mode parses back to its low nine bits |
| ExactImport.DetectLineEndings | crates/px-adapter-exact/src/importer.rs:173-202 | each of the four answers if and only if CRLF and lone LF occur accordingly |
| ExactImport.ImportTree | crates/px-adapter-exact/src/importer.rs:36-106 | the tree lists every entry once with its exact content, mode, target, encoding and line endings, in canonical order, whatever the walk order |
| FileSystem.ResolveJoined | crates/px-adapter-exact/src/materializer.rs:90-102 | an imported relative path resolves to itself below the root |
| FileSystem.ResolveExactly | crates/px-adapter-exact/src/materializer.rs:90-102 | a text resolves if and only if it is a valid path's parts joined by slashes, and then to these |
| ExactMaterialize.Root.MaterializeTree | crates/px-adapter-exact/src/materializer.rs:44-85 | creates directories, then files and links, up to the first error or the first link followed, with what was written so far |
| ExactMaterialize.Root.WriteEntry | crates/px-adapter-exact/src/materializer.rs:62-85 | parents, then the link, or the content followed by its mode; a link on the way or at a file's own path is followed |
| ExactMaterialize.EntryWritten | crates/px-adapter-exact/src/materializer.rs:62-85 | a written entry is a link to its target or a file with its content and the octal mode its text says, 0644 when it says none |
| ExactMaterialize.ImportThenMaterialize | crates/px-adapter-exact/src/materializer.rs:44-141 | importing and materializing into an empty root gives back the whole tree with the low nine permission bits of files |
| ExactMaterialize.ImportPersistReadMaterialize | crates/px-adapter-exact/src/persistence.rs:130-167 | the same through the graph store |
| Containment.ThroughExactly | crates/px-adapter-exact/src/materializer.rs:40-85 | a link is followed if and only if some entry, all before it being writable, lies below a link listed before it or is a regular file at one; it succeeds if and only if every entry is writable |
| Containment.MaterializeContained | crates/px-adapter-exact/src/materializer.rs:40-102 | for every tree without such an entry, failing ones included, nothing is written outside the root or below a file or link |
| Containment.ImportedContained | crates/px-adapter-exact/src/materializer.rs:40-102 | no imported tree has such an entry |
| Containment.LinkEscapes | crates/px-adapter-exact/src/materializer.rs:62-85 | a link that leaves the root with a file listed below it: creating the file follows the link |
| Containment.EscapeExample | crates/px-adapter-exact/src/materializer.rs:62-85 | in particular a link `a` to `../outside` and a file `a/b`: the link is followed |
| ExactMaterialize.ImportedValidates | crates/px-repo-model/src/exact_artifact.rs:63-87 | an imported record passes validation if and only if its path holds no backslash |
| GitProjection.HashGitObject | crates/radix-core/src/git_projection.rs:83-95 | the object's bytes read as header and content, and their hash |
| GitProjection.ObjectReads | crates/radix-core/src/git_projection.rs:83-95 | what stands before the first space is `blob` or `tree` by kind, the digits up to the first zero byte say without leading zero how many bytes follow, and these are the content |
| GitProjection.ProjectTree | crates/radix-core/src/git_projection.rs:130-157 | the object bytes of the entries in git order, or the first error |
| GitProjection.ProjectedLayout | crates/radix-core/src/git_projection.rs:130-157 | a tree object holds mode, space, name, zero byte and id of every entry, by ascending name, a directory's name counting with a slash behind it |
| GitProjection.ProjectionErrors | crates/radix-core/src/git_projection.rs:130-145 | an empty name is reported if and only if there is one; a reported duplicate is the name of two entries |
| GitProjection.OrderIrrelevant | crates/radix-core/src/git_projection.rs:130-170 | every permutation of entries with slash-free names gives the same object or the same error |
| GitProjection.SuccessIncreases | crates/radix-core/src/git_projection.rs:137-145 | after the neighbour check the sort keys strictly increase |
| GitProjection.SuccessExact | crates/radix-core/src/git_projection.rs:130-157 | succeeds if and only if no name is empty, keys are distinct, and every file and directory of one name have a key between them |
| GitProjection.SameNameCanPass | crates/radix-core/src/git_projection.rs:137-145 | a file `foo`, a file `foo-bar` and a directory `foo` are accepted together |
| GitProjection.DecodeEncode | crates/radix-core/src/git_projection.rs:146-156 | tree content decodes back to its entries |
| GitProjection.ObjectsInjective | crates/radix-core/src/git_projection.rs:83-95 | equal object bytes mean equal kind and content |
| GitProjection.EqualOidsEqualTrees | crates/radix-core/examples/git_projection_dogfood.rs:108-164 | nested trees with the same root id are the same tree up to listing order |
| GitProjection.EqualRootsEqualContents | crates/radix-core/examples/git_projection_dogfood.rs:108-164 | nested trees with the same root id have the same contents at every path |
| Canonical.CanonicalizeValue | crates/px-repo-model/src/canonical.rs:50-89 | the recursive loops answer the first fault in reading order with its path, or the canonical form |
| Canonical.RefusalNamesFirst | crates/px-repo-model/src/canonical.rs:50-89 | a refusal names path and kind of a fault, and all that comes before it on the way there is acceptable |
| Canonical.SucceedsIffAcceptable | crates/px-repo-model/src/canonical.rs:50-89 | accepted if and only if no float occurs anywhere and no object member is null |
| Canonical.CanonicalForm | crates/px-repo-model/src/canonical.rs:50-89 | the result is the input up to member order, sorted at every depth, and a fixed point |
| Canonical.SameFormIffReordered | crates/px-repo-model/src/canonical.rs:50-89 | two accepted values share a form if and only if they differ only in member order at some depth |
| Merkle.PayloadOrdered | crates/px-repo-model/src/merkle.rs:19-75 | the payload is the list of the entries by ascending id, each an object of id and hash |
| Merkle.PayloadInjective | crates/px-repo-model/src/merkle.rs:19-75 | canonical payloads agree if and only if the arranged entries do |
| Merkle.OrderForgottenExactly | crates/px-repo-model/src/merkle.rs:19-75 | the written form is independent of input order if and only if no id comes with two hashes |
| Merkle.EqualRootsExactly | crates/px-repo-model/src/merkle.rs:19-75 | without a collision roots agree if and only if the entries do as a collection |
| Merkle.CurrentProcedureRoot | crates/px-graph-store/src/store.rs:306-319 | the root is that of the stored procedures in any order, whatever order the store lists them |
| Merkle.StoresSameRootExactly | crates/px-graph-store/src/store.rs:306-319 | two stores have the same root if and only if they hold the same procedures at the same revisions |
| Cron.StarMeans | crates/agenda/src/scheduler.rs:439-490 | `*` matches the range, `*/k` every k-th value from its lower end |
| Cron.NumberMeans | crates/agenda/src/scheduler.rs:439-490 | `n` matches that value alone, and only within the range |
| Cron.RangeMeans | crates/agenda/src/scheduler.rs:439-490 | `a-b` matches the values from a to b, and none unless both are in the range |
| Cron.SteppedRangeMeans | crates/agenda/src/scheduler.rs:439-490 | `a-b/k` matches every k-th of them from a on |
| Cron.PartMeans | crates/agenda/src/scheduler.rs:439-490 | a part matches exactly the values of the progression it denotes; the guarded subtraction never goes below zero |
| Cron.FieldMeans | crates/agenda/src/scheduler.rs:429-437 | a field matches an in-range value if and only if one of its parts admits it |
| Cron.FiveFields | crates/agenda/src/scheduler.rs:397-427 | five words match a moment if and only if they admit its minute, hour, day, month and weekday in this order |
| Cron.SplitOnExactly | crates/agenda/src/scheduler.rs:434-436 | the parts hold no comma and joined by commas are the field |
| Cron.TrimExactly | crates/agenda/src/scheduler.rs:434-436 | trimming takes off white space at the ends and leaves none there |
| Commands.TokenizeQuoted | crates/agenda/src/scheduler.rs:536-566 | the scanning loop computes the words, or the open-quote error |
| Commands.PlainWords | crates/agenda/src/scheduler.rs:536-566 | a command without quotes splits at white space |
| Commands.QuotedWord | crates/agenda/src/scheduler.rs:536-566 | a quoted stretch between two texts that read is one word between their words, whatever else than its quote it holds |
| Commands.OpenQuoteFails | crates/agenda/src/scheduler.rs:536-566 | a quote without its counterpart is an error |
| Commands.WrittenReads | crates/agenda/src/scheduler.rs:536-566 | every list of non-empty words can be quoted so that it is read back unchanged |
| Commands.ReadableExactly | crates/agenda/src/scheduler.rs:536-566 | the lists some command reads as are exactly those without an empty word |
| Scheduler.TaskTable.Scan | crates/agenda/src/scheduler.rs:308-318 | the enabled due tasks, each once |
| Scheduler.TaskTable.MarkRun | crates/agenda/src/scheduler.rs:375-379 | sets the last run of that task to the tick time and changes nothing else |
| Scheduler.TaskTable.Complete | crates/agenda/src/scheduler.rs:331-368 | sets last run and result, cut to 500 characters, of that task if it still exists |
| Scheduler.StepKeeps | crates/agenda/src/scheduler.rs:294-382 | every step of every interleaving keeps the invariant, mark overwriting a completion included |
| Scheduler.RunSafe | crates/agenda/src/scheduler.rs:294-427 | in every run two dispatches of a task keep the distance its schedule asks for, at permitted times |
| Scheduler.IntervalSpacing | crates/agenda/src/scheduler.rs:385-396 | an interval task's dispatches are at least its interval apart |
| Scheduler.CronOncePerMinute | crates/agenda/src/scheduler.rs:397-427 | a cron task fires at most once per calendar minute and only in a matching one |
| Scheduler.OnceAtMostOnce | crates/agenda/src/scheduler.rs:385-427 | a once task fires at most once and never before its time |
| Scheduler.LastRunNeverBehind | crates/agenda/src/scheduler.rs:375-379 | between ticks a stored last run is never before a dispatch of the task |
| Scheduler.DispatchedExactly | crates/agenda/src/scheduler.rs:294-382 | in every run that leaves a resting task alone, it is dispatched if and only if some tick finds it due |
| Scheduler.IntervalDispatchedExactly | crates/agenda/src/scheduler.rs:385-396 | an interval task left alone is dispatched if and only if some scan comes at least its interval after its last run, or any scan when it never ran |
| Scheduler.OnceDispatchedExactly | crates/agenda/src/scheduler.rs:385-396 | a once task left alone is dispatched if and only if it never ran and some scan comes at or after its time |
| Scheduler.CronDispatchedExactly | crates/agenda/src/scheduler.rs:397-427 | a cron task left alone is dispatched if and only if some scan falls in a matching moment, at least sixty seconds after its last run when there is one |
| Scheduler.MinuteMissedExactly | crates/agenda/src/scheduler.rs:397-427 | a cron task goes undispatched through the ticks of a matching minute if and only if each of them comes less than sixty seconds after its last completion |
| Chronos.ChronosTimeline.BuildEntryWithLevel | crates/radix-core/src/chronos.rs:233-263 | the parent is the entry the key's pointer names at that moment, if the store holds one |
| Chronos.ChronosTimeline.Record | crates/radix-core/src/chronos.rs:293-329 | an entry whose level comes before the timeline's, in the order debug, info, warn, error, changes nothing; any other is written under its id and the pointer under its key |
| Chronos.ChronosTimeline.History | crates/radix-core/src/chronos.rs:332-349 | the newest entries of the key; none left out is newer than one returned |
| Chronos.ChronosTimeline.Replay | crates/radix-core/src/chronos.rs:453-484 | exactly the entries between the two ids by time and, at one time, by id; an unknown id is no bound |
| Chronos.RunKeeps | crates/radix-core/src/chronos.rs:233-329 | every run in which builds, entry writes, pointer writes and level changes of any writers interleave keeps the invariant |
| Chronos.ParentsRecordedFirst | crates/radix-core/src/chronos.rs:233-329 | a recorded entry's parent was recorded before it under the same key |
| Chronos.FilteredNeverParent | crates/radix-core/src/chronos.rs:293-300 | an entry the level kept out is nobody's parent |
| Chronos.LatestWalkEnds | crates/radix-core/src/chronos.rs:352-359 | following parent ids by fetches from the store, from the latest entry on, gives a finite chain of that key's entries ending at one without parent |
| Chronos.SerialWalkComplete | crates/radix-core/src/chronos.rs:233-359 | when the writers of this one key do not interleave, whatever those of other keys do, then outside a writer's two writes that walk visits every recorded entry of the key once, newest first |
| CsvExport.ExportCsv | crates/audit/src/export.rs:57-73 | the loop joins header and rows with line feeds |
| CsvExport.FieldReads | crates/audit/src/export.rs:76-82 | an escaped field reads back as it was, whatever its characters |
| CsvExport.QuotedExactly | crates/audit/src/export.rs:76-82 | a field is quoted if and only if it holds a comma, a quote or a line break |
| CsvExport.ExportReads | crates/audit/src/export.rs:57-82 | a reader recovers the header and all seven columns of every event |
| CsvExport.ExportReadsEvents | crates/audit/src/export.rs:57-82 | the rows read back are the column names and, row by row, the events, their labels and flags decoded |
| CsvExport.ExportInjective | crates/audit/src/export.rs:57-82 | different event lists export to different texts |
| TimestampReading.FormatReads | crates/audit/src/event.rs:98-103 | a formatted timestamp reads back field by field, its fraction with 0, 3, 6 or 9 digits |
| Timestamps.FormatOrder | crates/audit/src/query.rs:91-101 | text order of formatted timestamps is time order, whatever their fraction lengths |
| ZuluBounds.ZuluOrder | crates/audit/src/query.rs:91-101 | a bound written with `Z` sorts before a stored timestamp if and only if that lies after the whole unit, second or digit place, the bound names |
| AuditStores.WindowQuery | crates/audit/src/query.rs:91-123 | a query keeps exactly the events of the kind, destination, actor and flag asked for whose time lies within the bounds, each absent, written as the formatter does or written with `Z`; a lower `Z` bound drops the unit it names, an upper one keeps it |
| AuditStores.ZuluSinceDropsItsSecond | crates/audit/src/query.rs:91-101 | a lower bound of a whole second and `Z` drops the events of that second |
| AuditStores.PurgeWindow | crates/audit/src/retention.rs:82-88 | a purge keeps exactly the events not before the cutoff time |
| AuditStores.InMemoryAuditStore.PurgeBefore | crates/audit/src/store.rs:110-113 | retains exactly the events not before the cutoff, in order |
| AuditStores.PluresDbAuditStore.Append | crates/audit/src/store.rs:176-184 | puts the event under its id |
| AuditStores.PluresDbAuditStore.All | crates/audit/src/store.rs:199-213 | every stored event once, in chronological order |
| AuditStores.PluresDbAuditStore.PurgeBefore | crates/audit/src/store.rs:219-238 | deletes exactly the older events whose delete succeeds |
| AuditStores.StoresAgree | crates/audit/src/store.rs:88-113 | after any appends with fresh ids and any purges both stores hold the same events |
| AuditStores.QueriesAgree | crates/audit/src/store.rs:186-197 | and answer every query with the same set |
| AuditStores.AppendsAgreeExactly | crates/audit/src/store.rs:176-184 | on appends alone they agree if and only if no two different events share an id |
| Executor.HandlersByPriority | crates/radix-core/src/procedure.rs:231-242 | handlers come by ascending priority number, a missing one counting as zero, those of one number in registration order |
| Executor.HandlersExactly | crates/radix-core/src/procedure.rs:231-242 | a procedure is a handler, as often as it is registered, if and only if it handles the kind and its name is not switched off |
| Executor.MatchingMembers | crates/radix-core/src/procedure.rs:231-242 | handlers are exactly the enabled procedures for the kind |
| Executor.RunsIffGatesPass | crates/radix-core/src/executor.rs:167-254 | a handler runs if and only if all three gates pass |
| Executor.GatesInOrder | crates/radix-core/src/executor.rs:167-254 | store, gate and safety words are asked in this order, and what each blocking leaves behind |
| Executor.DispatchInOrder | crates/radix-core/src/executor.rs:155-257 | follow-ups and runs lie one handler behind the other in handler order |
| Executor.RecentIsTail | crates/radix-core/src/optimization.rs:203-212 | of the telemetry the last thousand records are kept |
| Executor.Executor.Handle | crates/radix-core/src/executor.rs:167-254 | a blocked handler contributes exactly its prescribed event or none, and leaves the prescribed record and evidence request |
| Executor.Executor.Dispatch | crates/radix-core/src/executor.rs:155-257 | the follow-ups, the handlers run, the telemetry and the evidence requests, in handler order |
| Executor.Executor.Drain | crates/radix-core/src/executor.rs:281-286 | when follow-ups rank lower among the events that can arise, the worklist ends and dispatches exactly the derivation forest, running exactly the handlers its events permit |
| Worklists.InTurnGathers | crates/radix-core/src/executor.rs:281-286 | events drained in turn are dispatched one derivation forest behind the other |
| Executor.Executor.Run | crates/radix-core/src/executor.rs:270-295 | processes polls until one is empty or the limit is reached, and drains each of their events in turn |
| Executor.DrainReachesDerived | crates/radix-core/src/executor.rs:281-286 | an event is dispatched if and only if it is derivable from the polled one |
| Worklists.GuardDerives | crates/radix-core/src/executor.rs:281-286 | restricting attention to a closed set of events changes no derivation from it |
| Worklists.EachNodeOnce | crates/radix-core/src/executor.rs:281-286 | each node of the forest is dispatched exactly as often as a preorder walk meets it |
| Executor.TickEndsExactly | crates/radix-core/src/executor.rs:281-286 | the worklist empties after finitely many rounds if and only if some closed set of events holds the polled one and has a rank that falls with every follow-up |
| Worklists.DrainsIffRanked | crates/radix-core/src/executor.rs:281-286 | the same for any worklist; the rank is the least number of rounds an item takes |
| Cycles.DrainsIffNoReturn | crates/radix-core/src/executor.rs:281-286 | a worklist whose rank falls except into finitely many items empties if and only if none of those it comes to leads back to itself |
| SelfMadeEvents.TickEndsIffNoReturn | crates/radix-core/src/executor.rs:167-286 | when what procedures emit is ranked, a tick ends if and only if no event the executor made itself leads back to itself |
| SelfMadeEvents.SustainedDiverges | crates/radix-core/src/executor.rs:167-286 | a store-blocked handler of violations, a gate-blocked handler of pre-action constraints, or one of each kind blocked the other way: the worklist is busy forever, and no rank exists |
| SelfMadeEvents.EveryTickEndsExactly | crates/radix-core/src/executor.rs:167-286 | when emissions are ranked and those on self-made events lead to none, every tick ends if and only if none of these three is there |
| Approval.StepKeeps | crates/radix-core/src/approval.rs:102-136 | every step of every interleaving keeps the protocol invariant |
| Approval.OneResolveWakes | crates/radix-core/src/approval.rs:122-136 | at most one resolve of a token ever reports true |
| Approval.OutcomeExplained | crates/radix-core/src/approval.rs:54-62 | a waiter returns what the waking resolve decided, or deny if none woke it |
| Approval.AllowOnlyWhenAllowed | crates/radix-core/src/approval.rs:54-62 | allow is returned only if that very token was resolved with allow |
| Approval.BlockedExactlyWhilePending | crates/radix-core/src/approval.rs:44-62 | a waiter blocks if and only if its sender is in the registry or in a resolve call |
| Approval.DroppedRegistryDenies | crates/radix-core/src/approval.rs:44-62 | dropping the registry lets every unresolved waiter return deny |
| Approval.ResolveThenWait | crates/radix-core/src/approval.rs:122-136 | an undisturbed resolve wakes a listening waiter with exactly its decision |
| Approval.OnlyOwnStepsMatter | crates/radix-core/src/approval.rs:102-136 | deleting all steps about other tokens leaves a run in which the token sees the same |
| Approval.OutcomesIndependent | crates/radix-core/src/approval.rs:102-136 | resolving one token never changes another's outcome |
| Approval.ApprovalRegistry.Register | crates/radix-core/src/approval.rs:102-120 | adds the waiter; the new state is the machine's register step |
| Approval.Oneshot.Receive | crates/radix-core/src/approval.rs:60-62 | waiting returns what was sent, or deny once nobody can send |
| Approval.ApprovalRegistry.PendingCount | crates/radix-core/src/approval.rs:139-141 | the number of tokens registered and not yet taken |
| Approval.ApprovalRegistry.TakeWaiter | crates/radix-core/src/approval.rs:127-136 | the part under the lock: the waiter leaves the map and its sender goes to the caller, as the machine's take step |
| Approval.ApprovalRegistry.Resolve | crates/radix-core/src/approval.rs:127-136 | true if and only if the waiter existed and listened; the new state is the machine's take and send steps |

## Left out

- StrayTokens.RestoreExact: the equivalence is stated for values without `[`, because for other values the condition is sufficient and not necessary (`StrayTokens.RestoreWithoutStrays`, `Restoring.DirtyCanRestore`).
- Redaction.RestoreLosesStrayToken: for the same reason it takes values without `[`.
- Overlaps.DetectedDisjointExactly: spans of names, addresses and user patterns are outside the statement.
- Scheduler.TaskTable.Complete: the result is cut at 500 characters; the source slices 500 bytes and panics when that falls inside a multi-byte character.
- ExactMaterialize.Root.MaterializeTree: after the first link followed nothing is modelled, neither what the write does where the link leads nor the entries after it; failures of permission, space or the device are not modelled, among them overwriting a file whose own mode forbids it.
- ExactMaterialize.Root.WriteEntry: the same.
- Containment.LinkEscapes: that the link is followed is stated, not what is then written where it leads.
- Containment.EscapeExample: the same.
- Byte offsets: spans count characters here, bytes in the source.
- Detection of names, addresses and user patterns: their spans enter as arbitrary in-bounds spans; only `word_run_offsets` is proved.
- Restoring with an empty placeholder: the source's map never holds one, and the model requires it.
- In-place sorting of an imported tree: the tree is a value, so updates through a shared reference are not captured.
- Directory permissions, non-UTF-8 names, special files and the Windows branches of the exact adapter; symbolic links carry the mode 0777 that Linux reports.
- Logical changes, refs and the revision edges of the graph store: no read of the modelled operations depends on them.
- Concurrent writers of the graph store's prefixes, record decoding errors and the storage engine below the key-to-record map.
- UUID minting, BLAKE3, SHA-1, hex text and JSON string escaping: ids are fresh inputs, hashes and writers are parameters.
- Collision freedom is assumed for the byte strings of the objects compared, never for all inputs.
- Scheduler runs: one loop, a clock that never goes back, and no id added or reloaded twice; with a clock stepping back or a re-added id the spacing guarantees are not claimed.
- The scheduler's persistence races, reload after a crash, intervals beyond the range of the time library, leap seconds, and ticks without an executor.
- Chronos: the JSONL copy of records, `by_actor`, `in_range`, `timeline` and `recent`, which filter the same listing as `History`; looking up the latest entry is one step, since stored entries never change or disappear.
- AuditStores.WindowQuery: bounds with an offset other than `+00:00` and `Z`, or with a fraction other than the formatter's before `+00:00`; years beyond 9999.
- The generated id that links a telemetry record to its evidence request, and time stamps of both.
- Executor.Executor.Run: polls are given in advance, so a source that reacts to earlier dispatches is covered only through the list it ends up producing.
- Procedures with state of their own: a procedure is a function of the event.
- Cancellation of a resolve call before it takes the lock: it has no effect and no step.
- `parse_cron_add` and `parse_interval_secs`, the JSON export, the HTTP, user interface, transport and model client layers: they would add easy members only.
