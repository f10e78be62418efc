# Kiro Fabric: verified models

Dafny models of the parts of Kiro Fabric whose guarantees rest on state, arithmetic and
interleaving, and proofs of those guarantees. `dafny verify dfyconfig.toml` checks everything.

Strings are sequences of UTF-16 code units (`Utf16.Text`), bytes are numbers below 256, and JSON
sizes are defined from RFC 8259 section 7 with lone surrogates escaped. A "does this value fit"
callback is an arbitrary predicate, so the claims about pages hold for every measure of size.
Random identifiers, cursors and reservations are numbered: they never repeat, and only their
issuer makes them. Clocks, file contents, settled promises, aborts and provider answers are
parameters or steps that may come in any order.

The files by subject:

- **Provenance journal.** `ProvenanceJournal` (validation, extension, trimming), `JournalProtocol`
  (any number of appends in both modes, step by step, failing or crashing anywhere, over whole
  runs), `ProvenanceBridge` (the reader's gap decision and grouping).
- **Index budget of the action registry.** `IndexLedger` (reservations as closures that give back
  once), `RegistryState` (who holds each of them, and the shape of queue, slots, caches and users),
  `ActionRegistry` (the class, one method per synchronous step between two awaits).
- **Write intents and audit bytes.** `AuditLedger`.
- **Catalogs.** `CatalogWalk` (the admission walk over descriptors), `CatalogPages` (catalog pages
  and descriptor chunks), `CatalogSizes` (their JSON sizes), `CatalogStore` (reservation, eviction, publication, authentication).
- **Bounded delivery.** `BoundedSearch`, `LineIndex`, `LocalRead`, `ReadMany`, `SearchPages`,
  `StreamCapture`, `StderrTail`.
- **Edits and approval.** `Alignment`, `LocalEdit`, `LocalReview`.
- **Leases and references.** `McpLease`, `RemoteIdentity`, `RankedActions`.
- **Text and helpers.** `Utf8`, `Utf16`, `Json`, `Wrappers`.

A class keeps its invariant in `Valid()`; where a claim is about every run of a class, it is a
clause of `Valid()` or a lemma that needs nothing but `Valid()`, and every method keeps it. The
registry's methods pass around, as ghost arguments, the reservations that a running step holds in
its variables. `JournalProtocol` and `McpLease` are transition systems whose lemmas speak of
`Run(steps)` for every sequence of steps; a step that is not enabled changes nothing.

Where the code does not do what one might expect of it:

- A local search can fail its last budget check. It does so exactly when no record is left to
  deliver and the bare envelope, with the scope's description, is over the budget
  (`SearchPages.FillPage`, with a concrete case in `SearchPages.EmptyCaptureCanExceedBudget`).
- Following a partial batch's `remaining` reports completion exactly when no window fails for good;
  a window that fails on every call is handed back on every call (`ReadMany.ReadUntilDone`,
  `ReadMany.FailingNeverCompletes`).
- A catalog reservation that is refused for want of room has evicted every published snapshot
  first (`CatalogStore.Store.Reserve`), and `#reserve` of the registry likewise evicts every idle
  index before it refuses (`ActionRegistry.Registry.Reserve`).
- A catalog page or a descriptor chunk can be refused for its budget in the code, but with the sizes
  they have no admitted budget is too small (`CatalogSizes.PageIsNeverRefused`,
  `CatalogSizes.ChunkIsNeverRefused`).
- A registry queue whose head does not fit, with no producer active and no idle index left, is
  cancelled as a whole (`ActionRegistry.Registry.Pump`).
- Resizing a raw reservation gives it back before it reserves anew, so it is never refused for want
  of room and evicts nothing, although the code could do either (`ActionRegistry.Registry.Resize`).
- `largestFittingInteger` returns a value that passed, or its untested lower bound, whatever the
  predicate; the largest such value only for a predicate that never passes again once it failed
  (`BoundedSearch.LargestFittingInteger`). JSON size is not such a predicate where a chunk would
  split a surrogate pair, so the pages claim fit, progress and conservation.

## Model

| member | source | states |
|---|---|---|
| Utf8.Utf8Valid | src/fovea/source-platform-native.c:120-134 | accepts a byte string exactly if it is the UTF-8 encoding (RFC 3629 sections 3 and 4) of some text without NUL |
| Utf8.WellFormedIsEncoding | src/fovea/source-platform-native.c:123-131 | the checks on one character accept exactly the encodings of scalar values: no overlong form, surrogate or value above U+10FFFF |
| Utf8.FirstScalarIsUnique | src/fovea/source-platform-native.c:122-132 | a byte string has at most one first character, so reading from the left decides |
| Utf8.ShiftTail | src/fovea/source-platform-native.c:130 | the inner loop succeeds exactly on continuation bytes, and yields the payload they spell |
| Utf16.ByteLengthIsEncodedLength | src/providers/local-edit.ts:36 | the byte length of a string is the length of the UTF-8 encoding of its code points |
| Utf16.ByteLengthOfJoin | src/providers/local-edit.ts:33-40 | byte lengths add up, less two exactly when a surrogate pair forms at the join |
| Json.ContentBounds | src/providers/local-shell.ts:77-79 | every unit of a string takes between one and six characters, and bytes, of JSON |
| BoundedSearch.LargestFittingInteger | src/bounded-search.ts:4-11 | for any predicate, the lower bound or a value that passed, whose successor failed or is out of range; the largest that passes if the predicate never passes again once it failed |
| Alignment.AlignedIsUnique | src/providers/local-edit.ts:41-55 | original, regions and replacements determine the resulting text |
| LocalEdit.OccurrencesAreLeftmost | src/providers/local-edit.ts:15-19 | the occurrences taken with `all` are a leftmost non-overlapping choice: none was skipped before, between or after them |
| LocalEdit.LeftmostChoiceIsUnique | src/providers/local-edit.ts:15-19 | there is only one such choice |
| LocalEdit.SortMakesChain | src/providers/local-edit.ts:29-43 | disjoint ranges, sorted, each end before the next begins: the second overlap check never fires |
| LocalEdit.StableGrows | src/providers/local-edit.ts:36-38 | the size that the running check looks at never falls as text is appended, and grows by all but four bytes of it |
| LocalEdit.SubstituteBytes | src/providers/local-edit.ts:18-24 | the substituted text takes at least the sum of the replacements' minimum sizes |
| LocalEdit.EarlyRefusalIsSound | src/providers/local-edit.ts:18-24 | an edit whose final text is within 2 MiB is not refused by the early sum, at any point of it |
| LocalEdit.PieceBuffer.Append | src/providers/local-edit.ts:32-40 | the running size is the UTF-8 length of the joined pieces, even where a pair forms across pieces; false means that no continuation is within the limit |
| LocalEdit.PieceBuffer.BytesAreExact | src/providers/local-edit.ts:32-40 | the running size equals the byte length of the text written so far |
| LocalEdit.ClaimOne | src/providers/local-edit.ts:20-26 | one occurrence is claimed in the occupancy map, or refused for overlap, count or early size, whichever is the case |
| LocalEdit.ClaimEdit | src/providers/local-edit.ts:13-28 | all wanted occurrences of one anchor are claimed, in order, or the edit is refused for an overlap, a count or an early size that its claims have |
| LocalEdit.ResolveAnchors | src/providers/local-edit.ts:10-28 | every anchor is resolved against the original, each edit claiming the ranges of its chosen occurrences, or the edit is refused with a reason that holds of it |
| LocalEdit.ReplaceRanges | src/providers/local-edit.ts:30-55 | the loop over sorted ranges yields the simultaneous substitution and its regions, or the text is over the limit |
| LocalEdit.ApplyLocalEditsWithRegions | src/providers/local-edit.ts:8-56 | succeeds exactly on a resolvable edit whose original and final texts are within 2 MiB; then every occurrence chosen for every edit, a leftmost choice with `all` and the only one without, has a region with that edit's new text, there are no other regions, and all the rest is copied; every refusal's reason holds |
| LocalEdit.AppliedEditIsSimultaneous | src/providers/local-edit.ts:41-55 | the regions are sorted and disjoint, each holds its replacement, and everything between them is copied |
| LocalEdit.RangesAreAnchors | src/providers/local-edit.ts:13-27 | every replaced range is an occurrence of some edit's anchor, with that edit's new text |
| LocalEdit.ResolvableMeans | src/providers/local-edit.ts:13-26 | an edit can be made exactly if every anchor occurs, once only without `all`, no two chosen occurrences overlap, and there are at most 10000 of them: stated on leftmost choices |
| LocalEdit.AppliedDelivers | src/providers/local-edit.ts:13-55 | each chosen occurrence of each anchor is replaced by its edit's new text, deletions included, and the regions are as many as the chosen occurrences |
| LocalReview.LineCounter.At | src/providers/local-provider.ts:275-281 | the forward-only counter reports one plus the line feeds before the offset |
| LocalReview.Trim | src/providers/local-provider.ts:268-270 | drops equal text at both edges of a region, and leaves none |
| LocalReview.TrimAll | src/providers/local-provider.ts:266-272 | the changes shown are the trimmed regions that are not empty, and the texts are still aligned along them |
| LocalReview.KeptAligned | src/providers/local-provider.ts:266-272 | trimming and dropping empty regions loses no change |
| LocalReview.ContextStart | src/providers/local-provider.ts:289-296 | context reaches back to what was already shown, over 200 units, or to just behind a fourth line break, and no further |
| LocalReview.ContextEnd | src/providers/local-provider.ts:297-301 | context reaches ahead to the next change, over 200 units, or past a third line break, and no further |
| LocalReview.PrintHunk | src/providers/local-provider.ts:285-321 | a hunk's coordinates hold the printed minus and plus texts, its context is unchanged text not shown before, its line numbers and omission counts are right |
| LocalReview.HunksPublish | src/providers/local-provider.ts:308-314 | replacing each minus text at its stated range in the original yields the proposed text exactly |
| LocalReview.PrintAll | src/providers/local-provider.ts:282-322 | one truthful hunk per change in order, or more than 11000 characters |
| LocalReview.MakeReview | src/providers/local-provider.ts:260-325 | the review alone determines the proposed text; nothing is shown twice; the omitted suffix is counted; refused only over budget |
| LineIndex.IndexOfLfIsFirst | src/providers/local-line-index.ts:7 | the search finds the first line feed from a position, or there is none |
| LineIndex.LineCount | src/providers/local-line-index.ts:6-8 | line feeds, plus an unterminated last line, count the lines |
| LineIndex.LinesConcat | src/providers/local-line-index.ts:5-13 | the lines are the text, cut |
| LineIndex.SliceIsLines | src/providers/local-line-index.ts:15-18 | the stretch between two line ends is exactly those lines |
| LineIndex.LinesOfRun | src/providers/local-line-index.ts:15-18 | lines cut out of a text are cut the same way on their own |
| LineIndex.LocalLineIndex.constructor | src/providers/local-line-index.ts:5-13 | counting and filling agree: the array holds the end of every line |
| LineIndex.Fill | src/providers/local-line-index.ts:10-12 | the second pass fills every slot with the end of its line |
| LineIndex.LocalLineIndex.Slice | src/providers/local-line-index.ts:15-18 | a slice is the concatenation of the lines asked for |
| LocalRead.ReadLines | src/providers/local-provider.ts:461-487 | a read fits and holds whole lines from the first requested on, at least one of a nonempty range, all of it if that fits; each refusal exactly when metadata, or one line, does not fit |
| LocalRead.SlicePage | src/providers/local-provider.ts:469-479 | one page as cut out by the index, with its continuation |
| LocalRead.PageTells | src/providers/local-provider.ts:469-479 | reading on from a page's next offset begins with the first line it does not hold, without one it ends the file, and the range counts as delivered exactly if all of it is |
| ReadMany.RawLinesOfRun | src/providers/local-read-many.ts:61-62 | splitting the raw text gives back its lines, without terminators and without a last empty one |
| ReadMany.DisplayDropsTerminator | src/providers/local-read-many.ts:61-62 | a line is its displayed content and LF, CRLF, or nothing at the end of a text |
| ReadMany.RequestedByNumber | src/providers/local-read-many.ts:63-64 | a window asks for the lines from its offset on, by their numbers, as many as its limit or 200, up to the end of the file |
| ReadMany.ContinuationAsksRest | src/providers/local-read-many.ts:66-69 | the continuation window asks for exactly the lines not delivered |
| ReadMany.ReadWindow | src/providers/local-read-many.ts:50-60 | a raw result, an ordinary failure exactly of a failing window, or a failure that no batch reports, with its cause |
| ReadMany.DeliverWindow | src/providers/local-read-many.ts:61-93 | delivers all of a window, or a fitting batch that conserves the rest, or fails as the first window when not even one line fits |
| ReadMany.SummarizeWindows | src/providers/local-read-many.ts:7-24 | the summary loops compute the specified batch, whose unread tails TailsAreAsked describes |
| ReadMany.LastOfIsLast | src/providers/local-read-many.ts:10-15 | one entry per snapshot, a delivered window that ends no earlier than any other of it |
| ReadMany.TailAsksBehind | src/providers/local-read-many.ts:16-20 | the tail of a delivered window asks, with that snapshot's hash, for exactly the lines behind its last one, 2000 of them at most, and there is none at the end of the file |
| ReadMany.TailsAreAsked | src/providers/local-read-many.ts:10-22 | there is one unread tail for each file whose furthest delivered line is not its last, it asks for what follows that line, and there are no others |
| ReadMany.FileIsGenuine | src/providers/local-read-many.ts:70-77 | a delivered window says truly which lines of which snapshot it holds, and whether and where the file goes on |
| ReadMany.ReadManyWindows | src/providers/local-read-many.ts:28-96 | every returned batch, also a pending one, fits; its lines and those its remainder asks for are the requested lines in order; the remainder has no more entries than the request; work left falls; every refusal has its cause; every delivered window is genuine, and the unread tails ask for what follows them |
| ReadMany.ReadUntilDone | src/providers/local-read-many.ts:26-27 | calling again with what remains terminates, and has then delivered every requested line clipped to the end of its file exactly once, in order; what remains are the windows that fail; if a call is refused, with its cause, the lines so far are the beginning of those requested and that call asked for all the others |
| ReadMany.FinishedStaysFinished | src/providers/local-read-many.ts:54-60 | once only failing windows remain, a further batch delivers no line and hands back the same windows |
| ReadMany.FailingNeverCompletes | src/providers/local-read-many.ts:54-60 | windows that all fail are all handed back |
| SearchPages.FinishedIsSmaller | src/providers/local-provider.ts:713-731 | a finished page is no larger than the draft that was measured |
| SearchPages.PageTells | src/providers/local-provider.ts:728-733 | a page has a cursor exactly if records are left, and says whether the count or the budget ended it; the scope counts as exhausted exactly if none are left and the capture omitted nothing |
| SearchPages.FillPage | src/providers/local-provider.ts:695-734 | the next records in order, at least one, as many as the draft allows, within the budget; refused exactly when one record is too large, or when none is left and the envelope is |
| SearchPages.EmptyCaptureCanExceedBudget | src/providers/local-provider.ts:734 | a concrete capture that the final budget check refuses |
| SearchPages.SearchCache.Begin | src/providers/local-provider.ts:677-685 | expired entries go; a wrong cursor or a full cache is refused, nothing else |
| SearchPages.SearchCache.Finish | src/providers/local-provider.ts:687-741 | a page is delivered only by consuming its cursor, from the entry it stands for, and what is left is cached under a new one; a refusal changes nothing and has its cause; at most eight entries; the new entry has the key, fingerprint and expiry of the request or of the entry before it |
| SearchPages.SearchCache.FinishThenFollow | src/providers/local-provider.ts:677-741 | the cursor a page has issued is accepted at the next request with the same key before it expires, and stands for what the page left behind; after that it is refused |
| SearchPages.SearchCache.CursorServesOnce | src/providers/local-provider.ts:735-736 | under any interleaving of requests a cursor yields at most one page |
| SearchPages.SearchCache.CursorContinues | src/providers/local-provider.ts:735-740 | a page that follows a cursor begins where the page that issued it ended |
| SearchPages.SearchCache.ChainDelivers | src/providers/local-provider.ts:674-742 | following cursors delivers the captured records once each, in order, and all of them when no cursor follows |
| SearchPages.SearchCache.IssuedOnce | src/providers/local-provider.ts:702 | no two pages issue the same cursor |
| SearchPages.ServingKeepsCacheOk | src/providers/local-provider.ts:735-740 | consuming a cursor and caching the rest keeps the cache and its history consistent |
| StreamCapture.Capture.Data | src/providers/local-shell.ts:101-119 | after any chunk, head, tail, count and output are those of the whole stream so far |
| StreamCapture.Assembled | src/providers/local-shell.ts:108-116 | head and tail suffice to write the prefix, marker and suffix of the stream |
| StreamCapture.CapturedMeans | src/providers/local-shell.ts:108-116 | a capture is the whole stream, or exactly limit units: a prefix, the marker if it fits, and a suffix no longer than the prefix and at most one unit shorter |
| StreamCapture.CaptureStream | src/providers/local-shell.ts:93-120 | however a stream is cut into chunks, the output is the stream within the limit, else its first and its last units with the marker between them, of exactly the limit, in halves |
| StreamCapture.ResultFitsBudget | src/providers/local-shell.ts:76-79 | whatever the two streams hold, the serialized result of a child that exited (no other is returned) is within the budget, so the provider's bound never rejects it |
| StderrTail.Tail.Append | src/kiro/mcp-provider.ts:737-745 | after any chunk the ring holds the last bytes of all that was written |
| StderrTail.Written | src/kiro/mcp-provider.ts:738-744 | writing a chunk's own last bytes in at most two pieces keeps the ring |
| StderrTail.Tail.Report | src/kiro/mcp-provider.ts:750-754 | what is reported is the last bytes written, in order, all of them if they fit |
| RemoteIdentity.TwoPassesAreOne | src/core/remote-identity.ts:5 | encoding and then escaping the kept marks is one encoding per code point |
| RemoteIdentity.EscapedIsCanonical | src/core/remote-identity.ts:5 | a component consists of unreserved characters and upper-case triplets (RFC 3986 sections 2.1 and 2.3) |
| RemoteIdentity.ComponentRoundTrip | src/core/remote-identity.ts:3-15 | decoding a component gives the name back |
| RemoteIdentity.RemoteRefShape | src/core/remote-identity.ts:1-8 | every issued reference has at most 4620 characters and two canonical components |
| RemoteIdentity.RemoteRefAccepts | src/core/remote-identity.ts:3-8 | a reference is issued exactly for two well-formed names of 1 to 256 units |
| RemoteIdentity.ParseAcceptsExactlyIssued | src/core/remote-identity.ts:9-19 | parsing yields a pair of names exactly for the reference issued for them; without the prefix it is no reference |
| RemoteIdentity.RemoteRefInjective | src/core/remote-identity.ts:8 | distinct names have distinct references |
| RankedActions.RankedIsUnique | src/core/ranked-actions.ts:4-11 | a collection of matches has one ranked order |
| RankedActions.CompareTextMeans | src/core/ranked-actions.ts:4-5 | a reference comes before another exactly if it is a proper prefix of it, or has the smaller unit where they first differ |
| RankedActions.SortIsBestFirst | src/core/ranked-actions.ts:4-5 | earlier in the ranking means a higher score, or an equal one and an earlier reference |
| RankedActions.SplitRanking | src/core/ranked-actions.ts:7-9 | matches no better than all kept ones do not change the ranking of those |
| RankedActions.RootIsWorst | src/core/ranked-actions.ts:7-9 | the root of the heap is the worst match kept |
| RankedActions.Push | src/core/ranked-actions.ts:16-24 | sifting up yields a heap of the old matches and the new one |
| RankedActions.ReplaceRoot | src/core/ranked-actions.ts:25-34 | sifting down yields a heap in which the new match replaces the worst |
| RankedActions.SelectBest | src/core/ranked-actions.ts:14-35 | after all matches the heap holds the best of them, as many as the limit |
| RankedActions.RankActions | src/core/ranked-actions.ts:10-37 | the first limit matches of the full ranking: higher scores first, equal scores by reference in code-unit order, so that nothing left out would come before anything returned |
| ProvenanceJournal.ValidateProvenanceJournal | src/fovea/provenance-journal.ts:21-32 | accepts exactly the journals that are numbered without a hole up to their sequence, of valid records, within both bounds |
| ProvenanceJournal.ComponentsMean | src/fovea/provenance-journal.ts:15-20 | the path check accepts exactly the paths without a stretch between two slashes that is empty, "." or ".." |
| ProvenanceJournal.TrimKeepsLongestSuffix | src/fovea/provenance-journal.ts:61 | shifting ends, with the longest suffix that is within the bounds |
| ProvenanceJournal.Ledger.Extend | src/fovea/provenance-journal.ts:55-62 | adds a record for each transition that changes its path, as it is, in order, under the origin and numbered on, and drops the oldest records only while a bound is exceeded; refused only if the numbers run out |
| ProvenanceJournal.AdmittedIsRecorded | src/fovea/provenance-journal.ts:55-62 | what is admitted are the transitions at a strictly increasing list of places, exactly those that change their path, unaltered and numbered on |
| ProvenanceJournal.RecordedIsAdmitted | src/fovea/provenance-journal.ts:55-62 | nothing else can be recorded for the same transitions |
| ProvenanceJournal.ExtendKeepsValid | src/fovea/provenance-journal.ts:55-62 | an extended journal is valid, and its records are the newest part of the old and the admitted ones |
| ProvenanceJournal.AdmittedNumbered | src/fovea/provenance-journal.ts:56-60 | admitted records are numbered on, and no-ops take no number |
| ProvenanceJournal.FreshIsSuffix | src/fovea/engine.ts:452-453 | the records behind a baseline are the suffix of the journal after it |
| JournalProtocol.RunKeepsInv | src/fovea/provenance-journal.ts:102-135 | what every run of appends, faults and crashes keeps: lock ownership, proposals, history and log |
| JournalProtocol.PublishedExtendsPrevious | src/fovea/provenance-journal.ts:102-135 | over every interleaving each published journal is the extension of the one published just before, or of the first content |
| JournalProtocol.OutcomesAreTrue | src/fovea/source-platform-native.c:221-266 | an append that reports success is in the history exactly once, any other at most once and not before its rename |
| JournalProtocol.LockIsExclusive | src/fovea/source-platform-native.c:230-231 | no two appends are inside the lock at once |
| JournalProtocol.PublishKeepsStore | src/fovea/source-platform-native.c:237-259 | a rename replaces exactly the content that was compared, or read under the lock |
| JournalProtocol.UndisturbedAppendSucceeds | src/fovea/provenance-journal.ts:102-135 | in any state with a free lock and a readable journal, an append of either mode that is not disturbed reports success and has published the extension; the lock is free again |
| JournalProtocol.ConflictLetsGo | src/fovea/source-platform-native.c:240-241 | an undisturbed append that finds a conflict under the lock ends without success and with the lock free, and changes nothing else |
| JournalProtocol.UnreadableLetsGo | src/fovea/provenance-journal.ts:121-134 | so does one that finds a journal under the lock that it cannot read or extend |
| JournalProtocol.FaultLetsGo | src/fovea/source-platform-native.c:260-265 | a fault under the lock is cleaned up after: if the cleanup is not disturbed, the lock is let go |
| JournalProtocol.ContentionFails | src/fovea/source-platform-native.c:230-231 | a lock that is held fails the append at once, and stays as it is |
| JournalProtocol.LogIsWhatWasPublished | src/fovea/provenance-journal.ts:55-62 | behind the records found at the start, the log of a run holds for each publication in turn exactly the transitions of its request that change their path, unaltered, in order, under its origin and numbered on from the journal it was made from |
| JournalProtocol.ReadMatchesLog | src/fovea/provenance-journal.ts:98-101 | the journal read is the newest part of everything ever admitted |
| JournalProtocol.ReaderDecisionIsExact | src/fovea/engine.ts:435-453 | if the reader reports no gap against its baseline, the records behind it are exactly those admitted since, in commit order; it reports one exactly when some of them are lost |
| ProvenanceBridge.BridgeProvenance | src/fovea/engine.ts:430-459 | the gap flag and the rows of each owner, for every report: its recent records in commit order, and none with a gap |
| ProvenanceBridge.GroupingKeepsRecords | src/fovea/engine.ts:447-459 | grouping by owner neither loses nor adds a record |
| ProvenanceBridge.RowsInOrder | src/fovea/engine.ts:447-459 | the rows of an owner are in commit order |
| CatalogWalk.AcceptableStep | src/core/catalog-snapshot-store.ts:116-123 | fields are acceptable exactly if the first is, and the rest with what it leaves |
| CatalogWalk.AcceptableComposite | src/core/catalog-snapshot-store.ts:108-115 | an object is acceptable exactly if it is new, plain, not too deep, and its fields are |
| CatalogWalk.Walk.Visit | src/core/catalog-snapshot-store.ts:102-124 | every early exit is sound: the walk accepts exactly plain data without a repeated object, within depth and both totals |
| CatalogWalk.Walk.VisitFields | src/core/catalog-snapshot-store.ts:116-123 | the loop over own properties, likewise |
| CatalogPages.FillPage | src/core/catalog-snapshot-store.ts:190-213 | items are the entries from the position on, each inline exactly if it fits; the page stops only at the end, at the limit, or where not even a put-off entry fits |
| CatalogPages.CutChunk | src/core/catalog-snapshot-store.ts:221-232 | a chunk fits, splits no pair and moves on or completes; refused only if not even one more code point fits, or the chunk before a pair does not |
| CatalogPages.FilledPageFollows | src/core/catalog-snapshot-store.ts:192-193 | the page built from those items is one that its cursor may yield |
| CatalogPages.CutChunkFollows | src/core/catalog-snapshot-store.ts:222 | the chunk is one that its cursor may yield |
| CatalogPages.PagesCover | src/core/catalog-snapshot-store.ts:185-217 | following cursors under arbitrary budgets visits each entry once, in order, and ends within as many pages as entries |
| CatalogPages.ChunksCover | src/core/catalog-snapshot-store.ts:218-233 | the chunks concatenate to the stored text, their UTF-8 sizes add up, and the last one completes it |
| CatalogSizes.CursorIsShort | src/core/catalog-snapshot-store.ts:152-158 | an issued cursor is shorter than the 400 characters from which cursors are refused unread |
| CatalogSizes.BeforeThePairFits | src/core/catalog-snapshot-store.ts:227-231 | with its JSON sizes, a chunk that ends before a surrogate pair fits where the one that ends inside it does |
| CatalogSizes.ChunkIsNeverRefused | src/core/catalog-snapshot-store.ts:177-184 | with their JSON sizes, no admitted budget, 1000 or more, refuses a chunk: every call moves on or completes |
| CatalogSizes.PageIsNeverRefused | src/core/catalog-snapshot-store.ts:177-184 | nor does any admitted budget refuse a catalog page |
| CatalogSizes.OversizeNeverFits | src/core/catalog-snapshot-store.ts:197-206 | the shortcut for a descriptor larger than the budget is sound: with their JSON sizes no page could hold it |
| CatalogSizes.InlineExactlyIfItFits | src/core/catalog-snapshot-store.ts:194-213 | so an entry of a page is whole exactly if the page fits with it whole |
| CatalogStore.OldestIsOldest | src/core/catalog-snapshot-store.ts:74 | the stable sort's first is the published snapshot that was used least recently, then reserved first |
| CatalogStore.EvictionSparesReservations | src/core/catalog-snapshot-store.ts:73-77 | eviction never removes an unpublished reservation |
| CatalogStore.EvictionMakesRoom | src/core/catalog-snapshot-store.ts:68-77 | eviction makes room exactly if the unpublished reservations leave room |
| CatalogStore.EvictsLeastRecent | src/core/catalog-snapshot-store.ts:74-76 | whatever is evicted is older than every published snapshot that stays |
| CatalogStore.LiveMeans | src/core/catalog-snapshot-store.ts:54-59 | what pruning keeps are the snapshots all of whose dependencies are current, younger than the absolute limit and used within the idle limit |
| CatalogStore.RoomByCount | src/core/catalog-snapshot-store.ts:68-72 | the unpublished reservations leave room exactly if one more of their size is within count, bytes and nodes |
| CatalogStore.Store.Prune | src/core/catalog-snapshot-store.ts:54-59 | exactly the current, unexpired, recently used snapshots stay, in order |
| CatalogStore.Store.Evict | src/core/catalog-snapshot-store.ts:73-77 | the loop terminates and removes the oldest until there is room |
| CatalogStore.Store.Reserve | src/core/catalog-snapshot-store.ts:60-80 | succeeds exactly if the store is open, the dependencies are current and few enough, and the unpublished reservations and one more are within the policy; the new snapshot has the full charge, and count, bytes and nodes stay within the policy |
| CatalogStore.Store.Depend | src/core/catalog-snapshot-store.ts:83-94 | dependencies are added, or the reservation is lost for too many, or it was not held; a snapshot that stays has exactly its own and the added ones |
| CatalogStore.Store.Release | src/core/catalog-snapshot-store.ts:95 | an active reservation goes, once |
| CatalogStore.Weigh | src/core/catalog-snapshot-store.ts:100-140 | accepts exactly what is publishable within the reservation, with its entries and weight |
| CatalogStore.Render | src/core/catalog-snapshot-store.ts:131-139 | the running total refuses exactly the catalogs over the limit |
| CatalogStore.EntriesCharge | src/core/catalog-snapshot-store.ts:131-136 | entries are charged two bytes for each unit of their texts, the UTF-8 size of these, and 256 bytes each |
| CatalogStore.Store.Publish | src/core/catalog-snapshot-store.ts:96-149 | the snapshot is charged exactly what the catalog weighs, never more than its reservation, and its cursor points to the beginning and opens; a refusal gives the place up; nothing else changes |
| CatalogStore.Store.Authenticate | src/core/catalog-snapshot-store.ts:156-175 | opens exactly the cursors signed since the last change of key whose publication is held and which point into it; it renews that snapshot's use, and its expiry if it was over, and nothing else |
| CatalogStore.Store.CatalogPage | src/core/catalog-snapshot-store.ts:185-217 | for any measure, a page fits, is within its limit, and moves on, completes, or is refused because not even a put-off entry, or the empty page at the end, fits; it ends only at the end, at the limit of 30 or as told, or where nothing more fits, and every cursor it names opens |
| CatalogStore.Store.DescribePage | src/core/catalog-snapshot-store.ts:218-233 | for any measure, a chunk fits, splits no pair, and moves on, completes, or is refused because not even one more code point fits or the chunk before a pair does not; all of the rest is delivered where it fits and is short enough, and the cursor it names opens |
| CatalogStore.Store.Invalidate | src/core/catalog-snapshot-store.ts:234 | everything is dropped, no earlier cursor opens, no reservation succeeds |
| CatalogStore.CursorMeansTheSame | src/core/catalog-snapshot-store.ts:167-174 | a cursor that opens before and after an operation opens the same publication |
| CatalogStore.OpensWhileHeld | src/core/catalog-snapshot-store.ts:167-174 | a cursor that opens keeps opening for as long as its snapshot is held and the key does not change |
| CatalogStore.CursorMeansTheSameForEver | src/core/catalog-snapshot-store.ts:167-174 | over any run, moment by moment, a cursor that opens at two moments opens the same publication |
| AuditLedger.TerminalFits | src/core/action-registry.ts:97 | whatever a call says of its end, with an error of a thousand units, takes less than 8192 bytes |
| AuditLedger.EndingsAreRecordable | src/core/action-registry.ts:628-654 | each way to end records safe numbers; success and size only of a call that returned, and of an error its text, cut to a thousand units |
| AuditLedger.Ledger.Admit | src/core/action-registry.ts:578-592 | refused exactly for entries, for bytes, or for a write beside an unsettled call that writes one of its resources or with "*" on either side, in that order; else charged its worst case with its write intent held |
| AuditLedger.Ledger.Conflict | src/core/action-registry.ts:584-586 | finds an active write that shares a resource, or with "*" on either side, if there is one |
| AuditLedger.Ledger.Record | src/core/action-registry.ts:628-654 | recording an end changes no charge |
| AuditLedger.Ledger.Settle | src/core/action-registry.ts:658-661 | settlement removes the intent and never raises the charge |
| AuditLedger.Ledger.LogIsCovered | src/core/action-registry.ts:580-582 | at any moment of any run the JSON of the audits is no larger than the charge |
| AuditLedger.Ledger.WritersAreDisjoint | src/core/action-registry.ts:583-590 | of two unsettled calls that write, neither writes "*", and no resource is in both lists |
| AuditLedger.Ledger.QuietMeansSettled | src/core/action-registry.ts:658-661 | when all calls have settled no intent is left and the charge is the settled sizes |
| IndexLedger.GivingKeepsOk | src/core/action-registry.ts:171-172 | giving back subtracts what was taken, and leaves every other reservation as it was |
| IndexLedger.TakingKeepsOk | src/core/action-registry.ts:168-169 | taking adds within the limits |
| IndexLedger.LessSums | src/core/action-registry.ts:171-172 | what goes and what stays add up to what was |
| RegistryState.Transferred | src/core/action-registry.ts:505-516 | a descriptor takes its admission's reservation over without a moment in which nobody owns it |
| RegistryState.OneHolder | src/core/action-registry.ts:163-173 | whatever is held is live and held by one holder only |
| RegistryState.LetGo | src/core/action-registry.ts:171-172 | what its holders let go of is in the running step's variables until it is given back |
| RegistryState.RecordHolds | src/core/action-registry.ts:298-303 | an index takes its entries' reservations over, each live and held by nobody else |
| RegistryState.CachesChanged | src/core/action-registry.ts:259-265 | a record that leaves the caches lets go of what it holds exactly if nobody uses or produces it |
| ActionRegistry.Registry.Give | src/core/action-registry.ts:171-172 | a release closure gives back its share once |
| ActionRegistry.Registry.Reserve | src/core/action-registry.ts:163-173 | the new reservation has the full share asked for and a new number, and is the last of what is live; everything else stays but what evicted records held, by which alone the counters fall; idle records give way until it fits, none if it fits at once; refused only when none is left and it does not fit |
| ActionRegistry.Registry.RemoveIdle | src/core/action-registry.ts:166 | an idle record goes with what it holds |
| ActionRegistry.Registry.Pump | src/core/action-registry.ts:174-209 | jobs leave the queue from the front, each to start under an admission of its own, with a reservation of the raw size, in one of two slots, until none waits, no slot is free, or a job does not fit with no idle index left to evict; only with none active is the queue cancelled, and then all of it |
| ActionRegistry.Registry.Start | src/core/action-registry.ts:188-207 | the first job runs under an admission that owns the raw reservation |
| ActionRegistry.Registry.CancelAt | src/core/action-registry.ts:186 | a job leaves the queue unstarted and its producer fails |
| ActionRegistry.Registry.CancelQueued | src/core/action-registry.ts:223-226 | a waiting record's job is cancelled, any other is left alone |
| ActionRegistry.Registry.Resize | src/core/action-registry.ts:192-195 | the raw reservation becomes one of exactly the returned size, with nothing evicted; as it is given back first this fails exactly when more was returned than it covers |
| ActionRegistry.Registry.BuildIndex | src/core/action-registry.ts:266-309 | the index holds its own reservation and one for each entry, of the size asked for, or nothing; it succeeds whenever there is room for the entries and the scratch of one at a time |
| ActionRegistry.Registry.Entry | src/core/action-registry.ts:277-290 | an entry's reservation has its size and was taken while its scratch one was held beside all that is live; the scratch one never outlives the step |
| ActionRegistry.Registry.BuildDescriptor | src/core/action-registry.ts:505-535 | the slot's reservation, resized to the weight and 4096 bytes, becomes the record's own, with room for the scratch beside it, or the producer fails; it succeeds whenever there is room |
| ActionRegistry.Registry.FinishAdmission | src/core/action-registry.ts:198-203 | the slot is freed, and its reservation goes unless that was transferred, and the queue moves on; producers fail only if then none is active, none waits and there is no room |
| ActionRegistry.Registry.ContinueLoad | src/core/action-registry.ts:320-330 | an index whose provider moved on is discarded and loaded once more, and then the load fails; after closing it fails at once |
| ActionRegistry.Registry.CompleteLoad | src/core/action-registry.ts:331-335 | the load's own reservation goes, a failed record leaves the cache, and what nobody wants is released |
| ActionRegistry.Registry.CompleteDescription | src/core/action-registry.ts:491-493 | likewise for a description, which is dropped unless someone waits for it |
| ActionRegistry.Registry.ReleaseIndex | src/core/action-registry.ts:259-265 | an unused record is cancelled while queued, and released when it failed, has no revision or is not the cached one |
| ActionRegistry.Registry.ReleaseDescription | src/core/action-registry.ts:474-479 | an unused description is cancelled while queued, and else released and dropped |
| ActionRegistry.Registry.TrimDiscovery | src/core/action-registry.ts:157-162 | at most 32 records stay, or only ones in use or under production |
| ActionRegistry.Registry.Acquire | src/core/action-registry.ts:310-337 | a query comes to use the provider's cached record if that is under production or has the provider's revision, and otherwise a new load with 1024 bytes and 16 nodes; refused only when closed or without room |
| ActionRegistry.Registry.Forget | src/core/action-registry.ts:316 | a record of another revision leaves the cache, and is released now or by its last user |
| ActionRegistry.Registry.BeginQuery | src/core/action-registry.ts:338-344 | a query holds its own reservation and uses one record of every provider, or none; an open registry refuses it only without room for its own reservation, one for each provider and two raw producers |
| ActionRegistry.Registry.Finish | src/core/action-registry.ts:345-360 | a query or description leaves all its records and its own reservation goes, however its wait ended; the clones of a result are made whenever there is room |
| ActionRegistry.Registry.Clone | src/core/action-registry.ts:352-353 | clones are made under a reservation of their size beside all that is live, which goes at once; refused only when no idle index is left and they do not fit |
| ActionRegistry.Registry.BeginDescription | src/core/action-registry.ts:480-494 | a description holds its own reservation and joins the record of its reference, or starts a load with another; it succeeds whenever there is room |
| ActionRegistry.Registry.Close | src/core/action-registry.ts:666-689 | nothing is admitted any more, and every waiting producer fails, unstarted |
| ActionRegistry.Registry.FinishClose | src/core/action-registry.ts:681-684 | no index stays cached; what is in use is left to its users |
| ActionRegistry.Registry.UsageIsTheSumOfWhatIsLive | src/core/action-registry.ts:150-173 | over every run the counters are the sums of the live reservations, within the index limits |
| ActionRegistry.Registry.WhatIsLiveIsHeld | src/core/action-registry.ts:150-265 | over every run the live reservations are exactly what is held, each by one holder and with its full size: a running producer's slot the raw one, a slot after its resize one of the returned size, a load its first one, a record all it holds while cached or used, a query or description its own |
| ActionRegistry.Registry.QueueIsServed | src/core/action-registry.ts:174-187 | an open registry never rests with queued producers and no active one; at most two are active |
| ActionRegistry.Registry.NothingLeaks | src/core/action-registry.ts:163-265 | when nothing is in flight only cached indexes hold anything, no description is kept, and with no index cached usage is zero |
| McpLease.RunKeepsInv | src/kiro/mcp-provider.ts:1531-1552 | what every schedule of calls, time-outs, cancellations and closes keeps |
| McpLease.StartsOnlyAfterQuiet | src/kiro/mcp-provider.ts:1539-1550 | no operation starts until the raw work and transport closes of every earlier one have settled |
| McpLease.OneLeaseIsActive | src/kiro/mcp-provider.ts:1544-1550 | while one lease has work or a close outstanding, every earlier one is quiet |
| McpLease.StartsFollowQueueOrder | src/kiro/mcp-provider.ts:1532-1539 | leases start in queue order |
| McpLease.WaiterIsServed | src/kiro/mcp-provider.ts:1544-1550 | no waiter is forgotten: once all earlier leases are back and quiet, the chain lets the next one start without a further call |
| McpLease.CloseSeesAllWork | src/kiro/mcp-provider.ts:1544-1550 | once the tail that close() saw has settled, all work up to it is quiet and no more begins |

## Left out

- JournalProtocol: durability after a loss of power is not modelled; a crash is that of the
  process, and what was renamed stays renamed.
- ProvenanceJournal.ValidateProvenanceJournal: the model starts from a journal-shaped value; the
  JSON text is represented by its size, and extra or missing properties by the shape.
- ProvenanceBridge.BridgeProvenance: hash mapping, timestamps and the files written per owner are
  not modelled.
- ActionRegistry.Registry.Pump: a job whose producer answers synchronously, as the description of
  an observed remote tool does, settles in a later step of the model instead of inside the pump.
- ActionRegistry.Registry.BeginQuery: the room named for a refused query counts nothing that eviction
  would free; that no idle index is left is stated for each record it asks for (Acquire).
- ActionRegistry.Registry.ReleaseIndex: what a step releases and then takes out of a cache is taken out
  first in the model; nothing can look in between.
- ActionRegistry.Registry.BuildIndex: the weights of descriptors and entries are arbitrary numbers;
  how they are computed from search fields and tokens is not modelled.
- AuditLedger.Ledger.Admit: the identifiers of calls are the order of admission; the initial charge
  is any number, and LogIsCovered speaks of budgets that start with no earlier audit.
- CatalogStore.Store.Publish: the JSON text and digest of a descriptor are given by an arbitrary
  rendering; the number each reservation closes over is kept in one set of active reservations.
- CatalogSizes.ChunkIsNeverRefused: lengths and times are taken to be safe integers and digests to have
  64 digits, as both sources of a digest give them.
- CatalogStore.Store.Authenticate: the MAC is represented by cursors that only carry a key if they
  were signed with it.
- LocalEdit.ApplyLocalEditsWithRegions: the engine's stable sort is modelled by an insertion sort
  that is proved to sort.
- LocalReview.MakeReview: the sections are kept as structured hunks with an arbitrary printed width;
  the wording around the numbers is not modelled.
- ReadMany.ReadManyWindows: files do not change between reads, and paths are already canonical.
- SearchPages.SearchCache.Finish: the second look at the cache size before a fresh collection is a
  refusal without a change of state and is not a step of its own.
- RankedActions.RankActions: limits are integers; NaN and infinite limits are not modelled.
- The artifact store, the result store, the scheduler, the session lifecycle, the execution
  service's counters and effect queue, source reading under short reads, call-context sampling,
  the info catalogue and the prefix and suffix projections are not modelled: they would repeat
  ledgers, queues and windows of the kinds proved here.
- The file system below lock, read, rename and unlink, child processes, worker threads, transports
  and timers are events or are left out; so are hash functions and the bodies of external packages.
