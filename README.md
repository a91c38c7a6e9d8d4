# Markdown-to-Notion sync: a Dafny model of its core

This project models the core of a GitHub Action that mirrors a directory of
markdown files into Notion pages. Each file is rendered into Notion blocks.
The sync service then reconciles those blocks with the blocks the page
already holds, issuing as few append and delete calls as its greedy
look-ahead allows, and aggregates a status over the whole run. The model
covers four parts:

- **Block normalizer** (`Normalizer`, over the JSON model in `Json`). It takes
  a deep copy of a block and strips the eight metadata properties (`id`,
  `created_time`, `created_by`, `last_edited_time`, `last_edited_by`,
  `parent`, `archived`, `object`) from the block and from its type payload,
  then recurses into `children`. JSON objects are ordered field lists in
  insertion order, the order `Object.entries` and `JSON.stringify` expose
  for keys that are not integer-like.
  `===` between two separately built values is `StrictEq`: primitives are
  compared by value, and objects and arrays are never equal.
- **Block comparator** (`Comparator`). `findBlockDifferences` is a function
  returning the list of differences, with one constructor per message kind.
  `compare` holds exactly when both types are truthy (present and non-empty)
  and strictly equal and that list is empty for the normalized blocks;
  `areBlocksIdentical` holds exactly when neither block is null (or
  otherwise falsy) and the list is empty.
- **Sync service** (`Sync`, with the proofs in `SyncProperties`).
  - `syncDestination` is the imperative method `Sync.SyncDestination`, with
    the same nested loops, cursor, anchor (`previousBlockId`) and pending
    queue. Remote calls are appended to a trace of `Call`s.
  - It is proved equal to a specification in two layers. `AlignPrefix` is
    the log of decisions (matched, deferred, dropped, trailing) that the
    loops take. `Replay` is the calls and state those decisions produce.
  - The comparator is a parameter (`Comparer`). `Sync.BlockComparator` is
    the real one.
  - `sync` and `getDestinationId` are methods of the class
    `Sync.SyncService`, whose field is the destination cache. Each is proved
    against a function: `SyncRun` and `GetOrCreate`.
- **Rate limiter** (`RateLimits`). It is a class with the source's fields,
  whose `Wait(now)` takes the clock reading as a parameter and returns the
  delay it sleeps. It is proved equal to the pure step function `Step`.

Points where the code behaves in ways its names or comments might not
suggest:

- Annotations are compared only for the keys of the first element's
  annotations; a key only the second element sets is never looked at
  (`Comparator.AnnotationsComparedOneWay`).
- The fallback after the inner scan (src/notion/sync.ts:123-125) can be
  reached: when every remaining existing block is deleted without a match,
  the rendered block is queued there
  (`SyncProperties.FallbackAppendsAfterDeletes`).
- The destination cache is keyed by title (src/notion/sync.ts:159-162),
  although the comment on its declaration (src/notion/sync.ts:13) says it
  maps paths.
- Appends go to `appendBlocks(previousBlockId, …)`. The parent passed is
  the last matched block, so a block rendered after a match is appended
  beneath that block rather than after it
  (`SyncProperties.AppendGoesUnderMatchedBlock`).

## Model

| member | source | states |
|---|---|---|
| Json.DeletedInTurnIsWithout | src/notion/blocks/normalizer.ts:28-30 | deleting the metadata keys one after another is removing that key set at once, keeping the order of the other fields |
| Normalizer.DeleteMetadata | src/notion/blocks/normalizer.ts:28-30 | the loop of `delete copy[prop]` leaves exactly the object without the eight metadata keys |
| Normalizer.Normalize | src/notion/blocks/normalizer.ts:23-47 | the recursive method returns exactly `Normalized(block)`, whose meaning the lemmas below state |
| Normalizer.NormalizeContent | src/notion/blocks/normalizer.ts:33-43 | the payload pass returns exactly `NormalizedContent(content)` |
| Normalizer.NormalizeAll | src/notion/blocks/normalizer.ts:41-43 | `children.map(normalize)`: same length, and child j of the result is child j normalized |
| Normalizer.NormalizedRoot | src/notion/blocks/normalizer.ts:23-30 | the result is an object with no metadata key at the root, and its content key (the value of `type`) is unchanged |
| Normalizer.NormalizedKeepsOtherKeys | src/notion/blocks/normalizer.ts:27-39 | every root key that is neither metadata nor the content key keeps its value |
| Normalizer.NormalizedWithoutPayload | src/notion/blocks/normalizer.ts:33 | when `copy[copy.type]` is not an object, only the root deletions happen |
| Normalizer.NormalizedPayload | src/notion/blocks/normalizer.ts:33-43 | when the payload is an object, the result's payload is the original payload normalized |
| Normalizer.NormalizedContentClean | src/notion/blocks/normalizer.ts:36-39 | the payload keeps no metadata key; every other key except `children` keeps its value |
| Normalizer.NormalizedContentChildren | src/notion/blocks/normalizer.ts:41-43 | a `children` array is replaced by its elements normalized one by one; anything else under `children` is left alone |
| Normalizer.NormalizedIsMetadataFree | src/notion/blocks/normalizer.ts:23-47 | the result holds no metadata key at the root, in the payload, or in any child, to any depth |
| Normalizer.MetadataFreeUnchanged | src/notion/blocks/normalizer.ts:23-47 | a block with no metadata anywhere comes back equal to itself |
| Normalizer.NormalizedIdempotent | src/notion/blocks/normalizer.ts:23-47 | normalizing twice gives the same as normalizing once |
| Comparator.Differences | src/notion/blocks/comparator.ts:63-96 | different types give exactly one type difference; tables of different widths give exactly one width difference |
| Comparator.AreBlocksIdentical | src/notion/blocks/comparator.ts:42-57 | a missing (falsy) block is never identical to anything, and identical blocks have the same type after normalization; `CompareMeansNoDifferences` gives the full condition |
| Comparator.Compare | src/notion/blocks/comparator.ts:27-37 | `compare` holds only when both types are truthy and strictly equal, and then the normalized blocks have the same type; `CompareMeansNoDifferences` gives the full condition |
| Comparator.CompareMeansNoDifferences | src/notion/blocks/comparator.ts:27-57 | `compare(m, n)` holds iff both types are truthy and strictly equal and the normalized blocks have no differences |
| Comparator.RichTextDifferences | src/notion/blocks/comparator.ts:98-104 | rich text is compared only when both sides have a truthy `rich_text`; lists of different lengths give exactly one length difference |
| Comparator.ElementDifferences | src/notion/blocks/comparator.ts:108-114 | elements of different types give exactly one type difference, and none of their other properties is compared |
| Comparator.RichTextDifferencesEmpty | src/notion/blocks/comparator.ts:98-155 | rich text agrees iff either side has none, or the lists have equal length and agree element by element |
| Comparator.ElementsEmpty | src/notion/blocks/comparator.ts:105-153 | the `forEach` over rich text reports nothing iff every element pair agrees |
| Comparator.ChildrenDifferences | src/notion/blocks/comparator.ts:179-188 | children are compared only when either side has truthy children; lists of different lengths (missing counts as empty) give exactly one length difference |
| Comparator.ChildrenInOrder | src/notion/blocks/comparator.ts:179-200 | for lists of equal length, the children's differences are those of each child pair, found under the extended path, joined in index order |
| Comparator.PairwiseConcat | src/notion/blocks/comparator.ts:189-198 | the `forEach` over the first `n` child pairs yields the concatenation of the pairs' differences in index order |
| Comparator.ChildrenDifferencesEmpty | src/notion/blocks/comparator.ts:179-200 | children agree iff the lists (missing means empty) have equal length and every pair agrees recursively |
| Comparator.PairwiseEmpty | src/notion/blocks/comparator.ts:189-198 | the recursive child comparisons report nothing iff each pair reports nothing |
| Comparator.DifferencesReflexive | src/notion/blocks/comparator.ts:63-203 | a block whose compared values are primitives with distinct annotation keys has no difference from itself |
| Comparator.AnnotationsReflexive | src/notion/blocks/comparator.ts:124-130 | annotations with distinct keys and primitive values agree with themselves |
| Comparator.BlockIdenticalToItself | src/notion/blocks/comparator.ts:42-57 | `areBlocksIdentical(b, b)` holds for such a block |
| Comparator.CompareReflexive | src/notion/blocks/comparator.ts:27-37 | `compare(b, b)` holds for such a block with a primitive type |
| Comparator.UncomparedPropertiesIgnored | src/notion/blocks/comparator.ts:108-152 | changing any rich text property other than type, plain_text, annotations, text or equation changes no difference |
| Comparator.SameComparedSameDifferences | src/notion/blocks/comparator.ts:108-152 | elements agreeing on every compared property yield the same differences |
| Comparator.ColorDefaultsToDefault | src/notion/blocks/comparator.ts:157-166 | a missing or falsy color equals an explicit `"default"`, in both argument orders |
| Comparator.IconAgreement | src/notion/blocks/comparator.ts:168-177 | icons agree iff both are falsy or they are equal values; a disagreement is exactly one icon difference, and agreement does not depend on the argument order |
| Comparator.MentionParagraphDifferences | src/notion/blocks/comparator.ts:116-152 | between two mention paragraphs exactly two things are compared: one `plain_text` difference iff the plain texts are not strictly equal, then the annotation differences; the mention targets play no part |
| Comparator.MentionTargetIgnored | src/notion/blocks/comparator.ts:148-151 | two mentions with the same primitive plain text differ only in their annotations, whatever their targets |
| Comparator.AnnotationsComparedOneWay | src/notion/blocks/comparator.ts:124-130 | annotations are read over the first element's keys only: no annotations against `bold: true` give no difference, and `bold: true` against none gives one |
| Sync.BlockComparatorMeans | src/notion/sync.ts:91-109 | the comparator both loops call (`this.comparator.compare`) holds exactly when the types match and the normalized blocks show no difference |
| Sync.ChunksPartition | src/notion/sync.ts:149-155 | every chunk holds between 1 and `size` blocks, and the chunks concatenate back to the input |
| Sync.ChunkBlocks | src/notion/sync.ts:149-155 | the loop returns exactly `Chunks(blocks, size)` |
| Sync.ScanBlock | src/notion/sync.ts:87-125 | handling one rendered block never moves the cursor back, nor past the end of the existing blocks |
| Sync.AlignPrefix | src/notion/sync.ts:76-126 | the cursor after the outer loop is within the existing blocks, and every decision names valid indices |
| Sync.HasLaterMatch | src/notion/sync.ts:108-110 | `found` holds iff some later rendered block compares equal to the existing block |
| Sync.FlushPending | src/notion/sync.ts:93-100 | issues exactly the chunked appends of the queue under the anchor |
| Sync.DeleteRemaining | src/notion/sync.ts:136-140 | deletes the existing blocks from the cursor to the end, in order |
| Sync.ReconcileBlock | src/notion/sync.ts:77-125 | the body of the outer loop takes exactly the decisions of `ScanBlock`, and its anchor, queue and calls are the replay of the extended log |
| Sync.SyncDestination | src/notion/sync.ts:69-144 | the calls issued are exactly `SyncTrace` (see `SyncProperties.SyncTraceCalls` for what that trace does) |
| Sync.SyncService.constructor | src/notion/sync.ts:13 | a new service starts with an empty destination cache |
| Sync.SyncService.GetDestinationId | src/notion/sync.ts:157-165 | a cached title returns its page and calls nothing; otherwise one `createPage` under the root, cached only when it returns |
| Sync.SyncService.Sync | src/notion/sync.ts:22-64 | result, new cache and `createPage` calls are exactly `SyncRun` of the old cache |
| SyncProperties.ScanBlockOrders | src/notion/sync.ts:87-125 | one rendered block is placed exactly once; the existing blocks consumed are exactly those from the old cursor to the new, in order |
| SyncProperties.ScanBlockExtends | src/notion/sync.ts:87-125 | the log only grows; every new decision but the last is a deletion; the last is a match, a deferral or the fallback |
| SyncProperties.ScanBlockJustified | src/notion/sync.ts:91-124 | every match compares equal; every deferral has a later equal rendered block; every deletion has none |
| SyncProperties.AlignOrders | src/notion/sync.ts:76-126 | every rendered block is placed once, in order, and each existing block before the cursor is consumed once, in order |
| SyncProperties.AlignJustified | src/notion/sync.ts:76-126 | every decision of the whole loop is justified by `compare` |
| SyncProperties.AlignBounds | src/notion/sync.ts:76-126 | decisions name only rendered blocks already handled and existing blocks before the cursor |
| SyncProperties.MatchesIncreasing | src/notion/sync.ts:76-126 | matches never cross: a later match pairs a later rendered block with a later existing block |
| SyncProperties.FlushAppendsQueue | src/notion/sync.ts:93-100 | a flush appends exactly the queued blocks, in order, in chunks of at most 100, all under the anchor, and deletes nothing |
| SyncProperties.ReplayAccounts | src/notion/sync.ts:76-126 | queued blocks are appended or still pending, in order; exactly the dropped blocks are deleted, in order; the anchor is the last match or the page |
| SyncProperties.DeletesDelete | src/notion/sync.ts:136-140 | the trailing deletions delete exactly the ids from the cursor to the end, and append nothing |
| SyncProperties.FlushedCalls | src/notion/sync.ts:128-134 | after the final flush every queued block is appended and exactly the dropped blocks are deleted |
| SyncProperties.SyncTraceCalls | src/notion/sync.ts:69-144 | the last call updates the title; before it come only chunked appends and deletes; the appended blocks are exactly the queued ones; the deleted ids are the dropped ones followed by every block from the cursor on |
| SyncProperties.InSyncAlignment | src/notion/sync.ts:87-105 | when each rendered block matches the existing block at its position, every decision is a match and no call is issued |
| SyncProperties.InSyncOnlyUpdatesTitle | src/notion/sync.ts:69-144 | a page already in sync receives only the title update |
| SyncProperties.EmptyPageAlignment | src/notion/sync.ts:80-84 | on an empty page every rendered block is queued and nothing else happens |
| SyncProperties.EmptyPageAppendsAll | src/notion/sync.ts:80-143 | an empty page receives all rendered blocks, chunked, under the page, then the title update |
| SyncProperties.NoBlocksDeletesAll | src/notion/sync.ts:136-143 | an empty rendering deletes every existing block in order, then updates the title |
| SyncProperties.AppendGoesUnderMatchedBlock | src/notion/sync.ts:97-101 | rendering `[a, b]` over a page holding `[a]` appends `b` with parent `a`'s id |
| SyncProperties.DropThenTrail | src/notion/sync.ts:112-125 | a single unmatched existing block is dropped, and then the fallback queues the rendered block |
| SyncProperties.FallbackAppendsAfterDeletes | src/notion/sync.ts:123-125 | the fallback is reachable: the rendered block is appended under the page after the unmatched block is deleted |
| SyncProperties.ProcessFilesAccounts | src/notion/sync.ts:41-53 | the file loop never fails the run; each file adds one updated page or one error, in order; the status turns partial iff an error was added |
| SyncProperties.RunFailedIff | src/notion/sync.ts:29-61 | the run fails iff discovery or the root document fails; then there is one error, no updated page, and the cache is unchanged |
| SyncProperties.RunPartialIff | src/notion/sync.ts:22-63 | otherwise the status is partial iff errors were recorded and success iff none; updated pages plus errors count the files plus the root; the root page is updated first |
| SyncProperties.ProcessFilesCache | src/notion/sync.ts:41-53 | cached ids never change; each creation is under the root for a new title; every updated page is a cached id |
| SyncProperties.CreatePageOncePerTitle | src/notion/sync.ts:157-165 | when no creation throws, a run creates at most one page per title, always under the root, and never for a title already cached |
| RateLimits.RateLimiter.constructor | src/notion/api/rate-limiter.ts:5-13 | the defaults are 3 requests per 1000 ms, and the window starts at time 0 with count 0 |
| RateLimits.RateLimiter.Wait | src/notion/api/rate-limiter.ts:15-35 | the delay and the new window are exactly `Step` of the old window at time `now` |
| RateLimits.WaitCountBound | src/notion/api/rate-limiter.ts:15-35 | after a call the count is at most the maximum (at least 1) |
| RateLimits.WaitDelay | src/notion/api/rate-limiter.ts:26-32 | a call waits iff the window is still open and its budget spent; the wait is never negative and is at most the interval; after it the window restarts at its end with count 1 |
| RateLimits.InWindowUndelayed | src/notion/api/rate-limiter.ts:26-34 | calls inside an open window with budget left are never delayed |
| RateLimits.InWindowCounts | src/notion/api/rate-limiter.ts:34 | each such call adds one to the count |
| RateLimits.InWindowDelayed | src/notion/api/rate-limiter.ts:27-32 | a call inside a window whose budget is spent is delayed |
| RateLimits.InWindowDelayedAfter | src/notion/api/rate-limiter.ts:27-32 | after `max` counted calls in a window, the next call in it is delayed |
| RateLimits.BurstOfMaxPlusOne | src/notion/api/rate-limiter.ts:20-34 | as written: the call that opens a window plus `max` more pass undelayed, and only the next is delayed |
| RateLimits.CountedInWindow | src/notion/api/rate-limiter.ts:15-35 | with the opening call counted, calls within the budget are not delayed |
| RateLimits.CountedInWindowThenDelayed | src/notion/api/rate-limiter.ts:15-35 | with the opening call counted, the call that exceeds the budget is delayed |
| RateLimits.CountedBurst | src/notion/api/rate-limiter.ts:15-35 | with the opening call counted, exactly `max` calls pass per window and the next is delayed |
| RateLimits.ClientBudget | src/notion/api/client.ts:19 | as configured (334 per 1000 ms), 335 calls within one second pass undelayed |
| RateLimits.IntendedClientBudget | src/notion/api/client.ts:19 | about three per second (3 per 1000 ms, opening call counted): 3 calls pass and the 4th is delayed |

## Left out

- Network, file system and markdown rendering are not modelled. Remote calls are recorded as `Call` values; fetching the existing blocks, reading files, discovering the directory and converting markdown to blocks are inputs (`existing`, `Discovery`, `FileRun`).
- Logging through `core.info` and `core.error` is left out. The error messages are modelled only for the two texts the result carries, `FileError` and `RunError`.
- Sync.SyncService.Sync: its trace holds only the `createPage` calls. The calls of each `syncDestination` are described separately by `Sync.SyncDestination`, and a file's reconciliation is an input (`syncError`).
- Sync.SyncDestination: an exception thrown by a remote call midway through is not modelled. Every call is assumed to return; a failing file appears at run level only as `syncError`.
- Sync.SyncDestination: this is a module-level method that takes the comparator as a parameter, rather than a member that reads `this.comparator`. The `Comparable` precondition stands in for the TypeScript typing of the blocks.
- Comparator: the comparison is defined for `Shaped` blocks (a string `type`, an object payload, arrays for `rich_text` and `children`, annotations on every rich text element). Inputs that would raise a `TypeError` in the source are excluded by this precondition rather than modelled as exceptions.
- Comparator: the "One block is null" branch for a null child is not modelled, because children are always objects in this model.
- Comparator.DifferencesReflexive and the reflexivity lemmas that follow it cover only blocks whose compared values are primitives. Two deep copies of an object value are never `===` in the source, so a block with, say, an object-valued `plain_text` differs from itself.
- The text of each difference message is not modelled. A difference is a constructor carrying its path.
- Sync.BlockId: a block without a string `id` maps to the empty string. The API always supplies an id.
- Json: duplicate keys in one object are not produced by `JSON.parse`. `Lookup` takes the first occurrence.
- Json: an object keeps its fields in insertion order. JavaScript lists integer-like keys first, in ascending order, in `Object.entries` and `JSON.stringify`; the model does not. Numbers are integers (`JNum(int)`), so fractional numbers are not modelled. Neither matters for the Notion fields compared.
- Normalizer.Normalized: a non-object value, `null` included, comes back unchanged, while `normalize(null)` throws at the first `delete`. A `type` that is truthy but not a string gives no payload pass in the model, while the source would read the payload under that value turned into a string. The block types exclude both cases.
- RateLimits.RateLimiter.Wait: `setTimeout` may oversleep, and the source then reads `Date.now()` again. The model assumes the sleep lasts exactly the delay, so the new window starts at `now + delay`. Clock values are parameters.
- Sync.PageId: page ids returned by `createPage` are non-empty. That makes `!destinationId` the same as "title not cached".
- SyncProperties.CreatePageOncePerTitle assumes no `createPage` throws. After a throw the title stays uncached, so a later file with the same title tries again; `ProcessFilesAccounts` and `RunPartialIff` still cover that case.
- The run's readme handling is modelled as one success or one failure (`readmeError`). Whether that failure came from rendering or from reconciliation is not distinguished.

## Findings

| source | as written | input that shows it | evidently intended | confidence | as-written member | corrected member |
|---|---|---|---|---|---|---|
| src/notion/api/rate-limiter.ts:20-24 | the call that opens a new window returns before `requestCount++`, so it is not counted | limiter (3, 1000): a call at time 1000 after a fresh start, then 3 more before 2000, all pass undelayed (4 calls in one interval) | at most `maxRequestsPerInterval` calls pass per interval | not executed | RateLimits.BurstOfMaxPlusOne | RateLimits.CountedBurst |
| src/notion/api/client.ts:19 | `new RateLimiter(334)` sets a budget of 334 requests per 1000 ms (335 with the uncounted opening call) | 336 calls within one second: the first 335 pass undelayed | about three requests per second, as the comment on the line says | not executed | RateLimits.ClientBudget | RateLimits.IntendedClientBudget |

The class `RateLimits.RateLimiter` models the code as written. `StepCounted`
is the corrected step: it counts the opening call, and the corrected lemmas
are proved about it.
