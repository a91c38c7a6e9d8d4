/** SyncService (src/notion/sync.ts): reconciles the blocks rendered from a
    markdown file with the blocks a Notion page already holds, and aggregates
    the outcome of a whole run. Remote calls are recorded as a trace. */
module Sync {
  import opened Json
  import opened Normalizer
  import opened Comparator

  /** A remote call, in the order the service issues it. */
  datatype Call =
    | Append(parent: string, children: seq<JValue>)
    | Delete(id: string)
    | UpdatePage(page: string, title: string)
    | CreatePage(parent: string, title: string)

  /** The default chunk size of `chunkBlocks`. */
  const ChunkSize: nat := 100

  /** `blocks` cut into consecutive slices of `size` blocks, the last one shorter. */
  function Chunks(blocks: seq<JValue>, size: nat): seq<seq<JValue>>
    requires size > 0
    decreases |blocks|
  {
    if blocks == [] then []
    else if |blocks| <= size then [blocks]
    else [blocks[..size]] + Chunks(blocks[size..], size)
  }

  function Flatten(chunks: seq<seq<JValue>>): seq<JValue> {
    if chunks == [] then [] else chunks[0] + Flatten(chunks[1..])
  }

  lemma {:induction false} FlattenAppend(a: seq<seq<JValue>>, b: seq<seq<JValue>>)
    ensures Flatten(a + b) == Flatten(a) + Flatten(b)
  {
    if a != [] {
      assert (a + b)[0] == a[0];
      assert (a + b)[1..] == a[1..] + b;
      FlattenAppend(a[1..], b);
      calc {
        Flatten(a + b);
        a[0] + Flatten(a[1..] + b);
        a[0] + (Flatten(a[1..]) + Flatten(b));
        (a[0] + Flatten(a[1..])) + Flatten(b);
      }
    } else {
      assert a + b == b;
    }
  }

  /** Every chunk holds between 1 and `size` blocks, and the chunks put back
      together are the input. */
  lemma {:induction false} ChunksPartition(blocks: seq<JValue>, size: nat)
    requires size > 0
    ensures forall k | 0 <= k < |Chunks(blocks, size)| :: 0 < |Chunks(blocks, size)[k]| <= size
    ensures Flatten(Chunks(blocks, size)) == blocks
    decreases |blocks|
  {
    if |blocks| > size {
      ChunksPartition(blocks[size..], size);
      FlattenAppend([blocks[..size]], Chunks(blocks[size..], size));
      assert blocks[..size] + blocks[size..] == blocks;
    }
  }

  function Min(a: int, b: int): int {
    if a < b then a else b
  }

  /** The first chunk, then the chunks of the rest. */
  lemma ChunksStep(blocks: seq<JValue>, size: nat)
    requires size > 0 && blocks != []
    ensures Chunks(blocks, size) == [blocks[..Min(size, |blocks|)]] + Chunks(blocks[Min(size, |blocks|)..], size)
  {
    if |blocks| <= size {
      assert blocks[..|blocks|] == blocks;
      assert blocks[|blocks|..] == [];
    }
  }

  /** `chunkBlocks(blocks, size)` */
  method ChunkBlocks(blocks: seq<JValue>, size: nat) returns (chunks: seq<seq<JValue>>)
    requires size > 0
    ensures chunks == Chunks(blocks, size)
  {
    chunks := [];
    var i := 0;
    while i < |blocks|
      invariant chunks + Chunks(blocks[Min(i, |blocks|)..], size) == Chunks(blocks, size)
      decreases |blocks| - i
    {
      var end := Min(i + size, |blocks|);
      ChunksAt(blocks, size, i);
      chunks := chunks + [blocks[i..end]];
      i := i + size;
      assert Min(i, |blocks|) == end;
    }
  }

  /** The chunks from index `i` on: the chunk starting there, then the rest. */
  lemma ChunksAt(blocks: seq<JValue>, size: nat, i: nat)
    requires size > 0 && i < |blocks|
    ensures Chunks(blocks[i..], size) == [blocks[i..Min(i + size, |blocks|)]] + Chunks(blocks[Min(i + size, |blocks|)..], size)
  {
    var end := Min(i + size, |blocks|);
    ChunksStep(blocks[i..], size);
    assert blocks[i..][..end - i] == blocks[i..end];
    assert blocks[i..][end - i..] == blocks[end..];
  }

  // ---------------------------------------------------------------------------
  // The alignment decided by syncDestination's loops

  /** The comparator `compare(martianBlock, notionBlock)` the service was
      built with; the service is given it, so it is a parameter here. */
  type Comparer = (JValue, JValue) --> bool

  /** The comparator injected into a real service. */
  const BlockComparator: Comparer := (m, n) requires CanCompare(m, n) => Compare(m, n)

  /** The injected comparator holds exactly when the types match and the
      normalized blocks show no difference. */
  lemma BlockComparatorMeans(m: JValue, n: JValue)
    requires CanCompare(m, n)
    ensures BlockComparator.requires(m, n)
    ensures BlockComparator(m, n) <==> TypesMatch(m, n) && Differences(Normalized(m), Normalized(n), []) == []
  {
    CompareMeansNoDifferences(m, n);
  }

  /** Every rendered block can be compared with every existing block. */
  ghost predicate Comparable(same: Comparer, blocks: seq<JValue>, existing: seq<JValue>) {
    forall i, j | 0 <= i < |blocks| && 0 <= j < |existing| :: same.requires(blocks[i], existing[j])
  }

  /** One decision of the reconciliation loop.
      Matched: rendered block `md` is identical to existing block `at`.
      Deferred: rendered block `md` is queued because existing block `at` matches a later rendered block.
      Dropped: existing block `at` is deleted while rendered block `md` is looked at.
      Trailing: rendered block `md` is queued because no existing block is left. */
  datatype Event =
    | Matched(md: nat, at: nat)
    | Deferred(md: nat, at: nat)
    | Dropped(md: nat, at: nat)
    | Trailing(md: nat)

  /** The rendered and existing indices an event names are in range. */
  predicate InRange(e: Event, rendered: nat, present: nat) {
    e.md < rendered && (!e.Trailing? ==> e.at < present)
  }

  predicate LogInRange(log: seq<Event>, rendered: nat, present: nat) {
    forall k | 0 <= k < |log| :: InRange(log[k], rendered, present)
  }

  /** The decisions so far and the cursor `currentNotionIndex`. */
  datatype Alignment = Alignment(log: seq<Event>, cursor: nat)

  /** `blocks.slice(i + 1).some(later => compare(later, n))` */
  predicate LaterMatch(same: Comparer, blocks: seq<JValue>, i: nat, n: JValue)
    requires forall k | i < k < |blocks| :: same.requires(blocks[k], n)
  {
    exists k | i < k < |blocks| :: same(blocks[k], n)
  }

  /** What happens to rendered block `i`, starting from alignment `a`: the
      inner `while` loop and the fallback after it. */
  function ScanBlock(same: Comparer, blocks: seq<JValue>, existing: seq<JValue>, i: nat, a: Alignment): (r: Alignment)
    requires Comparable(same, blocks, existing)
    requires i < |blocks| && a.cursor <= |existing|
    requires LogInRange(a.log, |blocks|, |existing|)
    ensures a.cursor <= r.cursor <= |existing|
    ensures LogInRange(r.log, |blocks|, |existing|)
    decreases |existing| - a.cursor
  {
    if a.cursor >= |existing| then Alignment(a.log + [Trailing(i)], a.cursor)
    else
      var n := existing[a.cursor];
      if same(blocks[i], n) then Alignment(a.log + [Matched(i, a.cursor)], a.cursor + 1)
      else if LaterMatch(same, blocks, i, n) then Alignment(a.log + [Deferred(i, a.cursor)], a.cursor)
      else ScanBlock(same, blocks, existing, i, Alignment(a.log + [Dropped(i, a.cursor)], a.cursor + 1))
  }

  /** The alignment after the outer loop has handled the first `n` rendered blocks. */
  function AlignPrefix(same: Comparer, blocks: seq<JValue>, existing: seq<JValue>, n: nat): (r: Alignment)
    requires Comparable(same, blocks, existing)
    requires n <= |blocks|
    ensures r.cursor <= |existing|
    ensures LogInRange(r.log, |blocks|, |existing|)
  {
    if n == 0 then Alignment([], 0)
    else ScanBlock(same, blocks, existing, n - 1, AlignPrefix(same, blocks, existing, n - 1))
  }

  /** The `some` scan for a later rendered block identical to `notionBlock`. */
  method HasLaterMatch(same: Comparer, blocks: seq<JValue>, mdIndex: nat, notionBlock: JValue) returns (found: bool)
    requires forall k | mdIndex < k < |blocks| :: same.requires(blocks[k], notionBlock)
    ensures found == LaterMatch(same, blocks, mdIndex, notionBlock)
  {
    found := false;
    var k := mdIndex + 1;
    while k < |blocks| && !found
      invariant mdIndex + 1 <= k
      invariant found ==> mdIndex < k - 1 < |blocks| && same(blocks[k - 1], notionBlock)
      invariant !found ==> forall j | mdIndex < j < k && j < |blocks| :: !same(blocks[j], notionBlock)
    {
      found := same(blocks[k], notionBlock);
      k := k + 1;
    }
  }

  // ---------------------------------------------------------------------------
  // The remote calls those decisions issue

  /** `notionBlock.id` (empty when the block carries no string id, which a
      block returned by the API always does). */
  function BlockId(b: JValue): string {
    if b.JObject? && Lookup(b.fields, "id").Some? && Lookup(b.fields, "id").value.JString?
    then Lookup(b.fields, "id").value.s
    else ""
  }

  /** One `appendBlocks(parent, chunk)` per chunk, in order. */
  function AppendCalls(parent: string, chunks: seq<seq<JValue>>): seq<Call>
    decreases |chunks|
  {
    if chunks == [] then []
    else AppendCalls(parent, chunks[..|chunks| - 1]) + [Append(parent, chunks[|chunks| - 1])]
  }

  /** Flushing `pendingAppends` under `previousBlockId`. */
  function FlushCalls(anchor: string, pending: seq<JValue>): seq<Call> {
    AppendCalls(anchor, Chunks(pending, ChunkSize))
  }

  /** The service state a run of decisions leaves behind: the anchor
      `previousBlockId`, the `pendingAppends` queue and the calls issued. */
  datatype Effects = Effects(anchor: string, pending: seq<JValue>, calls: seq<Call>)

  /** The effect of one decision: a match flushes the queue under the old
      anchor and becomes the new anchor; a queued block joins the queue; a
      dropped block is deleted. */
  function Apply(blocks: seq<JValue>, existing: seq<JValue>, e: Effects, ev: Event): Effects
    requires InRange(ev, |blocks|, |existing|)
  {
    match ev
    case Matched(_, at) =>
      Effects(BlockId(existing[at]), [], if e.pending == [] then e.calls else e.calls + FlushCalls(e.anchor, e.pending))
    case Deferred(md, _) => Effects(e.anchor, e.pending + [blocks[md]], e.calls)
    case Trailing(md) => Effects(e.anchor, e.pending + [blocks[md]], e.calls)
    case Dropped(_, at) => Effects(e.anchor, e.pending, e.calls + [Delete(BlockId(existing[at]))])
  }

  /** The effects of a run of decisions, starting with the destination page as anchor. */
  function Replay(destination: string, blocks: seq<JValue>, existing: seq<JValue>, log: seq<Event>): Effects
    requires LogInRange(log, |blocks|, |existing|)
    decreases |log|
  {
    if log == [] then Effects(destination, [], [])
    else Apply(blocks, existing, Replay(destination, blocks, existing, log[..|log| - 1]), log[|log| - 1])
  }

  lemma ReplayAppend(destination: string, blocks: seq<JValue>, existing: seq<JValue>, log: seq<Event>, ev: Event)
    requires LogInRange(log, |blocks|, |existing|) && InRange(ev, |blocks|, |existing|)
    ensures LogInRange(log + [ev], |blocks|, |existing|)
    ensures Replay(destination, blocks, existing, log + [ev]) == Apply(blocks, existing, Replay(destination, blocks, existing, log), ev)
  {
    assert (log + [ev])[..|log|] == log;
  }

  /** `deleteBlock` for the existing blocks `lo` up to `hi`, in order. */
  function Deletes(existing: seq<JValue>, lo: nat, hi: nat): seq<Call>
    requires lo <= hi <= |existing|
    decreases hi
  {
    if hi == lo then [] else Deletes(existing, lo, hi - 1) + [Delete(BlockId(existing[hi - 1]))]
  }

  /** The calls `syncDestination(destination, title, blocks)` issues against
      a page holding `existing`: the calls of the loop, the final flush under
      the last anchor, the deletion of every existing block the cursor did not
      reach, and the title update. */
  function SyncTrace(same: Comparer, destination: string, title: string, blocks: seq<JValue>, existing: seq<JValue>): seq<Call>
    requires Comparable(same, blocks, existing)
  {
    var a := AlignPrefix(same, blocks, existing, |blocks|);
    var e := Replay(destination, blocks, existing, a.log);
    (if e.pending == [] then e.calls else e.calls + FlushCalls(e.anchor, e.pending))
    + Deletes(existing, a.cursor, |existing|)
    + [UpdatePage(destination, title)]
  }

  /** The flush of `pendingAppends`: chunked, each chunk appended under the anchor. */
  method FlushPending(anchor: string, pending: seq<JValue>) returns (calls: seq<Call>)
    ensures calls == FlushCalls(anchor, pending)
  {
    var chunks := ChunkBlocks(pending, ChunkSize);
    calls := [];
    for k := 0 to |chunks|
      invariant calls == AppendCalls(anchor, chunks[..k])
    {
      assert chunks[..k + 1][..k] == chunks[..k];
      calls := calls + [Append(anchor, chunks[k])];
    }
    assert chunks[..|chunks|] == chunks;
  }

  /** The loop deleting every existing block from the cursor on. */
  method DeleteRemaining(existing: seq<JValue>, cursor: nat) returns (calls: seq<Call>)
    requires cursor <= |existing|
    ensures calls == Deletes(existing, cursor, |existing|)
  {
    calls := [];
    var currentNotionIndex := cursor;
    while currentNotionIndex < |existing|
      invariant cursor <= currentNotionIndex <= |existing|
      invariant calls == Deletes(existing, cursor, currentNotionIndex)
    {
      calls := calls + [Delete(BlockId(existing[currentNotionIndex]))];
      currentNotionIndex := currentNotionIndex + 1;
    }
  }

  /** The body of the outer loop for rendered block `mdIndex`: finds it a
      match at the cursor, deletes existing blocks no later rendered block
      matches, or queues it. */
  method ReconcileBlock(same: Comparer, destination: string, blocks: seq<JValue>, existing: seq<JValue>,
                        mdIndex: nat, ghost log: seq<Event>, cursor: nat, anchor: string,
                        pending: seq<JValue>, calls: seq<Call>)
    returns (ghost log': seq<Event>, cursor': nat, anchor': string, pending': seq<JValue>, calls': seq<Call>)
    requires Comparable(same, blocks, existing)
    requires mdIndex < |blocks| && cursor <= |existing| && LogInRange(log, |blocks|, |existing|)
    requires Effects(anchor, pending, calls) == Replay(destination, blocks, existing, log)
    ensures Alignment(log', cursor') == ScanBlock(same, blocks, existing, mdIndex, Alignment(log, cursor))
    ensures LogInRange(log', |blocks|, |existing|)
    ensures Effects(anchor', pending', calls') == Replay(destination, blocks, existing, log')
  {
    log', cursor', anchor', pending', calls' := log, cursor, anchor, pending, calls;
    var markdownBlock := blocks[mdIndex];
    var blockMatched := false;

    if cursor' >= |existing| {
      ReplayAppend(destination, blocks, existing, log', Trailing(mdIndex));
      pending' := pending' + [markdownBlock];
      log' := log' + [Trailing(mdIndex)];
      return;
    }

    while cursor' < |existing| && !blockMatched
      invariant cursor' <= |existing| && !blockMatched
      invariant LogInRange(log', |blocks|, |existing|)
      invariant ScanBlock(same, blocks, existing, mdIndex, Alignment(log', cursor'))
             == ScanBlock(same, blocks, existing, mdIndex, Alignment(log, cursor))
      invariant Effects(anchor', pending', calls') == Replay(destination, blocks, existing, log')
      decreases |existing| - cursor'
    {
      var notionBlock := existing[cursor'];
      if same(markdownBlock, notionBlock) {
        ReplayAppend(destination, blocks, existing, log', Matched(mdIndex, cursor'));
        if |pending'| > 0 {
          var flushed := FlushPending(anchor', pending');
          calls' := calls' + flushed;
          pending' := [];
        }
        log' := log' + [Matched(mdIndex, cursor')];
        anchor' := BlockId(notionBlock);
        cursor' := cursor' + 1;
        blockMatched := true;
        break;
      }

      var hasLaterMatch := HasLaterMatch(same, blocks, mdIndex, notionBlock);
      if !hasLaterMatch {
        ReplayAppend(destination, blocks, existing, log', Dropped(mdIndex, cursor'));
        calls' := calls' + [Delete(BlockId(notionBlock))];
        log' := log' + [Dropped(mdIndex, cursor')];
        cursor' := cursor' + 1;
      } else {
        ReplayAppend(destination, blocks, existing, log', Deferred(mdIndex, cursor'));
        pending' := pending' + [markdownBlock];
        log' := log' + [Deferred(mdIndex, cursor')];
        break;
      }
    }

    if !blockMatched && cursor' >= |existing| {
      ReplayAppend(destination, blocks, existing, log', Trailing(mdIndex));
      pending' := pending' + [markdownBlock];
      log' := log' + [Trailing(mdIndex)];
    }
  }

  /** `syncDestination(destinationId, title, blocks)` against a page whose
      children are `existing`. */
  method SyncDestination(same: Comparer, destination: string, title: string, blocks: seq<JValue>, existing: seq<JValue>)
    returns (calls: seq<Call>)
    requires Comparable(same, blocks, existing)
    ensures calls == SyncTrace(same, destination, title, blocks, existing)
  {
    calls := [];
    var currentNotionIndex: nat := 0;
    var previousBlockId := destination;
    var pendingAppends: seq<JValue> := [];
    ghost var log: seq<Event> := [];

    for mdIndex := 0 to |blocks|
      invariant currentNotionIndex <= |existing|
      invariant Alignment(log, currentNotionIndex) == AlignPrefix(same, blocks, existing, mdIndex)
      invariant LogInRange(log, |blocks|, |existing|)
      invariant Effects(previousBlockId, pendingAppends, calls) == Replay(destination, blocks, existing, log)
    {
      log, currentNotionIndex, previousBlockId, pendingAppends, calls :=
        ReconcileBlock(same, destination, blocks, existing, mdIndex, log, currentNotionIndex,
                       previousBlockId, pendingAppends, calls);
    }

    if |pendingAppends| > 0 {
      var flushed := FlushPending(previousBlockId, pendingAppends);
      calls := calls + flushed;
    }

    var deletes := DeleteRemaining(existing, currentNotionIndex);
    calls := calls + deletes + [UpdatePage(destination, title)];
  }

  // ---------------------------------------------------------------------------
  // The service: the destination cache and the aggregation of a run

  /** A page id `createPage` hands out: never empty, so a cached id is truthy. */
  type PageId = s: string | s != "" witness "page"

  /** What a step that may throw comes to: its value, or the error it threw. */
  datatype Outcome<T> = Done(value: T) | Threw(error: string)

  /** A markdown file found under the source directory, with the title derived from its path. */
  datatype Markdown = Markdown(path: string, title: string)

  /** How one file's processing goes, decided outside the service: whether
      rendering it throws, the id `createPage` would return or the error it
      would throw, and whether `syncDestination` throws. */
  datatype FileRun = FileRun(file: Markdown, readError: Option<string>, created: Outcome<PageId>, syncError: Option<string>)

  /** What `processDirectory` and the readme's processing come to. */
  datatype Discovery =
    | DirectoryFailed(error: string)
    | Discovered(readme: Option<Markdown>, readmeError: Option<string>, files: seq<FileRun>)

  datatype Status = Success | Partial | Failed

  /** `SyncResult` (src/types/notion.ts) */
  datatype SyncResult = SyncResult(status: Status, updatedPages: seq<string>, errors: seq<string>)

  /** A destination lookup: the page id or the error, the cache after it, and the calls it issued. */
  datatype Destination = Destination(id: Outcome<PageId>, cache: map<string, PageId>, calls: seq<Call>)

  /** `getDestinationId(config, title)` against `cache`: a cached title
      returns its page; otherwise a page is created under the root and cached,
      unless `createPage` throws. */
  function GetOrCreate(cache: map<string, PageId>, root: string, title: string, created: Outcome<PageId>): Destination {
    if title in cache then Destination(Done(cache[title]), cache, [])
    else match created
      case Done(id) => Destination(Done(id), cache[title := id], [CreatePage(root, title)])
      case Threw(e) => Destination(Threw(e), cache, [CreatePage(root, title)])
  }

  /** The text `sync` records for a file that failed. */
  function FileError(path: string, error: string): string {
    "Failed to process " + path + ": " + error
  }

  /** The text `sync` returns when the run as a whole failed. */
  function RunError(error: string): string {
    "Sync failed: " + error
  }

  /** The state `sync` accumulates over the files. */
  datatype RunState = RunState(status: Status, updated: seq<string>, errors: seq<string>, cache: map<string, PageId>, calls: seq<Call>)

  /** The body of the loop over the files, for one file. */
  function FileStep(root: string, s: RunState, run: FileRun): RunState {
    if run.readError.Some? then RunState(Partial, s.updated, s.errors + [FileError(run.file.path, run.readError.value)], s.cache, s.calls)
    else
      var l := GetOrCreate(s.cache, root, run.file.title, run.created);
      match l.id
      case Threw(e) => RunState(Partial, s.updated, s.errors + [FileError(run.file.path, e)], l.cache, s.calls + l.calls)
      case Done(id) =>
        if run.syncError.Some? then RunState(Partial, s.updated, s.errors + [FileError(run.file.path, run.syncError.value)], l.cache, s.calls + l.calls)
        else RunState(s.status, s.updated + [id], s.errors, l.cache, s.calls + l.calls)
  }

  /** The loop over the files. */
  function ProcessFiles(root: string, s: RunState, runs: seq<FileRun>): RunState
    decreases |runs|
  {
    if runs == [] then s
    else FileStep(root, ProcessFiles(root, s, runs[..|runs| - 1]), runs[|runs| - 1])
  }

  /** What `sync` returns, with the cache it leaves and the `createPage` calls it issued. */
  datatype SyncOutcome = SyncOutcome(result: SyncResult, cache: map<string, PageId>, calls: seq<Call>)

  /** `sync(config)` with root page `root` and a cache `cache`. */
  function SyncRun(root: string, cache: map<string, PageId>, d: Discovery): SyncOutcome {
    match d
    case DirectoryFailed(e) => SyncOutcome(SyncResult(Failed, [], [RunError(e)]), cache, [])
    case Discovered(readme, readmeError, runs) =>
      if readme.Some? && readmeError.Some? then SyncOutcome(SyncResult(Failed, [], [RunError(readmeError.value)]), cache, [])
      else
        var s := ProcessFiles(root, RunState(Success, if readme.Some? then [root] else [], [], cache, []), runs);
        SyncOutcome(SyncResult(s.status, s.updated, s.errors), s.cache, s.calls)
  }

  lemma ProcessFilesAppend(root: string, s: RunState, runs: seq<FileRun>, run: FileRun)
    ensures ProcessFiles(root, s, runs + [run]) == FileStep(root, ProcessFiles(root, s, runs), run)
  {
    assert (runs + [run])[..|runs|] == runs;
  }

  /** `SyncService`: its only state is the destination cache, title to page id. */
  class SyncService {
    var destinationCache: map<string, PageId>

    constructor()
      ensures destinationCache == map[]
    {
      destinationCache := map[];
    }

    /** `getDestinationId(config, title)`; `created` is what `createPage` would come to. */
    method GetDestinationId(root: string, title: string, created: Outcome<PageId>) returns (id: Outcome<PageId>, calls: seq<Call>)
      modifies this
      ensures Destination(id, destinationCache, calls) == GetOrCreate(old(destinationCache), root, title, created)
    {
      calls := [];
      var cached := if title in destinationCache then Some(destinationCache[title]) else None;
      if cached.None? {
        calls := [CreatePage(root, title)];
        if created.Threw? {
          return Threw(created.error), calls;
        }
        destinationCache := destinationCache[title := created.value];
        return Done(created.value), calls;
      }
      id := Done(cached.value);
    }

    /** `sync(config)` with root page `root`: the readme to the root page,
        then each file to its own page, collecting successes and failures. */
    method Sync(root: string, d: Discovery) returns (result: SyncResult, calls: seq<Call>)
      modifies this
      ensures SyncOutcome(result, destinationCache, calls) == SyncRun(root, old(destinationCache), d)
    {
      result := SyncResult(Success, [], []);
      calls := [];
      if d.DirectoryFailed? {
        return SyncResult(Failed, result.updatedPages, [RunError(d.error)]), calls;
      }
      if d.readme.Some? {
        if d.readmeError.Some? {
          return SyncResult(Failed, result.updatedPages, [RunError(d.readmeError.value)]), calls;
        }
        result := result.(updatedPages := result.updatedPages + [root]);
      }
      ghost var start := RunState(Success, result.updatedPages, [], destinationCache, []);
      assert start == RunState(Success, if d.readme.Some? then [root] else [], [], old(destinationCache), []);
      for i := 0 to |d.files|
        invariant RunState(result.status, result.updatedPages, result.errors, destinationCache, calls)
               == ProcessFiles(root, start, d.files[..i])
      {
        var run := d.files[i];
        ProcessFilesAppend(root, start, d.files[..i], run);
        assert d.files[..i + 1] == d.files[..i] + [run];
        if run.readError.Some? {
          result := SyncResult(Partial, result.updatedPages, result.errors + [FileError(run.file.path, run.readError.value)]);
          continue;
        }
        var id, created := GetDestinationId(root, run.file.title, run.created);
        calls := calls + created;
        if id.Threw? {
          result := SyncResult(Partial, result.updatedPages, result.errors + [FileError(run.file.path, id.error)]);
        } else if run.syncError.Some? {
          result := SyncResult(Partial, result.updatedPages, result.errors + [FileError(run.file.path, run.syncError.value)]);
        } else {
          result := result.(updatedPages := result.updatedPages + [id.value]);
        }
      }
      assert d.files[..|d.files|] == d.files;
    }
  }
}
