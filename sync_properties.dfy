/** What syncDestination's alignment and call trace guarantee. */
module SyncProperties {
  import opened Json
  import opened Sync

  /** `[lo, lo + 1, ..., hi - 1]` */
  function Range(lo: nat, hi: nat): seq<nat>
    decreases hi
  {
    if hi <= lo then [] else Range(lo, hi - 1) + [hi - 1]
  }

  lemma {:induction false} RangeCons(lo: nat, hi: nat)
    requires lo < hi
    ensures [lo] + Range(lo + 1, hi) == Range(lo, hi)
    decreases hi
  {
    if hi > lo + 1 {
      RangeCons(lo, hi - 1);
    }
  }

  lemma {:induction false} RangeConcat(lo: nat, mid: nat, hi: nat)
    requires lo <= mid <= hi
    ensures Range(lo, mid) + Range(mid, hi) == Range(lo, hi)
    decreases hi
  {
    if hi > mid {
      RangeConcat(lo, mid, hi - 1);
    }
  }

  /** The rendered blocks the decisions place, in order: matched or queued. */
  function Placed(log: seq<Event>): seq<nat>
    decreases |log|
  {
    if log == [] then []
    else Placed(log[..|log| - 1]) + (if log[|log| - 1].Dropped? then [] else [log[|log| - 1].md])
  }

  /** The existing blocks the decisions consume, in order: matched or deleted. */
  function Consumed(log: seq<Event>): seq<nat>
    decreases |log|
  {
    if log == [] then []
    else
      var e := log[|log| - 1];
      Consumed(log[..|log| - 1]) + (if e.Matched? || e.Dropped? then [e.at] else [])
  }

  lemma LogAppend(log: seq<Event>, e: Event)
    ensures Placed(log + [e]) == Placed(log) + (if e.Dropped? then [] else [e.md])
    ensures Consumed(log + [e]) == Consumed(log) + (if e.Matched? || e.Dropped? then [e.at] else [])
  {
    assert (log + [e])[..|log|] == log;
  }

  /** Why each decision was taken, in terms of `compare`. */
  predicate Justified(same: Comparer, blocks: seq<JValue>, existing: seq<JValue>, e: Event)
    requires Comparable(same, blocks, existing) && InRange(e, |blocks|, |existing|)
  {
    match e
    case Matched(md, at) => same(blocks[md], existing[at])
    case Deferred(md, at) => !same(blocks[md], existing[at]) && LaterMatch(same, blocks, md, existing[at])
    case Dropped(md, at) => !same(blocks[md], existing[at]) && !LaterMatch(same, blocks, md, existing[at])
    case Trailing(_) => true
  }

  /** Handling one rendered block places it exactly once and consumes the
      existing blocks from the cursor on, in order. */
  lemma {:induction false} ScanBlockOrders(same: Comparer, blocks: seq<JValue>, existing: seq<JValue>, i: nat, a: Alignment)
    requires Comparable(same, blocks, existing)
    requires i < |blocks| && a.cursor <= |existing| && LogInRange(a.log, |blocks|, |existing|)
    ensures var r := ScanBlock(same, blocks, existing, i, a);
      && Placed(r.log) == Placed(a.log) + [i]
      && Consumed(r.log) == Consumed(a.log) + Range(a.cursor, r.cursor)
    decreases |existing| - a.cursor
  {
    var r := ScanBlock(same, blocks, existing, i, a);
    if a.cursor >= |existing| {
      assert r == Alignment(a.log + [Trailing(i)], a.cursor);
      LogAppend(a.log, Trailing(i));
      assert Range(a.cursor, a.cursor) == [];
    } else if same(blocks[i], existing[a.cursor]) {
      assert r == Alignment(a.log + [Matched(i, a.cursor)], a.cursor + 1);
      LogAppend(a.log, Matched(i, a.cursor));
      RangeCons(a.cursor, a.cursor + 1);
      assert Range(a.cursor + 1, a.cursor + 1) == [];
    } else if LaterMatch(same, blocks, i, existing[a.cursor]) {
      assert r == Alignment(a.log + [Deferred(i, a.cursor)], a.cursor);
      LogAppend(a.log, Deferred(i, a.cursor));
      assert Range(a.cursor, a.cursor) == [];
    } else {
      var b := Alignment(a.log + [Dropped(i, a.cursor)], a.cursor + 1);
      assert r == ScanBlock(same, blocks, existing, i, b);
      ScanBlockOrders(same, blocks, existing, i, b);
      DroppedOrders(a.log, a.cursor, i, r);
    }
  }

  /** A deletion followed by the decisions that consume up to `r.cursor`
      consumes everything from the deleted block on. */
  lemma DroppedOrders(log: seq<Event>, cursor: nat, i: nat, r: Alignment)
    requires cursor < r.cursor
    requires Placed(r.log) == Placed(log + [Dropped(i, cursor)]) + [i]
    requires Consumed(r.log) == Consumed(log + [Dropped(i, cursor)]) + Range(cursor + 1, r.cursor)
    ensures Placed(r.log) == Placed(log) + [i]
    ensures Consumed(r.log) == Consumed(log) + Range(cursor, r.cursor)
  {
    LogAppend(log, Dropped(i, cursor));
    RangeCons(cursor, r.cursor);
    calc {
      Consumed(r.log);
    ==
      Consumed(log) + [cursor] + Range(cursor + 1, r.cursor);
    ==
      Consumed(log) + ([cursor] + Range(cursor + 1, r.cursor));
    ==
      Consumed(log) + Range(cursor, r.cursor);
    }
  }

  /** Handling one rendered block only appends to the log: some deletions,
      then exactly one match or queueing, all about that block. */
  lemma {:induction false} ScanBlockExtends(same: Comparer, blocks: seq<JValue>, existing: seq<JValue>, i: nat, a: Alignment)
    requires Comparable(same, blocks, existing)
    requires i < |blocks| && a.cursor <= |existing| && LogInRange(a.log, |blocks|, |existing|)
    ensures var r := ScanBlock(same, blocks, existing, i, a);
      && |a.log| < |r.log| && r.log[..|a.log|] == a.log
      && (forall k | |a.log| <= k < |r.log| ::
            r.log[k].md == i && (r.log[k].Matched? || r.log[k].Dropped? ==> a.cursor <= r.log[k].at))
      && (forall k | |a.log| <= k < |r.log| - 1 :: r.log[k].Dropped?)
      && !r.log[|r.log| - 1].Dropped?
    decreases |existing| - a.cursor
  {
    if a.cursor < |existing| && !same(blocks[i], existing[a.cursor]) && !LaterMatch(same, blocks, i, existing[a.cursor]) {
      var b := Alignment(a.log + [Dropped(i, a.cursor)], a.cursor + 1);
      ScanBlockExtends(same, blocks, existing, i, b);
      var r := ScanBlock(same, blocks, existing, i, b);
      assert r.log[..|b.log|][..|a.log|] == r.log[..|a.log|];
      assert r.log[|a.log|] == b.log[|a.log|];
    }
  }

  /** Every decision taken for one rendered block is justified by `compare`. */
  lemma {:induction false} ScanBlockJustified(same: Comparer, blocks: seq<JValue>, existing: seq<JValue>, i: nat, a: Alignment)
    requires Comparable(same, blocks, existing)
    requires i < |blocks| && a.cursor <= |existing| && LogInRange(a.log, |blocks|, |existing|)
    ensures var r := ScanBlock(same, blocks, existing, i, a);
      forall k | |a.log| <= k < |r.log| :: Justified(same, blocks, existing, r.log[k])
    decreases |existing| - a.cursor
  {
    if a.cursor < |existing| && !same(blocks[i], existing[a.cursor]) && !LaterMatch(same, blocks, i, existing[a.cursor]) {
      var b := Alignment(a.log + [Dropped(i, a.cursor)], a.cursor + 1);
      ScanBlockJustified(same, blocks, existing, i, b);
      ScanBlockExtends(same, blocks, existing, i, b);
      var r := ScanBlock(same, blocks, existing, i, b);
      assert r.log[|a.log|] == b.log[|a.log|];
    }
  }

  /** After the outer loop, every rendered block has been placed exactly once,
      in order, and the existing blocks before the cursor have each been
      consumed exactly once, in order. */
  lemma {:induction false} AlignOrders(same: Comparer, blocks: seq<JValue>, existing: seq<JValue>, n: nat)
    requires Comparable(same, blocks, existing) && n <= |blocks|
    ensures var a := AlignPrefix(same, blocks, existing, n);
      Placed(a.log) == Range(0, n) && Consumed(a.log) == Range(0, a.cursor)
  {
    if n > 0 {
      var a := AlignPrefix(same, blocks, existing, n - 1);
      AlignOrders(same, blocks, existing, n - 1);
      ScanBlockOrders(same, blocks, existing, n - 1, a);
      RangeConcat(0, a.cursor, ScanBlock(same, blocks, existing, n - 1, a).cursor);
    }
  }

  predicate AllJustified(same: Comparer, blocks: seq<JValue>, existing: seq<JValue>, log: seq<Event>)
    requires Comparable(same, blocks, existing) && LogInRange(log, |blocks|, |existing|)
  {
    forall k | 0 <= k < |log| :: Justified(same, blocks, existing, log[k])
  }

  /** Every decision of the outer loop is justified by `compare`. */
  lemma {:induction false} AlignJustified(same: Comparer, blocks: seq<JValue>, existing: seq<JValue>, n: nat)
    requires Comparable(same, blocks, existing) && n <= |blocks|
    ensures AllJustified(same, blocks, existing, AlignPrefix(same, blocks, existing, n).log)
  {
    if n > 0 {
      var a := AlignPrefix(same, blocks, existing, n - 1);
      AlignJustified(same, blocks, existing, n - 1);
      ScanBlockJustified(same, blocks, existing, n - 1, a);
      ScanBlockExtends(same, blocks, existing, n - 1, a);
      var r := ScanBlock(same, blocks, existing, n - 1, a);
      forall k | 0 <= k < |a.log|
        ensures Justified(same, blocks, existing, r.log[k])
      {
        assert r.log[..|a.log|] == a.log;
        assert r.log[k] == a.log[k];
      }
    }
  }

  predicate Bounded(a: Alignment, n: nat) {
    forall k | 0 <= k < |a.log| ::
      a.log[k].md < n && (a.log[k].Matched? || a.log[k].Dropped? ==> a.log[k].at < a.cursor)
  }

  /** The decisions so far name rendered blocks before `n` and consume
      existing blocks before the cursor. */
  lemma {:induction false} AlignBounds(same: Comparer, blocks: seq<JValue>, existing: seq<JValue>, n: nat)
    requires Comparable(same, blocks, existing) && n <= |blocks|
    ensures Bounded(AlignPrefix(same, blocks, existing, n), n)
  {
    if n > 0 {
      var a := AlignPrefix(same, blocks, existing, n - 1);
      AlignBounds(same, blocks, existing, n - 1);
      ScanBlockExtends(same, blocks, existing, n - 1, a);
      ScanBlockOrders(same, blocks, existing, n - 1, a);
      var r := ScanBlock(same, blocks, existing, n - 1, a);
      forall k | 0 <= k < |r.log|
        ensures r.log[k].md < n && (r.log[k].Matched? || r.log[k].Dropped? ==> r.log[k].at < r.cursor)
      {
        if k < |a.log| {
          assert r.log[..|a.log|] == a.log;
          assert r.log[k] == a.log[k];
        } else if r.log[k].Matched? || r.log[k].Dropped? {
          ConsumedHas(r.log, k);
          RangeHas(0, r.cursor, r.log[k].at) by {
            AlignOrders(same, blocks, existing, n);
          }
        }
      }
    }
  }

  /** A consumed event's index is in the consumed order. */
  lemma {:induction false} ConsumedHas(log: seq<Event>, k: nat)
    requires k < |log| && (log[k].Matched? || log[k].Dropped?)
    ensures log[k].at in Consumed(log)
    decreases |log|
  {
    if k < |log| - 1 {
      ConsumedHas(log[..|log| - 1], k);
    }
  }

  lemma {:induction false} RangeHas(lo: nat, hi: nat, x: nat)
    requires x in Range(lo, hi)
    ensures lo <= x < hi
    decreases hi
  {
    if x != hi - 1 {
      RangeHas(lo, hi - 1, x);
    }
  }

  predicate NonCrossing(log: seq<Event>) {
    forall p, q | 0 <= p < q < |log| && log[p].Matched? && log[q].Matched? ::
      log[p].md < log[q].md && log[p].at < log[q].at
  }

  /** Matches never cross: a later match pairs a later rendered block with a
      later existing block. */
  lemma {:induction false} MatchesIncreasing(same: Comparer, blocks: seq<JValue>, existing: seq<JValue>, n: nat)
    requires Comparable(same, blocks, existing) && n <= |blocks|
    ensures NonCrossing(AlignPrefix(same, blocks, existing, n).log)
  {
    if n > 0 {
      var a := AlignPrefix(same, blocks, existing, n - 1);
      MatchesIncreasing(same, blocks, existing, n - 1);
      AlignBounds(same, blocks, existing, n - 1);
      ScanBlockExtends(same, blocks, existing, n - 1, a);
      var r := ScanBlock(same, blocks, existing, n - 1, a);
      forall p, q | 0 <= p < q < |r.log| && r.log[p].Matched? && r.log[q].Matched?
        ensures r.log[p].md < r.log[q].md && r.log[p].at < r.log[q].at
      {
        assert r.log[..|a.log|] == a.log;
        if q < |a.log| {
          assert r.log[p] == a.log[p] && r.log[q] == a.log[q];
        } else if p < |a.log| {
          assert r.log[p] == a.log[p];
          assert r.log[q].md == n - 1 && a.cursor <= r.log[q].at;
        }
      }
    }
  }

  // ---------------------------------------------------------------------------
  // The calls the decisions lead to

  /** The blocks the calls append, in call order. */
  function Appended(calls: seq<Call>): seq<JValue>
    decreases |calls|
  {
    if calls == [] then []
    else
      var c := calls[|calls| - 1];
      Appended(calls[..|calls| - 1]) + (if c.Append? then c.children else [])
  }

  /** The ids the calls delete, in call order. */
  function DeletedIds(calls: seq<Call>): seq<string>
    decreases |calls|
  {
    if calls == [] then []
    else
      var c := calls[|calls| - 1];
      DeletedIds(calls[..|calls| - 1]) + (if c.Delete? then [c.id] else [])
  }

  /** Only appends and deletions, every append carrying between 1 and 100 blocks. */
  predicate Edits(calls: seq<Call>) {
    forall k | 0 <= k < |calls| ::
      calls[k].Delete? || (calls[k].Append? && 0 < |calls[k].children| <= ChunkSize)
  }

  lemma {:induction false} AppendedConcat(a: seq<Call>, b: seq<Call>)
    ensures Appended(a + b) == Appended(a) + Appended(b)
    decreases |b|
  {
    if b == [] {
      assert a + b == a;
    } else {
      var init, c := b[..|b| - 1], b[|b| - 1];
      AppendedConcat(a, init);
      assert (a + b)[..|a + b| - 1] == a + init;
      assert (a + b)[|a + b| - 1] == c;
      var extra := if c.Append? then c.children else [];
      calc {
        Appended(a + b);
        Appended(a + init) + extra;
        Appended(a) + Appended(init) + extra;
        Appended(a) + (Appended(init) + extra);
      }
    }
  }

  lemma {:induction false} DeletedIdsConcat(a: seq<Call>, b: seq<Call>)
    ensures DeletedIds(a + b) == DeletedIds(a) + DeletedIds(b)
    decreases |b|
  {
    if b == [] {
      assert a + b == a;
    } else {
      var init, c := b[..|b| - 1], b[|b| - 1];
      DeletedIdsConcat(a, init);
      assert (a + b)[..|a + b| - 1] == a + init;
      assert (a + b)[|a + b| - 1] == c;
      var extra := if c.Delete? then [c.id] else [];
      calc {
        DeletedIds(a + b);
        DeletedIds(a + init) + extra;
        DeletedIds(a) + DeletedIds(init) + extra;
        DeletedIds(a) + (DeletedIds(init) + extra);
      }
    }
  }

  lemma CallsConcat(a: seq<Call>, b: seq<Call>)
    ensures Appended(a + b) == Appended(a) + Appended(b)
    ensures DeletedIds(a + b) == DeletedIds(a) + DeletedIds(b)
  {
    AppendedConcat(a, b);
    DeletedIdsConcat(a, b);
  }

  lemma EditsConcat(a: seq<Call>, b: seq<Call>)
    requires Edits(a) && Edits(b)
    ensures Edits(a + b)
  {
    forall k | 0 <= k < |a + b|
      ensures (a + b)[k].Delete? || ((a + b)[k].Append? && 0 < |(a + b)[k].children| <= ChunkSize)
    {
      if k >= |a| {
        assert (a + b)[k] == b[k - |a|];
      }
    }
  }

  /** The appends of a list of chunks put the chunks back together. */
  lemma {:induction false} AppendCallsAppend(parent: string, chunks: seq<seq<JValue>>)
    ensures Appended(AppendCalls(parent, chunks)) == Flatten(chunks)
    ensures DeletedIds(AppendCalls(parent, chunks)) == []
    ensures |AppendCalls(parent, chunks)| == |chunks|
    ensures forall k | 0 <= k < |chunks| :: AppendCalls(parent, chunks)[k] == Append(parent, chunks[k])
    decreases |chunks|
  {
    if chunks != [] {
      var init, last := chunks[..|chunks| - 1], chunks[|chunks| - 1];
      AppendCallsAppend(parent, init);
      var calls := AppendCalls(parent, chunks);
      assert calls[..|calls| - 1] == AppendCalls(parent, init);
      FlattenAppend(init, [last]);
      assert init + [last] == chunks;
      assert Flatten([last]) == last + Flatten([]);
    }
  }

  /** A flush appends the queue, in order, under the anchor, at most 100
      blocks per call. */
  lemma FlushAppendsQueue(anchor: string, pending: seq<JValue>)
    ensures Appended(FlushCalls(anchor, pending)) == pending
    ensures DeletedIds(FlushCalls(anchor, pending)) == []
    ensures Edits(FlushCalls(anchor, pending))
    ensures forall k | 0 <= k < |FlushCalls(anchor, pending)| :: FlushCalls(anchor, pending)[k].Append? && FlushCalls(anchor, pending)[k].parent == anchor
  {
    ChunksPartition(pending, ChunkSize);
    AppendCallsAppend(anchor, Chunks(pending, ChunkSize));
  }

  /** The rendered blocks the decisions queue for appending, in order. */
  function Queued(blocks: seq<JValue>, existing: seq<JValue>, log: seq<Event>): seq<JValue>
    requires LogInRange(log, |blocks|, |existing|)
    decreases |log|
  {
    if log == [] then []
    else
      var e := log[|log| - 1];
      Queued(blocks, existing, log[..|log| - 1]) + (if e.Deferred? || e.Trailing? then [blocks[e.md]] else [])
  }

  /** The ids of the existing blocks the decisions drop, in order. */
  function DroppedIds(blocks: seq<JValue>, existing: seq<JValue>, log: seq<Event>): seq<string>
    requires LogInRange(log, |blocks|, |existing|)
    decreases |log|
  {
    if log == [] then []
    else
      var e := log[|log| - 1];
      DroppedIds(blocks, existing, log[..|log| - 1]) + (if e.Dropped? then [BlockId(existing[e.at])] else [])
  }

  /** The id of the last matched existing block, or the destination page. */
  function LastAnchor(destination: string, blocks: seq<JValue>, existing: seq<JValue>, log: seq<Event>): string
    requires LogInRange(log, |blocks|, |existing|)
    decreases |log|
  {
    if log == [] then destination
    else if log[|log| - 1].Matched? then BlockId(existing[log[|log| - 1].at])
    else LastAnchor(destination, blocks, existing, log[..|log| - 1])
  }

  /** What the calls of a run of decisions amount to: the queued blocks
      are appended or still pending, in order; exactly the dropped blocks are
      deleted, in order; appends are chunked; the anchor is the last match. */
  lemma {:induction false} ReplayAccounts(destination: string, blocks: seq<JValue>, existing: seq<JValue>, log: seq<Event>)
    requires LogInRange(log, |blocks|, |existing|)
    ensures Appended(Replay(destination, blocks, existing, log).calls) + Replay(destination, blocks, existing, log).pending
         == Queued(blocks, existing, log)
    ensures DeletedIds(Replay(destination, blocks, existing, log).calls) == DroppedIds(blocks, existing, log)
    ensures Edits(Replay(destination, blocks, existing, log).calls)
    ensures Replay(destination, blocks, existing, log).anchor == LastAnchor(destination, blocks, existing, log)
    decreases |log|
  {
    if log != [] {
      var init, ev := log[..|log| - 1], log[|log| - 1];
      ReplayAccounts(destination, blocks, existing, init);
      ApplyAccounts(blocks, existing, Replay(destination, blocks, existing, init), ev);
    }
  }

  /** One decision adds to the appended-or-pending blocks exactly the block
      it queues, to the deleted ids exactly the block it drops, issues only
      chunked appends and deletes, and moves the anchor only on a match. */
  lemma ApplyAccounts(blocks: seq<JValue>, existing: seq<JValue>, e: Effects, ev: Event)
    requires InRange(ev, |blocks|, |existing|) && Edits(e.calls)
    ensures var f := Apply(blocks, existing, e, ev);
      && Appended(f.calls) + f.pending
         == Appended(e.calls) + e.pending + (if ev.Deferred? || ev.Trailing? then [blocks[ev.md]] else [])
      && DeletedIds(f.calls) == DeletedIds(e.calls) + (if ev.Dropped? then [BlockId(existing[ev.at])] else [])
      && Edits(f.calls)
      && f.anchor == (if ev.Matched? then BlockId(existing[ev.at]) else e.anchor)
  {
    match ev
    case Matched(_, _) =>
      if e.pending != [] {
        FlushAppendsQueue(e.anchor, e.pending);
        CallsConcat(e.calls, FlushCalls(e.anchor, e.pending));
        EditsConcat(e.calls, FlushCalls(e.anchor, e.pending));
      }
    case Dropped(_, at) =>
      var d := [Delete(BlockId(existing[at]))];
      CallsConcat(e.calls, d);
      EditsConcat(e.calls, d);
      assert d[..0] == [];
    case _ =>
  }

  /** The ids of the existing blocks `lo` up to `hi`. */
  function Ids(existing: seq<JValue>, lo: nat, hi: nat): seq<string>
    requires lo <= hi <= |existing|
    ensures |Ids(existing, lo, hi)| == hi - lo
    decreases hi
  {
    if hi == lo then [] else Ids(existing, lo, hi - 1) + [BlockId(existing[hi - 1])]
  }

  lemma {:induction false} DeletesDelete(existing: seq<JValue>, lo: nat, hi: nat)
    requires lo <= hi <= |existing|
    ensures DeletedIds(Deletes(existing, lo, hi)) == Ids(existing, lo, hi)
    ensures Appended(Deletes(existing, lo, hi)) == []
    ensures Edits(Deletes(existing, lo, hi))
    decreases hi
  {
    if hi > lo {
      DeletesDelete(existing, lo, hi - 1);
      var d := Deletes(existing, lo, hi);
      assert d[..|d| - 1] == Deletes(existing, lo, hi - 1);
      EditsConcat(Deletes(existing, lo, hi - 1), [Delete(BlockId(existing[hi - 1]))]);
    }
  }

  /** The calls before the sweep: the loop's calls and the final flush. */
  function Flushed(destination: string, blocks: seq<JValue>, existing: seq<JValue>, log: seq<Event>): seq<Call>
    requires LogInRange(log, |blocks|, |existing|)
  {
    var e := Replay(destination, blocks, existing, log);
    if e.pending == [] then e.calls else e.calls + FlushCalls(e.anchor, e.pending)
  }

  lemma FlushedCalls(destination: string, blocks: seq<JValue>, existing: seq<JValue>, log: seq<Event>)
    requires LogInRange(log, |blocks|, |existing|)
    ensures Appended(Flushed(destination, blocks, existing, log)) == Queued(blocks, existing, log)
    ensures DeletedIds(Flushed(destination, blocks, existing, log)) == DroppedIds(blocks, existing, log)
    ensures Edits(Flushed(destination, blocks, existing, log))
  {
    var e := Replay(destination, blocks, existing, log);
    ReplayAccounts(destination, blocks, existing, log);
    if e.pending != [] {
      FlushAppendsQueue(e.anchor, e.pending);
      CallsConcat(e.calls, FlushCalls(e.anchor, e.pending));
      EditsConcat(e.calls, FlushCalls(e.anchor, e.pending));
    } else {
      assert Appended(e.calls) + [] == Appended(e.calls);
    }
  }

  lemma TraceSplit(same: Comparer, destination: string, title: string, blocks: seq<JValue>, existing: seq<JValue>)
    requires Comparable(same, blocks, existing)
    ensures SyncTrace(same, destination, title, blocks, existing)
         == Flushed(destination, blocks, existing, AlignPrefix(same, blocks, existing, |blocks|).log)
          + Deletes(existing, AlignPrefix(same, blocks, existing, |blocks|).cursor, |existing|)
          + [UpdatePage(destination, title)]
  {
  }

  /** Edits followed by one last call. */
  lemma EditsThen(main: seq<Call>, dels: seq<Call>, u: Call)
    requires Edits(main) && Edits(dels) && !u.Append? && !u.Delete?
    ensures (main + dels + [u])[|main + dels + [u]| - 1] == u
    ensures Edits((main + dels + [u])[..|main + dels + [u]| - 1])
    ensures Appended(main + dels + [u]) == Appended(main) + Appended(dels)
    ensures DeletedIds(main + dels + [u]) == DeletedIds(main) + DeletedIds(dels)
  {
    CallsConcat(main, dels);
    EditsConcat(main, dels);
    assert (main + dels + [u])[..|main + dels + [u]| - 1] == main + dels;
    assert [u][..0] == [];
    CallsConcat(main + dels, [u]);
  }

  /** The calls of `syncDestination`: appends of every queued rendered block,
      in order and in chunks of at most 100, deletions of every dropped block
      and of every existing block the cursor did not reach, in order, and last
      of all the title update of the destination page. */
  lemma SyncTraceCalls(same: Comparer, destination: string, title: string, blocks: seq<JValue>, existing: seq<JValue>)
    requires Comparable(same, blocks, existing)
    ensures |SyncTrace(same, destination, title, blocks, existing)| > 0
    ensures SyncTrace(same, destination, title, blocks, existing)[|SyncTrace(same, destination, title, blocks, existing)| - 1]
         == UpdatePage(destination, title)
    ensures Edits(SyncTrace(same, destination, title, blocks, existing)[..|SyncTrace(same, destination, title, blocks, existing)| - 1])
    ensures Appended(SyncTrace(same, destination, title, blocks, existing))
         == Queued(blocks, existing, AlignPrefix(same, blocks, existing, |blocks|).log)
    ensures DeletedIds(SyncTrace(same, destination, title, blocks, existing))
         == DroppedIds(blocks, existing, AlignPrefix(same, blocks, existing, |blocks|).log)
          + Ids(existing, AlignPrefix(same, blocks, existing, |blocks|).cursor, |existing|)
  {
    var a := AlignPrefix(same, blocks, existing, |blocks|);
    TraceSplit(same, destination, title, blocks, existing);
    FlushedCalls(destination, blocks, existing, a.log);
    DeletesDelete(existing, a.cursor, |existing|);
    EditsThen(Flushed(destination, blocks, existing, a.log), Deletes(existing, a.cursor, |existing|), UpdatePage(destination, title));
  }

  // ---------------------------------------------------------------------------
  // Edge cases

  /** `[Matched(0, 0), ..., Matched(n - 1, n - 1)]` */
  function Diagonal(n: nat): seq<Event>
    ensures |Diagonal(n)| == n
  {
    if n == 0 then [] else Diagonal(n - 1) + [Matched(n - 1, n - 1)]
  }

  /** `[Trailing(0), ..., Trailing(n - 1)]` */
  function AllTrailing(n: nat): seq<Event>
    ensures |AllTrailing(n)| == n
  {
    if n == 0 then [] else AllTrailing(n - 1) + [Trailing(n - 1)]
  }

  predicate InSync(same: Comparer, blocks: seq<JValue>, existing: seq<JValue>)
    requires Comparable(same, blocks, existing)
  {
    |blocks| == |existing| && forall i | 0 <= i < |blocks| :: same(blocks[i], existing[i])
  }

  lemma {:induction false} InSyncAlignment(same: Comparer, destination: string, blocks: seq<JValue>, existing: seq<JValue>, n: nat)
    requires Comparable(same, blocks, existing) && InSync(same, blocks, existing) && n <= |blocks|
    ensures AlignPrefix(same, blocks, existing, n) == Alignment(Diagonal(n), n)
    ensures LogInRange(Diagonal(n), |blocks|, |existing|)
    ensures Replay(destination, blocks, existing, Diagonal(n)).pending == []
    ensures Replay(destination, blocks, existing, Diagonal(n)).calls == []
  {
    if n > 0 {
      InSyncAlignment(same, destination, blocks, existing, n - 1);
      assert same(blocks[n - 1], existing[n - 1]);
      ReplayAppend(destination, blocks, existing, Diagonal(n - 1), Matched(n - 1, n - 1));
    }
  }

  /** Rendered blocks identical, position by position, to the page's blocks
      lead to no append and no deletion: only the title update. */
  lemma InSyncOnlyUpdatesTitle(same: Comparer, destination: string, title: string, blocks: seq<JValue>, existing: seq<JValue>)
    requires Comparable(same, blocks, existing) && InSync(same, blocks, existing)
    ensures SyncTrace(same, destination, title, blocks, existing) == [UpdatePage(destination, title)]
  {
    InSyncAlignment(same, destination, blocks, existing, |blocks|);
  }

  lemma {:induction false} EmptyPageAlignment(same: Comparer, destination: string, blocks: seq<JValue>, existing: seq<JValue>, n: nat)
    requires Comparable(same, blocks, existing) && existing == [] && n <= |blocks|
    ensures AlignPrefix(same, blocks, existing, n) == Alignment(AllTrailing(n), 0)
    ensures LogInRange(AllTrailing(n), |blocks|, |existing|)
    ensures Replay(destination, blocks, existing, AllTrailing(n)) == Effects(destination, blocks[..n], [])
  {
    if n > 0 {
      EmptyPageAlignment(same, destination, blocks, existing, n - 1);
      ReplayAppend(destination, blocks, existing, AllTrailing(n - 1), Trailing(n - 1));
      assert blocks[..n - 1] + [blocks[n - 1]] == blocks[..n];
    }
  }

  /** On an empty page every rendered block is appended under the destination
      page, in chunks, and nothing is deleted. */
  lemma EmptyPageAppendsAll(same: Comparer, destination: string, title: string, blocks: seq<JValue>, existing: seq<JValue>)
    requires Comparable(same, blocks, existing) && existing == []
    ensures SyncTrace(same, destination, title, blocks, existing) == FlushCalls(destination, blocks) + [UpdatePage(destination, title)]
  {
    EmptyPageAlignment(same, destination, blocks, existing, |blocks|);
    assert blocks[..|blocks|] == blocks;
  }

  /** Without rendered blocks, every existing block is deleted in order. */
  lemma NoBlocksDeletesAll(same: Comparer, destination: string, title: string, blocks: seq<JValue>, existing: seq<JValue>)
    requires Comparable(same, blocks, existing) && blocks == []
    ensures SyncTrace(same, destination, title, blocks, existing) == Deletes(existing, 0, |existing|) + [UpdatePage(destination, title)]
  {
    var a := AlignPrefix(same, blocks, existing, |blocks|);
    assert a == Alignment([], 0);
    var f := Flushed(destination, blocks, existing, a.log);
    assert f == [] by {
      assert Replay(destination, blocks, existing, []) == Effects(destination, [], []);
    }
    TraceSplit(same, destination, title, blocks, existing);
    assert f + Deletes(existing, 0, |existing|) == Deletes(existing, 0, |existing|);
  }

  /** Equality of blocks as a comparator. */
  const Equal: Comparer := (m: JValue, n: JValue) => m == n

  /** A block rendered after the page's last block is appended with that
      matched block as its parent (`appendBlocks(previousBlockId, chunk)`),
      that is, as the matched block's child rather than after it. */
  lemma AppendGoesUnderMatchedBlock(destination: string, title: string, a: JValue, b: JValue)
    ensures Comparable(Equal, [a, b], [a])
    ensures SyncTrace(Equal, destination, title, [a, b], [a]) == [Append(BlockId(a), [b]), UpdatePage(destination, title)]
  {
    var blocks, existing := [a, b], [a];
    MatchThenTrail(a, b);
    MatchThenTrailFlushes(destination, a, b);
    TraceSplit(Equal, destination, title, blocks, existing);
  }

  /** With the page holding just the first of two rendered blocks, the loop
      matches it and queues the second. */
  lemma MatchThenTrail(a: JValue, b: JValue)
    ensures Comparable(Equal, [a, b], [a])
    ensures AlignPrefix(Equal, [a, b], [a], 2) == Alignment([Matched(0, 0), Trailing(1)], 1)
  {
    var blocks, existing := [a, b], [a];
    assert Equal(blocks[0], existing[0]);
    assert AlignPrefix(Equal, blocks, existing, 0) == Alignment([], 0);
    assert AlignPrefix(Equal, blocks, existing, 1) == Alignment([Matched(0, 0)], 1);
  }

  /** Replaying that log appends the second block under the first. */
  lemma MatchThenTrailFlushes(destination: string, a: JValue, b: JValue)
    ensures Flushed(destination, [a, b], [a], [Matched(0, 0), Trailing(1)]) == [Append(BlockId(a), [b])]
  {
    var blocks, existing := [a, b], [a];
    var log := [Matched(0, 0), Trailing(1)];
    assert log[..1] == [Matched(0, 0)];
    assert [Matched(0, 0)][..0] == [];
    assert Replay(destination, blocks, existing, log) == Effects(BlockId(a), [b], []);
    assert Chunks([b], ChunkSize) == [[b]];
    assert [[b]][..0] == [];
    assert AppendCalls(BlockId(a), []) == [];
    assert AppendCalls(BlockId(a), [[b]]) == AppendCalls(BlockId(a), []) + [Append(BlockId(a), [b])];
    assert FlushCalls(BlockId(a), [b]) == [Append(BlockId(a), [b])];
    assert [] + [Append(BlockId(a), [b])] == [Append(BlockId(a), [b])];
  }

  /** With one rendered block and one different existing block, the loop
      deletes the existing block and the fallback then queues the rendered one. */
  lemma DropThenTrail(a: JValue, b: JValue)
    requires a != b
    ensures Comparable(Equal, [a], [b])
    ensures AlignPrefix(Equal, [a], [b], 1) == Alignment([Dropped(0, 0), Trailing(0)], 1)
  {
    var blocks, existing := [a], [b];
    assert !Equal(blocks[0], existing[0]);
    assert !LaterMatch(Equal, blocks, 0, existing[0]);
    assert AlignPrefix(Equal, blocks, existing, 0) == Alignment([], 0);
    assert [] + [Dropped(0, 0)] == [Dropped(0, 0)];
    assert ScanBlock(Equal, blocks, existing, 0, Alignment([], 0)) == ScanBlock(Equal, blocks, existing, 0, Alignment([Dropped(0, 0)], 1));
    assert [Dropped(0, 0)] + [Trailing(0)] == [Dropped(0, 0), Trailing(0)];
  }

  /** The fallback after the inner loop is reachable: when every remaining
      existing block is deleted without a match, the rendered block is queued
      and appended at the end, after the deletions, under the page itself. */
  lemma FallbackAppendsAfterDeletes(destination: string, title: string, a: JValue, b: JValue)
    requires a != b
    ensures Comparable(Equal, [a], [b])
    ensures SyncTrace(Equal, destination, title, [a], [b]) == [Delete(BlockId(b)), Append(destination, [a]), UpdatePage(destination, title)]
  {
    var blocks, existing := [a], [b];
    var log := [Dropped(0, 0), Trailing(0)];
    DropThenTrail(a, b);
    assert Flushed(destination, blocks, existing, log) == [Delete(BlockId(b)), Append(destination, [a])] by {
      assert log[..1] == [Dropped(0, 0)];
      assert [Dropped(0, 0)][..0] == [];
      assert Replay(destination, blocks, existing, [Dropped(0, 0)]) == Effects(destination, [], [Delete(BlockId(b))]);
      assert Replay(destination, blocks, existing, log) == Effects(destination, [a], [Delete(BlockId(b))]);
      assert Chunks([a], ChunkSize) == [[a]];
      assert [[a]][..0] == [];
      assert AppendCalls(destination, []) == [];
      assert AppendCalls(destination, [[a]]) == AppendCalls(destination, []) + [Append(destination, [a])];
      assert FlushCalls(destination, [a]) == [Append(destination, [a])];
    }
    TraceSplit(Equal, destination, title, blocks, existing);
    assert Deletes(existing, 1, 1) == [];
  }

  // ---------------------------------------------------------------------------
  // The run as a whole

  /** The loop over the files accounts for every file once: as an updated
      page or as an error, in order, never as a failed run; the status turns
      partial exactly when an error is recorded. */
  lemma {:induction false} ProcessFilesAccounts(root: string, s: RunState, runs: seq<FileRun>)
    requires s.status != Failed
    ensures ProcessFiles(root, s, runs).status != Failed
    ensures |ProcessFiles(root, s, runs).updated| + |ProcessFiles(root, s, runs).errors| == |s.updated| + |s.errors| + |runs|
    ensures s.updated <= ProcessFiles(root, s, runs).updated && s.errors <= ProcessFiles(root, s, runs).errors
    ensures ProcessFiles(root, s, runs).status == Partial <==> s.status == Partial || |ProcessFiles(root, s, runs).errors| > |s.errors|
    decreases |runs|
  {
    if runs != [] {
      ProcessFilesAccounts(root, s, runs[..|runs| - 1]);
    }
  }

  /** `sync` fails as a whole exactly when the directory or the readme fails,
      and then reports that one error, no page and no created page. */
  lemma RunFailedIff(root: string, cache: map<string, PageId>, d: Discovery)
    ensures SyncRun(root, cache, d).result.status == Failed <==> d.DirectoryFailed? || (d.readme.Some? && d.readmeError.Some?)
    ensures SyncRun(root, cache, d).result.status == Failed ==>
      && |SyncRun(root, cache, d).result.errors| == 1
      && SyncRun(root, cache, d).result.updatedPages == []
      && SyncRun(root, cache, d).cache == cache
  {
    if d.Discovered? && !(d.readme.Some? && d.readmeError.Some?) {
      ProcessFilesAccounts(root, RunState(Success, if d.readme.Some? then [root] else [], [], cache, []), d.files);
    }
  }

  /** When the run does not fail: it is partial exactly when some file failed,
      the readme's destination comes first, and each file is either an updated
      page or an error. */
  lemma RunPartialIff(root: string, cache: map<string, PageId>, d: Discovery)
    requires d.Discovered? && !(d.readme.Some? && d.readmeError.Some?)
    ensures SyncRun(root, cache, d).result.status == Partial <==> SyncRun(root, cache, d).result.errors != []
    ensures SyncRun(root, cache, d).result.status == Success <==> SyncRun(root, cache, d).result.errors == []
    ensures |SyncRun(root, cache, d).result.updatedPages| + |SyncRun(root, cache, d).result.errors|
         == |d.files| + (if d.readme.Some? then 1 else 0)
    ensures d.readme.Some? ==> |SyncRun(root, cache, d).result.updatedPages| > 0 && SyncRun(root, cache, d).result.updatedPages[0] == root
  {
    ProcessFilesAccounts(root, RunState(Success, if d.readme.Some? then [root] else [], [], cache, []), d.files);
  }

  /** No `createPage` throws among the runs. */
  predicate CreatesSucceed(runs: seq<FileRun>) {
    forall k | 0 <= k < |runs| :: runs[k].created.Done?
  }

  /** Every call creates a page under `root` for a title that was not cached
      `before` and is cached `after`, and no title is created twice. */
  predicate CreatesOnce(root: string, calls: seq<Call>, before: map<string, PageId>, after: map<string, PageId>) {
    && (forall k | 0 <= k < |calls| ::
          calls[k].CreatePage? && calls[k].parent == root && calls[k].title in after && calls[k].title !in before)
    && (forall i, j | 0 <= i < j < |calls| && calls[i].CreatePage? && calls[j].CreatePage? :: calls[i].title != calls[j].title)
  }

  /** Only creations extend the cache: cached ids never change. */
  predicate Extends(before: map<string, PageId>, after: map<string, PageId>) {
    forall t | t in before :: t in after && after[t] == before[t]
  }

  lemma {:induction false} ProcessFilesCache(root: string, s: RunState, runs: seq<FileRun>, cache: map<string, PageId>)
    requires Extends(cache, s.cache) && CreatesOnce(root, s.calls, cache, s.cache) && CreatesSucceed(runs)
    ensures Extends(s.cache, ProcessFiles(root, s, runs).cache)
    ensures Extends(cache, ProcessFiles(root, s, runs).cache)
    ensures CreatesOnce(root, ProcessFiles(root, s, runs).calls, cache, ProcessFiles(root, s, runs).cache)
    ensures forall k | |s.updated| <= k < |ProcessFiles(root, s, runs).updated| ::
      ProcessFiles(root, s, runs).updated[k] in ProcessFiles(root, s, runs).cache.Values
    decreases |runs|
  {
    if runs != [] {
      var init, run := runs[..|runs| - 1], runs[|runs| - 1];
      ProcessFilesCache(root, s, init, cache);
      var p := ProcessFiles(root, s, init);
      var r := FileStep(root, p, run);
      assert run.created.Done?;
      forall k | |s.updated| <= k < |r.updated|
        ensures r.updated[k] in r.cache.Values
      {
        if k < |p.updated| {
          assert r.updated[k] == p.updated[k];
          var t :| t in p.cache && p.cache[t] == p.updated[k];
          assert r.cache[t] == p.cache[t];
        } else {
          var t := run.file.title;
          assert t in r.cache && r.cache[t] == r.updated[k];
        }
      }
    }
  }

  /** Across a run without failing `createPage` calls, no title gets a second
      page, a cached title gets none, and cached pages keep their ids. */
  lemma CreatePageOncePerTitle(root: string, cache: map<string, PageId>, d: Discovery)
    requires d.Discovered? && CreatesSucceed(d.files)
    ensures Extends(cache, SyncRun(root, cache, d).cache)
    ensures CreatesOnce(root, SyncRun(root, cache, d).calls, cache, SyncRun(root, cache, d).cache)
  {
    if !(d.readme.Some? && d.readmeError.Some?) {
      ProcessFilesCache(root, RunState(Success, if d.readme.Some? then [root] else [], [], cache, []), d.files, cache);
    }
  }
}
