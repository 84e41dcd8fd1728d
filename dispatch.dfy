/** How `Block::mine_range` (src/block.rs) splits a nonce range into chunks and picks
    the answer from the chunk outcomes, with the worker threads taken out: the chunk
    bounds are computed exactly as the code does, and the results channel becomes an
    arbitrary arrival order over the outcomes of all submitted chunks. */
module Dispatch {
  import opened Types
  import opened Arith

  /** A half-open nonce interval `[lo, hi)` handed to one task. */
  datatype Chunk = Chunk(lo: u64, hi: u64)

  function Min(a: int, b: int): int {
    if a <= b then a else b
  }

  /** `((end - start) + chunks - 1) / chunks`. */
  function ChunkWidth(start: u64, end: u64, chunks: u64): (w: int)
    requires chunks >= 1 && start < end
    ensures w >= 1
    ensures w * chunks as int >= end as int - start as int
    ensures (w - 1) * chunks as int < end as int - start as int
  {
    CeilDiv(end as int - start as int, chunks as int);
    (end as int - start as int + chunks as int - 1) / chunks as int
  }

  /** The number of non-empty chunks: the range length divided by the width, rounded up. */
  function ChunkCount(start: u64, end: u64, chunks: u64): (n: int)
    requires chunks >= 1 && start < end
    ensures 1 <= n <= chunks as int
  {
    var len, w := end as int - start as int, ChunkWidth(start, end, chunks);
    CeilDiv(len, w);
    assert chunks as int * w == w * chunks as int;
    (len + w - 1) / w
  }

  /** The `u64` arithmetic of `mine_range` does not overflow (it would panic), evaluated
      left to right as Rust does: `(end - start) + chunks` in the width, the start of the
      last chunk, and `end - start + chunk_size` in the `tasks_submitted` count. */
  predicate NoOverflow(start: u64, end: u64, chunks: u64)
    requires chunks >= 1 && start < end
  {
    var len, w := end as int - start as int, ChunkWidth(start, end, chunks);
    && len + chunks as int < U64_LIMIT
    && start as int + (chunks as int - 1) * w < U64_LIMIT
    && len + w < U64_LIMIT
  }

  /** What `mine_range` demands of its arguments: at least one chunk (the width divides
      by `chunks`), a non-empty range (an empty one makes the width 0, and the count
      divides by it) and no overflow. */
  predicate RangeArgsOk(start: u64, end: u64, chunks: u64) {
    chunks >= 1 && start < end && NoOverflow(start, end, chunks)
  }

  /** Chunk `i` in closed form: `[start + i*w, min(start + (i+1)*w, end))`. */
  function ChunkAt(start: u64, end: u64, chunks: u64, i: int): Chunk
    requires chunks >= 1 && start < end
    requires 0 <= i < ChunkCount(start, end, chunks)
  {
    var w, n := ChunkWidth(start, end, chunks), ChunkCount(start, end, chunks);
    CeilDiv(end as int - start as int, w);
    MulMonotone(i, n - 1, w);
    Chunk((start as int + i * w) as u64, Min(start as int + (i + 1) * w, end as int) as u64)
  }

  /** The chunks cut `[start, end)` into consecutive non-empty pieces: the first starts
      at `start`, each ends where the next begins, the last ends at `end`. */
  predicate Tiles(cs: seq<Chunk>, start: u64, end: u64) {
    && |cs| >= 1
    && cs[0].lo == start
    && cs[|cs| - 1].hi == end
    && (forall k :: 0 <= k < |cs| ==> cs[k].lo < cs[k].hi)
    && (forall k :: 0 <= k < |cs| - 1 ==> cs[k].hi == cs[k + 1].lo)
  }

  /** Splits `[start, end)` as the submission loop of `mine_range` does, returning the
      submitted chunks in submission order and `tasks_submitted`. */
  method PartitionRange(start: u64, end: u64, chunks: u64) returns (tasks: seq<Chunk>, tasksSubmitted: u64)
    requires RangeArgsOk(start, end, chunks)
    ensures |tasks| == tasksSubmitted as int == ChunkCount(start, end, chunks)
    ensures forall k :: 0 <= k < |tasks| ==> tasks[k] == ChunkAt(start, end, chunks, k)
    ensures Tiles(tasks, start, end)
    ensures forall k :: 0 <= k < |tasks| ==> tasks[k].hi as int - tasks[k].lo as int <= ChunkWidth(start, end, chunks)
  {
    var chunkSize := ((end - start) + chunks - 1) / chunks;
    ghost var n := ChunkCount(start, end, chunks);
    tasks := [];
    for chunkIdx := 0 to chunks as int
      invariant |tasks| == Min(chunkIdx, n)
      invariant forall k :: 0 <= k < |tasks| ==> tasks[k] == ChunkAt(start, end, chunks, k)
    {
      ChunkStartFits(start, end, chunks, chunkIdx);
      var chunkStart := start + chunkIdx as u64 * chunkSize;
      var chunkEnd := if chunkIdx == chunks as int - 1 then end
                      else Min(SaturatingAdd(Min(chunkStart as int, end as int) as u64, chunkSize) as int, end as int) as u64;
      ChunkStep(start, end, chunks, chunkIdx, chunkStart, chunkEnd);
      if chunkStart >= end || chunkStart >= chunkEnd {
        continue;
      }
      tasks := tasks + [Chunk(chunkStart, chunkEnd)];
    }
    tasksSubmitted := Min(chunks as int, (((end - start) + chunkSize - 1) / chunkSize) as int) as u64;
    ChunkAtTiles(start, end, chunks, tasks);
  }

  /** The start of chunk `i < chunks`, and the product inside it, fit in a `u64`. */
  lemma ChunkStartFits(start: u64, end: u64, chunks: u64, i: int)
    requires RangeArgsOk(start, end, chunks) && 0 <= i < chunks as int
    ensures 0 <= i * ChunkWidth(start, end, chunks)
    ensures start as int + i * ChunkWidth(start, end, chunks) < U64_LIMIT
  {
    MulMonotone(i, chunks as int - 1, ChunkWidth(start, end, chunks));
  }

  /** One round of the submission loop: the round is skipped exactly when `i` is at or
      past the chunk count, and otherwise submits the closed-form chunk `i`. */
  lemma ChunkStep(start: u64, end: u64, chunks: u64, i: int, chunkStart: u64, chunkEnd: u64)
    requires RangeArgsOk(start, end, chunks) && 0 <= i < chunks as int
    requires chunkStart as int == start as int + i * ChunkWidth(start, end, chunks)
    requires chunkEnd as int == if i == chunks as int - 1 then end as int
                                else Min(Min(Min(chunkStart as int, end as int) + ChunkWidth(start, end, chunks),
                                             U64_LIMIT - 1), end as int)
    ensures (chunkStart >= end || chunkStart >= chunkEnd) <==> i >= ChunkCount(start, end, chunks)
    ensures i < ChunkCount(start, end, chunks) ==> Chunk(chunkStart, chunkEnd) == ChunkAt(start, end, chunks, i)
  {
    var w, n := ChunkWidth(start, end, chunks), ChunkCount(start, end, chunks);
    StartPastEnd(start, end, chunks, i);
    StartBeforeEnd(start, end, chunks, i);
    assert (i + 1) * w == i * w + w;
    if i < n {
      var c := ChunkAt(start, end, chunks, i);
      assert c.lo as int == start as int + i * w;
      assert c.hi as int == Min(start as int + (i + 1) * w, end as int);
    }
  }

  /** `u64::saturating_add`. */
  function SaturatingAdd(a: u64, b: u64): (r: u64)
    ensures r as int == Min(a as int + b as int, U64_LIMIT - 1)
  {
    if a as int + b as int < U64_LIMIT then a + b else (U64_LIMIT - 1) as u64
  }

  /** A chunk index below the count yields the closed-form chunk, the forced end of the
      last index included. */
  lemma StartBeforeEnd(start: u64, end: u64, chunks: u64, i: int)
    requires RangeArgsOk(start, end, chunks) && 0 <= i < chunks as int
    ensures var w := ChunkWidth(start, end, chunks);
            start as int + i * w < end as int ==>
              && i < ChunkCount(start, end, chunks)
              && (i == chunks as int - 1 ==> start as int + (i + 1) * w >= end as int)
  {
    StartPastEnd(start, end, chunks, i);
    var w := ChunkWidth(start, end, chunks);
    assert (i + 1) * w == i * w + w;
    if i == chunks as int - 1 {
      assert (i + 1) * w == w * chunks as int;
    }
  }

  /** The closed-form chunks, taken in order, tile the range. */
  lemma ChunkAtTiles(start: u64, end: u64, chunks: u64, cs: seq<Chunk>)
    requires chunks >= 1 && start < end
    requires |cs| == ChunkCount(start, end, chunks)
    requires forall k :: 0 <= k < |cs| ==> cs[k] == ChunkAt(start, end, chunks, k)
    ensures Tiles(cs, start, end)
    ensures forall k :: 0 <= k < |cs| ==> cs[k].hi as int - cs[k].lo as int <= ChunkWidth(start, end, chunks)
  {
    var w, n, len := ChunkWidth(start, end, chunks), ChunkCount(start, end, chunks), end as int - start as int;
    CeilDiv(len, w);
    assert n * w >= len;
    forall k | 0 <= k < |cs|
      ensures cs[k].lo < cs[k].hi
    {
      StartPastEnd(start, end, chunks, k);
      assert (k + 1) * w == k * w + w;
    }
    forall k | 0 <= k < |cs| - 1
      ensures cs[k].hi == cs[k + 1].lo
    {
      StartPastEnd(start, end, chunks, k + 1);
    }
    forall k | 0 <= k < |cs|
      ensures cs[k].hi as int - cs[k].lo as int <= w
    {
      assert (k + 1) * w == k * w + w;
    }
  }

  /** Chunk indices at or past the count start at or after `end`. */
  lemma StartPastEnd(start: u64, end: u64, chunks: u64, i: int)
    requires chunks >= 1 && start < end && 0 <= i
    ensures i < ChunkCount(start, end, chunks) <==> start as int + i * ChunkWidth(start, end, chunks) < end as int
  {
    var w, n, len := ChunkWidth(start, end, chunks), ChunkCount(start, end, chunks), end as int - start as int;
    CeilDiv(len, w);
    if i < n {
      MulMonotone(i, n - 1, w);
    } else {
      MulMonotone(n, i, w);
    }
  }

  /** Tiling chunks are strictly ascending and pairwise disjoint. */
  lemma {:induction false} TilesAscending(cs: seq<Chunk>, start: u64, end: u64, i: int, j: int)
    requires Tiles(cs, start, end)
    requires 0 <= i < j < |cs|
    ensures cs[i].hi <= cs[j].lo
    decreases j - i
  {
    if j > i + 1 {
      TilesAscending(cs, start, end, i, j - 1);
    }
  }

  /** Every tiling chunk lies inside `[start, end)`. */
  lemma {:induction false} TilesInside(cs: seq<Chunk>, start: u64, end: u64, i: int)
    requires Tiles(cs, start, end)
    requires 0 <= i < |cs|
    ensures start <= cs[i].lo && cs[i].hi <= end
  {
    if i > 0 {
      TilesAscending(cs, start, end, 0, i);
    }
    if i < |cs| - 1 {
      TilesAscending(cs, start, end, i, |cs| - 1);
    }
  }

  /** Every nonce of `[start, end)` lies in exactly one tiling chunk. */
  lemma {:induction false} TilesCover(cs: seq<Chunk>, start: u64, end: u64, q: u64) returns (k: int)
    requires Tiles(cs, start, end)
    requires start <= q < end
    ensures 0 <= k < |cs| && cs[k].lo <= q < cs[k].hi
    ensures forall k' :: 0 <= k' < |cs| && cs[k'].lo <= q < cs[k'].hi ==> k' == k
  {
    k := 0;
    while cs[k].hi <= q
      invariant 0 <= k < |cs| && cs[k].lo <= q
      decreases |cs| - k
    {
      k := k + 1;
    }
    forall k' | 0 <= k' < |cs| && cs[k'].lo <= q < cs[k'].hi
      ensures k' == k
    {
      if k' < k {
        TilesAscending(cs, start, end, k', k);
      } else if k < k' {
        TilesAscending(cs, start, end, k, k');
      }
    }
  }

  /** A task outcome that the collector accepts: a proof below `end`. */
  predicate Found(o: Option<u64>, end: u64) {
    o.Some? && o.value < end
  }

  /** The order in which the chunk outcomes reach the collector: every submitted task's
      index exactly once. */
  predicate IsArrivalOrder(arrival: seq<nat>, n: nat) {
    && |arrival| == n
    && (forall k :: 0 <= k < |arrival| ==> arrival[k] < n)
    && (forall i :: 0 <= i < n ==> i in arrival)
  }

  /** The receive loop of `mine_range`: outcomes are taken in arrival order (a task that
      found nothing sends nothing), the first proof below `end` is returned, and `end`
      when none arrives. */
  method Collect(outcomes: seq<Option<u64>>, arrival: seq<nat>, end: u64) returns (r: u64)
    requires IsArrivalOrder(arrival, |outcomes|)
    ensures r <= end
    ensures r < end ==> exists k :: && 0 <= k < |arrival|
                                    && outcomes[arrival[k]] == Some(r)
                                    && forall j :: 0 <= j < k ==> !Found(outcomes[arrival[j]], end)
    ensures r == end <==> forall i :: 0 <= i < |outcomes| ==> !Found(outcomes[i], end)
  {
    var k := 0;
    while k < |arrival|
      invariant 0 <= k <= |arrival|
      invariant forall j :: 0 <= j < k ==> !Found(outcomes[arrival[j]], end)
    {
      var outcome := outcomes[arrival[k]];
      if outcome.Some? && outcome.value < end {
        return outcome.value;
      }
      k := k + 1;
    }
    forall i | 0 <= i < |outcomes|
      ensures !Found(outcomes[i], end)
    {
      assert i in arrival;
      var j :| 0 <= j < |arrival| && arrival[j] == i;
    }
    return end;
  }
}
