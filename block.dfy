/** The block, its digest and validity, and the proof search of src/block.rs. The
    digest function (SHA-256) is a parameter `sha`; the worker pool of `mine_range` is
    replaced by running every submitted task and collecting their outcomes in a given
    arrival order. */
module Blocks {
  import opened Types
  import opened Arith
  import opened Preimage
  import opened Difficulty
  import opened Dispatch

  /** `8 * (1 << difficulty)`: the end of the range `mine_for_proof` searches. */
  function MineRangeEnd(difficulty: u8): (end: u64)
    requires difficulty <= 60
    ensures end as int == 8 * Pow2(difficulty as nat)
  {
    Pow2Monotone(difficulty as nat, 60);
    Pow2Sixty();
    (8 * Pow2(difficulty as nat)) as u64
  }

  /** The number of chunks `mine_for_proof` splits its range into. */
  const MINE_CHUNKS: u64 := 2345

  class Block {
    var prevHash: Hash
    var generation: u64
    var difficulty: u8
    var data: string
    var proof: Option<u64>

    /** `Block::initial`: the first block of a chain. */
    constructor Initial(difficulty: u8)
      ensures prevHash == ZeroHash() && generation == 0 && this.difficulty == difficulty
      ensures data == "" && proof == None
    {
      prevHash := ZeroHash();
      generation := 0;
      this.difficulty := difficulty;
      data := "";
      proof := None;
    }

    /** `Block::next`: a block that can follow `previous`. The previous block must be
        mined (its proof is unwrapped) and its generation must not be `u64::MAX`. */
    constructor Next(sha: HashFn, previous: Block, data: string)
      requires previous.proof.Some?
      requires previous.generation as int + 1 < U64_LIMIT
      ensures prevHash == previous.Hash(sha)
      ensures generation as int == previous.generation as int + 1
      ensures difficulty == previous.difficulty && this.data == data && proof == None
    {
      prevHash := previous.Hash(sha);
      generation := previous.generation + 1;
      difficulty := previous.difficulty;
      this.data := data;
      proof := None;
    }

    /** The values the pre-image is built from, with `p` in place of the stored proof. */
    function FieldsFor(p: u64): Fields
      reads this`prevHash, this`generation, this`difficulty, this`data
    {
      Fields(prevHash, generation, difficulty, data, p)
    }

    /** `hash_string_for_proof`: the pre-image for trial proof `p`. */
    function HashStringForProof(p: u64): string
      reads this`prevHash, this`generation, this`difficulty, this`data
    {
      PreImage(FieldsFor(p))
    }

    /** `hash_string`: the pre-image at the stored proof, which must be present. */
    function HashString(): string
      reads this
      requires proof.Some?
    {
      HashStringForProof(proof.value)
    }

    /** `hash_for_proof`: the digest of the pre-image for `p`. */
    function HashForProof(sha: HashFn, p: u64): Hash
      reads this`prevHash, this`generation, this`difficulty, this`data
    {
      sha(HashStringForProof(p))
    }

    /** `hash`: the digest at the stored proof, which must be present. */
    function Hash(sha: HashFn): Hash
      reads this
      requires proof.Some?
    {
      HashForProof(sha, proof.value)
    }

    /** `set_proof`: records `p`; the other fields are not written. */
    method SetProof(p: u64)
      modifies this`proof
      ensures proof == Some(p)
      ensures forall sha :: IsValid(sha) == IsValidForProof(sha, p)
    {
      proof := Some(p);
    }

    /** `is_valid_for_proof`: the digest for `p` passes the difficulty test. */
    function IsValidForProof(sha: HashFn, p: u64): bool
      reads this`prevHash, this`generation, this`difficulty, this`data
    {
      Satisfies(difficulty, HashForProof(sha, p))
    }

    /** `is_valid`: a proof is stored and it is valid. */
    function IsValid(sha: HashFn): (r: bool)
      reads this
      ensures proof.None? ==> !r
      ensures proof.Some? ==> (r <==> IsValidForProof(sha, proof.value))
    {
      proof.Some? && IsValidForProof(sha, proof.value)
    }

    /** No nonce in `[lo, hi)` is a valid proof for this block. */
    predicate NoValidProofIn(sha: HashFn, lo: int, hi: int)
      reads this`prevHash, this`generation, this`difficulty, this`data
    {
      forall q: u64 :: lo <= q as int < hi ==> !IsValidForProof(sha, q)
    }

    /** `mine_serial`: tries 0, 1, 2, ... and stores the first valid proof. The loop ends
        only if some `u64` nonce is valid (otherwise `p += 1` overflows), which this
        method therefore requires. */
    method MineSerial(sha: HashFn)
      requires exists q: u64 :: IsValidForProof(sha, q)
      modifies this`proof
      ensures proof.Some? && IsValid(sha)
      ensures NoValidProofIn(sha, 0, proof.value as int)
    {
      ghost var valid: u64 :| IsValidForProof(sha, valid);
      var p: u64 := 0;
      while !IsValidForProof(sha, p)
        invariant p <= valid
        invariant NoValidProofIn(sha, 0, p as int)
        decreases valid as int - p as int
      {
        assert p != valid;
        p := p + 1;
      }
      proof := Some(p);
    }

    /** `mine_range`: splits `[start, end)` into chunks, runs one task per chunk and
        returns the first proof that arrives, or `end` when no task finds one. A returned
        proof is valid and the least valid nonce of its own chunk; `end` comes back
        exactly when no nonce in the range is valid. The worker count only sizes the
        pool and does not change the outcome. */
    method MineRange(sha: HashFn, workers: nat, start: u64, end: u64, chunks: u64, arrival: seq<nat>)
      returns (r: u64)
      requires RangeArgsOk(start, end, chunks)
      requires IsArrivalOrder(arrival, ChunkCount(start, end, chunks))
      ensures start <= r <= end
      ensures r < end ==> IsValidForProof(sha, r)
      ensures r < end ==> exists k :: && 0 <= k < ChunkCount(start, end, chunks)
                                      && ChunkAt(start, end, chunks, k).lo <= r < ChunkAt(start, end, chunks, k).hi
                                      && NoValidProofIn(sha, ChunkAt(start, end, chunks, k).lo as int, r as int)
      ensures r == end <==> NoValidProofIn(sha, start as int, end as int)
    {
      var tasks, tasksSubmitted := PartitionRange(start, end, chunks);
      var outcomes := RunChunks(sha, tasks);
      r := Collect(outcomes, arrival, end);
      CollectedProof(this, sha, start, end, chunks, tasks, outcomes, arrival, r);
    }

    /** Runs the `MiningTask` of every submitted chunk, in submission order, and keeps
        what each one reports. */
    method RunChunks(sha: HashFn, tasks: seq<Chunk>) returns (outcomes: seq<Option<u64>>)
      ensures |outcomes| == |tasks|
      ensures forall j :: 0 <= j < |tasks| ==> ChunkOutcome(sha, tasks[j], outcomes[j])
    {
      outcomes := [];
      for i := 0 to |tasks|
        invariant |outcomes| == i
        invariant forall j :: 0 <= j < i ==> ChunkOutcome(sha, tasks[j], outcomes[j])
      {
        var outcome := MiningTask(this, tasks[i].lo, tasks[i].hi).Run(sha);
        assert ChunkOutcome(sha, tasks[i], outcome);
        outcomes := outcomes + [outcome];
      }
    }

    /** What running the task for `chunk` may report, as `MiningTask::run` promises. */
    predicate ChunkOutcome(sha: HashFn, chunk: Chunk, outcome: Option<u64>)
      reads this`prevHash, this`generation, this`difficulty, this`data
    {
      match outcome
      case Some(p) =>
        chunk.lo <= p < chunk.hi && IsValidForProof(sha, p) && NoValidProofIn(sha, chunk.lo as int, p as int)
      case None => NoValidProofIn(sha, chunk.lo as int, chunk.hi as int)
    }

    /** `mine_for_proof`: `mine_range` over `[0, 8 * 2^difficulty)` in 2345 chunks. The
        shift and the product fit in a `u64` only up to difficulty 60. */
    method MineForProof(sha: HashFn, workers: nat, arrival: seq<nat>) returns (r: u64)
      requires difficulty <= 60
      requires IsArrivalOrder(arrival, ChunkCount(0, MineRangeEnd(difficulty), MINE_CHUNKS))
      ensures r <= MineRangeEnd(difficulty)
      ensures r < MineRangeEnd(difficulty) ==> IsValidForProof(sha, r)
      ensures r == MineRangeEnd(difficulty) <==> NoValidProofIn(sha, 0, MineRangeEnd(difficulty) as int)
    {
      var rangeStart: u64 := 0;
      var rangeEnd: u64 := MineRangeEnd(difficulty);
      MineRangeArgsOk(difficulty);
      r := MineRange(sha, workers, rangeStart, rangeEnd, MINE_CHUNKS, arrival);
    }

    /** `mine`: stores the proof `mine_for_proof` returns. */
    method Mine(sha: HashFn, workers: nat, arrival: seq<nat>)
      requires difficulty <= 60
      requires IsArrivalOrder(arrival, ChunkCount(0, MineRangeEnd(difficulty), MINE_CHUNKS))
      modifies this`proof
      ensures proof.Some? && proof.value <= MineRangeEnd(difficulty)
      ensures proof.value < MineRangeEnd(difficulty) ==> IsValid(sha)
      ensures proof.value == MineRangeEnd(difficulty) <==> NoValidProofIn(sha, 0, MineRangeEnd(difficulty) as int)
    {
      var p := MineForProof(sha, workers, arrival);
      proof := Some(p);
    }
  }

  /** The pre-image for `p` reads back as the four header fields and `p`. */
  lemma HashStringForProofParses(b: Block, p: u64)
    ensures ParsePreImage(b.HashStringForProof(p)) == Some(Fields(b.prevHash, b.generation, b.difficulty, b.data, p))
  {
    ParsePreImageRoundTrip(b.FieldsFor(p));
  }

  /** `hash_string` and `hash` are the trial-proof versions at the stored proof, so the
      stored pre-image reads back as the header fields and the stored proof. */
  lemma StoredProofDigest(b: Block, sha: HashFn)
    requires b.proof.Some?
    ensures b.HashString() == b.HashStringForProof(b.proof.value)
    ensures b.Hash(sha) == b.HashForProof(sha, b.proof.value)
    ensures ParsePreImage(b.HashString()) == Some(Fields(b.prevHash, b.generation, b.difficulty, b.data, b.proof.value))
  {
    HashStringForProofParses(b, b.proof.value);
  }

  /** Two blocks give the same pre-image for two trial proofs exactly when their header
      fields and the trial proofs agree; the stored proof plays no part. */
  lemma SamePreImageIffSameFields(a: Block, b: Block, p: u64, q: u64)
    ensures a.HashStringForProof(p) == b.HashStringForProof(q)
        <==> a.FieldsFor(p) == b.FieldsFor(q)
  {
    if a.HashStringForProof(p) == b.HashStringForProof(q) {
      PreImageInjective(a.FieldsFor(p), b.FieldsFor(q));
    }
  }

  /** What validity for a trial proof means for the digest: every nonce is valid at
      difficulty 0, a valid digest ends in `difficulty / 8` zero bytes, and for
      whole-byte difficulties validity is exactly "at least `difficulty` trailing zero
      bits". */
  lemma IsValidForProofMeaning(b: Block, sha: HashFn, p: u64)
    ensures b.difficulty == 0 ==> b.IsValidForProof(sha, p)
    ensures b.IsValidForProof(sha, p) ==>
              forall i :: 0 <= i < b.difficulty as int / 8 ==> Back(b.HashForProof(sha, p), i) == 0
    ensures b.difficulty % 8 == 0 ==>
              (b.IsValidForProof(sha, p) <==> HasTrailingZeroBits(b.HashForProof(sha, p), b.difficulty as nat))
  {
    if b.difficulty % 8 == 0 {
      ByteAlignedIsTrailingZeroBits(b.difficulty, b.HashForProof(sha, p));
    }
  }

  /** A proof reported for a tiling chunk lies in the range, is valid and is the least
      valid nonce of its chunk. */
  lemma FoundIsValid(b: Block, sha: HashFn, start: u64, end: u64, tasks: seq<Chunk>, outcomes: seq<Option<u64>>, t: int)
    requires Tiles(tasks, start, end) && |outcomes| == |tasks|
    requires forall j :: 0 <= j < |tasks| ==> b.ChunkOutcome(sha, tasks[j], outcomes[j])
    requires 0 <= t < |tasks| && outcomes[t].Some?
    ensures start <= outcomes[t].value < end
    ensures tasks[t].lo <= outcomes[t].value < tasks[t].hi
    ensures b.IsValidForProof(sha, outcomes[t].value)
    ensures b.NoValidProofIn(sha, tasks[t].lo as int, outcomes[t].value as int)
  {
    TilesInside(tasks, start, end, t);
    assert b.ChunkOutcome(sha, tasks[t], outcomes[t]);
  }

  /** No task reports a proof exactly when no nonce of the tiled range is valid. */
  lemma NothingFoundIffNoValidProof(b: Block, sha: HashFn, start: u64, end: u64, tasks: seq<Chunk>, outcomes: seq<Option<u64>>)
    requires Tiles(tasks, start, end) && |outcomes| == |tasks|
    requires forall j :: 0 <= j < |tasks| ==> b.ChunkOutcome(sha, tasks[j], outcomes[j])
    ensures (forall i :: 0 <= i < |outcomes| ==> !Found(outcomes[i], end))
            <==> b.NoValidProofIn(sha, start as int, end as int)
  {
    if forall i :: 0 <= i < |outcomes| ==> !Found(outcomes[i], end) {
      forall q: u64 | start <= q < end
        ensures !b.IsValidForProof(sha, q)
      {
        var k := TilesCover(tasks, start, end, q);
        TilesInside(tasks, start, end, k);
        assert b.ChunkOutcome(sha, tasks[k], outcomes[k]);
        assert !Found(outcomes[k], end);
      }
    }
    if b.NoValidProofIn(sha, start as int, end as int) {
      forall i | 0 <= i < |outcomes|
        ensures !Found(outcomes[i], end)
      {
        FoundIsValidOrNone(b, sha, start, end, tasks, outcomes, i);
      }
    }
  }

  lemma FoundIsValidOrNone(b: Block, sha: HashFn, start: u64, end: u64, tasks: seq<Chunk>, outcomes: seq<Option<u64>>, t: int)
    requires Tiles(tasks, start, end) && |outcomes| == |tasks|
    requires forall j :: 0 <= j < |tasks| ==> b.ChunkOutcome(sha, tasks[j], outcomes[j])
    requires b.NoValidProofIn(sha, start as int, end as int)
    requires 0 <= t < |tasks|
    ensures outcomes[t].None?
  {
    if outcomes[t].Some? {
      FoundIsValid(b, sha, start, end, tasks, outcomes, t);
    }
  }

  /** What the collector's answer means for the whole range, given the submitted chunks
      and the outcomes their tasks report. */
  lemma CollectedProof(b: Block, sha: HashFn, start: u64, end: u64, chunks: u64, tasks: seq<Chunk>,
                       outcomes: seq<Option<u64>>, arrival: seq<nat>, r: u64)
    requires chunks >= 1 && start < end
    requires |tasks| == ChunkCount(start, end, chunks) && Tiles(tasks, start, end)
    requires forall k :: 0 <= k < |tasks| ==> tasks[k] == ChunkAt(start, end, chunks, k)
    requires |outcomes| == |tasks|
    requires forall j :: 0 <= j < |tasks| ==> b.ChunkOutcome(sha, tasks[j], outcomes[j])
    requires IsArrivalOrder(arrival, |outcomes|)
    requires r <= end
    requires r < end ==> exists k :: 0 <= k < |arrival| && outcomes[arrival[k]] == Some(r)
    requires r == end <==> forall i :: 0 <= i < |outcomes| ==> !Found(outcomes[i], end)
    ensures start <= r <= end
    ensures r < end ==> b.IsValidForProof(sha, r)
    ensures r < end ==> exists k :: && 0 <= k < ChunkCount(start, end, chunks)
                                    && ChunkAt(start, end, chunks, k).lo <= r < ChunkAt(start, end, chunks, k).hi
                                    && b.NoValidProofIn(sha, ChunkAt(start, end, chunks, k).lo as int, r as int)
    ensures r == end <==> b.NoValidProofIn(sha, start as int, end as int)
  {
    NothingFoundIffNoValidProof(b, sha, start, end, tasks, outcomes);
    if r < end {
      var k :| 0 <= k < |arrival| && outcomes[arrival[k]] == Some(r);
      FoundIsValid(b, sha, start, end, tasks, outcomes, arrival[k]);
      assert tasks[arrival[k]] == ChunkAt(start, end, chunks, arrival[k]);
    }
  }

  /** The arguments `mine_for_proof` passes satisfy what `mine_range` demands. */
  lemma MineRangeArgsOk(difficulty: u8)
    requires difficulty <= 60
    ensures RangeArgsOk(0, MineRangeEnd(difficulty), MINE_CHUNKS)
  {
    var end := MineRangeEnd(difficulty);
    var len, w := end as int, ChunkWidth(0, end, MINE_CHUNKS);
    Pow2Monotone(difficulty as nat, 60);
    Pow2Sixty();
    assert len <= 0x8000_0000_0000_0000;
    assert (w - 1) * 2345 < len;
    assert 2344 * w < len + 2345;
  }

  /** One chunk of the search: `MiningTask` holds the shared block and `[start, end)`. */
  datatype MiningTask = MiningTask(block: Block, start: u64, end: u64) {

    /** `MiningTask::run`: scans the chunk upwards and reports the first valid proof,
        which is then the least valid nonce of the chunk; `None` exactly when no nonce
        of the chunk is valid. */
    method Run(sha: HashFn) returns (r: Option<u64>)
      ensures r.Some? ==> && start <= r.value < end
                          && block.IsValidForProof(sha, r.value)
                          && block.NoValidProofIn(sha, start as int, r.value as int)
      ensures r.None? <==> block.NoValidProofIn(sha, start as int, end as int)
    {
      var proof := start;
      while proof < end
        invariant start <= proof
        invariant block.NoValidProofIn(sha, start as int, proof as int)
      {
        if block.IsValidForProof(sha, proof) {
          return Some(proof);
        }
        proof := proof + 1;
      }
      return None;
    }
  }
}
