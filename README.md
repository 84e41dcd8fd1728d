# Proof-of-work block and miner, modelled in Dafny

This project models the block and mining core of a toy proof-of-work blockchain
(`src/block.rs`). A block holds the digest of its predecessor, a generation number, a
difficulty, a data string and an optional proof (a nonce). The block's digest is SHA-256
of a canonical pre-image string. A proof is valid when that digest passes the difficulty
test. Mining searches a nonce range for a valid proof: the range is split into chunks,
each chunk is scanned upwards by a task on a worker pool, and the first proof that comes
back wins.

Modules, one per concern of `src/block.rs`:

- `Types` (`types.dfy`): `u8`, `u64`, the 32-byte `Hash`, the digest function type
  `HashFn`, and `Option`.
- `Arith` (`arith.dfy`): powers of two, Euclidean division, and rounded-up division.
- `Format` (`format.dfy`): `{:02x}` rendering of the digest bytes and `{}` rendering of
  unsigned integers, each with a parser that inverts it.
- `Preimage` (`preimage.dfy`): the pre-image
  `hex(prev_hash):generation:difficulty:data:proof`, and a parser that recovers every
  field from it, even when `data` contains colons.
- `Difficulty` (`difficulty.dfy`): `hash_satisfies_difficulty` as the code runs it, the
  byte-and-bit test of its commented-out alternative, and the numeric meaning "at least
  `difficulty` trailing zero bits".
- `Dispatch` (`dispatch.dfy`): the chunk partitioning of `mine_range`, computed exactly
  as the code does, and its result collector.
- `Blocks` (`block.dfy`): the `Block` class, its digest and validity, `mine_serial`,
  `mine_range`, `mine_for_proof`, `mine`, and `MiningTask::run`.

SHA-256 is foreign code (the `sha2` crate). Every operation that hashes takes it as a
parameter `sha: HashFn`, a function from a string to 32 bytes, and nothing else is
assumed about it. `set_proof`, `mine` and `mine_serial` write the block's `proof` field
in place, so `Block` is a class. The functions that read a block name the fields they
read. None of the digest functions reads `proof`, so the frame itself states that the
digest for a trial proof ignores the stored proof.

## Where the code and the documented design differ

The model follows the code in each case below.

- **Difficulty test.** The documented intent is "at least `difficulty` trailing zero
  bits". The code's first loop requires the last `difficulty / 8` bytes to be zero. Its
  second loop then tests the single bit `difficulty % 8` of each of the last
  `difficulty % 8` bytes. It does not test the low `difficulty % 8` bits of byte
  `31 - difficulty / 8`. The two agree exactly when `difficulty % 8 == 0`
  (`ByteAlignedAgrees`, `ByteAlignedIsTrailingZeroBits`). For every other difficulty
  the code accepts a digest with too few trailing zero bits
  (`AsWrittenAcceptsTooFewZeroBits`). Below one byte it also rejects a digest that has
  enough of them (`AsWrittenRejectsEnoughZeroBits`). The commented-out alternative
  (src/block.rs:117-122) is modelled as `IntendedSatisfies`. It is proved equal to the
  trailing-zero-bits reading (`IntendedIsTrailingZeroBits`).
- **Empty range.** With `start == end`, `mine_range` does not return `end`: the chunk
  width is 0 and `end - start + chunk_size - 1` underflows (line 191). `MineRange`
  therefore requires `start < end`.
- **Chunk bounds.** The code computes a chunk's end as
  `chunk_start.min(end).saturating_add(chunk_size).min(end)` and forces the last chunk to
  end at `end`. `PartitionRange` runs that computation and proves it equal to the closed
  form `[start + i*w, min(start + (i+1)*w, end))` (`ChunkAt`).
- **Fallback `end`.** Workers that find nothing send nothing, and they keep their result
  senders alive, so the receive loop blocks forever instead of reaching the `end`
  fallback. With zero workers every sender is already dropped, and `recv` panics. Only the
  sequential collector reaches `end`.
- **Difficulty 0.** Every nonce is valid at difficulty 0, but `mine` need not return 0.
  Each chunk reports its own start, and the first chunk to arrive wins.

## Model

| member | source | states |
|---|---|---|
| `Format.HexByte` | src/block.rs:45-47 | a byte renders as exactly two lower-case hex digits, high nibble first, whose value is the byte |
| `Format.Hex` | src/block.rs:45-47 | a byte array renders as two lower-case hex digits per byte (64 for a digest) |
| `Format.ParseHexRoundTrip` | src/block.rs:45-47 | parsing the hex rendering gives back the bytes |
| `Format.HexInjective` | src/block.rs:45-47 | distinct byte arrays render differently |
| `Format.Decimal` | src/block.rs:45-51 | an unsigned integer renders as non-empty decimal digits with no leading zero |
| `Format.ParseDecimalRoundTrip` | src/block.rs:45-51 | parsing the decimal rendering gives back the number |
| `Format.DecimalOfParse` | src/block.rs:45-51 | every canonical numeral is the rendering of its value, so each number has exactly one rendering |
| `Preimage.ParsePreImageRoundTrip` | src/block.rs:42-53 | prev_hash, generation, difficulty, data (colons included) and the proof are all recovered from the pre-image |
| `Preimage.PreImageInjective` | src/block.rs:42-53 | distinct field tuples have distinct pre-images |
| `Blocks.HashStringForProofParses` | src/block.rs:42-53 | the pre-image of a block for trial proof p reads back as its four header fields and p |
| `Blocks.SamePreImageIffSameFields` | src/block.rs:42-71 | two blocks' pre-images (and so their digests) for trial proofs p, q are equal when their header fields and p, q agree; the pre-images are equal only then; the stored proof plays no part |
| `Blocks.StoredProofDigest` | src/block.rs:55-77 | `hash_string` and `hash` are the trial-proof versions at the stored proof, which must be present |
| `Blocks.Block.Initial` | src/block.rs:20-29 | all-zero prev_hash, generation 0, the given difficulty, empty data, no proof |
| `Blocks.Block.Next` | src/block.rs:31-40 | requires a mined predecessor; prev_hash is its digest, generation one more, same difficulty, the given data, no proof |
| `Blocks.Block.SetProof` | src/block.rs:79-81 | only `proof` changes, to `Some(p)`, and then `is_valid` equals `is_valid_for_proof(p)` |
| `Difficulty.HashSatisfiesDifficulty` | src/block.rs:83-125 | the two loops accept exactly when the last difficulty/8 bytes are zero and bit difficulty%8 is clear in each of the last difficulty%8 bytes (always at difficulty 0) |
| `Difficulty.ReadIndicesInRange` | src/block.rs:93-103 | for every u8 difficulty each digest index the loops read lies in 1..=31 |
| `Difficulty.NonZeroTrailingByteRejects` | src/block.rs:93-97 | a non-zero byte among the last difficulty/8 makes the test fail |
| `Difficulty.ByteAlignedAgrees` | src/block.rs:99-122 | when difficulty%8 == 0 the code and the commented-out alternative agree |
| `Difficulty.ByteAlignedIsTrailingZeroBits` | src/block.rs:89-103 | when difficulty%8 == 0 the test passes exactly when the last difficulty/8 bytes are zero, i.e. the digest has at least difficulty trailing zero bits |
| `Difficulty.IntendedIsTrailingZeroBits` | src/block.rs:117-122 | the commented-out test passes exactly when the digest, read as a big-endian number, is divisible by 2^difficulty |
| `Difficulty.AsWrittenAcceptsTooFewZeroBits` | src/block.rs:99-103 | for every difficulty with difficulty%8 != 0, the code accepts a digest with too few trailing zero bits |
| `Difficulty.AsWrittenRejectsEnoughZeroBits` | src/block.rs:99-103 | for 0 < difficulty < 8 the code rejects a digest whose last byte is 1 << difficulty, which has enough trailing zero bits |
| `Blocks.IsValidForProofMeaning` | src/block.rs:127-129 | every nonce is valid at difficulty 0; a valid digest ends in difficulty/8 zero bytes; for whole-byte difficulties valid means at least difficulty trailing zero bits |
| `Blocks.Block.IsValid` | src/block.rs:131-136 | false without a proof; otherwise validity for the stored proof |
| `Blocks.Block.MineSerial` | src/block.rs:141-147 | when a valid u64 nonce exists, stores the least valid nonce, so the block is then valid |
| `Blocks.MiningTask.Run` | src/block.rs:226-236 | Some(p) only for the least valid nonce p of [start, end); None exactly when no nonce of [start, end) is valid |
| `Dispatch.ChunkWidth` | src/block.rs:163 | the chunk width is (end - start) / chunks rounded up: the least width whose chunks cover the range |
| `Dispatch.ChunkCount` | src/block.rs:191 | the number of non-empty chunks is between 1 and chunks |
| `Dispatch.PartitionRange` | src/block.rs:162-191 | with chunks >= 1, start < end and no overflow: the submitted chunks are the closed-form chunks, non-empty, consecutive, from start to end, each at most one width long, and their number is tasks_submitted |
| `Dispatch.TilesAscending` | src/block.rs:166-189 | submitted chunks are strictly ascending and pairwise disjoint |
| `Dispatch.TilesInside` | src/block.rs:166-189 | every submitted chunk lies inside [start, end) |
| `Dispatch.TilesCover` | src/block.rs:166-189 | every nonce of [start, end) lies in exactly one submitted chunk |
| `Dispatch.Collect` | src/block.rs:193-200 | returns the first proof below end in arrival order, and end exactly when no outcome holds such a proof |
| `Blocks.FoundIsValid` | src/block.rs:193-200 | a proof reported by a chunk's task is valid, inside [start, end) and the least valid nonce of its chunk |
| `Blocks.NothingFoundIffNoValidProof` | src/block.rs:193-200 | no task reports a proof exactly when no nonce of [start, end) is valid |
| `Blocks.Block.RunChunks` | src/block.rs:180-188 | one outcome per submitted chunk, in order, each what `MiningTask::run` reports for that chunk: its least valid nonce, or nothing exactly when the chunk holds no valid nonce |
| `Blocks.CollectedProof` | src/block.rs:191-201 | an answer the collector picks from the chunk outcomes is a valid proof inside some chunk and the least valid nonce of that chunk, or end exactly when no nonce of [start, end) is valid |
| `Blocks.Block.MineRange` | src/block.rs:149-202 | the result is a valid proof in [start, end) that is the least valid nonce of its chunk, or end exactly when no nonce of [start, end) is valid |
| `Blocks.MineRangeArgsOk` | src/block.rs:204-209 | for difficulty <= 60 the range [0, 8 * 2^difficulty) with 2345 chunks meets mine_range's requirements |
| `Blocks.Block.MineForProof` | src/block.rs:204-209 | searches [0, 8 * 2^difficulty): a result below the end is valid; the end comes back exactly when none of those nonces is valid |
| `Blocks.Block.Mine` | src/block.rs:211-213 | stores the proof mine_for_proof finds, which makes the block valid unless the range holds no valid nonce |

## Left out

- SHA-256 (`sha2::Sha256`, src/block.rs:61-71) is a parameter. Its input is the
  pre-image string; the UTF-8 encoding is folded into that parameter.
- `src/queue.rs` (the `WorkQueue` thread pool: `new`, the worker loop, `enqueue`, the
  `recv` family, `iter`, `shutdown`, `Drop`) is not part of this model. Its subject is
  concurrency. Only the `Task` shape (`run() -> Option<Output>`, src/queue.rs:6-10)
  appears, as `MiningTask.Run`.
- Blocks.Block.MineRange: the worker pool is replaced by running every submitted task
  and giving the collector an arbitrary arrival order (`IsArrivalOrder`). Thread
  scheduling, blocking in `recv`, abandoning tasks still in flight and the `workers`
  count are not modelled; `workers` is accepted and ignored.
- Blocks.Block.MineRange: the tasks share the block itself. The code shares an `Arc` of a
  clone of it (src/block.rs:160); nothing writes the block during the search, so both
  behave the same.
- Blocks.Block.MineSerial: termination is proved only under the precondition that some
  `u64` nonce is valid. Whether one exists depends on SHA-256. Without one, the code
  overflows `p` or never stops.
- u64 and u8 overflow: Rust's debug build panics on overflow. Each overflow point is a
  precondition: the generation increment in `next`, the chunk arithmetic of `mine_range`
  (`NoOverflow`), and `difficulty <= 60` in `mine_for_proof`. Release-build wrap-around
  is not modelled.
- Block's `Debug` derive is not modelled. Its `Clone` derive is covered by the sharing
  note above.
