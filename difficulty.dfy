/** The difficulty test on digests, `Block::hash_satisfies_difficulty` (src/block.rs),
    as the code executes it, next to the test its commented-out alternative performs
    and the numeric meaning "the digest has at least `difficulty` trailing zero bits". */
module Difficulty {
  import opened Types
  import opened Arith

  /** `(1 << k) & b != 0` on a byte. */
  predicate BitSet(b: bv8, k: nat)
    requires k < 8
  {
    Mask(k) & b != 0
  }

  /** `1 << k` as a byte. */
  function Mask(k: nat): (m: bv8)
    requires k < 8
    ensures m == 1 << k
  {
    match k
    case 0 => 1 case 1 => 2 case 2 => 4 case 3 => 8
    case 4 => 16 case 5 => 32 case 6 => 64 case _ => 128
  }

  /** `h[h.len() - 1 - i]`: the byte `i` places from the end. */
  function Back(h: seq<bv8>, i: nat): bv8
    requires i < |h|
  {
    h[|h| - 1 - i]
  }

  /** What the loops of `hash_satisfies_difficulty` accept: the last `difficulty / 8`
      bytes are zero, and for each of the last `difficulty % 8` bytes the single bit
      `difficulty % 8` is clear. */
  predicate Satisfies(difficulty: u8, h: Hash) {
    var nBytes, nBits := difficulty as int / 8, difficulty as int % 8;
    || difficulty == 0
    || (&& (forall i :: 0 <= i < nBytes ==> Back(h, i) == 0)
        && (forall i :: 0 <= i < nBits ==> !BitSet(Back(h, i), nBits)))
  }

  /** The difficulty test as written: two counted loops with early returns. */
  method HashSatisfiesDifficulty(difficulty: u8, hash: Hash) returns (r: bool)
    ensures r == Satisfies(difficulty, hash)
  {
    if difficulty == 0 {
      return true;
    }
    var nBytes := difficulty / 8;
    var nBits := difficulty % 8;
    for i := 0 to nBytes as int
      invariant forall k :: 0 <= k < i ==> Back(hash, k) == 0
    {
      if hash[|hash| - 1 - i] != 0 {
        assert Back(hash, i) != 0;
        return false;
      }
    }
    for i := 0 to nBits as int
      invariant forall k :: 0 <= k < i ==> !BitSet(Back(hash, k), nBits as int)
    {
      if (1 as bv8 << nBits as int) & hash[|hash| - 1 - i] != 0 {
        assert BitSet(Back(hash, i), nBits as int);
        return false;
      }
    }
    return true;
  }

  /** The digest indices the two loops read, in the order they read them
      (`hash.len() - 1 - i` with `hash.len() == 32`). */
  function ReadIndices(difficulty: u8): seq<int> {
    if difficulty == 0 then []
    else seq(difficulty as int / 8, i => 31 - i) + seq(difficulty as int % 8, i => 31 - i)
  }

  /** For every `u8` difficulty the loops stay inside the digest and never read byte 0. */
  lemma ReadIndicesInRange(difficulty: u8)
    ensures forall k :: k in ReadIndices(difficulty) ==> 1 <= k <= 31
  {
  }

  /** The test of the commented-out alternative: the last `difficulty / 8` bytes are
      zero and the low `difficulty % 8` bits of the byte before them are zero. */
  predicate IntendedSatisfies(difficulty: u8, h: seq<bv8>)
    requires difficulty as int / 8 < |h|
  {
    var nBytes, nBits := difficulty as int / 8, difficulty as int % 8;
    && (forall i :: 0 <= i < nBytes ==> Back(h, i) == 0)
    && (nBits > 0 ==> Back(h, nBytes) as int % Pow2(nBits) == 0)
  }

  /** A digest read as an unsigned big-endian number (byte 0 most significant). */
  function BigEndian(s: seq<bv8>): nat {
    if s == [] then 0 else BigEndian(s[..|s| - 1]) * 256 + s[|s| - 1] as int
  }

  /** The digest has at least `d` trailing zero bits. */
  predicate HasTrailingZeroBits(h: seq<bv8>, d: nat) {
    BigEndian(h) % Pow2(d) == 0
  }

  /** Appending a byte multiplies by 256: divisibility by `256 * m` needs a zero byte and
      divisibility of the rest by `m`. */
  lemma AppendByteDivisible(x: int, m: int, b: int)
    requires m >= 1 && 0 <= b < 256 && x >= 0
    ensures (x * 256 + b) % (256 * m) == 0 <==> b == 0 && x % m == 0
  {
    var n := 256 * m;
    var y := x * 256 + b;
    if b == 0 && x % m == 0 {
      var k := x / m;
      assert x == m * k;
      assert y == n * k;
      DivModUnique(y, n, k, 0);
    }
    if y % n == 0 {
      var k := y / n;
      assert y == n * k;
      assert b == 256 * (k * m - x);
      if k * m - x >= 1 { MulAtLeast(256, k * m - x); }
      if k * m - x <= -1 { MulAtLeast(256, x - k * m); }
      assert x == m * k;
      DivModUnique(x, m, k, 0);
    }
  }

  /** Below one byte's width only the last byte matters. */
  lemma AppendByteLowBits(x: int, p: int, b: int)
    requires x >= 0 && p >= 1 && 256 % p == 0 && 0 <= b < 256
    ensures (x * 256 + b) % p == b % p
  {
    var c := 256 / p;
    assert 256 == p * c;
    var q := b / p;
    assert b == p * q + b % p;
    assert x * 256 + b == p * (x * c + q) + b % p;
    DivModUnique(x * 256 + b, p, x * c + q, b % p);
  }

  /** Above one byte's width the intended test peels off the last byte. */
  lemma IntendedDropLastByte(difficulty: u8, h: seq<bv8>)
    requires difficulty >= 8 && difficulty as int / 8 < |h|
    ensures IntendedSatisfies(difficulty, h)
        <==> Back(h, 0) == 0 && IntendedSatisfies(difficulty - 8, h[..|h| - 1])
  {
    var init := h[..|h| - 1];
    var d, d' := difficulty as int, (difficulty - 8) as int;
    assert forall i :: 1 <= i < |h| ==> Back(h, i) == Back(init, i - 1);
    if Back(h, 0) == 0 && IntendedSatisfies(difficulty - 8, init) {
      assert forall i :: 1 <= i < d / 8 ==> Back(h, i) == 0 by {
        forall i | 1 <= i < d / 8 ensures Back(h, i) == 0 {
          assert Back(h, i) == Back(init, i - 1);
        }
      }
    }
    if IntendedSatisfies(difficulty, h) {
      forall i | 0 <= i < d' / 8 ensures Back(init, i) == 0 {
        assert Back(init, i) == Back(h, i + 1);
      }
    }
  }

  /** The intended byte-and-bit test is exactly "at least `difficulty` trailing zero bits"
      of the digest read as a number, for any digest long enough to hold them. */
  lemma {:induction false} IntendedIsTrailingZeroBits(difficulty: u8, h: seq<bv8>)
    requires difficulty as int / 8 < |h|
    ensures IntendedSatisfies(difficulty, h) <==> HasTrailingZeroBits(h, difficulty as nat)
  {
    if difficulty < 8 {
      IntendedWithinLastByte(difficulty, h);
    } else {
      IntendedIsTrailingZeroBits(difficulty - 8, h[..|h| - 1]);
      IntendedDropLastByte(difficulty, h);
      TrailingZeroBitsDropLastByte(difficulty as nat, h);
    }
  }

  /** Below one byte's width both readings look at the low bits of the last byte only. */
  lemma IntendedWithinLastByte(difficulty: u8, h: seq<bv8>)
    requires difficulty < 8 && |h| >= 1
    ensures IntendedSatisfies(difficulty, h) <==> HasTrailingZeroBits(h, difficulty as nat)
  {
    var d := difficulty as int;
    var x, last, p := BigEndian(h[..|h| - 1]), h[|h| - 1], Pow2(d);
    assert BigEndian(h) == x * 256 + last as int;
    assert Pow2(8) == 256;
    Pow2Add(d, 8 - d);
    DivModUnique(256, p, Pow2(8 - d), 0);
    AppendByteLowBits(x, p, last as int);
  }

  /** At least `d >= 8` trailing zero bits: a zero last byte and `d - 8` more before it. */
  lemma TrailingZeroBitsDropLastByte(d: nat, h: seq<bv8>)
    requires d >= 8 && |h| >= 1
    ensures HasTrailingZeroBits(h, d) <==> Back(h, 0) == 0 && HasTrailingZeroBits(h[..|h| - 1], d - 8)
  {
    var x, last, m := BigEndian(h[..|h| - 1]), h[|h| - 1], Pow2(d - 8);
    assert BigEndian(h) == x * 256 + last as int;
    assert Pow2(8) == 256;
    Pow2Add(8, d - 8);
    assert Pow2(d) == 256 * m;
    AppendByteDivisible(x, m, last as int);
  }

  /** Where `difficulty` is a whole number of bytes the second loop runs zero times, so
      the code as written and the intended test agree. */
  lemma ByteAlignedAgrees(difficulty: u8, h: Hash)
    requires difficulty % 8 == 0
    ensures Satisfies(difficulty, h) <==> IntendedSatisfies(difficulty, h)
  {
  }

  /** For whole-byte difficulties the code accepts exactly the digests with at least
      `difficulty` trailing zero bits, i.e. whose last `difficulty / 8` bytes are zero. */
  lemma ByteAlignedIsTrailingZeroBits(difficulty: u8, h: Hash)
    requires difficulty % 8 == 0
    ensures Satisfies(difficulty, h) <==> HasTrailingZeroBits(h, difficulty as nat)
    ensures Satisfies(difficulty, h) <==> forall i :: 0 <= i < difficulty as int / 8 ==> Back(h, i) == 0
  {
    IntendedIsTrailingZeroBits(difficulty, h);
  }

  /** Any non-zero byte among the last `difficulty / 8` makes the code reject. */
  lemma NonZeroTrailingByteRejects(difficulty: u8, h: Hash, i: int)
    requires 0 <= i < difficulty as int / 8 && Back(h, i) != 0
    ensures !Satisfies(difficulty, h)
  {
  }

  /** Whenever `difficulty % 8 != 0` the code accepts a digest with fewer trailing zero
      bits than required: only the byte `31 - difficulty / 8` is non-zero and it is odd. */
  lemma AsWrittenAcceptsTooFewZeroBits(difficulty: u8, h: Hash)
    requires difficulty % 8 != 0
    requires Back(h, difficulty as int / 8) == 1
    requires forall i :: 0 <= i < 32 && i != 31 - difficulty as int / 8 ==> h[i] == 0
    ensures Satisfies(difficulty, h)
    ensures !IntendedSatisfies(difficulty, h) && !HasTrailingZeroBits(h, difficulty as nat)
  {
    var nBits := difficulty as int % 8;
    forall i | 0 <= i < nBits
      ensures !BitSet(Back(h, i), nBits)
    {
      assert Back(h, i) == 0 || Back(h, i) == 1;
    }
    assert Pow2(nBits) >= 2 by {
      assert nBits >= 1;
    }
    IntendedIsTrailingZeroBits(difficulty, h);
  }

  lemma ShiftIsPow2(k: nat)
    requires k < 8
    ensures ((1 as bv8) << k) as int == Pow2(k)
  {
    assert k == 0 || k == 1 || k == 2 || k == 3 || k == 4 || k == 5 || k == 6 || k == 7;
  }

  /** Below one byte the code also rejects a digest with enough trailing zero bits: a
      last byte `1 << difficulty` has exactly `difficulty` of them, but its set bit is the
      one the code tests. */
  lemma AsWrittenRejectsEnoughZeroBits(difficulty: u8, h: Hash)
    requires 0 < difficulty < 8
    requires h[31] == (1 as bv8) << difficulty as nat
    ensures IntendedSatisfies(difficulty, h) && HasTrailingZeroBits(h, difficulty as nat)
    ensures !Satisfies(difficulty, h)
  {
    var d := difficulty as nat;
    assert Back(h, 0) == h[31];
    ShiftIsPow2(d);
    assert BitSet(Back(h, 0), d);
    IntendedIsTrailingZeroBits(difficulty, h);
  }
}
