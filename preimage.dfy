/** The canonical pre-image of a block for a trial proof: the string that is hashed
    (`Block::hash_string_for_proof`, src/block.rs), and a parser that recovers every
    field from it. */
module Preimage {
  import opened Types
  import opened Format

  /** The five values the pre-image is built from. */
  datatype Fields = Fields(prevHash: Hash, generation: u64, difficulty: u8, data: string, proof: u64)

  /** `format!("{:02x}:{}:{}:{}:{}", prev_hash, generation, difficulty, data, proof)`:
      64 hex digits, then the two decimal header numbers, the data verbatim and the
      decimal proof, separated by colons. */
  function PreImage(f: Fields): string {
    Hex(f.prevHash) + ":" + Decimal(f.generation as nat) + ":" + Decimal(f.difficulty as nat)
      + ":" + f.data + ":" + Decimal(f.proof as nat)
  }

  /** Splits `s` at its first `c`: the text before it and the text after it. */
  function SplitFirst(s: string, c: char): (r: Option<(string, string)>)
    ensures r.Some? ==> s == r.value.0 + [c] + r.value.1
    ensures r.Some? ==> forall i :: 0 <= i < |r.value.0| ==> r.value.0[i] != c
    ensures r.None? ==> forall i :: 0 <= i < |s| ==> s[i] != c
  {
    if s == [] then None
    else if s[0] == c then Some(([], s[1..]))
    else
      match SplitFirst(s[1..], c)
      case None => None
      case Some((before, after)) => Some(([s[0]] + before, after))
  }

  /** Splits `s` at its last `c`: the text before it and the text after it. */
  function SplitLast(s: string, c: char): (r: Option<(string, string)>)
    ensures r.Some? ==> s == r.value.0 + [c] + r.value.1
    ensures r.Some? ==> forall i :: 0 <= i < |r.value.1| ==> r.value.1[i] != c
    ensures r.None? ==> forall i :: 0 <= i < |s| ==> s[i] != c
  {
    if s == [] then None
    else if s[|s| - 1] == c then Some((s[..|s| - 1], []))
    else
      match SplitLast(s[..|s| - 1], c)
      case None => None
      case Some((before, after)) => Some((before, after + [s[|s| - 1]]))
  }

  /** Builds the fields from their textual parts, rejecting numbers that are not
      canonical or do not fit their Rust types. */
  function FieldsOf(hex: string, gen: string, diff: string, data: string, proof: string): Option<Fields> {
    match (ParseHex(hex), ParseDecimal(gen), ParseDecimal(diff), ParseDecimal(proof))
    case (Some(h), Some(g), Some(d), Some(p)) =>
      if |h| == 32 && g < U64_LIMIT && d < 0x100 && p < U64_LIMIT
      then Some(Fields(h, g as u64, d as u8, data, p as u64))
      else None
    case _ => None
  }

  /** Splits a pre-image back into its fields. The hex part has a fixed width, the two
      header numbers end at the first two colons after it, and the proof starts after
      the last colon, so a `data` holding colons is still recovered exactly. */
  function ParsePreImage(s: string): Option<Fields> {
    if |s| < 65 || s[64] != ':' then None
    else
      match SplitFirst(s[65..], ':')
      case None => None
      case Some((gen, rest)) =>
        match SplitFirst(rest, ':')
        case None => None
        case Some((diff, rest')) =>
          match SplitLast(rest', ':')
          case None => None
          case Some((data, proof)) => FieldsOf(s[..64], gen, diff, data, proof)
  }

  lemma {:induction false} SplitFirstAt(a: string, c: char, b: string)
    requires forall i :: 0 <= i < |a| ==> a[i] != c
    ensures SplitFirst(a + [c] + b, c) == Some((a, b))
  {
    if a != [] {
      assert (a + [c] + b)[1..] == a[1..] + [c] + b;
      SplitFirstAt(a[1..], c, b);
      assert [a[0]] + a[1..] == a;
    } else {
      assert (a + [c] + b)[1..] == b;
    }
  }

  lemma {:induction false} SplitLastAt(a: string, c: char, b: string)
    requires forall i :: 0 <= i < |b| ==> b[i] != c
    ensures SplitLast(a + [c] + b, c) == Some((a, b))
  {
    var s := a + [c] + b;
    if b != [] {
      var b' := b[..|b| - 1];
      assert s[..|s| - 1] == a + [c] + b';
      SplitLastAt(a, c, b');
      assert b' + [b[|b| - 1]] == b;
    } else {
      assert s[..|s| - 1] == a;
    }
  }

  lemma NoColonInDecimal(n: nat)
    ensures forall i :: 0 <= i < |Decimal(n)| ==> Decimal(n)[i] != ':'
  {
  }

  lemma FieldsOfRendered(f: Fields)
    ensures FieldsOf(Hex(f.prevHash), Decimal(f.generation as nat), Decimal(f.difficulty as nat),
                     f.data, Decimal(f.proof as nat)) == Some(f)
  {
    ParseHexRoundTrip(f.prevHash);
    ParseDecimalRoundTrip(f.generation as nat);
    ParseDecimalRoundTrip(f.difficulty as nat);
    ParseDecimalRoundTrip(f.proof as nat);
  }

  /** Every field can be read back from the pre-image. */
  lemma ParsePreImageRoundTrip(f: Fields)
    ensures ParsePreImage(PreImage(f)) == Some(f)
  {
    var G, D, P := Decimal(f.generation as nat), Decimal(f.difficulty as nat), Decimal(f.proof as nat);
    var rest' := f.data + [':'] + P;
    var rest := D + [':'] + rest';
    PreImageShape(f);
    NoColonInDecimal(f.generation as nat);
    NoColonInDecimal(f.difficulty as nat);
    NoColonInDecimal(f.proof as nat);
    SplitFirstAt(G, ':', rest);
    SplitFirstAt(D, ':', rest');
    SplitLastAt(f.data, ':', P);
    FieldsOfRendered(f);
  }

  /** The pre-image is the 64 hex digits, a colon, and the remaining fields joined by
      colons. */
  lemma PreImageShape(f: Fields)
    ensures var s := PreImage(f);
            && |s| >= 65 && s[..64] == Hex(f.prevHash) && s[64] == ':'
            && s[65..] == Decimal(f.generation as nat) + [':'] + (Decimal(f.difficulty as nat) + [':']
                            + (f.data + [':'] + Decimal(f.proof as nat)))
  {
    var H, G, D, P := Hex(f.prevHash), Decimal(f.generation as nat), Decimal(f.difficulty as nat), Decimal(f.proof as nat);
    var tail := G + [':'] + (D + [':'] + (f.data + [':'] + P));
    var s := PreImage(f);
    assert s == H + [':'] + tail;
  }


  /** Distinct field tuples never share a pre-image, so the digest input identifies the
      block contents and the trial proof. */
  lemma PreImageInjective(f: Fields, g: Fields)
    requires PreImage(f) == PreImage(g)
    ensures f == g
  {
    ParsePreImageRoundTrip(f);
    ParsePreImageRoundTrip(g);
  }
}
