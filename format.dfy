/** The two renderings `format!` applies in the block pre-image: lower-case hexadecimal
    for the digest bytes (`{:02x}` on a byte array) and plain decimal for unsigned
    integers (`{}`), each with the parser that inverts it. */
module Format {
  import opened Types
  import opened Arith

  predicate IsLowerHexChar(c: char) {
    '0' <= c <= '9' || 'a' <= c <= 'f'
  }

  predicate IsDecimalChar(c: char) {
    '0' <= c <= '9'
  }

  /** The digit a lower-case hex character stands for. */
  function HexValue(c: char): (n: nat)
    requires IsLowerHexChar(c)
    ensures n < 16
  {
    if c <= '9' then c as int - '0' as int else c as int - 'a' as int + 10
  }

  /** The lower-case hex character for a nibble. */
  function HexDigit(n: nat): (c: char)
    requires n < 16
    ensures IsLowerHexChar(c) && HexValue(c) == n
  {
    if n < 10 then ('0' as int + n) as char else ('a' as int + n - 10) as char
  }

  /** One byte as exactly two lower-case hex digits, high nibble first. */
  function HexByte(b: bv8): (s: string)
    ensures |s| == 2 && IsLowerHexChar(s[0]) && IsLowerHexChar(s[1])
    ensures HexValue(s[0]) * 16 + HexValue(s[1]) == b as int
  {
    [HexDigit(b as int / 16), HexDigit(b as int % 16)]
  }

  /** A byte array under `{:02x}`: every byte as two lower-case hex digits, in order. */
  function Hex(bytes: seq<bv8>): (s: string)
    ensures |s| == 2 * |bytes|
    ensures forall i :: 0 <= i < |s| ==> IsLowerHexChar(s[i])
  {
    if bytes == [] then [] else HexByte(bytes[0]) + Hex(bytes[1..])
  }

  /** Reads back a string of lower-case hex digit pairs; `None` on anything else. */
  function ParseHex(s: string): Option<seq<bv8>>
    decreases |s|
  {
    if s == [] then Some([])
    else if |s| == 1 || !IsLowerHexChar(s[0]) || !IsLowerHexChar(s[1]) then None
    else
      match ParseHex(s[2..])
      case None => None
      case Some(rest) => Some([(HexValue(s[0]) * 16 + HexValue(s[1])) as bv8] + rest)
  }

  lemma {:induction false} ParseHexRoundTrip(bytes: seq<bv8>)
    ensures ParseHex(Hex(bytes)) == Some(bytes)
  {
    if bytes != [] {
      var b, rest := bytes[0], bytes[1..];
      var s := Hex(bytes);
      assert s == HexByte(b) + Hex(rest);
      assert s[2..] == Hex(rest) && s[0] == HexByte(b)[0] && s[1] == HexByte(b)[1];
      ParseHexRoundTrip(rest);
      HexByteValue(b);
      assert [b] + rest == bytes;
    }
  }

  /** The two digits of a rendered byte denote that byte. */
  lemma HexByteValue(b: bv8)
    ensures (HexValue(HexByte(b)[0]) * 16 + HexValue(HexByte(b)[1])) as bv8 == b
  {
    var n := HexValue(HexByte(b)[0]) * 16 + HexValue(HexByte(b)[1]);
    assert n == b as int;
  }

  /** Hex rendering loses nothing: distinct byte arrays render differently. */
  lemma HexInjective(a: seq<bv8>, b: seq<bv8>)
    requires Hex(a) == Hex(b)
    ensures a == b
  {
    ParseHexRoundTrip(a);
    ParseHexRoundTrip(b);
  }

  /** The decimal character for a digit. */
  function DecimalDigit(n: nat): (c: char)
    requires n < 10
    ensures IsDecimalChar(c) && c as int - '0' as int == n
  {
    ('0' as int + n) as char
  }

  /** `{}` of an unsigned integer: decimal digits, most significant first, without
      leading zeros. */
  function Decimal(n: nat): (s: string)
    ensures |s| >= 1
    ensures forall i :: 0 <= i < |s| ==> IsDecimalChar(s[i])
    ensures s[0] == '0' ==> n == 0 && |s| == 1
  {
    if n < 10 then [DecimalDigit(n)] else Decimal(n / 10) + [DecimalDigit(n % 10)]
  }

  /** The number a string of decimal digits denotes. */
  function DigitsValue(s: string): nat
    requires forall i :: 0 <= i < |s| ==> IsDecimalChar(s[i])
  {
    if s == [] then 0
    else
      var last := s[|s| - 1];
      assert IsDecimalChar(last);
      DigitsValue(s[..|s| - 1]) * 10 + (last as int - '0' as int)
  }

  /** A canonical decimal numeral: non-empty, digits only, no leading zero. */
  predicate IsCanonicalDecimal(s: string) {
    && |s| >= 1
    && (forall i :: 0 <= i < |s| ==> IsDecimalChar(s[i]))
    && (s[0] == '0' ==> |s| == 1)
  }

  /** Reads back a canonical decimal numeral; `None` on anything else. */
  function ParseDecimal(s: string): Option<nat> {
    if IsCanonicalDecimal(s) then Some(DigitsValue(s)) else None
  }

  lemma {:induction false} DigitsValueOfDecimal(n: nat)
    ensures DigitsValue(Decimal(n)) == n
  {
    if n >= 10 {
      var s := Decimal(n);
      assert s[..|s| - 1] == Decimal(n / 10);
      DigitsValueOfDecimal(n / 10);
    }
  }

  lemma ParseDecimalRoundTrip(n: nat)
    ensures ParseDecimal(Decimal(n)) == Some(n)
  {
    DigitsValueOfDecimal(n);
  }

  /** The other direction: a canonical numeral is the rendering of its value, so every
      number has exactly one decimal rendering. */
  lemma {:induction false} DecimalOfParse(s: string)
    requires IsCanonicalDecimal(s)
    ensures Decimal(DigitsValue(s)) == s
  {
    if |s| > 1 {
      var init := s[..|s| - 1];
      assert IsCanonicalDecimal(init);
      DecimalOfParse(init);
      DigitsValuePositive(init);
      var x, d, n := DigitsValue(init), s[|s| - 1] as int - '0' as int, DigitsValue(s);
      assert n == 10 * x + d;
      DivModUnique(n, 10, x, d);
      assert s == init + [s[|s| - 1]];
    }
  }

  /** A numeral that does not start with '0' denotes a positive number. */
  lemma {:induction false} DigitsValuePositive(s: string)
    requires |s| >= 1 && forall i :: 0 <= i < |s| ==> IsDecimalChar(s[i])
    requires s[0] != '0'
    ensures DigitsValue(s) >= 1
  {
    if |s| > 1 {
      DigitsValuePositive(s[..|s| - 1]);
    }
  }
}
