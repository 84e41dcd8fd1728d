/** Integer facts the model needs: powers of two, Euclidean division and the rounded-up
    division `mine_range` uses for its chunk width. */
module Arith {

  /** 2^n. */
  function Pow2(n: nat): (r: nat)
    ensures r >= 1
  {
    if n == 0 then 1 else 2 * Pow2(n - 1)
  }

  lemma {:induction false} Pow2Add(a: nat, b: nat)
    ensures Pow2(a + b) == Pow2(a) * Pow2(b)
  {
    if a > 0 {
      Pow2Add(a - 1, b);
    }
  }

  lemma Pow2Sixty()
    ensures Pow2(60) == 0x1000_0000_0000_0000
  {
    Pow2Product(2, 2, 4, 4);
    Pow2Product(4, 4, 16, 16);
    Pow2Product(8, 2, 0x100, 4);
    Pow2Product(10, 5, 0x400, 0x20);
    Pow2Product(15, 15, 0x8000, 0x8000);
    Pow2Product(30, 30, 0x4000_0000, 0x4000_0000);
  }

  lemma Pow2Product(a: nat, b: nat, x: nat, y: nat)
    requires Pow2(a) == x && Pow2(b) == y
    ensures Pow2(a + b) == x * y
  {
    Pow2Add(a, b);
  }

  lemma {:induction false} Pow2Monotone(n: nat, m: nat)
    requires n <= m
    ensures Pow2(n) <= Pow2(m)
    decreases m
  {
    if n < m {
      Pow2Monotone(n, m - 1);
    }
  }

  lemma MulAtLeast(n: int, t: int)
    requires n > 0 && t >= 1
    ensures n * t >= n
  {
    if t > 1 {
      MulAtLeast(n, t - 1);
      assert n * t == n * (t - 1) + n;
    }
  }

  /** Euclidean division is unique. */
  lemma DivModUnique(y: int, n: int, q: int, r: int)
    requires n > 0 && 0 <= r < n && y == n * q + r
    ensures y % n == r && y / n == q
  {
    var q', r' := y / n, y % n;
    assert y == n * q' + r';
    var t := q - q';
    assert n * t == r' - r;
    if t >= 1 { MulAtLeast(n, t); }
    if t <= -1 { MulAtLeast(n, -t); }
  }

  lemma MulMonotone(a: int, b: int, w: int)
    requires 0 <= a <= b && w >= 0
    ensures a * w <= b * w
  {
    assert b * w - a * w == (b - a) * w;
  }

  /** `(x + y - 1) / y` is x / y rounded up: the least q with q * y >= x. */
  lemma CeilDiv(x: int, y: int)
    requires x >= 0 && y >= 1
    ensures (x + y - 1) / y * y >= x
    ensures ((x + y - 1) / y - 1) * y < x
    ensures forall q :: 0 <= q && q * y >= x ==> q >= (x + y - 1) / y
  {
    var n := x + y - 1;
    var q, r := n / y, n % y;
    assert n == y * q + r && 0 <= r < y;
    assert q * y == y * q;
    assert (q - 1) * y == q * y - y;
    forall q' | 0 <= q' && q' * y >= x
      ensures q' >= q
    {
      if q' < q {
        MulMonotone(q', q - 1, y);
      }
    }
  }
}
