/** Integer operators of the source language where they differ from Dafny's, and powers of two. */
module GoArith {

  /** Go's `/` on a positive divisor: the quotient is truncated toward zero. */
  function Div(a: int, b: int): int
    requires b > 0
  {
    if a >= 0 then a / b else -((-a) / b)
  }

  /** Go's `%` on a positive divisor: the remainder takes the sign of the dividend. */
  function Mod(a: int, b: int): int
    requires b > 0
  {
    if a >= 0 then a % b else -((-a) % b)
  }

  lemma RemaindersAdd(a: int, b: int)
    ensures (a % 4 + b % 4) % 4 == (a + b) % 4
  {
  }

  /** Adding 4 to a remainder by 4 and reducing once more makes it nonnegative. */
  lemma Reduced(k: int)
    ensures (Mod(k, 4) + 4) % 4 == k % 4
  {
    if k < 0 {
      Negated(-k);
    }
  }

  lemma Negated(n: int)
    requires n >= 0
    ensures (4 - n % 4) % 4 == (-n) % 4
  {
    var q: int, r: int := n / 4, n % 4;
    assert n == 4 * q + r;
    if r == 0 {
      Residue(-n, -q, 0);
    } else {
      Residue(-n, -q - 1, 4 - r);
    }
  }

  lemma Residue(n: int, q: int, r: int)
    requires n == 4 * q + r && 0 <= r < 4
    ensures n % 4 == r
  {
  }

  lemma EvenQuarters(q: int)
    ensures (q % 4) % 2 == q % 2
  {
    var r: int := q % 4;
    var h: int := q / 4;
    assert q == 4 * h + r;
    TwoResidue(q, 2 * h + r / 2, r % 2);
  }

  lemma TwoResidue(n: int, k: int, r: int)
    requires n == 2 * k + r && 0 <= r < 2
    ensures n % 2 == r
  {
  }

  lemma Parity(a: int)
    ensures Mod(a, 2) != 0 <==> (a % 4) % 2 != 0
  {
    assert a % 4 == a - 4 * (a / 4);
  }

  lemma Quotient(n: nat, d: nat, q: nat)
    requires d > 0 && q * d <= n < q * d + d
    ensures n / d == q
  {
    var p := n / d;
    assert p * d <= n < p * d + d;
    Scaled(p + 1, q, d);
    Scaled(q + 1, p, d);
  }

  lemma Scaled(a: nat, b: nat, c: nat)
    ensures a <= b ==> a * c <= b * c
  {
  }

  /** Two to the power of n, as `1 << n` computes it for the small n used. */
  function Pow2(n: nat): nat {
    if n == 0 then 1 else 2 * Pow2(n - 1)
  }

  const MIN_INT64: int := -0x8000_0000_0000_0000
  const MAX_INT64: int := 0x7FFF_FFFF_FFFF_FFFF

  type int64 = n: int | MIN_INT64 <= n <= MAX_INT64

  /** Go's unary minus on int64: the least value is its own negation. */
  function Neg64(n: int64): int64 {
    if n == MIN_INT64 then MIN_INT64 else -n
  }
}
