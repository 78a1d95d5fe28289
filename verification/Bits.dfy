/** Powers of two and the bitwise operations that the source builds integers with. */
module Bits {
  function Pow2(n: nat): (p: nat)
    ensures p >= 1
  {
    if n == 0 then 1 else 2 * Pow2(n - 1)
  }

  lemma {:induction false} Pow2Add(a: nat, b: nat)
    ensures Pow2(a + b) == Pow2(a) * Pow2(b)
  {
    if a > 0 {
      Pow2Add(a - 1, b);
      Double(Pow2(a - 1), Pow2(b));
    }
  }

  lemma Double(x: nat, y: nat)
    ensures (2 * x) * y == 2 * (x * y)
  {
  }

  lemma {:induction false} Pow2Grows(a: nat, b: nat)
    requires a <= b
    ensures Pow2(a) <= Pow2(b)
  {
    if a < b { Pow2Grows(a, b - 1); }
  }

  /** `x << n` */
  function Shift(x: nat, n: nat): nat { x * Pow2(n) }

  /** `x & ((1 << width) - 1)`, for an integer of either sign. */
  function Mask(x: int, width: nat): (r: nat)
    ensures r < Pow2(width)
  {
    x % Pow2(width)
  }

  lemma Quotient(x: int, n: nat)
    requires n > 0
    ensures x == (x / n) * n + x % n && 0 <= x % n < n
  {
  }

  lemma NoMultiple(d: int, k: int, n: nat)
    requires d == k * n && d < n && 0 < d + n
    ensures d == 0
  {
    assert k >= 1 ==> (k - 1) * n >= 0;
    assert k <= -1 ==> (-1 - k) * n >= 0;
  }

  lemma SmallMask(x: nat, width: nat)
    requires x < Pow2(width)
    ensures Mask(x, width) == x
  {
    SameResidue(x, Mask(x, width), Pow2(width), x / Pow2(width), 0);
  }

  /** Two numbers less than a modulus apart with the same residue are equal. */
  lemma SameResidue(x: int, y: int, n: nat, q: int, r: int)
    requires n > 0 && x - y < n && 0 < x - y + n && x - q * n == y - r * n
    ensures x == y
  {
    assert (q - r) * n == q * n - r * n;
    NoMultiple(x - y, q - r, n);
  }

  /** `x | y` */
  function Or(x: nat, y: nat): nat {
    if x == 0 && y == 0 then 0 else 2 * Or(x / 2, y / 2) + if x % 2 == 1 || y % 2 == 1 then 1 else 0
  }

  lemma {:induction false} OrZero(y: nat)
    ensures Or(0, y) == y
  {
    if y > 0 { OrZero(y / 2); }
  }

  /** Bits that do not meet add up. */
  lemma {:induction false} OrDisjoint(x: nat, y: nat, n: nat)
    requires x < Pow2(n)
    ensures Or(x, Shift(y, n)) == x + Shift(y, n)
  {
    if n == 0 {
      OrZero(y);
    } else {
      ShiftHalf(y, n);
      OrDisjoint(x / 2, y, n - 1);
    }
  }

  lemma ShiftHalf(y: nat, n: nat)
    requires n > 0
    ensures Shift(y, n) == 2 * Shift(y, n - 1)
  {
    Double(Pow2(n - 1), y);
  }

  /** Bit `k`, counted from the lowest. */
  ghost predicate Bit(x: nat, k: nat) {
    if k == 0 then x % 2 == 1 else Bit(x / 2, k - 1)
  }

  /** Bit by bit. */
  lemma {:induction false} OrBits(x: nat, y: nat, k: nat)
    ensures Bit(Or(x, y), k) <==> Bit(x, k) || Bit(y, k)
    decreases k
  {
    OrHalf(x, y, Or(x, y), Or(x / 2, y / 2), if x % 2 == 1 || y % 2 == 1 then 1 else 0);
    if k > 0 { OrBits(x / 2, y / 2, k - 1); }
  }

  lemma OrHalf(x: nat, y: nat, or: nat, rest: nat, low: nat)
    requires or == Or(x, y) && rest == Or(x / 2, y / 2) && low == if x % 2 == 1 || y % 2 == 1 then 1 else 0
    ensures or / 2 == rest && or % 2 == low
  {
    assert or == 2 * rest + low;
  }
}
