/** The bit operations the hash table uses on unsigned numbers, and what they are for powers of two. */
module Bits {

  function Pow2(k: nat): (p: nat)
    ensures p > 0
  {
    if k == 0 then 1 else 2 * Pow2(k - 1)
  }

  /** a & b */
  function And(a: nat, b: nat): nat {
    if a == 0 || b == 0 then 0 else (a % 2) * (b % 2) + 2 * And(a / 2, b / 2)
  }

  /** a >> k */
  function Shr(a: nat, k: nat): nat {
    if k == 0 then a else Shr(a / 2, k - 1)
  }

  /** Masking with a power of two minus one is the remainder. */
  lemma {:induction false} AndMask(a: nat, k: nat)
    ensures And(a, Pow2(k) - 1) == a % Pow2(k)
    decreases k
  {
    if k == 0 {
      assert a % 1 == 0;
    } else if a == 0 {
      DivModUnique(0, Pow2(k), 0, 0);
    } else {
      AndMask(a / 2, k - 1);
      HalfDivMod(a, Pow2(k - 1));
      OddMask(a, Pow2(k - 1));
    }
  }

  lemma OddMask(a: nat, m: nat)
    requires a > 0 && m > 0
    ensures And(a, 2 * m - 1) == a % 2 + 2 * And(a / 2, m - 1)
  {
    assert (2 * m - 1) % 2 == 1 && (2 * m - 1) / 2 == m - 1;
  }

  lemma SmallMultiple(x: int, d: int)
    requires d > 0 && -d < x * d < d
    ensures x == 0
  {
    assert x >= 1 ==> (x - 1) * d >= 0;
    assert x <= -1 ==> (-x - 1) * d >= 0;
  }

  lemma DivModUnique(a: nat, d: nat, q: nat, r: nat)
    requires d > 0 && a == q * d + r && r < d
    ensures a / d == q && a % d == r
  {
    var q', r' := a / d, a % d;
    assert q' * d + r' == a;
    assert (q' - q) * d == r - r';
    SmallMultiple(q' - q, d);
  }

  lemma Twice(q: nat, m: nat)
    ensures q * (2 * m) == 2 * (q * m) == (2 * q) * m && (2 * q + 1) * m == 2 * (q * m) + m
  {
  }

  lemma HalfDivMod(a: nat, m: nat)
    requires m > 0
    ensures a % (2 * m) == a % 2 + 2 * ((a / 2) % m) && a / (2 * m) == (a / 2) / m
  {
    var q, r := (a / 2) / m, (a / 2) % m;
    Twice(q, m);
    assert a / 2 == q * m + r;
    DivModUnique(a, 2 * m, q, a % 2 + 2 * r);
  }

  lemma {:induction false} ShrDiv(a: nat, k: nat)
    ensures Shr(a, k) == a / Pow2(k)
  {
    if k > 0 {
      ShrDiv(a / 2, k - 1);
      HalfDivMod(a, Pow2(k - 1));
    }
  }

  function CeilDiv(n: nat, d: nat): nat
    requires d > 0
  {
    (n + d - 1) / d
  }

  /** The quotient rounded up, the way the hash table computes it. */
  lemma CeilByShift(n: nat, k: nat)
    ensures Shr(n, k) + (if And(n, Pow2(k) - 1) != 0 then 1 else 0) == CeilDiv(n, Pow2(k))
  {
    ShrDiv(n, k);
    AndMask(n, k);
    Ceil(n, Pow2(k));
  }

  lemma Ceil(n: nat, d: nat)
    requires d > 0
    ensures n / d + (if n % d != 0 then 1 else 0) == (n + d - 1) / d
  {
    var q, r := n / d, n % d;
    assert n == q * d + r;
    if r == 0 {
      DivModUnique(n + d - 1, d, q, d - 1);
    } else {
      assert (q + 1) * d == q * d + d;
      DivModUnique(n + d - 1, d, q + 1, r - 1);
    }
  }

  /** After a doubling an item stays at its index, or moves up by the old number of buckets. */
  lemma SplitMod(h: nat, b: nat)
    requires b > 0
    ensures h % (2 * b) == h % b || h % (2 * b) == h % b + b
  {
    SplitCase(h, b, h / (2 * b), h % (2 * b));
  }

  lemma SplitCase(h: nat, b: nat, q: nat, r: nat)
    requires b > 0 && r < 2 * b && h == q * (2 * b) + r
    ensures h % b == if r < b then r else r - b
  {
    Twice(q, b);
    if r < b {
      DivModUnique(h, b, 2 * q, r);
    } else {
      DivModUnique(h, b, 2 * q + 1, r - b);
    }
  }
}
