/** Bitwise and, or and powers of two, on unsigned words of any width. */
module Bits {

  function And(a: nat, b: nat): (r: nat)
    ensures r <= a && r <= b
  {
    if a == 0 || b == 0 then 0 else 2 * And(a / 2, b / 2) + (if a % 2 == 1 then b % 2 else 0)
  }

  function Or(a: nat, b: nat): nat { a + b - And(a, b) }

  function Pow2(k: nat): (r: nat)
    ensures r >= 1
  {
    if k == 0 then 1 else 2 * Pow2(k - 1)
  }

  lemma ModUnique(v: int, m: int, q: int, r: int)
    requires m > 0 && 0 <= r < m && v == m * q + r
    ensures v % m == r && v / m == q
  {
    var d := v / m - q;
    assert m * d == r - v % m by {
      assert v == m * (v / m) + v % m;
      assert m * d == m * (v / m) - m * q;
    }
    MulOutside(m, d);
  }

  lemma MulOutside(m: int, d: int)
    requires m > 0
    ensures d >= 1 ==> m * d >= m
    ensures d <= -1 ==> m * d <= -m
  {
    if d >= 1 {
      assert m * d - m == m * (d - 1);
    } else if d <= -1 {
      assert -m - m * d == m * (-1 - d);
    }
  }

  lemma AndHalves(a: nat, b: nat)
    ensures And(a, b) == 2 * And(a / 2, b / 2) + (if a % 2 == 1 then b % 2 else 0)
  {
  }

  /** q << k. */
  function Shl(q: nat, k: nat): nat {
    if k == 0 then q else 2 * Shl(q, k - 1)
  }

  lemma {:induction false} ShlMultiplies(q: nat, k: nat)
    ensures Shl(q, k) == Pow2(k) * q
  {
    if k > 0 {
      ShlMultiplies(q, k - 1);
      DoubledProduct(Pow2(k - 1), q);
    }
  }

  lemma DoubledProduct(p: int, q: int)
    ensures (2 * p) * q == 2 * (p * q)
  {
  }

  /** Masking with 2^k - 1 leaves what a shift by k drops. */
  lemma {:induction false} AndLow(a: nat, k: nat) returns (q: nat)
    ensures a == Shl(q, k) + And(a, Pow2(k) - 1)
    decreases k
  {
    if k > 0 {
      q := AndLow(a / 2, k - 1);
      AndOdd(a, Pow2(k - 1) - 1);
    } else {
      q := a;
      assert And(a, 0) == 0;
    }
  }

  /** a % m, by subtraction. */
  function Rem(a: nat, m: nat): (r: nat)
    requires m > 0
    ensures r < m
  {
    if a < m then a else Rem(a - m, m)
  }

  lemma {:induction false} RemIsMod(a: nat, m: nat)
    requires m > 0
    ensures Rem(a, m) == a % m
    decreases a
  {
    if a < m {
      ModUnique(a, m, 0, a);
    } else {
      RemIsMod(a - m, m);
      ModStep(a, m);
    }
  }

  lemma ModStep(a: int, m: int)
    requires m > 0
    ensures (a - m) % m == a % m
  {
    var q, r := (a - m) / m, (a - m) % m;
    assert m * (q + 1) == m * q + m;
    ModUnique(a, m, q + 1, r);
  }

  lemma {:induction false} RemOf(m: nat, q: nat, r: nat)
    requires r < m
    ensures Rem(m * q + r, m) == r
  {
    if q > 0 {
      OneLess(m, q);
      RemOf(m, q - 1, r);
      RemStep(m * (q - 1) + r, m);
    } else {
      assert m * q == 0;
    }
  }

  lemma OneLess(m: nat, q: nat)
    requires q > 0
    ensures m * q == m * (q - 1) + m && m * (q - 1) >= 0
  {
  }

  lemma RemStep(a: nat, m: nat)
    requires m > 0
    ensures Rem(a + m, m) == Rem(a, m)
  {
  }

  lemma AndMask(a: nat, k: nat)
    ensures And(a, Pow2(k) - 1) == Rem(a, Pow2(k))
  {
    var q := AndLow(a, k);
    ShlMultiplies(q, k);
    RemOf(Pow2(k), q, And(a, Pow2(k) - 1));
  }

  lemma AndOdd(a: nat, b: nat)
    ensures And(a, 2 * b + 1) == 2 * And(a / 2, b) + a % 2
  {
    var c := 2 * b + 1;
    assert c / 2 == b && c % 2 == 1;
    if a == 0 { assert And(0, b) == 0; }
  }

  /** Masking an n-bit word with its bits from k up clears the bits below. */
  lemma {:induction false} AndHigh(a: nat, k: nat, n: nat) returns (q: nat, r: nat)
    requires k <= n && a < Pow2(n)
    ensures Pow2(k) <= Pow2(n)
    ensures And(a, Pow2(n) - Pow2(k)) == Shl(q, k) && a == Shl(q, k) + r && r < Pow2(k)
    decreases k
  {
    if k == 0 {
      AndMask(a, n);
      q, r := a, 0;
    } else {
      q, r := AndHigh(a / 2, k - 1, n - 1);
      AndHalves(a, 2 * (Pow2(n - 1) - Pow2(k - 1)));
      r := 2 * r + a % 2;
    }
  }

  lemma {:induction false} Pow2Order(k: nat, j: nat)
    ensures k <= j <==> Pow2(k) <= Pow2(j)
  {
    if k > 0 && j > 0 { Pow2Order(k - 1, j - 1); }
  }

  lemma {:induction false} AndSelf(a: nat)
    ensures And(a, a) == a
  {
    if a > 0 { AndSelf(a / 2); }
  }

  /** The test x & (x - 1) == 0 finds a power of two. */
  lemma {:induction false} ClearedLowBit(a: nat) returns (k: nat)
    requires a > 0 && And(a, a - 1) == 0
    ensures a == Pow2(k)
    decreases a
  {
    if a == 1 {
      k := 0;
    } else {
      AndHalves(a, a - 1);
      if a % 2 == 0 {
        assert (a - 1) / 2 == a / 2 - 1;
        k := ClearedLowBit(a / 2);
        k := k + 1;
      } else {
        assert (a - 1) / 2 == a / 2;
        AndSelf(a / 2);
        assert false;
      }
    }
  }

  lemma {:induction false} Pow2Clears(k: nat)
    ensures And(Pow2(k), Pow2(k) - 1) == 0
  {
    if k > 0 {
      Pow2Clears(k - 1);
      AndHalves(Pow2(k), Pow2(k) - 1);
    }
  }
}
