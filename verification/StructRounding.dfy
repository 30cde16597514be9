/**
  What rounding to a double does to an integer: it moves it little, and not at
  all a second time. So an integer that fits its field is read back as it was
  stored exactly when a double represents it.
  */
module StructRounding {
  import opened Bits
  import opened Common
  import opened StructIntegers

  /** u doubled i times. */
  function Scale(u: nat, i: nat): nat
    decreases i
  {
    if i == 0 then u else Scale(2 * u, i - 1)
  }

  lemma MulOrder(u: nat, a: int, b: int)
    ensures a <= b ==> u * a <= u * b
  {
    if a <= b { assert u * b == u * a + u * (b - a); }
  }

  lemma QuotientBelow(m: nat, u: nat)
    requires u > 0 && m < TWO_53 * u
    ensures m / u < TWO_53
  {
    MulOrder(u, TWO_53, m / u);
  }

  /** A rounded number is a multiple, at most 2^53, of some doubled u. */
  lemma {:induction false} RoundedForm(m: nat, u: nat) returns (k: nat, i: nat)
    requires u > 0
    ensures RoundTo(m, u) == k * Scale(u, i) && k <= TWO_53
    decreases m - u
  {
    if m < TWO_53 * u {
      QuotientBelow(m, u);
      var q, r := m / u, m % u;
      k, i := if 2 * r > u || (2 * r == u && q % 2 == 1) then q + 1 else q, 0;
    } else {
      k, i := RoundedForm(m, 2 * u);
      i := i + 1;
    }
  }

  lemma {:induction false} ScaleMultiple(u: nat, i: nat) returns (c: nat)
    ensures Scale(u, i) == c * u
    decreases i
  {
    if i == 0 {
      c := 1;
    } else {
      c := ScaleMultiple(2 * u, i - 1);
      assert c * (2 * u) == (2 * c) * u;
      c := 2 * c;
    }
  }

  lemma MultipleStays(m: nat, u: nat, q: nat)
    requires u > 0 && m == q * u && m < TWO_53 * u
    ensures RoundTo(m, u) == m
  {
    assert m == u * q + 0;
    ModUnique(m, u, q, 0);
  }

  lemma {:induction false} FormStays(m: nat, u: nat, i: nat, k: nat)
    requires u > 0 && m == k * Scale(u, i) && k <= TWO_53
    ensures RoundTo(m, u) == m
    decreases i
  {
    if m < TWO_53 * u {
      var c := ScaleMultiple(u, i);
      assert k * (c * u) == (k * c) * u;
      MultipleStays(m, u, k * c);
    } else if i > 0 {
      FormStays(m, 2 * u, i - 1, k);
    } else {
      LargestMultiple(k, u);
      MultipleStays(m, 2 * u, TWO_53 / 2);
    }
  }

  lemma LargestMultiple(k: nat, u: nat)
    requires u > 0 && k <= TWO_53 && k * u >= TWO_53 * u
    ensures k == TWO_53
  {
    MulOrder(u, k + 1, TWO_53);
  }

  lemma RoundTwice(m: nat)
    ensures RoundNat(RoundNat(m)) == RoundNat(m)
  {
    var k, i := RoundedForm(m, 1);
    FormStays(RoundNat(m), 1, i, k);
  }

  /** Rounding is off by at most one part in 2^53. */
  lemma {:induction false} RoundError(m: nat, u: nat)
    requires u == 1 || (u > 0 && 2 * m >= TWO_53 * u)
    ensures 0 - m <= (RoundTo(m, u) - m) * TWO_53 <= m
    decreases m - u
  {
    if m < TWO_53 * u {
      var q, r := m / u, m % u;
      assert m == q * u + r;
      assert (q + 1) * u == q * u + u;
    } else {
      RoundError(m, 2 * u);
    }
  }

  lemma NumberError(n: int)
    ensures var d, size := ToNumber(n) - n, if n < 0 then -n else n;
            d * TWO_53 <= size && -d * TWO_53 <= size
  {
    RoundError(if n < 0 then -n else n, 1);
  }

  /** An unsigned field only ever yields integers a double represents. */
  lemma UnsignedIsExact(b: seq<byte>, endian: Endian, n: nat)
    requires DecodeInt(b, endian, false) == Some(n)
    ensures Exact(n)
  {
    RawBound(b, endian);
    RoundTwice(RawInt(b, endian) % TWO_64);
  }

  /** A signed field gives back n only if nothing was lost: the rounded n is n modulo 256^size, and close to it. */
  lemma SignedIsExact(n: LuaInt, endian: Endian, size: nat)
    requires Fits(n, true, size)
    requires DecodeInt(EncodeInt(ToNumber(n) % TWO_64, endian, size), endian, true) == Some(n)
    ensures Exact(n)
  {
    var m, p := ToNumber(n), Pow256(size);
    StoredWordReduces(m, endian, true, size);
    NumberError(n);
    SameResidue(m, n, p);
  }

  lemma SameResidue(m: int, n: int, p: int)
    requires p > 0 && -p < m - n < p && (m % p == n || m % p - p == n)
    ensures m == n
  {
    var t := if m % p == n then m / p else m / p + 1;
    assert m - n == p * t by {
      assert m == p * (m / p) + m % p;
      assert p * (m / p + 1) == p * (m / p) + p;
    }
    MulOutside(p, t);
  }

  /** The exact condition: of the integers that fit their field, those come back unchanged that a double represents. */
  lemma SurvivesExactly(n: LuaInt, endian: Endian, signed: bool, size: nat)
    requires Fits(n, signed, size)
    ensures DecodeInt(EncodeInt(ToNumber(n) % TWO_64, endian, size), endian, signed) == Some(n) <==> Exact(n)
  {
    if Exact(n) {
      StoredIntegerSurvives(n, endian, signed, size);
    } else if DecodeInt(EncodeInt(ToNumber(n) % TWO_64, endian, size), endian, signed) == Some(n) {
      if signed { SignedIsExact(n, endian, size); }
      else { UnsignedIsExact(EncodeInt(ToNumber(n) % TWO_64, endian, size), endian, n); }
    }
  }
}
