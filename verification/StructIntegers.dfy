/**
  Integers as lua-client/3rd/struct.c stores them: 1 to 32 octets in either
  byte order, two's complement, passed through lua_Number (an IEEE double) on
  the way in and, for the unsigned options, on the way out.

  The C types are those of a little-endian LP64 machine with Lua 5.3: Inttype
  and lua_Integer have 64 bits.
  */
module StructIntegers {
  import opened Bits
  import opened Common

  datatype Endian = Big | Little

  const NATIVE: Endian := Little
  const MAX_INT_SIZE: nat := 32
  const TWO_53: int := 0x20_0000_0000_0000
  const TWO_63: int := 0x8000_0000_0000_0000
  const TWO_64: int := 0x1_0000_0000_0000_0000

  /** lua_Integer. */
  type LuaInt = n: int | -0x8000_0000_0000_0000 <= n < 0x8000_0000_0000_0000

  // ---------------------------------------------------------------------
  // lua_Number: rounding an integer to the nearest double
  // ---------------------------------------------------------------------

  /**
    Round m to the nearest double, ties to even, where the doubles around m
    are at least u apart.
    */
  function RoundTo(m: nat, u: nat): nat
    requires u > 0
    decreases m - u
  {
    if m < TWO_53 * u then
      var q, r := m / u, m % u;
      if 2 * r > u || (2 * r == u && q % 2 == 1) then (q + 1) * u else q * u
    else
      RoundTo(m, 2 * u)
  }

  function RoundNat(m: nat): nat { RoundTo(m, 1) }

  /** The value of (lua_Number)n. */
  function ToNumber(n: int): int {
    if n >= 0 then RoundNat(n) else 0 - RoundNat(-n)
  }

  /** n is one of the integers a double represents. */
  predicate Exact(n: int) { ToNumber(n) == n }

  /** (lua_Integer)d for a non-negative double d; the out-of-range result is that of x86-64. */
  function NumberToInteger(d: nat): LuaInt {
    if d < TWO_63 then d else -0x8000_0000_0000_0000
  }

  lemma SmallIsExact(n: int)
    requires -TWO_53 <= n <= TWO_53
    ensures Exact(n)
  {
    var m: int := if n >= 0 then n else 0 - n;
    if m == TWO_53 {
      assert RoundTo(m, 1) == RoundTo(m, 2);
    }
  }

  // ---------------------------------------------------------------------
  // Octet strings and the numbers they denote
  // ---------------------------------------------------------------------

  function Pow256(n: nat): (p: nat)
    ensures p >= 1
    ensures n >= 1 ==> p >= 256 && p % 2 == 0
  {
    if n == 0 then 1 else 256 * Pow256(n - 1)
  }

  /** The low `size` octets of v, least significant first. */
  function LittleBytes(v: nat, size: nat): (b: seq<byte>)
    ensures |b| == size
  {
    if size == 0 then [] else [v % 256] + LittleBytes(v / 256, size - 1)
  }

  function FromLittle(b: seq<byte>): (v: nat)
    ensures v < Pow256(|b|)
  {
    if b == [] then 0 else b[0] + 256 * FromLittle(b[1..])
  }

  function FromBig(b: seq<byte>): nat {
    if b == [] then 0 else 256 * FromBig(b[..|b| - 1]) + b[|b| - 1]
  }

  function EncodeInt(v: nat, endian: Endian, size: nat): (b: seq<byte>)
    ensures |b| == size
  {
    if endian == Little then LittleBytes(v, size) else Reversed(LittleBytes(v, size))
  }

  function RawInt(b: seq<byte>, endian: Endian): nat {
    if endian == Little then FromLittle(b) else FromBig(b)
  }

  /** What the unsigned 64-bit accumulator l becomes for a field of `size` octets. */
  function Interpret(l: nat, signed: bool, size: nat): (r: Option<LuaInt>)
    requires l < TWO_64
    requires l < Pow256(size) || size > 8
  {
    if !signed then Some(NumberToInteger(RoundNat(l)))
    else if size == 0 || size > 8 then None   // the mask shift is undefined in C
    else
      Pow256Bounds(size);
      Some(if 2 * l >= Pow256(size) then l - Pow256(size) else l)
  }

  function DecodeInt(b: seq<byte>, endian: Endian, signed: bool): Option<LuaInt> {
    RawBound(b, endian);
    Interpret(RawInt(b, endian) % TWO_64, signed, |b|)
  }

  lemma Pow256Monotone(a: nat, b: nat)
    requires a <= b
    ensures Pow256(a) <= Pow256(b)
    decreases b
  {
    if a < b { Pow256Monotone(a, b - 1); }
  }

  lemma Pow256Bounds(size: nat)
    requires size <= 8
    ensures Pow256(size) <= TWO_64
  {
    Pow256Monotone(size, 8);
    WholeWord();
  }

  lemma RawBound(b: seq<byte>, endian: Endian)
    ensures RawInt(b, endian) < Pow256(|b|)
    ensures RawInt(b, endian) % TWO_64 < Pow256(|b|)
  {
    if endian == Big { BigIsReversedLittle(b); }
  }

  // ---------------------------------------------------------------------
  // Laws of the representation
  // ---------------------------------------------------------------------

  lemma {:induction false} BigIsReversedLittle(b: seq<byte>)
    ensures FromBig(b) == FromLittle(Reversed(b))
  {
    if b != [] {
      var init := b[..|b| - 1];
      BigIsReversedLittle(init);
      assert Reversed(b)[1..] == Reversed(init);
    }
  }

  lemma ReversedTwice<T>(s: seq<T>)
    ensures Reversed(Reversed(s)) == s
  {
  }

  lemma DivMod(v: nat, p: nat)
    requires p > 0
    ensures v % (256 * p) == v % 256 + 256 * ((v / 256) % p)
  {
    var q, r := v / 256, v % 256;
    var qq, qr := q / p, q % p;
    assert v == (256 * p) * qq + (256 * qr + r) by {
      assert q == p * qq + qr;
      assert 256 * (p * qq) == (256 * p) * qq;
    }
    ModUnique(v, 256 * p, qq, 256 * qr + r);
  }

  /** Storing `size` octets keeps a number modulo 256^size. */
  lemma {:induction false} LittleRoundTrip(v: nat, size: nat)
    ensures FromLittle(LittleBytes(v, size)) == v % Pow256(size)
  {
    if size > 0 {
      var b := LittleBytes(v, size);
      assert b[1..] == LittleBytes(v / 256, size - 1);
      LittleRoundTrip(v / 256, size - 1);
      DivMod(v, Pow256(size - 1));
    }
  }

  lemma RawRoundTrip(v: nat, endian: Endian, size: nat)
    ensures RawInt(EncodeInt(v, endian, size), endian) == v % Pow256(size)
  {
    LittleRoundTrip(v, size);
    if endian == Big {
      BigIsReversedLittle(EncodeInt(v, endian, size));
      ReversedTwice(LittleBytes(v, size));
    }
  }

  // ---------------------------------------------------------------------
  // putinteger, getinteger and correctbytes
  // ---------------------------------------------------------------------

  lemma {:induction false} LittleBytesSplit(v: nat, size: nat)
    ensures LittleBytes(v, size + 1) == [v % 256] + LittleBytes(v / 256, size)
    ensures Reversed(LittleBytes(v, size + 1)) == Reversed(LittleBytes(v / 256, size)) + [v % 256]
  {
  }

  /** putinteger: fills buff[0..size) and appends it to the result. */
  method PutInteger(n: LuaInt, endian: Endian, size: nat) returns (out: seq<byte>)
    requires size <= MAX_INT_SIZE
    ensures out == EncodeInt(ToNumber(n) % TWO_64, endian, size)
  {
    out := PutWord(ToNumber(n) % TWO_64, endian, size);
  }

  method PutWord(word: nat, endian: Endian, size: nat) returns (out: seq<byte>)
    requires size <= MAX_INT_SIZE
    ensures out == EncodeInt(word, endian, size)
  {
    var buff := new byte[MAX_INT_SIZE];
    if endian == Little { FillUp(buff, word, size); } else { FillDown(buff, word, size); }
    out := buff[..size];
  }

  /** The loop for little endian: the lowest octet first. */
  method FillUp(buff: array<byte>, word: nat, size: nat)
    requires size <= buff.Length
    modifies buff
    ensures buff[..size] == LittleBytes(word, size)
  {
    var i, value := 0, word;
    while i < size
      invariant 0 <= i <= size
      invariant buff[..i] + LittleBytes(value, size - i) == LittleBytes(word, size)
    {
      LittleBytesSplit(value, size - i - 1);
      ghost var done := buff[..i];
      buff[i] := value % 256;
      assert buff[..i + 1] == done + [value % 256];
      value := value / 256;
      i := i + 1;
    }
    assert LittleBytes(value, 0) == [];
  }

  /** The loop for big endian: the lowest octet last. */
  method FillDown(buff: array<byte>, word: nat, size: nat)
    requires size <= buff.Length
    modifies buff
    ensures buff[..size] == Reversed(LittleBytes(word, size))
  {
    var i, value := size - 1, word;
    while i >= 0
      invariant -1 <= i < size
      invariant Reversed(LittleBytes(value, i + 1)) + buff[i + 1..size] == Reversed(LittleBytes(word, size))
    {
      LittleBytesSplit(value, i);
      ghost var done := buff[i + 1..size];
      buff[i] := value % 256;
      assert buff[i..size] == [value % 256] + done;
      value := value / 256;
      i := i - 1;
    }
    assert LittleBytes(value, 0) == [];
  }

  lemma ShiftIn(x: nat, b: byte)
    ensures (256 * (x % TWO_64)) % TWO_64 + b == (256 * x + b) % TWO_64
  {
    var q, r := x / TWO_64, x % TWO_64;
    var q2, r2 := (256 * r) / TWO_64, (256 * r) % TWO_64;
    assert r2 == 256 * (r - 0x100_0000_0000_0000 * q2);
    ModUnique(256 * x + b, TWO_64, 256 * q + q2, r2 + b);
  }

  /** The loop for big endian. */
  method AccumulateUp(buff: seq<byte>) returns (l: nat)
    ensures l == FromBig(buff) % TWO_64
  {
    l := 0;
    var i := 0;
    while i < |buff|
      invariant 0 <= i <= |buff|
      invariant l == FromBig(buff[..i]) % TWO_64
    {
      ShiftIn(FromBig(buff[..i]), buff[i]);
      assert buff[..i + 1][..i] == buff[..i];
      l := (256 * l) % TWO_64 + buff[i];
      i := i + 1;
    }
    assert buff[..i] == buff;
  }

  /** The loop for little endian. */
  method AccumulateDown(buff: seq<byte>) returns (l: nat)
    ensures l == FromLittle(buff) % TWO_64
  {
    l := 0;
    var i := |buff| - 1;
    while i >= 0
      invariant -1 <= i < |buff|
      invariant l == FromLittle(buff[i + 1..]) % TWO_64
    {
      ShiftIn(FromLittle(buff[i + 1..]), buff[i]);
      assert buff[i..][1..] == buff[i + 1..];
      l := (256 * l) % TWO_64 + buff[i];
      i := i - 1;
    }
    assert buff[i + 1..] == buff;
  }

  /** getinteger: accumulates `size` octets in a 64-bit word. */
  method GetInteger(buff: seq<byte>, endian: Endian, signed: bool, size: nat) returns (r: Option<LuaInt>)
    requires size == |buff|
    ensures r == DecodeInt(buff, endian, signed)
  {
    var l: nat;
    if endian == Big { l := AccumulateUp(buff); } else { l := AccumulateDown(buff); }
    RawBound(buff, endian);
    if !signed {
      r := Some(NumberToInteger(RoundNat(l)));
    } else if size == 0 || size > 8 {
      r := None;   // the shift of the mask is undefined in C
    } else {
      var n := SignExtend(l, size);
      r := Some(n);
    }
  }

  /** The mask has the sign bit of the field and all bits above it; a negative value takes them. */
  method SignExtend(word: nat, size: nat) returns (n: LuaInt)
    requires 1 <= size <= 8 && word < Pow256(size) && word < TWO_64
    ensures n == if 2 * word >= Pow256(size) then word - Pow256(size) else word
  {
    MaskBounds(size);
    SignBit(word, size);
    var l := word;
    var mask := TWO_64 - Pow2(8 * size - 1);
    if And(l, mask) != 0 {
      l := Or(l, mask);
    }
    n := if l >= TWO_63 then l - TWO_64 else l;   // (Inttype)l
  }

  lemma {:induction false} Pow256Is(size: nat)
    ensures Pow256(size) == Pow2(8 * size)
  {
    if size > 0 {
      Pow256Is(size - 1);
      var k := 8 * size - 8;
      assert Pow2(k + 2) == 4 * Pow2(k);
      assert Pow2(k + 4) == 4 * Pow2(k + 2);
      assert Pow2(k + 6) == 4 * Pow2(k + 4);
      assert Pow2(k + 8) == 4 * Pow2(k + 6);
    }
  }

  lemma MaskBounds(size: nat)
    requires 1 <= size <= 8
    ensures Pow2(64) == TWO_64 && 2 * Pow2(8 * size - 1) == Pow256(size) <= TWO_64
  {
    Pow256Is(8);
    Pow256Is(size);
    Pow256Bounds(size);
    WholeWord();
  }

  lemma WholeWord()
    ensures Pow256(8) == TWO_64
  {
    assert Pow256(2) == 0x1_0000;
    assert Pow256(4) == 0x1_0000_0000;
    assert Pow256(6) == 0x1_0000_0000_0000;
  }

  /** The mask meets the word exactly when the sign bit is set, and then in that bit alone. */
  lemma SignBit(word: nat, size: nat)
    requires 1 <= size <= 8 && word < Pow256(size) && word < TWO_64
    requires Pow2(64) == TWO_64 && 2 * Pow2(8 * size - 1) == Pow256(size) <= TWO_64
    ensures var top := Pow2(8 * size - 1);
            And(word, TWO_64 - top) == if word >= top then top else 0
  {
    var top := Pow2(8 * size - 1);
    var q, r := AndHigh(word, 8 * size - 1, 64);
    ShlMultiplies(q, 8 * size - 1);
    OneOrNone(top, q, r, word);
  }

  lemma OneOrNone(top: nat, q: nat, r: nat, word: nat)
    requires word == top * q + r && r < top && word < 2 * top
    ensures top * q == if word >= top then top else 0
  {
    if q >= 2 { assert top * q == 2 * top + top * (q - 2); }
  }

  /** correctbytes: reverses b[0..size) in place when the wanted order is not the native one. */
  method CorrectBytes(b: array<byte>, size: nat, endian: Endian)
    requires size <= b.Length
    modifies b
    ensures b[..size] == if endian != NATIVE then Reversed(old(b[..size])) else old(b[..size])
    ensures b[size..] == old(b[size..])
  {
    if endian != NATIVE {
      var i, k := 0, size;
      while i < k - 1
        invariant 0 <= i <= k <= size && i + k == size
        invariant forall j :: 0 <= j < i || k <= j < size ==> b[j] == old(b[size - 1 - j])
        invariant forall j :: i <= j < k || size <= j < b.Length ==> b[j] == old(b[j])
      {
        k := k - 1;
        var temp := b[i];
        b[i] := b[k];
        i := i + 1;
        b[k] := temp;
      }
    }
  }

  // ---------------------------------------------------------------------
  // What a stored integer reads back as
  // ---------------------------------------------------------------------

  /** n is one of the values a field of `size` octets is meant to hold. */
  predicate Fits(n: int, signed: bool, size: nat) {
    if signed then 1 <= size <= 8 && 0 <= 2 * n + Pow256(size) && 2 * n < Pow256(size)
    else 0 <= n < Pow256(size)
  }

  lemma ModOfMod(v: int, p: int, c: int)
    requires p > 0 && p * c == TWO_64
    ensures (v % TWO_64) % p == v % p
  {
    var q, r := v / TWO_64, v % TWO_64;
    calc {
      v;
      (p * c) * q + r;
      p * (c * q) + (p * (r / p) + r % p);
      p * (c * q + r / p) + r % p;
    }
    ModUnique(v, p, c * q + r / p, r % p);
  }

  lemma {:induction false} Cofactor(size: nat) returns (c: int)
    requires size <= 8
    ensures Pow256(size) * c == TWO_64
    decreases 8 - size
  {
    if size == 8 {
      Pow256Bounds(8);
      assert Pow256(4) == 0x1_0000_0000;
      assert Pow256(8) == 256 * (256 * (256 * (256 * Pow256(4))));
      c := 1;
    } else {
      var d := Cofactor(size + 1);
      c := 256 * d;
      assert Pow256(size + 1) == 256 * Pow256(size);
      assert 256 * Pow256(size) * d == Pow256(size) * (256 * d);
    }
  }

  /**
    A 64-bit word x stored in `size` octets reads back as x reduced modulo
    256^size into the signed or the unsigned range, in either byte order.
    */
  lemma StoredWordReduces(x: int, endian: Endian, signed: bool, size: nat)
    requires 1 <= size <= 8
    ensures var v := x % Pow256(size);
            DecodeInt(EncodeInt(x % TWO_64, endian, size), endian, signed) ==
            Some(if !signed then NumberToInteger(RoundNat(v))
                 else if 2 * v >= Pow256(size) then v - Pow256(size) else v)
  {
    var b := EncodeInt(x % TWO_64, endian, size);
    assert RawInt(b, endian) == x % Pow256(size) by {
      RawRoundTrip(x % TWO_64, endian, size);
      var c := Cofactor(size);
      ModOfMod(x, Pow256(size), c);
    }
    ReadsBack(b, endian, signed, x % Pow256(size));
  }

  lemma ReadsBack(b: seq<byte>, endian: Endian, signed: bool, v: nat)
    requires 1 <= |b| <= 8 && RawInt(b, endian) == v
    ensures DecodeInt(b, endian, signed) ==
            Some(if !signed then NumberToInteger(RoundNat(v))
                 else if 2 * v >= Pow256(|b|) then v - Pow256(|b|) else v)
  {
    RawBound(b, endian);
    Pow256Bounds(|b|);
    SmallResidue(v, TWO_64);
  }

  lemma SmallResidue(v: nat, m: nat)
    requires v < m
    ensures v % m == v
  {
  }

  /** A number that fits its field, and that a double represents, survives. */
  lemma StoredIntegerSurvives(n: LuaInt, endian: Endian, signed: bool, size: nat)
    requires Fits(n, signed, size) && Exact(n)
    ensures DecodeInt(EncodeInt(n % TWO_64, endian, size), endian, signed) == Some(n)
  {
    if size == 0 || size > 8 {
      FitResidue(n, TWO_64);
      WideWordSurvives(n, endian, size);
    } else {
      FitResidue(n, Pow256(size));
      if signed { SignedSurvives(n, endian, size); } else { UnsignedSurvives(n, endian, size); }
    }
  }

  lemma SignedSurvives(n: LuaInt, endian: Endian, size: nat)
    requires Fits(n, true, size) && n % Pow256(size) == if n < 0 then n + Pow256(size) else n
    ensures DecodeInt(EncodeInt(n % TWO_64, endian, size), endian, true) == Some(n)
  {
    StoredWordReduces(n, endian, true, size);
  }

  lemma UnsignedSurvives(n: nat, endian: Endian, size: nat)
    requires 1 <= size <= 8 && n % Pow256(size) == n < TWO_63 && Exact(n)
    ensures DecodeInt(EncodeInt(n % TWO_64, endian, size), endian, false) == Some(n)
  {
    StoredWordReduces(n, endian, false, size);
  }

  lemma FitResidue(n: int, p: int)
    requires p > 0 && -p <= n < p
    ensures n % p == if n < 0 then n + p else n
  {
    ModUnique(n, p, if n < 0 then -1 else 0, if n < 0 then n + p else n);
  }

  /** Widths 0 and 9..32 carry unsigned numbers only. */
  lemma WideWordSurvives(n: nat, endian: Endian, size: nat)
    requires n < Pow256(size) && n < TWO_63 && Exact(n)
    ensures DecodeInt(EncodeInt(n, endian, size), endian, false) == Some(n)
  {
    WideWord(n, endian, size);
    UnsignedReadsBack(EncodeInt(n, endian, size), endian, n);
  }

  lemma WideWord(n: nat, endian: Endian, size: nat)
    requires n < Pow256(size)
    ensures RawInt(EncodeInt(n, endian, size), endian) == n
  {
    RawRoundTrip(n, endian, size);
    FitResidue(n, Pow256(size));
  }

  lemma UnsignedReadsBack(b: seq<byte>, endian: Endian, n: nat)
    requires RawInt(b, endian) == n < TWO_63 && Exact(n)
    ensures DecodeInt(b, endian, false) == Some(n)
  {
    RawBound(b, endian);
  }
}
