/**
  What a single integer looks like in the packed string, octet by octet: the
  byte order of the switches `<` and `>`, the width after `i` and `I`, and
  their signedness.
  */
module StructLayout {
  import opened Common
  import opened StructIntegers
  import opened StructFormat
  import opened StructTheorems
  import Bits

  /** Octet i of a stored number, counted from the least significant one. */
  lemma {:induction false} LittleBytesAt(v: nat, size: nat, i: nat)
    requires i < size
    ensures LittleBytes(v, size)[i] == (v / Pow256(i)) % 256
    decreases size
  {
    if i > 0 {
      LittleBytesAt(v / 256, size - 1, i - 1);
      DivTwice(v, Pow256(i - 1));
    }
  }

  lemma DivTwice(v: nat, p: nat)
    requires p > 0
    ensures (v / 256) / p == v / (256 * p)
  {
    var q := (v / 256) / p;
    var r := (v / 256) % p;
    assert v == (256 * p) * q + (256 * r + v % 256) by {
      assert v / 256 == p * q + r;
      assert 256 * (p * q) == (256 * p) * q;
    }
    Bits.ModUnique(v, 256 * p, q, 256 * r + v % 256);
  }

  /** Every octet of a stored number. */
  lemma OctetsOf(v: nat, w: nat, big: bool)
    ensures var b := EncodeInt(v, if big then Big else Little, w);
            |b| == w && forall i :: 0 <= i < w ==> b[i] == (v / Pow256(if big then w - 1 - i else i)) % 256
  {
    var b := EncodeInt(v, if big then Big else Little, w);
    forall i | 0 <= i < w ensures b[i] == (v / Pow256(if big then w - 1 - i else i)) % 256 {
      LittleBytesAt(v, w, if big then w - 1 - i else i);
    }
  }

  /** An option of width w under a byte order. */
  function IntegerFormat(w: nat, signed: bool, big: bool): string {
    [if big then '>' else '<', if signed then 'i' else 'I'] + Decimal(w)
  }

  lemma FormatIsRead(w: nat, signed: bool, big: bool)
    requires w <= MAX_INT_SIZE
    ensures Parse(IntegerFormat(w, signed, big), DEFAULT_HEADER) ==
            [Switch, Item(FieldSpec(Integer(signed), w, if big then Big else Little, 1))]
  {
    var h := Header(if big then Big else Little, 1);
    var fmt := IntegerFormat(w, signed, big);
    assert fmt[1..] == [if signed then 'i' else 'I'] + Decimal(w);
    assert fmt[1..][1..] == Decimal(w) == Decimal(w) + "";
    NumberIsRead(w, "", INT_SIZE);
    assert Parse(fmt[1..], h) == [Item(FieldSpec(Integer(signed), w, h.endian, 1))] + Parse("", h);
  }

  /** Every octet of a packed integer. */
  lemma PackedInteger(n: LuaInt, w: nat, signed: bool, big: bool)
    requires w <= MAX_INT_SIZE
    ensures var r := PackSpec(IntegerFormat(w, signed, big), [Int(n)]);
            r.Ok? && |r.value| == w &&
            forall i :: 0 <= i < w ==>
              r.value[i] == ((ToNumber(n) % TWO_64) / Pow256(if big then w - 1 - i else i)) % 256
  {
    FormatIsRead(w, signed, big);
    var v := ToNumber(n) % TWO_64;
    var f := FieldSpec(Integer(signed), w, if big then Big else Little, 1);
    PackOne(f, n);
    OctetsOf(v, w, big);
  }

  /** Without an alignment switch nothing is padded. */
  lemma NoPadding(f: Field, pos: nat)
    requires f.align == 1
    ensures f.PaddingAt(pos) == 0
  {
    assert Bits.And(1 - Bits.And(pos, 0), 0) == 0;
  }

  lemma PackOne(f: Field, n: LuaInt)
    requires f.kind.Integer? && f.align == 1
    ensures PackAll([Switch, Item(f)], [Int(n)], 0) == Ok(EncodeInt(ToNumber(n) % TWO_64, f.endian, f.size))
  {
    var ds, b := [Switch, Item(f)], EncodeInt(ToNumber(n) % TWO_64, f.endian, f.size);
    assert ds[1..] == [Item(f)] && [Item(f)][1..] == [];
    assert [Int(n)][1..] == [];
    assert PackItem(f, [Int(n)]) == Ok(Packed(b, []));
    NoPadding(f, 0);
    assert Repeat(0, 0) + b + [] == b;
    assert PackAll([Item(f)], [Int(n)], 0) == Ok(b);
  }

  /** The number the octets denote, least significant octet first or last. */
  function Denoted(data: seq<byte>, big: bool): nat { if big then FromBig(data) else FromLittle(data) }

  /** Under `i` the number counts as negative, by 256^w, when its top bit is set; under `I` it goes through a double. */
  function Valued(data: seq<byte>, signed: bool, big: bool): LuaInt
    requires 1 <= |data| <= 8
  {
    var v, p := Denoted(data, big), Pow256(|data|);
    Pow256Bounds(|data|);
    RawBound(data, if big then Big else Little);
    if !signed then NumberToInteger(RoundNat(v)) else if 2 * v >= p then v - p else v
  }

  /** What unpack makes of any w octets. */
  lemma UnpackedInteger(data: seq<byte>, signed: bool, big: bool)
    requires 1 <= |data| <= 8
    ensures UnpackSpec(IntegerFormat(|data|, signed, big), data, 1) ==
            Ok(Unpacked([Int(Valued(data, signed, big))], |data| + 1))
  {
    FormatIsRead(|data|, signed, big);
    ValuedIsDecoded(data, signed, big);
    UnpackOne(FieldSpec(Integer(signed), |data|, if big then Big else Little, 1), data);
  }

  lemma ValuedIsDecoded(data: seq<byte>, signed: bool, big: bool)
    requires 1 <= |data| <= 8
    ensures DecodeInt(data, if big then Big else Little, signed) == Some(Valued(data, signed, big))
  {
    StructIntegers.ReadsBack(data, if big then Big else Little, signed, Denoted(data, big));
  }

  lemma UnpackOne(f: Field, data: seq<byte>)
    requires f.kind.Integer? && f.align == 1 && |data| == f.size && DecodeInt(data, f.endian, f.kind.signed).Some?
    ensures UnpackAll([Switch, Item(f)], data, 0, []) ==
            Ok(Unpacked([Int(DecodeInt(data, f.endian, f.kind.signed).value)], f.size))
  {
    var ds := [Switch, Item(f)];
    assert ds[1..] == [Item(f)] && [Item(f)][1..] == [];
    NoPadding(f, 0);
    assert data[0..f.size] == data;
    var out := [Int(DecodeInt(data, f.endian, f.kind.signed).value)];
    assert [] + out == out;
    assert UnpackItem(f, data, 0, []) == Ok(Taken(out, f.size));
    assert UnpackAll([], data, f.size, out) == Ok(Unpacked(out, f.size));
    assert UnpackAll([Item(f)], data, 0, []) == Ok(Unpacked(out, f.size));
  }
}
