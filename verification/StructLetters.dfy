/**
  What each letter of a format stands for, in plain numbers and octets: sizes,
  signedness, byte order, strings, alignment, and the position unpack starts at.
  */
module StructLetters {
  import Bits
  import opened Common
  import opened StructIntegers
  import opened StructFormat
  import opened StructLayout
  import opened StructTheorems

  /** The switches for byte order: none, little endian and big endian. */
  predicate IsOrder(order: string) { order == "" || order == "<" || order == ">" }

  /** The integer letters, bare: their sizes and whether they are signed. */
  predicate IsIntegerLetter(letter: char, w: nat, signed: bool) {
    (letter == 'b' && w == 1 && signed) || (letter == 'B' && w == 1 && !signed) ||
    (letter == 'h' && w == 2 && signed) || (letter == 'H' && w == 2 && !signed) ||
    (letter == 'i' && w == 4 && signed) || (letter == 'I' && w == 4 && !signed) ||
    (letter == 'l' && w == 8 && signed) || (letter == 'L' && w == 8 && !signed) ||
    (letter == 'T' && w == 8 && !signed)
  }

  // ---------------------------------------------------------------------
  // Formats of one option
  // ---------------------------------------------------------------------

  function EndianOf(order: string): Endian { if order == ">" then Big else Little }

  function Marks(order: string): seq<Directive> { if order == "" then [] else [Switch] }

  lemma OrderIsRead(order: string, opt: string)
    requires IsOrder(order)
    ensures Parse(order + opt, DEFAULT_HEADER) == Marks(order) + Parse(opt, Header(EndianOf(order), 1))
  {
    if order == "" {
      assert order + opt == opt;
      assert [] + Parse(opt, DEFAULT_HEADER) == Parse(opt, DEFAULT_HEADER);
    } else {
      assert (order + opt)[1..] == opt;
    }
  }

  lemma LetterIsRead(letter: char, w: nat, signed: bool, h: Header)
    requires IsIntegerLetter(letter, w, signed)
    ensures Parse([letter], h) == [Item(FieldSpec(Integer(signed), w, h.endian, h.align))]
  {
    assert [letter][1..] == "";
    assert Parse("", h) == [];
  }

  lemma BareIsRead(order: string, letter: char, w: nat, signed: bool)
    requires IsOrder(order) && IsIntegerLetter(letter, w, signed)
    ensures Parse(order + [letter], DEFAULT_HEADER) ==
            Marks(order) + [Item(FieldSpec(Integer(signed), w, EndianOf(order), 1))]
  {
    OrderIsRead(order, [letter]);
    LetterIsRead(letter, w, signed, Header(EndianOf(order), 1));
  }

  lemma PackSingle(order: string, f: Field, args: seq<Value>, b: seq<byte>)
    requires f.align == 1 && PackItem(f, args) == Ok(Packed(b, []))
    ensures PackAll(Marks(order) + [Item(f)], args, 0) == Ok(b)
  {
    NoPadding(f, 0);
    assert [Item(f)][1..] == [];
    assert Repeat(0, 0) + b + [] == b;
    assert PackAll([Item(f)], args, 0) == Ok(b);
    SkipMarks(order, [Item(f)], args, [], 0);
  }

  lemma UnpackSingle(order: string, f: Field, data: seq<byte>, out: seq<Value>)
    requires f.align == 1 && f.size <= |data| && UnpackItem(f, data, 0, []) == Ok(Taken(out, |data|))
    ensures UnpackAll(Marks(order) + [Item(f)], data, 0, []) == Ok(Unpacked(out, |data|))
  {
    UnpackAlone(f, data, out);
    SkipMarks(order, [Item(f)], [], data, 0);
  }

  lemma UnpackAlone(f: Field, data: seq<byte>, out: seq<Value>)
    requires f.align == 1 && f.size <= |data| && UnpackItem(f, data, 0, []) == Ok(Taken(out, |data|))
    ensures UnpackAll([Item(f)], data, 0, []) == Ok(Unpacked(out, |data|))
  {
    NoPadding(f, 0);
    UnpackFirst(f, [], data, out, |data|);
    assert [Item(f)] + [] == [Item(f)];
  }

  lemma UnpackFirst(f: Field, ds: seq<Directive>, data: seq<byte>, out: seq<Value>, size: nat)
    requires f.PaddingAt(0) == 0 && f.size <= |data| && UnpackItem(f, data, 0, []) == Ok(Taken(out, size))
    ensures UnpackAll([Item(f)] + ds, data, 0, []) == UnpackAll(ds, data, size, out)
  {
    var all := [Item(f)] + ds;
    assert all[0] == Item(f) && all[1..] == ds && Word(0) == 0;
  }

  lemma SkipMarks(order: string, ds: seq<Directive>, args: seq<Value>, data: seq<byte>, pos: nat)
    requires pos <= |data| || data == []
    ensures PackAll(Marks(order) + ds, args, pos) == PackAll(ds, args, pos)
    ensures pos <= |data| ==> UnpackAll(Marks(order) + ds, data, pos, []) == UnpackAll(ds, data, pos, [])
  {
    if order == "" { assert [] + ds == ds; } else { assert ([Switch] + ds)[1..] == ds; }
  }

  // ---------------------------------------------------------------------
  // Integers
  // ---------------------------------------------------------------------

  lemma PackLetter(letter: char, w: nat, signed: bool, order: string, n: LuaInt)
    requires IsIntegerLetter(letter, w, signed) && IsOrder(order)
    ensures PackSpec(order + [letter], [Int(n)]) == Ok(EncodeInt(ToNumber(n) % TWO_64, EndianOf(order), w))
  {
    var f := FieldSpec(Integer(signed), w, EndianOf(order), 1);
    BareIsRead(order, letter, w, signed);
    assert [Int(n)][1..] == [];
    PackSingle(order, f, [Int(n)], EncodeInt(ToNumber(n) % TWO_64, f.endian, w));
  }

  /** Every octet of an integer packed under a bare letter: as many as the letter says, in the order of the switch. */
  lemma PackedLetter(letter: char, w: nat, signed: bool, order: string, n: LuaInt)
    requires IsIntegerLetter(letter, w, signed) && IsOrder(order)
    ensures var r := PackSpec(order + [letter], [Int(n)]);
            r.Ok? && |r.value| == w &&
            forall i :: 0 <= i < w ==>
              r.value[i] == ((ToNumber(n) % TWO_64) / Pow256(if order == ">" then w - 1 - i else i)) % 256
  {
    PackLetter(letter, w, signed, order, n);
    OctetsOf(ToNumber(n) % TWO_64, w, order == ">");
  }

  /** What unpack makes of any octets under a bare letter. */
  lemma UnpackedLetter(letter: char, signed: bool, order: string, data: seq<byte>)
    requires 1 <= |data| <= 8 && IsIntegerLetter(letter, |data|, signed) && IsOrder(order)
    ensures UnpackSpec(order + [letter], data, 1) ==
            Ok(Unpacked([Int(Valued(data, signed, order == ">"))], |data| + 1))
  {
    var f := FieldSpec(Integer(signed), |data|, EndianOf(order), 1);
    BareIsRead(order, letter, |data|, signed);
    ValuedIsDecoded(data, signed, order == ">");
    assert data[0..|data|] == data;
    var out := [Int(Valued(data, signed, order == ">"))];
    assert [] + out == out;
    UnpackSingle(order, f, data, out);
  }

  /** An integer letter asks for an integer, and for as many octets as it has. */
  lemma LetterRefuses(letter: char, w: nat, signed: bool, order: string, args: seq<Value>, data: seq<byte>)
    requires IsIntegerLetter(letter, w, signed) && IsOrder(order)
    ensures args == [] || !args[0].Int? ==> PackSpec(order + [letter], args) == Err(BadArgument)
    ensures |data| < w ==> UnpackSpec(order + [letter], data, 1) == Err(DataTooShort)
  {
    var f := FieldSpec(Integer(signed), w, EndianOf(order), 1);
    BareIsRead(order, letter, w, signed);
    NoPadding(f, 0);
    SkipMarks(order, [Item(f)], args, data, 0);
  }

  /** The width written after `i` or `I` is the size, up to 32. */
  lemma WidthLimit(letter: char, n: nat)
    requires letter == 'i' || letter == 'I'
    ensures SizeSpec([letter] + Decimal(n)) == if n <= 32 then Ok(n) else Err(IntegralSizeTooLarge(n))
  {
    var fmt := [letter] + Decimal(n);
    assert fmt[1..] == Decimal(n) == Decimal(n) + "";
    NumberIsRead(n, "", INT_SIZE);
    if n <= 32 {
      var f := FieldSpec(Integer(letter == 'i'), n, NATIVE, 1);
      assert Parse("", DEFAULT_HEADER) == [];
      assert Parse(fmt, DEFAULT_HEADER) == [Item(f)];
      SizeSingle(f);
    }
  }

  /** The size of every letter that has one. */
  lemma SizeOfLetter(letter: char)
    ensures letter in "bBxc" ==> SizeSpec([letter]) == Ok(1)
    ensures letter in "hH" ==> SizeSpec([letter]) == Ok(2)
    ensures letter in "iIf" ==> SizeSpec([letter]) == Ok(4)
    ensures letter in "lLTd" ==> SizeSpec([letter]) == Ok(8)
  {
    assert [letter][1..] == "";
    assert Parse("", DEFAULT_HEADER) == [];
    if KindOf(letter).Some? && letter != 's' {
      var f := FieldSpec(KindOf(letter).value, OptionSize(letter, "").value.size, NATIVE, 1);
      NoPadding(f, 0);
      SizeSingle(f);
      assert Parse([letter], DEFAULT_HEADER) == [Item(f)];
    }
  }

  lemma SizeSingle(f: Field)
    requires f.align == 1 && !f.Variable()
    ensures SizeAll([Item(f)], 0) == Ok(f.size)
  {
    NoPadding(f, 0);
    assert [Item(f)][1..] == [];
  }

  // ---------------------------------------------------------------------
  // Floats and strings
  // ---------------------------------------------------------------------

  /** Octets in the order of the switch. */
  function InOrderOf(order: string, b: seq<byte>): (r: seq<byte>)
    ensures |r| == |b|
    ensures forall i :: 0 <= i < |b| ==> r[i] == b[if order == ">" then |b| - 1 - i else i]
  {
    if order == ">" then Reversed(b) else b
  }

  /** A float is stored octet by octet, reversed under `>` alone, and read back the same way. */
  lemma PackedFloat(order: string, b: Bytes4)
    requires IsOrder(order)
    ensures PackSpec(order + "f", [Float(b)]) == Ok(InOrderOf(order, b))
    ensures UnpackSpec(order + "f", b, 1) == Ok(Unpacked([Float(InOrderOf(order, b))], 5))
  {
    var f := FieldSpec(FloatBits, 4, EndianOf(order), 1);
    OrderIsRead(order, "f");
    assert "f"[1..] == "" && Parse("", Header(EndianOf(order), 1)) == [];
    assert Parse("f", Header(EndianOf(order), 1)) == [Item(f)];
    assert [Float(b)][1..] == [] && b[0..4] == b;
    PackSingle(order, f, [Float(b)], InOrderOf(order, b));
    assert [] + [Float(InOrderOf(order, b))] == [Float(InOrderOf(order, b))];
    UnpackSingle(order, f, b, [Float(InOrderOf(order, b))]);
  }

  lemma PackedDouble(order: string, b: Bytes8)
    requires IsOrder(order)
    ensures PackSpec(order + "d", [Double(b)]) == Ok(InOrderOf(order, b))
    ensures UnpackSpec(order + "d", b, 1) == Ok(Unpacked([Double(InOrderOf(order, b))], 9))
  {
    var f := FieldSpec(DoubleBits, 8, EndianOf(order), 1);
    OrderIsRead(order, "d");
    assert "d"[1..] == "" && Parse("", Header(EndianOf(order), 1)) == [];
    assert Parse("d", Header(EndianOf(order), 1)) == [Item(f)];
    assert [Double(b)][1..] == [] && b[0..8] == b;
    PackSingle(order, f, [Double(b)], InOrderOf(order, b));
    assert [] + [Double(InOrderOf(order, b))] == [Double(InOrderOf(order, b))];
    UnpackSingle(order, f, b, [Double(InOrderOf(order, b))]);
  }

  lemma CharsAreRead(n: nat, h: Header)
    ensures Parse("c" + Decimal(n), h) == [Item(FieldSpec(Chars, n, h.endian, h.align))]
  {
    assert ("c" + Decimal(n))[1..] == Decimal(n) == Decimal(n) + "";
    NumberIsRead(n, "", 1);
    assert Parse("", h) == [];
  }

  /** Strings and fillers, as they are stored. */
  lemma PackedStrings(s: seq<byte>, n: nat)
    ensures PackSpec("s", [Str(s)]) == Ok(s + [0])
    ensures PackSpec("c" + Decimal(n), [Str(s)]) ==
            if n == 0 then Ok(s) else if |s| < n then Err(StringTooShort) else Ok(s[..n])
    ensures PackSpec("x", []) == Ok([0])
  {
    var z, x := FieldSpec(ZeroTerminated, 0, NATIVE, 1), FieldSpec(Filler, 1, NATIVE, 1);
    var c := FieldSpec(Chars, n, NATIVE, 1);
    assert "s"[1..] == "" && "x"[1..] == "" && Parse("", DEFAULT_HEADER) == [];
    assert Parse("s", DEFAULT_HEADER) == [Item(z)] && Parse("x", DEFAULT_HEADER) == [Item(x)];
    CharsAreRead(n, DEFAULT_HEADER);
    assert [Str(s)][1..] == [] && s[..|s|] == s;
    assert [] + [Item(z)] == [Item(z)] && [] + [Item(c)] == [Item(c)] && [] + [Item(x)] == [Item(x)];
    PackSingle("", z, [Str(s)], s + [0]);
    PackSingle("", x, [], [0]);
    if n == 0 || |s| >= n { PackSingle("", c, [Str(s)], if n == 0 then s else s[..n]); }
  }

  /** `s` takes the octets before the first zero, and steps over it; without a zero it is refused. */
  lemma UnpackedStrings(s: seq<byte>, rest: seq<byte>)
    requires 0 !in s
    ensures UnpackSpec("s", s + [0] + rest, 1) == Ok(Unpacked([Str(s)], |s| + 2))
    ensures UnpackSpec("s", s, 1) == Err(UnfinishedString)
  {
    var z := FieldSpec(ZeroTerminated, 0, NATIVE, 1);
    assert "s"[1..] == "" && Parse("", DEFAULT_HEADER) == [];
    assert Parse("s", DEFAULT_HEADER) == [Item(z)];
    assert [Item(z)][1..] == [];
    var data := s + [0] + rest;
    assert data[|s|] == 0 && FindZero(data, 0) == Some(|s|) by {
      assert forall i :: 0 <= i < |s| ==> data[i] == s[i];
    }
    assert data[0..|s|] == s && [] + [Str(s)] == [Str(s)];
    assert UnpackAll([], data, |s| + 1, [Str(s)]) == Ok(Unpacked([Str(s)], |s| + 1));
  }

  // ---------------------------------------------------------------------
  // Alignment
  // ---------------------------------------------------------------------

  lemma EightAfterOne(f: Field)
    requires f.align == 8 && f.size == 8 && !f.kind.Chars?
    ensures f.PaddingAt(1) == 7
  {
    assert Bits.Pow2(3) == 8;
    PaddingIsLeast(1, 3, 3, 7);
  }

  lemma NumberDefault(rest: string, default: nat)
    requires rest == "" || !IsDigit(rest[0])
    ensures GetNumber(rest, default) == Num(default, rest)
  {
  }

  /** `!` alone reads: alignment 8, the byte order as it was. */
  lemma BareAlignment(opt: string, endian: Endian)
    requires opt == "" || !IsDigit(opt[0])
    ensures Parse("!" + opt, Header(endian, 1)) == [Switch] + Parse(opt, Header(endian, 8))
  {
    assert ("!" + opt)[1..] == opt;
    NumberDefault(opt, 8);
    assert IsPowerOf2(8) by { Bits.Pow2Clears(3); assert Bits.Pow2(3) == 8; }
  }

  /** After a filler, `l` under a bare `!` begins at position 8, in the byte order of the switch before. */
  lemma AlignedLong(order: string, n: LuaInt)
    requires IsOrder(order)
    ensures PackSpec(order + "l", [Int(n)]).Ok?
    ensures PackSpec(order + "!xl", [Int(n)]) == Ok(Repeat(0, 8) + PackSpec(order + "l", [Int(n)]).value)
  {
    PackLetter('l', 8, true, order, n);
    var endian := EndianOf(order);
    OrderIsRead(order, "!xl");
    AlignedIsRead(endian);
    PackAligned(order, FieldSpec(Integer(true), 8, endian, 8), n);
  }

  lemma PackAligned(order: string, f: Field, n: LuaInt)
    requires f.kind.Integer? && f.size == 8 && f.align == 8
    ensures PackAll(Marks(order) + [Switch, Item(FillerAt(f.endian)), Item(f)], [Int(n)], 0) ==
            Ok(Repeat(0, 8) + EncodeInt(ToNumber(n) % TWO_64, f.endian, 8))
  {
    var b := EncodeInt(ToNumber(n) % TWO_64, f.endian, 8);
    assert [Int(n)][1..] == [];
    EightAfterOne(f);
    PackTwo(order, f, [Int(n)], b);
    assert [0] + (Repeat(0, 7) + b) == Repeat(0, 8) + b;
  }

  lemma AlignedIsRead(endian: Endian)
    ensures Parse("!xl", Header(endian, 1)) ==
            [Switch, Item(FillerAt(endian)), Item(FieldSpec(Integer(true), 8, endian, 8))]
  {
    assert "!xl" == "!" + "xl";
    BareAlignment("xl", endian);
    FillerIsRead("l", endian);
    LetterIsRead('l', 8, true, Header(endian, 8));
  }

  function FillerAt(endian: Endian): Field { FieldSpec(Filler, 1, endian, 8) }

  lemma FillerIsRead(opt: string, endian: Endian)
    ensures Parse("x" + opt, Header(endian, 8)) == [Item(FillerAt(endian))] + Parse(opt, Header(endian, 8))
  {
    assert ("x" + opt)[1..] == opt;
  }

  lemma NoPaddingForOne(f: Field, pos: nat)
    requires f.size == 1
    ensures f.PaddingAt(pos) == 0
  {
    assert Bits.And(1 - Bits.And(pos, 0), 0) == 0;
  }

  /** A filler and another item, under an alignment switch. */
  lemma PackTwo(order: string, f: Field, args: seq<Value>, b: seq<byte>)
    requires PackItem(f, args) == Ok(Packed(b, []))
    ensures PackAll(Marks(order) + [Switch, Item(FillerAt(f.endian)), Item(f)], args, 0) ==
            Ok([0] + (Repeat(0, f.PaddingAt(1)) + b))
  {
    var x := FillerAt(f.endian);
    var items := [Item(x), Item(f)];
    var ds := [Switch] + items;
    assert ds == [Switch, Item(x), Item(f)];
    SkipMarks(order, ds, args, [], 0);
    assert ds[1..] == items && items[1..] == [Item(f)];
    PackLast(f, args, 1, b);
    NoPaddingForOne(x, 0);
    assert Repeat(0, 0) + [0] == [0];
  }

  lemma PackLast(f: Field, args: seq<Value>, pos: nat, b: seq<byte>)
    requires PackItem(f, args) == Ok(Packed(b, []))
    ensures PackAll([Item(f)], args, pos) == Ok(Repeat(0, f.PaddingAt(pos)) + b)
  {
    assert [Item(f)][1..] == [];
    assert Repeat(0, f.PaddingAt(pos)) + b + [] == Repeat(0, f.PaddingAt(pos)) + b;
  }

  /** `c` is never aligned: after a filler under `!`, its octets follow at once, whatever their number. */
  lemma CharsFollowAtOnce(s: seq<byte>, n: nat)
    requires 0 < n <= |s|
    ensures PackSpec("!xc" + Decimal(n), [Str(s)]) == Ok([0] + s[..n])
  {
    var c := FieldSpec(Chars, n, NATIVE, 8);
    AlignedCharsAreRead(n);
    assert [Str(s)][1..] == [];
    PackTwo("", c, [Str(s)], s[..n]);
    assert Marks("") + [Switch, Item(FillerAt(NATIVE)), Item(c)] == [Switch, Item(FillerAt(NATIVE)), Item(c)];
    assert Repeat(0, 0) + s[..n] == s[..n];
  }

  lemma AlignedCharsAreRead(n: nat)
    ensures Parse("!xc" + Decimal(n), DEFAULT_HEADER) ==
            [Switch, Item(FillerAt(NATIVE)), Item(FieldSpec(Chars, n, NATIVE, 8))]
  {
    var chars := "c" + Decimal(n);
    assert "!xc" + Decimal(n) == "!" + ("x" + chars);
    BareAlignment("x" + chars, NATIVE);
    FillerIsRead(chars, NATIVE);
    CharsAreRead(n, Header(NATIVE, 8));
  }

  // ---------------------------------------------------------------------
  // One option after another
  // ---------------------------------------------------------------------

  predicate Unaligned(ds: seq<Directive>) { forall i :: 0 <= i < |ds| && ds[i].Item? ==> ds[i].f.align == 1 }

  lemma {:induction false} DigitsLeave(fmt: string, a: nat)
    ensures forall c :: c in Digits(fmt, a).rest ==> c in fmt
  {
    if fmt != "" && IsDigit(fmt[0]) { DigitsLeave(fmt[1..], 10 * a + (fmt[0] as int - '0' as int)); }
  }

  /** Without a `!` nothing is aligned. */
  lemma {:induction false} UnalignedFormat(fmt: string, h: Header)
    requires h.align == 1 && '!' !in fmt
    ensures Unaligned(Parse(fmt, h))
    decreases |fmt|
  {
    if fmt == "" || fmt[0] == '\0' { return; }
    DigitsLeave(fmt[1..], 0);
    var sized := OptionSize(fmt[0], fmt[1..]);
    if sized.Ok? {
      var rest := sized.value.rest;
      UnalignedFormat(rest, h);
      if KindOf(fmt[0]).None? && Control(fmt[0], rest, h).Ok? {
        var c := Control(fmt[0], rest, h).value;
        UnalignedFormat(c.rest, c.h);
      }
    }
  }

  lemma {:induction false} PositionFree(ds: seq<Directive>, args: seq<Value>, p: nat, q: nat)
    requires Unaligned(ds)
    ensures PackAll(ds, args, p) == PackAll(ds, args, q)
    decreases |ds|
  {
    if ds == [] { return; }
    match ds[0]
    case Switch => PositionFree(ds[1..], args, p, q);
    case Item(f) => {
      NoPadding(f, p);
      NoPadding(f, q);
      var item := PackItem(f, args);
      if item.Ok? {
        var n := |item.value.bytes|;
        PositionFree(ds[1..], item.value.args, p + n, q + n);
      }
    }
    case _ =>
  }

  /** Without alignment, pack is one option's octets and then the rest's; the byte order stays as it was switched. */
  lemma PackedInTurn(letter: char, w: nat, signed: bool, order: string, n: LuaInt, rest: string, args: seq<Value>)
    requires IsIntegerLetter(letter, w, signed) && IsOrder(order)
    requires '!' !in rest && (rest == "" || !IsDigit(rest[0]))
    ensures PackSpec(order + [letter], [Int(n)]).Ok?
    ensures var r, tail := PackSpec(order + ([letter] + rest), [Int(n)] + args), PackSpec(order + rest, args);
            if tail.Err? then r == tail
            else r == Ok(PackSpec(order + [letter], [Int(n)]).value + tail.value)
  {
    var h := Header(EndianOf(order), 1);
    var f, ds := FieldSpec(Integer(signed), w, h.endian, 1), Parse(rest, h);
    var b := EncodeInt(ToNumber(n) % TWO_64, h.endian, w);
    OrderIsRead(order, rest);
    SkipMarks(order, ds, args, [], 0);
    InTurnIsRead(letter, w, signed, order, rest);
    SkipMarks(order, [Item(f)] + ds, [Int(n)] + args, [], 0);
    UnalignedFormat(rest, h);
    PackFirst(f, n, args, ds, b);
    PackLetter(letter, w, signed, order, n);
  }

  lemma InTurnIsRead(letter: char, w: nat, signed: bool, order: string, rest: string)
    requires IsOrder(order) && IsIntegerLetter(letter, w, signed) && (rest == "" || !IsDigit(rest[0]))
    ensures var h := Header(EndianOf(order), 1);
            Parse(order + ([letter] + rest), DEFAULT_HEADER) ==
            Marks(order) + ([Item(FieldSpec(Integer(signed), w, h.endian, 1))] + Parse(rest, h))
  {
    OrderIsRead(order, [letter] + rest);
    assert ([letter] + rest)[1..] == rest;
  }

  lemma PackFirst(f: Field, n: LuaInt, args: seq<Value>, ds: seq<Directive>, b: seq<byte>)
    requires f.kind.Integer? && f.align == 1 && b == EncodeInt(ToNumber(n) % TWO_64, f.endian, f.size)
    requires Unaligned(ds)
    ensures var r, tail := PackAll([Item(f)] + ds, [Int(n)] + args, 0), PackAll(ds, args, 0);
            if tail.Err? then r == tail else r == Ok(b + tail.value)
  {
    var all, given := [Item(f)] + ds, [Int(n)] + args;
    assert all[1..] == ds && given[1..] == args;
    assert PackItem(f, given) == Ok(Packed(b, args));
    NoPadding(f, 0);
    PositionFree(ds, args, |b|, 0);
    assert Repeat(0, 0) + b == b;
  }

  // ---------------------------------------------------------------------
  // Where unpack starts
  // ---------------------------------------------------------------------

  /** unpack at position p + 1 reads what was packed for position p, behind p other octets. */
  lemma UnpackWithin(fmt: string, args: seq<Value>, before: seq<byte>, tail: seq<byte>)
    requires |before| + 1 < TWO_63 && KeepAll(Parse(fmt, DEFAULT_HEADER), args, []).Some?
    ensures var ds := Parse(fmt, DEFAULT_HEADER);
            var packed := PackAll(ds, args, |before|);
            packed.Ok? &&
            UnpackSpec(fmt, before + packed.value + tail, |before| + 1) ==
            Ok(Unpacked(KeepAll(ds, args, []).value, |before| + |packed.value| + 1))
  {
    var ds := Parse(fmt, DEFAULT_HEADER);
    RoundTrip(ds, args, |before|, [], []);
    var bytes := PackAll(ds, args, |before|).value;
    var data := before + bytes + tail;
    assert Holds(data, |before|, bytes);
    RoundTrip(ds, args, |before|, [], data);
  }
}
