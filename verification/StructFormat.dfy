/**
  The format language of lua-client/3rd/struct.c: numbers, option sizes,
  alignment and control options, and the three interpreters (pack, unpack,
  size) as functions.

  A format is a C string; its cursor is represented by the characters left.
  Reading a format under a header gives a list of directives in which every
  field carries the byte order and the alignment in force where it stands.
  */
module StructFormat {
  import opened Bits
  import opened Common
  import opened StructIntegers

  type Alignment = a: nat | a > 0 witness 1

  datatype Header = Header(endian: Endian, align: Alignment)

  const DEFAULT_HEADER := Header(NATIVE, 1)

  /** Sizes of the C types, and the largest natural alignment, under LP64. */
  const SHORT_SIZE: nat := 2
  const INT_SIZE: nat := 4
  const LONG_SIZE: nat := 8
  const FLOAT_SIZE: nat := 4
  const DOUBLE_SIZE: nat := 8
  const MAX_ALIGN: nat := 8

  datatype Error =
    | IntegralSizeTooLarge(size: nat)
    | AlignmentNotPowerOf2(align: nat)
    | InvalidOption(opt: char)
    | BadArgument
    | StringTooShort
    | DataTooShort
    | NeedsPreviousSize
    | UnfinishedString
    | NoFixedSize
    | UndefinedInC

  type Bytes4 = s: seq<byte> | |s| == 4 witness [0, 0, 0, 0]
  type Bytes8 = s: seq<byte> | |s| == 8 witness [0, 0, 0, 0, 0, 0, 0, 0]

  /** An argument of pack or a result of unpack; a float is its native octets. */
  datatype Value = Int(n: LuaInt) | Float(f: Bytes4) | Double(d: Bytes8) | Str(s: seq<byte>)

  // ---------------------------------------------------------------------
  // Numbers inside a format
  // ---------------------------------------------------------------------

  predicate IsDigit(c: char) { '0' <= c <= '9' }
  predicate IsLower(c: char) { 'a' <= c <= 'z' }
  predicate IsAlnum(c: char) { IsDigit(c) || IsLower(c) || 'A' <= c <= 'Z' }

  datatype Num = Num(value: nat, rest: string)

  function Digits(fmt: string, a: nat): (r: Num)
    ensures |r.rest| <= |fmt|
  {
    if fmt != [] && IsDigit(fmt[0]) then Digits(fmt[1..], 10 * a + (fmt[0] as int - '0' as int))
    else Num(a, fmt)
  }

  function GetNumber(fmt: string, default: nat): (r: Num)
    ensures |r.rest| <= |fmt|
  {
    if fmt == [] || !IsDigit(fmt[0]) then Num(default, fmt) else Digits(fmt, 0)
  }

  // ---------------------------------------------------------------------
  // Option sizes, alignment, control options
  // ---------------------------------------------------------------------

  predicate IsInteger(opt: char) {
    opt == 'b' || opt == 'B' || opt == 'h' || opt == 'H' || opt == 'l' || opt == 'L' || opt == 'T' ||
    opt == 'i' || opt == 'I'
  }

  /** What a field is converted to and from. */
  datatype Kind = Integer(signed: bool) | Filler | FloatBits | DoubleBits | Chars | ZeroTerminated

  /** The options that occupy space in the packed string. */
  function KindOf(opt: char): Option<Kind> {
    if IsInteger(opt) then Some(Integer(IsLower(opt)))
    else if opt == 'x' then Some(Filler)
    else if opt == 'f' then Some(FloatBits)
    else if opt == 'd' then Some(DoubleBits)
    else if opt == 'c' then Some(Chars)
    else if opt == 's' then Some(ZeroTerminated)
    else None
  }

  /** The sizes an option of this kind can have. */
  predicate SizeMatches(kind: Kind, size: nat) {
    match kind
    case Integer(_) => size <= MAX_INT_SIZE
    case Filler => size == 1
    case FloatBits => size == FLOAT_SIZE
    case DoubleBits => size == DOUBLE_SIZE
    case Chars => true
    case ZeroTerminated => size == 0
  }

  datatype Sized = Sized(size: nat, rest: string)

  function OptionSize(opt: char, fmt: string): (r: Result<Sized, Error>)
    ensures r.Ok? ==> |r.value.rest| <= |fmt|
    ensures r.Ok? && KindOf(opt).Some? ==> SizeMatches(KindOf(opt).value, r.value.size)
  {
    if opt == 'b' || opt == 'B' then Ok(Sized(1, fmt))
    else if opt == 'h' || opt == 'H' then Ok(Sized(SHORT_SIZE, fmt))
    else if opt == 'l' || opt == 'L' || opt == 'T' then Ok(Sized(LONG_SIZE, fmt))
    else if opt == 'f' then Ok(Sized(FLOAT_SIZE, fmt))
    else if opt == 'd' then Ok(Sized(DOUBLE_SIZE, fmt))
    else if opt == 'x' then Ok(Sized(1, fmt))
    else if opt == 'c' then
      var n := GetNumber(fmt, 1);
      Ok(Sized(n.value, n.rest))
    else if opt == 'i' || opt == 'I' then
      var n := GetNumber(fmt, INT_SIZE);
      if n.value > MAX_INT_SIZE then Err(IntegralSizeTooLarge(n.value)) else Ok(Sized(n.value, n.rest))
    else Ok(Sized(0, fmt))
  }

  predicate IsPowerOf2(a: nat) { a > 0 && And(a, a - 1) == 0 }

  /** Octets needed to align an element of `size` octets at position len; `c` is never aligned. */
  function Padding(len: nat, align: Alignment, chars: bool, size: nat): nat {
    if size == 0 || chars then 0
    else
      var unit := if size > align then align else size;
      And(unit - And(len, unit - 1), unit - 1)
  }

  datatype Controlled = Controlled(h: Header, rest: string)

  function Control(opt: char, fmt: string, h: Header): (r: Result<Controlled, Error>)
    ensures r.Ok? ==> |r.value.rest| <= |fmt|
  {
    if opt == ' ' then Ok(Controlled(h, fmt))
    else if opt == '>' then Ok(Controlled(h.(endian := Big), fmt))
    else if opt == '<' then Ok(Controlled(h.(endian := Little), fmt))
    else if opt == '!' then
      var n := GetNumber(fmt, MAX_ALIGN);
      if IsPowerOf2(n.value) then Ok(Controlled(h.(align := n.value), n.rest))
      else Err(AlignmentNotPowerOf2(n.value))
    else Err(InvalidOption(opt))
  }

  // ---------------------------------------------------------------------
  // Directives
  // ---------------------------------------------------------------------

  /** A field and the header it is read under. */
  datatype FieldSpec = FieldSpec(kind: Kind, size: nat, endian: Endian, align: Alignment) {
    predicate Valid() { SizeMatches(kind, size) }
    function PaddingAt(pos: nat): nat { Padding(pos, align, kind.Chars?, size) }
    /** An `s` or a `c0`: the length is not in the format. */
    predicate Variable() { kind.ZeroTerminated? || (kind.Chars? && size == 0) }
  }

  type Field = f: FieldSpec | f.Valid() witness FieldSpec(Filler, 1, NATIVE, 1)

  /**
    Stop: the size of the option is refused, before anything else happens.
    Refuse: the option is refused as a control option; size overlooks this
    when the option is alphanumeric.
    */
  datatype Directive = Item(f: Field) | Switch | Stop(e: Error) | Refuse(e: Error, alnum: bool)

  /** A format ends at its first zero character. */
  function Parse(fmt: string, h: Header): seq<Directive>
    decreases |fmt|
  {
    if fmt == [] || fmt[0] == '\0' then [] else
    match OptionSize(fmt[0], fmt[1..])
    case Err(e) => [Stop(e)]
    case Ok(Sized(size, rest)) =>
      match KindOf(fmt[0])
      case Some(kind) => [Item(FieldSpec(kind, size, h.endian, h.align))] + Parse(rest, h)
      case None =>
        match Control(fmt[0], rest, h)
        case Err(e) => [Refuse(e, IsAlnum(fmt[0]))] + Parse(rest, h)
        case Ok(Controlled(h', rest')) => [Switch] + Parse(rest', h')
  }

  // ---------------------------------------------------------------------
  // pack
  // ---------------------------------------------------------------------

  function InOrder(b: seq<byte>, endian: Endian): (r: seq<byte>)
    ensures |r| == |b|
  {
    if endian != NATIVE then Reversed(b) else b
  }

  datatype Packed = Packed(bytes: seq<byte>, args: seq<Value>)

  function PackItem(f: Field, args: seq<Value>): (r: Result<Packed, Error>)
    ensures r.Ok? && !f.Variable() ==> |r.value.bytes| == f.size
    ensures r.Ok? ==> |r.value.bytes| >= f.size
  {
    if f.kind.Filler? then Ok(Packed([0], args))
    else if args == [] then Err(BadArgument)
    else
      match (f.kind, args[0])
      case (Integer(_), Int(n)) =>
        Ok(Packed(EncodeInt(ToNumber(n) % TWO_64, f.endian, f.size), args[1..]))
      case (FloatBits, Float(b)) => Ok(Packed(InOrder(b, f.endian), args[1..]))
      case (DoubleBits, Double(b)) => Ok(Packed(InOrder(b, f.endian), args[1..]))
      case (Chars, Str(s)) =>
        var n := if f.size == 0 then |s| else f.size;
        if |s| < n then Err(StringTooShort) else Ok(Packed(s[..n], args[1..]))
      case (ZeroTerminated, Str(s)) => Ok(Packed(s + [0], args[1..]))
      case _ => Err(BadArgument)
  }

  function Prepend(b: seq<byte>, r: Result<seq<byte>, Error>): Result<seq<byte>, Error> {
    match r case Ok(c) => Ok(b + c) case Err(e) => Err(e)
  }

  /** What pack appends for the directives that are left, at position pos. */
  function PackAll(ds: seq<Directive>, args: seq<Value>, pos: nat): Result<seq<byte>, Error> {
    if ds == [] then Ok([]) else
    match ds[0]
    case Stop(e) => Err(e)
    case Refuse(e, _) => Err(e)
    case Switch => PackAll(ds[1..], args, pos)
    case Item(f) =>
      match PackItem(f, args)
      case Err(e) => Err(e)
      case Ok(Packed(bytes, args')) =>
        var pad := f.PaddingAt(pos);
        Prepend(Repeat(0, pad) + bytes, PackAll(ds[1..], args', pos + pad + |bytes|))
  }

  // ---------------------------------------------------------------------
  // unpack
  // ---------------------------------------------------------------------

  /** Index of the first zero octet at or after p. */
  function FindZero(data: seq<byte>, p: nat): (r: Option<nat>)
    requires p <= |data|
    ensures r.Some? ==> p <= r.value < |data| && data[r.value] == 0
    ensures forall i :: p <= i < (if r.Some? then r.value else |data|) ==> data[i] != 0
    decreases |data| - p
  {
    if p == |data| then None
    else if data[p] == 0 then Some(p)
    else FindZero(data, p + 1)
  }

  /** The results so far, and the octets the item took. */
  datatype Taken = Taken(out: seq<Value>, size: nat)

  function UnpackItem(f: Field, data: seq<byte>, p: nat, out: seq<Value>): (r: Result<Taken, Error>)
    requires p + f.size <= |data|
    ensures r.Ok? ==> p + r.value.size <= |data|
  {
    var field := data[p..p + f.size];
    match f.kind
    case Integer(signed) =>
      (match DecodeInt(field, f.endian, signed)
       case None => Err(UndefinedInC)
       case Some(n) => Ok(Taken(out + [Int(n)], f.size)))
    case Filler => Ok(Taken(out, f.size))
    case FloatBits => Ok(Taken(out + [Float(InOrder(field, f.endian))], f.size))
    case DoubleBits => Ok(Taken(out + [Double(InOrder(field, f.endian))], f.size))
    case ZeroTerminated =>
      (match FindZero(data, p)
       case None => Err(UnfinishedString)
       case Some(e) => Ok(Taken(out + [Str(data[p..e])], e - p + 1)))
    case Chars =>
      if f.size > 0 then Ok(Taken(out + [Str(field)], f.size)) else TakeCounted(data, p, out)
  }

  /** `c0`: the last result is popped and used as the length. */
  function TakeCounted(data: seq<byte>, p: nat, out: seq<Value>): (r: Result<Taken, Error>)
    requires p <= |data|
    ensures r.Ok? ==> p + r.value.size <= |data|
  {
    if out == [] then Err(NeedsPreviousSize)
    else
      var rest := out[..|out| - 1];
      match out[|out| - 1]
      case Str(_) => Err(NeedsPreviousSize)
      case Int(n) =>
        if n < 0 then Err(UndefinedInC)
        else if p + n > |data| then Err(DataTooShort)
        else Ok(Taken(rest + [Str(data[p..p + n])], n))
      case _ => Err(UndefinedInC)
  }

  datatype Unpacked = Unpacked(out: seq<Value>, pos: int)

  /** The size_t a position stands for; one below the start of the data wraps around. */
  function Word(pos: int): nat { if pos >= 0 then pos else pos % TWO_64 }

  /** The position, as a size_t, is greater than the length of the data. */
  predicate Outside(pos: int, data: seq<byte>) { pos < 0 || pos > |data| }

  /**
    What unpack adds to the results from position pos on. A field that begins
    before the data and passes the check because its end wraps around to the
    inside is undefined, but for a filler, which reads nothing.
    */
  function UnpackAll(ds: seq<Directive>, data: seq<byte>, pos: int, out: seq<Value>): Result<Unpacked, Error> {
    if ds == [] then Ok(Unpacked(out, pos)) else
    match ds[0]
    case Stop(e) => Err(e)
    case Refuse(e, _) => if Outside(pos, data) then Err(DataTooShort) else Err(e)
    case Switch => if Outside(pos, data) then Err(DataTooShort) else UnpackAll(ds[1..], data, pos, out)
    case Item(f) =>
      var p := pos + f.PaddingAt(Word(pos));
      if Outside(p + f.size, data) then Err(DataTooShort)
      else if p < 0 then
        if f.kind.Filler? then UnpackAll(ds[1..], data, p + f.size, out) else Err(UndefinedInC)
      else
        match UnpackItem(f, data, p, out)
        case Err(e) => Err(e)
        case Ok(Taken(out', size)) => UnpackAll(ds[1..], data, p + size, out')
  }

  // ---------------------------------------------------------------------
  // size
  // ---------------------------------------------------------------------

  function SizeAll(ds: seq<Directive>, pos: nat): Result<nat, Error> {
    if ds == [] then Ok(pos) else
    match ds[0]
    case Stop(e) => Err(e)
    case Refuse(e, alnum) => if alnum then SizeAll(ds[1..], pos) else Err(e)
    case Switch => SizeAll(ds[1..], pos)
    case Item(f) => if f.Variable() then Err(NoFixedSize) else SizeAll(ds[1..], pos + f.PaddingAt(pos) + f.size)
  }

  // ---------------------------------------------------------------------
  // The three functions of the library, on a format string
  // ---------------------------------------------------------------------

  function PackSpec(fmt: string, args: seq<Value>): Result<seq<byte>, Error> {
    PackAll(Parse(fmt, DEFAULT_HEADER), args, 0)
  }

  /** Positions are counted from 1 on the Lua side: the one to start at and the one returned after the results. */
  function UnpackSpec(fmt: string, data: seq<byte>, init: LuaInt): Result<Unpacked, Error> {
    match UnpackAll(Parse(fmt, DEFAULT_HEADER), data, init - 1, [])
    case Ok(Unpacked(out, pos)) => Ok(Unpacked(out, pos + 1))
    case Err(e) => Err(e)
  }

  function SizeSpec(fmt: string): Result<nat, Error> {
    SizeAll(Parse(fmt, DEFAULT_HEADER), 0)
  }
}
