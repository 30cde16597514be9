/**
  The loops of lua-client/3rd/struct.c: getnum, optsize, controloptions,
  b_pack, b_unpack and b_size, each walking the format with a cursor i and a
  mutable header h, proved equal to the functions of StructFormat.
  */
module StructCodec {
  import opened Common
  import opened StructIntegers
  import opened StructFormat

  // ---------------------------------------------------------------------
  // Reading the format
  // ---------------------------------------------------------------------

  /** getnum: the decimal number at the cursor, or the default. */
  method GetNum(fmt: string, i: nat, default: nat) returns (a: nat, j: nat)
    requires i <= |fmt|
    ensures i <= j <= |fmt| && GetNumber(fmt[i..], default) == Num(a, fmt[j..])
  {
    j := i;
    if i == |fmt| || !IsDigit(fmt[i]) {
      return default, i;
    }
    a := 0;
    while j < |fmt| && IsDigit(fmt[j])
      invariant i <= j <= |fmt|
      invariant Digits(fmt[i..], 0) == Digits(fmt[j..], a)
    {
      assert fmt[j..][1..] == fmt[j + 1..];
      a := 10 * a + (fmt[j] as int - '0' as int);
      j := j + 1;
    }
  }

  /** optsize. */
  method OptSize(opt: char, fmt: string, i: nat) returns (size: Result<nat, Error>, j: nat)
    requires i <= |fmt|
    ensures i <= j <= |fmt|
    ensures OptionSize(opt, fmt[i..]) ==
            match size case Ok(n) => Ok(Sized(n, fmt[j..])) case Err(e) => Err(e)
  {
    j := i;
    match opt {
      case 'B' | 'b' => size := Ok(1);
      case 'H' | 'h' => size := Ok(SHORT_SIZE);
      case 'L' | 'l' => size := Ok(LONG_SIZE);
      case 'T' => size := Ok(LONG_SIZE);
      case 'f' => size := Ok(FLOAT_SIZE);
      case 'd' => size := Ok(DOUBLE_SIZE);
      case 'x' => size := Ok(1);
      case 'c' =>
        var n;
        n, j := GetNum(fmt, i, 1);
        size := Ok(n);
      case 'i' | 'I' =>
        var n;
        n, j := GetNum(fmt, i, INT_SIZE);
        size := if n > MAX_INT_SIZE then Err(IntegralSizeTooLarge(n)) else Ok(n);
      case _ => size := Ok(0);
    }
  }

  /** controloptions: the header after a control option. */
  method ControlOptions(opt: char, fmt: string, i: nat, h: Header) returns (r: Result<Header, Error>, j: nat)
    requires i <= |fmt|
    ensures i <= j <= |fmt|
    ensures Control(opt, fmt[i..], h) ==
            match r case Ok(h') => Ok(Controlled(h', fmt[j..])) case Err(e) => Err(e)
  {
    j := i;
    match opt {
      case ' ' => r := Ok(h);
      case '>' => r := Ok(h.(endian := Big));
      case '<' => r := Ok(h.(endian := Little));
      case '!' =>
        var a;
        a, j := GetNum(fmt, i, MAX_ALIGN);
        if IsPowerOf2(a) {
          r := Ok(h.(align := a));
        } else {
          r := Err(AlignmentNotPowerOf2(a));
        }
      case _ => r := Err(InvalidOption(opt));
    }
  }

  /** Options that are not items have size 0 and leave the cursor alone. */
  lemma OtherSize(opt: char, fmt: string)
    requires KindOf(opt) == None
    ensures OptionSize(opt, fmt) == Ok(Sized(0, fmt))
  {
  }

  lemma ParseUnfold(fmt: string, i: nat, h: Header)
    requires i < |fmt|
    ensures fmt[i..][0] == fmt[i] && fmt[i..][1..] == fmt[i + 1..]
  {
  }

  /** The head of each loop: the next directive, the cursor after it and the header it leaves. */
  method ReadOption(fmt: string, i: nat, h: Header) returns (d: Directive, j: nat, h': Header)
    requires i < |fmt| && fmt[i] != '\0'
    ensures i < j <= |fmt|
    ensures Parse(fmt[i..], h) == [d] + (if d.Stop? then [] else Parse(fmt[j..], h'))
  {
    ParseUnfold(fmt, i, h);
    var opt := fmt[i];
    h' := h;
    var size;
    size, j := OptSize(opt, fmt, i + 1);
    if size.Err? {
      return Stop(size.error), j, h;
    }
    var kind := KindOf(opt);
    if kind.Some? {
      return Item(FieldSpec(kind.value, size.value, h.endian, h.align)), j, h;
    }
    OtherSize(opt, fmt[i + 1..]);
    var control, k := ControlOptions(opt, fmt, i + 1, h);
    if control.Err? {
      return Refuse(control.error, IsAlnum(opt)), i + 1, h;
    }
    d, j, h' := Switch, k, control.value;
  }

  // ---------------------------------------------------------------------
  // pack
  // ---------------------------------------------------------------------

  method AddZeros(b: seq<byte>, n: nat) returns (r: seq<byte>)
    ensures r == b + Repeat(0, n)
  {
    r := b;
    var toalign := n;
    while toalign > 0
      invariant 0 <= toalign <= n
      invariant r == b + Repeat(0, n - toalign)
    {
      toalign := toalign - 1;
      r := r + [0];
    }
  }

  method Ordered(s: seq<byte>, endian: Endian) returns (r: seq<byte>)
    ensures r == InOrder(s, endian)
  {
    var a := new byte[|s|](i requires 0 <= i < |s| => s[i]);
    assert a[..|s|] == s;
    CorrectBytes(a, |s|, endian);
    r := a[..|s|];
  }

  /** The switch of b_pack on one item: what it appends, the next argument, and the size it is accounted for. */
  method PutItem(f: Field, args: seq<Value>, arg: nat) returns (r: Result<seq<byte>, Error>, next: nat, size: nat)
    requires arg <= |args|
    ensures arg <= next <= |args| && (r.Ok? ==> size == |r.value|)
    ensures PackItem(f, args[arg..]) ==
            match r case Ok(b) => Ok(Packed(b, args[next..])) case Err(e) => Err(e)
  {
    next, size := arg, f.size;
    if f.kind.Filler? {
      return Ok([0]), arg, size;
    }
    if arg == |args| {
      return Err(BadArgument), arg, size;
    }
    next := arg + 1;
    match (f.kind, args[arg]) {
      case (Integer(_), Int(n)) =>
        var b := PutInteger(n, f.endian, f.size);
        r := Ok(b);
      case (FloatBits, Float(s)) =>
        var b := Ordered(s, f.endian);
        r := Ok(b);
      case (DoubleBits, Double(s)) =>
        var b := Ordered(s, f.endian);
        r := Ok(b);
      case (Chars, Str(s)) =>
        if size == 0 { size := |s|; }
        r := if |s| >= size then Ok(s[..size]) else Err(StringTooShort);
      case (ZeroTerminated, Str(s)) =>
        size := |s| + 1;
        r := Ok(s + [0]);
      case _ => r := Err(BadArgument);
    }
  }

  /** One turn of the loop on an item: what was appended and what is left make up the whole. */
  lemma PackAfterItem(whole: Result<seq<byte>, Error>, b: seq<byte>, f: Field, ds: seq<Directive>,
                      args: seq<Value>, pos: nat, item: seq<byte>, rest: seq<Value>)
    requires whole == Prepend(b, PackAll([Item(f)] + ds, args, pos))
    requires PackItem(f, args) == Ok(Packed(item, rest))
    ensures whole == Prepend(b + Repeat(0, f.PaddingAt(pos)) + item,
                             PackAll(ds, rest, pos + f.PaddingAt(pos) + |item|))
  {
    assert ([Item(f)] + ds)[1..] == ds;
    var zeros, r := Repeat(0, f.PaddingAt(pos)), PackAll(ds, rest, pos + f.PaddingAt(pos) + |item|);
    if r.Ok? { assert b + ((zeros + item) + r.value) == (b + zeros + item) + r.value; }
  }

  lemma PrependNothing(r: Result<seq<byte>, Error>)
    ensures Prepend([], r) == r
  {
    if r.Ok? { assert [] + r.value == r.value; }
  }

  lemma PackAfterOther(d: Directive, ds: seq<Directive>, args: seq<Value>, pos: nat)
    requires !d.Item?
    ensures PackAll([d] + ds, args, pos) ==
            match d case Stop(e) => Err(e) case Refuse(e, _) => Err(e) case _ => PackAll(ds, args, pos)
  {
    assert ([d] + ds)[1..] == ds;
  }

  /** The body of b_pack's loop after the option is read: the buffer, the next argument and the size so far. */
  method PackOption(d: Directive, args: seq<Value>, arg: nat, b: seq<byte>, totalsize: nat,
                    ghost whole: Result<seq<byte>, Error>, ghost ds: seq<Directive>)
    returns (r: Result<seq<byte>, Error>, next: nat, total: nat)
    requires arg <= |args| && totalsize == |b|
    requires whole == Prepend(b, PackAll([d] + ds, args[arg..], totalsize))
    ensures arg <= next <= |args|
    ensures match r
            case Ok(b') => total == |b'| && whole == Prepend(b', PackAll(ds, args[next..], total))
            case Err(e) => whole == Err(e)
    ensures r.Ok? ==> !d.Stop?
  {
    next, total := arg, totalsize;
    if d.Item? {
      var toalign := d.f.PaddingAt(totalsize);
      var item, size;
      item, next, size := PutItem(d.f, args, arg);
      if item.Err? {
        PackItemFails(d.f, ds, args[arg..], totalsize, item.error);
        return item, next, total;
      }
      PackAfterItem(whole, b, d.f, ds, args[arg..], totalsize, item.value, args[next..]);
      total := total + toalign;
      var padded := AddZeros(b, toalign);
      r := Ok(padded + item.value);
      total := total + size;
    } else {
      PackAfterOther(d, ds, args[arg..], totalsize);
      r := if d.Switch? then Ok(b) else Err(d.e);
    }
  }

  /** b_pack. The size counted along the way is at all times the length of the buffer. */
  method Pack(fmt: string, args: seq<Value>) returns (r: Result<seq<byte>, Error>)
    ensures r == PackSpec(fmt, args)
  {
    var h, b, i, arg, totalsize := DEFAULT_HEADER, [], 0, 0, 0;
    ghost var whole := PackSpec(fmt, args);
    assert whole == Prepend([], PackAll(Parse(fmt[0..], h), args[0..], 0)) by {
      assert fmt[0..] == fmt && args[0..] == args;
      PrependNothing(whole);
    }
    while i < |fmt| && fmt[i] != '\0'
      invariant 0 <= i <= |fmt| && 0 <= arg <= |args|
      invariant totalsize == |b|
      invariant whole == Prepend(b, PackAll(Parse(fmt[i..], h), args[arg..], totalsize))
      decreases |fmt| - i
    {
      var d, j, h' := ReadOption(fmt, i, h);
      var step;
      step, arg, totalsize :=
        PackOption(d, args, arg, b, totalsize, whole, if d.Stop? then [] else Parse(fmt[j..], h'));
      if step.Err? {
        return step;
      }
      b := step.value;
      i, h := j, h';
    }
    assert PackAll(Parse(fmt[i..], h), args[arg..], totalsize) == Ok([]);
    assert b + [] == b;
    r := Ok(b);
  }

  lemma PackItemFails(f: Field, ds: seq<Directive>, args: seq<Value>, pos: nat, e: Error)
    requires PackItem(f, args) == Err(e)
    ensures PackAll([Item(f)] + ds, args, pos) == Err(e)
  {
  }

  // ---------------------------------------------------------------------
  // unpack
  // ---------------------------------------------------------------------

  /** memchr(data + p, 0, ..). */
  method MemChr(data: seq<byte>, p: nat) returns (r: Option<nat>)
    requires p <= |data|
    ensures r == FindZero(data, p)
  {
    var e := p;
    while e < |data|
      invariant p <= e <= |data|
      invariant FindZero(data, p) == FindZero(data, e)
    {
      if data[e] == 0 {
        return Some(e);
      }
      e := e + 1;
    }
    r := None;
  }

  /** The switch of b_unpack on one item: the stack of results and the octets taken. */
  method TakeItem(f: Field, data: seq<byte>, p: nat, out: seq<Value>) returns (r: Result<Taken, Error>)
    requires p + f.size <= |data|
    ensures r == UnpackItem(f, data, p, out)
  {
    match f.kind {
      case Integer(signed) =>
        var n := GetInteger(data[p..p + f.size], f.endian, signed, f.size);
        r := if n.None? then Err(UndefinedInC) else Ok(Taken(out + [Int(n.value)], f.size));
      case Filler => r := Ok(Taken(out, f.size));
      case FloatBits =>
        var b := Ordered(data[p..p + f.size], f.endian);
        r := Ok(Taken(out + [Float(b)], f.size));
      case DoubleBits =>
        var b := Ordered(data[p..p + f.size], f.endian);
        r := Ok(Taken(out + [Double(b)], f.size));
      case ZeroTerminated =>
        var e := MemChr(data, p);
        r := if e.None? then Err(UnfinishedString) else Ok(Taken(out + [Str(data[p..e.value])], e.value - p + 1));
      case Chars =>
        r := if f.size > 0 then Ok(Taken(out + [Str(data[p..p + f.size])], f.size)) else TakeCounted(data, p, out);
    }
  }

  lemma UnpackUnfold(d: Directive, ds: seq<Directive>, data: seq<byte>, pos: int, out: seq<Value>)
    ensures UnpackAll([d] + ds, data, pos, out) ==
            match d
            case Stop(e) => Err(e)
            case Refuse(e, _) => if Outside(pos, data) then Err(DataTooShort) else Err(e)
            case Switch => if Outside(pos, data) then Err(DataTooShort) else UnpackAll(ds, data, pos, out)
            case Item(f) =>
              var p := pos + f.PaddingAt(Word(pos));
              if Outside(p + f.size, data) then Err(DataTooShort)
              else if p < 0 then
                if f.kind.Filler? then UnpackAll(ds, data, p + f.size, out) else Err(UndefinedInC)
              else
                var t := UnpackItem(f, data, p, out);
                if t.Err? then Err(t.error) else UnpackAll(ds, data, p + t.value.size, t.value.out)
  {
    assert ([d] + ds)[1..] == ds;
  }

  /** The body of b_unpack's loop after the option is read: the results and the position. */
  method UnpackOption(d: Directive, data: seq<byte>, pos: int, out: seq<Value>, ghost ds: seq<Directive>)
    returns (r: Result<Unpacked, Error>)
    ensures UnpackAll([d] + ds, data, pos, out) ==
            if r.Ok? then UnpackAll(ds, data, r.value.pos, r.value.out) else Err(r.error)
    ensures r.Ok? ==> !d.Stop?
  {
    UnpackUnfold(d, ds, data, pos, out);
    if d.Stop? {
      return Err(d.e);
    }
    var size := if d.Item? then d.f.size else 0;
    var at := if d.Item? then pos + d.f.PaddingAt(Word(pos)) else pos;
    if Outside(at + size, data) {
      return Err(DataTooShort);
    }
    match d {
      case Item(f) =>
        if at < 0 {
          r := if f.kind.Filler? then Ok(Unpacked(out, at + size)) else Err(UndefinedInC);
        } else {
          var taken := TakeItem(f, data, at, out);
          r := if taken.Ok? then Ok(Unpacked(taken.value.out, at + taken.value.size)) else Err(taken.error);
        }
      case Refuse(e, _) => r := Err(e);
      case Switch => r := Ok(Unpacked(out, at));
    }
  }

  /** b_unpack; init is the optional third argument, 1 when it is absent. The position returned counts from 1 too. */
  method Unpack(fmt: string, data: seq<byte>, init: LuaInt) returns (r: Result<Unpacked, Error>)
    ensures r == UnpackSpec(fmt, data, init)
  {
    var h, i, out := DEFAULT_HEADER, 0, [];
    var pos: int := init - 1;
    assert fmt[0..] == fmt;
    while i < |fmt| && fmt[i] != '\0'
      invariant 0 <= i <= |fmt|
      invariant UnpackAll(Parse(fmt, DEFAULT_HEADER), data, init - 1, []) ==
                UnpackAll(Parse(fmt[i..], h), data, pos, out)
      decreases |fmt| - i
    {
      var d, j, h' := ReadOption(fmt, i, h);
      var step := UnpackOption(d, data, pos, out, if d.Stop? then [] else Parse(fmt[j..], h'));
      if step.Err? {
        return step;
      }
      out, pos := step.value.out, step.value.pos;
      i, h := j, h';
    }
    r := Ok(Unpacked(out, pos + 1));
  }

  // ---------------------------------------------------------------------
  // size
  // ---------------------------------------------------------------------

  lemma SizeUnfold(d: Directive, ds: seq<Directive>, pos: nat)
    ensures SizeAll([d] + ds, pos) ==
            match d
            case Stop(e) => Err(e)
            case Refuse(e, alnum) => if alnum then SizeAll(ds, pos) else Err(e)
            case Switch => SizeAll(ds, pos)
            case Item(f) =>
              if f.Variable() then Err(NoFixedSize) else SizeAll(ds, pos + f.PaddingAt(pos) + f.size)
  {
    assert ([d] + ds)[1..] == ds;
  }

  /** The body of b_size's loop after the option is read: the position. */
  method SizeOption(d: Directive, pos: nat, ghost ds: seq<Directive>) returns (r: Result<nat, Error>)
    ensures SizeAll([d] + ds, pos) == if r.Ok? then SizeAll(ds, r.value) else Err(r.error)
    ensures r.Ok? ==> !d.Stop?
  {
    SizeUnfold(d, ds, pos);
    match d {
      case Stop(e) => r := Err(e);
      case Refuse(e, alnum) => r := if alnum then Ok(pos) else Err(e);
      case Switch => r := Ok(pos);
      case Item(f) => r := if f.Variable() then Err(NoFixedSize) else Ok(pos + f.PaddingAt(pos) + f.size);
    }
  }

  /** b_size. */
  method Size(fmt: string) returns (r: Result<nat, Error>)
    ensures r == SizeSpec(fmt)
  {
    var h, i := DEFAULT_HEADER, 0;
    var pos: nat := 0;
    assert fmt[0..] == fmt;
    while i < |fmt| && fmt[i] != '\0'
      invariant 0 <= i <= |fmt|
      invariant SizeSpec(fmt) == SizeAll(Parse(fmt[i..], h), pos)
      decreases |fmt| - i
    {
      var d, j, h' := ReadOption(fmt, i, h);
      var step := SizeOption(d, pos, if d.Stop? then [] else Parse(fmt[j..], h'));
      if step.Err? {
        return step;
      }
      pos := step.value;
      i, h := j, h';
    }
    r := Ok(pos);
  }
}
