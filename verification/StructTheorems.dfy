/** What pack, unpack and size promise each other, over all formats. */
module StructTheorems {
  import opened Bits
  import opened Common
  import opened StructIntegers
  import opened StructFormat

  // ---------------------------------------------------------------------
  // Round trip
  // ---------------------------------------------------------------------

  datatype Kept = Kept(out: seq<Value>, args: seq<Value>)

  /**
    The results after unpacking one item that was packed from the head of
    args, or None when the argument is not one the field can carry: an integer
    that fits its width, an `s` string without a zero octet, a `c0` string
    right after its length, a `cn` string of at least n octets.
    */
  function KeepItem(f: Field, args: seq<Value>, out: seq<Value>): Option<Kept> {
    if f.kind.Filler? then Some(Kept(out, args))
    else if args == [] then None
    else
      match (f.kind, args[0])
      case (Integer(signed), Int(n)) =>
        if Fits(n, signed, f.size) && Exact(n) then Some(Kept(out + [args[0]], args[1..])) else None
      case (FloatBits, Float(_)) => Some(Kept(out + [args[0]], args[1..]))
      case (DoubleBits, Double(_)) => Some(Kept(out + [args[0]], args[1..]))
      case (ZeroTerminated, Str(s)) => if 0 in s then None else Some(Kept(out + [args[0]], args[1..]))
      case (Chars, Str(s)) =>
        if f.size == 0 then
          if CountedBy(out, |s|) then Some(Kept(out[..|out| - 1] + [args[0]], args[1..])) else None
        else if |s| < f.size then None
        else Some(Kept(out + [Str(s[..f.size])], args[1..]))
      case _ => None
  }

  /** The last result is the number n. */
  predicate CountedBy(out: seq<Value>, n: nat) {
    out != [] && out[|out| - 1].Int? && out[|out| - 1].n == n
  }

  /** The results unpack should give for what pack made of args, when args are in range. */
  function KeepAll(ds: seq<Directive>, args: seq<Value>, out: seq<Value>): Option<seq<Value>> {
    if ds == [] then Some(out) else
    match ds[0]
    case Stop(_) => None
    case Refuse(_, _) => None
    case Switch => KeepAll(ds[1..], args, out)
    case Item(f) =>
      match KeepItem(f, args, out)
      case None => None
      case Some(Kept(out', args')) => KeepAll(ds[1..], args', out')
  }

  /** data holds b at position p. */
  predicate Holds(data: seq<byte>, p: nat, b: seq<byte>) {
    p + |b| <= |data| && data[p..p + |b|] == b
  }

  lemma HoldsParts(data: seq<byte>, p: nat, a: seq<byte>, b: seq<byte>)
    requires Holds(data, p, a + b)
    ensures Holds(data, p, a) && Holds(data, p + |a|, b)
  {
    var both := data[p..p + |a + b|];
    assert both[..|a|] == a && both[|a|..] == b;
    assert data[p..p + |a|] == both[..|a|];
    assert data[p + |a|..p + |a| + |b|] == both[|a|..];
  }

  lemma ZeroFound(data: seq<byte>, p: nat, s: seq<byte>)
    requires Holds(data, p, s + [0]) && 0 !in s
    ensures FindZero(data, p) == Some(p + |s|)
  {
    HoldsParts(data, p, s, [0]);
    assert data[p + |s|] == data[p + |s|..p + |s| + 1][0] == 0;
    forall i | p <= i < p + |s| ensures data[i] != 0 {
      assert data[i] == data[p..p + |s|][i - p] == s[i - p];
    }
  }

  lemma IntegerKept(n: LuaInt, f: Field, data: seq<byte>, p: nat, out: seq<Value>)
    requires f.kind.Integer? && Fits(n, f.kind.signed, f.size) && Exact(n)
    requires Holds(data, p, EncodeInt(ToNumber(n) % TWO_64, f.endian, f.size))
    ensures UnpackItem(f, data, p, out) == Ok(Taken(out + [Int(n)], f.size))
  {
    StoredIntegerSurvives(n, f.endian, f.kind.signed, f.size);
    assert ToNumber(n) == n;
  }

  /** One item: pack accepts it and uses up the same arguments. */
  lemma ItemAccepted(f: Field, args: seq<Value>, out: seq<Value>)
    requires KeepItem(f, args, out).Some?
    ensures PackItem(f, args).Ok? && PackItem(f, args).value.args == KeepItem(f, args, out).value.args
  {
  }

  /** One item: unpack gives it back wherever it lies. */
  lemma ItemRoundTrip(f: Field, args: seq<Value>, out: seq<Value>, data: seq<byte>, p: nat)
    requires KeepItem(f, args, out).Some? && PackItem(f, args).Ok?
    requires Holds(data, p, PackItem(f, args).value.bytes)
    ensures UnpackItem(f, data, p, out) == Ok(Taken(KeepItem(f, args, out).value.out, |PackItem(f, args).value.bytes|))
  {
    if !f.kind.Filler? {
      match args[0]
      case Int(n) => IntegerKept(n, f, data, p, out);
      case Float(b) => ReversedTwice(b);
      case Double(b) => ReversedTwice(b);
      case Str(s) =>
        if f.kind.ZeroTerminated? {
          ZeroFound(data, p, s);
          HoldsParts(data, p, s, [0]);
          assert data[p..p + |s|] == s;
        } else {
          assert f.size == 0 ==> s[..|s|] == s;
        }
    }
  }

  lemma {:induction false} PackAccepts(ds: seq<Directive>, args: seq<Value>, pos: nat, out: seq<Value>)
    requires KeepAll(ds, args, out).Some?
    ensures PackAll(ds, args, pos).Ok?
  {
    if ds != [] {
      if ds[0].Item? {
        ItemAccepted(ds[0].f, args, out);
        var k, item := KeepItem(ds[0].f, args, out).value, PackItem(ds[0].f, args).value.bytes;
        PackAccepts(ds[1..], k.args, pos + ds[0].f.PaddingAt(pos) + |item|, k.out);
      } else {
        PackAccepts(ds[1..], args, pos, out);
      }
    }
  }

  /** Where the first item of a packed string lies, and where the rest does. */
  lemma ItemLies(ds: seq<Directive>, args: seq<Value>, pos: nat, data: seq<byte>)
    requires ds != [] && ds[0].Item? && PackItem(ds[0].f, args).Ok?
    requires PackAll(ds, args, pos).Ok? && Holds(data, pos, PackAll(ds, args, pos).value)
    ensures var p := pos + ds[0].f.PaddingAt(pos);
            var Packed(item, rest) := PackItem(ds[0].f, args).value;
            var tail := PackAll(ds[1..], rest, p + |item|);
            Holds(data, p, item) && tail.Ok? && Holds(data, p + |item|, tail.value) &&
            p + |item| + |tail.value| == pos + |PackAll(ds, args, pos).value|
  {
    var pad := ds[0].f.PaddingAt(pos);
    var Packed(item, rest) := PackItem(ds[0].f, args).value;
    PackStep(ds, args, pos);
    HoldsThreeParts(data, pos, Repeat(0, pad), item, PackAll(ds[1..], rest, pos + pad + |item|).value);
  }

  /** One item of a packed string is unpacked, and the rest of the string lies where the next begins. */
  lemma ReadsBackItem(ds: seq<Directive>, args: seq<Value>, pos: nat, out: seq<Value>, data: seq<byte>)
    returns (k: Kept, next: nat)
    requires ds != [] && ds[0].Item? && KeepItem(ds[0].f, args, out).Some?
    requires PackAll(ds, args, pos).Ok? && Holds(data, pos, PackAll(ds, args, pos).value)
    ensures k == KeepItem(ds[0].f, args, out).value
    ensures PackAll(ds[1..], k.args, next).Ok? && Holds(data, next, PackAll(ds[1..], k.args, next).value)
    ensures next + |PackAll(ds[1..], k.args, next).value| == pos + |PackAll(ds, args, pos).value|
    ensures UnpackAll(ds, data, pos, out) == UnpackAll(ds[1..], data, next, k.out)
  {
    var f := ds[0].f;
    ItemAccepted(f, args, out);
    k := KeepItem(f, args, out).value;
    ItemLies(ds, args, pos, data);
    var size := |PackItem(f, args).value.bytes|;
    ItemRoundTrip(f, args, out, data, pos + f.PaddingAt(pos));
    UnpackStep(ds, data, pos, out, k.out, size);
    next := pos + f.PaddingAt(pos) + size;
  }

  lemma {:induction false} ReadsBack(ds: seq<Directive>, args: seq<Value>, pos: nat, out: seq<Value>, data: seq<byte>)
    requires KeepAll(ds, args, out).Some?
    requires PackAll(ds, args, pos).Ok? && Holds(data, pos, PackAll(ds, args, pos).value)
    ensures UnpackAll(ds, data, pos, out) ==
            Ok(Unpacked(KeepAll(ds, args, out).value, pos + |PackAll(ds, args, pos).value|))
  {
    if ds != [] {
      if ds[0].Item? {
        var k, next := ReadsBackItem(ds, args, pos, out, data);
        ReadsBack(ds[1..], k.args, next, k.out, data);
      } else {
        ReadsBack(ds[1..], args, pos, out, data);
      }
    }
  }

  /**
    Main theorem. For every format and every argument list in range for it,
    pack succeeds, and unpacking its output at the position it was packed for
    gives the arguments back, with any octets before and after it.
    */
  lemma RoundTrip(ds: seq<Directive>, args: seq<Value>, pos: nat, out: seq<Value>, data: seq<byte>)
    requires KeepAll(ds, args, out).Some?
    ensures PackAll(ds, args, pos).Ok?
    ensures var bytes := PackAll(ds, args, pos).value;
            Holds(data, pos, bytes) ==>
              UnpackAll(ds, data, pos, out) == Ok(Unpacked(KeepAll(ds, args, out).value, pos + |bytes|))
  {
    PackAccepts(ds, args, pos, out);
    if Holds(data, pos, PackAll(ds, args, pos).value) { ReadsBack(ds, args, pos, out, data); }
  }

  lemma HoldsThreeParts(data: seq<byte>, p: nat, a: seq<byte>, b: seq<byte>, c: seq<byte>)
    requires Holds(data, p, a + b + c)
    ensures Holds(data, p + |a|, b) && Holds(data, p + |a| + |b|, c)
  {
    HoldsParts(data, p, a + b, c);
    HoldsParts(data, p, a, b);
  }

  lemma PackStep(ds: seq<Directive>, args: seq<Value>, pos: nat)
    requires ds != [] && ds[0].Item? && PackItem(ds[0].f, args).Ok?
    ensures var f := ds[0].f;
            var Packed(item, rest) := PackItem(f, args).value;
            PackAll(ds, args, pos) ==
            Prepend(Repeat(0, f.PaddingAt(pos)) + item, PackAll(ds[1..], rest, pos + f.PaddingAt(pos) + |item|))
  {
  }

  lemma UnpackStep(ds: seq<Directive>, data: seq<byte>, pos: nat, out: seq<Value>, out': seq<Value>, size: nat)
    requires ds != [] && ds[0].Item?
    requires pos + ds[0].f.PaddingAt(pos) + ds[0].f.size <= |data|
    requires UnpackItem(ds[0].f, data, pos + ds[0].f.PaddingAt(pos), out) == Ok(Taken(out', size))
    ensures UnpackAll(ds, data, pos, out) == UnpackAll(ds[1..], data, pos + ds[0].f.PaddingAt(pos) + size, out')
  {
  }

  lemma RoundTripFromStart(ds: seq<Directive>, args: seq<Value>, tail: seq<byte>)
    requires KeepAll(ds, args, []).Some?
    ensures PackAll(ds, args, 0).Ok?
    ensures UnpackAll(ds, PackAll(ds, args, 0).value + tail, 0, []) ==
            Ok(Unpacked(KeepAll(ds, args, []).value, |PackAll(ds, args, 0).value|))
  {
    RoundTrip(ds, args, 0, [], []);
    var bytes := PackAll(ds, args, 0).value;
    assert Holds(bytes + tail, 0, bytes);
    RoundTrip(ds, args, 0, [], bytes + tail);
  }

  /** unpack(fmt, pack(fmt, args) .. tail) is args, whatever the tail. */
  lemma PackThenUnpack(fmt: string, args: seq<Value>, tail: seq<byte>)
    requires KeepAll(Parse(fmt, DEFAULT_HEADER), args, []).Some?
    ensures PackSpec(fmt, args).Ok?
    ensures UnpackSpec(fmt, PackSpec(fmt, args).value + tail, 1) ==
            Ok(Unpacked(KeepAll(Parse(fmt, DEFAULT_HEADER), args, []).value, |PackSpec(fmt, args).value| + 1))
  {
    RoundTripFromStart(Parse(fmt, DEFAULT_HEADER), args, tail);
  }

  // ---------------------------------------------------------------------
  // Unpack stays inside the data
  // ---------------------------------------------------------------------

  /** FindZero looks at data[p..] only up to the first zero. */
  lemma {:induction false} FindZeroStable(data: seq<byte>, p: nat, more: seq<byte>)
    requires p <= |data| && FindZero(data, p).Some?
    ensures FindZero(data + more, p) == FindZero(data, p)
    decreases |data| - p
  {
    if data[p] != 0 { FindZeroStable(data, p + 1, more); }
  }

  lemma SliceOfAppend(data: seq<byte>, more: seq<byte>, a: nat, b: nat)
    requires a <= b <= |data|
    ensures (data + more)[a..b] == data[a..b]
  {
  }

  lemma UnpackItemStable(f: Field, data: seq<byte>, p: nat, out: seq<Value>, more: seq<byte>)
    requires p + f.size <= |data| && UnpackItem(f, data, p, out).Ok?
    ensures UnpackItem(f, data + more, p, out) == UnpackItem(f, data, p, out)
  {
    SliceOfAppend(data, more, p, p + f.size);
    if f.kind.ZeroTerminated? {
      FindZeroStable(data, p, more);
      SliceOfAppend(data, more, p, FindZero(data, p).value);
    } else if f.Variable() {
      SliceOfAppend(data, more, p, p + UnpackItem(f, data, p, out).value.size);
    }
  }

  /** What unpack does next on an item, when that succeeds: where it stands then and with which results. */
  lemma UnpackTakes(ds: seq<Directive>, data: seq<byte>, pos: int, out: seq<Value>) returns (p: int, out': seq<Value>)
    requires ds != [] && ds[0].Item? && UnpackAll(ds, data, pos, out).Ok?
    ensures pos <= p <= |data|
    ensures UnpackAll(ds, data, pos, out) == UnpackAll(ds[1..], data, p, out')
    ensures forall more :: UnpackAll(ds, data + more, pos, out) == UnpackAll(ds[1..], data + more, p, out')
  {
    var f := ds[0].f;
    var at := pos + f.PaddingAt(Word(pos));
    if at < 0 {
      p, out' := at + f.size, out;
    } else {
      var Taken(o, size) := UnpackItem(f, data, at, out).value;
      forall more ensures UnpackItem(f, data + more, at, out) == Ok(Taken(o, size)) {
        UnpackItemStable(f, data, at, out, more);
      }
      p, out' := at + size, o;
    }
  }

  /**
    Any data, any start: when unpack succeeds, the position it reaches is
    inside the data (unless the format is empty), and octets after the data do
    not matter.
    */
  lemma {:induction false} UnpackInside(ds: seq<Directive>, data: seq<byte>, pos: int, out: seq<Value>, more: seq<byte>)
    requires UnpackAll(ds, data, pos, out).Ok?
    ensures UnpackAll(ds, data + more, pos, out) == UnpackAll(ds, data, pos, out)
    ensures UnpackAll(ds, data, pos, out).value.pos >= pos
    ensures ds != [] ==> 0 <= UnpackAll(ds, data, pos, out).value.pos <= |data|
    decreases |ds|
  {
    if ds != [] {
      if ds[0].Item? {
        var p, out' := UnpackTakes(ds, data, pos, out);
        UnpackInside(ds[1..], data, p, out', more);
      } else {
        UnpackInside(ds[1..], data, pos, out, more);
      }
    }
  }

  // ---------------------------------------------------------------------
  // size agrees with pack
  // ---------------------------------------------------------------------

  /** Some field has no fixed size. */
  predicate HasVariable(ds: seq<Directive>) {
    exists i :: 0 <= i < |ds| && ds[i].Item? && ds[i].f.Variable()
  }

  /** No directive makes pack fail whatever the arguments. */
  predicate Clean(ds: seq<Directive>) {
    forall i :: 0 <= i < |ds| ==> ds[i].Item? || ds[i].Switch?
  }

  lemma {:induction false} PackedIsClean(ds: seq<Directive>, args: seq<Value>, pos: nat)
    requires PackAll(ds, args, pos).Ok?
    ensures Clean(ds)
  {
    if ds != [] {
      if ds[0].Item? {
        var Packed(item, args') := PackItem(ds[0].f, args).value;
        PackedIsClean(ds[1..], args', pos + ds[0].f.PaddingAt(pos) + |item|);
      } else {
        PackedIsClean(ds[1..], args, pos);
      }
      assert forall i :: 1 <= i < |ds| ==> ds[i] == ds[1..][i - 1];
    }
  }

  lemma {:induction false} SizeRefusesVariable(ds: seq<Directive>, pos: nat)
    requires Clean(ds)
    ensures HasVariable(ds) <==> SizeAll(ds, pos) == Err(NoFixedSize)
    ensures !HasVariable(ds) ==> SizeAll(ds, pos).Ok?
  {
    if ds != [] {
      var rest := ds[1..];
      assert forall i :: 1 <= i < |ds| ==> ds[i] == rest[i - 1];
      assert forall i :: 0 <= i < |rest| ==> rest[i] == ds[i + 1];
      SizeRefusesVariable(rest, if ds[0].Item? then pos + ds[0].f.PaddingAt(pos) + ds[0].f.size else pos);
    }
  }

  /**
    Whenever pack succeeds, size either gives exactly the length packed, or
    refuses with "no fixed size", which it does exactly when the format has an
    `s` or a `c0`.
    */
  lemma {:induction false} SizeIsPackedLength(ds: seq<Directive>, args: seq<Value>, pos: nat)
    requires PackAll(ds, args, pos).Ok?
    ensures SizeAll(ds, pos) ==
            if HasVariable(ds) then Err(NoFixedSize) else Ok(pos + |PackAll(ds, args, pos).value|)
  {
    PackedIsClean(ds, args, pos);
    SizeRefusesVariable(ds, pos);
    if ds != [] && !HasVariable(ds) {
      assert forall i :: 0 <= i < |ds| - 1 ==> ds[1..][i] == ds[i + 1];
      if ds[0].Item? {
        var Packed(item, args') := PackItem(ds[0].f, args).value;
        SizeIsPackedLength(ds[1..], args', pos + ds[0].f.PaddingAt(pos) + |item|);
      } else {
        SizeIsPackedLength(ds[1..], args, pos);
      }
    }
  }

  // ---------------------------------------------------------------------
  // Which formats size, pack and unpack accept at all
  // ---------------------------------------------------------------------

  /** An item of fixed size, a switch, or a letter or digit that is no option. */
  predicate Sizeable(d: Directive) {
    match d
    case Item(f) => !f.Variable()
    case Switch => true
    case Refuse(_, alnum) => alnum
    case Stop(_) => false
  }

  /** size accepts exactly the lists of such directives. */
  lemma {:induction false} SizeAcceptsExactly(ds: seq<Directive>, pos: nat)
    ensures SizeAll(ds, pos).Ok? <==> forall i :: 0 <= i < |ds| ==> Sizeable(ds[i])
  {
    if ds != [] {
      var rest := ds[1..];
      assert forall i :: 1 <= i < |ds| ==> ds[i] == rest[i - 1];
      assert forall i :: 0 <= i < |rest| ==> rest[i] == ds[i + 1];
      SizeAcceptsExactly(rest, if ds[0].Item? then pos + ds[0].f.PaddingAt(pos) + ds[0].f.size else pos);
    }
  }

  /** An argument for a field. */
  function Sample(f: Field): seq<Value> {
    match f.kind
    case Integer(_) => [Int(0)]
    case Filler => []
    case FloatBits => [Float([0, 0, 0, 0])]
    case DoubleBits => [Double([0, 0, 0, 0, 0, 0, 0, 0])]
    case Chars => [Str(Repeat(0, f.size))]
    case ZeroTerminated => [Str([])]
  }

  function Samples(ds: seq<Directive>): seq<Value> {
    if ds == [] then [] else (if ds[0].Item? then Sample(ds[0].f) else []) + Samples(ds[1..])
  }

  lemma SampleFits(f: Field, rest: seq<Value>)
    ensures PackItem(f, Sample(f) + rest).Ok? && PackItem(f, Sample(f) + rest).value.args == rest
  {
    var args := Sample(f) + rest;
    if f.kind.Filler? { assert args == rest; } else { assert args[1..] == rest; }
  }

  lemma {:induction false} SamplesPack(ds: seq<Directive>, pos: nat)
    requires Clean(ds)
    ensures PackAll(ds, Samples(ds), pos).Ok?
  {
    if ds != [] {
      assert forall i :: 0 <= i < |ds| - 1 ==> ds[1..][i] == ds[i + 1];
      if ds[0].Item? {
        SampleFits(ds[0].f, Samples(ds[1..]));
        var Packed(item, rest) := PackItem(ds[0].f, Samples(ds)).value;
        SamplesPack(ds[1..], pos + ds[0].f.PaddingAt(pos) + |item|);
      } else {
        assert [] + Samples(ds[1..]) == Samples(ds[1..]);
        SamplesPack(ds[1..], pos);
      }
    }
  }

  ghost predicate Packable(ds: seq<Directive>) { exists args :: PackAll(ds, args, 0).Ok? }

  /** pack accepts a format, with some arguments, exactly when no directive of it is refused. */
  lemma PackAcceptsExactly(ds: seq<Directive>)
    ensures Packable(ds) <==> Clean(ds)
  {
    if Clean(ds) { SamplesPack(ds, 0); }
    forall args | PackAll(ds, args, 0).Ok? ensures Clean(ds) { PackedIsClean(ds, args, 0); }
  }

  lemma {:induction false} UnpackedIsClean(ds: seq<Directive>, data: seq<byte>, pos: int, out: seq<Value>)
    requires UnpackAll(ds, data, pos, out).Ok?
    ensures Clean(ds)
    decreases |ds|
  {
    if ds != [] {
      if ds[0].Item? {
        var p, out' := UnpackTakes(ds, data, pos, out);
        UnpackedIsClean(ds[1..], data, p, out');
      } else {
        UnpackedIsClean(ds[1..], data, pos, out);
      }
      assert forall i :: 1 <= i < |ds| ==> ds[i] == ds[1..][i - 1];
    }
  }

  /** A character stands in the place of an option and is none, but size passes over it. */
  predicate OverlooksLetter(ds: seq<Directive>) { exists i :: 0 <= i < |ds| && ds[i].Refuse? && ds[i].alnum }

  /**
    Whatever size accepts, pack accepts too, with some arguments, if and only if
    size has not overlooked a letter; if it has, unpack fails on any data, from any start.
    */
  lemma SizeOverlooksExactly(fmt: string, data: seq<byte>, init: LuaInt)
    requires SizeSpec(fmt).Ok?
    ensures var ds := Parse(fmt, DEFAULT_HEADER);
            (Packable(ds) <==> !OverlooksLetter(ds)) &&
            (OverlooksLetter(ds) ==> UnpackSpec(fmt, data, init).Err?)
  {
    var ds := Parse(fmt, DEFAULT_HEADER);
    SizeAcceptsExactly(ds, 0);
    PackAcceptsExactly(ds);
    assert Clean(ds) <==> !OverlooksLetter(ds) by {
      assert forall i :: 0 <= i < |ds| ==> Sizeable(ds[i]);
    }
    if UnpackSpec(fmt, data, init).Ok? { UnpackedIsClean(ds, data, init - 1, []); }
  }

  /** What is overlooked are exactly the letters and digits that are no option; never a bad alignment. */
  lemma {:induction false} OverlookedIsLetter(fmt: string, h: Header)
    ensures forall d :: d in Parse(fmt, h) && d.Refuse? ==>
              (d.alnum <==> d.e.InvalidOption? && IsAlnum(d.e.opt)) &&
              (d.e.InvalidOption? ==> KindOf(d.e.opt) == None)
    decreases |fmt|
  {
    if fmt != [] && fmt[0] != '\0' && OptionSize(fmt[0], fmt[1..]).Ok? {
      var rest := OptionSize(fmt[0], fmt[1..]).value.rest;
      if KindOf(fmt[0]).Some? || Control(fmt[0], rest, h).Err? {
        OverlookedIsLetter(rest, h);
      } else {
        var c := Control(fmt[0], rest, h).value;
        OverlookedIsLetter(c.rest, c.h);
      }
    }
  }

  // ---------------------------------------------------------------------
  // Padding
  // ---------------------------------------------------------------------

  lemma ModShift(x: int, p: int)
    requires p > 0
    ensures (p - x % p) % p == (0 - x) % p && (x + (0 - x) % p) % p == 0
  {
    var q, r := x / p, x % p;
    if r == 0 {
      assert 0 - x == p * -q + 0 by { assert p * -q == -(p * q); }
      ModUnique(-x, p, -q, 0);
      ModUnique(p, p, 1, 0);
    } else {
      assert 0 - x == p * (-q - 1) + (p - r) by { assert p * (-q - 1) == -(p * q) - p; }
      ModUnique(-x, p, -q - 1, p - r);
      ModUnique(p - r, p, 0, p - r);
      assert x + (p - r) == p * (q + 1) by { assert p * (q + 1) == p * q + p; }
      ModUnique(x + (p - r), p, q + 1, 0);
    }
  }

  /**
    When both the size and the alignment in force are powers of two, the
    padding is the least that makes the position a multiple of the smaller.
    */
  lemma PaddingIsLeast(len: nat, j: nat, k: nat, n: nat)
    ensures var unit := Pow2(Min(j, k));
            var pad := Padding(len, Pow2(j), false, Pow2(k));
            pad < unit && (len + pad) % unit == 0 &&
            ((len + n) % unit == 0 ==> pad <= n)
  {
    PaddingUnit(len, j, k);
    PadToUnit(len, Min(j, k));
    LeastPad(len, n, Pow2(Min(j, k)), Padding(len, Pow2(j), false, Pow2(k)));
  }

  lemma LeastPad(len: nat, n: nat, unit: nat, pad: nat)
    requires unit > 0 && pad == Rem(unit - Rem(len, unit), unit)
    ensures pad < unit && (len + pad) % unit == 0 && ((len + n) % unit == 0 ==> pad <= n)
  {
    RemIsMod(len, unit);
    RemIsMod(unit - Rem(len, unit), unit);
    ModShift(len, unit);
    if (len + n) % unit == 0 { LeastMultiple(len, pad, n, unit); }
  }

  lemma PaddingUnit(len: nat, j: nat, k: nat)
    ensures Padding(len, Pow2(j), false, Pow2(k)) == PadTo(len, Pow2(Min(j, k)))
  {
    Pow2Order(k, j);
    Pow2Order(j, k);
    assert Pow2(Min(j, k)) == if Pow2(k) > Pow2(j) then Pow2(j) else Pow2(k);
  }

  /** The expression of gettoalign, for an element of `unit` octets. */
  function PadTo(len: nat, unit: nat): nat
    requires unit > 0
  {
    And(unit - And(len, unit - 1), unit - 1)
  }

  lemma PadToUnit(len: nat, i: nat)
    ensures PadTo(len, Pow2(i)) == Rem(Pow2(i) - Rem(len, Pow2(i)), Pow2(i))
  {
    AndMask(len, i);
    AndMask(Pow2(i) - And(len, Pow2(i) - 1), i);
  }

  lemma LeastMultiple(len: nat, pad: nat, n: nat, unit: int)
    requires 0 <= pad < unit && (len + pad) % unit == 0 && (len + n) % unit == 0
    ensures pad <= n
  {
    var c, d := (len + n) / unit, (len + pad) / unit;
    assert unit * (d - c) == pad - n;
    MulOutside(unit, d - c);
  }

  /** The `!` switch accepts exactly the powers of two. */
  lemma AlignmentAccepted(n: nat, rest: string, h: Header)
    requires rest == "" || !IsDigit(rest[0])
    ensures Control('!', Decimal(n) + rest, h).Ok? <==> exists k :: n == Pow2(k)
    ensures Control('!', Decimal(n) + rest, h).Ok? ==> Control('!', Decimal(n) + rest, h).value.h.align == n
  {
    NumberIsRead(n, rest, MAX_ALIGN);
    if IsPowerOf2(n) { var k := ClearedLowBit(n); }
    forall k | n == Pow2(k) ensures IsPowerOf2(n) { Pow2Clears(k); }
  }

  // ---------------------------------------------------------------------
  // Numbers and options in a format
  // ---------------------------------------------------------------------

  function Decimal(n: nat): string {
    (if n < 10 then "" else Decimal(n / 10)) + [('0' as int + n % 10) as char]
  }

  lemma {:induction false} DecimalDigits(n: nat, rest: string)
    ensures Digits(Decimal(n) + rest, 0) == Digits(rest, n)
    ensures Decimal(n) != "" && IsDigit(Decimal(n)[0])
  {
    var d := ('0' as int + n % 10) as char;
    if n >= 10 {
      DecimalDigits(n / 10, [d] + rest);
      assert Decimal(n) + rest == Decimal(n / 10) + ([d] + rest);
      assert ([d] + rest)[1..] == rest;
    } else {
      assert (Decimal(n) + rest)[1..] == rest;
    }
  }

  /** A number written in decimal is read back, and the default is used only when none is written. */
  lemma NumberIsRead(n: nat, rest: string, default: nat)
    requires rest == "" || !IsDigit(rest[0])
    ensures GetNumber(Decimal(n) + rest, default) == Num(n, rest)
    ensures GetNumber(rest, default) == Num(default, rest)
  {
    DecimalDigits(n, rest);
  }

  lemma {:induction false} DigitsBefore(x: string, tail: string, a: nat)
    requires tail == "" || !IsDigit(tail[0])
    ensures Digits(x + tail, a) == var n := Digits(x, a); Num(n.value, n.rest + tail)
    decreases |x|
  {
    if x == "" {
      assert x + tail == tail;
    } else {
      assert (x + tail)[1..] == x[1..] + tail;
      if IsDigit(x[0]) { DigitsBefore(x[1..], tail, 10 * a + (x[0] as int - '0' as int)); }
    }
  }

  lemma NumberBefore(x: string, tail: string, default: nat)
    requires tail == "" || !IsDigit(tail[0])
    ensures GetNumber(x + tail, default) == var n := GetNumber(x, default); Num(n.value, n.rest + tail)
  {
    if x == "" { assert x + tail == tail; } else { DigitsBefore(x, tail, 0); }
  }

  lemma RestIsSuffix(x: string, default: nat)
    ensures forall c :: c in GetNumber(x, default).rest ==> c in x
  {
    DigitsSuffix(x, 0);
  }

  lemma {:induction false} DigitsSuffix(x: string, a: nat)
    ensures forall c :: c in Digits(x, a).rest ==> c in x
    decreases |x|
  {
    if x != "" && IsDigit(x[0]) { DigitsSuffix(x[1..], 10 * a + (x[0] as int - '0' as int)); }
  }

  /** What stands behind a zero character is never looked at. */
  lemma {:induction false} FormatEndsAtZero(fmt: string, behind: string, h: Header)
    requires '\0' !in fmt
    ensures Parse(fmt + ("\0" + behind), h) == Parse(fmt, h)
    decreases |fmt|
  {
    var tail := "\0" + behind;
    if fmt == "" {
      assert fmt + tail == tail;
    } else {
      assert (fmt + tail)[1..] == fmt[1..] + tail;
      OptionBefore(fmt[0], fmt[1..], tail);
      if OptionSize(fmt[0], fmt[1..]).Ok? {
        var rest := OptionSize(fmt[0], fmt[1..]).value.rest;
        if KindOf(fmt[0]).Some? {
          FormatEndsAtZero(rest, behind, h);
        } else {
          ControlBefore(fmt[0], rest, tail, h);
          var c := Control(fmt[0], rest, h);
          if c.Ok? { FormatEndsAtZero(c.value.rest, behind, c.value.h); } else { FormatEndsAtZero(rest, behind, h); }
        }
      }
    }
  }

  lemma OptionBefore(opt: char, x: string, tail: string)
    requires '\0' !in x && tail != "" && tail[0] == '\0'
    ensures OptionSize(opt, x + tail) ==
            match OptionSize(opt, x) case Ok(s) => Ok(Sized(s.size, s.rest + tail)) case Err(e) => Err(e)
    ensures OptionSize(opt, x).Ok? ==> '\0' !in OptionSize(opt, x).value.rest
  {
    NumberBefore(x, tail, 1);
    NumberBefore(x, tail, INT_SIZE);
    RestIsSuffix(x, 1);
    RestIsSuffix(x, INT_SIZE);
  }

  lemma ControlBefore(opt: char, x: string, tail: string, h: Header)
    requires '\0' !in x && tail != "" && tail[0] == '\0'
    ensures Control(opt, x + tail, h) ==
            match Control(opt, x, h) case Ok(c) => Ok(Controlled(c.h, c.rest + tail)) case Err(e) => Err(e)
    ensures Control(opt, x, h).Ok? ==> '\0' !in Control(opt, x, h).value.rest
  {
    NumberBefore(x, tail, MAX_ALIGN);
    RestIsSuffix(x, MAX_ALIGN);
  }

  /** The shortest such format. */
  lemma SizeOverlooksUnknownLetters(args: seq<Value>, data: seq<byte>)
    ensures SizeSpec("z") == Ok(0)
    ensures PackSpec("z", args) == Err(InvalidOption('z'))
    ensures UnpackSpec("z", data, 1) == Err(InvalidOption('z'))
  {
    var ds := Parse("z", DEFAULT_HEADER);
    assert ds == [Refuse(InvalidOption('z'), true)];
    assert ds[1..] == [];
    assert SizeAll(ds, 0) == SizeAll(ds[1..], 0) == Ok(0);
  }
}
