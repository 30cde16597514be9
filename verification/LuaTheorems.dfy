/**
  What set and get promise each other, on any heap and on tree-shaped ones:
  first for assignment along a list of names, then for set, which leaves out an
  empty last name when the tables on the way are not all there.
  */
module LuaTheorems {
  import opened LuaHeap
  import opened LuaPath

  /**
    The last slot the path reads was already read on the way: the path runs in
    a circle through shared tables.
    */
  predicate Circular(heap: Heap, path: Path)
    requires path != []
  {
    var r := Reads(heap, 0, path);
    Target(heap, 0, path) in r[..|r| - 1]
  }

  /** The one case in which set undoes its own write: the circle ends at the global it began with. */
  predicate ThroughRoot(heap: Heap, path: Path)
    requires path != []
  {
    |Reads(heap, 0, path)| > 1 && Target(heap, 0, path) == Slot(0, path[0])
  }

  lemma RootIsFirst(heap: Heap, path: Path)
    requires path != []
    ensures Reads(heap, 0, path)[0] == Slot(0, path[0])
    ensures ThroughRoot(heap, path) ==> Circular(heap, path)
    ensures |Reads(heap, 0, path)| > 1 <==> |path| > 1 && Field(heap, 0, path[0]).Table?
  {
    var r := Reads(heap, 0, path);
    if |r| > 1 { assert r[..|r| - 1][0] == r[0]; }
  }

  /** set writes exactly the last slot its path reads, and appends the fresh tables. */
  lemma AlongWrites(heap: Heap, path: Path, v: Value)
    requires Closed(heap) && path != [] && !ThroughRoot(heap, path)
    ensures var rest := Rest(heap, 0, path);
            Writes(heap, SetAlong(heap, path, v), Target(heap, 0, path), ChainHead(|heap|, rest, v)) &&
            SetAlong(heap, path, v)[|heap|..] == Chain(|heap|, rest, v)
  {
    var rest := Rest(heap, 0, path);
    var h := SetIn(heap, 0, path, v);
    SetInWrites(heap, 0, path, v);
    RootIsFirst(heap, path);
    WritesOneField(heap, h, Target(heap, 0, path), ChainHead(|heap|, rest, v), 0, path[0]);
    if |path| > 1 && Field(heap, 0, path[0]).Table? {
      SetAgain(h[0], path[0]);
      assert SetAlong(heap, path, v) == h;
    }
  }

  lemma SetAgain(f: Fields, k: string)
    requires RawGet(f, k) != Nil
    ensures RawSet(f, k, RawGet(f, k)) == f
  {
  }

  lemma SetUndone(f: Fields, k: string, v: Value)
    requires RawGet(f, k) != Nil
    ensures RawSet(RawSet(f, k, v), k, RawGet(f, k)) == f
  {
  }

  lemma AlongThroughRoot(heap: Heap, path: Path, v: Value)
    requires Closed(heap) && path != [] && ThroughRoot(heap, path)
    ensures SetAlong(heap, path, v) == heap
  {
    RootIsFirst(heap, path);
    StoppedShort(heap, 0, path);
    SetInWrites(heap, 0, path, v);
    SetUndone(heap[0], path[0], v);
    assert SetAlong(heap, path, v) == heap;
  }

  // ---------------------------------------------------------------------
  // Any heap
  // ---------------------------------------------------------------------

  /** A path that does not read the slot set writes keeps its value, whatever is shared. */
  lemma AlongFrame(heap: Heap, path: Path, v: Value, q: Path)
    requires Closed(heap) && path != [] && q != []
    requires Target(heap, 0, path) !in Reads(heap, 0, q)
    ensures Get(SetAlong(heap, path, v), q) == Get(heap, q)
    ensures Reads(SetAlong(heap, path, v), 0, q) == Reads(heap, 0, q)
  {
    if ThroughRoot(heap, path) {
      AlongThroughRoot(heap, path, v);
    } else {
      AlongWrites(heap, path, v);
      FrameOfWrite(heap, SetAlong(heap, path, v), Target(heap, 0, path), ChainHead(|heap|, Rest(heap, 0, path), v), q);
    }
  }

  lemma FrameOfWrite(heap: Heap, h': Heap, s: Slot, v: Value, q: Path)
    requires Closed(heap) && q != [] && Writes(heap, h', s, v) && s !in Reads(heap, 0, q)
    ensures Get(h', q) == Get(heap, q) && Reads(h', 0, q) == Reads(heap, 0, q)
  {
    forall r | r in Reads(heap, 0, q) ensures Field(h', r.table, r.key) == Field(heap, r.table, r.key) {
      ReadsAlive(heap, 0, q);
      WritesOneField(heap, h', s, v, r.table, r.key);
    }
    LookupAgrees(heap, h', 0, q);
  }

  lemma {:induction false} ReadsAlive(heap: Heap, t: nat, path: Path)
    requires Closed(heap) && t < |heap| && path != []
    ensures forall s :: s in Reads(heap, t, path) ==> s.table < |heap|
    decreases |path|
  {
    var next := Field(heap, t, path[0]);
    if |path| > 1 && next.Table? {
      TargetStep(heap, t, path);
      ReadsAlive(heap, next.id, path[1..]);
    }
  }

  /** get after set gives the value back, unless the path is circular. */
  lemma GetAfterAlong(heap: Heap, path: Path, v: Value)
    requires Closed(heap) && path != [] && !v.Table? && !Circular(heap, path)
    ensures Get(SetAlong(heap, path, v), path) == v
  {
    RootIsFirst(heap, path);
    AlongWrites(heap, path, v);
    var rest, h' := Rest(heap, 0, path), SetAlong(heap, path, v);
    WalkToTarget(heap, h', 0, path, path, ChainHead(|heap|, rest, v));
    ChainHolds(h', |heap|, rest, v, rest);
  }

  /** On a circular path the value cannot be read back: the way to it is cut, or nothing changes at all. */
  lemma CircularIsLost(heap: Heap, path: Path, v: Value)
    requires Closed(heap) && path != [] && !v.Table? && v != Nil && Circular(heap, path)
    ensures Get(SetAlong(heap, path, v), path) == Nil || (SetAlong(heap, path, v) == heap && Get(heap, path) != v)
  {
    var r, s := Reads(heap, 0, path), Target(heap, 0, path);
    var i :| 0 <= i < |r| - 1 && r[i] == s;
    TableOnTheWay(heap, 0, path, i);
    StoppedShort(heap, 0, path);
    if ThroughRoot(heap, path) {
      AlongThroughRoot(heap, path, v);
      LastReadIsValue(heap, 0, path);
    } else {
      AlongWrites(heap, path, v);
      CutShort(heap, SetAlong(heap, path, v), 0, path, v);
    }
  }

  /** Every slot read but the last holds a table. */
  lemma {:induction false} TableOnTheWay(heap: Heap, t: nat, path: Path, i: nat)
    requires path != [] && i + 1 < |Reads(heap, t, path)|
    ensures var s := Reads(heap, t, path)[i]; Field(heap, s.table, s.key).Table?
    decreases |path|
  {
    TargetStep(heap, t, path);
    if i > 0 { TableOnTheWay(heap, Field(heap, t, path[0]).id, path[1..], i - 1); }
  }

  lemma {:induction false} LastReadIsValue(heap: Heap, t: nat, path: Path)
    requires path != [] && Rest(heap, t, path) == []
    ensures var s := Target(heap, t, path); Lookup(heap, Table(t), path) == Field(heap, s.table, s.key)
    decreases |path|
  {
    if |path| > 1 && Field(heap, t, path[0]).Table? {
      TargetStep(heap, t, path);
      LastReadIsValue(heap, Field(heap, t, path[0]).id, path[1..]);
    }
  }

  /** The first time the path reads the slot it finds the new value, with components still to go. */
  lemma {:induction false} CutShort(h: Heap, h': Heap, t: nat, path: Path, v: Value)
    requires path != [] && Closed(h) && t < |h| && !v.Table? && v != Nil
    requires Writes(h, h', Target(h, t, path), v)
    requires var r := Reads(h, t, path); Target(h, t, path) in r[..|r| - 1]
    ensures Lookup(h', Table(t), path) == Nil
    decreases |path|
  {
    var r := Reads(h, t, path);
    TargetStep(h, t, path);
    var next := Field(h, t, path[0]).id;
    WritesOneField(h, h', Target(h, t, path), v, t, path[0]);
    if r[0] != Target(h, t, path) {
      var r' := Reads(h, next, path[1..]);
      assert r[..|r| - 1] == [r[0]] + r'[..|r'| - 1];
      CutShort(h, h', next, path[1..], v);
    }
  }

  /** The exact condition under which get gives back what set was given. */
  lemma AlongGetExactly(heap: Heap, path: Path, v: Value)
    requires Closed(heap) && path != [] && !v.Table? && v != Nil
    ensures Get(SetAlong(heap, path, v), path) == v <==> !Circular(heap, path)
  {
    if Circular(heap, path) { CircularIsLost(heap, path, v); } else { GetAfterAlong(heap, path, v); }
  }

  // ---------------------------------------------------------------------
  // Tree-shaped heaps
  // ---------------------------------------------------------------------

  /** No table is reached by two paths. */
  ghost predicate Unshared(heap: Heap) {
    forall a: Path, b: Path {:trigger Get(heap, a), Get(heap, b)} ::
      Get(heap, a).Table? && Get(heap, a) == Get(heap, b) ==> a == b
  }

  /** The part of the path up to and including the slot set writes. */
  function Known(heap: Heap, path: Path): Path
    requires path != []
  {
    path[..|Reads(heap, 0, path)|]
  }

  /** A path that reads the slot begins with the known part. */
  lemma ReadsSlotOnce(heap: Heap, path: Path, q: Path, i: nat)
    requires Unshared(heap) && path != [] && q != []
    requires i < |Reads(heap, 0, q)| && Reads(heap, 0, q)[i] == Target(heap, 0, path)
    ensures i == |Reads(heap, 0, path)| - 1 && Known(heap, path) <= q
  {
    var j := |Reads(heap, 0, path)| - 1;
    ReadsAt(heap, 0, path, j);
    ReadsAt(heap, 0, q, i);
    assert Get(heap, path[..j]) == Get(heap, q[..i]);
    assert path[..j] == q[..i];
    assert Known(heap, path) == path[..j] + [path[j]] && q[..i + 1] == q[..i] + [q[i]];
  }

  lemma UnsharedIsNotCircular(heap: Heap, path: Path)
    requires Unshared(heap) && path != []
    ensures !Circular(heap, path)
  {
    var r := Reads(heap, 0, path);
    if Circular(heap, path) {
      var i :| 0 <= i < |r| - 1 && r[i] == Target(heap, 0, path);
      ReadsSlotOnce(heap, path, path, i);
    }
  }

  /** Everything there is to see after a set, with the identities of the tables. */
  lemma AlongView(heap: Heap, path: Path, v: Value, q: Path)
    requires Closed(heap) && Unshared(heap) && path != [] && !v.Table?
    ensures var known, rest := Known(heap, path), Rest(heap, 0, path);
            Get(SetAlong(heap, path, v), q) ==
            if known <= q then ChainView(|heap|, rest, v, q[|known|..]) else Get(heap, q)
  {
    UnsharedIsNotCircular(heap, path);
    RootIsFirst(heap, path);
    var r := Reads(heap, 0, path);
    if Known(heap, path) <= q {
      AlongWrites(heap, path, v);
      var rest, h' := Rest(heap, 0, path), SetAlong(heap, path, v);
      WalkToTarget(heap, h', 0, path, q, ChainHead(|heap|, rest, v));
      ChainHolds(h', |heap|, rest, v, q[|r|..]);
    } else if q != [] {
      if Target(heap, 0, path) in Reads(heap, 0, q) {
        var i :| 0 <= i < |Reads(heap, 0, q)| && Reads(heap, 0, q)[i] == Target(heap, 0, path);
        ReadsSlotOnce(heap, path, q, i);
      }
      AlongFrame(heap, path, v, q);
    }
  }

  // What a caller can see: whether there is a table, and otherwise the value.
  datatype View = Missing | Leaf(v: Value) | Inner

  function ViewOf(v: Value): View {
    match v case Nil => Missing case Table(_) => Inner case _ => Leaf(v)
  }

  /** set changes what q shows only if one of the two paths begins with the other. */
  function ViewAfter(path: Path, v: Value, q: Path, before: View): View {
    if q == path then ViewOf(v) else if Below(path, q) then Missing else if Below(q, path) then Inner else before
  }

  /** The known part of a path leads through tables. */
  lemma KnownIsInner(heap: Heap, path: Path, n: nat)
    requires path != [] && n < |Known(heap, path)|
    ensures Get(heap, path[..n]).Table?
  {
    ReadsAt(heap, 0, path, n);
  }

  /** Nothing lies beyond the slot when part of the path is left. */
  lemma BeyondKnown(heap: Heap, path: Path, q: Path)
    requires path != [] && Rest(heap, 0, path) != [] && Below(Known(heap, path), q)
    ensures Get(heap, q) == Nil
  {
    var known := Known(heap, path);
    var j := |known| - 1;
    ReadsAt(heap, 0, path, j);
    StoppedShort(heap, 0, path);
    var s := Target(heap, 0, path);
    assert known == path[..j] + [path[j]];
    LookupConcat(heap, Table(0), path[..j], [path[j]]);
    assert [path[j]][1..] == [];
    assert Get(heap, known) == Field(heap, s.table, s.key);
    assert q == known + q[|known|..];
    LookupConcat(heap, Table(0), known, q[|known|..]);
  }

  /**
    On a tree-shaped heap a path shows the value assigned there, a
    table above it, nothing below it, and otherwise what it showed before.
    */
  lemma AlongExactly(heap: Heap, path: Path, v: Value, q: Path)
    requires Closed(heap) && Unshared(heap) && path != [] && !v.Table?
    ensures ViewOf(Get(SetAlong(heap, path, v), q)) == ViewAfter(path, v, q, ViewOf(Get(heap, q)))
  {
    var known, rest := Known(heap, path), Rest(heap, 0, path);
    AlongView(heap, path, v, q);
    assert path == known + rest;
    if known <= q {
      var s := q[|known|..];
      assert q == known + s;
      assert s == rest <==> q == path;
      assert Below(s, rest) <==> Below(q, path);
      if q != path && !Below(path, q) && !Below(q, path) { BeyondKnown(heap, path, q); }
    } else if Below(q, path) {
      assert q == path[..|q|];
      KnownIsInner(heap, path, |q|);
    }
  }

  /** The tree shape is kept, so set can be repeated. */
  lemma AlongKeepsTree(heap: Heap, path: Path, v: Value)
    requires Closed(heap) && Unshared(heap) && path != [] && !v.Table?
    ensures Unshared(SetAlong(heap, path, v))
  {
    var h', known := SetAlong(heap, path, v), Known(heap, path);
    forall a: Path, b: Path | Get(h', a).Table? && Get(h', a) == Get(h', b) ensures a == b {
      AlongView(heap, path, v, a);
      AlongView(heap, path, v, b);
      GetAlive(heap, a);
      GetAlive(heap, b);
      if known <= a && known <= b {
        assert a == known + a[|known|..] && b == known + b[|known|..];
        assert a[|known|..] == b[|known|..];
      }
    }
  }

  lemma {:induction false} LookupAlive(heap: Heap, v: Value, q: Path)
    requires Closed(heap) && Alive(heap, v)
    ensures Alive(heap, Lookup(heap, v, q))
    decreases |q|
  {
    if q != [] && v.Table? { LookupAlive(heap, Field(heap, v.id, q[0]), q[1..]); }
  }

  lemma GetAlive(heap: Heap, q: Path)
    requires Closed(heap)
    ensures Alive(heap, Get(heap, q))
  {
    LookupAlive(heap, Table(0), q);
  }

  // ---------------------------------------------------------------------
  // The heap stays closed
  // ---------------------------------------------------------------------

  lemma {:induction false} ChainClosed(n: nat, path: Path, v: Value)
    ensures forall i, k :: 0 <= i < |path| && k in Chain(n, path, v)[i] ==>
              var x := Chain(n, path, v)[i][k]; x != Nil && (x == v || (x.Table? && x.id < n + |path|))
    decreases |path|
  {
    if path != [] { ChainClosed(n + 1, path[1..], v); }
  }

  lemma {:induction false} SetInKeepsClosed(heap: Heap, t: nat, path: Path, v: Value)
    requires Closed(heap) && path != [] && t < |heap| && Alive(heap, v)
    ensures Closed(SetIn(heap, t, path, v)) && |heap| <= |SetIn(heap, t, path, v)|
    decreases |path|
  {
    var next := Field(heap, t, path[0]);
    if |path| > 1 && next.Table? {
      SetInKeepsClosed(heap, next.id, path[1..], v);
    } else {
      ChainClosed(|heap|, path[1..], v);
      var rest := path[1..];
      var h := SetIn(heap, t, path, v);
      forall i, k | 0 <= i < |h| && k in h[i] ensures h[i][k] != Nil && Alive(h, h[i][k]) {
        if i >= |heap| { assert h[i] == Chain(|heap|, rest, v)[i - |heap|]; }
      }
    }
  }

  lemma AlongKeepsClosed(heap: Heap, path: Path, v: Value)
    requires Closed(heap) && path != [] && Alive(heap, v)
    ensures Closed(SetAlong(heap, path, v)) && |heap| <= |SetAlong(heap, path, v)|
  {
    SetInKeepsClosed(heap, 0, path, v);
  }

  // ---------------------------------------------------------------------
  // set
  // ---------------------------------------------------------------------

  function Front(path: Path): Path
    requires path != []
  {
    path[..|path| - 1]
  }

  /** All of the path counts: it has no dot at the end, or what is before that dot names a table. */
  predicate Whole(heap: Heap, path: Path) { TrailingDot(path) ==> Get(heap, Front(path)).Table? }

  lemma KeptWhole(heap: Heap, path: Path)
    requires path != []
    ensures Kept(heap, 0, path) == if Whole(heap, path) then path else Front(path)
    ensures Circular(heap, Kept(heap, 0, path)) <==> Circular(heap, path)
    ensures Target(heap, 0, Kept(heap, 0, path)) == Target(heap, 0, path)
  {
    KeptReads(heap, 0, path);
    SameReads(heap, Kept(heap, 0, path), path);
    if TrailingDot(path) { KeptExactly(heap, 0, path); } else { KeptIsAll(heap, 0, path); }
  }

  lemma SameReads(heap: Heap, p: Path, q: Path)
    requires p != [] && q != [] && Reads(heap, 0, p) == Reads(heap, 0, q)
    ensures Target(heap, 0, p) == Target(heap, 0, q) && (Circular(heap, p) <==> Circular(heap, q))
  {
  }

  /** On any heap, a path that does not read the slot set writes keeps its value. */
  lemma SetFrame(heap: Heap, path: Path, v: Value, q: Path)
    requires Closed(heap) && path != [] && q != []
    requires Target(heap, 0, path) !in Reads(heap, 0, q)
    ensures Get(Set(heap, path, v), q) == Get(heap, q)
    ensures Reads(Set(heap, path, v), 0, q) == Reads(heap, 0, q)
  {
    KeptWhole(heap, path);
    AlongFrame(heap, Kept(heap, 0, path), v, q);
  }

  /** After set, the path ends in the slot it ended in before, or in a fresh table. */
  lemma TargetAfterSet(heap: Heap, path: Path, v: Value)
    requires Closed(heap) && path != [] && !v.Table? && v != Nil && !Circular(heap, path) && Whole(heap, path)
    requires |Reads(Set(heap, path, v), 0, path)| == |path|
    ensures var s := Target(Set(heap, path, v), 0, path); s == Target(heap, 0, path) || s.table >= |heap|
  {
    KeptWhole(heap, path);
    RootIsFirst(heap, path);
    AlongWrites(heap, path, v);
    var h, r, rest := Set(heap, path, v), Reads(heap, 0, path), Rest(heap, 0, path);
    StillReads(heap, h, 0, path, ChainHead(|heap|, rest, v));
    var k := |path| - 1;
    if |r| <= k {
      ReadsAt(h, 0, path, k);
      FreshOnTheWay(heap, h, path, v, k);
    }
  }

  /** A table the path leads to beyond the slot written is a fresh one. */
  lemma FreshOnTheWay(heap: Heap, h: Heap, path: Path, v: Value, k: nat)
    requires Closed(heap) && path != [] && !v.Table? && !Circular(heap, path)
    requires |Reads(heap, 0, path)| <= k < |path|
    requires var rest := Rest(heap, 0, path);
             Writes(heap, h, Target(heap, 0, path), ChainHead(|heap|, rest, v)) && h[|heap|..] == Chain(|heap|, rest, v)
    ensures Get(h, path[..k]).Table? ==> Get(h, path[..k]).id >= |heap|
  {
    var r, rest := Reads(heap, 0, path), Rest(heap, 0, path);
    assert path[..k][..|r|] == path[..|r|];
    WalkToTarget(heap, h, 0, path, path[..k], ChainHead(|heap|, rest, v));
    ChainHolds(h, |heap|, rest, v, path[..k][|r|..]);
  }

  /** Nothing is found behind a value that is no table. */
  lemma NothingBehind(heap: Heap, path: Path)
    requires TrailingDot(path) && !Get(heap, Front(path)).Table?
    ensures Get(heap, path) == Nil
  {
    assert path == Front(path) + [""];
    LookupConcat(heap, Table(0), Front(path), [""]);
  }

  /** The exact condition, on any heap, under which get gives back what set was given. */
  lemma SetGetExactly(heap: Heap, path: Path, v: Value)
    requires Closed(heap) && path != [] && !v.Table? && v != Nil
    ensures Get(Set(heap, path, v), path) == v <==> !Circular(heap, path) && Whole(heap, path)
  {
    var kept := Kept(heap, 0, path);
    KeptWhole(heap, path);
    if Circular(heap, path) { CircularIsLost(heap, kept, v); } else { GetAfterAlong(heap, kept, v); }
    if !Whole(heap, path) { NothingBehind(Set(heap, path, v), path); }
  }

  /** When not all of the path counts, what is before its last dot takes the value. */
  lemma TrailingDotStoresAbove(heap: Heap, path: Path, v: Value)
    requires Closed(heap) && !v.Table? && v != Nil && path != [] && !Whole(heap, path) && !Circular(heap, path)
    ensures Get(Set(heap, path, v), Front(path)) == v && Get(Set(heap, path, v), path) == Nil
  {
    KeptWhole(heap, path);
    GetAfterAlong(heap, Front(path), v);
    NothingBehind(Set(heap, path, v), path);
  }

  /** A heap on which it fails: a global table that holds itself. */
  lemma SelfReferenceFails(v: Value)
    requires !v.Table? && v != Nil
    ensures var heap := [map["a" := Table(1)], map["a" := Table(1)]];
            Closed(heap) && Circular(heap, ["a", "a", "a"]) && Get(Set(heap, ["a", "a", "a"], v), ["a", "a", "a"]) != v
  {
    var heap: Heap := [map["a" := Table(1)], map["a" := Table(1)]];
    var path: Path := ["a", "a", "a"];
    assert path[1..] == ["a", "a"] && path[1..][1..] == ["a"];
    assert Reads(heap, 1, ["a"]) == [Slot(1, "a")];
    TargetStep(heap, 1, ["a", "a"]);
    TargetStep(heap, 0, path);
    assert Reads(heap, 0, path) == [Slot(0, "a"), Slot(1, "a"), Slot(1, "a")];
    assert Reads(heap, 0, path)[..2][1] == Slot(1, "a");
    SetGetExactly(heap, path, v);
  }

  /**
    Main theorem: on a tree-shaped heap a path shows the value set there, a
    table above it, nothing below it, and otherwise what it showed before.
    */
  lemma SetExactly(heap: Heap, path: Path, v: Value, q: Path)
    requires Closed(heap) && Unshared(heap) && path != [] && !v.Table?
    ensures var aim := if Whole(heap, path) then path else Front(path);
            ViewOf(Get(Set(heap, path, v), q)) == ViewAfter(aim, v, q, ViewOf(Get(heap, q)))
  {
    KeptWhole(heap, path);
    AlongExactly(heap, Kept(heap, 0, path), v, q);
  }

  /** The tree shape is kept, so set can be repeated. */
  lemma SetKeepsTree(heap: Heap, path: Path, v: Value)
    requires Closed(heap) && Unshared(heap) && path != [] && !v.Table?
    ensures Unshared(Set(heap, path, v))
  {
    AlongKeepsTree(heap, Kept(heap, 0, path), v);
  }

  lemma SetKeepsClosed(heap: Heap, path: Path, v: Value)
    requires Closed(heap) && path != [] && Alive(heap, v)
    ensures Closed(Set(heap, path, v)) && |heap| <= |Set(heap, path, v)|
  {
    AlongKeepsClosed(heap, Kept(heap, 0, path), v);
  }

  // ---------------------------------------------------------------------
  // Any sequence of sets
  // ---------------------------------------------------------------------

  datatype Assignment = Assignment(path: Path, v: Value) {
    predicate Valid() { path != [] && !v.Table? }
  }

  const NO_GLOBALS: Heap := [map[]]

  function RunSets(sets: seq<Assignment>): (h: Heap)
    requires forall i :: 0 <= i < |sets| ==> sets[i].Valid()
    ensures h != []
  {
    if sets == [] then NO_GLOBALS
    else
      var last := sets[|sets| - 1];
      assert last.Valid();
      var h := RunSets(sets[..|sets| - 1]);
      Set(h, last.path, last.v)
  }

  /** Where a set stores: above a dot at the end, unless what is before the dot shows a table. */
  function Aim(path: Path, inner: bool): Path
    requires path != []
  {
    if TrailingDot(path) && !inner then Front(path) else path
  }

  /** The last set that has a say about q decides what q shows. */
  function Shown(sets: seq<Assignment>, q: Path): View
    requires forall i :: 0 <= i < |sets| ==> sets[i].Valid()
    decreases |sets|
  {
    if sets == [] then if q == [] then Inner else Missing
    else
      var last := sets[|sets| - 1];
      assert last.Valid();
      var init := sets[..|sets| - 1];
      ViewAfter(Aim(last.path, Shown(init, Front(last.path)).Inner?), last.v, q, Shown(init, q))
  }

  lemma NoGlobalsView(q: Path)
    ensures Get(NO_GLOBALS, q) == if q == [] then Table(0) else Nil
  {
    if q != [] { assert Field(NO_GLOBALS, 0, q[0]) == Nil && Lookup(NO_GLOBALS, Nil, q[1..]) == Nil; }
  }

  /** Any sequence of sets keeps the heap a tree and shows, at every path, what the last relevant one says. */
  lemma {:induction false} RunShows(sets: seq<Assignment>, q: Path)
    requires forall i :: 0 <= i < |sets| ==> sets[i].Valid()
    ensures Closed(RunSets(sets)) && Unshared(RunSets(sets))
    ensures ViewOf(Get(RunSets(sets), q)) == Shown(sets, q)
  {
    if sets == [] {
      forall a: Path, b: Path | Get(NO_GLOBALS, a).Table? && Get(NO_GLOBALS, a) == Get(NO_GLOBALS, b) ensures a == b {
        NoGlobalsView(a);
        NoGlobalsView(b);
      }
      NoGlobalsView(q);
    } else {
      var init, last := sets[..|sets| - 1], sets[|sets| - 1];
      RunShows(init, q);
      RunShows(init, Front(last.path));
      SetExactly(RunSets(init), last.path, last.v, q);
      SetKeepsTree(RunSets(init), last.path, last.v);
      SetKeepsClosed(RunSets(init), last.path, last.v);
    }
  }
}
