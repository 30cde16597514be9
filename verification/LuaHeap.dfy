/**
  Lua tables on a heap, and what the dotted-path functions of
  include/fr-lua/lua-wrapper.hpp do to them. Table 0 holds the globals. Tables
  may be shared and cyclic; a path is the list of its component names.
  */
module LuaHeap {
  import opened LuaPath

  datatype Value = Nil | Scalar(n: int) | Str(s: string) | Table(id: nat)

  type Fields = map<string, Value>
  type Heap = seq<Fields>
  type Path = seq<string>

  predicate Alive(heap: Heap, v: Value) { v.Table? ==> v.id < |heap| }

  /** There are globals, no field holds nil, and every table mentioned exists. */
  ghost predicate Closed(heap: Heap) {
    heap != [] &&
    forall i, k :: 0 <= i < |heap| && k in heap[i] ==> heap[i][k] != Nil && Alive(heap, heap[i][k])
  }

  function RawGet(f: Fields, k: string): Value { if k in f then f[k] else Nil }

  /** Assigning nil removes the field. */
  function RawSet(f: Fields, k: string, v: Value): (r: Fields)
    ensures RawGet(r, k) == v
    ensures forall j :: j != k ==> RawGet(r, j) == RawGet(f, j)
  {
    if v == Nil then f - {k} else f[k := v]
  }

  /** Field k of table t. */
  function Field(heap: Heap, t: nat, k: string): Value { if t < |heap| then RawGet(heap[t], k) else Nil }

  // ---------------------------------------------------------------------
  // Following a path
  // ---------------------------------------------------------------------

  /** The value a path leads to from v; nil when something on the way is no table. */
  function Lookup(heap: Heap, v: Value, path: Path): Value
    decreases |path|
  {
    if path == [] then v
    else if v.Table? then Lookup(heap, Field(heap, v.id, path[0]), path[1..])
    else Nil
  }

  function Get(heap: Heap, path: Path): Value { Lookup(heap, Table(0), path) }

  datatype Slot = Slot(table: nat, key: string)

  /** The slots read on the way along a path, up to the first value that is no table. */
  function Reads(heap: Heap, t: nat, path: Path): (r: seq<Slot>)
    requires path != []
    ensures 1 <= |r| <= |path|
    decreases |path|
  {
    var next := Field(heap, t, path[0]);
    [Slot(t, path[0])] +
    (if |path| > 1 && next.Table? then Reads(heap, next.id, path[1..]) else [])
  }

  // ---------------------------------------------------------------------
  // Assignment along a path
  // ---------------------------------------------------------------------

  /** The fresh tables create_or_push makes for a path, the first of which gets number n. */
  function Chain(n: nat, path: Path, v: Value): (c: seq<Fields>)
    ensures |c| == |path|
    decreases |path|
  {
    if path == [] then []
    else [RawSet(map[], path[0], if |path| == 1 then v else Table(n + 1))] + Chain(n + 1, path[1..], v)
  }

  /** The value create_or_push leaves on the stack. */
  function ChainHead(n: nat, path: Path, v: Value): Value { if path == [] then v else Table(n) }

  /** set_to_stack on table t: the last table on the way takes the value, or a chain of fresh tables ending in it. */
  function SetIn(heap: Heap, t: nat, path: Path, v: Value): (h: Heap)
    requires path != [] && t < |heap|
    ensures |h| >= |heap|
    decreases |path|
  {
    var next := Field(heap, t, path[0]);
    if |path| > 1 && next.Table? && next.id < |heap| then SetIn(heap, next.id, path[1..], v)
    else
      var grown := heap + Chain(|heap|, path[1..], v);
      grown[t := RawSet(heap[t], path[0], ChainHead(|heap|, path[1..], v))]
  }

  /**
    Assignment from the globals: as set_to_stack on them, except that a root
    that was a table is assigned again at the end.
    */
  function SetAlong(heap: Heap, path: Path, v: Value): (h: Heap)
    requires path != [] && heap != []
    ensures |h| >= |heap|
  {
    var root := Field(heap, 0, path[0]);
    var h := SetIn(heap, 0, path, v);
    if |path| > 1 && root.Table? then h[0 := RawSet(h[0], path[0], root)] else h
  }

  // ---------------------------------------------------------------------
  // A dot at the end
  // ---------------------------------------------------------------------

  /** create_or_push stops at an empty rest, so it never sees an empty last name. */
  function Trimmed(path: Path): (r: Path)
    ensures |r| <= |path| <= |r| + 1
  {
    if path != [] && path[|path| - 1] == "" then path[..|path| - 1] else path
  }

  /** The path set assigns along: an empty last name counts only when the tables on the way are all there. */
  function Kept(heap: Heap, t: nat, path: Path): (r: Path)
    requires path != []
    ensures r != []
    decreases |path|
  {
    var next := Field(heap, t, path[0]);
    [path[0]] + (if |path| > 1 && next.Table? then Kept(heap, next.id, path[1..]) else Trimmed(path[1..]))
  }

  /** set. */
  function Set(heap: Heap, path: Path, v: Value): (h: Heap)
    requires path != [] && heap != []
    ensures |h| >= |heap|
  {
    SetAlong(heap, Kept(heap, 0, path), v)
  }

  // ---------------------------------------------------------------------
  // An assignment writes one slot
  // ---------------------------------------------------------------------

  /** h' is h with fresh tables appended and slot s set to v. */
  ghost predicate Writes(h: Heap, h': Heap, s: Slot, v: Value) {
    |h| <= |h'| && s.table < |h| &&
    h'[s.table] == RawSet(h[s.table], s.key, v) &&
    forall i :: 0 <= i < |h| && i != s.table ==> h'[i] == h[i]
  }

  /** What is left of the path after the last slot read. */
  function Rest(heap: Heap, t: nat, path: Path): Path
    requires path != []
  {
    path[|Reads(heap, t, path)|..]
  }

  function Target(heap: Heap, t: nat, path: Path): Slot
    requires path != []
  {
    var r := Reads(heap, t, path);
    r[|r| - 1]
  }

  lemma {:induction false} TargetStep(heap: Heap, t: nat, path: Path)
    requires |path| > 1 && Field(heap, t, path[0]).Table?
    ensures var next := Field(heap, t, path[0]).id;
            Target(heap, t, path) == Target(heap, next, path[1..]) &&
            Rest(heap, t, path) == Rest(heap, next, path[1..]) &&
            Reads(heap, t, path) == [Slot(t, path[0])] + Reads(heap, next, path[1..])
  {
  }

  /** set_to_stack writes exactly the last slot the path reads. */
  lemma {:induction false} SetInWrites(heap: Heap, t: nat, path: Path, v: Value)
    requires path != [] && t < |heap| && Closed(heap)
    ensures var rest := Rest(heap, t, path);
            Writes(heap, SetIn(heap, t, path, v), Target(heap, t, path), ChainHead(|heap|, rest, v)) &&
            SetIn(heap, t, path, v)[|heap|..] == Chain(|heap|, rest, v)
    decreases |path|
  {
    var next := Field(heap, t, path[0]);
    if |path| > 1 && next.Table? {
      TargetStep(heap, t, path);
      SetInWrites(heap, next.id, path[1..], v);
    } else {
      var grown := heap + Chain(|heap|, path[1..], v);
      assert SetIn(heap, t, path, v)[|heap|..] == grown[|heap|..];
    }
  }

  /** A path that reads the same in both heaps leads to the same value. */
  lemma {:induction false} LookupAgrees(h: Heap, h': Heap, t: nat, path: Path)
    requires path != []
    requires forall s :: s in Reads(h, t, path) ==> Field(h', s.table, s.key) == Field(h, s.table, s.key)
    ensures Lookup(h', Table(t), path) == Lookup(h, Table(t), path)
    ensures Reads(h', t, path) == Reads(h, t, path)
    decreases |path|
  {
    var next := Field(h, t, path[0]);
    assert Slot(t, path[0]) in Reads(h, t, path);
    if |path| > 1 && next.Table? {
      TargetStep(h, t, path);
      LookupAgrees(h, h', next.id, path[1..]);
    }
  }

  lemma WritesOneField(h: Heap, h': Heap, s: Slot, v: Value, t: nat, k: string)
    requires Writes(h, h', s, v) && t < |h|
    ensures Field(h', t, k) == if Slot(t, k) == s then v else Field(h, t, k)
  {
  }

  // ---------------------------------------------------------------------
  // Composition
  // ---------------------------------------------------------------------

  lemma {:induction false} LookupConcat(heap: Heap, v: Value, a: Path, b: Path)
    ensures Lookup(heap, v, a + b) == Lookup(heap, Lookup(heap, v, a), b)
    decreases |a|
  {
    if a == [] {
      assert a + b == b;
    } else {
      assert (a + b)[1..] == a[1..] + b;
      if v.Table? { LookupConcat(heap, Field(heap, v.id, a[0]), a[1..], b); }
    }
  }

  /** The i-th slot read is component i of the table the first i components lead to. */
  lemma {:induction false} ReadsAt(heap: Heap, t: nat, path: Path, i: nat)
    requires path != [] && i < |Reads(heap, t, path)|
    ensures Lookup(heap, Table(t), path[..i]) == Table(Reads(heap, t, path)[i].table)
    ensures Reads(heap, t, path)[i].key == path[i]
    decreases |path|
  {
    if i > 0 {
      TargetStep(heap, t, path);
      ReadsAt(heap, Field(heap, t, path[0]).id, path[1..], i - 1);
      assert path[..i][1..] == path[1..][..i - 1];
    }
  }

  /** When part of the path is left unread, the last slot read holds no table. */
  lemma {:induction false} StoppedShort(heap: Heap, t: nat, path: Path)
    requires path != []
    ensures Rest(heap, t, path) != [] ==>
              var s := Target(heap, t, path); !Field(heap, s.table, s.key).Table?
    ensures Closed(heap) && t < |heap| ==> Target(heap, t, path).table < |heap|
    decreases |path|
  {
    if |path| > 1 && Field(heap, t, path[0]).Table? {
      TargetStep(heap, t, path);
      StoppedShort(heap, Field(heap, t, path[0]).id, path[1..]);
    }
  }

  // ---------------------------------------------------------------------
  // What the chain of fresh tables holds
  // ---------------------------------------------------------------------

  /** q is a proper prefix of p. */
  predicate Below(q: Path, p: Path) { |q| < |p| && q <= p }

  function ChainView(n: nat, path: Path, v: Value, q: Path): Value {
    if q == path then v else if Below(q, path) then Table(n + |q|) else Nil
  }

  lemma {:induction false} ChainHolds(h: Heap, n: nat, path: Path, v: Value, q: Path)
    requires n <= |h| && h[n..] == Chain(n, path, v) && !v.Table?
    ensures Lookup(h, ChainHead(n, path, v), q) == ChainView(n, path, v, q)
    decreases |path|
  {
    if path != [] && q != [] {
      assert h[n] == h[n..][0] && h[n + 1..] == h[n..][1..];
      var next := if |path| == 1 then v else Table(n + 1);
      assert h[n] == RawSet(map[], path[0], next);
      assert ChainHead(n + 1, path[1..], v) == next;
      if q[0] == path[0] {
        ChainHolds(h, n + 1, path[1..], v, q[1..]);
        assert q == [q[0]] + q[1..] && path == [path[0]] + path[1..];
      } else {
        assert Field(h, n, q[0]) == Nil;
      }
    }
  }

  /** A path that agrees with p on all slots p reads arrives at the value written there. */
  lemma {:induction false} WalkToTarget(h: Heap, h': Heap, t: nat, p: Path, q: Path, v: Value)
    requires p != [] && t < |h| && Closed(h)
    requires var r := Reads(h, t, p); |q| >= |r| && q[..|r|] == p[..|r|] && Target(h, t, p) !in r[..|r| - 1]
    requires Writes(h, h', Target(h, t, p), v)
    ensures Lookup(h', Table(t), q) == Lookup(h', v, q[|Reads(h, t, p)|..])
    decreases |p|
  {
    var r := Reads(h, t, p);
    assert q[0] == q[..|r|][0] == p[..|r|][0] == p[0];
    WritesOneField(h, h', Target(h, t, p), v, t, p[0]);
    if |r| > 1 {
      TargetStep(h, t, p);
      var next := Field(h, t, p[0]).id;
      var r' := Reads(h, next, p[1..]);
      assert r[0] in r[..|r| - 1];
      assert r[..|r| - 1] == [r[0]] + r'[..|r'| - 1];
      assert q[1..][..|r'|] == q[..|r|][1..] && p[1..][..|r'|] == p[..|r|][1..];
      WalkToTarget(h, h', next, p[1..], q[1..], v);
      assert q[1..][|r'|..] == q[|r|..];
    }
  }

  /** A path that does not run in a circle reads the same slots after the write, and perhaps more. */
  lemma {:induction false} StillReads(h: Heap, h': Heap, t: nat, p: Path, v: Value)
    requires p != [] && t < |h| && Closed(h)
    requires var r := Reads(h, t, p); Target(h, t, p) !in r[..|r| - 1]
    requires Writes(h, h', Target(h, t, p), v)
    ensures Reads(h, t, p) <= Reads(h', t, p)
    decreases |p|
  {
    var r := Reads(h, t, p);
    WritesOneField(h, h', Target(h, t, p), v, t, p[0]);
    if |r| > 1 {
      TargetStep(h, t, p);
      var next := Field(h, t, p[0]).id;
      var r' := Reads(h, next, p[1..]);
      assert r[0] in r[..|r| - 1];
      assert r[..|r| - 1] == [r[0]] + r'[..|r'| - 1];
      StillReads(h, h', next, p[1..], v);
      assert Reads(h', t, p) == [r[0]] + Reads(h', next, p[1..]);
    }
  }

  // ---------------------------------------------------------------------
  // The path set assigns along
  // ---------------------------------------------------------------------

  /** It reads what the path as written reads. */
  lemma {:induction false} KeptReads(heap: Heap, t: nat, path: Path)
    requires path != []
    ensures Reads(heap, t, Kept(heap, t, path)) == Reads(heap, t, path)
    decreases |path|
  {
    var next := Field(heap, t, path[0]);
    assert Kept(heap, t, path)[0] == path[0];
    if |path| > 1 && next.Table? {
      KeptReads(heap, next.id, path[1..]);
      assert Kept(heap, t, path)[1..] == Kept(heap, next.id, path[1..]);
    }
  }

  lemma {:induction false} KeptIsAll(heap: Heap, t: nat, path: Path)
    requires path != [] && !TrailingDot(path)
    ensures Kept(heap, t, path) == path
    decreases |path|
  {
    var next := Field(heap, t, path[0]);
    if |path| > 1 && next.Table? { KeptIsAll(heap, next.id, path[1..]); }
  }

  /** With a dot at the end, it is the whole path exactly when what is before the dot names a table. */
  lemma {:induction false} KeptExactly(heap: Heap, t: nat, path: Path)
    requires TrailingDot(path)
    ensures var front := path[..|path| - 1];
            Kept(heap, t, path) == if Lookup(heap, Table(t), front).Table? then path else front
    decreases |path|
  {
    var front := path[..|path| - 1];
    var next := Field(heap, t, path[0]);
    assert front[1..] == path[1..][..|path| - 2];
    if next.Table? {
      if |path| > 2 {
        KeptExactly(heap, next.id, path[1..]);
      } else {
        assert front[1..] == [] && Kept(heap, next.id, path[1..]) == [""];
      }
    } else {
      assert Lookup(heap, next, front[1..]) == if |path| == 2 then next else Nil;
      assert Trimmed(path[1..]) == front[1..];
    }
  }
}
