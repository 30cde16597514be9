/**
  The path functions of the state class in include/fr-lua/lua-wrapper.hpp, step
  by step on the Lua stack: create_or_push, set_to_stack, set, get_table, get,
  exists, set_value and create_thread. Every method takes the names its path
  spells as a ghost argument.
  */
module LuaState {
  import opened Common
  import opened LuaPath
  import opened LuaHeap
  import opened LuaTheorems

  datatype Error = BadType

  /** The values get_table leaves on the stack: v, then the tables on the way; nothing unless all are tables. */
  function TablesFrom(heap: Heap, v: Value, rest: Path): Option<seq<Value>>
    decreases |rest|
  {
    if !v.Table? then None
    else if rest == [] then Some([v])
    else
      match TablesFrom(heap, Field(heap, v.id, rest[0]), rest[1..])
      case None => None
      case Some(ts) => Some([v] + ts)
  }

  /** The tables found so far, followed by those still to be found. */
  function Prefixed(below: seq<Value>, r: Option<seq<Value>>): Option<seq<Value>> {
    match r case None => None case Some(ts) => Some(below + ts)
  }

  function Tables(heap: Heap, names: Path): Option<seq<Value>>
    requires names != []
  {
    TablesFrom(heap, Field(heap, 0, names[0]), names[1..])
  }

  /** The tables are those on the way to what the path leads to. */
  lemma {:induction false} TablesLead(heap: Heap, v: Value, rest: Path)
    ensures var r := TablesFrom(heap, v, rest);
            r.Some? <==> Lookup(heap, v, rest).Table?
    ensures var r := TablesFrom(heap, v, rest);
            r.Some? ==> |r.value| == |rest| + 1 && r.value[|rest|] == Lookup(heap, v, rest) &&
                        forall i :: 0 <= i <= |rest| ==> r.value[i].Table?
    ensures Closed(heap) && Alive(heap, v) && TablesFrom(heap, v, rest).Some? ==>
              forall t :: t in TablesFrom(heap, v, rest).value ==> Alive(heap, t)
    decreases |rest|
  {
    if rest != [] && v.Table? { TablesLead(heap, Field(heap, v.id, rest[0]), rest[1..]); }
  }

  /** Reading a leaf is reading a field of the last table on the way. */
  lemma LeafOfTables(heap: Heap, names: Path)
    requires |names| > 1
    ensures var ts, k := Tables(heap, names[..|names| - 1]), |names| - 1;
            if ts.None? then Get(heap, names) == Nil
            else |ts.value| == k && ts.value[k - 1].Table? &&
                 Get(heap, names) == Field(heap, ts.value[k - 1].id, names[k]) &&
                 (Closed(heap) ==> forall t :: t in ts.value ==> Alive(heap, t))
  {
    var k := |names| - 1;
    var front, leaf := names[..k], names[k];
    TablesLead(heap, Field(heap, 0, front[0]), front[1..]);
    assert names == front + [leaf];
    LookupConcat(heap, Table(0), front, [leaf]);
    assert [leaf][1..] == [];
  }

  /** A path of one name leads to a global. */
  lemma GlobalOfName(heap: Heap, names: Path)
    requires |names| == 1
    ensures Joined(names) == names[0]
    ensures Get(heap, names) == Field(heap, 0, names[0])
  {
    var v := Field(heap, 0, names[0]);
    assert names[1..] == [] && Lookup(heap, v, names[1..]) == v;
  }

  /** What get hands out for the value a path leads to: nil gives T( ), another type throws. */
  function Fetched(v: Value, check: Value -> bool, default: Value): Result<Value, Error> {
    if v == Nil then Ok(default) else if check(v) then Ok(v) else Err(BadType)
  }

  /** A stack position: positive from the bottom, negative from the top. */
  predicate ValidIndex(stack: seq<Value>, idx: int) { 1 <= idx <= |stack| || 1 <= -idx <= |stack| }

  function At(stack: seq<Value>, idx: int): Value
    requires ValidIndex(stack, idx)
  {
    if idx > 0 then stack[idx - 1] else stack[|stack| + idx]
  }

  /** What set_value stores below the last table of the path; a number of the stack counts from after the pushes. */
  function Stored(h: Heap, names: Path, stack: seq<Value>, idx: int): Heap
    requires Closed(h) && |names| > 1 && ValidIndex(stack, idx)
  {
    var k := |names| - 1;
    match Tables(h, names[..k])
    case None => h
    case Some(ts) =>
      LeafOfTables(h, names);
      var t := ts[|ts| - 1].id;
      assert Alive(h, ts[|ts| - 1]);
      h[t := RawSet(h[t], names[k], At(stack + ts + [Str(names[k])], idx))]
  }

  /** set_value: the value is fetched by index after the tables and the name have been pushed. */
  function SetValueAt(heap: Heap, names: Path, stack: seq<Value>, idx: int): Heap
    requires Closed(heap) && names != [] && ValidIndex(stack, idx)
  {
    var h, sought := LuaHeap.Set(heap, names, Scalar(0)), Addressed(names);
    SetKeepsClosed(heap, names, Scalar(0));
    if |sought| == 1 then h[0 := RawSet(h[0], sought[0], At(stack, idx))]
    else Stored(h, names, stack, idx)
  }

  class LuaState {
    var heap: Heap
    var stack: seq<Value>

    ghost predicate Valid() reads this {
      Closed(heap) && forall i :: 0 <= i < |stack| ==> Alive(heap, stack[i])
    }

    constructor ()
      ensures Valid() && heap == [map[]] && stack == []
    {
      heap, stack := [map[]], [];
    }

    // -------------------------------------------------------------------
    // The Lua API
    // -------------------------------------------------------------------

    /** lua_getglobal. */
    method GetGlobal(name: string)
      requires Valid()
      modifies this`stack
      ensures Valid() && stack == old(stack) + [Field(heap, 0, name)]
    {
      stack := stack + [RawGet(heap[0], name)];
    }

    /** lua_setglobal. */
    method SetGlobal(name: string)
      requires Valid() && stack != []
      modifies this
      ensures Valid()
      ensures heap == old(heap)[0 := RawSet(old(heap)[0], name, old(stack)[|old(stack)| - 1])]
      ensures stack == old(stack)[..|old(stack)| - 1]
    {
      var top := stack[|stack| - 1];
      heap := heap[0 := RawSet(heap[0], name, top)];
      stack := stack[..|stack| - 1];
    }

    /** lua_getfield on the table at the top. */
    method GetField(name: string)
      requires Valid() && stack != [] && stack[|stack| - 1].Table?
      modifies this`stack
      ensures Valid() && stack == old(stack) + [Field(heap, old(stack)[|old(stack)| - 1].id, name)]
    {
      var t := stack[|stack| - 1].id;
      stack := stack + [RawGet(heap[t], name)];
    }

    /** lua_settable( L, -3 ): table, key and value are the top three. */
    method SetTable()
      requires Valid() && |stack| >= 3 && stack[|stack| - 3].Table? && stack[|stack| - 2].Str?
      modifies this
      ensures Valid()
      ensures var n := |old(stack)|;
              var t := old(stack)[n - 3].id;
              heap == old(heap)[t := RawSet(old(heap)[t], old(stack)[n - 2].s, old(stack)[n - 1])] &&
              stack == old(stack)[..n - 2]
    {
      var n := |stack|;
      var t := stack[n - 3].id;
      heap := heap[t := RawSet(heap[t], stack[n - 2].s, stack[n - 1])];
      stack := stack[..n - 2];
    }

    /** lua_newtable. */
    method NewTable()
      requires Valid()
      modifies this
      ensures Valid() && heap == old(heap) + [map[]] && stack == old(stack) + [Table(|old(heap)|)]
    {
      stack := stack + [Table(|heap|)];
      heap := heap + [map[]];
    }

    method Push(v: Value)
      requires Valid() && Alive(heap, v)
      modifies this`stack
      ensures Valid() && stack == old(stack) + [v]
    {
      stack := stack + [v];
    }

    method Pop(n: nat)
      requires Valid() && n <= |stack|
      modifies this`stack
      ensures Valid() && stack == old(stack)[..|old(stack)| - n]
    {
      stack := stack[..|stack| - n];
    }

    // -------------------------------------------------------------------
    // set
    // -------------------------------------------------------------------

    /** create_or_push: fresh tables for the path, ending in the value, as one value on the stack. */
    method CreateOrPush(path: string, v: Value, ghost names: Path)
      requires Valid() && Alive(heap, v) && AreNames(names) && path == Joined(names)
      modifies this
      ensures Valid()
      ensures heap == old(heap) + Chain(|old(heap)|, Trimmed(names), v)
      ensures stack == old(stack) + [ChainHead(|old(heap)|, Trimmed(names), v)]
      decreases |names|, 1
    {
      if path != "" {
        RootOfJoined(names);
        TrimmedStep(names);
        var n := PathRoot(path);
        NewTable();
        Push(Str(path[..n]));
        FillTable(if n == |path| then "" else path[n + 1..], v, names, old(heap), old(stack));
      } else {
        NothingToTrim(names);
        Push(v);
      }
    }

    /** The second half: the rest of the path becomes the field of the new table. */
    method FillTable(tail: string, v: Value, ghost names: Path, ghost before: Heap, ghost below: seq<Value>)
      requires Valid() && Alive(heap, v)
      requires AreNames(names) && Joined(names) != "" && tail == Joined(names[1..])
      requires heap == before + [map[]] && stack == below + [Table(|before|), Str(names[0])]
      modifies this
      ensures Valid()
      ensures heap == before + Chain(|before|, Trimmed(names), v) && stack == below + [Table(|before|)]
      decreases |names|, 0
    {
      TrimmedStep(names);
      CreateOrPush(tail, v, names[1..]);
      assert stack[..|stack| - 2] == below + [Table(|before|)];
      SetTable();
      ChainStep(before, Trimmed(names), v);
    }

    lemma TrimmedStep(names: Path)
      requires Joined(names) != ""
      ensures Trimmed(names) != [] && Trimmed(names)[0] == names[0] && Trimmed(names)[1..] == Trimmed(names[1..])
    {
    }

    lemma NothingToTrim(names: Path)
      requires Joined(names) == ""
      ensures Trimmed(names) == []
    {
    }

    lemma ChainStep(before: Heap, names: Path, v: Value)
      requires names != []
      ensures var n := |before|;
              var built := (before + [map[]]) + Chain(n + 1, names[1..], v);
              before + Chain(n, names, v) ==
              built[n := RawSet(map[], names[0], ChainHead(n + 1, names[1..], v))]
    {
      var n := |before|;
      var first := RawSet(map[], names[0], ChainHead(n + 1, names[1..], v));
      assert Chain(n, names, v) == [first] + Chain(n + 1, names[1..], v) by {
        assert |names| == 1 ==> names[1..] == [];
      }
      Replaced(before, map[], first, Chain(n + 1, names[1..], v));
    }

    lemma Replaced(a: Heap, x: Fields, y: Fields, rest: Heap)
      ensures a + ([y] + rest) == ((a + [x]) + rest)[|a| := y]
    {
    }

    /** The branch of set_to_stack without a table to go on in: the field takes a fresh chain. */
    method SetFresh(name: string, tail: string, v: Value, ghost names: Path)
      requires Valid() && Alive(heap, v)
      requires |names| > 1 && AreNames(names) && name == names[0] && tail == Joined(names[1..])
      requires stack != [] && stack[|stack| - 1].Table? && !Field(heap, stack[|stack| - 1].id, name).Table?
      modifies this
      ensures Valid() && stack == old(stack)
      ensures var t := old(stack)[|old(stack)| - 1].id; heap == SetIn(old(heap), t, Kept(old(heap), t, names), v)
    {
      ghost var t := stack[|stack| - 1].id;
      assert Kept(heap, t, names)[0] == name && Kept(heap, t, names)[1..] == Trimmed(names[1..]);
      Push(Str(name));
      CreateOrPush(tail, v, names[1..]);
      SetTable();
    }

    /** set_to_stack: assignment below the table at the top, which stays there. */
    method SetToStack(path: string, v: Value, ghost names: Path)
      requires Valid() && Alive(heap, v) && names != [] && AreNames(names) && path == Joined(names)
      requires stack != [] && stack[|stack| - 1].Table?
      modifies this
      ensures Valid() && stack == old(stack)
      ensures var t := old(stack)[|old(stack)| - 1].id; heap == SetIn(old(heap), t, Kept(old(heap), t, names), v)
      decreases |names|
    {
      RootOfJoined(names);
      var n := PathRoot(path);
      if n < |path| {
        GetField(path[..n]);
        if !stack[|stack| - 1].Table? {
          Pop(1);
          SetFresh(path[..n], path[n + 1..], v, names);
        } else {
          SetToStack(path[n + 1..], v, names[1..]);
          Pop(1);
        }
      } else {
        Push(Str(path[..n]));
        Push(v);
        SetTable();
      }
    }

    /** set. */
    method Set(path: string, v: Value, ghost names: Path)
      requires Valid() && Alive(heap, v) && names != [] && AreNames(names) && path == Joined(names)
      modifies this
      ensures Valid() && stack == old(stack)
      ensures heap == LuaHeap.Set(old(heap), names, v)
    {
      RootOfJoined(names);
      var n := PathRoot(path);
      ghost var before := heap;
      GetGlobal(path[..n]);
      if !stack[|stack| - 1].Table? {
        Pop(1);
        if n == |path| {
          Push(v);
        } else {
          CreateOrPush(path[n + 1..], v, names[1..]);
        }
      } else {
        if n == |path| {
          Pop(1);
          Push(v);
        } else {
          SetToStack(path[n + 1..], v, names[1..]);
        }
      }
      SetGlobal(path[..n]);
      SetFirst(before, Kept(before, 0, names), v);
    }

    /** The two ways set ends, as one assignment along the path. */
    lemma SetFirst(h: Heap, names: Path, v: Value)
      requires Closed(h) && names != []
      ensures var root := Field(h, 0, names[0]);
              SetAlong(h, names, v) ==
              if |names| > 1 && root.Table? then
                var h' := SetIn(h, root.id, names[1..], v);
                h'[0 := RawSet(h'[0], names[0], root)]
              else
                var h' := h + Chain(|h|, names[1..], v);
                h'[0 := RawSet(h[0], names[0], ChainHead(|h|, names[1..], v))]
    {
    }

    // -------------------------------------------------------------------
    // get
    // -------------------------------------------------------------------

    /** What get_table's loop has done: tables below the value at the top, and a path still to follow. */
    ghost predicate Walking(base: seq<Value>, below: seq<Value>, v: Value, rest: Path, tail: string)
      reads this
    {
      Valid() && AreNames(rest) && tail == (if rest == [] then "" else "." + Joined(rest)) &&
      stack == base + below + [v]
    }

    /** The start of get_table: the first name's global. */
    method FirstTable(path: string, ghost names: Path) returns (tail: string)
      requires Valid() && names != [] && AreNames(names) && path == Joined(names)
      modifies this`stack
      ensures Walking(old(stack), [], Field(heap, 0, names[0]), names[1..], tail)
    {
      RootOfJoined(names);
      var n := PathRoot(path);
      tail := path[n..];
      GetGlobal(path[..n]);
    }

    /** One turn of get_table's loop: past the dot, and down to the next value. */
    method NextTable(tail: string, ghost base: seq<Value>, ghost below: seq<Value>, ghost v: Value, ghost rest: Path)
      returns (tail': string)
      requires Walking(base, below, v, rest, tail) && rest != [] && v.Table?
      modifies this`stack
      ensures Walking(base, below + [v], Field(heap, v.id, rest[0]), rest[1..], tail')
    {
      RootOfJoined(rest);
      var t := tail[1..];
      assert t == Joined(rest);
      var r := PathRoot(t);
      GetField(t[..r]);
      tail' := t[r..];
    }

    /** get_table: pushes the tables on the way and returns their number, or nothing and 0. */
    method GetTable(path: string, ghost names: Path) returns (level: nat)
      requires Valid() && names != [] && AreNames(names) && path == Joined(names)
      modifies this`stack
      ensures Valid()
      ensures match Tables(heap, names)
              case None => level == 0 && stack == old(stack)
              case Some(ts) => level == |ts| > 0 && stack == old(stack) + ts
    {
      level := 1;
      ghost var v, rest := Field(heap, 0, names[0]), names[1..];
      ghost var below: seq<Value> := [];
      PrefixedNothing(Tables(heap, names));
      var tail := FirstTable(path, names);
      while true
        invariant Walking(old(stack), below, v, rest, tail) && level == |below| + 1
        invariant Tables(heap, names) == Prefixed(below, TablesFrom(heap, v, rest))
        decreases |rest|
      {
        if !stack[|stack| - 1].Table? {
          Pop(level);
          level := 0;
          return;
        }
        if tail == "" {
          break;
        }
        PrefixedOnce(heap, v, rest, below);
        level := level + 1;
        tail := NextTable(tail, old(stack), below, v, rest);
        below, v, rest := below + [v], Field(heap, v.id, rest[0]), rest[1..];
      }
    }

    lemma PrefixedNothing(r: Option<seq<Value>>)
      ensures Prefixed([], r) == r
    {
      if r.Some? { assert [] + r.value == r.value; }
    }

    lemma PrefixedOnce(h: Heap, top: Value, rest: Path, below: seq<Value>)
      requires top.Table? && rest != []
      ensures Prefixed(below, TablesFrom(h, top, rest)) ==
              Prefixed(below + [top], TablesFrom(h, Field(h, top.id, rest[0]), rest[1..]))
    {
      var r := TablesFrom(h, Field(h, top.id, rest[0]), rest[1..]);
      if r.Some? { assert below + ([top] + r.value) == (below + [top]) + r.value; }
    }

    /** get_field: reads a field of the table at the top and leaves the stack as it was. */
    method GetFieldAs(key: string, check: Value -> bool, default: Value) returns (r: Result<Value, Error>)
      requires Valid() && stack != [] && stack[|stack| - 1].Table?
      modifies this`stack
      ensures Valid() && stack == old(stack)
      ensures r == Fetched(Field(heap, stack[|stack| - 1].id, key), check, default)
    {
      GetField(key);
      r := Ok(default);
      var top := stack[|stack| - 1];
      if top != Nil {
        r := if check(top) then Ok(top) else Err(BadType);
      }
      Pop(1);
    }

    /**
      get<T>: the value the path leads to. The stack is left as it was, except
      that a missing global leaves its nil behind.
      */
    method GetAs(path: string, check: Value -> bool, default: Value, ghost names: Path)
      returns (r: Result<Value, Error>)
      requires Valid() && names != [] && AreNames(names) && path == Joined(names)
      modifies this`stack
      ensures Valid()
      ensures var v := Get(heap, Addressed(names));
              (v == Nil ==> r == Ok(default)) &&
              (v != Nil && check(v) ==> r == Ok(v)) &&
              (v != Nil && !check(v) ==> r == Err(BadType)) &&
              (r == Ok(default) <==> v == Nil || (v == default && check(v)))
      ensures stack == old(stack) + if |Addressed(names)| == 1 && Get(heap, Addressed(names)) == Nil then [Nil] else []
    {
      LeafOfJoined(names);
      var pl := PathLeaf(path);
      if pl == 0 {
        GlobalOfName(heap, Addressed(names));
        r := GetGlobalAs(path, check, default);
      } else {
        r := GetLeafAs(path, pl, check, default, names);
      }
    }

    method GetGlobalAs(name: string, check: Value -> bool, default: Value) returns (r: Result<Value, Error>)
      requires Valid()
      modifies this`stack
      ensures Valid() && r == Fetched(Field(heap, 0, name), check, default)
      ensures stack == old(stack) + if Field(heap, 0, name) == Nil then [Nil] else []
    {
      GetGlobal(name);
      var top := stack[|stack| - 1];
      r := Ok(default);
      if top != Nil {
        r := if check(top) then Ok(top) else Err(BadType);
        Pop(1);
      }
    }

    method GetLeafAs(path: string, pl: nat, check: Value -> bool, default: Value, ghost names: Path)
      returns (r: Result<Value, Error>)
      requires Valid() && |names| > 1 && AreNames(names)
      requires pl < |path| && path[..pl] == Joined(names[..|names| - 1]) && path[pl + 1..] == names[|names| - 1]
      modifies this`stack
      ensures Valid() && stack == old(stack) && r == Fetched(Get(heap, names), check, default)
    {
      LeafOfTables(heap, names);
      r := Ok(default);
      var level := GetTable(path[..pl], names[..|names| - 1]);
      if level != 0 {
        r := GetFieldAs(path[pl + 1..], check, default);
        Pop(level);
      }
    }

    /**
      exists: whether the path leads to a value. A missing global leaves its nil
      on the stack; a missing field of an existing table leaves the outermost
      table of the path there.
      */
    method Exists(path: string, ghost names: Path) returns (res: bool)
      requires Valid() && names != [] && AreNames(names) && path == Joined(names)
      modifies this`stack
      ensures Valid() && (res <==> Get(heap, Addressed(names)) != Nil)
      ensures stack == old(stack) +
                       if res then []
                       else if |Addressed(names)| == 1 then [Nil]
                       else match Tables(heap, names[..|names| - 1])
                            case None => []
                            case Some(_) => [Field(heap, 0, names[0])]
    {
      LeafOfJoined(names);
      var pl := PathLeaf(path);
      if pl == 0 {
        GlobalOfName(heap, Addressed(names));
        GetGlobal(path);
        res := false;
        if stack[|stack| - 1] != Nil {
          res := true;
          Pop(1);
        }
      } else {
        res := LeafExists(path, pl, names);
      }
    }

    method LeafExists(path: string, pl: nat, ghost names: Path) returns (res: bool)
      requires Valid() && |names| > 1 && AreNames(names)
      requires pl < |path| && path[..pl] == Joined(names[..|names| - 1]) && path[pl + 1..] == names[|names| - 1]
      modifies this`stack
      ensures Valid() && (res <==> Get(heap, names) != Nil)
      ensures stack == old(stack) +
                       if res || Tables(heap, names[..|names| - 1]).None? then [] else [Field(heap, 0, names[0])]
    {
      LeafOfTables(heap, names);
      FirstOfTables(heap, names[..|names| - 1]);
      res := false;
      var level := GetTable(path[..pl], names[..|names| - 1]);
      if level != 0 {
        ghost var ts := Tables(heap, names[..|names| - 1]).value;
        GetField(path[pl + 1..]);
        if stack[|stack| - 1] != Nil {
          res := true;
          Pop(1);
        }
        Pop(level);
        assert !res ==> stack == old(stack) + [ts[0]];
      }
    }

    lemma FirstOfTables(h: Heap, names: Path)
      requires names != []
      ensures var ts := Tables(h, names); ts.Some? ==> |ts.value| > 0 && ts.value[0] == Field(h, 0, names[0])
    {
    }

    // -------------------------------------------------------------------
    // set_value and create_thread
    // -------------------------------------------------------------------

    /** lua_pushvalue. */
    method PushIndex(idx: int)
      requires Valid() && ValidIndex(stack, idx)
      modifies this`stack
      ensures Valid() && stack == old(stack) + [At(old(stack), idx)]
    {
      stack := stack + [At(stack, idx)];
    }

    /** The part of set_value that stores under a dotted path. */
    method StoreLeaf(path: string, pl: nat, idx: int, ghost names: Path)
      requires Valid() && |names| > 1 && AreNames(names) && ValidIndex(stack, idx)
      requires pl < |path| && path[..pl] == Joined(names[..|names| - 1]) && path[pl + 1..] == names[|names| - 1]
      modifies this
      ensures Valid() && stack == old(stack) && heap == Stored(old(heap), names, stack, idx)
    {
      LeafOfTables(heap, names);
      ghost var ts := Tables(heap, names[..|names| - 1]);
      var level := GetTable(path[..pl], names[..|names| - 1]);
      if level != 0 {
        assert stack[|stack| - 1] == ts.value[level - 1];
        StoreField(path[pl + 1..], idx);
        Pop(level);
      }
    }

    /** The pushes and the assignment, with the table at the top; the index counts from after the name. */
    method StoreField(name: string, idx: int)
      requires Valid() && stack != [] && stack[|stack| - 1].Table? && ValidIndex(stack, idx)
      modifies this
      ensures Valid() && stack == old(stack)
      ensures var t := old(stack)[|old(stack)| - 1].id;
              heap == old(heap)[t := RawSet(old(heap)[t], name, At(old(stack) + [Str(name)], idx))]
    {
      GetField(name);
      Pop(1);
      Push(Str(name));
      PushIndex(idx);
      SetTable();
    }

    /** set_value. */
    method SetValue(path: string, idx: int, ghost names: Path)
      requires Valid() && names != [] && AreNames(names) && path == Joined(names) && ValidIndex(stack, idx)
      modifies this
      ensures Valid() && stack == old(stack)
      ensures heap == SetValueAt(old(heap), names, stack, idx)
    {
      Set(path, Scalar(0), names);
      LeafOfJoined(names);
      var pl := PathLeaf(path);
      if pl == 0 {
        PushIndex(idx);
        SetGlobal(path);
      } else {
        StoreLeaf(path, pl, idx, names);
      }
    }

    /** create_thread: the new thread is stored under the path, and off the stack again. */
    method CreateThread(path: string, thread: Value, ghost names: Path) returns (res: Value)
      requires Valid() && thread.Scalar? && names != [] && AreNames(names) && path == Joined(names)
      modifies this
      ensures Valid() && stack == old(stack) && res == thread
      ensures heap == SetValueAt(old(heap), names, stack + [thread], |stack| + 1)
      ensures (|Addressed(names)| > 1 ==> !Circular(old(heap), names) && Whole(old(heap), names)) ==>
                Get(heap, Addressed(names)) == thread
    {
      if |Addressed(names)| > 1 ==> !Circular(heap, names) && Whole(heap, names) {
        SetValueStores(heap, names, stack + [thread], |stack| + 1);
      }
      Push(thread);
      var index := |stack|;
      SetValue(path, index, names);
      Pop(1);
      res := thread;
    }
  }

  // ---------------------------------------------------------------------
  // What set_value stores
  // ---------------------------------------------------------------------

  lemma {:induction false} AllRead(heap: Heap, t: nat, path: Path)
    requires path != [] && Lookup(heap, Table(t), path) != Nil
    ensures |Reads(heap, t, path)| == |path|
    decreases |path|
  {
    if |path| > 1 { AllRead(heap, Field(heap, t, path[0]).id, path[1..]); }
  }

  /** The tables of a path that leads to a value, and the slot its last name is stored in. */
  lemma LastSlot(h: Heap, names: Path)
    requires Closed(h) && |names| > 1 && Get(h, names) != Nil
    ensures var k, front := |names| - 1, names[..|names| - 1];
            Tables(h, front).Some? && |Tables(h, front).value| == k &&
            (forall i :: 0 <= i < k ==> Tables(h, front).value[i].Table?) &&
            |Reads(h, 0, names)| == |names| &&
            Target(h, 0, names) == Slot(Tables(h, front).value[k - 1].id, names[k]) &&
            Tables(h, front).value[k - 1].id < |h|
  {
    var k := |names| - 1;
    AllRead(h, 0, names);
    ReadsAt(h, 0, names, k);
    LeafOfTables(h, names);
    var front := names[..k];
    TablesLead(h, Field(h, 0, front[0]), front[1..]);
    var last := Tables(h, front).value[k - 1];
    assert Get(h, front) == last;
    assert Alive(h, last);
  }

  /** A path that leads to a value other than a table is not circular. */
  lemma ValueIsNotCircular(h: Heap, path: Path)
    requires path != [] && Get(h, path) != Nil && !Get(h, path).Table?
    ensures !Circular(h, path)
  {
    var r := Reads(h, 0, path);
    AllRead(h, 0, path);
    LastReadIsValue(h, 0, path);
    if Circular(h, path) {
      var i :| 0 <= i < |r| - 1 && r[i] == Target(h, 0, path);
      TableOnTheWay(h, 0, path, i);
    }
  }

  lemma StoredShows(h: Heap, names: Path, stack: seq<Value>, idx: int)
    requires Closed(h) && |names| > 1 && Get(h, names) == Scalar(0) && ValidIndex(stack, idx)
    ensures var got, k := Get(Stored(h, names, stack, idx), names), |names|;
            if idx > 0 then got == At(stack, idx)
            else if idx == -1 then got == Str(names[k - 1])
            else if -idx <= k then got.Table?
            else got == At(stack, idx + k)
  {
    var k := |names| - 1;
    LastSlot(h, names);
    ValueIsNotCircular(h, names);
    var ts := Tables(h, names[..k]).value;
    PushedOver(stack, ts, names[k], idx);
    StoredReads(h, names, ts, At(stack + ts + [Str(names[k])], idx));
  }

  /** What an index finds after the tables and the name have been pushed. */
  lemma PushedOver(stack: seq<Value>, ts: seq<Value>, name: string, idx: int)
    requires ValidIndex(stack, idx) && forall i :: 0 <= i < |ts| ==> ts[i].Table?
    ensures var w, k := At(stack + ts + [Str(name)], idx), |ts| + 1;
            if idx > 0 then w == At(stack, idx)
            else if idx == -1 then w == Str(name)
            else if -idx <= k then w.Table?
            else w == At(stack, idx + k)
  {
  }

  /** A value stored in the last slot of the path is found there. */
  lemma StoredReads(h: Heap, names: Path, ts: seq<Value>, w: Value)
    requires Closed(h) && |names| > 1 && Get(h, names) != Nil && !Circular(h, names)
    requires Tables(h, names[..|names| - 1]) == Some(ts)
    ensures ts != [] && ts[|ts| - 1].Table? && ts[|ts| - 1].id < |h|
    ensures var t, k := ts[|ts| - 1].id, |names| - 1; Get(h[t := RawSet(h[t], names[k], w)], names) == w
  {
    var k := |names| - 1;
    LastSlot(h, names);
    var t := ts[k - 1].id;
    assert names[..k + 1] == names && names[k + 1..] == [];
    WalkToTarget(h, h[t := RawSet(h[t], names[k], w)], 0, names, names, w);
  }

  /**
    What get finds after set_value, on any heap. A global takes the wanted
    value. Under a dotted path so does a position from the bottom; for a
    position from the top it is what stands there after the tables of the path
    and the leaf name were pushed.
    */
  lemma SetValueStores(heap: Heap, names: Path, stack: seq<Value>, idx: int)
    requires Closed(heap) && names != [] && ValidIndex(stack, idx)
    requires |Addressed(names)| > 1 ==> !Circular(heap, names) && Whole(heap, names)
    ensures var got, k := Get(SetValueAt(heap, names, stack, idx), Addressed(names)), |Addressed(names)|;
            if idx > 0 || k == 1 then got == At(stack, idx)
            else if idx == -1 then got == Str(names[k - 1])
            else if -idx <= k then got.Table?
            else got == At(stack, idx + k)
  {
    SetKeepsClosed(heap, names, Scalar(0));
    if |Addressed(names)| > 1 {
      SetGetExactly(heap, names, Scalar(0));
      StoredShows(LuaHeap.Set(heap, names, Scalar(0)), names, stack, idx);
    } else {
      GlobalOfName(SetValueAt(heap, names, stack, idx), Addressed(names));
    }
  }

  /** And it leaves alone what a path finds that does not read the slots written. */
  lemma SetValueFrame(heap: Heap, names: Path, stack: seq<Value>, idx: int, q: Path)
    requires Closed(heap) && names != [] && ValidIndex(stack, idx) && q != []
    requires |Addressed(names)| > 1 ==> !Circular(heap, names) && Whole(heap, names)
    requires Target(heap, 0, names) !in Reads(heap, 0, q)
    requires |Addressed(names)| == 1 ==> Slot(0, Addressed(names)[0]) !in Reads(heap, 0, q)
    ensures Get(SetValueAt(heap, names, stack, idx), q) == Get(heap, q)
  {
    var h, h' := LuaHeap.Set(heap, names, Scalar(0)), SetValueAt(heap, names, stack, idx);
    SetKeepsClosed(heap, names, Scalar(0));
    SetFrame(heap, names, Scalar(0), q);
    if |Addressed(names)| == 1 {
      FrameOfWrite(h, h', Slot(0, Addressed(names)[0]), At(stack, idx), q);
    } else {
      SetGetExactly(heap, names, Scalar(0));
      LastSlot(h, names);
      TargetAfterSet(heap, names, Scalar(0));
      ReadsAlive(heap, 0, q);
      var k := |names| - 1;
      var ts := Tables(h, names[..k]).value;
      FrameOfWrite(h, h', Target(h, 0, names), At(stack + ts + [Str(names[k])], idx), q);
    }
  }

  /** With the default index, under any dotted path, the name of the leaf is stored in place of the value at the top. */
  lemma DefaultIndexStoresTheName(heap: Heap, names: Path, stack: seq<Value>)
    requires Closed(heap) && |names| > 1 && stack != [] && !LeadingDot(names)
    requires !Circular(heap, names) && Whole(heap, names)
    ensures Get(SetValueAt(heap, names, stack, -1), names) == Str(names[|names| - 1])
  {
    SetValueStores(heap, names, stack, -1);
  }

  // ---------------------------------------------------------------------
  // Dots at the ends of a path
  // ---------------------------------------------------------------------

  /**
    With a dot at the end, get gives back what was set if and only if the path
    before the dot already named a table and the path is not circular;
    otherwise, off circles, that path itself takes the value.
    */
  lemma TrailingDotExactly(heap: Heap, names: Path, v: Value)
    requires Closed(heap) && TrailingDot(names) && !v.Table? && v != Nil
    ensures var h, front := LuaHeap.Set(heap, names, v), Front(names);
            (Get(h, names) == v <==> Get(heap, front).Table? && !Circular(heap, names)) &&
            (!Get(heap, front).Table? && !Circular(heap, front) ==> Get(h, front) == v && Get(h, names) == Nil)
  {
    SetGetExactly(heap, names, v);
    KeptWhole(heap, names);
    if !Whole(heap, names) && !Circular(heap, names) { TrailingDotStoresAbove(heap, names, v); }
  }

  /** With a single dot, at the start, get looks for a global that set does not touch. */
  lemma LeadingDotMisses(heap: Heap, names: Path, v: Value)
    requires Closed(heap) && AreNames(names) && LeadingDot(names)
    ensures Get(LuaHeap.Set(heap, names, v), Addressed(names)) == Get(heap, Addressed(names))
  {
    var sought := Addressed(names)[0];
    assert names[1..] == [names[1]] && sought[0] == '.';
    assert IsName(names[1]);
    var target, n := Target(heap, 0, names), |Reads(heap, 0, names)| - 1;
    ReadsAt(heap, 0, names, n);
    assert target.key == names[n] && target.key != sought;
    assert Reads(heap, 0, Addressed(names)) == [Slot(0, sought)];
    SetFrame(heap, names, v, Addressed(names));
  }

  /** When get can find what set stores. */
  predicate Reaches(heap: Heap, names: Path, v: Value)
    requires Closed(heap) && names != [] && AreNames(names)
  {
    if LeadingDot(names) then Get(heap, Addressed(names)) == v
    else !Circular(heap, names) && (TrailingDot(names) ==> Get(heap, Front(names)).Table?)
  }

  /** For every path as a string and every heap: exactly when get gives back what set was given. */
  lemma PathSetGetExactly(heap: Heap, names: Path, v: Value)
    requires Closed(heap) && names != [] && AreNames(names) && !v.Table? && v != Nil
    ensures Get(LuaHeap.Set(heap, names, v), Addressed(names)) == v <==> Reaches(heap, names, v)
  {
    if LeadingDot(names) { LeadingDotMisses(heap, names, v); } else { SetGetExactly(heap, names, v); }
  }

  /**
    set, then get at the same path: the value comes back exactly when the
    condition holds and the value is of the wanted type; one of another type,
    if it is found, is refused.
    */
  method SetThenGet(l: LuaState, path: string, v: Value, check: Value -> bool, default: Value, ghost names: Path)
    returns (r: Result<Value, Error>)
    requires l.Valid() && names != [] && AreNames(names) && path == Joined(names) && !v.Table? && v != Nil
    modifies l
    ensures l.Valid()
    ensures var found := Reaches(old(l.heap), names, v);
            (found && check(v) ==> r == Ok(v) && l.stack == old(l.stack)) &&
            (found && !check(v) ==> r == Err(BadType) && l.stack == old(l.stack)) &&
            (default != v ==> (r == Ok(v) <==> found && check(v)))
  {
    PathSetGetExactly(l.heap, names, v);
    l.Set(path, v, names);
    r := l.GetAs(path, check, default, names);
  }
}
