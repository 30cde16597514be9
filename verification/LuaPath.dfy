/**
  Dotted paths of include/fr-lua/lua-wrapper.hpp as strings: path_root and
  path_leaf. A path is a list of names, joined by dots; a name has no dot and
  may be empty.
  */
module LuaPath {
  predicate IsName(s: string) { '.' !in s }

  predicate AreNames(names: seq<string>) { forall i :: 0 <= i < |names| ==> IsName(names[i]) }

  /** A single dot stands at the very start: path_leaf takes this for no dot at all. */
  predicate LeadingDot(names: seq<string>) { |names| == 2 && names[0] == "" }

  /** The path ends with a dot. */
  predicate TrailingDot(names: seq<string>) { |names| > 1 && names[|names| - 1] == "" }

  /** The names the functions that use path_leaf look for. */
  function Addressed(names: seq<string>): (r: seq<string>)
    ensures names != [] ==> r != []
    ensures !LeadingDot(names) ==> r == names
  {
    if LeadingDot(names) then [Joined(names)] else names
  }

  function Joined(names: seq<string>): string {
    if names == [] then ""
    else if |names| == 1 then names[0]
    else names[0] + ("." + Joined(names[1..]))
  }

  /** Length of the first component: up to the first dot, or everything. */
  function RootLength(path: string): (n: nat)
    ensures n <= |path|
  {
    if path == "" || path[0] == '.' then 0 else 1 + RootLength(path[1..])
  }

  /** Position of the last dot, or 0 when there is none. */
  function LeafStart(path: string): (n: nat)
    ensures n <= |path|
  {
    if path == "" then 0
    else if path[|path| - 1] == '.' then |path| - 1
    else LeafStart(path[..|path| - 1])
  }

  /** path_root. */
  method PathRoot(path: string) returns (n: nat)
    ensures n == RootLength(path)
  {
    n := 0;
    while n < |path| && path[n] != '.'
      invariant n <= |path| && RootLength(path) == n + RootLength(path[n..])
    {
      assert path[n..][1..] == path[n + 1..];
      n := n + 1;
    }
  }

  /** path_leaf. */
  method PathLeaf(path: string) returns (n: nat)
    ensures n == LeafStart(path)
  {
    var p := 0;
    n := 0;
    while p < |path|
      invariant p <= |path| && n == LeafStart(path[..p])
    {
      assert path[..p + 1][..p] == path[..p];
      if path[p] == '.' {
        n := p;
      }
      p := p + 1;
    }
    assert path[..p] == path;
  }

  lemma {:induction false} RootOfName(name: string, tail: string)
    requires '.' !in name && (tail == "" || tail[0] == '.')
    ensures RootLength(name + tail) == |name|
  {
    if name != "" {
      RootOfName(name[1..], tail);
      assert (name + tail)[1..] == name[1..] + tail;
    } else {
      assert name + tail == tail;
    }
  }

  lemma {:induction false} LeafOfName(front: string, name: string)
    requires '.' !in name && (front == "" || front[|front| - 1] == '.')
    ensures LeafStart(front + name) == if front == "" then 0 else |front| - 1
  {
    var s := front + name;
    if name != "" {
      assert s[|s| - 1] == name[|name| - 1];
      assert s[..|s| - 1] == front + name[..|name| - 1];
      LeafOfName(front, name[..|name| - 1]);
    } else {
      assert s == front;
    }
  }

  /** path_root cuts off the first name; a dot and the rest of the names follow. */
  lemma RootOfJoined(names: seq<string>)
    requires names != [] && AreNames(names)
    ensures var path, n := Joined(names), |names[0]|;
            RootLength(path) == n && path[..n] == names[0] &&
            (|names| == 1 ==> path[n..] == "") &&
            (|names| > 1 ==> n < |path| && path[n..] == "." + Joined(names[1..]) && path[n + 1..] == Joined(names[1..]))
  {
    if |names| == 1 {
      assert names[0] + "" == names[0];
      RootOfName(names[0], "");
    } else {
      RootOfName(names[0], "." + Joined(names[1..]));
    }
  }

  lemma {:induction false} JoinedSnoc(names: seq<string>, leaf: string)
    requires names != []
    ensures Joined(names + [leaf]) == Joined(names) + "." + leaf
  {
    var all := names + [leaf];
    if |names| == 1 {
      assert all[1..] == [leaf];
    } else {
      assert all[1..] == names[1..] + [leaf];
      JoinedSnoc(names[1..], leaf);
    }
  }

  lemma CutAtLastDot(front: string, name: string)
    requires '.' !in name
    ensures var path, n := front + "." + name, |front|;
            LeafStart(path) == n < |path| && path[..n] == front && path[n + 1..] == name
  {
    LeafOfName(front + ".", name);
  }

  /** path_leaf finds the dot before the last name, unless it leads. */
  lemma LeafOfJoined(names: seq<string>)
    requires names != [] && AreNames(names)
    ensures var path, k, n := Joined(names), |names| - 1, LeafStart(Joined(names));
            if k == 0 || LeadingDot(names) then n == 0
            else 0 < n < |path| && path[..n] == Joined(names[..k]) && path[n + 1..] == names[k]
  {
    var k := |names| - 1;
    if k == 0 {
      assert "" + names[0] == names[0];
      LeafOfName("", names[0]);
    } else {
      assert names == names[..k] + [names[k]];
      JoinedSnoc(names[..k], names[k]);
      CutAtLastDot(Joined(names[..k]), names[k]);
    }
  }

  lemma {:induction false} NoDotInRoot(path: string)
    ensures var n := RootLength(path); '.' !in path[..n] && (n < |path| ==> path[n] == '.')
  {
    if path != "" && path[0] != '.' {
      NoDotInRoot(path[1..]);
      var n := RootLength(path);
      assert path[..n] == [path[0]] + path[1..][..n - 1];
    }
  }

  /** Every string is a path: it joins some names. */
  lemma {:induction false} EveryPathIsJoined(path: string) returns (names: seq<string>)
    ensures names != [] && AreNames(names) && Joined(names) == path
    decreases |path|
  {
    NoDotInRoot(path);
    var n := RootLength(path);
    if n == |path| {
      assert path[..n] == path;
      names := [path];
    } else {
      var rest := EveryPathIsJoined(path[n + 1..]);
      names := [path[..n]] + rest;
      assert names[1..] == rest;
      assert path == path[..n] + ("." + path[n + 1..]);
    }
  }
}
