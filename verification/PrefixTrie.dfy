/**
  include/utils/prefix-trie.h: the trie. Nodes live on the heap and hold their
  children in a BinMap. The ghost map `nodes` names every node by the string
  that leads to it, so the shape invariant says that the nodes form a tree.
  */
module PrefixTrie {
  import opened BinMap

  class Node<V> {
    var terminal: bool
    var info: V
    const children: BinMap<Node?<V>>

    constructor (inf: V)
      ensures !terminal && info == inf
      ensures fresh(children) && children.Valid() && children.contents == map[]
    {
      terminal, info := false, inf;
      children := new BinMap();
    }
  }

  /** A string as the way from the root: the way so far and the last symbol. */
  datatype Way = Root | Step(back: Way, sym: int)

  function WayOf(s: seq<int>): Way {
    if s == [] then Root else Step(WayOf(s[..|s| - 1]), s[|s| - 1])
  }

  lemma {:induction false} WayInjective(s: seq<int>, t: seq<int>)
    requires WayOf(s) == WayOf(t)
    ensures s == t
  {
    if s != [] {
      WayInjective(s[..|s| - 1], t[..|t| - 1]);
      assert s == s[..|s| - 1] + [s[|s| - 1]] && t == t[..|t| - 1] + [t[|t| - 1]];
    }
  }

  lemma WayStep(key: seq<int>, i: nat)
    requires i < |key|
    ensures WayOf(key[..i + 1]) == Step(WayOf(key[..i]), key[i])
  {
    assert key[..i + 1][..i] == key[..i];
  }

  lemma WayEnds(key: seq<int>)
    ensures WayOf(key[..0]) == Root && WayOf(key[..|key|]) == WayOf(key)
  {
    assert key[..|key|] == key;
  }

  lemma WaysDiffer(key: seq<int>)
    ensures forall s :: WayOf(s) == WayOf(key) ==> s == key
  {
    forall s | WayOf(s) == WayOf(key) ensures s == key { WayInjective(s, key); }
  }

  class PrefixTrie<V> {
    const root: Node<V>
    const default: V
    /** Every node under the one way that leads to it, and every child container under the way of its node. */
    ghost var nodes: map<Way, Node<V>>
    ghost var owner: map<BinMap<Node?<V>>, Way>
    /** The keys pushed so far, with their infos. */
    ghost var contents: map<seq<int>, V>
    ghost var Repr: set<object>

    /** The children of the node of w are exactly the nodes one step further. */
    ghost predicate NodeOk(w: Way)
      requires w in nodes
      reads this`nodes, nodes[w].children
    {
      var c := nodes[w].children.contents;
      forall k {:trigger Step(w, k)} :: (k in c <==> Step(w, k) in nodes) && (k in c ==> c[k] == nodes[Step(w, k)])
    }

    /** Every node is reached by exactly one way, and so is every node on that way. */
    ghost predicate IsTree()
      reads this`nodes, this`owner, this`Repr, Repr
    {
      this !in Repr && (forall c :: c in owner ==> c in Repr) &&
      Root in nodes && nodes[Root] == root &&
      (forall w :: w in nodes ==> nodes[w].children in owner && owner[nodes[w].children] == w) &&
      (forall w, k :: Step(w, k) in nodes ==> w in nodes) &&
      (forall c {:trigger c.Valid()} :: c in owner ==> c.Valid()) &&
      (forall w :: w in nodes ==> NodeOk(w))
    }

    /** The abstract map is what the terminal nodes hold. */
    ghost predicate Holds()
      reads this`nodes, this`contents, this`Repr, Repr
    {
      (forall w :: w in nodes ==> nodes[w] in Repr) &&
      (forall s :: s in contents <==> WayOf(s) in nodes && nodes[WayOf(s)].terminal) &&
      (forall s :: s in contents ==> contents[s] == nodes[WayOf(s)].info)
    }

    ghost predicate Valid()
      reads this, Repr
    {
      IsTree() && Holds()
    }

    /** No node is reached by two strings. */
    lemma OneStringEach(s: seq<int>, t: seq<int>)
      requires IsTree() && WayOf(s) in nodes && WayOf(t) in nodes
      ensures nodes[WayOf(s)] == nodes[WayOf(t)] <==> s == t
    {
      WaysDiffer(s);
    }

    /** Every prefix of a string that leads to a node leads to one too. */
    lemma {:induction false} PrefixClosed(s: seq<int>, n: nat)
      requires IsTree() && WayOf(s) in nodes && n <= |s|
      ensures WayOf(s[..n]) in nodes
      decreases |s| - n
    {
      if n < |s| {
        PrefixClosed(s, n + 1);
        WayStep(s, n);
      } else {
        WayEnds(s);
      }
    }

    constructor (inf: V, default: V)
      ensures Valid() && fresh(Repr)
      ensures contents == map[] && root.info == inf && this.default == default
    {
      root := new Node(inf);
      this.default := default;
      contents := map[];
      new;
      nodes, owner, Repr := map[Root := root], map[root.children := Root], {root, root.children};
    }

    /** equal_element: the child of a node along a symbol. */
    method EqualElement(next: Node<V>, sym: int, ghost w: Way) returns (child: Node?<V>)
      requires Valid() && w in nodes && nodes[w] == next
      ensures child != null <==> Step(w, sym) in nodes
      ensures child != null ==> child == nodes[Step(w, sym)]
    {
      assert NodeOk(w);
      var f := next.children.Find(sym);
      child := if f == |next.children.data| then null else next.children.data[f].second;
    }

    /** A new node is made and hung under another one. */
    method Attach(next: Node<V>, sym: int, ghost w: Way) returns (child: Node<V>)
      requires IsTree() && w in nodes && nodes[w] == next && Step(w, sym) !in nodes
      modifies this`nodes, this`Repr, this`owner, next.children
      ensures IsTree()
      ensures fresh(child) && fresh(child.children) && Repr == old(Repr) + {child, child.children}
      ensures nodes == old(nodes)[Step(w, sym) := child] && !child.terminal
    {
      child := new Node(default);
      Hang(next, sym, w, child);
    }

    /** The node enters the children of the other one, and the ghost maps. */
    method Hang(next: Node<V>, sym: int, ghost w: Way, child: Node<V>)
      requires IsTree() && w in nodes && nodes[w] == next && Step(w, sym) !in nodes
      requires child.children !in owner && child.children.Valid() && child.children.contents == map[]
      modifies this`nodes, this`Repr, this`owner, next.children
      ensures IsTree()
      ensures Repr == old(Repr) + {child, child.children}
      ensures nodes == old(nodes)[Step(w, sym) := child]
    {
      next.children.Insert(sym, child, null);
      nodes := nodes[Step(w, sym) := child];
      Repr := Repr + {child, child.children};
      owner := owner[child.children := Step(w, sym)];
      LinkKeepsTree(sym, w, child);
    }

    twostate lemma LinkKeepsTree(new sym: int, new w: Way, new child: Node<V>)
      requires old(IsTree()) && w in old(nodes) && Step(w, sym) !in old(nodes)
      requires nodes == old(nodes)[Step(w, sym) := child]
      requires Repr == old(Repr) + {child, child.children} && this !in Repr
      requires owner == old(owner)[child.children := Step(w, sym)] && child.children !in old(owner)
      requires child.children.contents == map[]
      requires forall c {:trigger c.Valid()} :: c in owner ==> c.Valid()
      requires var c := nodes[w].children; c.contents == old(c.contents)[sym := child]
      requires forall c :: c in old(owner) && c != nodes[w].children ==> c.contents == old(c.contents)
      ensures IsTree()
    {
      forall v | v in nodes ensures NodeOk(v) {
        assert v != Step(w, sym) ==> old(NodeOk(v));
      }
    }

    twostate lemma LinkKeepsContents(new added: Way, new child: Node<V>)
      requires old(Holds()) && added !in old(nodes) && !child.terminal
      requires nodes == old(nodes)[added := child] && contents == old(contents)
      requires Repr == old(Repr) + {child, child.children}
      requires forall w :: w in old(nodes) ==> var n := nodes[w]; n.terminal == old(n.terminal) && n.info == old(n.info)
      ensures Holds()
    {
    }

    /** The missing child of a node is created and linked; the abstract map stays. */
    method Link(next: Node<V>, sym: int, ghost w: Way) returns (child: Node<V>)
      requires Valid() && w in nodes && nodes[w] == next && Step(w, sym) !in nodes
      modifies this`nodes, this`Repr, this`owner, next.children
      ensures Valid()
      ensures fresh(Repr - old(Repr)) && old(Repr) <= Repr
      ensures nodes == old(nodes)[Step(w, sym) := child]
    {
      child := Attach(next, sym, w);
      LinkKeepsContents(Step(w, sym), child);
    }

    /** One turn of push's loop: the child along a symbol, made when it is missing. */
    method Descend(next: Node<V>, sym: int, ghost w: Way) returns (child: Node<V>)
      requires Valid() && w in nodes && nodes[w] == next
      modifies this`nodes, this`Repr, this`owner, Repr
      ensures Valid()
      ensures root.info == old(root.info)
      ensures fresh(Repr - old(Repr)) && old(Repr) <= Repr
      ensures Step(w, sym) in nodes && nodes[Step(w, sym)] == child
    {
      var tmp := EqualElement(next, sym, w);
      if tmp == null {
        tmp := Link(next, sym, w);
      }
      child := tmp;
    }

    /** The loop of push: makes the path of the key where it is missing. */
    method MakePath(key: seq<int>) returns (next: Node<V>)
      requires Valid()
      modifies this`nodes, this`Repr, this`owner, Repr
      ensures Valid()
      ensures root.info == old(root.info)
      ensures fresh(Repr - old(Repr)) && old(Repr) <= Repr
      ensures WayOf(key) in nodes && nodes[WayOf(key)] == next
    {
      next := root;
      var i := 0;
      ghost var w := Root;
      WayEnds(key);
      while i != |key|
        invariant 0 <= i <= |key| && w == WayOf(key[..i])
        invariant Valid()
        invariant root.info == old(root.info)
        invariant fresh(Repr - old(Repr)) && old(Repr) <= Repr
        invariant w in nodes && nodes[w] == next
        decreases |key| - i
      {
        WayStep(key, i);
        next := Descend(next, key[i], w);
        w := Step(w, key[i]);
        i := i + 1;
      }
    }

    /** The end of push: the last node of the path takes the info. */
    method SetInfo(next: Node<V>, info: V, ghost key: seq<int>)
      requires Valid() && WayOf(key) in nodes && nodes[WayOf(key)] == next
      modifies this`contents, next
      ensures Valid() && contents == old(contents)[key := info]
      ensures root.info == if key == [] then info else old(root.info)
    {
      WaysDiffer(key);
      next.info := info;
      next.terminal := true;
      contents := contents[key := info];
    }

    /** push: the key is mapped to the info, and every other key keeps what it had. */
    method Push(key: seq<int>, info: V)
      requires Valid()
      modifies this`nodes, this`contents, this`Repr, this`owner, Repr
      ensures Valid()
      ensures fresh(Repr - old(Repr)) && old(Repr) <= Repr
      ensures contents == old(contents)[key := info]
      ensures root.info == if key == [] then info else old(root.info)
    {
      var next := MakePath(key);
      SetInfo(next, info, key);
    }
  }
}
