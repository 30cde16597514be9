/**
  The prefix_iterator_shifter of include/utils/prefix-trie.h: greedy and
  non-greedy matching of the pushed keys at the head of an input, and
  shift_while on top of it. Iterators are indices into the input.
  */
module Tokenizer {
  import opened PrefixTrie

  type Entries<V> = map<seq<int>, V>

  // ---------------------------------------------------------------------
  // What a match is
  // ---------------------------------------------------------------------

  /** Length of the longest key among input[..1], .., input[..n], or 0. */
  function LongestMatch<V>(c: Entries<V>, input: seq<int>, n: nat): (m: nat)
    requires n <= |input|
    ensures m <= n && (m > 0 ==> input[..m] in c)
    ensures forall i :: m < i <= n ==> input[..i] !in c
  {
    if n == 0 then 0 else if input[..n] in c then n else LongestMatch(c, input, n - 1)
  }

  /** Length of the shortest key among input[..n], .., input, or 0. */
  function ShortestMatch<V>(c: Entries<V>, input: seq<int>, n: nat): (m: nat)
    requires 1 <= n <= |input| + 1
    ensures m > 0 ==> n <= m <= |input| && input[..m] in c
    ensures forall i :: n <= i < (if m > 0 then m else |input| + 1) ==> input[..i] !in c
    decreases |input| - n
  {
    if n > |input| then 0 else if input[..n] in c then n else ShortestMatch(c, input, n + 1)
  }

  function Match<V>(c: Entries<V>, input: seq<int>, greedy: bool): nat {
    if greedy then LongestMatch(c, input, |input|) else ShortestMatch(c, input, 1)
  }

  /**
    The match is a pushed key that prefixes the input and no other such key is
    longer (greedy) or shorter (non-greedy); there is none iff no non-empty key
    prefixes the input.
    */
  lemma MatchIsExtreme<V>(c: Entries<V>, input: seq<int>, greedy: bool, key: seq<int>)
    requires key in c && key != [] && key <= input
    ensures var m := Match(c, input, greedy);
            0 < m <= |input| && input[..m] in c && (if greedy then |key| <= m else m <= |key|)
  {
    assert key == input[..|key|];
  }

  /** There is no match iff no non-empty key prefixes the input. */
  lemma NoMatch<V>(c: Entries<V>, input: seq<int>, greedy: bool)
    ensures Match(c, input, greedy) == 0 <==> forall key :: key in c && key != [] ==> !(key <= input)
  {
    var m := Match(c, input, greedy);
    if m == 0 {
      forall key | key in c && key != [] ensures !(key <= input) {
        if key <= input { MatchIsExtreme(c, input, greedy, key); }
      }
    } else {
      assert input[..m] != [] && input[..m] <= input;
    }
  }

  datatype Piece<V> = Piece(text: seq<int>, info: V)

  /** The head of a non-empty input: the match, or a single symbol under the info of the root. */
  function Head<V>(c: Entries<V>, rootInfo: V, input: seq<int>, greedy: bool): (p: Piece<V>)
    requires input != []
    ensures p.text != [] && p.text <= input
  {
    var m := Match(c, input, greedy);
    if m == 0 then Piece(input[..1], rootInfo) else Piece(input[..m], c[input[..m]])
  }

  /** A pushed key at the head of the input, and no other one there is longer (greedy) or shorter (non-greedy). */
  ghost predicate IsExtreme<V>(c: Entries<V>, input: seq<int>, greedy: bool, key: seq<int>) {
    key in c && key != [] && key <= input &&
    forall other :: other in c && other != [] && other <= input ==>
      if greedy then |other| <= |key| else |key| <= |other|
  }

  ghost predicate NoKey<V>(c: Entries<V>, input: seq<int>) {
    forall key :: key in c && key != [] ==> !(key <= input)
  }

  /** The head is the one such key, under its info; when no key prefixes the input, a symbol under the root's. */
  lemma HeadIsExtreme<V>(c: Entries<V>, rootInfo: V, input: seq<int>, greedy: bool)
    requires input != []
    ensures var p := Head(c, rootInfo, input, greedy);
            (forall key :: IsExtreme(c, input, greedy, key) ==> p.text == key && p.info == c[key]) &&
            (NoKey(c, input) ==> p.text == input[..1] && p.info == rootInfo) &&
            (NoKey(c, input) || IsExtreme(c, input, greedy, p.text))
  {
    var m := Match(c, input, greedy);
    NoMatch(c, input, greedy);
    if m > 0 {
      forall other | other in c && other != [] && other <= input
        ensures if greedy then |other| <= m else m <= |other|
      {
        MatchIsExtreme(c, input, greedy, other);
      }
      forall key | IsExtreme(c, input, greedy, key) ensures key == input[..m] {
        assert input[..m] <= input && |input[..m]| == m;
        assert key == input[..|key|];
      }
    }
  }

  // ---------------------------------------------------------------------
  // next_info
  // ---------------------------------------------------------------------

  /** When no node carries input[..j + 1], no key longer than j prefixes the input. */
  lemma NoLongerKey<V>(t: PrefixTrie<V>, input: seq<int>, j: nat)
    requires t.Valid() && j < |input| && WayOf(input[..j + 1]) !in t.nodes
    ensures forall i :: j < i <= |input| ==> input[..i] !in t.contents
  {
    forall i | j < i <= |input| ensures input[..i] !in t.contents {
      assert input[..i][..j + 1] == input[..j + 1];
      if WayOf(input[..i]) in t.nodes { t.PrefixClosed(input[..i], j + 1); }
    }
  }

  lemma LongestUnchanged<V>(c: Entries<V>, input: seq<int>, j: nat, n: nat)
    requires j <= n <= |input| && forall i :: j < i <= n ==> input[..i] !in c
    ensures LongestMatch(c, input, n) == LongestMatch(c, input, j)
    decreases n
  {
    if j < n { LongestUnchanged(c, input, j, n - 1); }
  }

  /** When no key is longer than j, the match is the longest key up to j; when rest[..j] is the first key, it is j. */
  lemma MatchFound<V>(c: Entries<V>, input: seq<int>, j: nat, greedy: bool)
    requires j <= |input|
    requires forall i :: j < i <= |input| ==> input[..i] !in c
    requires !greedy ==> LongestMatch(c, input, j) == 0
    ensures Match(c, input, greedy) == LongestMatch(c, input, j)
  {
    LongestUnchanged(c, input, j, |input|);
  }

  lemma FirstFound<V>(c: Entries<V>, input: seq<int>, j: nat)
    requires j < |input| && LongestMatch(c, input, j) == 0 && input[..j + 1] in c
    ensures Match(c, input, false) == j + 1
  {
  }

  /** The node and the length for a match of m symbols; without one, the root and a single symbol. */
  ghost predicate IsNodeOf<V>(t: PrefixTrie<V>, rest: seq<int>, m: nat, node: Node<V>, length: nat)
    requires m <= |rest|
    reads t
  {
    if m == 0 then node == t.root && length == 1
    else length == m && WayOf(rest[..m]) in t.nodes && node == t.nodes[WayOf(rest[..m])]
  }

  /** What the loop knows after j symbols: the node there, and the node of the longest key so far. */
  ghost predicate Walked<V>(t: PrefixTrie<V>, rest: seq<int>, j: nat, greedy: bool,
                            next: Node<V>, last: Node<V>, length: nat)
    requires j <= |rest|
    reads t
  {
    WayOf(rest[..j]) in t.nodes && t.nodes[WayOf(rest[..j])] == next &&
    IsNodeOf(t, rest, LongestMatch(t.contents, rest, j), last, length) &&
    (!greedy ==> LongestMatch(t.contents, rest, j) == 0)
  }

  /** The loop may stop: the match is known. */
  ghost predicate Matched<V>(t: PrefixTrie<V>, rest: seq<int>, greedy: bool, last: Node<V>, length: nat)
    reads t
  {
    IsNodeOf(t, rest, Match(t.contents, rest, greedy), last, length)
  }

  lemma WalkedOn<V>(t: PrefixTrie<V>, rest: seq<int>, j: nat, greedy: bool, next: Node<V>, last: Node<V>, length: nat,
                    child: Node<V>)
    requires j < |rest| && Walked(t, rest, j, greedy, next, last, length)
    requires WayOf(rest[..j + 1]) in t.nodes && t.nodes[WayOf(rest[..j + 1])] == child
    ensures rest[..j + 1] !in t.contents ==> Walked(t, rest, j + 1, greedy, child, last, length)
    ensures rest[..j + 1] in t.contents ==>
              if greedy then Walked(t, rest, j + 1, greedy, child, child, j + 1)
              else Matched(t, rest, greedy, child, j + 1)
  {
    if rest[..j + 1] in t.contents && !greedy { FirstFound(t.contents, rest, j); }
  }

  lemma WalkedAll<V>(t: PrefixTrie<V>, rest: seq<int>, j: nat, greedy: bool, next: Node<V>, last: Node<V>, length: nat)
    requires j <= |rest| && Walked(t, rest, j, greedy, next, last, length)
    requires forall i :: j < i <= |rest| ==> rest[..i] !in t.contents
    ensures Matched(t, rest, greedy, last, length)
  {
    MatchFound(t.contents, rest, j, greedy);
  }

  /** The body of next_info's loop: one symbol further, until the match is known. */
  method Advance<V>(t: PrefixTrie<V>, rest: seq<int>, j: nat, greedy: bool, next: Node<V>, last: Node<V>, length: nat)
    returns (done: bool, next': Node<V>, last': Node<V>, length': nat)
    requires t.Valid() && j < |rest| && Walked(t, rest, j, greedy, next, last, length)
    ensures if done then Matched(t, rest, greedy, last', length')
            else Walked(t, rest, j + 1, greedy, next', last', length')
  {
    next', last', length' := next, last, length;
    WayStep(rest, j);
    var child := t.EqualElement(next, rest[j], WayOf(rest[..j]));
    if child == null {
      NoLongerKey(t, rest, j);
      WalkedAll(t, rest, j, greedy, next, last, length);
      done := true;
    } else {
      WalkedOn(t, rest, j, greedy, next, last, length, child);
      next' := child;
      done := false;
      if child.terminal {
        last', length' := child, j + 1;
        done := !greedy;
      }
    }
  }

  /** The loop of next_info over the range [b, e): the node of the match and how far the iterator moves. */
  method Walk<V>(t: PrefixTrie<V>, range: seq<int>, greedy: bool) returns (last: Node<V>, bb: nat)
    requires t.Valid() && range != []
    ensures Matched(t, range, greedy, last, bb)
  {
    var next: Node<V> := t.root;
    last := t.root;
    bb := 1;
    var j := 0;
    WayEnds(range);
    while j != |range|
      invariant 0 <= j <= |range|
      invariant Walked(t, range, j, greedy, next, last, bb)
      decreases |range| - j
    {
      var done;
      done, next, last, bb := Advance(t, range, j, greedy, next, last, bb);
      if done {
        return;
      }
      j := j + 1;
    }
    WalkedAll(t, range, j, greedy, next, last, bb);
  }

  /** next_info: the info of the head of input[begin..], and the iterator moved past it. */
  method NextInfo<V>(t: PrefixTrie<V>, input: seq<int>, begin: nat, greedy: bool) returns (info: V, b: nat)
    requires t.Valid() && begin <= |input|
    ensures begin == |input| ==> b == begin && info == t.root.info
    ensures begin < |input| ==>
              var p := Head(t.contents, t.root.info, input[begin..], greedy);
              b == begin + |p.text| && info == p.info
    ensures forall key :: begin < |input| && IsExtreme(t.contents, input[begin..], greedy, key) ==>
              b == begin + |key| && info == t.contents[key]
    ensures begin < |input| && NoKey(t.contents, input[begin..]) ==> b == begin + 1 && info == t.root.info
  {
    if begin == |input| {
      return t.root.info, begin;
    }
    var last, bb := Walk(t, input[begin..], greedy);
    b := begin + bb;
    info := last.info;
    HeadIsExtreme(t.contents, t.root.info, input[begin..], greedy);
  }

  /** next_info_no_shift: the same info, for an iterator that stays where it is. */
  method NextInfoNoShift<V>(t: PrefixTrie<V>, input: seq<int>, b: nat, greedy: bool) returns (info: V)
    requires t.Valid() && b <= |input|
    ensures info == if b == |input| then t.root.info else Head(t.contents, t.root.info, input[b..], greedy).info
    ensures forall key :: b < |input| && IsExtreme(t.contents, input[b..], greedy, key) ==> info == t.contents[key]
    ensures b == |input| || NoKey(t.contents, input[b..]) ==> info == t.root.info
  {
    var moved;
    info, moved := NextInfo(t, input, b, greedy);
  }

  // ---------------------------------------------------------------------
  // Splitting a whole input
  // ---------------------------------------------------------------------

  /** What repeated calls of next_info take off the input. */
  function Pieces<V>(c: Entries<V>, rootInfo: V, input: seq<int>, greedy: bool): seq<Piece<V>>
    decreases |input|
  {
    if input == [] then []
    else
      var p := Head(c, rootInfo, input, greedy);
      [p] + Pieces(c, rootInfo, input[|p.text|..], greedy)
  }

  function Joined<V>(ps: seq<Piece<V>>): seq<int> {
    if ps == [] then [] else ps[0].text + Joined(ps[1..])
  }

  /** Each piece is what next_info takes off what is left at that point. */
  ghost predicate IsSplit<V>(c: Entries<V>, rootInfo: V, ps: seq<Piece<V>>, greedy: bool) {
    forall i :: 0 <= i < |ps| ==>
      ps[i].text != [] && ps[i] == Head(c, rootInfo, Text(ps, i), greedy)
  }

  /** The text from piece i on, kept non-empty so that a head exists. */
  function Text<V>(ps: seq<Piece<V>>, i: nat): (t: seq<int>)
    requires i < |ps| && ps[i].text != []
    ensures t != []
  {
    ps[i].text + Joined(ps[i + 1..])
  }

  /** The pieces are non-empty, concatenate to the input, and each is the head of what is left. */
  lemma {:induction false} PiecesSplit<V>(c: Entries<V>, rootInfo: V, input: seq<int>, greedy: bool)
    ensures Joined(Pieces(c, rootInfo, input, greedy)) == input
    ensures IsSplit(c, rootInfo, Pieces(c, rootInfo, input, greedy), greedy)
    decreases |input|
  {
    if input != [] {
      var p := Head(c, rootInfo, input, greedy);
      var rest := input[|p.text|..];
      PiecesSplit(c, rootInfo, rest, greedy);
      var tail := Pieces(c, rootInfo, rest, greedy);
      assert p.text + Joined(tail) == input;
      SplitCons(c, rootInfo, p, tail, greedy);
      assert Pieces(c, rootInfo, input, greedy) == [p] + tail;
    }
  }

  lemma SplitCons<V>(c: Entries<V>, rootInfo: V, p: Piece<V>, tail: seq<Piece<V>>, greedy: bool)
    requires IsSplit(c, rootInfo, tail, greedy)
    requires p.text != [] && p == Head(c, rootInfo, p.text + Joined(tail), greedy)
    ensures IsSplit(c, rootInfo, [p] + tail, greedy) && Joined([p] + tail) == p.text + Joined(tail)
  {
    var ps := [p] + tail;
    assert ps[1..] == tail;
    forall i | 0 <= i < |ps| ensures ps[i].text != [] && ps[i] == Head(c, rootInfo, Text(ps, i), greedy) {
      if i > 0 { assert ps[i] == tail[i - 1] && ps[i + 1..] == tail[i..]; }
    }
  }

  /** No other split takes the head of what is left every time. */
  lemma {:induction false} SplitIsUnique<V>(c: Entries<V>, rootInfo: V, ps: seq<Piece<V>>, greedy: bool)
    requires IsSplit(c, rootInfo, ps, greedy)
    ensures ps == Pieces(c, rootInfo, Joined(ps), greedy)
  {
    if ps != [] {
      var tail := ps[1..];
      forall i | 0 <= i < |tail| ensures tail[i].text != [] && tail[i] == Head(c, rootInfo, Text(tail, i), greedy) {
        assert tail[i] == ps[i + 1] && tail[i + 1..] == ps[i + 2..];
      }
      SplitIsUnique(c, rootInfo, tail, greedy);
      assert Text(ps, 0) == Joined(ps);
      assert Joined(ps)[|ps[0].text|..] == Joined(tail);
    }
  }

  // ---------------------------------------------------------------------
  // shift_while
  // ---------------------------------------------------------------------

  /** Index of the first piece whose info fails the test, or the number of pieces. */
  function FirstFailing<V>(ps: seq<Piece<V>>, test: V -> bool): (k: nat)
    ensures k <= |ps|
    ensures forall i :: 0 <= i < k ==> test(ps[i].info)
    ensures k < |ps| ==> !test(ps[k].info)
  {
    if ps == [] || !test(ps[0].info) then 0 else 1 + FirstFailing(ps[1..], test)
  }

  /** Where shift_while leaves an iterator at the start of the input, and the info it returns. */
  datatype Shifted<V> = Shifted(info: V, length: int)

  function Shift<V>(c: Entries<V>, rootInfo: V, input: seq<int>, test: V -> bool): Shifted<V>
    decreases |input|
  {
    if input == [] then Shifted(rootInfo, 0)
    else
      var p := Head(c, rootInfo, input, true);
      if !test(p.info) then Shifted(p.info, 0)
      else
        var s := Shift(c, rootInfo, input[|p.text|..], test);
        s.(length := |p.text| + s.length)
  }

  /** The start of the first piece whose info fails the test, and that info; or the end, and the info of the root. */
  function Stop<V>(ps: seq<Piece<V>>, rootInfo: V, test: V -> bool): Shifted<V> {
    var k := FirstFailing(ps, test);
    Shifted(if k < |ps| then ps[k].info else rootInfo, |Joined(ps[..k])|)
  }

  /** The iterator stops there, and that info is returned. */
  lemma {:induction false} ShiftStopsAtFirstFailing<V>(c: Entries<V>, rootInfo: V, input: seq<int>, test: V -> bool)
    ensures Shift(c, rootInfo, input, test) == Stop(Pieces(c, rootInfo, input, true), rootInfo, test)
    decreases |input|
  {
    if input != [] {
      var p := Head(c, rootInfo, input, true);
      var rest := input[|p.text|..];
      StopCons(p, Pieces(c, rootInfo, rest, true), rootInfo, test);
      if test(p.info) { ShiftStopsAtFirstFailing(c, rootInfo, rest, test); }
    }
  }

  lemma StopCons<V>(p: Piece<V>, tail: seq<Piece<V>>, rootInfo: V, test: V -> bool)
    ensures var s := Stop(tail, rootInfo, test);
            Stop([p] + tail, rootInfo, test) ==
            if test(p.info) then Shifted(s.info, |p.text| + s.length) else Shifted(p.info, 0)
  {
    FirstFailingCons(p, tail, test);
    var k := FirstFailing(tail, test);
    assert ([p] + tail)[..0] == [];
  }

  lemma FirstFailingCons<V>(p: Piece<V>, tail: seq<Piece<V>>, test: V -> bool)
    ensures var k := FirstFailing(tail, test);
            if test(p.info) then
              FirstFailing([p] + tail, test) == k + 1 &&
              Joined(([p] + tail)[..k + 1]) == p.text + Joined(tail[..k])
            else FirstFailing([p] + tail, test) == 0
  {
    var ps, k := [p] + tail, FirstFailing(tail, test);
    assert ps[1..] == tail;
    assert ps[..k + 1][1..] == tail[..k];
  }

  /** One turn of shift_while's loop that does not stop. */
  lemma ShiftOn<V>(c: Entries<V>, rootInfo: V, input: seq<int>, bb: nat, b: nat, test: V -> bool)
    requires bb < |input|
    requires var p := Head(c, rootInfo, input[bb..], true); b == bb + |p.text| && test(p.info)
    ensures b <= |input|
    ensures var s := Shift(c, rootInfo, input[b..], test);
            Shift(c, rootInfo, input[bb..], test) == Shifted(s.info, b - bb + s.length)
  {
    assert input[bb..][b - bb..] == input[b..];
  }

  /** shift_while. */
  method ShiftWhile<V>(t: PrefixTrie<V>, input: seq<int>, begin: nat, test: V -> bool) returns (info: V, b: nat)
    requires t.Valid() && begin <= |input|
    ensures Shifted(info, b - begin) == Shift(t.contents, t.root.info, input[begin..], test)
    ensures begin <= b <= |input| && if b == |input| then info == t.root.info else !test(info)
    ensures forall key :: b < |input| && IsExtreme(t.contents, input[b..], true, key) ==> info == t.contents[key]
    ensures b < |input| && NoKey(t.contents, input[b..]) ==> info == t.root.info
  {
    b := begin;
    while b != |input|
      invariant begin <= b <= |input|
      invariant var s := Shift(t.contents, t.root.info, input[b..], test);
                Shift(t.contents, t.root.info, input[begin..], test) == Shifted(s.info, b - begin + s.length)
      decreases |input| - b
    {
      var bb := b;
      var tmp;
      tmp, b := NextInfo(t, input, b, true);
      if !test(tmp) {
        b := bb;
        return tmp, b;
      }
      ShiftOn(t.contents, t.root.info, input, bb, b, test);
    }
    info := t.root.info;
  }

  method ShiftWhileEqual<V(==)>(t: PrefixTrie<V>, input: seq<int>, begin: nat, inf: V) returns (info: V, b: nat)
    requires t.Valid() && begin <= |input|
    ensures Shifted(info, b - begin) == Shift(t.contents, t.root.info, input[begin..], i => inf == i)
  {
    info, b := ShiftWhile(t, input, begin, i => inf == i);
  }

  method ShiftWhileNotEqual<V(==)>(t: PrefixTrie<V>, input: seq<int>, begin: nat, inf: V) returns (info: V, b: nat)
    requires t.Valid() && begin <= |input|
    ensures Shifted(info, b - begin) == Shift(t.contents, t.root.info, input[begin..], i => inf != i)
  {
    info, b := ShiftWhile(t, input, begin, i => inf != i);
  }
}
