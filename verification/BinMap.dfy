/**
  include/utils/bin-map.h: a map kept as a vector of pairs, strictly sorted by
  key. First the vector operations on values and what they mean as a map,
  then the class whose methods perform them in place.
  */
module BinMap {
  import opened Common
  import BinSearch

  datatype Pair<V> = Pair(first: int, second: V)

  function Keys<V>(data: seq<Pair<V>>): (k: seq<int>)
    ensures |k| == |data| && forall i :: 0 <= i < |data| ==> k[i] == data[i].first
  {
    seq(|data|, i requires 0 <= i < |data| => data[i].first)
  }

  predicate StrictlySorted<V>(data: seq<Pair<V>>) {
    forall i, j :: 0 <= i < j < |data| ==> data[i].first < data[j].first
  }

  /** The finite map a vector stands for. */
  function Meaning<V>(data: seq<Pair<V>>): map<int, V> {
    if data == [] then map[]
    else Meaning(data[..|data| - 1])[data[|data| - 1].first := data[|data| - 1].second]
  }

  predicate HasKey<V>(data: seq<Pair<V>>, k: int) {
    exists i :: 0 <= i < |data| && data[i].first == k
  }

  /** m holds exactly the pairs a linear scan of the vector meets. */
  ghost predicate Scans<V>(data: seq<Pair<V>>, m: map<int, V>) {
    (forall i :: 0 <= i < |data| ==> data[i].first in m && m[data[i].first] == data[i].second) &&
    (forall k {:trigger HasKey(data, k)} :: k in m ==> HasKey(data, k))
  }

  /** A sorted vector agrees with a linear scan. */
  lemma {:induction false} MeaningScans<V>(data: seq<Pair<V>>)
    requires StrictlySorted(data)
    ensures Scans(data, Meaning(data))
  {
    if data != [] {
      var n := |data| - 1;
      MeaningScans(data[..n]);
      PutScans(data[..n], n, data[n].first, data[n].second, Meaning(data[..n]));
      assert Put(data[..n], n, data[n].first, data[n].second) == data;
    }
  }

  lemma ScansAgree<V>(data: seq<Pair<V>>, m: map<int, V>, m': map<int, V>)
    requires Scans(data, m) && Scans(data, m')
    ensures m == m'
  {
    forall k | k in m ensures k in m' && m[k] == m'[k] {
      assert HasKey(data, k);
      var i :| 0 <= i < |data| && data[i].first == k;
    }
    forall k | k in m' ensures k in m {
      assert HasKey(data, k);
      var i :| 0 <= i < |data| && data[i].first == k;
    }
  }

  /** Position of the first key not less than k. */
  predicate IsLowerBound<V>(data: seq<Pair<V>>, k: int, f: nat) {
    f <= |data| &&
    (forall i :: 0 <= i < f ==> data[i].first < k) &&
    (forall i :: f <= i < |data| ==> k <= data[i].first)
  }

  predicate At<V>(data: seq<Pair<V>>, f: nat, k: int) { f < |data| && data[f].first == k }

  function SlotOf<V>(data: seq<Pair<V>>, k: int): (f: nat)
    requires StrictlySorted(data)
    ensures IsLowerBound(data, k, f)
  {
    if data == [] || data[|data| - 1].first < k then |data| else SlotOf(data[..|data| - 1], k)
  }

  lemma SlotUnique<V>(data: seq<Pair<V>>, k: int, f: nat)
    requires StrictlySorted(data)
    requires IsLowerBound(data, k, f) || At(data, f, k)
    ensures f == SlotOf(data, k)
  {
    var lesser := KeyAt(data, Min(f, SlotOf(data, k)));
  }

  function KeyAt<V>(data: seq<Pair<V>>, i: nat): int { if i < |data| then data[i].first else 0 }

  lemma SlotFinds<V>(data: seq<Pair<V>>, k: int)
    requires StrictlySorted(data)
    ensures At(data, SlotOf(data, k), k) <==> k in Meaning(data)
    ensures At(data, SlotOf(data, k), k) ==> data[SlotOf(data, k)] == Pair(k, Meaning(data)[k])
  {
    MeaningScans(data);
    if k in Meaning(data) {
      assert HasKey(data, k);
      var i :| 0 <= i < |data| && data[i].first == k;
      SlotUnique(data, k, i);
    }
  }

  /** The pair of key k written at its place f: over the old pair of k, or between its neighbours. */
  function Put<V>(data: seq<Pair<V>>, f: nat, k: int, v: V): seq<Pair<V>>
    requires f <= |data|
  {
    if At(data, f, k) then data[f := Pair(k, v)] else data[..f] + [Pair(k, v)] + data[f..]
  }

  function Inserted<V>(data: seq<Pair<V>>, k: int, v: V): seq<Pair<V>>
    requires StrictlySorted(data)
  {
    Put(data, SlotOf(data, k), k, v)
  }

  /** operator[] as an update of the vector: a fresh slot holds `default`. */
  function Touched<V>(data: seq<Pair<V>>, k: int, default: V): seq<Pair<V>>
    requires StrictlySorted(data)
  {
    if At(data, SlotOf(data, k), k) then data else Inserted(data, k, default)
  }

  function Erased<V>(data: seq<Pair<V>>, k: int): seq<Pair<V>>
    requires StrictlySorted(data)
  {
    var f := SlotOf(data, k);
    if At(data, f, k) then data[..f] + data[f + 1..] else data
  }

  lemma PutSorted<V>(data: seq<Pair<V>>, f: nat, k: int, v: V)
    requires StrictlySorted(data) && IsLowerBound(data, k, f)
    ensures StrictlySorted(Put(data, f, k, v))
  {
  }

  lemma PutScans<V>(data: seq<Pair<V>>, f: nat, k: int, v: V, m: map<int, V>)
    requires StrictlySorted(data) && IsLowerBound(data, k, f) && Scans(data, m)
    ensures Scans(Put(data, f, k, v), m[k := v])
  {
    var out := Put(data, f, k, v);
    var d := |out| - |data|;
    assert out[f] == Pair(k, v);
    forall i | 0 <= i < |out| && i != f
      ensures out[i].first in m && out[i].first != k && m[out[i].first] == out[i].second
    {
      assert out[i] == data[if i < f then i else i - d];
    }
    forall x | x in m && x != k ensures HasKey(out, x) {
      assert HasKey(data, x);
      var i :| 0 <= i < |data| && data[i].first == x;
      assert out[if i < f then i else i + d] == data[i];
    }
  }

  lemma InsertedRefines<V>(data: seq<Pair<V>>, k: int, v: V)
    requires StrictlySorted(data)
    ensures StrictlySorted(Inserted(data, k, v))
    ensures Meaning(Inserted(data, k, v)) == Meaning(data)[k := v]
  {
    var f := SlotOf(data, k);
    MeaningScans(data);
    PutSorted(data, f, k, v);
    PutScans(data, f, k, v, Meaning(data));
    MeaningScans(Inserted(data, k, v));
    ScansAgree(Inserted(data, k, v), Meaning(Inserted(data, k, v)), Meaning(data)[k := v]);
  }

  lemma TouchedRefines<V>(data: seq<Pair<V>>, k: int, default: V)
    requires StrictlySorted(data)
    ensures StrictlySorted(Touched(data, k, default))
    ensures Meaning(Touched(data, k, default)) ==
            if k in Meaning(data) then Meaning(data) else Meaning(data)[k := default]
  {
    SlotFinds(data, k);
    InsertedRefines(data, k, default);
  }

  lemma EraseScans<V>(data: seq<Pair<V>>, f: nat, k: int, m: map<int, V>)
    requires StrictlySorted(data) && At(data, f, k) && Scans(data, m)
    ensures StrictlySorted(data[..f] + data[f + 1..]) && Scans(data[..f] + data[f + 1..], m - {k})
  {
    var out := data[..f] + data[f + 1..];
    forall i | 0 <= i < |out|
      ensures out[i].first in m && out[i].first != k && m[out[i].first] == out[i].second
    {
      assert out[i] == data[if i < f then i else i + 1];
    }
    forall x | x in m && x != k ensures HasKey(out, x) {
      assert HasKey(data, x);
      var i :| 0 <= i < |data| && data[i].first == x;
      assert out[if i < f then i else i - 1] == data[i];
    }
  }

  lemma ErasedRefines<V>(data: seq<Pair<V>>, k: int)
    requires StrictlySorted(data)
    ensures StrictlySorted(Erased(data, k))
    ensures Meaning(Erased(data, k)) == Meaning(data) - {k}
  {
    SlotFinds(data, k);
    if k in Meaning(data) {
      MeaningScans(data);
      EraseScans(data, SlotOf(data, k), k, Meaning(data));
      MeaningScans(Erased(data, k));
      ScansAgree(Erased(data, k), Meaning(Erased(data, k)), Meaning(data) - {k});
    }
  }

  // ---------------------------------------------------------------------
  // Any sequence of operations
  // ---------------------------------------------------------------------

  datatype Op<V> = Access(k: int) | Insert(k: int, v: V) | Erase(k: int)

  function Run<V>(ops: seq<Op<V>>, default: V): (data: seq<Pair<V>>)
    ensures StrictlySorted(data)
  {
    if ops == [] then []
    else
      var data := Run(ops[..|ops| - 1], default);
      match ops[|ops| - 1]
      case Access(k) => TouchedRefines(data, k, default); Touched(data, k, default)
      case Insert(k, v) => InsertedRefines(data, k, v); Inserted(data, k, v)
      case Erase(k) => ErasedRefines(data, k); Erased(data, k)
  }

  function RunMap<V>(ops: seq<Op<V>>, default: V): map<int, V> {
    if ops == [] then map[]
    else
      var m := RunMap(ops[..|ops| - 1], default);
      match ops[|ops| - 1]
      case Access(k) => if k in m then m else m[k := default]
      case Insert(k, v) => m[k := v]
      case Erase(k) => m - {k}
  }

  /** Every run of operations refines the same run on a finite map. */
  lemma {:induction false} RunRefines<V>(ops: seq<Op<V>>, default: V)
    ensures Meaning(Run(ops, default)) == RunMap(ops, default)
  {
    if ops != [] {
      var init := ops[..|ops| - 1];
      RunRefines(init, default);
      var data := Run(init, default);
      match ops[|ops| - 1]
      case Access(k) => TouchedRefines(data, k, default);
      case Insert(k, v) => InsertedRefines(data, k, v);
      case Erase(k) => ErasedRefines(data, k);
    }
  }

  lemma {:induction false} MeaningBelow<V>(data: seq<Pair<V>>, k: int)
    requires forall i :: 0 <= i < |data| ==> data[i].first < k
    ensures forall x :: x in Meaning(data) ==> x < k
  {
    if data != [] { MeaningBelow(data[..|data| - 1], k); }
  }

  lemma UpdateUndone<V>(m: map<int, V>, k: int, v: V)
    requires k !in m
    ensures m[k := v] - {k} == m
  {
  }

  /** The last pair is that of the greatest key, and the rest stands for the rest. */
  lemma LastPair<V>(data: seq<Pair<V>>) returns (init: seq<Pair<V>>, last: Pair<V>)
    requires StrictlySorted(data) && data != []
    ensures data == init + [last] && StrictlySorted(init)
    ensures last.first in Meaning(data) && Meaning(data)[last.first] == last.second
    ensures forall x :: x in Meaning(data) ==> x <= last.first
    ensures Meaning(init) == Meaning(data) - {last.first}
  {
    init, last := data[..|data| - 1], data[|data| - 1];
    MeaningBelow(init, last.first);
    UpdateUndone(Meaning(init), last.first, last.second);
  }

  /** The vector is determined by the map it stands for. */
  lemma {:induction false} MeaningIsInjective<V>(a: seq<Pair<V>>, b: seq<Pair<V>>)
    requires StrictlySorted(a) && StrictlySorted(b) && Meaning(a) == Meaning(b)
    ensures a == b
    decreases |a|
  {
    if a == [] {
      if b != [] { var b', y := LastPair(b); }
    } else if b == [] {
      var a', x := LastPair(a);
    } else {
      var a', x := LastPair(a);
      var b', y := LastPair(b);
      assert x == y;
      MeaningIsInjective(a', b');
    }
  }

  /** So the order in which the same map was built leaves no trace. */
  lemma SameMapSameVector<V>(ops: seq<Op<V>>, ops': seq<Op<V>>, default: V)
    requires RunMap(ops, default) == RunMap(ops', default)
    ensures Run(ops, default) == Run(ops', default)
  {
    RunRefines(ops, default);
    RunRefines(ops', default);
    MeaningIsInjective(Run(ops, default), Run(ops', default));
  }

  // ---------------------------------------------------------------------
  // The container
  // ---------------------------------------------------------------------

  class BinMap<V> {
    var data: seq<Pair<V>>
    /** The map the vector stands for. */
    ghost var contents: map<int, V>

    ghost predicate Valid() reads this { StrictlySorted(data) && contents == Meaning(data) }

    constructor ()
      ensures Valid() && data == [] && contents == map[]
    {
      data, contents := [], map[];
    }

    /** search / find: the slot of the key, or the end. */
    method Find(k: int) returns (f: nat)
      requires Valid()
      ensures f <= |data|
      ensures f < |data| <==> k in contents
      ensures f < |data| ==> data[f] == Pair(k, contents[k]) && f == SlotOf(data, k)
    {
      assert Keys(data)[0..|data|] == Keys(data);
      f := BinSearch.Search(Keys(data), 0, |data|, k);
      SlotFinds(data, k);
      ghost var g := SlotOf(data, k);
      assert g < |data| ==> Keys(data)[g] == data[g].first && Keys(data)[g] in Keys(data);
      if f < |data| {
        SlotUnique(data, k, f);
      }
    }

    /** operator[]: the slot of the key, made with the default value when absent. */
    method Access(k: int, default: V) returns (f: nat)
      requires Valid()
      modifies this
      ensures Valid()
      ensures data == Touched(old(data), k, default) && f == SlotOf(old(data), k) && At(data, f, k)
      ensures contents == if k in old(contents) then old(contents) else old(contents)[k := default]
    {
      TouchedRefines(data, k, default);
      assert Keys(data)[0..|data|] == Keys(data);
      f := BinSearch.LowerBound(Keys(data), 0, |data|, k);
      SlotUnique(data, k, f);
      if f == |data| || data[f].first != k {
        data := data[..f] + [Pair(k, default)] + data[f..];
      }
      contents := Meaning(data);
    }

    /** insert: the value of an existing key is overwritten. */
    method Insert(k: int, v: V, default: V)
      requires Valid()
      modifies this
      ensures Valid()
      ensures data == Inserted(old(data), k, v)
      ensures contents == old(contents)[k := v]
    {
      InsertedRefines(data, k, v);
      var f := Access(k, default);
      data := data[f := Pair(k, v)];
      contents := Meaning(data);
    }

    method Erase(k: int)
      requires Valid()
      modifies this
      ensures Valid()
      ensures data == Erased(old(data), k)
      ensures contents == old(contents) - {k}
    {
      ErasedRefines(data, k);
      SlotFinds(data, k);
      var f := Find(k);
      if f != |data| {
        data := data[..f] + data[f + 1..];
      }
      contents := Meaning(data);
    }
  }
}
