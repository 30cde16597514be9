/**
  include/utils/bin-search.h: the three binary searches over a sorted range
  [begin, end) of keys. Iterators are indices.
  */
module BinSearch {
  predicate Sorted(a: seq<int>) {
    forall i, j :: 0 <= i < j < |a| ==> a[i] <= a[j]
  }

  /** bin_search: some position of the value, or end when there is none. */
  method Search(a: seq<int>, begin: nat, end: nat, value: int) returns (r: nat)
    requires begin <= end <= |a| && Sorted(a[begin..end])
    ensures begin <= r <= end
    ensures r < end <==> value in a[begin..end]
    ensures r < end ==> a[r] == value
  {
    ghost var range := a[begin..end];
    var b, e := begin, end;
    while b != e
      invariant begin <= b <= e <= end
      invariant forall i :: 0 <= i < b - begin ==> range[i] < value
      invariant forall i :: e - begin <= i < |range| ==> value < range[i]
      decreases e - b
    {
      var m := b + (e - b) / 2;
      assert a[m] == range[m - begin];
      if a[m] < value {
        b := m + 1;
      } else if value < a[m] {
        e := m;
      } else {
        return m;
      }
    }
    return end;
  }

  /** bin_lower_bound: the first position whose key is not less than the value. */
  method LowerBound(a: seq<int>, begin: nat, end: nat, value: int) returns (r: nat)
    requires begin <= end <= |a| && Sorted(a[begin..end])
    ensures begin <= r <= end
    ensures forall i :: begin <= i < r ==> a[i] < value
    ensures forall i :: r <= i < end ==> value <= a[i]
  {
    ghost var range := a[begin..end];
    var b, e := begin, end;
    while b != e
      invariant begin <= b <= e <= end
      invariant forall i :: 0 <= i < b - begin ==> range[i] < value
      invariant forall i :: e - begin <= i < |range| ==> value <= range[i]
      decreases e - b
    {
      var m := b + (e - b) / 2;
      assert a[m] == range[m - begin];
      if a[m] < value {
        b := m + 1;
      } else {
        e := m;
      }
    }
    assert forall i :: begin <= i < end ==> a[i] == range[i - begin];
    return b;
  }

  /** bin_upper_bound: the first position whose key is greater than the value. */
  method UpperBound(a: seq<int>, begin: nat, end: nat, value: int) returns (r: nat)
    requires begin <= end <= |a| && Sorted(a[begin..end])
    ensures begin <= r <= end
    ensures forall i :: begin <= i < r ==> a[i] <= value
    ensures forall i :: r <= i < end ==> value < a[i]
  {
    ghost var range := a[begin..end];
    var b, e := begin, end;
    while b != e
      invariant begin <= b <= e <= end
      invariant forall i :: 0 <= i < b - begin ==> range[i] <= value
      invariant forall i :: e - begin <= i < |range| ==> value < range[i]
      decreases e - b
    {
      var m := b + (e - b) / 2;
      assert a[m] == range[m - begin];
      if value < a[m] {
        e := m;
      } else {
        b := m + 1;
      }
    }
    assert forall i :: begin <= i < end ==> a[i] == range[i - begin];
    return b;
  }
}
