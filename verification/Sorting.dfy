// The standard library's sorts. Only what their documentation promises is
// stated: the slice ends up ordered and is a permutation of what it was. No
// order is promised between elements that compare equal.
module Sorting {

  // What sort.Slice asks of its less function: a strict weak order.
  ghost predicate StrictWeakOrder<T(!new)>(less: (T, T) -> bool) {
    && (forall x :: !less(x, x))
    && (forall x, y, z :: less(x, y) && less(y, z) ==> less(x, z))
    && (forall x, y, z :: !less(x, y) && !less(y, z) ==> !less(x, z))
  }

  ghost predicate Sorted<T>(s: seq<T>, less: (T, T) -> bool) {
    forall i, j :: 0 <= i < j < |s| ==> !less(s[j], s[i])
  }

  // order tells for each place of t which place of s its element came from.
  ghost predicate Rearranges<T>(order: seq<nat>, s: seq<T>, t: seq<T>) {
    && |order| == |s| == |t|
    && (forall i :: 0 <= i < |order| ==> order[i] < |s| && t[i] == s[order[i]])
    && (forall i, j :: 0 <= i < j < |order| ==> order[i] != order[j])
    && (forall k: nat :: k < |s| ==> k in order)
  }

  method SortSlice<T(!new)>(a: array<T>, less: (T, T) -> bool) returns (ghost order: seq<nat>)
    requires StrictWeakOrder(less)
    modifies a
    ensures Sorted(a[..], less)
    ensures multiset(a[..]) == old(multiset(a[..]))
    ensures Rearranges(order, old(a[..]), a[..])
  {
    order := seq(a.Length, i => i);
    forall k: nat | k < a.Length ensures k in order { assert order[k] == k; }
    var i := 0;
    while i < a.Length
      invariant 0 <= i <= a.Length
      invariant Sorted(a[..i], less)
      invariant multiset(a[..]) == old(multiset(a[..]))
      invariant Rearranges(order, old(a[..]), a[..])
    {
      order := InsertNext(a, i, less, old(a[..]), order);
      i := i + 1;
    }
    assert a[..i] == a[..];
  }

  // The inner loop of an insertion sort.
  method InsertNext<T(!new)>(a: array<T>, i: nat, less: (T, T) -> bool, ghost s: seq<T>, ghost order: seq<nat>)
    returns (ghost order': seq<nat>)
    requires i < a.Length && StrictWeakOrder(less)
    requires Sorted(a[..i], less) && Rearranges(order, s, a[..])
    modifies a
    ensures Sorted(a[..i + 1], less)
    ensures multiset(a[..]) == old(multiset(a[..]))
    ensures Rearranges(order', s, a[..])
  {
    order' := order;
    var j := i;
    while 0 < j && less(a[j], a[j - 1])
      invariant 0 <= j <= i
      invariant forall m, n :: 0 <= m < n <= i && n != j ==> !less(a[n], a[m])
      invariant multiset(a[..]) == old(multiset(a[..]))
      invariant Rearranges(order', s, a[..])
    {
      order' := SwapBack(a, j, s, order');
      j := j - 1;
    }
    forall m, n | 0 <= m < n <= i ensures !less(a[n], a[m]) {
      if n == j && m < j - 1 {
        assert !less(a[j - 1], a[m]) && !less(a[j], a[j - 1]);
      }
    }
  }

  method SwapBack<T>(a: array<T>, j: nat, ghost s: seq<T>, ghost order: seq<nat>) returns (ghost order': seq<nat>)
    requires 0 < j < a.Length && Rearranges(order, s, a[..])
    modifies a
    ensures a[j] == old(a[j - 1]) && a[j - 1] == old(a[j])
    ensures forall k :: 0 <= k < a.Length && k != j && k != j - 1 ==> a[k] == old(a[k])
    ensures multiset(a[..]) == old(multiset(a[..]))
    ensures Rearranges(order', s, a[..])
  {
    ghost var t := a[..];
    a[j], a[j - 1] := a[j - 1], a[j];
    order' := Swap(order, j - 1);
    assert a[..] == Swap(t, j - 1);
    SwapRearranges(order, s, t, j - 1);
  }

  ghost function Swap<T>(s: seq<T>, j: nat): (r: seq<T>)
    requires j + 1 < |s|
    ensures multiset(r) == multiset(s)
  {
    s[j := s[j + 1]][j + 1 := s[j]]
  }

  lemma SwapRearranges<T>(order: seq<nat>, s: seq<T>, t: seq<T>, j: nat)
    requires Rearranges(order, s, t) && j + 1 < |t|
    ensures Rearranges(Swap(order, j), s, Swap(t, j))
  {
    var r := Swap(order, j);
    forall k: nat | k < |s| ensures k in r {
      assert k in order;
      var i :| 0 <= i < |order| && order[i] == k;
      assert r[if i == j then j + 1 else if i == j + 1 then j else i] == k;
    }
  }

  function Exchanged(n: nat, i: nat, j: nat): (order: seq<nat>)
    requires i < n && j < n
    ensures |order| == n
  {
    seq(n, k => if k == i then j else if k == j then i else k)
  }

  // Exchanging any two elements rearranges a sequence.
  lemma Exchange<T>(s: seq<T>, i: nat, j: nat)
    requires i < |s| && j < |s|
    ensures Rearranges(Exchanged(|s|, i, j), s, s[i := s[j]][j := s[i]])
  {
    var order := Exchanged(|s|, i, j);
    forall k: nat | k < |s| ensures k in order {
      assert order[if k == i then j else if k == j then i else k] == k;
    }
  }

  function Without<T>(s: seq<T>, j: nat): (r: seq<T>)
    requires j < |s|
    ensures |r| == |s| - 1
  {
    s[..j] + s[j + 1..]
  }

  lemma WithoutOne<T>(s: seq<T>, j: nat)
    requires j < |s|
    ensures multiset(s) == multiset(Without(s, j)) + multiset{s[j]}
  {
    assert s == s[..j] + [s[j]] + s[j + 1..];
  }

  // Where elements that compare equal are equal, the sorted order of a multiset
  // is one sequence: an unstable sort cannot show.
  lemma {:induction false} SortedUnique<T>(s: seq<T>, t: seq<T>, less: (T, T) -> bool)
    requires Sorted(s, less) && Sorted(t, less)
    requires multiset(s) == multiset(t)
    requires forall x, y :: x in s && y in s && !less(x, y) && !less(y, x) ==> x == y
    ensures s == t
  {
    assert |s| == |multiset(s)| == |multiset(t)| == |t|;
    if s != [] {
      SameHead(s, t, less);
      SortedTail(s, less);
      SortedTail(t, less);
      SortedUnique(s[1..], t[1..], less);
    }
  }

  lemma SortedTail<T>(s: seq<T>, less: (T, T) -> bool)
    requires s != [] && Sorted(s, less)
    ensures Sorted(s[1..], less)
    ensures s == [s[0]] + s[1..] && multiset(s[1..]) == multiset(s) - multiset{s[0]}
  {
    assert s == [s[0]] + s[1..];
  }

  lemma SameHead<T>(s: seq<T>, t: seq<T>, less: (T, T) -> bool)
    requires Sorted(s, less) && Sorted(t, less)
    requires multiset(s) == multiset(t) && |s| > 0 && |t| > 0
    requires forall x, y :: x in s && y in s && !less(x, y) && !less(y, x) ==> x == y
    ensures s[0] == t[0]
  {
    assert s[0] in multiset(t) && t[0] in multiset(s);
    var i :| 0 <= i < |s| && s[i] == t[0];
    var j :| 0 <= j < |t| && t[j] == s[0];
    assert i > 0 ==> !less(s[i], s[0]);
    assert j > 0 ==> !less(t[j], t[0]);
  }

  lemma NoDuplicates<T>(s: seq<T>)
    requires forall i, j :: 0 <= i < j < |s| ==> s[i] != s[j]
    ensures forall x :: multiset(s)[x] == if x in s then 1 else 0
  {
    if s != [] {
      var n := |s| - 1;
      NoDuplicates(s[..n]);
      assert s == s[..n] + [s[n]];
    }
  }

  lemma Repeated<T>(s: seq<T>, i: nat, j: nat)
    requires i < j < |s| && s[i] == s[j]
    ensures multiset(s)[s[i]] > 1
  {
    assert s == s[..j] + [s[j]] + s[j + 1..];
    assert s[i] in s[..j];
  }
}
