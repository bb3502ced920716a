// The change list as an ordered, deterministic object: how its paths relate,
// that neither map iteration order nor the unstable sort can show, and what
// swapping the two documents does.
module DriftOrder {
  import opened Json
  import opened DriftModel
  import Sorting
  import Text

  // The less function Compare hands to sort.Slice.
  predicate PathLess(c: Change, d: Change) { Text.Less(c.path, d.path) }

  lemma PathLessIsAnOrder()
    ensures Sorting.StrictWeakOrder(PathLess)
  {
    forall c: Change ensures !PathLess(c, c) { Text.LessIrreflexive(c.path); }
    forall c: Change, d: Change, e: Change | PathLess(c, d) && PathLess(d, e) ensures PathLess(c, e) {
      Text.LessTransitive(c.path, d.path, e.path);
    }
    forall c: Change, d: Change, e: Change | !PathLess(c, d) && !PathLess(d, e) ensures !PathLess(c, e) {
      Text.LessTotal(c.path, d.path);
      Text.LessTotal(d.path, e.path);
      if PathLess(c, e) && c.path != d.path && d.path != e.path {
        Text.LessTransitive(c.path, e.path, d.path);
      }
    }
  }

  // Sorted changes stand in the order of their paths.
  lemma NeighboursInOrder(cs: seq<Change>)
    requires Sorting.Sorted(cs, PathLess)
    ensures forall i :: 0 <= i < |cs| - 1 ==> Text.InOrder(cs[i].path, cs[i + 1].path)
  {
    hide Text.Less, Text.InOrder;
    forall i | 0 <= i < |cs| - 1 ensures Text.InOrder(cs[i].path, cs[i + 1].path) {
      assert !PathLess(cs[i + 1], cs[i]);
      Text.NotLess(cs[i + 1].path, cs[i].path);
    }
  }

  // cs is a change list of the documents a and b, in some order.
  ghost predicate IsDiff(cs: seq<Change>, a: Json, b: Json) {
    exists locs: seq<Keys> :: Lists(cs, locs, "", a, b)
  }

  // Every change holds the two unequal, not-both-object values found at its
  // location; no location lies at or below another; and a change's path leads
  // back to its location exactly where that is faithful.
  lemma ChangesAreAnAntichain(a: Json, b: Json, cs: seq<Change>, locs: seq<Keys>)
    requires Lists(cs, locs, "", a, b)
    ensures forall i :: 0 <= i < |cs| ==>
              && cs[i].previous == At(a, locs[i]) && cs[i].current == At(b, locs[i])
              && cs[i].previous != cs[i].current
              && !(cs[i].previous.Obj? && cs[i].current.Obj?)
    ensures forall i, j :: 0 <= i < |cs| && 0 <= j < |cs| && i != j ==> !(locs[i] <= locs[j])
    ensures forall i :: 0 <= i < |cs| ==> (Text.Split(cs[i].path, '.') == locs[i] <==> Faithful(locs[i]))
  {
    hide PathOf;
    forall i | 0 <= i < |cs|
      ensures cs[i].previous != cs[i].current && !(cs[i].previous.Obj? && cs[i].current.Obj?)
      ensures Text.Split(cs[i].path, '.') == locs[i] <==> Faithful(locs[i])
    {
      assert locs[i] in locs;
      DiffersValues(a, b, locs[i]);
      PathIsFaithful(locs[i]);
    }
    forall i, j | 0 <= i < |cs| && 0 <= j < |cs| && i != j ensures !(locs[i] <= locs[j]) {
      assert locs[i] in locs && locs[j] in locs;
      if locs[i] <= locs[j] { DiffersApart(a, b, locs[i], locs[j]); }
    }
  }

  // No two differences share a path.
  ghost predicate PathsInjective(a: Json, b: Json) {
    forall p: Keys, q: Keys :: Differs(a, b, p) && Differs(a, b, q) && PathOf("", p) == PathOf("", q) ==> p == q
  }

  // Differences that share a path agree in both their values.
  ghost predicate TellsApart(a: Json, b: Json) {
    forall p: Keys, q: Keys :: Differs(a, b, p) && Differs(a, b, q) && PathOf("", p) == PathOf("", q) ==>
      At(a, p) == At(a, q) && At(b, p) == At(b, q)
  }

  lemma FaithfulIsInjective(a: Json, b: Json)
    ensures AllFaithful(a, b) ==> PathsInjective(a, b)
    ensures PathsInjective(a, b) ==> TellsApart(a, b)
  {
    hide PathOf, Faithful;
    if AllFaithful(a, b) {
      forall p: Keys, q: Keys | Differs(a, b, p) && Differs(a, b, q) && PathOf("", p) == PathOf("", q) ensures p == q {
        PathIsFaithful(p);
        PathIsFaithful(q);
      }
    }
  }

  // Sorted, the paths strictly increase exactly if no two differences of the
  // documents share one.
  lemma PathsIncrease(a: Json, b: Json, cs: seq<Change>)
    requires IsDiff(cs, a, b) && Sorting.Sorted(cs, PathLess)
    ensures (forall i, j :: 0 <= i < j < |cs| ==> Text.Less(cs[i].path, cs[j].path)) <==> PathsInjective(a, b)
  {
    hide Lists, PathsInjective;
    var locs :| Lists(cs, locs, "", a, b);
    if PathsInjective(a, b) { InjectiveIncrease(a, b, cs, locs); }
    if forall i, j :: 0 <= i < j < |cs| ==> Text.Less(cs[i].path, cs[j].path) { IncreaseInjective(a, b, cs, locs); }
  }

  lemma InjectiveIncrease(a: Json, b: Json, cs: seq<Change>, locs: seq<Keys>)
    requires Lists(cs, locs, "", a, b) && Sorting.Sorted(cs, PathLess) && PathsInjective(a, b)
    ensures forall i, j :: 0 <= i < j < |cs| ==> Text.Less(cs[i].path, cs[j].path)
  {
    hide PathOf, At, Differs;
    forall i, j | 0 <= i < j < |cs| ensures Text.Less(cs[i].path, cs[j].path) {
      assert locs[i] in locs && locs[j] in locs;
      assert !PathLess(cs[j], cs[i]);
      Text.LessTotal(cs[i].path, cs[j].path);
    }
  }

  lemma IncreaseInjective(a: Json, b: Json, cs: seq<Change>, locs: seq<Keys>)
    requires Lists(cs, locs, "", a, b)
    requires forall i, j :: 0 <= i < j < |cs| ==> Text.Less(cs[i].path, cs[j].path)
    ensures PathsInjective(a, b)
  {
    hide PathOf, At, Differs;
    forall p: Keys, q: Keys | Differs(a, b, p) && Differs(a, b, q) && PathOf("", p) == PathOf("", q) ensures p == q {
      var i :| 0 <= i < |locs| && locs[i] == p;
      var j :| 0 <= j < |locs| && locs[j] == q;
      Text.LessIrreflexive(cs[i].path);
    }
  }

  // One outcome only: two sorted change lists of the same documents are equal,
  // whatever order the keys were visited in and however the sort broke ties.
  lemma DiffIsDeterministic(a: Json, b: Json, cs: seq<Change>, ds: seq<Change>)
    requires TellsApart(a, b)
    requires IsDiff(cs, a, b) && IsDiff(ds, a, b)
    requires Sorting.Sorted(cs, PathLess) && Sorting.Sorted(ds, PathLess)
    ensures cs == ds
  {
    hide IsDiff, TellsApart;
    SameMultiset(a, b, cs, ds);
    PathsTellExactly(a, b, cs);
    forall c, d | c in cs && d in cs && !PathLess(c, d) && !PathLess(d, c) ensures c == d {
      Text.LessTotal(c.path, d.path);
    }
    Sorting.SortedUnique(cs, ds, PathLess);
  }

  // ----- permuting a change list -----

  // Sorting a change list leaves it a change list.
  lemma PermutedDiff(cs: seq<Change>, locs: seq<Keys>, ds: seq<Change>, order: seq<nat>, a: Json, b: Json)
    requires Lists(cs, locs, "", a, b)
    requires Sorting.Rearranges(order, cs, ds)
    ensures IsDiff(ds, a, b)
  {
    var others := seq(|ds|, i requires 0 <= i < |ds| => locs[order[i]]);
    forall p: Keys | p in locs ensures p in others {
      var j :| 0 <= j < |locs| && locs[j] == p;
      assert j in order;
      var i :| 0 <= i < |order| && order[i] == j;
      assert others[i] == p;
    }
    assert Lists(ds, others, "", a, b);
  }

  // ----- determinism on all documents -----

  function ChangesAt(locs: seq<Keys>, a: Json, b: Json): (r: seq<Change>)
    ensures |r| == |locs|
    ensures forall i :: 0 <= i < |locs| ==> r[i] == Change(PathOf("", locs[i]), At(a, locs[i]), At(b, locs[i]))
  {
    seq(|locs|, i requires 0 <= i < |locs| => Change(PathOf("", locs[i]), At(a, locs[i]), At(b, locs[i])))
  }

  lemma {:induction false} SameLocations(locs: seq<Keys>, others: seq<Keys>, a: Json, b: Json)
    requires multiset(locs) == multiset(others)
    ensures multiset(ChangesAt(locs, a, b)) == multiset(ChangesAt(others, a, b))
    decreases |locs|
  {
    hide ChangesAt, PathOf, At, Sorting.Without;
    assert |locs| == |multiset(locs)| == |multiset(others)| == |others|;
    if locs != [] {
      var n := |locs| - 1;
      assert locs[n] in multiset(others);
      var j :| 0 <= j < |others| && others[j] == locs[n];
      TakeOut(locs, n, a, b);
      TakeOut(others, j, a, b);
      var x, y := Sorting.Without(locs, n), Sorting.Without(others, j);
      assert multiset(x) == multiset(locs) - multiset{locs[n]} == multiset(y);
      SameLocations(x, y, a, b);
    }
  }

  lemma TakeOut(locs: seq<Keys>, j: nat, a: Json, b: Json)
    requires j < |locs|
    ensures var change := Change(PathOf("", locs[j]), At(a, locs[j]), At(b, locs[j]));
            multiset(ChangesAt(locs, a, b)) == multiset(ChangesAt(Sorting.Without(locs, j), a, b)) + multiset{change}
    ensures multiset(locs) == multiset(Sorting.Without(locs, j)) + multiset{locs[j]}
  {
    hide PathOf, At;
    assert ChangesAt(Sorting.Without(locs, j), a, b) == Sorting.Without(ChangesAt(locs, a, b), j);
    Sorting.WithoutOne(locs, j);
    Sorting.WithoutOne(ChangesAt(locs, a, b), j);
  }

  // Two change lists of the same documents hold the same changes equally often,
  // whatever their keys are.
  lemma SameMultiset(a: Json, b: Json, cs: seq<Change>, ds: seq<Change>)
    requires IsDiff(cs, a, b) && IsDiff(ds, a, b)
    ensures multiset(cs) == multiset(ds)
  {
    hide PathOf, At, Differs;
    var locs :| Lists(cs, locs, "", a, b);
    var others :| Lists(ds, others, "", a, b);
    Sorting.NoDuplicates(locs);
    Sorting.NoDuplicates(others);
    assert multiset(locs) == multiset(others);
    SameLocations(locs, others, a, b);
    assert cs == ChangesAt(locs, a, b) && ds == ChangesAt(others, a, b);
  }

  // No two different changes share a path.
  predicate PathsTell(cs: seq<Change>) {
    forall i, j :: 0 <= i < j < |cs| && cs[i].path == cs[j].path ==> cs[i] == cs[j]
  }

  lemma PathsTellExactly(a: Json, b: Json, cs: seq<Change>)
    requires IsDiff(cs, a, b)
    ensures PathsTell(cs) <==> TellsApart(a, b)
  {
    hide Lists, TellsApart;
    var locs :| Lists(cs, locs, "", a, b);
    if PathsTell(cs) { DocumentsTell(a, b, cs, locs); }
    if TellsApart(a, b) { ListTells(a, b, cs, locs); }
  }

  lemma DocumentsTell(a: Json, b: Json, cs: seq<Change>, locs: seq<Keys>)
    requires Lists(cs, locs, "", a, b) && PathsTell(cs)
    ensures TellsApart(a, b)
  {
    hide PathOf, At, Differs;
    forall p: Keys, q: Keys | Differs(a, b, p) && Differs(a, b, q) && PathOf("", p) == PathOf("", q)
      ensures At(a, p) == At(a, q) && At(b, p) == At(b, q)
    {
      var i :| 0 <= i < |locs| && locs[i] == p;
      var j :| 0 <= j < |locs| && locs[j] == q;
      assert cs[i].path == cs[j].path;
      assert cs[i] == cs[j];
    }
  }

  lemma ListTells(a: Json, b: Json, cs: seq<Change>, locs: seq<Keys>)
    requires Lists(cs, locs, "", a, b) && TellsApart(a, b)
    ensures PathsTell(cs)
  {
    hide PathOf, At, Differs;
    forall i, j | 0 <= i < j < |cs| && cs[i].path == cs[j].path ensures cs[i] == cs[j] {
      assert locs[i] in locs && locs[j] in locs;
    }
  }

  // Over arbitrary keys the sorted change list is the only one exactly when
  // differences of the documents that share a path agree in their values.
  lemma DeterministicExactly(a: Json, b: Json, cs: seq<Change>)
    requires IsDiff(cs, a, b) && Sorting.Sorted(cs, PathLess)
    ensures (forall ds :: IsDiff(ds, a, b) && Sorting.Sorted(ds, PathLess) ==> ds == cs) <==> TellsApart(a, b)
  {
    hide IsDiff, TellsApart;
    PathsTellExactly(a, b, cs);
    if PathsTell(cs) {
      forall ds | IsDiff(ds, a, b) && Sorting.Sorted(ds, PathLess) ensures ds == cs {
        DiffIsDeterministic(a, b, ds, cs);
      }
    } else {
      var i, j :| 0 <= i < j < |cs| && cs[i].path == cs[j].path && cs[i] != cs[j];
      TiesCanSwap(a, b, cs, i, j);
    }
  }

  // Changes with the same path may stand either way round.
  lemma TiesCanSwap(a: Json, b: Json, cs: seq<Change>, i: nat, j: nat)
    requires IsDiff(cs, a, b) && Sorting.Sorted(cs, PathLess)
    requires i < j < |cs| && cs[i].path == cs[j].path
    ensures var ds := cs[i := cs[j]][j := cs[i]]; IsDiff(ds, a, b) && Sorting.Sorted(ds, PathLess)
  {
    hide PathOf, At, Differs, Lists, PathLess;
    var locs :| Lists(cs, locs, "", a, b);
    var ds := cs[i := cs[j]][j := cs[i]];
    Sorting.Exchange(cs, i, j);
    PermutedDiff(cs, locs, ds, Sorting.Exchanged(|cs|, i, j), a, b);
    SortedByPath(cs, ds);
  }

  lemma SortedByPath(cs: seq<Change>, ds: seq<Change>)
    requires Sorting.Sorted(cs, PathLess) && |cs| == |ds|
    requires forall k :: 0 <= k < |cs| ==> ds[k].path == cs[k].path
    ensures Sorting.Sorted(ds, PathLess)
  {
    forall m, n | 0 <= m < n < |ds| ensures !PathLess(ds[n], ds[m]) {
      assert !PathLess(cs[n], cs[m]);
    }
  }

  // Two documents whose change list can be sorted in two ways.
  lemma DottedKeysLoseOrder(a: Json, b: Json, c: Change, d: Change)
    requires a == Obj(map["a" := Obj(map[])])
    requires b == Obj(map["a" := Obj(map["b" := Bool(true)]), "a.b" := Bool(false)])
    requires c == Change("a.b", Null, Bool(true)) && d == Change("a.b", Null, Bool(false))
    ensures IsDiff([c, d], a, b) && Sorting.Sorted([c, d], PathLess)
    ensures IsDiff([d, c], a, b) && Sorting.Sorted([d, c], PathLess)
  {
    var x: Keys, y: Keys := ["a", "b"], ["a.b"];
    DottedKeysCollide();
    assert PathOf("", y) == PathOf("a.b", []) == "a.b";
    assert x[1..] == ["b"] && x[1..][1..] == [] && y[1..] == [];
    assert At(a, x) == At(Obj(map[]), ["b"]) == At(Null, []) == Null;
    assert At(b, x) == At(Obj(map["b" := Bool(true)]), ["b"]) == At(Bool(true), []) == Bool(true);
    assert At(a, y) == At(Null, []) == Null;
    assert At(b, y) == At(Bool(false), []) == Bool(false);
    forall p: Keys ensures p in [x, y] <==> Differs(a, b, p) { DottedDifferences(a, b, p); }
    assert Lists([c, d], [x, y], "", a, b);
    Text.LessIrreflexive("a.b");
    TiesCanSwap(a, b, [c, d], 0, 1);
    assert [c, d][0 := d][1 := c] == [d, c];
  }

  lemma DottedDifferences(a: Json, b: Json, p: Keys)
    requires a == Obj(map["a" := Obj(map[])])
    requires b == Obj(map["a" := Obj(map["b" := Bool(true)]), "a.b" := Bool(false)])
    ensures Differs(a, b, p) <==> p == ["a", "b"] || p == ["a.b"]
  {
    if p != [] {
      var x, y, q := Member(a, p[0]), Member(b, p[0]), p[1..];
      assert p == [p[0]] + q;
      DriftNot(q);
      if q != [] {
        var r := q[1..];
        assert q == [q[0]] + r;
        DriftNot(r);
        assert p == [p[0], q[0]] + r;
        if p[0] == "a" {
          assert Member(x, q[0]) == Null && Member(y, q[0]) == if q[0] == "b" then Bool(true) else Null;
          assert Differs(a, b, p) <==> Differs(Null, Member(y, q[0]), r);
          assert Differs(Null, Member(y, q[0]), r) <==> q[0] == "b" && r == [];
        } else {
          assert !Differs(x, y, q);
        }
      } else {
        assert Differs(a, b, p) <==> p[0] == "a.b";
      }
    }
  }

  lemma {:induction false} DriftNot(p: Keys)
    ensures !Differs(Null, Null, p)
    ensures p != [] ==> !Differs(Null, Bool(true), p) && !Differs(Null, Bool(false), p)
  {
    if p != [] { DriftNot(p[1..]); }
  }

  // ----- swapping the documents -----

  function Swapped(cs: seq<Change>): (r: seq<Change>)
    ensures |r| == |cs|
    ensures forall i :: 0 <= i < |cs| ==> r[i] == Change(cs[i].path, cs[i].current, cs[i].previous)
  {
    seq(|cs|, i requires 0 <= i < |cs| => Change(cs[i].path, cs[i].current, cs[i].previous))
  }

  lemma {:induction false} DiffersSymmetric(a: Json, b: Json, p: Keys)
    ensures Differs(a, b, p) <==> Differs(b, a, p)
    decreases |p|
  {
    if p != [] { DiffersSymmetric(Member(a, p[0]), Member(b, p[0]), p[1..]); }
  }

  lemma SwappedDiff(a: Json, b: Json, cs: seq<Change>)
    requires IsDiff(cs, a, b) && Sorting.Sorted(cs, PathLess)
    ensures IsDiff(Swapped(cs), b, a) && Sorting.Sorted(Swapped(cs), PathLess)
  {
    hide PathOf, At, Differs;
    var locs :| Lists(cs, locs, "", a, b);
    forall p: Keys ensures p in locs <==> Differs(b, a, p) { DiffersSymmetric(a, b, p); }
    assert Lists(Swapped(cs), locs, "", b, a);
    SortedByPath(cs, Swapped(cs));
  }

  lemma TellsApartSymmetric(a: Json, b: Json)
    ensures TellsApart(a, b) <==> TellsApart(b, a)
  {
    hide PathOf, At, Differs;
    forall p: Keys ensures Differs(a, b, p) <==> Differs(b, a, p) { DiffersSymmetric(a, b, p); }
  }
}
