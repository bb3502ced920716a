// Ignored paths are invisible: deleting them commutes and is idempotent, hides
// exactly the positions at or below them, and so nothing there can drift.
module DriftIgnore {
  import opened Json
  import opened DriftModel
  import opened DriftPatch
  import Text

  // Only the set of ignored paths matters: any two lists naming the same paths,
  // in any order and with any repetition, delete the same.
  lemma RemoveOrderIrrelevant(j: Json, paths: seq<string>, others: seq<string>)
    requires forall path :: path in paths <==> path in others
    ensures RemoveAll(j, paths) == RemoveAll(j, others)
  {
    if j.Obj? {
      forall q: Keys ensures View(RemoveAll(j, paths), q) == View(RemoveAll(j, others), q) {
        RemoveAllView(j, paths, q);
        RemoveAllView(j, others, q);
        CoveredBySet(paths, others, q);
        CoveredBySet(others, paths, q);
      }
      ViewsDetermine(RemoveAll(j, paths), RemoveAll(j, others));
    } else {
      RemoveAllNonObject(j, paths);
      RemoveAllNonObject(j, others);
    }
  }

  lemma CoveredBySet(paths: seq<string>, others: seq<string>, q: Keys)
    requires forall path :: path in paths ==> path in others
    ensures Covered(paths, q) ==> Covered(others, q)
  {
    if i :| 0 <= i < |paths| && Text.Split(paths[i], '.') <= q {
      assert paths[i] in others;
      var k :| 0 <= k < |others| && others[k] == paths[i];
    }
  }

  lemma RemoveTwice(j: Json, paths: seq<string>)
    ensures RemoveAll(RemoveAll(j, paths), paths) == RemoveAll(j, paths)
  {
    RemoveAllAppend(j, paths, paths);
    RemoveOrderIrrelevant(j, paths + paths, paths);
  }

  lemma {:induction false} RemoveAllAppend(j: Json, paths: seq<string>, more: seq<string>)
    ensures RemoveAll(j, paths + more) == RemoveAll(RemoveAll(j, paths), more)
    decreases |paths|
  {
    if paths == [] {
      assert paths + more == more;
    } else {
      assert (paths + more)[1..] == paths[1..] + more;
      RemoveAllAppend(RemoveAt(j, Text.Split(paths[0], '.')), paths[1..], more);
    }
  }

  // Two documents look the same after deletion exactly when they agree at
  // every position that is neither ignored nor below an ignored path.
  lemma SameOutsideIgnored(a: Json, b: Json, paths: seq<string>)
    requires a.Obj? && b.Obj?
    ensures RemoveAll(a, paths) == RemoveAll(b, paths)
            <==> forall q: Keys :: !Covered(paths, q) ==> View(a, q) == View(b, q)
  {
    var x, y := RemoveAll(a, paths), RemoveAll(b, paths);
    forall q: Keys
      ensures View(x, q) == if Covered(paths, q) then Missing else View(a, q)
      ensures View(y, q) == if Covered(paths, q) then Missing else View(b, q)
    {
      RemoveAllView(a, paths, q);
      RemoveAllView(b, paths, q);
    }
    if forall q: Keys :: !Covered(paths, q) ==> View(a, q) == View(b, q) {
      ViewsDetermine(x, y);
    }
    if x == y {
      forall q: Keys | !Covered(paths, q) ensures View(a, q) == View(b, q) {
        assert View(x, q) == View(a, q) && View(y, q) == View(b, q);
      }
    }
  }

  lemma RemovedAt(j: Json, paths: seq<string>, p: Keys)
    requires j.Obj?
    ensures Covered(paths, p) ==> At(RemoveAll(j, paths), p) == Null
    ensures !Covered(paths, p) ==> At(RemoveAll(j, paths), p).Obj? == At(j, p).Obj?
    ensures !Covered(paths, p) && !At(j, p).Obj? ==> At(RemoveAll(j, paths), p) == At(j, p)
  {
    RemoveAllView(j, paths, p);
    AtView(j, p);
    AtView(RemoveAll(j, paths), p);
  }

  lemma {:induction false} DiffersExactly(a: Json, b: Json, p: Keys)
    ensures Differs(a, b, p) <==> Shared(a, b, p) && At(a, p) != At(b, p) && !(At(a, p).Obj? && At(b, p).Obj?)
    decreases |p|
  {
    hide Shared;
    if p == [] {
      NothingAbove(a, b);
    } else {
      DiffersExactly(Member(a, p[0]), Member(b, p[0]), p[1..]);
      SharedCons(a, b, p[0], p[1..]);
      assert p == [p[0]] + p[1..];
    }
  }

  lemma NothingAbove(a: Json, b: Json)
    ensures Shared(a, b, [])
  {
  }

  // Ignoring paths does not change what is shared above a position that is left.
  lemma SharedStays(a: Json, b: Json, paths: seq<string>, p: Keys)
    requires a.Obj? && b.Obj? && !Covered(paths, p)
    ensures Shared(RemoveAll(a, paths), RemoveAll(b, paths), p) <==> Shared(a, b, p)
  {
    hide Covered, RemoveAll;
    var x, y := RemoveAll(a, paths), RemoveAll(b, paths);
    forall n | 0 <= n < |p|
      ensures At(x, p[..n]).Obj? == At(a, p[..n]).Obj? && At(y, p[..n]).Obj? == At(b, p[..n]).Obj?
    {
      if Covered(paths, p[..n]) { CoveredBelow(paths, p[..n], p); }
      RemovedAt(a, paths, p[..n]);
      RemovedAt(b, paths, p[..n]);
    }
  }

  // Ignoring paths filters the differences: those that are left are those that are
  // neither ignored nor below an ignored path.
  lemma IgnoringFilters(a: Json, b: Json, paths: seq<string>, p: Keys)
    ensures Differs(RemoveAll(a, paths), RemoveAll(b, paths), p) <==> Differs(a, b, p) && !Covered(paths, p)
  {
    hide Differs, At, Covered, RemoveAll, Shared;
    DiffersExactly(a, b, p);
    DiffersExactly(RemoveAll(a, paths), RemoveAll(b, paths), p);
    if a.Obj? && b.Obj? {
      RemovedAt(a, paths, p);
      RemovedAt(b, paths, p);
      if !Covered(paths, p) { SharedStays(a, b, paths, p); }
    } else {
      IgnoringScalars(a, b, paths, p);
    }
  }

  lemma IgnoringScalars(a: Json, b: Json, paths: seq<string>, p: Keys)
    requires !(a.Obj? && b.Obj?)
    ensures Differs(RemoveAll(a, paths), RemoveAll(b, paths), p) <==> Differs(a, b, p) && !Covered(paths, p)
  {
    KeepsKind(a, paths);
    KeepsKind(b, paths);
  }

  lemma KeepsKind(j: Json, paths: seq<string>)
    ensures RemoveAll(j, paths).Obj? == j.Obj? && (!j.Obj? ==> RemoveAll(j, paths) == j)
  {
    if j.Obj? { RemoveAllView(j, paths, []); } else { RemoveAllNonObject(j, paths); }
  }

  // And so it does with the null members that are lost or invented.
  lemma IgnoringFiltersNulls(a: Json, b: Json, paths: seq<string>, p: Keys)
    requires a.Obj? && b.Obj?
    ensures NullLost(RemoveAll(a, paths), RemoveAll(b, paths), p) <==> NullLost(a, b, p) && !Covered(paths, p)
  {
    hide Covered, RemoveAll, Shared;
    RemoveAllView(a, paths, p);
    RemoveAllView(b, paths, p);
    if !Covered(paths, p) { SharedStays(a, b, paths, p); }
  }

  lemma CoveredBelow(paths: seq<string>, p: Keys, q: Keys)
    requires Covered(paths, p) && p <= q
    ensures Covered(paths, q)
  {
    var i :| 0 <= i < |paths| && Text.Split(paths[i], '.') <= p;
  }
}
