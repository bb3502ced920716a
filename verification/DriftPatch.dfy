// The change list as a patch: applying it to the previous document yields the
// current one, up to null members, whatever order the changes stand in.
module DriftPatch {
  import opened Json
  import opened DriftModel
  import Text

  // Setting the value at a path whose parent is an object.
  function Put(j: Json, p: Keys, v: Json): Json
    requires p != []
    decreases |p|
  {
    if !j.Obj? then j
    else if |p| == 1 then Obj(j.members[p[0] := v])
    else if p[0] in j.members && j.members[p[0]].Obj?
    then Obj(j.members[p[0] := Put(j.members[p[0]], p[1..], v)])
    else j
  }

  // Reading one change as an instruction: set the current value at the path,
  // or delete the path when there is none.
  function ApplyChange(j: Json, c: Change): Json {
    var p := Text.Split(c.path, '.');
    if c.current == Null then RemoveAt(j, p) else Put(j, p, c.current)
  }

  function ApplyAll(j: Json, cs: seq<Change>): Json {
    if cs == [] then j else ApplyChange(ApplyAll(j, cs[..|cs| - 1]), cs[|cs| - 1])
  }

  // ----- the document a patch leads to -----

  // Null members on the object spine are dropped; inside arrays they stay.
  function Prune(j: Json): Json
    decreases j
  {
    if j.Obj? then Obj(map k | k in j.members && j.members[k] != Null :: Prune(j.members[k])) else j
  }

  function Patched(a: Json, b: Json): (r: Json)
    requires a.Obj? && b.Obj?
    ensures r.Obj?
    decreases a
  {
    Obj(map k | k in a.members.Keys + b.members.Keys && Kept(a, b, k) ::
          var x, y := Member(a, k), Member(b, k);
          if x == y then x else if x.Obj? && y.Obj? then Patched(x, y) else y)
  }

  predicate Kept(a: Json, b: Json, k: string)
    requires a.Obj? && b.Obj?
  {
    var x, y := Member(a, k), Member(b, k);
    if x == y then k in a.members else y != Null
  }

  // On the objects both documents share, a member that is explicitly null in
  // the current document is so in the previous one, and a null member of the
  // previous document is still present.
  predicate NullSafe(a: Json, b: Json)
    decreases a
  {
    a.Obj? && b.Obj? ==>
      forall k :: k in a.members.Keys + b.members.Keys ==>
        && (k in b.members && b.members[k] == Null ==> k in a.members && a.members[k] == Null)
        && (k in a.members && a.members[k] == Null ==> k in b.members)
        && (k in a.members && k in b.members ==> NullSafe(a.members[k], b.members[k]))
  }

  lemma {:induction false} PatchedExactly(a: Json, b: Json)
    requires a.Obj? && b.Obj?
    ensures Patched(a, b) == b <==> NullSafe(a, b)
    decreases a
  {
    forall k | k in a.members && k in b.members && a.members[k].Obj? && b.members[k].Obj?
      ensures Patched(a.members[k], b.members[k]) == b.members[k] <==> NullSafe(a.members[k], b.members[k])
      ensures a.members[k] == b.members[k] ==> NullSafe(a.members[k], b.members[k])
    {
      PatchedExactly(a.members[k], b.members[k]);
      if a.members[k] == b.members[k] { NullSafeReflexive(a.members[k]); }
    }
    var r := Patched(a, b).members;
    if NullSafe(a, b) {
      assert r == b.members by {
        forall k ensures k in r <==> k in b.members {
        }
      }
    }
    if r == b.members {
      forall k | k in a.members.Keys + b.members.Keys
        ensures (k in b.members && b.members[k] == Null ==> k in a.members && a.members[k] == Null)
        ensures (k in a.members && a.members[k] == Null ==> k in b.members)
        ensures (k in a.members && k in b.members ==> NullSafe(a.members[k], b.members[k]))
      {
        assert k in r <==> k in b.members;
        assert k in r ==> r[k] == b.members[k];
      }
    }
  }

  lemma {:induction false} NullSafeReflexive(a: Json)
    ensures NullSafe(a, a)
    decreases a
  {
    if a.Obj? {
      forall k | k in a.members ensures NullSafe(a.members[k], a.members[k]) {
        NullSafeReflexive(a.members[k]);
      }
    }
  }

  // Above p both documents hold objects.
  ghost predicate Shared(a: Json, b: Json, p: Keys) {
    forall n :: 0 <= n < |p| ==> At(a, p[..n]).Obj? && At(b, p[..n]).Obj?
  }

  // A null member at p appears, or one is gone that the other document lacks.
  ghost predicate NullLost(a: Json, b: Json, p: Keys) {
    && p != [] && Shared(a, b, p)
    && (|| (View(b, p) == Leaf(Null) && View(a, p) != Leaf(Null))
        || (View(a, p) == Leaf(Null) && View(b, p) == Missing))
  }

  lemma SharedCons(a: Json, b: Json, k: string, p: Keys)
    ensures Shared(a, b, [k] + p) <==> a.Obj? && b.Obj? && Shared(Member(a, k), Member(b, k), p)
  {
    var q := [k] + p;
    forall n | 0 <= n < |p|
      ensures At(a, q[..n + 1]) == At(Member(a, k), p[..n]) && At(b, q[..n + 1]) == At(Member(b, k), p[..n])
    {
      assert q[..n + 1][1..] == p[..n];
    }
    assert q[..0] == [];
    if Shared(a, b, q) {
      assert At(a, q[..0]).Obj? && At(b, q[..0]).Obj?;
      forall n | 0 <= n < |p| ensures At(Member(a, k), p[..n]).Obj? && At(Member(b, k), p[..n]).Obj? {
        assert At(a, q[..n + 1]).Obj? && At(b, q[..n + 1]).Obj?;
      }
    }
    if a.Obj? && b.Obj? && Shared(Member(a, k), Member(b, k), p) {
      forall n | 0 <= n < |q| ensures At(a, q[..n]).Obj? && At(b, q[..n]).Obj? {
        if n > 0 { assert At(Member(a, k), p[..n - 1]).Obj? && At(Member(b, k), p[..n - 1]).Obj?; }
      }
    }
  }

  lemma ViewCons(j: Json, k: string, p: Keys)
    ensures View(j, [k] + p) == if j.Obj? && k in j.members then View(j.members[k], p) else Missing
  {
    assert ([k] + p)[1..] == p;
  }

  lemma LostAtKey(a: Json, b: Json, k: string)
    requires a.Obj? && b.Obj?
    ensures NullLost(a, b, [k]) <==>
            || (k in b.members && b.members[k] == Null && !(k in a.members && a.members[k] == Null))
            || (k in a.members && a.members[k] == Null && k !in b.members)
  {
    SharedCons(a, b, k, []);
    ViewCons(a, k, []);
    ViewCons(b, k, []);
    assert [k] + [] == [k];
  }

  lemma LostBelowKey(a: Json, b: Json, k: string, p: Keys)
    requires a.Obj? && b.Obj? && p != []
    ensures NullLost(a, b, [k] + p) <==>
            k in a.members && k in b.members && NullLost(a.members[k], b.members[k], p)
  {
    SharedCons(a, b, k, p);
    ViewCons(a, k, p);
    ViewCons(b, k, p);
    if Shared(Member(a, k), Member(b, k), p) {
      assert p[..0] == [];
      assert At(Member(a, k), p[..0]).Obj? && At(Member(b, k), p[..0]).Obj?;
    }
  }

  // Null-safety, position by position.
  lemma {:induction false} NullSafeExactly(a: Json, b: Json)
    ensures NullSafe(a, b) <==> forall p: Keys :: !NullLost(a, b, p)
    decreases a
  {
    hide NullLost;
    if a.Obj? && b.Obj? {
      forall k | k in a.members && k in b.members
        ensures NullSafe(a.members[k], b.members[k]) <==> forall p: Keys :: !NullLost(a.members[k], b.members[k], p)
      {
        NullSafeExactly(a.members[k], b.members[k]);
      }
      if NullSafe(a, b) {
        forall p: Keys ensures !NullLost(a, b, p) {
          SafeHere(a, b, p);
        }
      }
      if forall p: Keys :: !NullLost(a, b, p) {
        forall k | k in a.members.Keys + b.members.Keys
          ensures k in b.members && b.members[k] == Null ==> k in a.members && a.members[k] == Null
          ensures k in a.members && a.members[k] == Null ==> k in b.members
          ensures k in a.members && k in b.members ==> NullSafe(a.members[k], b.members[k])
        {
          LostAtKey(a, b, k);
          if k in a.members && k in b.members {
            forall p: Keys ensures !NullLost(a.members[k], b.members[k], p) {
              NotLostAtRoot(a.members[k], b.members[k]);
              if p != [] { LostBelowKey(a, b, k, p); }
            }
          }
        }
      }
    } else {
      forall p: Keys ensures !NullLost(a, b, p) { NotShared(a, b, p); }
    }
  }

  lemma NotLostAtRoot(a: Json, b: Json)
    ensures !NullLost(a, b, [])
  {
  }

  lemma NotShared(a: Json, b: Json, p: Keys)
    requires !(a.Obj? && b.Obj?)
    ensures !NullLost(a, b, p)
  {
    if p != [] { assert p[..0] == [] && (Shared(a, b, p) ==> At(a, p[..0]).Obj? && At(b, p[..0]).Obj?); }
  }

  lemma SafeHere(a: Json, b: Json, p: Keys)
    requires a.Obj? && b.Obj? && NullSafe(a, b)
    requires forall k :: k in a.members && k in b.members && NullSafe(a.members[k], b.members[k]) ==>
               forall q: Keys :: !NullLost(a.members[k], b.members[k], q)
    ensures !NullLost(a, b, p)
  {
    hide NullLost;
    NotLostAtRoot(a, b);
    if p != [] {
      assert p == [p[0]] + p[1..];
      if p[1..] == [] { LostAtKey(a, b, p[0]); } else { LostBelowKey(a, b, p[0], p[1..]); }
      assert p[1..] == [] ==> p == [p[0]];
    }
  }

  lemma {:induction false} PatchedPrune(a: Json, b: Json)
    requires a.Obj? && b.Obj?
    ensures Prune(Patched(a, b)) == Prune(b)
    decreases a
  {
    forall k | k in a.members && k in b.members && a.members[k].Obj? && b.members[k].Obj?
      ensures Prune(Patched(a.members[k], b.members[k])) == Prune(b.members[k])
    {
      PatchedPrune(a.members[k], b.members[k]);
    }
    assert Prune(Patched(a, b)).members == Prune(b).members;
  }

  // ----- views of the patched document -----

  function Result(v: Json, q: Keys): Spot {
    if v == Null then Missing else View(v, q)
  }

  lemma {:induction false} PatchedAtChange(a: Json, b: Json, p: Keys, q: Keys)
    requires a.Obj? && b.Obj? && Differs(a, b, p) && p <= q
    ensures View(Patched(a, b), q) == Result(At(b, p), q[|p|..])
    decreases |p|
  {
    var k := p[0];
    var x, y := Member(a, k), Member(b, k);
    assert q[0] == k;
    if p[1..] == [] {
      assert q[1..] == q[|p|..];
      assert At(b, p) == At(y, p[1..]) == y;
    } else {
      PatchedAtChange(x, y, p[1..], q[1..]);
      assert q[1..][|p[1..]|..] == q[|p|..];
      if x == y { DiffersNot(x, p[1..]); }
    }
  }

  lemma {:induction false} DiffersNot(a: Json, p: Keys)
    ensures !Differs(a, a, p)
    decreases |p|
  {
    if p != [] { DiffersNot(Member(a, p[0]), p[1..]); }
  }

  lemma DiffersCons(a: Json, b: Json, k: string, p: Keys)
    ensures Differs(a, b, [k] + p) <==> a.Obj? && b.Obj? && Differs(Member(a, k), Member(b, k), p)
  {
    assert ([k] + p)[1..] == p;
  }

  lemma {:induction false} PatchedElsewhere(a: Json, b: Json, q: Keys)
    requires a.Obj? && b.Obj?
    requires forall p: Keys :: p <= q ==> !Differs(a, b, p)
    ensures View(Patched(a, b), q) == View(a, q)
    decreases |q|
  {
    if q != [] {
      var x, y := Member(a, q[0]), Member(b, q[0]);
      forall p: Keys | p <= q[1..] ensures !Differs(x, y, p) {
        assert [q[0]] + p <= q;
        DiffersCons(a, b, q[0], p);
      }
      assert !Differs(x, y, []);
      if x != y { PatchedElsewhere(x, y, q[1..]); }
    }
  }

  // ----- views while the changes are being applied -----

  lemma {:induction false} PutView(j: Json, p: Keys, v: Json, q: Keys)
    requires p != [] && View(j, p[..|p| - 1]) == Branch
    ensures View(Put(j, p, v), q) == if p <= q then View(v, q[|p|..]) else View(j, q)
    decreases |p|
  {
    if q != [] && q[0] == p[0] {
      if |p| == 1 {
        assert p <= q;
      } else {
        var child := Member(j, p[0]);
        assert p[..|p| - 1][1..] == p[1..][..|p[1..]| - 1];
        PutView(child, p[1..], v, q[1..]);
        assert p <= q <==> p[1..] <= q[1..];
        if p <= q { assert q[1..][|p[1..]|..] == q[|p|..]; }
      }
    }
  }

  lemma {:induction false} ParentIsBranch(a: Json, b: Json, p: Keys)
    requires Differs(a, b, p) && p != []
    ensures View(a, p[..|p| - 1]) == Branch
    decreases |p|
  {
    if |p| > 1 {
      ParentIsBranch(Member(a, p[0]), Member(b, p[0]), p[1..]);
      assert p[..|p| - 1][1..] == p[1..][..|p[1..]| - 1];
    }
  }

  // One change: what its path covers is replaced, the rest stays.
  lemma ChangeView(j: Json, c: Change, p: Keys, q: Keys)
    requires p != [] && Text.Split(c.path, '.') == p
    requires j.Obj? && View(j, p[..|p| - 1]) == Branch
    ensures View(ApplyChange(j, c), q) == if p <= q then Result(c.current, q[|p|..]) else View(j, q)
  {
    if c.current == Null { RemoveView(j, p, q); } else { PutView(j, p, c.current, q); }
  }

  lemma LocationsApart(a: Json, b: Json, cs: seq<Change>, locs: seq<Keys>, m: nat, q: Keys)
    requires Lists(cs, locs, "", a, b) && m < |locs|
    ensures forall i :: 0 <= i < |locs| && i != m && locs[i] <= q ==> !(locs[m] <= q)
  {
    forall i | 0 <= i < |locs| && i != m && locs[i] <= q ensures !(locs[m] <= q) {
      assert locs[i] in locs && locs[m] in locs;
      if locs[m] <= q {
        if |locs[m]| <= |locs[i]| {
          DiffersApart(a, b, locs[m], locs[i]);
        } else {
          DiffersApart(a, b, locs[i], locs[m]);
        }
      }
    }
  }

  lemma {:induction false} ApplyView(a: Json, b: Json, cs: seq<Change>, locs: seq<Keys>, n: nat, q: Keys)
    requires a.Obj? && b.Obj? && AllFaithful(a, b)
    requires Lists(cs, locs, "", a, b) && n <= |cs|
    ensures forall i :: 0 <= i < n && locs[i] <= q ==>
              View(ApplyAll(a, cs[..n]), q) == Result(At(b, locs[i]), q[|locs[i]|..])
    ensures (forall i :: 0 <= i < n ==> !(locs[i] <= q)) ==> View(ApplyAll(a, cs[..n]), q) == View(a, q)
    decreases n, 0
  {
    if n == 0 {
      assert cs[..0] == [];
    } else {
      var m := n - 1;
      assert cs[..n][..m] == cs[..m];
      ApplyView(a, b, cs, locs, m, q);
      ApplyStep(a, b, cs, locs, m, q);
      LocationsApart(a, b, cs, locs, m, q);
    }
  }

  lemma {:induction false} ApplyStep(a: Json, b: Json, cs: seq<Change>, locs: seq<Keys>, m: nat, q: Keys)
    requires a.Obj? && b.Obj? && AllFaithful(a, b)
    requires Lists(cs, locs, "", a, b) && m < |cs|
    ensures View(ApplyChange(ApplyAll(a, cs[..m]), cs[m]), q) ==
            if locs[m] <= q then Result(At(b, locs[m]), q[|locs[m]|..]) else View(ApplyAll(a, cs[..m]), q)
    decreases m, 1
  {
    var p := locs[m];
    assert Differs(a, b, p) by { assert p in locs; }
    PathIsFaithful(p);
    var parent := p[..|p| - 1];
    LocationsApart(a, b, cs, locs, m, p);
    ParentIsBranch(a, b, p);
    ApplyView(a, b, cs, locs, m, parent);
    assert forall i :: 0 <= i < m && locs[i] <= parent ==> locs[i] <= p;
    NoneAtRoot(a, b, locs, m);
    ApplyView(a, b, cs, locs, m, []);
    ChangeView(ApplyAll(a, cs[..m]), cs[m], p, q);
  }

  lemma NoneAtRoot(a: Json, b: Json, locs: seq<Keys>, n: nat)
    requires a.Obj? && b.Obj? && n <= |locs|
    requires forall p: Keys :: p in locs ==> Differs(a, b, p)
    ensures forall i :: 0 <= i < n ==> locs[i] != []
  {
    forall i | 0 <= i < n ensures locs[i] != [] {
      assert locs[i] in locs;
    }
  }

  // Where every difference lies where its path says, the change list, in
  // whatever order, is a patch up to null members, and is one exactly if and
  // only if no null member is lost or invented.
  lemma {:induction false} FaithfulDiffIsAPatch(a: Json, b: Json, cs: seq<Change>, locs: seq<Keys>)
    requires a.Obj? && b.Obj? && AllFaithful(a, b)
    requires Lists(cs, locs, "", a, b)
    ensures ApplyAll(a, cs) == b <==> NullSafe(a, b)
    ensures Prune(ApplyAll(a, cs)) == Prune(b)
  {
    var r := ApplyAll(a, cs);
    assert cs[..|cs|] == cs;
    forall q: Keys ensures View(r, q) == View(Patched(a, b), q) {
      ApplyView(a, b, cs, locs, |cs|, q);
      if i :| 0 <= i < |cs| && locs[i] <= q {
        assert locs[i] in locs;
        PatchedAtChange(a, b, locs[i], q);
      } else {
        forall p: Keys | p <= q ensures !Differs(a, b, p) {
          assert forall i :: 0 <= i < |locs| ==> locs[i] != p;
        }
        PatchedElsewhere(a, b, q);
      }
    }
    ViewsDetermine(r, Patched(a, b));
    PatchedExactly(a, b);
    PatchedPrune(a, b);
  }

  // ----- what an empty change list means -----

  ghost predicate NoneDiffers(a: Json, b: Json) {
    forall p: Keys :: !Differs(a, b, p)
  }

  lemma {:induction false} NoDifference(a: Json, b: Json)
    ensures NoneDiffers(a, b) <==> Prune(a) == Prune(b)
    decreases a.Obj? && b.Obj?, a
  {
    if a.Obj? && b.Obj? {
      forall k ensures NoneDiffers(Member(a, k), Member(b, k)) <==> SamePruned(a, b, k) {
        NoDifference(Member(a, k), Member(b, k));
      }
      PruneMembers(a, b);
      if Prune(a) == Prune(b) {
        forall p: Keys ensures !Differs(a, b, p) {
          if p != [] {
            assert SamePruned(a, b, p[0]);
            assert NoneDiffers(Member(a, p[0]), Member(b, p[0]));
          }
        }
      } else {
        var k :| !SamePruned(a, b, k);
        var p: Keys :| Differs(Member(a, k), Member(b, k), p);
        DiffersCons(a, b, k, p);
      }
    } else {
      assert Prune(a) == Prune(b) <==> a == b;
      if a == b {
        forall p: Keys ensures !Differs(a, b, p) {
        }
      } else {
        assert Differs(a, b, []);
      }
    }
  }

  predicate SamePruned(a: Json, b: Json, k: string) {
    Prune(Member(a, k)) == Prune(Member(b, k))
  }

  lemma PruneMembers(a: Json, b: Json)
    requires a.Obj? && b.Obj?
    ensures Prune(a) == Prune(b) <==> forall k :: SamePruned(a, b, k)
  {
    var x, y := Prune(a).members, Prune(b).members;
    forall k ensures SamePruned(a, b, k) <==> ((k in x <==> k in y) && (k in x ==> k in y && x[k] == y[k])) {
    }
    if forall k :: SamePruned(a, b, k) {
      assert x == y by {
        forall k ensures (k in x <==> k in y) && (k in x ==> k in y && x[k] == y[k]) {
          assert SamePruned(a, b, k);
        }
      }
    }
  }

  // No member along the object spine is null.
  predicate NullFree(j: Json)
    decreases j
  {
    j.Obj? ==> forall k :: k in j.members ==> j.members[k] != Null && NullFree(j.members[k])
  }

  lemma {:induction false} PruneNullFree(j: Json)
    requires NullFree(j)
    ensures Prune(j) == j
    decreases j
  {
    if j.Obj? {
      forall k | k in j.members ensures Prune(j.members[k]) == j.members[k] {
        PruneNullFree(j.members[k]);
      }
      assert Prune(j).members == j.members;
    }
  }

  // The change list is empty exactly when the documents agree up to null
  // members; without null members it is empty exactly when they are equal.
  lemma EmptyDiffMeaning(a: Json, b: Json, cs: seq<Change>, locs: seq<Keys>)
    requires Lists(cs, locs, "", a, b)
    ensures cs == [] <==> Prune(a) == Prune(b)
    ensures NullFree(a) && NullFree(b) ==> (cs == [] <==> a == b)
  {
    NoDifference(a, b);
    if cs == [] {
      forall p: Keys ensures !Differs(a, b, p) {
        assert p !in locs;
      }
    } else {
      assert locs[0] in locs && Differs(a, b, locs[0]);
    }
    if NullFree(a) && NullFree(b) { PruneNullFree(a); PruneNullFree(b); }
  }

  // Pruning hides what is null and everything below, and nothing else.
  lemma {:induction false} PruneView(j: Json, q: Keys)
    ensures View(Prune(j), q) == if NullOn(j, q) then Missing else View(j, q)
    decreases |q|
  {
    if q != [] {
      var k, child := q[0], Member(j, q[0]);
      NullOnCons(j, q);
      if j.Obj? && k in j.members && child != Null {
        PruneView(child, q[1..]);
      }
    }
  }

  // On the way to q, or there, something is null or missing.
  ghost predicate NullOn(j: Json, q: Keys) { exists n :: 0 < n <= |q| && At(j, q[..n]) == Null }

  lemma NullOnCons(j: Json, q: Keys)
    requires q != []
    ensures NullOn(j, q) <==> Member(j, q[0]) == Null || NullOn(Member(j, q[0]), q[1..])
  {
    var child, r := Member(j, q[0]), q[1..];
    forall n | 0 <= n < |q| ensures At(j, q[..n + 1]) == At(child, r[..n]) {
      assert q[..n + 1][1..] == r[..n];
    }
    if NullOn(j, q) {
      var n :| 0 < n <= |q| && At(j, q[..n]) == Null;
      assert At(j, q[..n - 1 + 1]) == At(child, r[..n - 1]);
      if n == 1 { assert r[..0] == []; }
    }
    if Member(j, q[0]) == Null {
      assert r[..0] == [] && At(j, q[..0 + 1]) == At(child, r[..0]);
    }
    if n :| 0 < n <= |r| && At(child, r[..n]) == Null {
      assert At(j, q[..n + 1]) == Null;
    }
  }
}
