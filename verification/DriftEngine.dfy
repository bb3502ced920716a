// Compare and CanonicalHash as they run: each document is a tree of mutable
// maps, ignored paths are deleted from it in place, and the differences are
// appended to one shared list which is then sorted.
module DriftEngine {
  import opened Common
  import opened Json
  import opened DriftModel
  import DriftOrder
  import DriftPatch
  import opened DriftReport
  import Sorting
  import Text

  // A value of a Go map[string]any. Only maps are ever written to; arrays are
  // replaced or kept whole, so they are held as values.
  datatype Slot = Scalar(json: Json) | Nested(inner: GoMap)

  class GoMap {
    var members: map<string, Slot>
    ghost var Repr: set<GoMap>

    // The nested maps of this map are apart from it and from each other.
    ghost predicate Wired()
      reads this, Repr
    {
      && this in Repr
      && (forall k :: k in members && members[k].Scalar? ==> !members[k].json.Obj?)
      && (forall k :: k in members && members[k].Nested? ==>
            members[k].inner in Repr && members[k].inner.Repr <= Repr && this !in members[k].inner.Repr)
      && (forall k, l :: k in members && l in members && k != l && members[k].Nested? && members[l].Nested? ==>
            members[k].inner.Repr !! members[l].inner.Repr)
    }

    // A tree of maps: no map is reached twice.
    ghost predicate Valid()
      reads this, Repr
      ensures Valid() ==> this in Repr
      decreases Repr
    {
      && Wired()
      && forall k :: k in members && members[k].Nested? ==> members[k].inner.Valid()
    }

    // The document this map stands for: what json.Marshal writes of it.
    function Tree(): (j: Json)
      requires Valid()
      reads this, Repr
      ensures j.Obj? && j.members.Keys == members.Keys
      decreases Repr
    {
      Obj(map k | k in members :: if members[k].Scalar? then members[k].json else members[k].inner.Tree())
    }

    // An empty map.
    constructor ()
      ensures Valid() && fresh(Repr) && Tree() == Obj(map[])
    {
      members := map[];
      Repr := {this};
    }

    // Storing a fresh value under a key.
    method Insert(key: string, slot: Slot, ghost value: Json)
      requires Valid() && key !in members
      requires slot.Scalar? ==> slot.json == value && !value.Obj?
      requires slot.Nested? ==> slot.inner.Valid() && slot.inner.Repr !! Repr && slot.inner.Tree() == value
      modifies this
      ensures Valid()
      ensures Repr == old(Repr) + if slot.Nested? then slot.inner.Repr else {}
      ensures Tree() == Obj(old(Tree()).members[key := value])
    {
      ghost var was := members;
      members := members[key := slot];
      if slot.Nested? {
        Repr := Repr + slot.inner.Repr;
      }
      forall k | k in members && members[k].Nested?
        ensures var o := members[k].inner; this !in o.Repr && o.Valid() && o.Tree() == old(o.Tree())
      {
        assert k != key ==> k in was;
      }
      assert Wired();
      Complete(this, Obj(old(Tree()).members[key := value]), key);
    }
  }

  // Apart from what is at one key, m stands for the members of j.
  ghost predicate StandsFor(m: GoMap, j: Json, key: string)
    reads m, m.Repr
  {
    && m.Wired() && j.Obj? && m.members.Keys == j.members.Keys
    && forall k :: k in m.members && k != key ==>
         (m.members[k].Scalar? ==> m.members[k].json == j.members[k])
         && (m.members[k].Nested? ==> m.members[k].inner.Valid() && m.members[k].inner.Tree() == j.members[k])
  }

  lemma Complete(m: GoMap, j: Json, key: string)
    requires StandsFor(m, j, key) && key in m.members
    requires m.members[key].Scalar? ==> m.members[key].json == j.members[key]
    requires m.members[key].Nested? ==> m.members[key].inner.Valid() && m.members[key].inner.Tree() == j.members[key]
    ensures m.Valid() && m.Tree() == j
  {
    assert m.Tree().members == j.members;
  }

  ghost function Without(m: map<string, Json>, keys: set<string>): map<string, Json> {
    map k | k in m && k !in keys :: m[k]
  }

  // json.Unmarshal of an object into a fresh map.
  method Build(j: Json) returns (r: GoMap)
    requires j.Obj?
    ensures r.Valid() && fresh(r.Repr) && r.Tree() == j
    decreases j, 0
  {
    hide GoMap.Valid, GoMap.Wired, GoMap.Tree;
    r := new GoMap();
    var todo := j.members.Keys;
    while todo != {}
      invariant todo <= j.members.Keys
      invariant r.Valid() && fresh(r.Repr)
      invariant r.Tree() == Obj(Without(j.members, todo))
      decreases |todo|
    {
      var k :| k in todo;
      var v := j.members[k];
      var slot := Scalar(v);
      if v.Obj? {
        var child := Build(v);
        slot := Nested(child);
      }
      assert k !in r.members by { assert k !in r.Tree().members; }
      r.Insert(k, slot, v);
      assert Without(j.members, todo)[k := v] == Without(j.members, todo - {k});
      todo := todo - {k};
    }
  }

  // maps are the nested maps met when following the keys p from root.
  ghost predicate Trail(maps: seq<GoMap>, p: Keys)
    reads maps
  {
    && |maps| == |p| + 1
    && forall t :: 0 <= t < |p| ==> p[t] in maps[t].members && maps[t].members[p[t]] == Nested(maps[t + 1])
  }

  lemma {:induction false} TrailNests(maps: seq<GoMap>, p: Keys)
    requires Trail(maps, p) && maps[0].Valid()
    ensures forall t :: 0 <= t < |maps| ==>
              maps[t].Valid() && maps[|maps| - 1] in maps[t].Repr && maps[t].Repr <= maps[0].Repr
  {
    if p != [] {
      assert maps[0].members[p[0]] == Nested(maps[1]);
      TrailNests(maps[1..], p[1..]);
      forall t | 0 < t < |maps|
        ensures maps[t].Valid() && maps[|maps| - 1] in maps[t].Repr && maps[t].Repr <= maps[0].Repr
      {
        assert maps[t] == maps[1..][t - 1];
      }
    }
  }

  // Where the trail ends before the path does, there is nothing to delete.
  lemma {:induction false} NothingToRemove(maps: seq<GoMap>, p: Keys, n: nat)
    requires n + 1 < |p| && Trail(maps, p[..n]) && maps[0].Valid()
    requires !(p[n] in maps[n].members && maps[n].members[p[n]].Nested?)
    ensures RemoveAt(maps[0].Tree(), p) == maps[0].Tree()
    decreases n
  {
    var m, j := maps[0], maps[0].Tree();
    if n > 0 {
      assert forall t :: 0 <= t < n ==> p[..n][t] == p[t];
      assert m.members[p[0]] == Nested(maps[1]);
      assert p[..n][1..] == p[1..][..n - 1];
      NothingToRemove(maps[1..], p[1..], n - 1);
      assert j.members[p[0] := j.members[p[0]]] == j.members;
    }
  }

  // The document of a root that may be Go's nil map, which marshals as null.
  function Document(root: GoMap?): Json
    requires root != null ==> root.Valid()
    reads if root == null then {} else {root} + root.Repr
  {
    if root == null then Null else root.Tree()
  }

  ghost function Footprint(root: GoMap?): set<GoMap>
    reads root
  {
    if root == null then {} else root.Repr
  }

  method Remove(root: GoMap?, path: string)
    requires root != null ==> root.Valid()
    modifies Footprint(root)
    ensures root != null ==> root.Valid() && root.Repr == old(root.Repr)
    ensures Document(root) == RemoveAt(old(Document(root)), Text.Split(path, '.'))
  {
    var parts := Text.Split(path, '.');
    var current := root;
    ghost var maps: seq<GoMap> := if root == null then [] else [root];
    var i := 0;
    while i < |parts|
      invariant 0 <= i < |parts|
      invariant root == null ==> current == null
      invariant root != null ==> Trail(maps, parts[..i]) && maps[0] == root && maps[i] == current
      invariant root != null ==> root.Valid() && current.Valid() && current in root.Repr && current.Repr <= root.Repr
      invariant unchanged(Footprint(root))
    {
      var part := parts[i];
      if i == |parts| - 1 {
        if current != null {
          Delete(maps, current, parts);
        }
        return;
      }
      if current == null {
        return;
      }
      if !(part in current.members && current.members[part].Nested?) {
        NothingToRemove(maps, parts, i);
        return;
      }
      current := current.members[part].inner;
      maps := maps + [current];
      i := i + 1;
    }
  }

  // delete(current, key): the map loses the key, and no map that does not
  // reach it notices.
  method DeleteKey(current: GoMap, key: string, ghost others: set<GoMap>)
    requires current.Valid()
    requires forall o :: o in others ==> o.Valid() && current !in o.Repr
    modifies current`members
    ensures current.Valid()
    ensures current.Tree() == RemoveAt(old(current.Tree()), [key])
    ensures forall o :: o in others ==> o.Valid() && o.Tree() == old(o.Tree())
  {
    ghost var before := current.Tree();
    current.members := current.members - {key};
    forall k | k in current.members && current.members[k].Nested?
      ensures var o := current.members[k].inner; o.Valid() && o.Tree() == old(o.Tree())
    {
      assert current !in old(current.members[k].inner.Repr);
    }
    LosesKey(current, before, key);
  }

  // A map that has lost a key stands for its document without it.
  lemma LosesKey(m: GoMap, before: Json, key: string)
    requires m.Valid() && before.Obj? && m.members.Keys == before.members.Keys - {key}
    requires forall k :: k in m.members ==>
               before.members[k] == if m.members[k].Scalar? then m.members[k].json else m.members[k].inner.Tree()
    ensures m.Tree() == RemoveAt(before, [key])
  {
    assert m.Tree().members == before.members - {key};
  }

  ghost function Trees(maps: seq<GoMap>): (r: seq<Json>)
    requires forall m :: m in maps ==> m.Valid()
    reads maps, set m, o | m in maps && o in m.Repr :: o
    ensures |r| == |maps| && forall t :: 0 <= t < |maps| ==> r[t] == maps[t].Tree()
  {
    if maps == [] then [] else [maps[0].Tree()] + Trees(maps[1..])
  }

  ghost predicate Beside(m: GoMap, j: Json, key: string, end: GoMap, others: set<GoMap>)
    reads m, m.Repr
  {
    && m != end && StandsFor(m, j, key)
    && forall k :: k in m.members && k != key && m.members[k].Nested? ==> m.members[k].inner in others
  }

  // The nested maps beside a trail do not reach its end.
  lemma BesideTrail(maps: seq<GoMap>, p: Keys, before: seq<Json>, others: set<GoMap>)
    requires |p| == |maps| > 0 && Trail(maps, p[..|p| - 1]) && maps[0].Valid()
    requires forall m :: m in maps ==> m.Valid()
    requires before == Trees(maps)
    requires others == set o | o in maps[0].Repr && o.Valid() && maps[|p| - 1] !in o.Repr
    ensures forall t :: 0 <= t < |p| - 1 ==>
              && before[t].members[p[t]] == before[t + 1]
              && Beside(maps[t], before[t], p[t], maps[|p| - 1], others)
  {
    TrailNests(maps, p[..|p| - 1]);
    forall t | 0 <= t < |p| - 1
      ensures before[t].members[p[t]] == before[t + 1]
      ensures Beside(maps[t], before[t], p[t], maps[|p| - 1], others)
    {
      assert p[..|p| - 1][t] == p[t];
      assert maps[t].members[p[t]] == Nested(maps[t + 1]);
      assert maps[|p| - 1] in maps[t + 1].Repr;
    }
  }

  // A deletion at the end of a trail, carried up to its start.
  lemma {:induction false} Ascend(maps: seq<GoMap>, p: Keys, before: seq<Json>)
    requires |p| == |maps| == |before| > 0 && Trail(maps, p[..|p| - 1])
    requires forall t :: 0 <= t < |p| - 1 ==>
              StandsFor(maps[t], before[t], p[t])
              && before[t].members[p[t]] == before[t + 1]
    requires forall t :: 0 <= t < |p| ==> before[t].Obj?
    requires maps[|p| - 1].Valid() && maps[|p| - 1].Tree() == RemoveAt(before[|p| - 1], [p[|p| - 1]])
    ensures maps[0].Valid() && maps[0].Tree() == RemoveAt(before[0], p)
    decreases |p|
  {
    if |p| == 1 {
      assert p == [p[0]];
    } else {
      var m := maps[0];
      assert p[..|p| - 1][0] == p[0];
      assert m.members[p[0]] == Nested(maps[1]);
      assert p[..|p| - 1][1..] == p[1..][..|p[1..]| - 1];
      Ascend(maps[1..], p[1..], before[1..]);
      AscendOne(m, p, before[0], maps[1]);
    }
  }

  lemma AscendOne(m: GoMap, p: Keys, j: Json, child: GoMap)
    requires |p| > 1 && StandsFor(m, j, p[0])
    requires p[0] in m.members && m.members[p[0]] == Nested(child) && j.members[p[0]].Obj?
    requires child.Valid() && child.Tree() == RemoveAt(j.members[p[0]], p[1..])
    ensures m.Valid() && m.Tree() == RemoveAt(j, p)
  {
    Complete(m, Obj(j.members[p[0] := RemoveAt(j.members[p[0]], p[1..])]), p[0]);
  }

  // Deleting one key of one nested map, in place, deletes its path from the
  // whole document.
  method Delete(ghost maps: seq<GoMap>, current: GoMap, parts: Keys)
    requires |parts| == |maps| && |parts| > 0
    requires Trail(maps, parts[..|parts| - 1]) && maps[0].Valid() && maps[|maps| - 1] == current
    modifies current`members
    ensures maps[0].Valid()
    ensures maps[0].Tree() == RemoveAt(old(maps[0].Tree()), parts)
  {
    var n := |parts| - 1;
    TrailNests(maps, parts[..n]);
    ghost var before := Trees(maps);
    ghost var others := set o | o in maps[0].Repr && o.Valid() && current !in o.Repr;
    BesideTrail(maps, parts, before, others);
    DeleteBeside(maps, before, parts, current, others);
    Ascend(maps, parts, before);
  }

  method DeleteBeside(ghost maps: seq<GoMap>, ghost before: seq<Json>, parts: Keys, current: GoMap,
      ghost others: set<GoMap>)
    requires |parts| == |maps| == |before| > 0 && Trail(maps, parts[..|parts| - 1])
    requires maps[|parts| - 1] == current && current.Valid()
    requires forall o :: o in others ==> o.Valid() && current !in o.Repr
    requires forall t :: 0 <= t < |parts| - 1 ==> Beside(maps[t], before[t], parts[t], current, others)
    modifies current`members
    ensures current.Valid() && Trail(maps, parts[..|parts| - 1])
    ensures current.Tree() == RemoveAt(old(current.Tree()), [parts[|parts| - 1]])
    ensures forall t :: 0 <= t < |parts| - 1 ==> StandsFor(maps[t], before[t], parts[t])
  {
    DeleteKey(current, parts[|parts| - 1], others);
    forall t | 0 <= t < |parts| - 1
      ensures maps[t].members == old(maps[t].members) && StandsFor(maps[t], before[t], parts[t])
    {
      ghost var m := maps[t];
      assert old(Beside(m, before[t], parts[t], current, others));
      assert m.members == old(m.members);
    }
  }

  // ----- comparing -----

  class ChangeLog {
    var items: seq<Change>

    constructor ()
      ensures items == []
    {
      items := [];
    }
  }

  // The locations among locs are those that begin with a key of done.
  ghost predicate ListsUnder(cs: seq<Change>, locs: seq<Keys>, done: set<string>, path: string, a: Json, b: Json) {
    && |cs| == |locs|
    && (forall i, j :: 0 <= i < j < |locs| ==> locs[i] != locs[j])
    && (forall p: Keys :: p in locs <==> p != [] && p[0] in done && Differs(a, b, p))
    && (forall i :: 0 <= i < |cs| ==> cs[i] == Change(PathOf(path, locs[i]), At(a, locs[i]), At(b, locs[i])))
  }

  ghost function Prefixed(key: string, locs: seq<Keys>): (r: seq<Keys>)
    ensures |r| == |locs| && forall i :: 0 <= i < |locs| ==> r[i] == [key] + locs[i]
  {
    seq(|locs|, i requires 0 <= i < |locs| => [key] + locs[i])
  }

  lemma OneMoreKey(cs: seq<Change>, locs: seq<Keys>, done: set<string>, key: string,
                   more: seq<Change>, sub: seq<Keys>, path: string, a: Json, b: Json)
    requires a.Obj? && b.Obj? && key !in done
    requires ListsUnder(cs, locs, done, path, a, b)
    requires Lists(more, sub, NextPath(path, key), Member(a, key), Member(b, key))
    ensures ListsUnder(cs + more, locs + Prefixed(key, sub), done + {key}, path, a, b)
  {
    hide PathOf, At, Differs;
    var all := locs + Prefixed(key, sub);
    PrefixedApart(locs, done, key, sub);
    forall p: Keys ensures p in all <==> p != [] && p[0] in done + {key} && Differs(a, b, p) {
      DiffersFirst(a, b, p);
      PrefixedHolds(key, sub, p);
    }
    forall i | 0 <= i < |sub|
      ensures more[i] == Change(PathOf(path, [key] + sub[i]), At(a, [key] + sub[i]), At(b, [key] + sub[i]))
    {
      FirstKey(path, key, sub[i], a, b);
    }
  }

  lemma DiffersFirst(a: Json, b: Json, p: Keys)
    requires a.Obj? && b.Obj?
    ensures p != [] ==> (Differs(a, b, p) <==> Differs(Member(a, p[0]), Member(b, p[0]), p[1..]))
  {
  }

  lemma FirstKey(path: string, key: string, p: Keys, a: Json, b: Json)
    ensures PathOf(path, [key] + p) == PathOf(NextPath(path, key), p)
    ensures At(a, [key] + p) == At(Member(a, key), p) && At(b, [key] + p) == At(Member(b, key), p)
  {
    assert ([key] + p)[1..] == p;
  }

  lemma PrefixedHolds(key: string, sub: seq<Keys>, p: Keys)
    ensures p in Prefixed(key, sub) <==> p != [] && p[0] == key && p[1..] in sub
  {
    var r := Prefixed(key, sub);
    if p in r {
      var i :| 0 <= i < |sub| && r[i] == p;
      assert p[1..] == sub[i];
    }
    if p != [] && p[0] == key && p[1..] in sub {
      var i :| 0 <= i < |sub| && sub[i] == p[1..];
      assert r[i] == p;
    }
  }

  lemma PrefixedApart(locs: seq<Keys>, done: set<string>, key: string, sub: seq<Keys>)
    requires key !in done && forall p: Keys :: p in locs ==> p != [] && p[0] in done
    requires forall i, j :: 0 <= i < j < |locs| ==> locs[i] != locs[j]
    requires forall i, j :: 0 <= i < j < |sub| ==> sub[i] != sub[j]
    ensures var all := locs + Prefixed(key, sub); forall i, j :: 0 <= i < j < |all| ==> all[i] != all[j]
  {
    var all := locs + Prefixed(key, sub);
    forall i, j | 0 <= i < j < |all| ensures all[i] != all[j] {
      if i < |locs| && j >= |locs| {
        assert all[i] in locs && all[j][0] == key;
      } else if i >= |locs| {
        assert all[i][1..] == sub[i - |locs|] && all[j][1..] == sub[j - |locs|];
      }
    }
  }

  // diff: appends the differences of a and b to the log. found are the changes
  // appended, locs their locations.
  method Diff(path: string, a: Json, b: Json, log: ChangeLog) returns (ghost found: seq<Change>, ghost locs: seq<Keys>)
    modifies log
    ensures log.items == old(log.items) + found
    ensures Lists(found, locs, path, a, b)
    decreases a.Obj? && b.Obj?, a, 1
  {
    if a == b {
      found, locs := [], [];
      NothingListed(path, a);
    } else if a.Obj? && b.Obj? {
      found, locs := DiffMembers(path, a, b, log);
    } else {
      log.items := log.items + [Change(path, a, b)];
      found, locs := [Change(path, a, b)], [[]];
      OneListed(path, a, b);
    }
  }

  // diff of two objects: the keys are visited in no particular order.
  method DiffMembers(path: string, a: Json, b: Json, log: ChangeLog)
    returns (ghost found: seq<Change>, ghost locs: seq<Keys>)
    requires a.Obj? && b.Obj?
    modifies log
    ensures log.items == old(log.items) + found
    ensures Lists(found, locs, path, a, b)
    decreases true, a, 0
  {
    hide Lists, ListsUnder, Prefixed, Differs, At, PathOf;
    var keys := a.members.Keys + b.members.Keys;
    ghost var done: set<string> := {};
    found, locs := [], [];
    NoKeyListed(path, a, b);
    while keys != {}
      invariant keys !! done && keys + done == a.members.Keys + b.members.Keys
      invariant log.items == old(log.items) + found
      invariant ListsUnder(found, locs, done, path, a, b)
      decreases |keys|
    {
      var key :| key in keys;
      ghost var more, sub := Diff(NextPath(path, key), Member(a, key), Member(b, key), log);
      OneMoreKey(found, locs, done, key, more, sub, path, a, b);
      found, locs := found + more, locs + Prefixed(key, sub);
      keys, done := keys - {key}, done + {key};
    }
    assert done == a.members.Keys + b.members.Keys;
    AllKeysListed(found, locs, path, a, b);
  }

  lemma NoKeyListed(path: string, a: Json, b: Json)
    ensures ListsUnder([], [], {}, path, a, b)
  {
  }

  lemma NothingListed(path: string, a: Json)
    ensures Lists([], [], path, a, a)
  {
    forall p: Keys ensures !Differs(a, a, p) { DriftPatch.DiffersNot(a, p); }
  }

  lemma OneListed(path: string, a: Json, b: Json)
    requires a != b && !(a.Obj? && b.Obj?)
    ensures Lists([Change(path, a, b)], [[]], path, a, b)
  {
    forall p: Keys ensures p in [[]] <==> Differs(a, b, p) {
    }
  }

  lemma AllKeysListed(cs: seq<Change>, locs: seq<Keys>, path: string, a: Json, b: Json)
    requires a.Obj? && b.Obj?
    requires ListsUnder(cs, locs, a.members.Keys + b.members.Keys, path, a, b)
    ensures Lists(cs, locs, path, a, b)
  {
    forall p: Keys ensures p in locs <==> Differs(a, b, p) {
      if Differs(a, b, p) && p[0] !in a.members.Keys + b.members.Keys { DriftPatch.DiffersNot(Null, p[1..]); }
    }
  }

  method Normalise(value: Json) returns (r: Result<GoMap?, Error>)
    ensures if IsDocument(value) then r.Ok? else r == Err(NotAnObject)
    ensures r.Ok? && r.value != null ==> r.value.Valid() && fresh(r.value.Repr)
    ensures r.Ok? ==> Document(r.value) == value
  {
    if value.Obj? {
      var m := Build(value);
      r := Ok(m);
    } else if value.Null? {
      r := Ok(null);
    } else {
      r := Err(NotAnObject);
    }
  }

  // The loop of Compare over the ignored paths.
  method RemovePaths(a: GoMap?, b: GoMap?, paths: seq<string>)
    requires a != null ==> a.Valid()
    requires b != null ==> b.Valid()
    requires Footprint(a) !! Footprint(b)
    modifies Footprint(a), Footprint(b)
    ensures a != null ==> a.Valid()
    ensures b != null ==> b.Valid()
    ensures Document(a) == RemoveAll(old(Document(a)), paths)
    ensures Document(b) == RemoveAll(old(Document(b)), paths)
  {
    hide GoMap.Valid, GoMap.Wired, GoMap.Tree, RemoveAt;
    var i := 0;
    while i < |paths|
      invariant 0 <= i <= |paths|
      invariant Footprint(a) == old(Footprint(a)) && Footprint(b) == old(Footprint(b))
      invariant a != null ==> a.Valid()
      invariant b != null ==> b.Valid()
      invariant RemoveAll(Document(a), paths[i..]) == RemoveAll(old(Document(a)), paths)
      invariant RemoveAll(Document(b), paths[i..]) == RemoveAll(old(Document(b)), paths)
    {
      assert paths[i..][0] == paths[i] && paths[i..][1..] == paths[i + 1..];
      Remove(a, paths[i]);
      Remove(b, paths[i]);
      i := i + 1;
    }
  }

  method SortChanges(items: seq<Change>) returns (r: seq<Change>, ghost order: seq<nat>)
    ensures Sorting.Sorted(r, DriftOrder.PathLess) && Sorting.Rearranges(order, items, r)
  {
    var slice := new Change[|items|](i requires 0 <= i < |items| => items[i]);
    assert slice[..] == items;
    DriftOrder.PathLessIsAnOrder();
    order := Sorting.SortSlice(slice, DriftOrder.PathLess);
    r := slice[..];
  }

  // CanonicalHash: the hash Compare would report of the same document.
  method CanonicalHash<D>(value: Json, ignorePaths: seq<string>, hash: Json -> D) returns (r: Result<D, Error>)
    ensures r == if IsDocument(value) then Ok(hash(RemoveAll(value, ignorePaths))) else Err(NotAnObject)
  {
    var normal := Normalise(value);
    if normal.Err? {
      return Err(normal.error);
    }
    RemovePaths(normal.value, null, ignorePaths);
    r := Ok(hash(Document(normal.value)));
  }

  // Compare, for any hash of the marshalled document.
  method Compare<D(==)>(previous: Json, current: Json, ignorePaths: seq<string>, hash: Json -> D)
    returns (r: Result<Comparison<D>, Error>)
    ensures r.Ok? <==> IsDocument(previous) && IsDocument(current)
    ensures r.Ok? ==> Reports(r.value, previous, current, ignorePaths, hash)
    ensures r.Ok? ==>
              && r.value.previousHash == hash(RemoveAll(previous, ignorePaths))
              && r.value.currentHash == hash(RemoveAll(current, ignorePaths))
              && (r.value.drift <==> r.value.previousHash != r.value.currentHash)
    ensures r.Ok? ==>
              var changes := r.value.changes;
              forall i :: 0 <= i < |changes| - 1 ==> Text.InOrder(changes[i].path, changes[i + 1].path)
  {
    hide GoMap.Valid, GoMap.Wired, GoMap.Tree, RemoveAll, DriftOrder.IsDiff, Sorting.Sorted;
    var first := Normalise(previous);
    if first.Err? {
      return Err(first.error);
    }
    var second := Normalise(current);
    if second.Err? {
      return Err(second.error);
    }
    var a, b := first.value, second.value;
    RemovePaths(a, b, ignorePaths);
    var x, y := Document(a), Document(b);
    assert x == RemoveAll(previous, ignorePaths) && y == RemoveAll(current, ignorePaths);
    var ah, bh := hash(x), hash(y);
    var changes := ListChanges(RootView(x), RootView(y));
    DriftOrder.NeighboursInOrder(changes);
    r := Ok(Comparison(ah != bh, ah, bh, changes));
  }

  // The last two calls of Compare: diff from the root, then sort.
  method ListChanges(a: Json, b: Json) returns (changes: seq<Change>)
    ensures DriftOrder.IsDiff(changes, a, b)
    ensures Sorting.Sorted(changes, DriftOrder.PathLess)
  {
    var log := new ChangeLog();
    ghost var found, locs := Diff("", a, b, log);
    ghost var order;
    changes, order := SortChanges(log.items);
    DriftOrder.PermutedDiff(found, locs, changes, order, a, b);
  }
}
