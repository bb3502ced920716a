// What internal/drift/compare.go computes, on values: where two documents
// differ, how a location is spelled as a dotted path, and what deleting a
// dotted path does.
module DriftModel {
  import opened Json
  import Text

  datatype Change = Change(path: string, previous: Json, current: Json)

  // ----- locations and their spelling -----

  // The path diff passes to the recursive call for one key.
  function NextPath(path: string, key: string): string {
    if path == "" then key else path + "." + key
  }

  function PathOf(path: string, loc: Keys): string
    decreases |loc|
  {
    if loc == [] then path else PathOf(NextPath(path, loc[0]), loc[1..])
  }

  predicate DotFree(key: string) { '.' !in key }

  predicate PlainKey(key: string) { key != "" && DotFree(key) }

  lemma {:induction false} PathOfNonEmpty(path: string, loc: Keys)
    requires path != ""
    ensures PathOf(path, loc) == Text.Join([path] + loc, '.')
    decreases |loc|
  {
    if loc != [] {
      PathOfNonEmpty(NextPath(path, loc[0]), loc[1..]);
      assert ([path] + loc)[1..] == loc;
      assert ([NextPath(path, loc[0])] + loc[1..])[1..] == loc[1..];
      if |loc| > 1 {
        assert path + "." + (loc[0] + "." + Text.Join(loc[1..], '.')) == path + "." + loc[0] + "."
            + Text.Join(loc[1..], '.');
      }
    }
  }

  lemma {:induction false} PathOfJoins(loc: Keys)
    requires loc != []
    requires loc[0] != "" || |loc| == 1
    ensures PathOf("", loc) == Text.Join(loc, '.')
  {
    if loc[0] != "" {
      PathOfNonEmpty(loc[0], loc[1..]);
      assert [loc[0]] + loc[1..] == loc;
    }
  }

  // Empty leading keys leave no trace in the spelled path, so it splits into
  // fewer parts than there were keys.
  lemma {:induction false} LeadingEmptyKeysVanish(loc: Keys)
    requires |loc| > 1 && loc[0] == ""
    requires forall key :: key in loc ==> DotFree(key)
    ensures |Text.Split(PathOf("", loc), '.')| < |loc|
  {
    var rest := loc[1..];
    assert PathOf("", loc) == PathOf("", rest);
    if |rest| > 1 && rest[0] == "" {
      LeadingEmptyKeysVanish(rest);
    } else {
      PathOfJoins(rest);
      assert forall key :: key in rest ==> key in loc;
      Text.SplitJoinFree(rest, '.');
    }
  }

  // A location whose path leads back to it: no key holds a dot, and an empty
  // key does not come first unless it stands alone.
  predicate Faithful(loc: Keys) {
    && loc != []
    && (forall key :: key in loc ==> DotFree(key))
    && (loc[0] != "" || |loc| == 1)
  }

  lemma PathIsFaithful(loc: Keys)
    ensures Text.Split(PathOf("", loc), '.') == loc <==> Faithful(loc)
  {
    if loc != [] && forall key :: key in loc ==> DotFree(key) {
      if loc[0] != "" || |loc| == 1 {
        PathOfJoins(loc);
        Text.SplitJoinFree(loc, '.');
      } else {
        LeadingEmptyKeysVanish(loc);
      }
    }
  }

  // Two locations the engine cannot tell apart: {"a": {"b": …}} and {"a.b": …}.
  lemma DottedKeysCollide()
    ensures PathOf("", ["a", "b"]) == PathOf("", ["a.b"])
  {
    assert PathOf("", ["a", "b"]) == PathOf("a", ["b"]) == PathOf("a.b", []);
    assert PathOf("", ["a.b"]) == PathOf("a.b", []);
  }

  // ----- where two documents differ -----

  // p leads through objects of both documents to two unequal values that are
  // not both objects.
  predicate Differs(a: Json, b: Json, p: Keys)
    decreases |p|
  {
    if p == [] then a != b && !(a.Obj? && b.Obj?)
    else a.Obj? && b.Obj? && Differs(Member(a, p[0]), Member(b, p[0]), p[1..])
  }

  // cs lists every difference of a and b once, in some order; locs names the
  // location of each.
  ghost predicate Lists(cs: seq<Change>, locs: seq<Keys>, path: string, a: Json, b: Json) {
    && |cs| == |locs|
    && (forall i, j :: 0 <= i < j < |locs| ==> locs[i] != locs[j])
    && (forall p: Keys :: p in locs <==> Differs(a, b, p))
    && (forall i :: 0 <= i < |cs| ==> cs[i] == Change(PathOf(path, locs[i]), At(a, locs[i]), At(b, locs[i])))
  }

  lemma {:induction false} DiffersApart(a: Json, b: Json, p: Keys, q: Keys)
    requires Differs(a, b, p) && Differs(a, b, q) && p <= q
    ensures p == q
    decreases |p|
  {
    if p != [] {
      DiffersApart(Member(a, p[0]), Member(b, p[0]), p[1..], q[1..]);
    } else if q != [] {
      assert false;
    }
  }

  lemma {:induction false} DiffersValues(a: Json, b: Json, p: Keys)
    requires Differs(a, b, p)
    ensures At(a, p) != At(b, p) && !(At(a, p).Obj? && At(b, p).Obj?)
    decreases |p|
  {
    if p != [] { DiffersValues(Member(a, p[0]), Member(b, p[0]), p[1..]); }
  }

  // Every difference lies where its path says.
  ghost predicate AllFaithful(a: Json, b: Json) {
    forall p: Keys :: Differs(a, b, p) ==> Faithful(p)
  }

  // For example where the keys of the objects both documents share are non-empty
  // and dot-free.
  predicate PlainSpine(a: Json, b: Json)
    decreases a
  {
    a.Obj? && b.Obj? ==>
      forall k :: k in a.members.Keys + b.members.Keys ==>
        PlainKey(k) && (k in a.members && k in b.members ==> PlainSpine(a.members[k], b.members[k]))
  }

  lemma {:induction false} DiffersPlain(a: Json, b: Json, p: Keys)
    requires PlainSpine(a, b) && Differs(a, b, p)
    ensures forall key :: key in p ==> PlainKey(key)
    decreases |p|
  {
    if p != [] {
      var a', b' := Member(a, p[0]), Member(b, p[0]);
      if p[1..] == [] {
        assert p[0] in a.members || p[0] in b.members;
        assert p == [p[0]];
      } else {
        assert a'.Obj? && b'.Obj?;
        DiffersPlain(a', b', p[1..]);
        assert p == [p[0]] + p[1..];
      }
    }
  }

  lemma PlainIsFaithful(a: Json, b: Json)
    requires a.Obj? && b.Obj? && PlainSpine(a, b)
    ensures AllFaithful(a, b)
  {
    forall p: Keys | Differs(a, b, p) ensures Faithful(p) {
      DiffersPlain(a, b, p);
      forall key | key in p ensures DotFree(key) { assert PlainKey(key); }
      assert PlainKey(p[0]);
    }
  }

  // ----- deleting a dotted path -----

  // remove on the parts of a path.
  function RemoveAt(j: Json, p: Keys): Json
    requires p != []
    decreases |p|
  {
    if !j.Obj? then j
    else if |p| == 1 then Obj(j.members - {p[0]})
    else if p[0] in j.members && j.members[p[0]].Obj?
    then Obj(j.members[p[0] := RemoveAt(j.members[p[0]], p[1..])])
    else j
  }

  function RemoveAll(j: Json, paths: seq<string>): Json
    decreases |paths|
  {
    if paths == [] then j else RemoveAll(RemoveAt(j, Text.Split(paths[0], '.')), paths[1..])
  }

  // Deleting p hides p and everything below it, and nothing else.
  lemma {:induction false} RemoveView(j: Json, p: Keys, q: Keys)
    requires p != []
    ensures View(RemoveAt(j, p), q) == if j.Obj? && p <= q then Missing else View(j, q)
    decreases |p|
  {
    if j.Obj? && q != [] && |p| > 1 && p[0] in j.members {
      if j.members[p[0]].Obj? {
        RemoveView(j.members[p[0]], p[1..], q[1..]);
      } else if q[0] == p[0] && p <= q {
        assert q[1..] != [];
      }
    }
  }

  // q is an ignored path or lies below one.
  predicate Covered(paths: seq<string>, q: Keys) {
    exists i :: 0 <= i < |paths| && Text.Split(paths[i], '.') <= q
  }

  lemma {:induction false} RemoveAllView(j: Json, paths: seq<string>, q: Keys)
    requires j.Obj?
    ensures RemoveAll(j, paths).Obj?
    ensures View(RemoveAll(j, paths), q) == if Covered(paths, q) then Missing else View(j, q)
    decreases |paths|
  {
    if paths != [] {
      var p := Text.Split(paths[0], '.');
      RemoveView(j, p, q);
      RemoveView(j, p, []);
      RemoveAllView(RemoveAt(j, p), paths[1..], q);
      assert Covered(paths, q) <==> p <= q || Covered(paths[1..], q) by {
        if Covered(paths[1..], q) {
          var i :| 0 <= i < |paths[1..]| && Text.Split(paths[1..][i], '.') <= q;
          assert paths[i + 1] == paths[1..][i];
        }
        if Covered(paths, q) {
          var i :| 0 <= i < |paths| && Text.Split(paths[i], '.') <= q;
          if i > 0 { assert paths[1..][i - 1] == paths[i]; }
        }
      }
    }
  }

  lemma {:induction false} RemoveAllNonObject(j: Json, paths: seq<string>)
    requires !j.Obj?
    ensures RemoveAll(j, paths) == j
  {
    if paths != [] { RemoveAllNonObject(j, paths[1..]); }
  }
}
