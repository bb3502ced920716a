// The change list as a patch, exactly: applying it to the previous document
// gives the current one, up to null members, if and only if every difference
// lies where its path says.
//
// A change is applied where its path leads, which need not be where it was
// found. Suppose the patch works although some difference is not faithful. That
// difference is then set right by a change found somewhere else, at an
// unfaithful location again, whose path leads to it or above it. Keys with dots
// cannot be written by paths, so what stands under them was copied from deeper
// in the document itself, and following the copies never ends.
module DriftFaithful {
  import opened Common
  import opened Json
  import opened DriftModel
  import opened DriftPatch
  import Text

  // ----- one change, seen from a location -----

  function Target(c: Change): (s: Keys)
    ensures s != [] && forall key :: key in s ==> DotFree(key)
  {
    Text.Split(c.path, '.')
  }

  // The change decides what is at q.
  predicate Reaches(j: Json, c: Change, q: Keys) {
    var s := Target(c);
    s <= q && (c.current == Null || At(j, s[..|s| - 1]).Obj?)
  }

  lemma {:induction false} PutAt(j: Json, s: Keys, v: Json, q: Keys)
    requires s != []
    ensures s <= q && At(j, s[..|s| - 1]).Obj? ==> At(Put(j, s, v), q) == At(v, q[|s|..])
    ensures (s <= q && !At(j, s[..|s| - 1]).Obj?) || (!(s <= q) && !(q < s)) ==> At(Put(j, s, v), q) == At(j, q)
    ensures q < s ==> At(Put(j, s, v), q).Obj? == At(j, q).Obj? && (!At(j, q).Obj? ==> At(Put(j, s, v), q) == At(j, q))
    decreases |s|
  {
    var child := Member(j, s[0]);
    if |s| == 1 {
      assert s[..0] == [];
      if q != [] { assert s <= q <==> s[0] == q[0]; }
    } else {
      assert s[..|s| - 1][1..] == s[1..][..|s[1..]| - 1];
      if !child.Obj? { AtScalar(child, s[1..][..|s[1..]| - 1]); }
      if q != [] && q[0] == s[0] {
        assert s <= q <==> s[1..] <= q[1..];
        assert q < s <==> q[1..] < s[1..];
        if s <= q { assert q[1..][|s[1..]|..] == q[|s|..]; }
        PutAt(child, s[1..], v, q[1..]);
        PutScalar(child, s[1..], v);
      }
    }
  }

  lemma AtScalar(j: Json, p: Keys)
    requires !j.Obj?
    ensures !At(j, p).Obj?
  {
    if p != [] { AtNull(p[1..]); }
  }

  lemma PutScalar(j: Json, s: Keys, v: Json)
    requires s != []
    ensures !j.Obj? ==> Put(j, s, v) == j
  {
  }

  lemma {:induction false} RemoveAtAt(j: Json, s: Keys, q: Keys)
    requires s != []
    ensures s <= q ==> At(RemoveAt(j, s), q) == Null
    ensures !(s <= q) && !(q < s) ==> At(RemoveAt(j, s), q) == At(j, q)
    ensures q < s ==>
              At(RemoveAt(j, s), q).Obj? == At(j, q).Obj?
              && (!At(j, q).Obj? ==> At(RemoveAt(j, s), q) == At(j, q))
    decreases |s|
  {
    if q != [] {
      AtNull(q[1..]);
      if q[0] == s[0] {
        if |s| > 1 {
          var child := Member(j, s[0]);
          assert s <= q <==> s[1..] <= q[1..];
          assert q < s <==> q[1..] < s[1..];
          RemoveAtAt(child, s[1..], q[1..]);
          if !child.Obj? { assert RemoveAt(child, s[1..]) == child; }
        } else {
          assert s <= q;
        }
      }
    }
  }

  lemma ChangeAt(j: Json, c: Change, q: Keys)
    ensures Reaches(j, c, q) ==> At(ApplyChange(j, c), q) == At(c.current, q[|Target(c)|..])
    ensures !Reaches(j, c, q) && !(q < Target(c)) ==> At(ApplyChange(j, c), q) == At(j, q)
    ensures q < Target(c) ==>
              At(ApplyChange(j, c), q).Obj? == At(j, q).Obj?
                  && (!At(j, q).Obj? ==> At(ApplyChange(j, c), q) == At(j, q))
  {
    if c.current == Null {
      RemoveAtAt(j, Target(c), q);
      if Target(c) <= q { AtNull(q[|Target(c)|..]); }
    } else {
      PutAt(j, Target(c), c.current, q);
    }
  }

  // ----- all changes, seen from a location -----

  // The last of the first n changes that decides what is at q.
  function Last(a: Json, cs: seq<Change>, n: nat, q: Keys): (i: Option<nat>)
    requires n <= |cs|
    ensures i.Some? ==> i.value < n && Reaches(ApplyAll(a, cs[..i.value]), cs[i.value], q)
    ensures i.None? ==> forall k :: 0 <= k < n ==> !Reaches(ApplyAll(a, cs[..k]), cs[k], q)
  {
    if n == 0 then None
    else if Reaches(ApplyAll(a, cs[..n - 1]), cs[n - 1], q) then Some(n - 1)
    else Last(a, cs, n - 1, q)
  }

  function Decided(a: Json, cs: seq<Change>, n: nat, q: Keys): Json
    requires n <= |cs|
  {
    var i := Last(a, cs, n, q);
    if i.None? then At(a, q) else At(cs[i.value].current, q[|Target(cs[i.value])|..])
  }

  predicate Dotted(q: Keys) { exists key :: key in q && !DotFree(key) }

  lemma NotAboveTarget(c: Change, q: Keys)
    requires Dotted(q)
    ensures !(q <= Target(c))
  {
  }

  // What the last deciding change left at q stays there: later changes can only
  // work inside an object at q, and not where q has a key with a dot.
  lemma {:induction false} Traced(a: Json, cs: seq<Change>, n: nat, q: Keys)
    requires n <= |cs|
    ensures var v, w := Decided(a, cs, n, q), At(ApplyAll(a, cs[..n]), q);
            v.Obj? == w.Obj? && (!v.Obj? || Dotted(q) ==> v == w)
  {
    if n == 0 {
      assert cs[..0] == [];
    } else {
      assert cs[..n][..n - 1] == cs[..n - 1];
      var j, c := ApplyAll(a, cs[..n - 1]), cs[n - 1];
      Traced(a, cs, n - 1, q);
      ChangeAt(j, c, q);
      if Dotted(q) { NotAboveTarget(c, q); }
    }
  }

  // ----- a patch that works -----

  // The changes repair a into b, up to null members.
  ghost predicate Repairs(a: Json, b: Json, cs: seq<Change>, locs: seq<Keys>) {
    a.Obj? && b.Obj? && Lists(cs, locs, "", a, b) && Prune(ApplyAll(a, cs)) == Prune(b)
  }

  lemma {:induction false} PruneAt(j: Json, q: Keys)
    ensures At(Prune(j), q) == Prune(At(j, q))
    decreases |q|
  {
    if q != [] {
      assert Member(Prune(j), q[0]) == Prune(Member(j, q[0]));
      PruneAt(Member(j, q[0]), q[1..]);
    }
  }

  // A difference is set right by a change that reaches it; where it is not
  // faithful, that change was found at a location that is not faithful either.
  lemma Fixer(a: Json, b: Json, cs: seq<Change>, locs: seq<Keys>, p: Keys) returns (i: nat)
    requires Repairs(a, b, cs, locs) && Differs(a, b, p)
    ensures i < |cs| && Last(a, cs, |cs|, p) == Some(i)
    ensures Found(a, b, cs, locs, i) && Target(cs[i]) <= p
    ensures !Faithful(p) ==> !Faithful(locs[i])
  {
    hide ApplyAll, PathOf;
    var t := ApplyAll(a, cs);
    assert cs[..|cs|] == cs;
    Traced(a, cs, |cs|, p);
    PruneAt(t, p);
    PruneAt(b, p);
    DiffersValues(a, b, p);
    var last := Last(a, cs, |cs|, p);
    if last.None? { assert false; }
    i := last.value;
    FoundThere(a, b, cs, locs, i);
    if Faithful(locs[i]) {
      DiffersApart(a, b, locs[i], p);
    }
  }

  // Change i was found at locs[i].
  ghost predicate Found(a: Json, b: Json, cs: seq<Change>, locs: seq<Keys>, i: nat) {
    && i < |cs| && i < |locs| && Differs(a, b, locs[i])
    && Target(cs[i]) == Text.Split(PathOf("", locs[i]), '.')
    && cs[i].current == At(b, locs[i])
    && (Faithful(locs[i]) <==> Target(cs[i]) == locs[i])
  }

  lemma FoundThere(a: Json, b: Json, cs: seq<Change>, locs: seq<Keys>, i: nat)
    requires Lists(cs, locs, "", a, b) && i < |cs|
    ensures Found(a, b, cs, locs, i)
  {
    assert locs[i] in locs;
    PathIsFaithful(locs[i]);
  }

  // ----- how paths begin -----

  // How many empty keys a location begins with.
  function Lead(p: Keys): (n: nat)
    ensures n <= |p| && p[..n] == Empties(n) && (n < |p| ==> p[n] != "")
  {
    if p == [] || p[0] != "" then 0
    else
      var n := Lead(p[1..]);
      assert p[..n + 1] == [""] + p[1..][..n];
      n + 1
  }

  function Empties(n: nat): (p: Keys)
    ensures |p| == n && forall i :: 0 <= i < n ==> p[i] == ""
  {
    seq(n, i => "")
  }

  lemma {:induction false} PathSkipsEmpties(p: Keys)
    ensures PathOf("", p) == PathOf("", p[Lead(p)..])
    decreases |p|
  {
    if p != [] && p[0] == "" {
      PathSkipsEmpties(p[1..]);
      assert p[1..][Lead(p[1..])..] == p[Lead(p)..];
    }
  }

  // A path begins with the first key that is not empty, if that has no dot.
  lemma PathBegins(p: Keys)
    ensures Lead(p) == |p| ==> Text.Split(PathOf("", p), '.') == [""]
    ensures Lead(p) < |p| && DotFree(p[Lead(p)]) ==> Text.Split(PathOf("", p), '.')[0] == p[Lead(p)]
  {
    PathSkipsEmpties(p);
    var rest := p[Lead(p)..];
    if rest != [] && DotFree(rest[0]) {
      PathOfJoins(rest);
      if |rest| > 1 {
        Text.SplitCons(rest[0], Text.Join(rest[1..], '.'), '.');
      } else {
        Text.SplitOne(rest[0], '.');
      }
    }
  }

  // Where every difference gets set right, none begins with a dotted key.
  lemma BeginsDotFree(a: Json, b: Json, cs: seq<Change>, locs: seq<Keys>, p: Keys)
    requires Repairs(a, b, cs, locs) && Differs(a, b, p)
    ensures p != [] && DotFree(p[0])
  {
    var i := Fixer(a, b, cs, locs, p);
    assert Target(cs[i])[0] == p[0] && p[0] in Target(cs[i]);
  }

  // An unfaithful location whose path begins with an empty part: empty keys
  // only, at least two, or some empty keys and then one with a dot.
  ghost predicate Odd(a: Json, b: Json, q: Keys) {
    && Differs(a, b, q) && Lead(q) > 0
    && (if Lead(q) == |q| then |q| > 1 else !DotFree(q[Lead(q)]))
  }

  lemma OddWhenEmptyPart(a: Json, b: Json, cs: seq<Change>, locs: seq<Keys>, q: Keys)
    requires Repairs(a, b, cs, locs) && Differs(a, b, q) && !Faithful(q)
    requires Text.Split(PathOf("", q), '.')[0] == ""
    ensures Odd(a, b, q)
  {
    hide PathOf;
    BeginsDotFree(a, b, cs, locs, q);
    PathBegins(q);
  }

  // From any unfaithful difference one gets, by shorter and shorter paths, to
  // one that begins with an empty key.
  lemma {:induction false} SomeBeginsEmpty(a: Json, b: Json, cs: seq<Change>, locs: seq<Keys>, p: Keys)
    returns (r: Keys)
    requires Repairs(a, b, cs, locs) && Differs(a, b, p) && !Faithful(p)
    ensures Differs(a, b, r) && !Faithful(r) && r != [] && r[0] == ""
    decreases |PathOf("", p)|
  {
    hide PathOf, ApplyAll;
    BeginsDotFree(a, b, cs, locs, p);
    if p[0] == "" {
      r := p;
    } else {
      var i := Fixer(a, b, cs, locs, p);
      var s := Target(cs[i]);
      var key :| key in p && !DotFree(key);
      assert s != p by { assert key !in s; }
      PathOfJoins(p);
      Text.JoinGrows(s, p, '.');
      Text.JoinSplit(PathOf("", locs[i]), '.');
      r := SomeBeginsEmpty(a, b, cs, locs, locs[i]);
    }
  }

  // ----- how deep documents are -----

  ghost function Depth(j: Json): nat
    decreases j, 1, 0
  {
    if j.Obj? then 1 + DepthOf(j, j.members.Keys) else 0
  }

  ghost function DepthOf(j: Json, keys: set<string>): nat
    requires j.Obj? && keys <= j.members.Keys
    decreases j, 0, |keys|
  {
    if keys == {} then 0
    else
      var k :| k in keys;
      var d, rest := Depth(j.members[k]), DepthOf(j, keys - {k});
      if d > rest then d else rest
  }

  lemma {:induction false} DepthOfIsMaximum(j: Json, keys: set<string>, n: nat)
    requires j.Obj? && keys <= j.members.Keys
    ensures forall k :: k in keys ==> Depth(j.members[k]) <= DepthOf(j, keys)
    ensures (forall k :: k in keys ==> Depth(j.members[k]) <= n) ==> DepthOf(j, keys) <= n
    decreases |keys|
  {
    if keys != {} {
      var k :| k in keys && DepthOf(j, keys) ==
        var d, rest := Depth(j.members[k]), DepthOf(j, keys - {k}); if d > rest then d else rest;
      DepthOfIsMaximum(j, keys - {k}, n);
    }
  }

  lemma {:induction false} DepthBelow(j: Json, p: Keys)
    ensures At(j, p).Obj? ==> Depth(At(j, p)) + |p| <= Depth(j)
    ensures Depth(At(j, p)) <= Depth(j)
    decreases |p|
  {
    if p != [] {
      if j.Obj? && p[0] in j.members {
        DepthOfIsMaximum(j, j.members.Keys, 0);
        DepthBelow(j.members[p[0]], p[1..]);
      } else {
        AtNull(p[1..]);
      }
    }
  }

  // What stands under the dotted keys of an object.
  function DottedPart(j: Json): Json {
    if j.Obj? then Obj(map k | k in j.members && !DotFree(k) :: j.members[k]) else Null
  }

  lemma DottedPartDepth(j: Json)
    ensures Depth(DottedPart(j)) <= Depth(j)
    ensures j.Obj? ==> forall k :: k in j.members && !DotFree(k) ==> Depth(j.members[k]) < Depth(DottedPart(j))
  {
    if j.Obj? {
      var d := DottedPart(j);
      DepthOfIsMaximum(j, j.members.Keys, 0);
      DepthOfIsMaximum(d, d.members.Keys, DepthOf(j, j.members.Keys));
      forall k | k in j.members && !DotFree(k) ensures Depth(j.members[k]) < Depth(d) {
        assert k in d.members.Keys && d.members[k] == j.members[k];
      }
    }
  }

  // ----- following the copies -----

  // The current document without null members, after i empty keys.
  function Inner(b: Json, i: nat): Json { At(Prune(b), Empties(i)) }

  ghost function Weight(b: Json, i: nat): nat { Depth(DottedPart(Inner(b, i))) }

  // There is an object after i empty keys, and some change decided what it is.
  ghost predicate Copied(a: Json, b: Json, cs: seq<Change>, i: nat) {
    i > 0 && Inner(b, i).Obj? && Last(a, cs, |cs|, Empties(i)).Some?
  }

  lemma ReachesFurther(j: Json, c: Change, q: Keys, r: Keys)
    requires Reaches(j, c, q) && q <= r
    ensures Reaches(j, c, r)
  {
  }

  // Keys with dots cannot be part of a target, so what reaches beneath one
  // reaches above it.
  lemma ReachesAbove(j: Json, c: Change, q: Keys, r: Keys)
    requires Reaches(j, c, q + r) && r != [] && !DotFree(r[0])
    ensures Reaches(j, c, q)
  {
    var s := Target(c);
    assert (q + r)[|q|] == r[0];
    assert s == (q + r)[..|s|];
  }

  lemma {:induction false} LastAbove(a: Json, cs: seq<Change>, n: nat, q: Keys, d: string)
    requires n <= |cs| && !DotFree(d)
    ensures Last(a, cs, n, q + [d]) == Last(a, cs, n, q)
  {
    hide Reaches, ApplyAll;
    if n > 0 {
      var j, c := ApplyAll(a, cs[..n - 1]), cs[n - 1];
      LastAbove(a, cs, n - 1, q, d);
      if Reaches(j, c, q) { ReachesFurther(j, c, q, q + [d]); }
      if Reaches(j, c, q + [d]) { ReachesAbove(j, c, q, [d]); }
    }
  }

  lemma SomeFurther(a: Json, cs: seq<Change>, q: Keys, r: Keys)
    requires Last(a, cs, |cs|, q).Some? && q <= r
    ensures Last(a, cs, |cs|, r).Some?
  {
    hide Reaches, ApplyAll;
    var i := Last(a, cs, |cs|, q).value;
    ReachesFurther(ApplyAll(a, cs[..i]), cs[i], q, r);
  }

  lemma SomeAbove(a: Json, cs: seq<Change>, q: Keys, r: Keys)
    requires Last(a, cs, |cs|, q + r).Some? && r != [] && !DotFree(r[0])
    ensures Last(a, cs, |cs|, q).Some?
  {
    hide Reaches, ApplyAll;
    var i := Last(a, cs, |cs|, q + r).value;
    ReachesAbove(ApplyAll(a, cs[..i]), cs[i], q, r);
  }

  // An object some change decided is a copy from the current document, as far as
  // its dotted keys go.
  lemma CopyOf(a: Json, b: Json, cs: seq<Change>, locs: seq<Keys>, q: Keys) returns (t: nat, x: Keys)
    requires Repairs(a, b, cs, locs) && At(Prune(b), q).Obj? && Last(a, cs, |cs|, q).Some?
    ensures Last(a, cs, |cs|, q) == Some(t) && Found(a, b, cs, locs, t) && Target(cs[t]) <= q
    ensures x == locs[t] + q[|Target(cs[t])|..]
    ensures At(Prune(b), x).Obj? && DottedPart(At(Prune(b), x)) == DottedPart(At(Prune(b), q))
  {
    hide Repairs, Found, ApplyAll, PathOf;
    t := Last(a, cs, |cs|, q).value;
    FoundIn(a, b, cs, locs, t);
    var s := Target(cs[t]);
    x := locs[t] + q[|s|..];
    CopiedObject(a, b, cs, locs, q, t);
    var y, z := At(Prune(b), x), At(Prune(b), q);
    forall d | !DotFree(d) ensures Member(y, d) == Member(z, d) {
      CopiedMember(a, b, cs, locs, q, t, d);
    }
    SameDottedPart(b, x, q);
  }

  lemma FoundIn(a: Json, b: Json, cs: seq<Change>, locs: seq<Keys>, t: nat)
    requires Repairs(a, b, cs, locs) && t < |cs|
    ensures Found(a, b, cs, locs, t)
  {
    FoundThere(a, b, cs, locs, t);
  }

  lemma {:induction false} AtAt(j: Json, p: Keys, q: Keys)
    ensures At(j, p + q) == At(At(j, p), q)
    decreases |p|
  {
    if p == [] {
      assert p + q == q;
    } else {
      assert (p + q)[1..] == p[1..] + q;
      AtAt(Member(j, p[0]), p[1..], q);
    }
  }

  lemma CopiedObject(a: Json, b: Json, cs: seq<Change>, locs: seq<Keys>, q: Keys, t: nat)
    requires Repairs(a, b, cs, locs) && At(Prune(b), q).Obj?
    requires Last(a, cs, |cs|, q) == Some(t) && Found(a, b, cs, locs, t) && Target(cs[t]) <= q
    ensures At(Prune(b), locs[t] + q[|Target(cs[t])|..]).Obj?
  {
    var r := q[|Target(cs[t])|..];
    assert cs[..|cs|] == cs;
    Traced(a, cs, |cs|, q);
    PruneAt(ApplyAll(a, cs), q);
    AtAt(b, locs[t], r);
    PruneAt(b, locs[t] + r);
  }

  lemma CopiedMember(a: Json, b: Json, cs: seq<Change>, locs: seq<Keys>, q: Keys, t: nat, d: string)
    requires Repairs(a, b, cs, locs) && !DotFree(d)
    requires Last(a, cs, |cs|, q) == Some(t) && Found(a, b, cs, locs, t) && Target(cs[t]) <= q
    ensures Member(At(Prune(b), locs[t] + q[|Target(cs[t])|..]), d) == Member(At(Prune(b), q), d)
  {
    hide Reaches, ApplyAll, PathOf, Lists, Prune, Last, Text.Split;
    var s := Target(cs[t]);
    var r := q[|s|..];
    var done := ApplyAll(a, cs);
    assert cs[..|cs|] == cs;
    assert d in q + [d];
    LastAbove(a, cs, |cs|, q, d);
    Traced(a, cs, |cs|, q + [d]);
    assert (q + [d])[|s|..] == r + [d];
    AtAt(b, locs[t], r + [d]);
    assert locs[t] + r + [d] == locs[t] + (r + [d]);
    assert At(done, q + [d]) == At(b, locs[t] + r + [d]);
    PruneAt(done, q + [d]);
    PruneAt(b, locs[t] + r + [d]);
    AtOne(Prune(b), q, d);
    AtOne(Prune(b), locs[t] + r, d);
  }

  lemma AtOne(j: Json, q: Keys, d: string)
    ensures At(j, q + [d]) == Member(At(j, q), d)
  {
    AtAt(j, q, [d]);
    assert [d][1..] == [];
  }

  lemma SameDottedPart(b: Json, x: Keys, q: Keys)
    requires At(Prune(b), x).Obj? && At(Prune(b), q).Obj?
    requires forall d :: !DotFree(d) ==> Member(At(Prune(b), x), d) == Member(At(Prune(b), q), d)
    ensures DottedPart(At(Prune(b), x)) == DottedPart(At(Prune(b), q))
  {
    var y, z := At(Prune(b), x), At(Prune(b), q);
    PruneAt(b, x);
    PruneAt(b, q);
    forall d | !DotFree(d)
      ensures (d in y.members <==> d in z.members) && (d in y.members ==> y.members[d] == z.members[d])
    {
      assert Member(y, d) == Member(z, d);
      assert d in y.members ==> y.members[d] != Null;
      assert d in z.members ==> z.members[d] != Null;
    }
    assert DottedPart(y).members == DottedPart(z).members;
  }

  // What is copied to after i empty keys comes from further in, or from under a
  // dotted key and then weighs less.
  lemma CopyStep(a: Json, b: Json, cs: seq<Change>, locs: seq<Keys>, p: Keys, i: nat) returns (k: nat)
    requires Repairs(a, b, cs, locs) && Differs(a, b, p) && [""] < p
    requires Copied(a, b, cs, i)
    ensures Copied(a, b, cs, k)
    ensures Weight(b, i) < Weight(b, k) || (Weight(b, i) == Weight(b, k) && i < k)
  {
    hide Repairs, Reaches, ApplyAll, PathOf;
    var e := Empties(i);
    var t, x := CopyOf(a, b, cs, locs, e);
    var q, s := locs[t], Target(cs[t]);
    assert s == e[..|s|] && s[0] == e[0] == "";
    assert Faithful(q) ==> q == [""];
    if Faithful(q) {
      DiffersApart(a, b, q, p);
      assert false;
    }
    OddWhenEmptyPart(a, b, cs, locs, q);
    if Lead(q) == |q| {
      PathBegins(q);
      assert x == Empties(|q| + i - 1);
      k := |q| + i - 1;
      assert e <= Empties(k);
      SomeFurther(a, cs, e, Empties(k));
    } else {
      k := Lead(q);
      OddIsCopied(a, b, cs, locs, q);
      DottedWeighsLess(b, q, e[|s|..]);
    }
  }

  lemma OddIsCopied(a: Json, b: Json, cs: seq<Change>, locs: seq<Keys>, q: Keys)
    requires Repairs(a, b, cs, locs) && Odd(a, b, q) && Lead(q) < |q|
    ensures Copied(a, b, cs, Lead(q))
  {
    hide Reaches, ApplyAll, PathOf, Repairs, Lists, Differs, Prune, Last, Found, Text.Split;
    var l := Lead(q);
    var e, rest := Empties(l), q[l..];
    assert q == e + rest && rest[0] == q[l];
    var i := Fixer(a, b, cs, locs, q);
    SomeAbove(a, cs, e, rest);
    AboveIsObject(a, b, q, l);
    ObjectInPruned(b, e);
  }

  lemma ObjectInPruned(b: Json, q: Keys)
    requires At(b, q).Obj?
    ensures At(Prune(b), q).Obj?
  {
    PruneAt(b, q);
  }

  lemma {:induction false} AboveIsObject(a: Json, b: Json, q: Keys, l: nat)
    requires Differs(a, b, q) && l < |q|
    ensures At(b, q[..l]).Obj?
    decreases l
  {
    if l > 0 {
      assert q[..l][1..] == q[1..][..l - 1];
      AboveIsObject(Member(a, q[0]), Member(b, q[0]), q[1..], l - 1);
    }
  }

  lemma DottedWeighsLess(b: Json, q: Keys, r: Keys)
    requires Lead(q) < |q| && !DotFree(q[Lead(q)]) && At(Prune(b), q + r).Obj?
    ensures Depth(DottedPart(At(Prune(b), q + r))) < Weight(b, Lead(q))
  {
    hide Prune, Depth, DottedPart, At, Weight;
    var l := Lead(q);
    assert q + r == Empties(l) + [q[l]] + (q[l + 1..] + r);
    UnderDottedKey(b, l, q[l], q[l + 1..] + r);
  }

  lemma UnderDottedKey(b: Json, l: nat, d: string, rest: Keys)
    requires !DotFree(d) && At(Prune(b), Empties(l) + [d] + rest).Obj?
    ensures Depth(DottedPart(At(Prune(b), Empties(l) + [d] + rest))) < Weight(b, l)
  {
    hide Prune, Depth, DottedPart, At;
    var j := Inner(b, l);
    AtAt(Prune(b), Empties(l) + [d], rest);
    AtOne(Prune(b), Empties(l), d);
    DottedPartDepth(At(Member(j, d), rest));
    DepthBelow(Member(j, d), rest);
    DottedPartDepth(j);
    if !(j.Obj? && d in j.members) { AtNull(rest); }
  }

  function Missing(bound: nat, n: nat): nat { if n < bound then bound - n else 0 }

  // The copies cannot be followed for ever.
  lemma {:induction false} NothingCopied(a: Json, b: Json, cs: seq<Change>, locs: seq<Keys>, p: Keys, i: nat)
    requires Repairs(a, b, cs, locs) && Differs(a, b, p) && [""] < p
    ensures !Copied(a, b, cs, i)
    decreases Missing(Depth(Prune(b)) + 1, Weight(b, i)), Missing(Depth(Prune(b)) + 1, i)
  {
    if Copied(a, b, cs, i) {
      var k := CopyStep(a, b, cs, locs, p, i);
      WeightBound(b, i);
      WeightBound(b, k);
      NothingCopied(a, b, cs, locs, p, k);
    }
  }

  lemma WeightBound(b: Json, i: nat)
    requires Inner(b, i).Obj?
    ensures Weight(b, i) <= Depth(Prune(b)) && i <= Depth(Prune(b))
  {
    DepthBelow(Prune(b), Empties(i));
    DottedPartDepth(Inner(b, i));
  }

  lemma {:induction false} RepairsFaithfully(a: Json, b: Json, cs: seq<Change>, locs: seq<Keys>)
    requires Repairs(a, b, cs, locs)
    ensures AllFaithful(a, b)
  {
    hide Repairs, Found, Reaches, ApplyAll, PathOf;
    forall p: Keys | Differs(a, b, p) ensures Faithful(p) {
      if !Faithful(p) {
        var r := SomeBeginsEmpty(a, b, cs, locs, p);
        var k := SomethingCopied(a, b, cs, locs, r);
        NothingCopied(a, b, cs, locs, r, k);
      }
    }
  }

  lemma SomethingCopied(a: Json, b: Json, cs: seq<Change>, locs: seq<Keys>, r: Keys) returns (k: nat)
    requires Repairs(a, b, cs, locs) && Differs(a, b, r) && !Faithful(r) && r != [] && r[0] == ""
    ensures [""] < r && Copied(a, b, cs, k)
  {
    hide Reaches, ApplyAll, PathOf;
    BeginsDotFree(a, b, cs, locs, r);
    assert |r| == 1 ==> r == [""];
    var i := Fixer(a, b, cs, locs, r);
    var q := locs[i];
    assert Target(cs[i])[0] == "";
    OddWhenEmptyPart(a, b, cs, locs, q);
    if Lead(q) == |q| {
      k := 1;
      PathBegins(q);
      var e := Empties(1);
      assert e == [""] == Target(cs[i]) == r[..1];
      AboveIsObject(a, b, r, 1);
      PruneAt(b, e);
      FirstReached(a, cs, r, e, i);
    } else {
      k := Lead(q);
      OddIsCopied(a, b, cs, locs, q);
    }
  }

  lemma FirstReached(a: Json, cs: seq<Change>, r: Keys, e: Keys, i: nat)
    requires i < |cs| && Last(a, cs, |cs|, r) == Some(i) && Target(cs[i]) == e
    ensures Last(a, cs, |cs|, e).Some?
  {
    hide ApplyAll;
    assert Reaches(ApplyAll(a, cs[..i]), cs[i], e);
  }

  // The change list is a patch exactly when every difference lies where its path
  // says: then, in whatever order, it repairs the document up to null members.
  // It repairs it completely if moreover no null member is lost or invented, and
  // only then.
  lemma DiffIsAPatch(a: Json, b: Json, cs: seq<Change>, locs: seq<Keys>)
    requires a.Obj? && b.Obj? && Lists(cs, locs, "", a, b)
    ensures Prune(ApplyAll(a, cs)) == Prune(b) <==> AllFaithful(a, b)
    ensures ApplyAll(a, cs) == b <==> AllFaithful(a, b) && NullSafe(a, b)
  {
    if Prune(ApplyAll(a, cs)) == Prune(b) { RepairsFaithfully(a, b, cs, locs); }
    if AllFaithful(a, b) { FaithfulDiffIsAPatch(a, b, cs, locs); }
  }
}
