// What a comparison report tells its reader, for every pair of documents, every
// list of ignored paths and every hash. D is the type of digests.
module DriftReport {
  import opened Json
  import opened DriftModel
  import opened DriftPatch
  import DriftFaithful
  import DriftIgnore
  import DriftOrder
  import Sorting
  import Text

  datatype Comparison<D> = Comparison(drift: bool, previousHash: D, currentHash: D, changes: seq<Change>)
  datatype Error = NotAnObject

  // What json.Unmarshal accepts into a map: an object, or null for the nil map.
  predicate IsDocument(value: Json) { value.Obj? || value.Null? }

  // A nil map has no members.
  function RootView(document: Json): Json {
    if document.Null? then Obj(map[]) else document
  }

  // What Compare returns: the hashes and the sorted differences of what is left
  // of the two documents once the ignored paths are deleted.
  ghost predicate Reports<D>(c: Comparison<D>, previous: Json, current: Json, ignorePaths: seq<string>,
      hash: Json -> D) {
    var a, b := RemoveAll(previous, ignorePaths), RemoveAll(current, ignorePaths);
    && c.previousHash == hash(a) && c.currentHash == hash(b)
    && c.drift == (hash(a) != hash(b))
    && DriftOrder.IsDiff(c.changes, RootView(a), RootView(b))
    && Sorting.Sorted(c.changes, DriftOrder.PathLess)
  }

  // No two documents share a hash.
  ghost predicate Injective<D>(hash: Json -> D) {
    forall x, y :: hash(x) == hash(y) ==> x == y
  }

  // What diff is called on.
  function Compared(document: Json, ignorePaths: seq<string>): Json {
    RootView(RemoveAll(document, ignorePaths))
  }

  lemma ComparedIsObject(document: Json, ignorePaths: seq<string>)
    requires IsDocument(document)
    ensures Compared(document, ignorePaths).Obj?
    ensures document.Obj? ==> Compared(document, ignorePaths) == RemoveAll(document, ignorePaths)
  {
    RootFirst(document, ignorePaths);
    RemoveAllView(RootView(document), ignorePaths, []);
  }

  lemma RootFirst(document: Json, ignorePaths: seq<string>)
    ensures Compared(document, ignorePaths) == RemoveAll(RootView(document), ignorePaths)
  {
    DriftIgnore.KeepsKind(document, ignorePaths);
    if document.Null? { RemoveAllEmpty(ignorePaths); }
  }

  lemma {:induction false} RemoveAllEmpty(paths: seq<string>)
    ensures RemoveAll(Obj(map[]), paths) == Obj(map[])
  {
    if paths != [] {
      assert RemoveAt(Obj(map[]), Text.Split(paths[0], '.')) == Obj(map[]);
      RemoveAllEmpty(paths[1..]);
    }
  }

  // ----- the differences of the documents as given -----

  // The documents differ at p, which is neither ignored nor below an ignored path.
  predicate Shown(previous: Json, current: Json, ignorePaths: seq<string>, p: Keys) {
    Differs(RootView(previous), RootView(current), p) && !Covered(ignorePaths, p)
  }

  // Those are the differences of what is compared.
  lemma ComparedDiffers(previous: Json, current: Json, ignorePaths: seq<string>, p: Keys)
    ensures Differs(Compared(previous, ignorePaths), Compared(current, ignorePaths), p)
            <==> Shown(previous, current, ignorePaths, p)
  {
    RootFirst(previous, ignorePaths);
    RootFirst(current, ignorePaths);
    DriftIgnore.IgnoringFilters(RootView(previous), RootView(current), ignorePaths, p);
  }

  // Every shown difference lies where its path says.
  ghost predicate ShownFaithful(previous: Json, current: Json, ignorePaths: seq<string>) {
    forall p: Keys :: Shown(previous, current, ignorePaths, p) ==> Faithful(p)
  }

  // Shown differences that share a path agree in both their values, as compared.
  ghost predicate ShownApart(previous: Json, current: Json, ignorePaths: seq<string>) {
    var a, b := Compared(previous, ignorePaths), Compared(current, ignorePaths);
    forall p: Keys, q: Keys ::
      Shown(previous, current, ignorePaths, p) && Shown(previous, current, ignorePaths, q) ==>
        PathOf("", p) == PathOf("", q) ==> At(a, p) == At(a, q) && At(b, p) == At(b, q)
  }

  // No null member is lost or invented but at or below an ignored path.
  ghost predicate ShownNullSafe(previous: Json, current: Json, ignorePaths: seq<string>) {
    forall p: Keys :: NullLost(RootView(previous), RootView(current), p) ==> Covered(ignorePaths, p)
  }

  lemma ShownIsFaithful(previous: Json, current: Json, ignorePaths: seq<string>)
    ensures AllFaithful(Compared(previous, ignorePaths), Compared(current, ignorePaths))
            <==> ShownFaithful(previous, current, ignorePaths)
  {
    hide Compared, Differs, Shown, Faithful;
    forall p: Keys
      ensures Differs(Compared(previous, ignorePaths), Compared(current, ignorePaths), p)
              <==> Shown(previous, current, ignorePaths, p)
    {
      ComparedDiffers(previous, current, ignorePaths, p);
    }
  }

  lemma ShownIsApart(previous: Json, current: Json, ignorePaths: seq<string>)
    ensures DriftOrder.TellsApart(Compared(previous, ignorePaths), Compared(current, ignorePaths))
            <==> ShownApart(previous, current, ignorePaths)
  {
    hide Compared, Differs, Shown, PathOf, At;
    var a, b := Compared(previous, ignorePaths), Compared(current, ignorePaths);
    forall p: Keys ensures Differs(a, b, p) <==> Shown(previous, current, ignorePaths, p) {
      ComparedDiffers(previous, current, ignorePaths, p);
    }
    if ShownApart(previous, current, ignorePaths) {
      forall p: Keys, q: Keys | Differs(a, b, p) && Differs(a, b, q) && PathOf("", p) == PathOf("", q)
        ensures At(a, p) == At(a, q) && At(b, p) == At(b, q)
      {
      }
    }
    if DriftOrder.TellsApart(a, b) {
      forall p: Keys, q: Keys
        | && Shown(previous, current, ignorePaths, p) && Shown(previous, current, ignorePaths, q)
          && PathOf("", p) == PathOf("", q)
        ensures At(a, p) == At(a, q) && At(b, p) == At(b, q)
      {
      }
    }
  }

  lemma ShownNulls(previous: Json, current: Json, ignorePaths: seq<string>)
    requires IsDocument(previous) && IsDocument(current)
    ensures NullSafe(Compared(previous, ignorePaths), Compared(current, ignorePaths))
            <==> ShownNullSafe(previous, current, ignorePaths)
  {
    hide Compared, NullLost, Covered, RemoveAll;
    RootFirst(previous, ignorePaths);
    RootFirst(current, ignorePaths);
    NullSafeExactly(Compared(previous, ignorePaths), Compared(current, ignorePaths));
    forall p: Keys
      ensures NullLost(Compared(previous, ignorePaths), Compared(current, ignorePaths), p)
              <==> NullLost(RootView(previous), RootView(current), p) && !Covered(ignorePaths, p)
    {
      DriftIgnore.IgnoringFiltersNulls(RootView(previous), RootView(current), ignorePaths, p);
    }
  }

  // ----- one report only -----

  // Keys are visited in random order and the sort is not stable. All the same, a
  // report is the only one its documents can get, exactly when shown differences
  // that share a path agree in their values.
  lemma ReportIsUnique<D>(c: Comparison<D>, previous: Json, current: Json, ignorePaths: seq<string>, hash: Json -> D)
    requires Reports(c, previous, current, ignorePaths, hash)
    ensures (forall d: Comparison<D> :: Reports(d, previous, current, ignorePaths, hash) ==> d == c)
            <==> ShownApart(previous, current, ignorePaths)
  {
    hide DriftOrder.IsDiff, DriftOrder.TellsApart, ShownApart, Compared, Sorting.Sorted;
    ShownIsApart(previous, current, ignorePaths);
    var a, b := Compared(previous, ignorePaths), Compared(current, ignorePaths);
    ReportParts(c, previous, current, ignorePaths, hash);
    DriftOrder.DeterministicExactly(a, b, c.changes);
    if ds :| DriftOrder.IsDiff(ds, a, b) && Sorting.Sorted(ds, DriftOrder.PathLess) && ds != c.changes {
      ReportWith(c.(changes := ds), previous, current, ignorePaths, hash);
    } else {
      forall d: Comparison<D> | Reports(d, previous, current, ignorePaths, hash) ensures d == c {
        ReportParts(d, previous, current, ignorePaths, hash);
      }
    }
  }

  // Reporting the other way round exchanges the hashes and the two values of
  // every change, and nothing else: always as far as which changes are listed
  // goes, and in the same order exactly when reports are unique.
  lemma ReportSwaps<D>(c: Comparison<D>, previous: Json, current: Json, ignorePaths: seq<string>, hash: Json -> D)
    requires Reports(c, previous, current, ignorePaths, hash)
    ensures forall d: Comparison<D> :: Reports(d, current, previous, ignorePaths, hash) ==>
              && d == SwappedReport(c).(changes := d.changes)
              && multiset(d.changes) == multiset(DriftOrder.Swapped(c.changes))
    ensures (forall d: Comparison<D> :: Reports(d, current, previous, ignorePaths, hash) ==> d == SwappedReport(c))
            <==> ShownApart(previous, current, ignorePaths)
  {
    hide DriftOrder.IsDiff, DriftOrder.Swapped, Compared, ShownApart, Sorting.Sorted, Reports;
    var e := SwappedReport(c);
    SwappedReports(c, previous, current, ignorePaths, hash);
    ReportIsUnique(e, current, previous, ignorePaths, hash);
    ShownApartSymmetric(previous, current, ignorePaths);
    forall d: Comparison<D> | Reports(d, current, previous, ignorePaths, hash)
      ensures d == e.(changes := d.changes) && multiset(d.changes) == multiset(e.changes)
    {
      SameReport(d, e, current, previous, ignorePaths, hash);
    }
  }

  function SwappedReport<D>(c: Comparison<D>): Comparison<D> {
    Comparison(c.drift, c.currentHash, c.previousHash, DriftOrder.Swapped(c.changes))
  }

  lemma SwappedReports<D>(c: Comparison<D>, previous: Json, current: Json, ignorePaths: seq<string>, hash: Json -> D)
    requires Reports(c, previous, current, ignorePaths, hash)
    ensures Reports(SwappedReport(c), current, previous, ignorePaths, hash)
  {
    hide DriftOrder.IsDiff, Sorting.Sorted;
    DriftOrder.SwappedDiff(Compared(previous, ignorePaths), Compared(current, ignorePaths), c.changes);
  }

  // Two reports of the same documents differ at most in the order of their changes.
  lemma SameReport<D>(c: Comparison<D>, d: Comparison<D>, previous: Json, current: Json, ignorePaths: seq<string>,
                      hash: Json -> D)
    requires Reports(c, previous, current, ignorePaths, hash) && Reports(d, previous, current, ignorePaths, hash)
    ensures c == d.(changes := c.changes) && multiset(c.changes) == multiset(d.changes)
  {
    hide DriftOrder.IsDiff, Sorting.Sorted;
    DriftOrder.SameMultiset(Compared(previous, ignorePaths), Compared(current, ignorePaths), c.changes, d.changes);
  }

  lemma ShownApartSymmetric(previous: Json, current: Json, ignorePaths: seq<string>)
    ensures ShownApart(previous, current, ignorePaths) <==> ShownApart(current, previous, ignorePaths)
  {
    hide ShownApart, Compared;
    ShownIsApart(previous, current, ignorePaths);
    ShownIsApart(current, previous, ignorePaths);
    DriftOrder.TellsApartSymmetric(Compared(previous, ignorePaths), Compared(current, ignorePaths));
  }

  lemma ReportParts<D>(c: Comparison<D>, previous: Json, current: Json, ignorePaths: seq<string>, hash: Json -> D)
    requires Reports(c, previous, current, ignorePaths, hash)
    ensures DriftOrder.IsDiff(c.changes, Compared(previous, ignorePaths), Compared(current, ignorePaths))
    ensures Sorting.Sorted(c.changes, DriftOrder.PathLess)
  {
  }

  lemma ReportWith<D>(c: Comparison<D>, previous: Json, current: Json, ignorePaths: seq<string>, hash: Json -> D)
    requires c.previousHash == hash(RemoveAll(previous, ignorePaths))
             && c.currentHash == hash(RemoveAll(current, ignorePaths))
    requires c.drift == (c.previousHash != c.currentHash)
    requires DriftOrder.IsDiff(c.changes, Compared(previous, ignorePaths), Compared(current, ignorePaths))
    requires Sorting.Sorted(c.changes, DriftOrder.PathLess)
    ensures Reports(c, previous, current, ignorePaths, hash)
  {
  }

  // ----- the list as a patch -----

  // The changes turn the previous document, without ignored paths, into the
  // current one, up to null members, exactly when every shown difference lies where
  // its path says; and completely, exactly when moreover no null member is lost or
  // invented but at or below an ignored path.
  lemma ReportIsAPatch<D>(c: Comparison<D>, previous: Json, current: Json, ignorePaths: seq<string>, hash: Json -> D)
    requires IsDocument(previous) && IsDocument(current)
    requires Reports(c, previous, current, ignorePaths, hash)
    ensures var a, b := Compared(previous, ignorePaths), Compared(current, ignorePaths);
            && (Prune(ApplyAll(a, c.changes)) == Prune(b) <==> ShownFaithful(previous, current, ignorePaths))
            && (ApplyAll(a, c.changes) == b
                <==> ShownFaithful(previous, current, ignorePaths) && ShownNullSafe(previous, current, ignorePaths))
  {
    hide ShownFaithful, ShownNullSafe, ApplyAll;
    ShownIsFaithful(previous, current, ignorePaths);
    ShownNulls(previous, current, ignorePaths);
    ComparedIsObject(previous, ignorePaths);
    ComparedIsObject(current, ignorePaths);
    var locs :| Lists(c.changes, locs, "", Compared(previous, ignorePaths), Compared(current, ignorePaths));
    DriftFaithful.DiffIsAPatch(Compared(previous, ignorePaths), Compared(current, ignorePaths), c.changes, locs);
  }

  // Two inputs on which the list is no patch: a null member appears, and a key
  // holds a dot.
  lemma NullMemberUnpatched<D>(c: Comparison<D>, hash: Json -> D)
    requires Reports(c, Obj(map[]), Obj(map["k" := Null]), [], hash)
    ensures ApplyAll(Obj(map[]), c.changes) != Obj(map["k" := Null])
  {
    var a, b := Obj(map[]), Obj(map["k" := Null]);
    ReportIsAPatch(c, a, b, [], hash);
    ShownNulls(a, b, []);
    assert "k" in b.members && b.members["k"] == Null;
    assert !NullSafe(a, b);
  }

  lemma DottedKeyUnpatched<D>(c: Comparison<D>, hash: Json -> D)
    requires Reports(c, Obj(map["a.b" := Bool(true)]), Obj(map["a.b" := Bool(false)]), [], hash)
    ensures Prune(ApplyAll(Obj(map["a.b" := Bool(true)]), c.changes)) != Prune(Obj(map["a.b" := Bool(false)]))
  {
    var a, b := Obj(map["a.b" := Bool(true)]), Obj(map["a.b" := Bool(false)]);
    ReportIsAPatch(c, a, b, [], hash);
    ShownIsFaithful(a, b, []);
    DottedKeyDiffers(a, b);
  }

  lemma DottedKeyDiffers(a: Json, b: Json)
    requires a == Obj(map["a.b" := Bool(true)]) && b == Obj(map["a.b" := Bool(false)])
    ensures Differs(a, b, ["a.b"]) && !Faithful(["a.b"]) && !AllFaithful(a, b)
  {
    var p: Keys := ["a.b"];
    assert p[1..] == [] && !DotFree("a.b") && "a.b" in p;
    assert Differs(Bool(true), Bool(false), []);
  }

  // ----- the flag and the list -----

  // With a collision-free hash the flag means the documents differ, while the
  // list is empty when they agree up to null members. The two therefore
  // disagree exactly on documents that differ in null members alone, or that
  // are null and the empty object; never where there are none.
  lemma DriftAgainstChanges<D>(c: Comparison<D>, previous: Json, current: Json, ignorePaths: seq<string>,
      hash: Json -> D)
    requires IsDocument(previous) && IsDocument(current) && Injective(hash)
    requires Reports(c, previous, current, ignorePaths, hash)
    ensures var a, b := RemoveAll(previous, ignorePaths), RemoveAll(current, ignorePaths);
            && (c.drift <==> a != b)
            && (c.changes == [] <==> Prune(RootView(a)) == Prune(RootView(b)))
            && (c.changes != [] ==> c.drift)
            && (previous.Obj? && current.Obj? && NullFree(a) && NullFree(b) ==> (c.drift <==> c.changes != []))
  {
    ComparedIsObject(previous, ignorePaths);
    ComparedIsObject(current, ignorePaths);
    var a, b := Compared(previous, ignorePaths), Compared(current, ignorePaths);
    var locs :| Lists(c.changes, locs, "", a, b);
    EmptyDiffMeaning(a, b, c.changes, locs);
  }

  // The smallest disagreement: a null member appears, drift is reported, no
  // change is listed.
  lemma NullMemberDriftsUnlisted<D>(c: Comparison<D>, hash: Json -> D)
    requires Injective(hash)
    requires Reports(c, Obj(map[]), Obj(map["k" := Null]), [], hash)
    ensures c.drift && c.changes == []
  {
    DriftAgainstChanges(c, Obj(map[]), Obj(map["k" := Null]), [], hash);
    var b := Obj(map["k" := Null]);
    assert "k" in b.members && b != Obj(map[]);
    assert Prune(b).members == map[];
  }

  // ----- ignored paths -----

  // Nothing is listed exactly when all differences of the documents are ignored;
  // and with a collision-free hash two objects do not drift exactly when they
  // agree at every position that is neither ignored nor below an ignored path.
  lemma DriftOutsideIgnored<D>(c: Comparison<D>, previous: Json, current: Json, ignorePaths: seq<string>,
      hash: Json -> D)
    requires IsDocument(previous) && IsDocument(current)
    requires Reports(c, previous, current, ignorePaths, hash)
    ensures c.changes == [] <==> forall p: Keys :: !Shown(previous, current, ignorePaths, p)
    ensures previous.Obj? && current.Obj? && AgreeOutside(previous, current, ignorePaths) ==>
            !c.drift && c.changes == []
    ensures previous.Obj? && current.Obj? && Injective(hash) ==>
            (!c.drift <==> AgreeOutside(previous, current, ignorePaths))
  {
    hide Differs, Covered, RemoveAll;
    ComparedIsObject(previous, ignorePaths);
    ComparedIsObject(current, ignorePaths);
    var a, b := Compared(previous, ignorePaths), Compared(current, ignorePaths);
    var locs :| Lists(c.changes, locs, "", a, b);
    forall p: Keys ensures p in locs <==> Shown(previous, current, ignorePaths, p) {
      ComparedDiffers(previous, current, ignorePaths, p);
    }
    assert c.changes != [] ==> locs[0] in locs;
    if previous.Obj? && current.Obj? {
      DriftIgnore.SameOutsideIgnored(previous, current, ignorePaths);
      EmptyDiffMeaning(a, b, c.changes, locs);
    }
  }

  ghost predicate AgreeOutside(previous: Json, current: Json, ignorePaths: seq<string>) {
    forall q: Keys :: !Covered(ignorePaths, q) ==> View(previous, q) == View(current, q)
  }

  // The changes are found exactly where the documents differ and nothing is
  // ignored. A printed path may still say otherwise: exactly when such a difference
  // is not faithful and its path, read as keys, is at or below an ignored one.
  lemma IgnoredPathsUnlisted<D>(c: Comparison<D>, locs: seq<Keys>, previous: Json, current: Json,
                                ignorePaths: seq<string>, hash: Json -> D)
    requires IsDocument(previous) && IsDocument(current)
    requires Reports(c, previous, current, ignorePaths, hash)
    requires Lists(c.changes, locs, "", Compared(previous, ignorePaths), Compared(current, ignorePaths))
    ensures forall p: Keys :: p in locs <==> Shown(previous, current, ignorePaths, p)
    ensures (forall i :: 0 <= i < |c.changes| ==> !Covered(ignorePaths, Text.Split(c.changes[i].path, '.')))
            <==> !Misread(previous, current, ignorePaths)
  {
    hide PathOf, Covered, Faithful, Compared, Differs, Shown;
    var a, b := Compared(previous, ignorePaths), Compared(current, ignorePaths);
    forall p: Keys ensures p in locs <==> Shown(previous, current, ignorePaths, p) {
      ComparedDiffers(previous, current, ignorePaths, p);
    }
    forall p: Keys | Shown(previous, current, ignorePaths, p) && Faithful(p)
      ensures !Covered(ignorePaths, Text.Split(PathOf("", p), '.'))
    {
      PathIsFaithful(p);
      ShownIsUncovered(previous, current, ignorePaths, p);
    }
    if Misread(previous, current, ignorePaths) {
      var p: Keys :| Shown(previous, current, ignorePaths, p) && !Faithful(p)
          && Covered(ignorePaths, Text.Split(PathOf("", p), '.'));
      var i :| 0 <= i < |locs| && locs[i] == p;
      assert c.changes[i].path == PathOf("", p);
    }
    if i :| 0 <= i < |c.changes| && Covered(ignorePaths, Text.Split(c.changes[i].path, '.')) {
      assert locs[i] in locs;
      assert c.changes[i].path == PathOf("", locs[i]);
    }
  }

  lemma ShownIsUncovered(previous: Json, current: Json, ignorePaths: seq<string>, p: Keys)
    requires Shown(previous, current, ignorePaths, p)
    ensures !Covered(ignorePaths, p)
  {
  }

  // Some difference that is not ignored lies at an unfaithful location and is
  // printed as an ignored path.
  ghost predicate Misread(previous: Json, current: Json, ignorePaths: seq<string>) {
    exists p: Keys ::
      Shown(previous, current, ignorePaths, p) && !Faithful(p) && Covered(ignorePaths, Text.Split(PathOf("", p), '.'))
  }

  // Ignoring a key that holds a dot does not work: the path is split, deletes
  // nothing, and the difference is listed under the very path to be ignored.
  lemma DottedKeyNotIgnored<D>(c: Comparison<D>, hash: Json -> D)
    requires Reports(c, Obj(map["a.b" := Bool(true)]), Obj(map["a.b" := Bool(false)]), ["a.b"], hash)
    ensures Change("a.b", Bool(true), Bool(false)) in c.changes
    ensures Injective(hash) ==> c.drift
  {
    var a, b := Obj(map["a.b" := Bool(true)]), Obj(map["a.b" := Bool(false)]);
    NothingDeleted(a);
    NothingDeleted(b);
    DottedKeyDiffers(a, b);
    var locs :| Lists(c.changes, locs, "", a, b);
    var p: Keys := ["a.b"];
    var i :| 0 <= i < |locs| && locs[i] == p;
    assert PathOf("", p) == PathOf("a.b", p[1..]) == "a.b";
    assert At(a, p) == At(Bool(true), p[1..]) == Bool(true);
    assert At(b, p) == At(Bool(false), p[1..]) == Bool(false);
    assert c.changes[i] == Change("a.b", Bool(true), Bool(false));
  }

  lemma NothingDeleted(j: Json)
    requires j.Obj? && j.members.Keys == {"a.b"}
    ensures RemoveAll(j, ["a.b"]) == j
  {
    var s := Text.Split("a.b", '.');
    Text.SplitCons("a", "b", '.');
    Text.SplitOne("b", '.');
    assert "a" + ['.'] + "b" == "a.b";
    assert s == ["a", "b"];
    assert RemoveAt(j, s) == j;
    assert ["a.b"][1..] == [];
    assert RemoveAll(j, ["a.b"]) == RemoveAll(RemoveAt(j, s), ["a.b"][1..]);
  }
}
