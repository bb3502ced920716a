// JSON documents as Go holds them after json.Unmarshal, and the view of a
// document along a path of object keys. Shared by drift, redaction and
// applicability.
module Json {
  datatype Json =
    | Null
    | Bool(flag: bool)
    | Num(number: real)
    | Str(text: string)
    | Arr(items: seq<Json>)
    | Obj(members: map<string, Json>)

  // A path from the root of a document, one object key per step.
  type Keys = seq<string>

  // m[key] of a Go map[string]any: an absent member reads as nil.
  function Member(j: Json, key: string): Json {
    if j.Obj? && key in j.members then j.members[key] else Null
  }

  // The value at a path, nil where the path leaves the objects.
  function At(j: Json, p: Keys): Json
    decreases |p|
  {
    if p == [] then j else At(Member(j, p[0]), p[1..])
  }

  // What one position of a document holds, without what lies below an object.
  datatype Spot = Missing | Leaf(json: Json) | Branch

  function View(j: Json, p: Keys): Spot {
    if p == [] then (if j.Obj? then Branch else Leaf(j))
    else if j.Obj? && p[0] in j.members then View(j.members[p[0]], p[1..])
    else Missing
  }

  // A document is determined by its views.
  lemma {:induction false} ViewsDetermine(a: Json, b: Json)
    requires forall q: Keys :: View(a, q) == View(b, q)
    ensures a == b
    decreases a
  {
    assert View(a, []) == View(b, []);
    if a.Obj? {
      forall k ensures k in a.members <==> k in b.members {
        assert View(a, [k]) == View(b, [k]);
      }
      forall k | k in a.members ensures a.members[k] == b.members[k] {
        forall q: Keys ensures View(a.members[k], q) == View(b.members[k], q) {
          assert View(a, [k] + q) == View(b, [k] + q);
          assert ([k] + q)[1..] == q;
        }
        ViewsDetermine(a.members[k], b.members[k]);
      }
      assert a.members == b.members;
    }
  }

  lemma {:induction false} AtView(j: Json, p: Keys)
    ensures View(j, p) == Missing ==> At(j, p) == Null
    ensures View(j, p) == Branch <==> At(j, p).Obj?
    ensures View(j, p).Leaf? ==> View(j, p).json == At(j, p)
  {
    if p != [] {
      if j.Obj? && p[0] in j.members {
        AtView(j.members[p[0]], p[1..]);
      } else {
        AtNull(p[1..]);
      }
    }
  }

  lemma {:induction false} AtNull(p: Keys)
    ensures At(Null, p) == Null
  {
    if p != [] { AtNull(p[1..]); }
  }
}
