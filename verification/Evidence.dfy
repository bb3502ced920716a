// Redaction of evidence records: internal/evidence/evidence.go over JSON trees.
module Evidence {
  import opened Common
  import opened Json
  import opened Redaction
  import opened HidingSteps
  import opened Secrets

  // What a tree looks like once redacted.
  function RedactedTree(j: Json): Json
    decreases j
  {
    match j
    case Obj(members) =>
      Obj(map k | k in members :: if Sensitive(k) then Str(REDACTED) else RedactedTree(members[k]))
    case Arr(items) => Arr(seq(|items|, i requires 0 <= i < |items| => RedactedTree(items[i])))
    case Str(text) => Str(RedactString(text))
    case _ => j
  }

  method RedactMap(input: map<string, Json>, ghost whole: Json) returns (out: map<string, Json>)
    requires whole == Obj(input)
    ensures Obj(out) == RedactedTree(whole)
    ensures out.Keys == input.Keys
    ensures forall k :: k in input && NamesSecret(k) ==> out[k] == Str("[REDACTED]")
    ensures forall k :: k in input && !NamesSecret(k) ==> out[k] == RedactedTree(input[k])
    decreases whole, 0
  {
    hide NamesSecret, Sensitive;
    out := map[];
    var keys := input.Keys;
    while keys != {}
      invariant keys <= input.Keys && out.Keys == input.Keys - keys
      invariant forall k :: k in out ==> out[k] == RedactedTree(whole).members[k]
      decreases |keys|
    {
      var key :| key in keys;
      keys := keys - {key};
      if Sensitive(key) {
        out := out[key := Str(REDACTED)];
      } else {
        var value := RedactValue(input[key]);
        out := out[key := value];
      }
    }
    assert out == RedactedTree(whole).members;
    forall k ensures Sensitive(k) <==> NamesSecret(k) { SensitiveExactly(k); }
  }

  method RedactValue(value: Json) returns (r: Json)
    ensures r == RedactedTree(value)
    decreases value, 1
  {
    match value
    case Obj(members) =>
      var out := RedactMap(members, value);
      r := Obj(out);
    case Arr(items) =>
      var out: seq<Json> := [];
      for i := 0 to |items|
        invariant |out| == i && forall k :: 0 <= k < i ==> out[k] == RedactedTree(items[k])
      {
        var item := RedactValue(items[i]);
        out := out + [item];
      }
      r := Arr(out);
    case Str(text) => r := Str(RedactString(text));
    case _ => r := value;
  }

  datatype Record = Record(
    provider: string, operation: string, query: string, scope: string, resourceIds: seq<string>,
    observedAt: int, collectorIdentity: string, configuration: Option<map<string, Json>>,
    evaluatorVersion: string, controlVersion: string, result: string, explanation: string, validUntil: int)

  function RedactedRecord(record: Record): Record {
    record.(query := RedactString(record.query),
            collectorIdentity := RedactString(record.collectorIdentity),
            explanation := RedactString(record.explanation),
            configuration := if record.configuration.None? then None
                             else Some(RedactedTree(Obj(record.configuration.value)).members))
  }

  method Redact(record: Record) returns (clone: Record)
    ensures clone == RedactedRecord(record)
    ensures RecordsIndistinguishable(record, clone) && RedactedRecord(clone) == clone
    ensures record.configuration.Some? ==>
              var given, shown := record.configuration.value, clone.configuration.value;
              forall k :: k in given ==> k in shown && (NamesSecret(k) ==> shown[k] == Str("[REDACTED]"))
  {
    hide RedactString, RedactedTree, RecordsIndistinguishable, NamesSecret;
    clone := record;
    clone := clone.(query := RedactString(clone.query));
    clone := clone.(collectorIdentity := RedactString(clone.collectorIdentity));
    clone := clone.(explanation := RedactString(clone.explanation));
    if clone.configuration.Some? {
      var configuration := RedactMap(clone.configuration.value, Obj(clone.configuration.value));
      clone := clone.(configuration := Some(configuration));
      RedactedObject(record.configuration.value);
    }
    RecordIdempotent(record);
    RecordRevealsExactly(record, clone, r => 0);
  }

  // Hash, for any digest of the marshalled record: the digest and what was hashed.
  method Hash<D>(record: Record, digest: Record -> D) returns (r: D, canonical: Record)
    ensures canonical == RedactedRecord(record) && r == digest(canonical)
    ensures RecordsIndistinguishable(record, canonical)
  {
    canonical := Redact(record);
    r := digest(canonical);
  }

  // ----- redacting twice -----

  lemma {:induction false} TreeIdempotent(j: Json)
    ensures RedactedTree(RedactedTree(j)) == RedactedTree(j)
    decreases j
  {
    var r := RedactedTree(j);
    match j
    case Obj(members) =>
      forall k | k in members && !Sensitive(k)
        ensures RedactedTree(RedactedTree(members[k])) == RedactedTree(members[k])
      {
        TreeIdempotent(members[k]);
      }
      assert RedactedTree(r).members == r.members;
    case Arr(items) =>
      forall i | 0 <= i < |items| ensures RedactedTree(RedactedTree(items[i])) == RedactedTree(items[i]) {
        TreeIdempotent(items[i]);
      }
      assert RedactedTree(r).items == r.items;
    case Str(text) => RedactStringProjects(text);
    case _ =>
  }

  lemma RecordIdempotent(record: Record)
    ensures RedactedRecord(RedactedRecord(record)) == RedactedRecord(record)
  {
    hide Sensitive, RedactString;
    RedactStringProjects(record.query);
    RedactStringProjects(record.collectorIdentity);
    RedactStringProjects(record.explanation);
    if record.configuration.Some? { TreeIdempotent(Obj(record.configuration.value)); }
  }

  // ----- what a redacted tree reveals -----

  // Equal but for what lies beneath sensitive keys, at any depth and through
  // arrays, and for credentials and named values within strings.
  ghost predicate Indistinguishable(a: Json, b: Json)
    decreases a
  {
    match (a, b)
    case (Obj(x), Obj(y)) =>
      x.Keys == y.Keys && forall k :: k in x ==> Sensitive(k) || Indistinguishable(x[k], y[k])
    case (Arr(x), Arr(y)) =>
      |x| == |y| && forall i :: 0 <= i < |x| ==> Indistinguishable(x[i], y[i])
    case (Str(x), Str(y)) => SameUpToSecrets(x, y)
    case _ => a == b
  }

  // Non-interference, exactly: redaction tells two trees apart if and only if
  // they are distinguishable.
  lemma {:induction false} RevealsExactly(a: Json, b: Json)
    ensures RedactedTree(a) == RedactedTree(b) <==> Indistinguishable(a, b)
    decreases a
  {
    match (a, b)
    case (Obj(x), Obj(y)) =>
      var r, s := RedactedTree(a).members, RedactedTree(b).members;
      forall k | k in x && k in y && !Sensitive(k)
        ensures RedactedTree(x[k]) == RedactedTree(y[k]) <==> Indistinguishable(x[k], y[k])
      {
        RevealsExactly(x[k], y[k]);
      }
      assert r.Keys == x.Keys && s.Keys == y.Keys;
      if Indistinguishable(a, b) { assert r == s; }
      if r == s {
        forall k | k in x && !Sensitive(k) ensures Indistinguishable(x[k], y[k]) {
          assert r[k] == s[k];
        }
      }
    case (Arr(x), Arr(y)) =>
      var r, s := RedactedTree(a).items, RedactedTree(b).items;
      if |x| == |y| {
        forall i | 0 <= i < |x| ensures r[i] == s[i] <==> Indistinguishable(x[i], y[i]) {
          RevealsExactly(x[i], y[i]);
        }
        if Indistinguishable(a, b) { assert r == s; }
      }
    case (Str(x), Str(y)) => RedactionHidesExactly(x, y);
    case _ =>
  }

  // The plain form: equal apart from the values of sensitive keys.
  predicate SameButSecrets(a: Json, b: Json)
    decreases a
  {
    match (a, b)
    case (Obj(x), Obj(y)) =>
      x.Keys == y.Keys && forall k :: k in x ==> Sensitive(k) || SameButSecrets(x[k], y[k])
    case (Arr(x), Arr(y)) =>
      |x| == |y| && forall i :: 0 <= i < |x| ==> SameButSecrets(x[i], y[i])
    case _ => a == b
  }

  lemma {:induction false} SecretsAreIndistinguishable(a: Json, b: Json)
    requires SameButSecrets(a, b)
    ensures Indistinguishable(a, b)
    decreases a
  {
    match (a, b)
    case (Obj(x), Obj(y)) =>
      forall k | k in x && !Sensitive(k) ensures Indistinguishable(x[k], y[k]) {
        SecretsAreIndistinguishable(x[k], y[k]);
      }
    case (Arr(x), Arr(y)) =>
      forall i | 0 <= i < |x| ensures Indistinguishable(x[i], y[i]) {
        SecretsAreIndistinguishable(x[i], y[i]);
      }
    case (Str(x), Str(y)) => RedactionHidesExactly(x, y);
    case _ =>
  }

  // Records that agree but for secrets in the query, the collector identity, the
  // explanation and the configuration.
  ghost predicate RecordsIndistinguishable(a: Record, b: Record) {
    && b == a.(query := b.query, collectorIdentity := b.collectorIdentity, explanation := b.explanation,
        configuration := b.configuration)
    && SameUpToSecrets(a.query, b.query)
    && SameUpToSecrets(a.collectorIdentity, b.collectorIdentity)
    && SameUpToSecrets(a.explanation, b.explanation)
    && a.configuration.Some? == b.configuration.Some?
    && (a.configuration.Some? ==> Indistinguishable(Obj(a.configuration.value), Obj(b.configuration.value)))
  }

  // Redaction tells two records apart if and only if they are distinguishable;
  // so does their hash, as far as the digest tells records apart.
  lemma RecordRevealsExactly<D>(a: Record, b: Record, digest: Record -> D)
    ensures RedactedRecord(a) == RedactedRecord(b) <==> RecordsIndistinguishable(a, b)
    ensures RecordsIndistinguishable(a, b) ==> digest(RedactedRecord(a)) == digest(RedactedRecord(b))
    ensures (forall x, y :: digest(x) == digest(y) ==> x == y)
            ==> (digest(RedactedRecord(a)) == digest(RedactedRecord(b)) <==> RecordsIndistinguishable(a, b))
  {
    hide RedactString, SameUpToSecrets, Indistinguishable, RedactedTree;
    RedactionHidesExactly(a.query, b.query);
    RedactionHidesExactly(a.collectorIdentity, b.collectorIdentity);
    RedactionHidesExactly(a.explanation, b.explanation);
    if a.configuration.Some? && b.configuration.Some? {
      RevealsExactly(Obj(a.configuration.value), Obj(b.configuration.value));
      RedactedObject(a.configuration.value);
      RedactedObject(b.configuration.value);
    }
  }

  lemma RedactedObject(members: map<string, Json>)
    ensures RedactedTree(Obj(members)).Obj?
  {
  }

  // Records that differ only beneath sensitive keys of their configuration are
  // hashed alike, whatever the digest.
  lemma HashHidesSecrets<D>(a: Record, b: Record, digest: Record -> D)
    requires a.configuration.Some? && b == a.(configuration := b.configuration) && b.configuration.Some?
    requires SameButSecrets(Obj(a.configuration.value), Obj(b.configuration.value))
    ensures RedactedRecord(a) == RedactedRecord(b)
    ensures digest(RedactedRecord(a)) == digest(RedactedRecord(b))
  {
    SecretsAreIndistinguishable(Obj(a.configuration.value), Obj(b.configuration.value));
    RevealsExactly(Obj(a.configuration.value), Obj(b.configuration.value));
  }

  // How many keys of a path come before its first sensitive one.
  function SensitiveAt(q: Keys): (n: nat)
    ensures n <= |q|
  {
    if q == [] || Sensitive(q[0]) then 0 else 1 + SensitiveAt(q[1..])
  }

  function RedactedSpot(spot: Spot): Spot {
    if spot.Leaf? then Leaf(RedactedTree(spot.json)) else spot
  }

  // What redaction does at one path of object keys: where no key is sensitive
  // the shape is unchanged and the value there is redacted; a sensitive member
  // becomes the mark and nothing is left below it.
  lemma {:induction false} RedactedView(j: Json, q: Keys)
    ensures var n, shown := SensitiveAt(q), View(RedactedTree(j), q);
            if n == |q| then shown == RedactedSpot(View(j, q))
            else if n < |q| - 1 || View(j, q).Missing? then shown == Missing
            else shown == Leaf(Str(REDACTED))
    decreases |q|
  {
    hide Sensitive, RedactString;
    LeavesSurvive(j);
    if q != [] && j.Obj? && q[0] in j.members && !Sensitive(q[0]) {
      RedactedView(j.members[q[0]], q[1..]);
    } else if q != [] && j.Obj? && q[0] in j.members {
      if |q| == 1 {
        assert q[1..] == [] && View(j, q) == View(j.members[q[0]], []);
      }
    }
  }

  // Everything that is not a string, an object or an array survives redaction,
  // and an array keeps its length.
  lemma LeavesSurvive(j: Json)
    ensures !j.Str? && !j.Obj? && !j.Arr? ==> RedactedTree(j) == j
    ensures j.Arr? ==> RedactedTree(j).Arr? && |RedactedTree(j).items| == |j.items|
    ensures j.Obj? ==> RedactedTree(j).Obj? && RedactedTree(j).members.Keys == j.members.Keys
    ensures j.Arr? ==> forall i :: 0 <= i < |j.items| ==> RedactedTree(j).items[i] == RedactedTree(j.items[i])
    ensures j.Str? ==> RedactedTree(j) == Str(RedactString(j.text))
  {
  }
}
