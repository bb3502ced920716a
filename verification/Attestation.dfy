// Applicability and result logic: internal/attestation/evaluator.go, and the
// result loops of the attest commands. CEL is an oracle.
module Attestation {
  import opened Common
  import opened Controls
  import opened Floats
  import opened Json
  import opened DriftModel
  import Text

  // ----- lookup -----

  function Lookup(j: Json, p: Keys): Option<Json>
    decreases |p|
  {
    if p == [] then Some(j)
    else if j.Obj? && p[0] in j.members then Lookup(j.members[p[0]], p[1..])
    else None
  }

  method LookupPath(value: Json, path: string) returns (r: Option<Json>)
    ensures r == Lookup(value, Text.Split(path, '.'))
  {
    var parts := Text.Split(path, '.');
    var current := value;
    for i := 0 to |parts|
      invariant Lookup(current, parts[i..]) == Lookup(value, parts)
    {
      assert parts[i..][0] == parts[i] && parts[i..][1..] == parts[i + 1..];
      if !current.Obj? {
        return None;
      }
      if parts[i] !in current.members {
        return None;
      }
      current := current.members[parts[i]];
    }
    return Some(current);
  }

  // Looking up after deleting, in full: a deleted path and everything below it
  // is gone, a path above it shows the same value without what was deleted, and
  // any other path is unaffected.
  lemma {:induction false} LookupAfterRemove(j: Json, p: Keys, q: Keys)
    requires p != []
    ensures Lookup(RemoveAt(j, p), q) ==
            if j.Obj? && p <= q then None
            else if q < p && Lookup(j, q).Some? then Some(RemoveAt(Lookup(j, q).value, p[|q|..]))
            else Lookup(j, q)
    decreases |p|
  {
    if q == [] {
      assert p[|q|..] == p;
    } else if j.Obj? && q[0] == p[0] && q[0] in j.members && |p| > 1 {
      var child := j.members[p[0]];
      assert p <= q <==> p[1..] <= q[1..];
      assert q < p <==> q[1..] < p[1..];
      if q < p { assert p[1..][|q[1..]|..] == p[|q|..]; }
      LookupAfterRemove(child, p[1..], q[1..]);
      if !child.Obj? { RemoveScalar(child, p[1..]); }
    }
  }

  lemma RemoveScalar(j: Json, p: Keys)
    requires !j.Obj? && p != []
    ensures RemoveAt(j, p) == j
  {
  }

  // q neither leads to an ignored path nor lies at or below one.
  predicate Unrelated(paths: seq<string>, q: Keys) {
    forall i :: 0 <= i < |paths| ==> !(Text.Split(paths[i], '.') <= q) && !(q <= Text.Split(paths[i], '.'))
  }

  // What stands at q once the paths below it are deleted.
  function RemoveBelow(v: Json, paths: seq<string>, q: Keys): Json
    decreases |paths|
  {
    if paths == [] then v
    else
      var p := Text.Split(paths[0], '.');
      RemoveBelow(if q < p then RemoveAt(v, p[|q|..]) else v, paths[1..], q)
  }

  // Looking up after ignoring paths, in full: an ignored path and everything
  // below it is gone; anything else shows the same value, without the ignored
  // paths below it.
  lemma {:induction false} LookupAfterRemoveAll(j: Json, paths: seq<string>, q: Keys)
    ensures Lookup(RemoveAll(j, paths), q) ==
            if Lookup(j, q).None? || Covered(paths, q) then None
            else Some(RemoveBelow(Lookup(j, q).value, paths, q))
    decreases |paths|
  {
    hide RemoveAt, Lookup;
    if paths != [] {
      var p := Text.Split(paths[0], '.');
      LookupAfterRemove(j, p, q);
      LookupAfterRemoveAll(RemoveAt(j, p), paths[1..], q);
      CoveredFirst(paths, q);
      NothingUnder(j, p, q);
    }
  }

  lemma CoveredFirst(paths: seq<string>, q: Keys)
    requires paths != []
    ensures Covered(paths, q) <==> Text.Split(paths[0], '.') <= q || Covered(paths[1..], q)
  {
    if i :| 0 <= i < |paths[1..]| && Text.Split(paths[1..][i], '.') <= q {
      assert paths[i + 1] == paths[1..][i];
    }
    if i :| 0 <= i < |paths| && Text.Split(paths[i], '.') <= q {
      if i > 0 { assert paths[1..][i - 1] == paths[i]; }
    }
  }

  lemma NothingUnder(j: Json, p: Keys, q: Keys)
    requires p != []
    ensures !j.Obj? && p <= q ==> Lookup(j, q) == None
  {
  }

  lemma {:induction false} UnrelatedStays(v: Json, paths: seq<string>, q: Keys)
    requires Unrelated(paths, q)
    ensures !Covered(paths, q) && RemoveBelow(v, paths, q) == v
    decreases |paths|
  {
    if paths != [] {
      assert Unrelated(paths[1..], q) by {
        forall i | 0 <= i < |paths[1..]|
          ensures !(Text.Split(paths[1..][i], '.') <= q) && !(q <= Text.Split(paths[1..][i], '.'))
        {
          assert paths[1..][i] == paths[i + 1];
        }
      }
      UnrelatedStays(v, paths[1..], q);
    }
  }

  // ----- comparing evidence with a condition's value -----

  function EvidenceNumber(j: Json): Option<Float> { if j.Num? then Some(Real(j.number)) else None }

  function ValueNumber(v: GoValue): Option<Float> {
    match v
    case Int(n) => Some(Real(n as real))
    case Double(x) => Some(x)
    case _ => None
  }

  // reflect.DeepEqual: an integer is never equal to a float.
  predicate DeepEqual(j: Json, v: GoValue)
    decreases v
  {
    match (j, v)
    case (Null, Nil) => true
    case (Bool(a), GoBool(b)) => a == b
    case (Num(a), Double(b)) => Equal(Real(a), b)
    case (Str(a), GoStr(b)) => a == b
    case (Arr(a), List(b)) => |a| == |b| && forall i :: 0 <= i < |b| ==> DeepEqual(a[i], b[i])
    case (Obj(a), Map(b)) => a.Keys == b.Keys && forall k :: k in b ==> DeepEqual(a[k], b[k])
    case _ => false
  }

  predicate Equivalent(j: Json, v: GoValue) {
    var a, b := EvidenceNumber(j), ValueNumber(v);
    if a.Some? && b.Some? then Equal(a.value, b.value) else DeepEqual(j, v)
  }

  // The JSON value an author means by a condition's value. There is none for NaN
  // and the infinities; null stands in for them.
  function AsJson(v: GoValue): Json
    decreases v
  {
    match v
    case Nil => Null
    case GoBool(b) => Bool(b)
    case Int(n) => Num(n as real)
    case Double(x) => if x.Real? then Num(x.value) else Null
    case GoStr(t) => Str(t)
    case Time(t) => Str(t)
    case OtherMap(entries) => Obj(map k | k in entries :: AsJson(entries[k]))
    case List(items) => Arr(seq(|items|, i requires 0 <= i < |items| => AsJson(items[i])))
    case Map(members) => Obj(map k | k in members :: AsJson(members[k]))
  }

  // Somewhere in the value there is what evidence never holds: an integer, NaN, an
  // infinity, a timestamp or a map with keys that are not strings.
  predicate Unmatchable(v: GoValue)
    decreases v
  {
    match v
    case Int(n) => true
    case Double(x) => !x.Real?
    case Time(t) => true
    case OtherMap(entries) => true
    case List(items) => exists i :: 0 <= i < |items| && Unmatchable(items[i])
    case Map(members) => exists k :: k in members && Unmatchable(members[k])
    case _ => false
  }

  lemma {:induction false} DeepEqualExactly(j: Json, v: GoValue)
    ensures DeepEqual(j, v) <==> j == AsJson(v) && !Unmatchable(v)
    decreases v
  {
    match (j, v)
    case (Arr(a), List(b)) =>
      var r := AsJson(v).items;
      if |a| == |b| {
        forall i | 0 <= i < |b| ensures DeepEqual(a[i], b[i]) <==> a[i] == r[i] && !Unmatchable(b[i]) {
          DeepEqualExactly(a[i], b[i]);
        }
        if DeepEqual(j, v) { assert a == r; }
      }
    case (Obj(a), Map(b)) =>
      var r := AsJson(v).members;
      if a.Keys == b.Keys {
        forall k | k in b ensures DeepEqual(a[k], b[k]) <==> a[k] == r[k] && !Unmatchable(b[k]) {
          DeepEqualExactly(a[k], b[k]);
        }
        if DeepEqual(j, v) { assert a == r; }
      }
    case _ =>
  }

  // "equals" means equality with the value as written for all evidence exactly
  // when the value is an integer, or none of these is anywhere in it; otherwise no
  // evidence equals it.
  lemma EqualsMeansEquality(v: GoValue)
    ensures (forall j :: Equivalent(j, v) <==> j == AsJson(v)) <==> v.Int? || !Unmatchable(v)
    ensures !v.Int? && Unmatchable(v) ==> forall j :: !Equivalent(j, v)
  {
    forall j ensures DeepEqual(j, v) <==> j == AsJson(v) && !Unmatchable(v) { DeepEqualExactly(j, v); }
    if !v.Int? && Unmatchable(v) {
      assert !Equivalent(AsJson(v), v);
    }
  }

  // ----- conditions -----

  predicate Contains(s: string, t: string) { exists i :: 0 <= i <= |s| && t <= s[i..] }

  // fmt.Sprint: a string is itself; sprint renders the rest.
  function Sprint(v: GoValue, sprint: GoValue -> string): string { if v.GoStr? then v.text else sprint(v) }

  predicate Matches(c: Condition, evidence: Json, sprint: GoValue -> string) {
    Holds(c, Lookup(evidence, Text.Split(c.field, '.')), sprint)
  }

  predicate AnyElement(items: seq<Json>, v: GoValue) { exists i :: 0 <= i < |items| && Equivalent(items[i], v) }

  predicate AnyOption(j: Json, options: seq<GoValue>) {
    exists i :: 0 <= i < |options| && Equivalent(j, options[i])
  }

  // The condition on what was found at its field.
  predicate Holds(c: Condition, found: Option<Json>, sprint: GoValue -> string) {
    var value := if found.Some? then found.value else Null;
    var a, b := EvidenceNumber(value), ValueNumber(c.value);
    match c.operator
    case "exists" => found.Some?
    case "equals" => Equivalent(value, c.value)
    case "notEquals" => !Equivalent(value, c.value)
    case "greaterThan" => a.Some? && b.Some? && Below(b.value, a.value)
    case "lessThan" => a.Some? && b.Some? && Below(a.value, b.value)
    case "contains" =>
      (match value
       case Str(text) => Contains(text, Sprint(c.value, sprint))
       case Arr(items) => AnyElement(items, c.value)
       case _ => false)
    case "in" => c.value.List? && AnyOption(value, c.value.items)
    case _ => false
  }

  // What null satisfies: it equals null and nothing else, is in any list with null
  // in it, and satisfies no other condition.
  predicate HoldsOfNull(c: Condition) {
    || (c.operator == "equals" && c.value == Nil)
    || (c.operator == "notEquals" && c.value != Nil)
    || (c.operator == "in" && c.value.List? && Nil in c.value.items)
  }

  lemma AbsentFieldIsNull(c: Condition, sprint: GoValue -> string)
    ensures Holds(c, None, sprint) <==> HoldsOfNull(c)
  {
    forall v: GoValue ensures Equivalent(Null, v) <==> v == Nil {
    }
    if c.value.List? && Nil in c.value.items {
      var i :| 0 <= i < |c.value.items| && c.value.items[i] == Nil;
      assert Equivalent(Null, c.value.items[i]);
    }
  }

  // ----- applicability -----

  predicate Applies(rule: Option<Applicability>, evidence: Json, sprint: GoValue -> string) {
    rule.Some? ==>
      && (forall i :: 0 <= i < |rule.value.all| ==> Matches(rule.value.all[i], evidence, sprint))
      && (rule.value.any != [] ==>
            exists i :: 0 <= i < |rule.value.any| && Matches(rule.value.any[i], evidence, sprint))
  }

  method Applicable(rule: Option<Applicability>, evidence: Json, sprint: GoValue -> string) returns (r: bool)
    ensures r == Applies(rule, evidence, sprint)
  {
    hide Matches;
    if rule.None? {
      return true;
    }
    var all, any := rule.value.all, rule.value.any;
    for i := 0 to |all|
      invariant forall k :: 0 <= k < i ==> Matches(all[k], evidence, sprint)
    {
      if !Matches(all[i], evidence, sprint) {
        return false;
      }
    }
    if |any| > 0 {
      for i := 0 to |any|
        invariant forall k :: 0 <= k < i ==> !Matches(any[k], evidence, sprint)
      {
        if Matches(any[i], evidence, sprint) {
          return true;
        }
      }
      return false;
    }
    return true;
  }

  function FieldsOf(rule: Option<Applicability>): seq<Condition> {
    if rule.None? then [] else rule.value.all + rule.value.any
  }

  // Ignoring paths that no condition's field is related to changes no verdict
  // on applicability.
  lemma IgnoringKeepsApplicability(rule: Option<Applicability>, evidence: Json, paths: seq<string>,
      sprint: GoValue -> string)
    requires forall c :: c in FieldsOf(rule) ==> Unrelated(paths, Text.Split(c.field, '.'))
    ensures Applies(rule, RemoveAll(evidence, paths), sprint) == Applies(rule, evidence, sprint)
  {
    hide Lookup, Holds, RemoveAll, Text.Split, RemoveBelow, Covered, Unrelated;
    forall c | c in FieldsOf(rule)
      ensures Matches(c, RemoveAll(evidence, paths), sprint) == Matches(c, evidence, sprint)
    {
      var q := Text.Split(c.field, '.');
      LookupAfterRemoveAll(evidence, paths, q);
      var found := Lookup(evidence, q);
      if found.Some? { UnrelatedStays(found.value, paths, q); }
    }
    if rule.Some? {
      var all, any := rule.value.all, rule.value.any;
      forall i | 0 <= i < |all| ensures all[i] in FieldsOf(rule) { assert FieldsOf(rule)[i] == all[i]; }
      forall i | 0 <= i < |any| ensures any[i] in FieldsOf(rule) { assert FieldsOf(rule)[|all| + i] == any[i]; }
    }
  }

  // A condition on an ignored field does not see the evidence: it holds exactly if
  // it holds of null.
  lemma IgnoredFieldIsNull(c: Condition, evidence: Json, paths: seq<string>, sprint: GoValue -> string)
    requires Covered(paths, Text.Split(c.field, '.'))
    ensures Matches(c, RemoveAll(evidence, paths), sprint) <==> HoldsOfNull(c)
  {
    hide Lookup, Holds, HoldsOfNull, RemoveAll, Covered;
    LookupAfterRemoveAll(evidence, paths, Text.Split(c.field, '.'));
    AbsentFieldIsNull(c, sprint);
  }

  // So ignoring the fields of all conditions decides applicability by the rule
  // alone.
  lemma IgnoringDecidesApplicability(rule: Option<Applicability>, evidence: Json, paths: seq<string>,
      sprint: GoValue -> string)
    requires forall c :: c in FieldsOf(rule) ==> Covered(paths, Text.Split(c.field, '.'))
    ensures Applies(rule, RemoveAll(evidence, paths), sprint) <==>
            rule.Some? ==>
              && (forall i :: 0 <= i < |rule.value.all| ==> HoldsOfNull(rule.value.all[i]))
              && (rule.value.any != [] ==> exists i :: 0 <= i < |rule.value.any| && HoldsOfNull(rule.value.any[i]))
  {
    hide Matches, HoldsOfNull, RemoveAll, Covered;
    forall c | c in FieldsOf(rule) ensures Matches(c, RemoveAll(evidence, paths), sprint) <==> HoldsOfNull(c) {
      IgnoredFieldIsNull(c, evidence, paths, sprint);
    }
    if rule.Some? {
      var all, any := rule.value.all, rule.value.any;
      forall i | 0 <= i < |all| ensures all[i] in FieldsOf(rule) { assert FieldsOf(rule)[i] == all[i]; }
      forall i | 0 <= i < |any| ensures any[i] in FieldsOf(rule) { assert FieldsOf(rule)[|all| + i] == any[i]; }
    }
  }

  // ----- results -----

  // What compiling and evaluating a CEL expression can come to.
  datatype Cel = CompileError | ProgramError | EvalError | True | False | NonBoolean

  datatype Verdict = Pass | Fail | NotApplicable | Unknown
  datatype Attested = Attested(controlId: string, controlVersion: string, verdict: Verdict)
  datatype EvaluationError = CompileFailed | ProgramFailed | EvaluationFailed | NotBoolean

  // The libraries the evaluator calls: CEL, and fmt.Sprint on values that are
  // not strings.
  datatype Engine = Engine(cel: (string, Json) -> Cel, sprint: GoValue -> string)

  method Evaluate(engine: Engine, c: Control, evidence: Json) returns (r: Result<Attested, EvaluationError>)
    ensures r == Evaluated(engine, c, evidence)
    ensures r.Ok? ==> r.value.controlId == c.id && r.value.controlVersion == c.version && r.value.verdict != Unknown
    ensures var applies, cel := Applies(c.applicability, evidence, engine.sprint), engine.cel(c.expression, evidence);
            && (r.Err? <==> applies && cel !in {True, False})
            && (r.Ok? && r.value.verdict == NotApplicable <==> !applies)
            && (r.Ok? && r.value.verdict == Pass <==> applies && cel == True)
            && (r.Ok? && r.value.verdict == Fail <==> applies && cel == False)
  {
    var base := Attested(c.id, c.version, Unknown);
    var applicable := Applicable(c.applicability, evidence, engine.sprint);
    if !applicable {
      base := base.(verdict := NotApplicable);
      return Ok(base);
    }
    var value := engine.cel(c.expression, evidence);
    if value.CompileError? {
      return Err(CompileFailed);
    }
    if value.ProgramError? {
      return Err(ProgramFailed);
    }
    if value.EvalError? {
      return Err(EvaluationFailed);
    }
    if value.True? {
      base := base.(verdict := Pass);
      return Ok(base);
    }
    if value.False? {
      base := base.(verdict := Fail);
      return Ok(base);
    }
    return Err(NotBoolean);
  }

  function Evaluated(engine: Engine, c: Control, evidence: Json): Result<Attested, EvaluationError> {
    if !Applies(c.applicability, evidence, engine.sprint) then Ok(Attested(c.id, c.version, NotApplicable))
    else
      match engine.cel(c.expression, evidence)
      case CompileError => Err(CompileFailed)
      case ProgramError => Err(ProgramFailed)
      case EvalError => Err(EvaluationFailed)
      case True => Ok(Attested(c.id, c.version, Pass))
      case False => Ok(Attested(c.id, c.version, Fail))
      case NonBoolean => Err(NotBoolean)
  }

  // An evaluation error becomes an unknown result.
  function ResultFor(engine: Engine, c: Control, evidence: Json): Attested {
    var r := Evaluated(engine, c, evidence);
    if r.Ok? then r.value else Attested(c.id, c.version, Unknown)
  }

  // ----- the attest commands -----

  datatype Failure = CollectionFailure | CatalogueInvalid | EvaluatorFailure

  // What a collector hands over: a snapshot, and an error if collecting failed.
  datatype Collection = Collection(snapshot: Json, error: Option<Failure>)

  // The end of both commands: unknown for every control if err is set, else the
  // evaluator's verdicts.
  method Conclude(engine: Engine, controls: seq<Control>, snapshot: Json, err: Option<Failure>)
    returns (results: seq<Attested>)
    ensures Concluded(engine, controls, snapshot, err, results)
  {
    results := [];
    if err.Some? {
      for i := 0 to |controls|
        invariant |results| == i
        invariant forall k :: 0 <= k < i ==> results[k] == Attested(controls[k].id, controls[k].version, Unknown)
      {
        results := results + [Attested(controls[i].id, controls[i].version, Unknown)];
      }
      return;
    }
    for i := 0 to |controls|
      invariant |results| == i
      invariant forall k :: 0 <= k < i ==> results[k] == ResultFor(engine, controls[k], snapshot)
    {
      var evaluated := Evaluate(engine, controls[i], snapshot);
      var result := if evaluated.Ok? then evaluated.value else Attested(controls[i].id, controls[i].version, Unknown);
      results := results + [result];
    }
  }

  ghost predicate Concluded(engine: Engine, controls: seq<Control>, snapshot: Json, err: Option<Failure>,
      results: seq<Attested>) {
    |results| == |controls| && forall i :: 0 <= i < |controls| ==>
      results[i] == if err.Some? then Attested(controls[i].id, controls[i].version, Unknown)
                    else ResultFor(engine, controls[i], snapshot)
  }

  // The AWS command keeps the collection error apart from the evaluator's.
  method AttestAWS(engine: Engine, catalogueValid: bool, newError: Option<Failure>, controls: seq<Control>,
      collection: Collection)
    returns (r: Result<seq<Attested>, Failure>)
    ensures r.Ok? <==> catalogueValid && newError.None?
    ensures r.Ok? ==> Concluded(engine, controls, collection.snapshot, collection.error, r.value)
  {
    var snapshot, collectionErr := collection.snapshot, collection.error;
    if !catalogueValid {
      return Err(CatalogueInvalid);
    }
    var err := newError;
    if err.Some? {
      return Err(err.value);
    }
    var results := Conclude(engine, controls, snapshot, collectionErr);
    r := Ok(results);
  }

  // The Azure command holds both in one variable: constructing the evaluator
  // overwrites the collection error before it is tested.
  method AttestAzure(engine: Engine, catalogueValid: bool, newError: Option<Failure>, controls: seq<Control>,
      collection: Collection)
    returns (r: Result<seq<Attested>, Failure>)
    ensures r.Ok? <==> catalogueValid && newError.None?
    ensures r.Ok? ==> Concluded(engine, controls, collection.snapshot, None, r.value)
  {
    var snapshot, err := collection.snapshot, collection.error;
    if !catalogueValid {
      return Err(CatalogueInvalid);
    }
    err := newError;
    if err.Some? {
      return Err(err.value);
    }
    var results := Conclude(engine, controls, snapshot, err);
    r := Ok(results);
  }

  // On AWS a control passes or fails exactly when collecting succeeded, the
  // control applies and its expression says so.
  lemma OnlyEvidenceDecides(engine: Engine, controls: seq<Control>, collection: Collection, results: seq<Attested>,
      i: nat)
    requires Concluded(engine, controls, collection.snapshot, collection.error, results) && i < |controls|
    ensures var applies := Applies(controls[i].applicability, collection.snapshot, engine.sprint);
            var cel := engine.cel(controls[i].expression, collection.snapshot);
            && (results[i].verdict == Pass <==> collection.error.None? && applies && cel == True)
            && (results[i].verdict == Fail <==> collection.error.None? && applies && cel == False)
    ensures results[i].controlId == controls[i].id && results[i].controlVersion == controls[i].version
    ensures collection.error.Some? ==> results[i].verdict == Unknown
  {
    hide Applies;
  }

  // ----- a failed Azure collection -----

  // What the Azure collector returns: the snapshot it has gathered, or, whichever
  // of its calls fails, the zero Snapshot and the error.
  function AzureCollection(gathered: Option<Json>): Collection {
    if gathered.Some? then Collection(gathered.value, None) else Collection(EMPTY_SNAPSHOT, Some(CollectionFailure))
  }

  // The zero Snapshot as json.Marshal writes it.
  const EMPTY_SNAPSHOT := Obj(map[
    "provider" := Str(""), "subscriptionId" := Str(""), "resourceGroup" := Str(""), "workspaceName" := Str(""),
    "workspaceResourceId" := Str(""), "workspaceId" := Str(""), "location" := Str(""), "provisioningState" := Str(""),
    "sentinelEnabled" := Bool(false), "retentionDays" := Num(0.0), "minimumRetentionDays" := Num(0.0),
    "connectors" := Null, "requiredConnectors" := Null,
    "requiredConnectorsPresent" := Bool(false), "requiredConnectorsConfigured" := Bool(false),
    "alertRules" := Null, "automationRules" := Null,
    "health" := Obj(map[
      "monitoringDataPresent" := Bool(false), "auditDataPresent" := Bool(false),
      "connectorFailures" := Num(0.0), "analyticsRuleFailures" := Num(0.0), "automationFailures" := Num(0.0)]),
    "telemetry" := Null, "telemetryRequired" := Bool(false), "automationRequired" := Bool(false),
    "observedAt" := Str("0001-01-01T00:00:00Z"), "collectorIdentity" := Str("")])

  // The documentation's promise: a collection error is never coerced to pass or
  // fail, ...
  predicate NothingJudged(results: seq<Attested>) {
    forall i :: 0 <= i < |results| ==> results[i].verdict != Pass && results[i].verdict != Fail
  }

  // ... but is returned as unknown.
  predicate AllUnknown(results: seq<Attested>) { forall i :: 0 <= i < |results| ==> results[i].verdict == Unknown }

  // Both readings depend on the catalogue alone. A failed Azure collection is
  // judged unless no expression of a control that applies to the empty snapshot
  // is true or false of it; and it is reported as unknown throughout only if
  // moreover every control applies.
  lemma AzureKeepsPromise(engine: Engine, controls: seq<Control>, results: seq<Attested>)
    requires Concluded(engine, controls, AzureCollection(None).snapshot, None, results)
    ensures NothingJudged(results) <==>
            forall i :: 0 <= i < |controls| && Applies(controls[i].applicability, EMPTY_SNAPSHOT, engine.sprint) ==>
              engine.cel(controls[i].expression, EMPTY_SNAPSHOT) !in {True, False}
    ensures AllUnknown(results) <==>
            NothingJudged(results)
            && forall i :: 0 <= i < |controls| ==> Applies(controls[i].applicability, EMPTY_SNAPSHOT, engine.sprint)
  {
    hide Applies;
    forall i | 0 <= i < |controls|
      ensures var applies := Applies(controls[i].applicability, EMPTY_SNAPSHOT, engine.sprint);
              var cel := engine.cel(controls[i].expression, EMPTY_SNAPSHOT);
              && (results[i].verdict == Unknown <==> applies && cel !in {True, False})
              && (results[i].verdict == NotApplicable <==> !applies)
    {
      assert results[i] == ResultFor(engine, controls[i], EMPTY_SNAPSHOT);
    }
  }

  predicate HasFlag(j: Json, field: string) { var found := Lookup(j, [field]); found.Some? && found.value.Bool? }
  predicate HasNumber(j: Json, field: string) { var found := Lookup(j, [field]); found.Some? && found.value.Num? }

  // What CEL makes of these two expressions of the catalogue, where the fields are
  // a flag and numbers.
  function IsTrue(j: Json, field: string): Cel
    requires HasFlag(j, field)
  {
    if Lookup(j, [field]).value.flag then True else False
  }

  function IsAtLeast(j: Json, field: string, other: string): Cel
    requires HasNumber(j, field) && HasNumber(j, other)
  {
    if Lookup(j, [field]).value.number >= Lookup(j, [other]).value.number then True else False
  }

  // A failed Azure collection fails one control of the catalogue, Sentinel being
  // taken for disabled, and passes another, zero days of retention being enough
  // where zero are asked for.
  lemma AzureJudgesFailedCollection(engine: Engine, enabled: Control, retention: Control, results: seq<Attested>)
    requires forall j :: HasFlag(j, "sentinelEnabled") ==>
             engine.cel("evidence.sentinelEnabled == true", j) == IsTrue(j, "sentinelEnabled")
    requires forall j :: HasNumber(j, "retentionDays") && HasNumber(j, "minimumRetentionDays") ==>
               engine.cel("evidence.retentionDays >= evidence.minimumRetentionDays", j)
                   == IsAtLeast(j, "retentionDays", "minimumRetentionDays")
    requires enabled.applicability == None && enabled.expression == "evidence.sentinelEnabled == true"
    requires retention.applicability == None
    requires retention.expression == "evidence.retentionDays >= evidence.minimumRetentionDays"
    requires Concluded(engine, [enabled, retention], AzureCollection(None).snapshot, None, results)
    ensures results == [Attested(enabled.id, enabled.version, Fail), Attested(retention.id, retention.version, Pass)]
  {
    ReadEmpty("sentinelEnabled");
    ReadEmpty("retentionDays");
    ReadEmpty("minimumRetentionDays");
    assert engine.cel("evidence.sentinelEnabled == true", EMPTY_SNAPSHOT) == False;
    assert engine.cel("evidence.retentionDays >= evidence.minimumRetentionDays", EMPTY_SNAPSHOT) == True;
    assert results[0] == ResultFor(engine, enabled, EMPTY_SNAPSHOT);
    assert results[1] == ResultFor(engine, retention, EMPTY_SNAPSHOT);
  }

  lemma ReadEmpty(field: string)
    requires field in EMPTY_SNAPSHOT.members
    ensures Lookup(EMPTY_SNAPSHOT, [field]) == Some(EMPTY_SNAPSHOT.members[field])
  {
    assert [field][1..] == [];
  }

  // The empty snapshot holds nothing but zero values, and the zero time.
  lemma SnapshotIsZero()
    ensures forall k :: k in EMPTY_SNAPSHOT.members && k != "health" && k != "observedAt" ==>
              EMPTY_SNAPSHOT.members[k] in {Null, Bool(false), Num(0.0), Str("")}
    ensures EMPTY_SNAPSHOT.members["observedAt"] == Str("0001-01-01T00:00:00Z")
    ensures EMPTY_SNAPSHOT.members["health"].Obj?
    ensures forall k :: k in EMPTY_SNAPSHOT.members <==>
              k in {"provider", "subscriptionId", "resourceGroup", "workspaceName", "workspaceResourceId",
                    "workspaceId",
                    "location", "provisioningState", "sentinelEnabled", "retentionDays", "minimumRetentionDays",
                    "connectors", "requiredConnectors", "requiredConnectorsPresent", "requiredConnectorsConfigured",
                    "alertRules", "automationRules", "health", "telemetry", "telemetryRequired", "automationRequired",
                    "observedAt", "collectorIdentity"}
    ensures forall k :: k in EMPTY_SNAPSHOT.members["health"].members <==>
              k in {"monitoringDataPresent", "auditDataPresent", "connectorFailures", "analyticsRuleFailures",
                    "automationFailures"}
    ensures forall k :: k in EMPTY_SNAPSHOT.members["health"].members ==>
              EMPTY_SNAPSHOT.members["health"].members[k] in {Bool(false), Num(0.0)}
  {
  }
}
