// What compliance says about scores: whether every aspect meets the targets that
// an assessment cannot lower, and what the overall average can fall to.
module MaturityTargets {
  import opened Common
  import opened Averages
  import opened Floats
  import opened Maturity
  import opened MaturityGate
  import Text

  // ----- the aspects of a compliant report -----

  predicate MeetsPolicy(r: AspectResult, p: Policy) {
    Passes(r.maturity, p.minimumMaturity) && (r.capabilityApplicable ==> Passes(r.capability, p.minimumCapability))
  }

  predicate AllMeet(rs: seq<AspectResult>, p: Policy) { forall i :: 0 <= i < |rs| ==> MeetsPolicy(rs[i], p) }

  lemma {:induction false} CompliantMeet(domains: seq<Domain>, m: AspectIndex, p: Policy)
    requires AllCompliant(AllAspects(domains, m, p))
    ensures AllMeet(AllAspects(domains, m, p), p)
    decreases |domains|
  {
    hide Passes, AspectResultOf;
    if domains != [] {
      var n := |domains| - 1;
      var before, last := AllAspects(domains[..n], m, p), DomainAspects(domains[n], m, p);
      CompliantConcat(before, last);
      CompliantMeet(domains[..n], m, p);
      forall k | 0 <= k < |last| ensures MeetsPolicy(last[k], p) {
        var aspect := domains[n].aspects[k];
        assert last[k] == AspectResultOf(domains[n].name, aspect, AspectAnswer(m, aspect.id), p);
        assert last[k].compliant;
        CompliantMeets(domains[n].name, aspect, AspectAnswer(m, aspect.id), p);
      }
    }
  }

  lemma CompliantMeets(domain: string, aspect: Aspect, r: AspectResponse, p: Policy)
    requires AspectResultOf(domain, aspect, r, p).compliant
    ensures MeetsPolicy(AspectResultOf(domain, aspect, r, p), p)
  {
    AspectCompliantExactly(domain, aspect, r, p);
  }

  predicate InScale(r: AspectResult) { InRange(r.maturity, 5.0) && InRange(r.capability, 3.0) }

  predicate AllInScale(rs: seq<AspectResult>) { forall i :: 0 <= i < |rs| ==> InScale(rs[i]) }

  lemma {:induction false} AspectsInScale(domains: seq<Domain>, m: AspectIndex, p: Policy)
    requires forall id :: id in m ==> InRange(m[id].maturity, 5.0) && InRange(m[id].capability, 3.0)
    ensures AllInScale(AllAspects(domains, m, p))
    decreases |domains|
  {
    if domains != [] {
      var n := |domains| - 1;
      AspectsInScale(domains[..n], m, p);
      assert AllInScale(DomainAspects(domains[n], m, p));
    }
  }

  lemma IndexInScale(a: Assessment, model: Model)
    requires Accepts(a, model)
    ensures forall id :: id in AspectsById(a) ==>
              InRange(AspectsById(a)[id].maturity, 5.0) && InRange(AspectsById(a)[id].capability, 3.0)
  {
    hide ValidHeader, ValidControlResponse, KnownAspect, ValidEvidence, EffectivePolicy;
    ByIdFinds(a.aspectResults, (r: AspectResponse) => r.id);
    forall id | id in AspectsById(a)
      ensures InRange(AspectsById(a)[id].maturity, 5.0) && InRange(AspectsById(a)[id].capability, 3.0)
    {
      assert ValidAspectResponse(model, AspectsById(a)[id]);
    }
  }

  // What is known of the aspects of a compliant report.
  lemma CompliantReport(a: Assessment, model: Model)
    requires Accepts(a, model) && Outcome(EXACT, a, model).value.compliant
    ensures var r := Outcome(EXACT, a, model).value;
            && r.aspects == AllAspects(model.domains, AspectsById(a), r.policy)
            && r.policy == EffectivePolicy(a.policy, model.defaults)
            && r.overallMaturity == AverageOf(EXACT, MaturityScores(r.aspects))
            && AllMeet(r.aspects, r.policy) && AllInScale(r.aspects)
  {
    hide Accepts, EffectivePolicy, AspectsById, ControlsById, AverageOf, MaturityScores;
    var p := EffectivePolicy(a.policy, model.defaults);
    IndexInScale(a, model);
    AspectsInScale(model.domains, AspectsById(a), p);
    CompliantMeet(model.domains, AspectsById(a), p);
  }

  // ----- the lowest scores that pass -----

  function Lowest(minimum: Float): real {
    if minimum.Real? && minimum.value >= 0.0 then minimum.value else 0.0
  }

  function Barely(r: AspectResponse, p: Policy): AspectResponse {
    r.(maturity := Some(Lowest(p.minimumMaturity)),
       capability := if r.capability.Some? then Some(Lowest(p.minimumCapability)) else None)
  }

  // The same assessment with every score as low as passes.
  function BarelyAll(a: Assessment, p: Policy): (r: Assessment)
    ensures |r.aspectResults| == |a.aspectResults|
  {
    a.(aspectResults := seq(|a.aspectResults|, i requires 0 <= i < |a.aspectResults| => Barely(a.aspectResults[i], p)))
  }

  lemma BarelyAccepted(a: Assessment, model: Model, p: Policy)
    requires Accepts(a, model) && Lowest(p.minimumMaturity) <= 5.0 && Lowest(p.minimumCapability) <= 3.0
    ensures Accepts(BarelyAll(a, p), model)
  {
    hide ValidHeader, EffectivePolicy, KnownAspect, ValidEvidence, ValidControlResponse;
    var b := BarelyAll(a, p);
    BarelyHeader(a, model, p);
    forall r | r in b.aspectResults ensures ValidAspectResponse(model, r) {
      var i :| 0 <= i < |b.aspectResults| && b.aspectResults[i] == r;
      assert a.aspectResults[i] in a.aspectResults;
    }
    var id := (r: AspectResponse) => r.id;
    forall i, j | 0 <= i < j < |b.aspectResults| ensures id(b.aspectResults[i]) != id(b.aspectResults[j]) {
      assert id(a.aspectResults[i]) != id(a.aspectResults[j]);
    }
  }

  lemma BarelyHeader(a: Assessment, model: Model, p: Policy)
    ensures var q := EffectivePolicy(a.policy, model.defaults);
            ValidHeader(BarelyAll(a, p), q, model.defaults) == ValidHeader(a, q, model.defaults)
  {
  }

  lemma LowestPasses(minimum: Float, written: Float, default: real, maximum: real)
    requires Governs(minimum, written, default, maximum) && maximum >= 0.0
    ensures Passes(Some(Lowest(minimum)), minimum) && 0.0 <= Lowest(minimum) <= maximum
  {
  }

  lemma BarelyAnswers(a: Assessment, aspect: Aspect, p: Policy)
    requires AspectAnswered(a, aspect, p)
    requires Passes(Some(Lowest(p.minimumMaturity)), p.minimumMaturity)
    requires Passes(Some(Lowest(p.minimumCapability)), p.minimumCapability)
    ensures AspectAnswered(BarelyAll(a, p), aspect, p)
  {
    var b := BarelyAll(a, p);
    var r :| r in a.aspectResults && r.id == aspect.id && AspectMeets(aspect, r, p);
    var i :| 0 <= i < |a.aspectResults| && a.aspectResults[i] == r;
    assert b.aspectResults[i] in b.aspectResults;
    assert AspectMeets(aspect, b.aspectResults[i], p);
  }

  lemma SameControls(a: Assessment, b: Assessment, control: ModelControl)
    requires ControlAnswered(a, control) && b.controlResults == a.controlResults
    ensures ControlAnswered(b, control)
  {
  }

  // Accepted and compliant under the same policy.
  ghost predicate Comparable(a: Assessment, b: Assessment, model: Model) {
    b.policy == a.policy && Accepts(b, model) && Outcome(EXACT, b, model).value.compliant
  }

  lemma BarelyComparable(a: Assessment, model: Model)
    requires Comparable(a, a, model)
    ensures Comparable(a, BarelyAll(a, EffectivePolicy(a.policy, model.defaults)), model)
  {
    hide Accepts, ReportOf, AspectAnswered, ControlAnswered, EffectivePolicy;
    GateIsExact(EXACT, a, model);
    var p := EffectivePolicy(a.policy, model.defaults);
    LowestPasses(p.minimumMaturity, a.policy.minimumMaturity, model.defaults.minimumMaturity, 5.0);
    LowestPasses(p.minimumCapability, a.policy.minimumCapability, model.defaults.minimumCapability, 3.0);
    BarelyAccepted(a, model, p);
    var b := BarelyAll(a, p);
    GateIsExact(EXACT, b, model);
    forall i, k | 0 <= i < |model.domains| && 0 <= k < |model.domains[i].aspects|
      ensures AspectAnswered(b, model.domains[i].aspects[k], p)
    {
      BarelyAnswers(a, model.domains[i].aspects[k], p);
    }
    forall i | 0 <= i < |model.controls| ensures ControlAnswered(b, model.controls[i]) {
      SameControls(a, b, model.controls[i]);
    }
  }

  predicate ScoresLowest(r: AspectResult, p: Policy) {
    && (r.maturity.Some? ==> r.maturity.value == Lowest(p.minimumMaturity))
    && (r.capability.Some? ==> r.capability.value == Lowest(p.minimumCapability))
  }

  predicate AllLowest(rs: seq<AspectResult>, p: Policy) { forall i :: 0 <= i < |rs| ==> ScoresLowest(rs[i], p) }

  lemma {:induction false} BarelyScores(domains: seq<Domain>, m: AspectIndex, p: Policy)
    requires forall id :: id in m ==>
               && m[id].maturity == Some(Lowest(p.minimumMaturity))
               && (m[id].capability.Some? ==> m[id].capability.value == Lowest(p.minimumCapability))
    ensures AllLowest(AllAspects(domains, m, p), p)
    decreases |domains|
  {
    hide Lowest;
    if domains != [] {
      var n := |domains| - 1;
      BarelyScores(domains[..n], m, p);
      assert AllLowest(DomainAspects(domains[n], m, p), p);
    }
  }

  lemma BarelyIndex(a: Assessment, model: Model, p: Policy)
    requires Accepts(BarelyAll(a, p), model)
    ensures var m := AspectsById(BarelyAll(a, p));
            forall id :: id in m ==>
              && m[id].maturity == Some(Lowest(p.minimumMaturity))
              && (m[id].capability.Some? ==> m[id].capability.value == Lowest(p.minimumCapability))
  {
    hide Lowest;
    var b := BarelyAll(a, p);
    var m := AspectsById(b);
    ByIdFinds(b.aspectResults, (r: AspectResponse) => r.id);
    forall id | id in m
      ensures m[id].maturity == Some(Lowest(p.minimumMaturity))
      ensures m[id].capability.Some? ==> m[id].capability.value == Lowest(p.minimumCapability)
    {
      assert m[id] in b.aspectResults;
      var i :| 0 <= i < |b.aspectResults| && b.aspectResults[i] == m[id];
    }
  }

  lemma BarelyReport(a: Assessment, model: Model)
    requires Comparable(a, a, model)
    ensures var b := BarelyAll(a, EffectivePolicy(a.policy, model.defaults));
            && Comparable(a, b, model)
            && AllLowest(Outcome(EXACT, b, model).value.aspects, EffectivePolicy(a.policy, model.defaults))
  {
    hide Accepts, EffectivePolicy, AllLowest, AspectsById;
    var p := EffectivePolicy(a.policy, model.defaults);
    var b := BarelyAll(a, p);
    BarelyComparable(a, model);
    BarelyIndex(a, model, p);
    BarelyScores(model.domains, AspectsById(b), p);
    CompliantReport(b, model);
  }

  // ----- the targets -----

  // Every aspect meets the model's targets.
  predicate MeetsTargets(r: AspectResult, defaults: Defaults) {
    && r.maturity.Some? && r.maturity.value >= defaults.minimumMaturity
    && (r.capabilityApplicable ==> r.capability.Some? && r.capability.value >= defaults.minimumCapability)
  }

  predicate TargetsMet(b: Assessment, model: Model)
    requires Accepts(b, model)
  {
    var rs := Outcome(EXACT, b, model).value.aspects;
    forall i :: 0 <= i < |rs| ==> MeetsTargets(rs[i], model.defaults)
  }

  // Some domain has an aspect; some domain has one that capability applies to.
  predicate AnyAspect(domains: seq<Domain>) { exists i :: 0 <= i < |domains| && domains[i].aspects != [] }

  predicate AnyCapability(domains: seq<Domain>) {
    exists i :: 0 <= i < |domains| && SomeCapability(domains[i].aspects)
  }

  predicate SomeCapability(aspects: seq<Aspect>) { exists k :: 0 <= k < |aspects| && aspects[k].capabilityApplicable }

  predicate ReportsCapability(rs: seq<AspectResult>) { exists i :: 0 <= i < |rs| && rs[i].capabilityApplicable }

  // A report lists the aspects of its model.
  lemma {:induction false} ListsModel(domains: seq<Domain>, m: AspectIndex, p: Policy)
    ensures AllAspects(domains, m, p) != [] <==> AnyAspect(domains)
    ensures ReportsCapability(AllAspects(domains, m, p)) <==> AnyCapability(domains)
    decreases |domains|
  {
    hide AnyAspect, AnyCapability, ReportsCapability;
    if domains == [] {
      NoDomains();
    } else {
      var n := |domains| - 1;
      ListsModel(domains[..n], m, p);
      LastDomain(domains);
      EitherReports(AllAspects(domains[..n], m, p), DomainAspects(domains[n], m, p));
      DomainReports(domains[n], m, p);
    }
  }

  lemma NoDomains()
    ensures !AnyAspect([]) && !AnyCapability([]) && !ReportsCapability([])
  {
  }

  lemma LastDomain(domains: seq<Domain>)
    requires domains != []
    ensures var n := |domains| - 1;
            && (AnyAspect(domains) <==> AnyAspect(domains[..n]) || domains[n].aspects != [])
            && (AnyCapability(domains) <==> AnyCapability(domains[..n]) || SomeCapability(domains[n].aspects))
  {
    var n := |domains| - 1;
    if i :| 0 <= i < n && domains[..n][i].aspects != [] { assert domains[i].aspects != []; }
    if i :| 0 <= i < |domains| && domains[i].aspects != [] { assert i < n ==> domains[..n][i].aspects != []; }
    if i :| 0 <= i < n && SomeCapability(domains[..n][i].aspects) { assert SomeCapability(domains[i].aspects); }
    if i :| 0 <= i < |domains| && SomeCapability(domains[i].aspects) {
      assert i < n ==> SomeCapability(domains[..n][i].aspects);
    }
  }

  lemma EitherReports(x: seq<AspectResult>, y: seq<AspectResult>)
    ensures ReportsCapability(x + y) <==> ReportsCapability(x) || ReportsCapability(y)
  {
    var z := x + y;
    if i :| 0 <= i < |x| && x[i].capabilityApplicable { assert z[i].capabilityApplicable; }
    if i :| 0 <= i < |y| && y[i].capabilityApplicable { assert z[|x| + i].capabilityApplicable; }
    if i :| 0 <= i < |z| && z[i].capabilityApplicable {
      if i < |x| { assert x[i].capabilityApplicable; } else { assert y[i - |x|].capabilityApplicable; }
    }
  }

  lemma DomainReports(d: Domain, m: AspectIndex, p: Policy)
    ensures ReportsCapability(DomainAspects(d, m, p)) <==> SomeCapability(d.aspects)
  {
    var rs := DomainAspects(d, m, p);
    assert forall k :: 0 <= k < |rs| ==> rs[k].capabilityApplicable == d.aspects[k].capabilityApplicable;
  }

  lemma ReportListsModel(a: Assessment, model: Model)
    requires Comparable(a, a, model)
    ensures var rs := Outcome(EXACT, a, model).value.aspects;
            && (rs != [] <==> AnyAspect(model.domains))
            && (ReportsCapability(rs) <==> AnyCapability(model.domains))
  {
    hide Accepts, EffectivePolicy, AspectsById;
    CompliantReport(a, model);
    ListsModel(model.domains, AspectsById(a), EffectivePolicy(a.policy, model.defaults));
  }

  // A written NaN stands in the way of the target, given aspects it applies to.
  predicate MaturityLowered(p: Policy, model: Model) {
    p.minimumMaturity.NaN? && model.defaults.minimumMaturity > 0.0 && AnyAspect(model.domains)
  }

  predicate CapabilityLowered(p: Policy, model: Model) {
    p.minimumCapability.NaN? && model.defaults.minimumCapability > 0.0 && AnyCapability(model.domains)
  }

  // An assessment cannot lower the targets, and compliance means that every aspect
  // meets them, exactly when neither minimum is written as NaN (or the model has
  // no aspect to which a positive target applies).
  lemma TargetsHoldExactly(a: Assessment, model: Model)
    requires Comparable(a, a, model)
    ensures (forall b: Assessment :: Comparable(a, b, model) ==> TargetsMet(b, model))
            <==> !MaturityLowered(a.policy, model) && !CapabilityLowered(a.policy, model)
  {
    hide Accepts, ReportOf, EffectivePolicy, MeetsTargets, BarelyAll, MaturityLowered, CapabilityLowered;
    if MaturityLowered(a.policy, model) || CapabilityLowered(a.policy, model) {
      LowestMissTargets(a, model);
    } else {
      forall b: Assessment | Comparable(a, b, model) ensures TargetsMet(b, model) {
        NoneLowered(b, model);
      }
    }
  }

  lemma LowestMissTargets(a: Assessment, model: Model)
    requires Comparable(a, a, model)
    requires MaturityLowered(a.policy, model) || CapabilityLowered(a.policy, model)
    ensures var b := BarelyAll(a, EffectivePolicy(a.policy, model.defaults));
            Comparable(a, b, model) && !TargetsMet(b, model)
  {
    hide Accepts, ReportOf, BarelyAll, AnyAspect, AnyCapability;
    var b := BarelyAll(a, EffectivePolicy(a.policy, model.defaults));
    BarelyReport(a, model);
    ReportListsModel(b, model);
    var rs := Outcome(EXACT, b, model).value.aspects;
    if MaturityLowered(a.policy, model) {
      assert !MeetsTargets(rs[0], model.defaults);
    } else {
      var i :| 0 <= i < |rs| && rs[i].capabilityApplicable;
      assert !MeetsTargets(rs[i], model.defaults);
    }
  }

  lemma NoneLowered(b: Assessment, model: Model)
    requires Comparable(b, b, model)
    requires !MaturityLowered(b.policy, model) && !CapabilityLowered(b.policy, model)
    ensures TargetsMet(b, model)
  {
    hide Accepts, ReportOf, EffectivePolicy, AllAspects, Passes, InRange, Governs, AnyAspect, AnyCapability;
    ReportListsModel(b, model);
    CompliantReport(b, model);
    GateIsExact(EXACT, b, model);
    var rs := Outcome(EXACT, b, model).value.aspects;
    var p, d := EffectivePolicy(b.policy, model.defaults), model.defaults;
    forall i | 0 <= i < |rs| ensures MeetsTargets(rs[i], d) {
      var r := rs[i];
      assert MeetsPolicy(r, p) && InScale(r);
      TargetMet(r.maturity, p.minimumMaturity, b.policy.minimumMaturity, d.minimumMaturity, 5.0);
      if r.capabilityApplicable {
        assert ReportsCapability(rs);
        TargetMet(r.capability, p.minimumCapability, b.policy.minimumCapability, d.minimumCapability, 3.0);
      }
    }
  }

  lemma TargetMet(score: Option<real>, minimum: Float, written: Float, default: real, maximum: real)
    requires Passes(score, minimum) && InRange(score, maximum) && Governs(minimum, written, default, maximum)
    requires !written.NaN? || default <= 0.0
    ensures score.Some? && score.value >= default
  {
  }

  // An assessment that asks for nothing and gets it: both minima are NaN, and an
  // aspect that scores zero twice is compliant.
  lemma NaNLowersTargets(ar: Arithmetic, a: Assessment, model: Model)
    requires model == Model("source", "license", Defaults(3.0, 2.0),
             [Domain("d", "Domain", [Aspect("a", "Aspect", true)])], [])
    requires a == Assessment(API_VERSION, KIND, "soc", MODEL_REF, Policy(NaN, NaN),
                             [AspectResponse("a", Some(0.0), Some(0.0), ["review"])], [])
    ensures Accepts(a, model) && Outcome(ar, a, model).value.compliant
  {
    hide ReportOf;
    assert Accepts(a, model) by {
      ZeroAccepted(a, model);
    }
    GateIsExact(ar, a, model);
    var p := EffectivePolicy(a.policy, model.defaults);
    assert a.aspectResults[0] in a.aspectResults;
    assert AspectMeets(model.domains[0].aspects[0], a.aspectResults[0], p);
    assert AspectAnswered(a, model.domains[0].aspects[0], p);
  }

  lemma ZeroAccepted(a: Assessment, model: Model)
    requires model == Model("source", "license", Defaults(3.0, 2.0),
             [Domain("d", "Domain", [Aspect("a", "Aspect", true)])], [])
    requires a == Assessment(API_VERSION, KIND, "soc", MODEL_REF, Policy(NaN, NaN),
                             [AspectResponse("a", Some(0.0), Some(0.0), ["review"])], [])
    ensures Accepts(a, model)
  {
    hide ValidHeader, ValidEvidence, KnownAspect;
    ZeroHeader(a, model.defaults);
    ReviewIsEvidence();
    AspectIsKnown(model);
  }

  lemma ZeroHeader(a: Assessment, defaults: Defaults)
    requires a.apiVersion == API_VERSION && a.kind == KIND && a.name == "soc" && a.model == MODEL_REF
    requires a.policy == Policy(NaN, NaN) && |a.aspectResults| <= 1 && a.controlResults == []
    ensures ValidHeader(a, EffectivePolicy(a.policy, defaults), defaults)
  {
    hide Text.ByteLength;
    assert Text.TrimSpace("soc") == "soc";
    Text.Short("soc");
  }

  lemma ReviewIsEvidence()
    ensures ValidEvidence(["review"])
  {
    hide Text.ByteLength;
    assert Text.TrimSpace("review") == "review";
    Text.Short("review");
  }

  lemma AspectIsKnown(model: Model)
    requires model.domains == [Domain("d", "Domain", [Aspect("a", "Aspect", true)])]
    ensures KnownAspect(model, "a")
  {
    var d := model.domains[0];
    assert d in model.domains && d.aspects[0] in d.aspects;
  }

  // ----- the overall average -----

  lemma {:induction false} ScoresAtLeast(rs: seq<AspectResult>, m: real)
    requires forall i :: 0 <= i < |rs| ==> rs[i].maturity.Some? && rs[i].maturity.value >= m
    ensures |MaturityScores(rs)| == |rs|
    ensures forall i :: 0 <= i < |rs| ==> MaturityScores(rs)[i] >= m
  {
    if rs != [] { ScoresAtLeast(rs[..|rs| - 1], m); }
  }

  lemma {:induction false} ScoresAre(rs: seq<AspectResult>, m: real)
    requires forall i :: 0 <= i < |rs| ==> rs[i].maturity == Some(m)
    ensures |MaturityScores(rs)| == |rs| && forall i :: 0 <= i < |rs| ==> MaturityScores(rs)[i] == m
  {
    if rs != [] { ScoresAre(rs[..|rs| - 1], m); }
  }

  // A compliant report on a model with any aspect states an overall maturity no
  // lower than the minimum rounded to hundredths, in exact arithmetic; or no lower
  // than zero, where the minimum is NaN.
  lemma CompliantAverage(a: Assessment, model: Model)
    requires Comparable(a, a, model) && AnyAspect(model.domains)
    ensures var r := Outcome(EXACT, a, model).value;
            r.overallMaturity.Some? && r.overallMaturity.value >= Hundredths(Lowest(r.policy.minimumMaturity))
  {
    hide Accepts, ReportOf, EffectivePolicy, Hundredths, AllAspects, MaturityScores, AnyAspect, ReportsCapability;
    ReportListsModel(a, model);
    CompliantReport(a, model);
    GateIsExact(EXACT, a, model);
    var r := Outcome(EXACT, a, model).value;
    var m := Lowest(r.policy.minimumMaturity);
    forall i | 0 <= i < |r.aspects| ensures r.aspects[i].maturity.Some? && r.aspects[i].maturity.value >= m {
      assert MeetsPolicy(r.aspects[i], r.policy) && InScale(r.aspects[i]);
    }
    ScoresAtLeast(r.aspects, m);
    AverageAtLeast(MaturityScores(r.aspects), m);
  }

  // The overall maturity is not below the minimum in force.
  predicate MeetsMinimum(b: Assessment, model: Model)
    requires Accepts(b, model)
  {
    var r := Outcome(EXACT, b, model).value;
    Passes(r.overallMaturity, r.policy.minimumMaturity)
  }

  // Compliant reports under a policy never state an overall maturity below the
  // minimum in force, exactly when that is NaN or negative, so that no score is
  // below it, or is not taken below itself by rounding.
  lemma CompliantAverageExactly(a: Assessment, model: Model)
    requires Comparable(a, a, model) && AnyAspect(model.domains)
    ensures var m := EffectivePolicy(a.policy, model.defaults).minimumMaturity;
            (forall b: Assessment :: Comparable(a, b, model) ==> MeetsMinimum(b, model))
            <==> Reached(m)
  {
    hide Accepts, ReportOf, EffectivePolicy, Hundredths, BarelyAll, MeetsMinimum, Reached;
    var p := EffectivePolicy(a.policy, model.defaults);
    if Reached(p.minimumMaturity) {
      forall b: Assessment | Comparable(a, b, model) ensures MeetsMinimum(b, model) {
        AverageMeets(b, model);
      }
    } else {
      AverageMisses(a, model);
    }
  }

  // Scores that pass cannot average to one that does not.
  predicate Reached(m: Float) { m.Real? && m.value >= 0.0 ==> Hundredths(m.value) >= m.value }

  lemma AverageMeets(b: Assessment, model: Model)
    requires Comparable(b, b, model) && AnyAspect(model.domains)
    requires Reached(EffectivePolicy(b.policy, model.defaults).minimumMaturity)
    ensures MeetsMinimum(b, model)
  {
    hide Accepts, ReportOf, EffectivePolicy, Hundredths, Governs, Passes, Reached, Lowest, AllMeet, AllInScale,
      AllAspects, AverageOf, MaturityScores, AspectAnswered, ControlAnswered;
    var p := EffectivePolicy(b.policy, model.defaults);
    CompliantReport(b, model);
    CompliantAverage(b, model);
    InForce(b, model);
    NotBelow(Outcome(EXACT, b, model).value.overallMaturity, p.minimumMaturity, b.policy.minimumMaturity,
        model.defaults.minimumMaturity);
  }

  lemma NotBelow(overall: Option<real>, m: Float, written: Float, default: real)
    requires Governs(m, written, default, 5.0) && Reached(m)
    requires overall.Some? && overall.value >= Hundredths(Lowest(m))
    ensures Passes(overall, m)
  {
    hide Hundredths;
    HundredthsFixes(0.0);
  }

  lemma AverageMisses(a: Assessment, model: Model)
    requires Comparable(a, a, model) && AnyAspect(model.domains)
    requires !Reached(EffectivePolicy(a.policy, model.defaults).minimumMaturity)
    ensures var b := BarelyAll(a, EffectivePolicy(a.policy, model.defaults));
            Comparable(a, b, model) && !MeetsMinimum(b, model)
  {
    hide Accepts, ReportOf, EffectivePolicy, Hundredths, BarelyAll;
    LowestAverage(a, model);
    CompliantReport(BarelyAll(a, EffectivePolicy(a.policy, model.defaults)), model);
  }

  lemma LowestAverage(a: Assessment, model: Model)
    requires Comparable(a, a, model) && AnyAspect(model.domains)
    ensures var p := EffectivePolicy(a.policy, model.defaults);
            var b := BarelyAll(a, p);
            && Comparable(a, b, model)
            && Outcome(EXACT, b, model).value.overallMaturity == Some(Hundredths(Lowest(p.minimumMaturity)))
  {
    hide Accepts, ReportOf, EffectivePolicy, Hundredths, BarelyAll, Lowest, AllAspects, MaturityScores;
    var p := EffectivePolicy(a.policy, model.defaults);
    var b := BarelyAll(a, p);
    BarelyReport(a, model);
    ReportListsModel(b, model);
    CompliantReport(b, model);
    var rs := Outcome(EXACT, b, model).value.aspects;
    forall i | 0 <= i < |rs| ensures rs[i].maturity == Some(Lowest(p.minimumMaturity)) {
      assert MeetsPolicy(rs[i], p) && ScoresLowest(rs[i], p);
    }
    ScoresAre(rs, Lowest(p.minimumMaturity));
    AverageOfSame(MaturityScores(rs), Lowest(p.minimumMaturity));
  }
}
