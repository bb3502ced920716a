// What a maturity report says, in plain terms and from the answers given: its
// figures, its aspects, domains and controls, and its counters.
module MaturityReport {
  import opened Common
  import opened Counting
  import opened Averages
  import opened Floats
  import opened Maturity
  import opened MaturityGate
  import Text

  // ----- answers -----

  // The answer with the identifier, if there is one.
  function Answer(rs: seq<AspectResponse>, id: string): (r: Option<AspectResponse>)
    ensures r.Some? ==> r.value in rs && r.value.id == id
    ensures r.None? ==> forall x :: x in rs ==> x.id != id
  {
    if rs == [] then None
    else
      var n := |rs| - 1;
      assert rs == rs[..n] + [rs[n]];
      if rs[n].id == id then Some(rs[n]) else Answer(rs[..n], id)
  }

  function ControlAnswerTo(rs: seq<ControlResponse>, id: string): (r: Option<ControlResponse>)
    ensures r.Some? ==> r.value in rs && r.value.id == id
    ensures r.None? ==> forall x :: x in rs ==> x.id != id
  {
    if rs == [] then None
    else
      var n := |rs| - 1;
      assert rs == rs[..n] + [rs[n]];
      if rs[n].id == id then Some(rs[n]) else ControlAnswerTo(rs[..n], id)
  }

  function Given(rs: seq<AspectResponse>, id: string): AspectResponse {
    var r := Answer(rs, id);
    if r.Some? then r.value else AspectResponse("", None, None, [])
  }

  function GivenControl(rs: seq<ControlResponse>, id: string): ControlResponse {
    var r := ControlAnswerTo(rs, id);
    if r.Some? then r.value else ControlResponse("", "", [])
  }

  lemma {:induction false} IndexGives(rs: seq<AspectResponse>, id: string)
    ensures AspectAnswer(ById(rs, (r: AspectResponse) => r.id), id) == Given(rs, id)
  {
    if rs != [] { IndexGives(rs[..|rs| - 1], id); }
  }

  lemma {:induction false} ControlIndexGives(rs: seq<ControlResponse>, id: string)
    ensures ControlAnswer(ById(rs, (r: ControlResponse) => r.id), id) == GivenControl(rs, id)
  {
    if rs != [] { ControlIndexGives(rs[..|rs| - 1], id); }
  }

  // ----- the figures -----

  function MaturityOf(r: AspectResponse): Option<real> { r.maturity }
  function CapabilityOf(r: AspectResponse): Option<real> { r.capability }

  // The scores that were answered for the aspects.
  function Answered(rs: seq<AspectResponse>, aspects: seq<Aspect>, score: AspectResponse -> Option<real>): seq<real> {
    if aspects == [] then []
    else
      var n := |aspects| - 1;
      var r := Answer(rs, aspects[n].id);
      Answered(rs, aspects[..n], score) + if r.Some? && score(r.value).Some? then [score(r.value).value] else []
  }

  // There are none exactly if no answer to any of the aspects has the score.
  lemma {:induction false} AnsweredNone(rs: seq<AspectResponse>, aspects: seq<Aspect>,
      score: AspectResponse -> Option<real>)
    requires DistinctBy(rs, (r: AspectResponse) => r.id)
    ensures Answered(rs, aspects, score) == [] <==>
            forall aspect, r :: aspect in aspects && r in rs && r.id == aspect.id ==> score(r).None?
    decreases |aspects|
  {
    if aspects != [] {
      var n := |aspects| - 1;
      AnsweredNone(rs, aspects[..n], score);
      assert aspects == aspects[..n] + [aspects[n]];
      forall r | r in rs && r.id == aspects[n].id ensures Answer(rs, aspects[n].id) == Some(r) {
        OnlyAnswer(rs, r);
      }
    }
  }

  lemma OnlyAnswer(rs: seq<AspectResponse>, r: AspectResponse)
    requires DistinctBy(rs, (r: AspectResponse) => r.id) && r in rs
    ensures Answer(rs, r.id) == Some(r)
  {
    var x := Answer(rs, r.id).value;
    var i :| 0 <= i < |rs| && rs[i] == r;
    var j :| 0 <= j < |rs| && rs[j] == x;
    var id := (r: AspectResponse) => r.id;
    assert id(rs[i]) == id(rs[j]);
  }

  lemma {:induction false} DomainScores(rs: seq<AspectResponse>, d: Domain, p: Policy)
    ensures var results := DomainAspects(d, ById(rs, (r: AspectResponse) => r.id), p);
            && MaturityScores(results) == Answered(rs, d.aspects, MaturityOf)
            && CapabilityScores(results) == Answered(rs, d.aspects, CapabilityOf)
    decreases |d.aspects|
  {
    hide ById, AspectChecks, AllPass;
    if d.aspects != [] {
      var n := |d.aspects| - 1;
      var m := ById(rs, (r: AspectResponse) => r.id);
      var e := d.(aspects := d.aspects[..n]);
      DomainScores(rs, e, p);
      IndexGives(rs, d.aspects[n].id);
      assert DomainAspects(d, m, p)[..n] == DomainAspects(e, m, p);
    }
  }

  function Flat(domains: seq<Domain>): seq<Aspect> {
    if domains == [] then [] else Flat(domains[..|domains| - 1]) + domains[|domains| - 1].aspects
  }

  lemma {:induction false} ScoresConcat(x: seq<AspectResult>, y: seq<AspectResult>)
    ensures MaturityScores(x + y) == MaturityScores(x) + MaturityScores(y)
    ensures CapabilityScores(x + y) == CapabilityScores(x) + CapabilityScores(y)
    decreases |y|
  {
    if y == [] {
      assert x + y == x;
    } else {
      var n := |y| - 1;
      assert (x + y)[..|x + y| - 1] == x + y[..n];
      ScoresConcat(x, y[..n]);
    }
  }

  lemma {:induction false} AnsweredConcat(rs: seq<AspectResponse>, x: seq<Aspect>, y: seq<Aspect>,
      score: AspectResponse -> Option<real>)
    ensures Answered(rs, x + y, score) == Answered(rs, x, score) + Answered(rs, y, score)
    decreases |y|
  {
    if y == [] {
      assert x + y == x;
    } else {
      var n := |y| - 1;
      assert (x + y)[..|x + y| - 1] == x + y[..n];
      AnsweredConcat(rs, x, y[..n], score);
    }
  }

  lemma {:induction false} AllScores(rs: seq<AspectResponse>, domains: seq<Domain>, p: Policy)
    ensures var results := AllAspects(domains, ById(rs, (r: AspectResponse) => r.id), p);
            && MaturityScores(results) == Answered(rs, Flat(domains), MaturityOf)
            && CapabilityScores(results) == Answered(rs, Flat(domains), CapabilityOf)
    decreases |domains|
  {
    hide ById, DomainAspects;
    if domains != [] {
      var n := |domains| - 1;
      var m := ById(rs, (r: AspectResponse) => r.id);
      AllScores(rs, domains[..n], p);
      DomainScores(rs, domains[n], p);
      ScoresConcat(AllAspects(domains[..n], m, p), DomainAspects(domains[n], m, p));
      AnsweredConcat(rs, Flat(domains[..n]), domains[n].aspects, MaturityOf);
      AnsweredConcat(rs, Flat(domains[..n]), domains[n].aspects, CapabilityOf);
    }
  }

  // A figure is the average of the answered scores, and absent if there are none.
  ghost predicate IsFigure(ar: Arithmetic, figure: Option<real>, rs: seq<AspectResponse>, aspects: seq<Aspect>,
                           score: AspectResponse -> Option<real>) {
    && figure == AverageOf(ar, Answered(rs, aspects, score))
    && (figure.None? <==> forall aspect, r :: aspect in aspects && r in rs && r.id == aspect.id ==> score(r).None?)
  }

  lemma FigureIs(ar: Arithmetic, rs: seq<AspectResponse>, aspects: seq<Aspect>, score: AspectResponse -> Option<real>)
    requires DistinctBy(rs, (r: AspectResponse) => r.id)
    ensures IsFigure(ar, AverageOf(ar, Answered(rs, aspects, score)), rs, aspects, score)
  {
    AnsweredNone(rs, aspects, score);
  }

  // Both overall figures and both figures of every domain are the averages of the
  // maturity and of the capability scores that were answered for its aspects.
  lemma FiguresMean(ar: Arithmetic, a: Assessment, model: Model)
    requires Accepts(a, model)
    ensures var r, rs := Outcome(ar, a, model).value, a.aspectResults;
            && IsFigure(ar, r.overallMaturity, rs, Flat(model.domains), MaturityOf)
            && IsFigure(ar, r.overallCapability, rs, Flat(model.domains), CapabilityOf)
            && |r.domains| == |model.domains|
            && forall i :: 0 <= i < |r.domains| ==>
                 && IsFigure(ar, r.domains[i].maturity, rs, model.domains[i].aspects, MaturityOf)
                 && IsFigure(ar, r.domains[i].capability, rs, model.domains[i].aspects, CapabilityOf)
  {
    hide ById, DomainAspects, AllAspects, AverageOf, Answered, IsFigure, EffectivePolicy, ControlResults, Compliant,
      AllCompliant, WithStatus, AllControlsPass, HasIncomplete, MaturityScores, CapabilityScores;
    var rs, p := a.aspectResults, EffectivePolicy(a.policy, model.defaults);
    AcceptedDistinct(a, model);
    AllScores(rs, model.domains, p);
    FigureIs(ar, rs, Flat(model.domains), MaturityOf);
    FigureIs(ar, rs, Flat(model.domains), CapabilityOf);
    forall i | 0 <= i < |model.domains|
      ensures var results := DomainAspects(model.domains[i], AspectsById(a), p);
              && IsFigure(ar, AverageOf(ar, MaturityScores(results)), rs, model.domains[i].aspects, MaturityOf)
              && IsFigure(ar, AverageOf(ar, CapabilityScores(results)), rs, model.domains[i].aspects, CapabilityOf)
    {
      DomainScores(rs, model.domains[i], p);
      FigureIs(ar, rs, model.domains[i].aspects, MaturityOf);
      FigureIs(ar, rs, model.domains[i].aspects, CapabilityOf);
    }
  }

  lemma AcceptedDistinct(a: Assessment, model: Model)
    requires Accepts(a, model)
    ensures DistinctBy(a.aspectResults, (r: AspectResponse) => r.id)
    ensures DistinctBy(a.controlResults, (r: ControlResponse) => r.id)
  {
  }

  // ----- the aspects -----

  // Every aspect of the model with the name of its domain, in order.
  function Pairs(domains: seq<Domain>): seq<(string, Aspect)> {
    if domains == [] then []
    else
      var n := |domains| - 1;
      Pairs(domains[..n])
      + seq(|domains[n].aspects|, k requires 0 <= k < |domains[n].aspects| => (domains[n].name, domains[n].aspects[k]))
  }

  lemma {:induction false} AspectsListed(rs: seq<AspectResponse>, domains: seq<Domain>, p: Policy)
    ensures var results := AllAspects(domains, ById(rs, (r: AspectResponse) => r.id), p);
            && |results| == |Pairs(domains)| == |Flat(domains)|
            && forall k :: 0 <= k < |results| ==>
                 && Pairs(domains)[k].1 == Flat(domains)[k]
                 && results[k] == AspectResultOf(Pairs(domains)[k].0, Flat(domains)[k],
                                               Given(rs, Flat(domains)[k].id), p)
    decreases |domains|
  {
    hide ById, AspectResultOf, Given;
    if domains != [] {
      var n := |domains| - 1;
      AspectsListed(rs, domains[..n], p);
      forall k | 0 <= k < |domains[n].aspects|
        ensures AspectAnswer(ById(rs, (r: AspectResponse) => r.id), domains[n].aspects[k].id)
                == Given(rs, domains[n].aspects[k].id)
      {
        IndexGives(rs, domains[n].aspects[k].id);
      }
    }
  }

  // The answer meets what is asked of the aspect.
  predicate Adequate(rs: seq<AspectResponse>, aspect: Aspect, p: Policy) {
    var r := Given(rs, aspect.id);
    && r.evidence != [] && r.maturity.Some? && !Below(Real(r.maturity.value), p.minimumMaturity)
    && (if aspect.capabilityApplicable then r.capability.Some? && !Below(Real(r.capability.value), p.minimumCapability)
        else r.capability.None?)
  }

  // Something is missing from the answer: a score that applies, or evidence.
  predicate Lacking(rs: seq<AspectResponse>, aspect: Aspect) {
    var r := Given(rs, aspect.id);
    r.evidence == [] || r.maturity.None? || (aspect.capabilityApplicable && r.capability.None?)
  }

  lemma AspectMeans(domain: string, aspect: Aspect, rs: seq<AspectResponse>, p: Policy)
    ensures var result := AspectResultOf(domain, aspect, Given(rs, aspect.id), p);
            && (result.compliant <==> Adequate(rs, aspect, p))
            && (HasIncomplete(result) <==> Lacking(rs, aspect))
  {
    hide Given;
    var r := Given(rs, aspect.id);
    AspectCompliantExactly(domain, aspect, r, p);
    var c := AspectChecks(aspect, r, p);
    assert c[|c| - 1].status == if r.evidence == [] then Incomplete else Pass;
    assert c[0].status == Incomplete <==> r.maturity.None?;
    assert aspect.capabilityApplicable ==> (c[1].status == Incomplete <==> r.capability.None?);
  }

  // The report lists the aspects of the model in order, each with its domain's name,
  // the scores answered and how much evidence was given, and whether it is adequate.
  lemma AspectsMean(ar: Arithmetic, a: Assessment, model: Model)
    requires Accepts(a, model)
    ensures var r, pairs := Outcome(ar, a, model).value, Pairs(model.domains);
            && |r.aspects| == |pairs| && r.summary.aspects == |pairs|
            && forall k :: 0 <= k < |pairs| ==>
                 var result, aspect, answer := r.aspects[k], pairs[k].1, Given(a.aspectResults, pairs[k].1.id);
                 && result.id == aspect.id && result.name == aspect.name && result.domain == pairs[k].0
                 && result.capabilityApplicable == aspect.capabilityApplicable
                 && result.maturity == answer.maturity && result.capability == answer.capability
                 && result.evidenceCount == |answer.evidence|
                 && (result.compliant <==> Adequate(a.aspectResults, aspect, EffectivePolicy(a.policy, model.defaults)))
  {
    hide ById, AllAspects, EffectivePolicy, ControlResults, DomainResultOf, AverageOf, MaturityScores, CapabilityScores,
      Given, Adequate, AspectChecks, Compliant, WithStatus;
    var p := EffectivePolicy(a.policy, model.defaults);
    AspectsListed(a.aspectResults, model.domains, p);
    forall k | 0 <= k < |Pairs(model.domains)|
      ensures var aspect := Pairs(model.domains)[k].1;
              AspectResultOf(Pairs(model.domains)[k].0, aspect, Given(a.aspectResults, aspect.id), p).compliant
              <==> Adequate(a.aspectResults, aspect, p)
    {
      AspectMeans(Pairs(model.domains)[k].0, Pairs(model.domains)[k].1, a.aspectResults, p);
    }
  }

  // ----- the domains -----

  predicate DomainIs(result: DomainResult, d: Domain, rs: seq<AspectResponse>, p: Policy) {
    && result.id == d.id && result.name == d.name && result.aspects == |d.aspects|
    && result.compliantAspects == |set k | 0 <= k < |d.aspects| && Adequate(rs, d.aspects[k], p)|
    && (result.compliant <==> forall k :: 0 <= k < |d.aspects| ==> Adequate(rs, d.aspects[k], p))
  }

  lemma DomainMeans(ar: Arithmetic, d: Domain, rs: seq<AspectResponse>, p: Policy)
    ensures DomainIs(DomainResultOf(ar, d, DomainAspects(d, ById(rs, (r: AspectResponse) => r.id), p)), d, rs, p)
  {
    hide ById, AspectResultOf, Adequate, AverageOf, MaturityScores, CapabilityScores;
    var results := DomainAspects(d, ById(rs, (r: AspectResponse) => r.id), p);
    forall k | 0 <= k < |d.aspects| ensures results[k].compliant <==> Adequate(rs, d.aspects[k], p) {
      IndexGives(rs, d.aspects[k].id);
      AspectMeans(d.name, d.aspects[k], rs, p);
    }
    CountIsCardinality(results, (r: AspectResult) => r.compliant,
                       set k | 0 <= k < |d.aspects| && Adequate(rs, d.aspects[k], p));
  }

  // Each domain counts its adequate aspects, and is compliant if all of them are.
  lemma DomainsMean(ar: Arithmetic, a: Assessment, model: Model)
    requires Accepts(a, model)
    ensures var r := Outcome(ar, a, model).value;
            && |r.domains| == |model.domains| && r.summary.domains == |model.domains|
            && forall i :: 0 <= i < |model.domains| ==>
                 DomainIs(r.domains[i], model.domains[i], a.aspectResults, EffectivePolicy(a.policy, model.defaults))
  {
    hide ById, DomainAspects, DomainResultOf, DomainIs, AllAspects, AverageOf, EffectivePolicy, ControlResults;
    forall i | 0 <= i < |model.domains|
      ensures DomainIs(Outcome(ar, a, model).value.domains[i], model.domains[i], a.aspectResults,
                       EffectivePolicy(a.policy, model.defaults))
    {
      DomainMeans(ar, model.domains[i], a.aspectResults, EffectivePolicy(a.policy, model.defaults));
    }
  }

  // ----- the controls and the counters -----

  predicate ControlIs(result: ControlResult, control: ModelControl, rs: seq<ControlResponse>) {
    var r := GivenControl(rs, control.id);
    && result.id == control.id && result.aspectId == control.aspectId && result.name == control.name
    && result.declaredStatus == r.status && result.evidenceCount == |r.evidence|
    && (result.status == Pass <==> r.id != "" && r.status == "pass" && r.evidence != [])
    && (result.status == Fail <==> r.id != "" && r.status != "pass")
  }

  // The report lists the controls of the model in order, and the counters say how
  // many aspects are adequate or lack something, and how many controls have passed,
  // failed or are incomplete.
  lemma CountersMean(ar: Arithmetic, a: Assessment, model: Model)
    requires Accepts(a, model)
    ensures var r, flat, rs := Outcome(ar, a, model).value, Flat(model.domains), a.aspectResults;
            && r.summary.compliantAspects ==
                 |set k | 0 <= k < |flat| && Adequate(rs, flat[k], EffectivePolicy(a.policy, model.defaults))|
            && r.summary.incompleteAspects == |set k | 0 <= k < |flat| && Lacking(rs, flat[k])|
    ensures var r := Outcome(ar, a, model).value;
            && |r.controls| == |model.controls| && r.summary.controls == |model.controls|
            && (forall i :: 0 <= i < |r.controls| ==> ControlIs(r.controls[i], model.controls[i], a.controlResults))
            && r.summary.passingControls == |set i | 0 <= i < |r.controls| && r.controls[i].status == Pass|
            && r.summary.failedControls == |set i | 0 <= i < |r.controls| && r.controls[i].status == Fail|
            && r.summary.incompleteControls == |set i | 0 <= i < |r.controls| && r.controls[i].status == Incomplete|
  {
    AspectCounters(a, model);
    ControlCounters(model.controls, a.controlResults);
    hide ById, AllAspects, ControlResults, DomainResultOf, AverageOf, EffectivePolicy, Adequate, Lacking, ControlIs,
      Compliant, WithStatus, Count, HasIncomplete;
  }

  lemma AspectCounters(a: Assessment, model: Model)
    ensures var p, flat := EffectivePolicy(a.policy, model.defaults), Flat(model.domains);
            var results := AllAspects(model.domains, AspectsById(a), p);
            && Compliant(results) == |set k | 0 <= k < |flat| && Adequate(a.aspectResults, flat[k], p)|
            && Count(results, HasIncomplete) == |set k | 0 <= k < |flat| && Lacking(a.aspectResults, flat[k])|
  {
    hide ById, AllAspects, EffectivePolicy, Adequate, Lacking, AspectResultOf, Given, HasIncomplete;
    var p, flat := EffectivePolicy(a.policy, model.defaults), Flat(model.domains);
    var results := AllAspects(model.domains, AspectsById(a), p);
    AspectsListed(a.aspectResults, model.domains, p);
    forall k | 0 <= k < |flat|
      ensures results[k].compliant <==> Adequate(a.aspectResults, flat[k], p)
      ensures HasIncomplete(results[k]) <==> Lacking(a.aspectResults, flat[k])
    {
      AspectMeans(Pairs(model.domains)[k].0, flat[k], a.aspectResults, p);
    }
    CountIsCardinality(results, (r: AspectResult) => r.compliant,
                       set k | 0 <= k < |flat| && Adequate(a.aspectResults, flat[k], p));
    CountIsCardinality(results, HasIncomplete, set k | 0 <= k < |flat| && Lacking(a.aspectResults, flat[k]));
  }

  lemma ControlCounters(controls: seq<ModelControl>, rs: seq<ControlResponse>)
    ensures var results := ControlResults(controls, ById(rs, (r: ControlResponse) => r.id));
            && (forall i :: 0 <= i < |results| ==> ControlIs(results[i], controls[i], rs))
            && WithStatus(results, Pass) == |set i | 0 <= i < |results| && results[i].status == Pass|
            && WithStatus(results, Fail) == |set i | 0 <= i < |results| && results[i].status == Fail|
            && WithStatus(results, Incomplete) == |set i | 0 <= i < |results| && results[i].status == Incomplete|
  {
    hide ById, GivenControl;
    var results := ControlResults(controls, ById(rs, (r: ControlResponse) => r.id));
    forall i | 0 <= i < |results| ensures ControlIs(results[i], controls[i], rs) {
      ControlIndexGives(rs, controls[i].id);
    }
    StatusCount(results, Pass);
    StatusCount(results, Fail);
    StatusCount(results, Incomplete);
  }

  lemma StatusCount(results: seq<ControlResult>, status: Status)
    ensures WithStatus(results, status) == |set i | 0 <= i < |results| && results[i].status == status|
  {
    CountIsCardinality(results, (r: ControlResult) => r.status == status,
                       set i | 0 <= i < |results| && results[i].status == status);
  }

  // ----- the rest of the report, and the limits -----

  // A minimum written as zero stands for the model's default.
  function InForceFor(written: Float, default: real): Float { if written == Real(0.0) then Real(default) else written }

  lemma HeadingMeans(ar: Arithmetic, a: Assessment, model: Model)
    requires Accepts(a, model)
    ensures var r := Outcome(ar, a, model).value;
            && r.assessmentName == a.name && r.model == "soc-cmm-basic@2.4.2"
            && r.source == model.source && r.license == model.license
            && r.policy.minimumMaturity == InForceFor(a.policy.minimumMaturity, model.defaults.minimumMaturity)
            && r.policy.minimumCapability == InForceFor(a.policy.minimumCapability, model.defaults.minimumCapability)
    ensures a.apiVersion == "attestor.trisoc.io/v1alpha1" && a.kind == "SOCMaturityAssessment"
    ensures a.model == "soc-cmm-basic@2.4.2" && |a.aspectResults| <= 100 && |a.controlResults| <= 200
  {
    hide AllAspects, ControlResults, DomainResultOf, AverageOf;
  }

  // A minimum that may be written where the model's default and the scale's end are
  // these; zero stands for the default.
  predicate MayBeWritten(minimum: Float, default: real, maximum: real) {
    minimum.NaN?
    || (minimum.Real? && if minimum.value == 0.0 then default <= maximum else default <= minimum.value <= maximum)
  }

  // Each part of an accepted heading may be changed within its limits and no further.
  lemma LimitsAre(a: Assessment, model: Model)
    requires Accepts(a, model)
    ensures forall x :: Accepts(a.(name := x), model) <==> Text.TrimSpace(x) != "" && Text.ByteLength(x) <= 256
    ensures forall m :: Accepts(a.(policy := a.policy.(minimumMaturity := m)), model)
                        <==> MayBeWritten(m, model.defaults.minimumMaturity, 5.0)
    ensures forall m :: Accepts(a.(policy := a.policy.(minimumCapability := m)), model)
                        <==> MayBeWritten(m, model.defaults.minimumCapability, 3.0)
  {
    hide ValidAspectResponse, ValidControlResponse, DistinctBy, Text.TrimSpace, Text.ByteLength;
  }

  lemma ResponseLimitsAre(model: Model, r: AspectResponse, c: ControlResponse)
    requires ValidAspectResponse(model, r) && ValidControlResponse(model, c)
    ensures forall x :: ValidAspectResponse(model, r.(maturity := Some(x))) <==> 0.0 <= x <= 5.0
    ensures forall x :: ValidAspectResponse(model, r.(capability := Some(x))) <==> 0.0 <= x <= 3.0
    ensures forall x :: ValidControlResponse(model, c.(status := x)) <==> x in {"pass", "fail"}
    ensures forall e :: ValidAspectResponse(model, r.(evidence := e)) <==>
              |e| <= 50 && forall item :: item in e ==> Text.TrimSpace(item) != "" && Text.ByteLength(item) <= 2048
  {
    hide KnownAspect, KnownControl, Text.TrimSpace, Text.ByteLength;
  }

  lemma {:induction false} FlatMembers(domains: seq<Domain>)
    ensures forall a :: a in Flat(domains) <==> exists d :: d in domains && a in d.aspects
  {
    if domains != [] {
      var n := |domains| - 1;
      FlatMembers(domains[..n]);
      assert domains == domains[..n] + [domains[n]];
      forall a ensures a in Flat(domains) <==> exists d :: d in domains && a in d.aspects {
        if d :| d in domains && a in d.aspects {
          assert d in domains[..n] || d == domains[n];
        }
        if a in Flat(domains[..n]) {
          var d :| d in domains[..n] && a in d.aspects;
          assert d in domains;
        }
        if a in domains[n].aspects { assert domains[n] in domains; }
      }
    }
  }

  // An answer must name an aspect, or a control, of the model.
  lemma NamesAre(model: Model, r: AspectResponse, c: ControlResponse)
    requires ValidAspectResponse(model, r) && ValidControlResponse(model, c)
    ensures forall x :: ValidAspectResponse(model, r.(id := x)) <==> exists a :: a in Flat(model.domains) && a.id == x
    ensures forall x :: ValidControlResponse(model, c.(id := x)) <==> exists k :: k in model.controls && k.id == x
  {
    hide InRange, ValidEvidence;
    FlatMembers(model.domains);
    forall x ensures KnownAspect(model, x) <==> exists a :: a in Flat(model.domains) && a.id == x {
      KnownMeans(model, x);
    }
  }

  lemma KnownMeans(model: Model, x: string)
    ensures KnownAspect(model, x) <==> exists a :: a in Flat(model.domains) && a.id == x
  {
    FlatMembers(model.domains);
    if a :| a in Flat(model.domains) && a.id == x {
      var d :| d in model.domains && a in d.aspects;
    }
    if d :| d in model.domains && exists a :: a in d.aspects && a.id == x {
      var a :| a in d.aspects && a.id == x;
      assert a in Flat(model.domains);
    }
  }

  lemma CountLimitsAre(a: Assessment, p: Policy, defaults: Defaults)
    requires ValidHeader(a, p, defaults)
    ensures forall rs :: ValidHeader(a.(aspectResults := rs), p, defaults) <==> |rs| <= 100
    ensures forall rs :: ValidHeader(a.(controlResults := rs), p, defaults) <==> |rs| <= 200
  {
    hide Text.TrimSpace, Text.ByteLength;
  }
}
