// The SOC-CMM gate: internal/maturity/evaluate.go, for any profile model.
module Maturity {
  import opened Common
  import opened Counting
  import opened Averages
  import opened Floats
  import Text

  const API_VERSION := "attestor.trisoc.io/v1alpha1"
  const KIND := "SOCMaturityAssessment"
  const MODEL_REF := "soc-cmm-basic@2.4.2"

  // A policy as the caller writes it, and the model's defaults for it.
  datatype Policy = Policy(minimumMaturity: Float, minimumCapability: Float)
  datatype Defaults = Defaults(minimumMaturity: real, minimumCapability: real)

  datatype Aspect = Aspect(id: string, name: string, capabilityApplicable: bool)
  datatype Domain = Domain(id: string, name: string, aspects: seq<Aspect>)
  datatype ModelControl = ModelControl(id: string, aspectId: string, name: string)
  datatype Model = Model(source: string, license: string, defaults: Defaults, domains: seq<Domain>,
      controls: seq<ModelControl>)

  // An absent score is None.
  datatype AspectResponse = AspectResponse(id: string, maturity: Option<real>, capability: Option<real>,
      evidence: seq<string>)
  datatype ControlResponse = ControlResponse(id: string, status: string, evidence: seq<string>)
  datatype Assessment = Assessment(
    apiVersion: string, kind: string, name: string, model: string, policy: Policy,
    aspectResults: seq<AspectResponse>, controlResults: seq<ControlResponse>)

  datatype Status = Pass | Fail | Incomplete
  datatype Check = Check(id: string, status: Status)
  datatype AspectResult = AspectResult(
    id: string, domain: string, name: string, maturity: Option<real>, capability: Option<real>,
    capabilityApplicable: bool, evidenceCount: nat, compliant: bool, checks: seq<Check>)
  datatype ControlResult = ControlResult(
    id: string, aspectId: string, name: string, declaredStatus: string, evidenceCount: nat, status: Status)
  datatype DomainResult = DomainResult(
    id: string, name: string, maturity: Option<real>, capability: Option<real>,
    aspects: nat, compliantAspects: nat, compliant: bool)
  datatype Summary = Summary(
    domains: nat, aspects: nat, compliantAspects: nat, incompleteAspects: nat,
    controls: nat, passingControls: nat, incompleteControls: nat, failedControls: nat)
  datatype Report = Report(
    compliant: bool, assessmentName: string, model: string, source: string, license: string, policy: Policy,
    overallMaturity: Option<real>, overallCapability: Option<real>,
    domains: seq<DomainResult>, aspects: seq<AspectResult>, controls: seq<ControlResult>, summary: Summary)

  datatype Rejection = Rejected

  // ----- validation -----

  function EffectivePolicy(p: Policy, defaults: Defaults): Policy {
    Policy(if Equal(p.minimumMaturity, Real(0.0)) then Real(defaults.minimumMaturity) else p.minimumMaturity,
           if Equal(p.minimumCapability, Real(0.0)) then Real(defaults.minimumCapability) else p.minimumCapability)
  }

  // Neither below the default nor above the scale, as the code asks: NaN is neither.
  predicate InBounds(minimum: Float, default: real, maximum: real) {
    !Below(minimum, Real(default)) && !Below(Real(maximum), minimum)
  }

  predicate ValidEvidence(evidence: seq<string>) {
    |evidence| <= 50 && forall e :: e in evidence ==> Text.TrimSpace(e) != "" && Text.ByteLength(e) <= 2048
  }

  predicate InRange(score: Option<real>, maximum: real) { score.Some? ==> 0.0 <= score.value <= maximum }

  predicate KnownAspect(model: Model, id: string) {
    exists d :: d in model.domains && exists a :: a in d.aspects && a.id == id
  }

  predicate KnownControl(model: Model, id: string) { exists c :: c in model.controls && c.id == id }

  predicate ValidAspectResponse(model: Model, r: AspectResponse) {
    KnownAspect(model, r.id) && InRange(r.maturity, 5.0) && InRange(r.capability, 3.0) && ValidEvidence(r.evidence)
  }

  predicate ValidControlResponse(model: Model, r: ControlResponse) {
    KnownControl(model, r.id) && (r.status == "pass" || r.status == "fail") && ValidEvidence(r.evidence)
  }

  predicate DistinctBy<T>(s: seq<T>, id: T -> string) {
    forall i, j :: 0 <= i < j < |s| ==> id(s[i]) != id(s[j])
  }

  // What may be said before looking at the results.
  predicate ValidHeader(a: Assessment, p: Policy, defaults: Defaults) {
    && a.apiVersion == API_VERSION && a.kind == KIND && a.model == MODEL_REF
    && Text.TrimSpace(a.name) != "" && Text.ByteLength(a.name) <= 256
    && InBounds(p.minimumMaturity, defaults.minimumMaturity, 5.0)
    && InBounds(p.minimumCapability, defaults.minimumCapability, 3.0)
    && |a.aspectResults| <= 100 && |a.controlResults| <= 200
  }

  predicate Accepts(a: Assessment, model: Model) {
    && ValidHeader(a, EffectivePolicy(a.policy, model.defaults), model.defaults)
    && (forall r :: r in a.aspectResults ==> ValidAspectResponse(model, r))
    && DistinctBy(a.aspectResults, (r: AspectResponse) => r.id)
    && (forall r :: r in a.controlResults ==> ValidControlResponse(model, r))
    && DistinctBy(a.controlResults, (r: ControlResponse) => r.id)
  }

  // The loops of validateAssessment over one kind of results: each must be
  // valid and carry an identifier not seen before.
  method ValidateResponses<T>(responses: seq<T>, id: T -> string, valid: T -> bool) returns (ok: bool)
    ensures ok == ((forall r :: r in responses ==> valid(r)) && DistinctBy(responses, id))
  {
    var seen: set<string> := {};
    for i := 0 to |responses|
      invariant forall k :: 0 <= k < i ==> valid(responses[k]) && id(responses[k]) in seen
      invariant forall x :: x in seen ==> exists k :: 0 <= k < i && id(responses[k]) == x
      invariant forall k, l :: 0 <= k < l < i ==> id(responses[k]) != id(responses[l])
    {
      var r := responses[i];
      if id(r) in seen {
        return false;
      }
      seen := seen + {id(r)};
      if !valid(r) {
        assert r in responses;
        return false;
      }
    }
    return true;
  }

  method ValidateAssessment(a: Assessment, model: Model) returns (r: Result<Policy, Rejection>)
    ensures r == if Accepts(a, model) then Ok(EffectivePolicy(a.policy, model.defaults)) else Err(Rejected)
  {
    hide ValidHeader, ValidAspectResponse, ValidControlResponse;
    var policy := a.policy;
    if Equal(policy.minimumMaturity, Real(0.0)) {
      policy := policy.(minimumMaturity := Real(model.defaults.minimumMaturity));
    }
    if Equal(policy.minimumCapability, Real(0.0)) {
      policy := policy.(minimumCapability := Real(model.defaults.minimumCapability));
    }
    if !ValidHeader(a, policy, model.defaults) {
      return Err(Rejected);
    }
    var aspects := ValidateResponses(a.aspectResults, (r: AspectResponse) => r.id,
        (r: AspectResponse) => ValidAspectResponse(model, r));
    if !aspects {
      return Err(Rejected);
    }
    var controls := ValidateResponses(a.controlResults, (r: ControlResponse) => r.id,
        (r: ControlResponse) => ValidControlResponse(model, r));
    if !controls {
      return Err(Rejected);
    }
    return Ok(policy);
  }

  // ----- one aspect, one control -----

  // A score that is there passes unless it is below the minimum: any score
  // passes NaN.
  predicate Passes(score: Option<real>, minimum: Float) { score.Some? && !Below(Real(score.value), minimum) }

  function ScoreCheck(name: string, actual: Option<real>, minimum: Float): Check {
    Check(name, if actual.None? then Incomplete else if Below(Real(actual.value), minimum) then Fail else Pass)
  }

  function AspectChecks(aspect: Aspect, r: AspectResponse, p: Policy): seq<Check> {
    [ScoreCheck("maturity", r.maturity, p.minimumMaturity)]
    + (if aspect.capabilityApplicable then [ScoreCheck("capability", r.capability, p.minimumCapability)]
       else if r.capability.Some? then [Check("capability", Fail)]
       else [])
    + [Check("evidence", if r.evidence == [] then Incomplete else Pass)]
  }

  predicate AllPass(checks: seq<Check>) { forall i :: 0 <= i < |checks| ==> checks[i].status == Pass }

  function AspectResultOf(domain: string, aspect: Aspect, r: AspectResponse, p: Policy): AspectResult {
    var checks := AspectChecks(aspect, r, p);
    AspectResult(aspect.id, domain, aspect.name, r.maturity, r.capability, aspect.capabilityApplicable,
                 |r.evidence|, AllPass(checks), checks)
  }

  method PassesAll(checks: seq<Check>) returns (compliant: bool)
    ensures compliant == AllPass(checks)
  {
    compliant := true;
    for i := 0 to |checks|
      invariant compliant <==> forall k :: 0 <= k < i ==> checks[k].status == Pass
    {
      if checks[i].status != Pass {
        compliant := false;
      }
    }
  }

  method EvaluateAspect(domain: string, aspect: Aspect, response: AspectResponse, policy: Policy)
    returns (result: AspectResult)
    ensures result == AspectResultOf(domain, aspect, response, policy)
    ensures result.id == aspect.id && result.domain == domain && result.name == aspect.name
    ensures result.maturity == response.maturity && result.capability == response.capability
    ensures result.capabilityApplicable == aspect.capabilityApplicable && result.evidenceCount == |response.evidence|
    ensures |result.checks| == if aspect.capabilityApplicable || response.capability.Some? then 3 else 2
    ensures IsScoreCheck(result.checks[0], "maturity", response.maturity, policy.minimumMaturity)
    ensures aspect.capabilityApplicable ==>
              IsScoreCheck(result.checks[1], "capability", response.capability, policy.minimumCapability)
    ensures !aspect.capabilityApplicable && response.capability.Some? ==> result.checks[1] == Check("capability", Fail)
    ensures var last := result.checks[|result.checks| - 1];
            last.id == "evidence" && last.status == if response.evidence == [] then Incomplete else Pass
    ensures result.compliant <==> forall k :: 0 <= k < |result.checks| ==> result.checks[k].status == Pass
  {
    result := AspectResult(aspect.id, domain, aspect.name, None, None, aspect.capabilityApplicable, 0, true, []);
    result := result.(maturity := response.maturity, capability := response.capability,
        evidenceCount := |response.evidence|);
    var checks := [ScoreCheck("maturity", response.maturity, policy.minimumMaturity)];
    if aspect.capabilityApplicable {
      checks := checks + [ScoreCheck("capability", response.capability, policy.minimumCapability)];
    } else if response.capability.Some? {
      checks := checks + [Check("capability", Fail)];
    }
    var evidenceCheck := Check("evidence", Pass);
    if |response.evidence| == 0 {
      evidenceCheck := evidenceCheck.(status := Incomplete);
    }
    checks := checks + [evidenceCheck];
    assert checks == AspectChecks(aspect, response, policy);
    var compliant := PassesAll(checks);
    result := result.(checks := checks, compliant := compliant);
  }

  // A score that is missing is incomplete, one below the minimum fails, and any other
  // passes.
  predicate IsScoreCheck(check: Check, id: string, score: Option<real>, minimum: Float) {
    && check.id == id
    && (check.status == Incomplete <==> score.None?)
    && (check.status == Fail <==> score.Some? && Below(Real(score.value), minimum))
  }

  // What an aspect needs to be compliant.
  predicate AspectMeets(aspect: Aspect, r: AspectResponse, p: Policy) {
    && r.evidence != []
    && Passes(r.maturity, p.minimumMaturity)
    && (if aspect.capabilityApplicable then Passes(r.capability, p.minimumCapability) else r.capability.None?)
  }

  lemma AspectCompliantExactly(domain: string, aspect: Aspect, r: AspectResponse, p: Policy)
    ensures AspectResultOf(domain, aspect, r, p).compliant <==> AspectMeets(aspect, r, p)
  {
    var c := AspectChecks(aspect, r, p);
    assert AllPass(c) <==> c[0].status == Pass && c[1].status == Pass && (|c| == 3 ==> c[2].status == Pass);
  }

  function ControlResultOf(control: ModelControl, r: ControlResponse): ControlResult {
    ControlResult(control.id, control.aspectId, control.name, r.status, |r.evidence|,
                  if r.id == "" then Incomplete
                  else if r.status != "pass" then Fail
                  else if r.evidence == [] then Incomplete
                  else Pass)
  }

  method EvaluateControl(control: ModelControl, response: ControlResponse) returns (result: ControlResult)
    ensures result == ControlResultOf(control, response)
    ensures result.status == Pass <==> response.id != "" && response.status == "pass" && response.evidence != []
    ensures result.status == Fail <==> response.id != "" && response.status != "pass"
    ensures result.status == Incomplete <==> response.id == "" || (response.status == "pass" && response.evidence == [])
  {
    result := ControlResult(control.id, control.aspectId, control.name, response.status, |response.evidence|, Pass);
    if response.id == "" {
      result := result.(status := Incomplete);
      return;
    }
    if response.status != "pass" {
      result := result.(status := Fail);
      return;
    }
    if |response.evidence| == 0 {
      result := result.(status := Incomplete);
      return;
    }
  }

  // ----- responses by identifier -----

  // A Go map filled in order: of equal identifiers the last response stays.
  function ById<T>(s: seq<T>, id: T -> string): map<string, T> {
    if s == [] then map[] else ById(s[..|s| - 1], id)[id(s[|s| - 1]) := s[|s| - 1]]
  }

  method Index<T>(s: seq<T>, id: T -> string) returns (m: map<string, T>)
    ensures m == ById(s, id)
  {
    m := map[];
    for i := 0 to |s|
      invariant m == ById(s[..i], id)
    {
      assert s[..i + 1][..i] == s[..i];
      m := m[id(s[i]) := s[i]];
    }
    assert s[..|s|] == s;
  }

  type AspectIndex = map<string, AspectResponse>
  type ControlIndex = map<string, ControlResponse>

  function AspectsById(a: Assessment): AspectIndex { ById(a.aspectResults, (r: AspectResponse) => r.id) }
  function ControlsById(a: Assessment): ControlIndex { ById(a.controlResults, (r: ControlResponse) => r.id) }

  // Reading a missing key of a Go map gives the zero response.
  function AspectAnswer(m: AspectIndex, id: string): AspectResponse {
    if id in m then m[id] else AspectResponse("", None, None, [])
  }

  function ControlAnswer(m: ControlIndex, id: string): ControlResponse {
    if id in m then m[id] else ControlResponse("", "", [])
  }

  // ----- aggregation -----

  function DomainAspects(d: Domain, m: AspectIndex, p: Policy): (r: seq<AspectResult>)
    ensures |r| == |d.aspects|
  {
    seq(|d.aspects|, i requires 0 <= i < |d.aspects| =>
      AspectResultOf(d.name, d.aspects[i], AspectAnswer(m, d.aspects[i].id), p))
  }

  function AllAspects(domains: seq<Domain>, m: AspectIndex, p: Policy): seq<AspectResult> {
    if domains == [] then []
    else AllAspects(domains[..|domains| - 1], m, p) + DomainAspects(domains[|domains| - 1], m, p)
  }

  function MaturityScores(rs: seq<AspectResult>): seq<real> {
    if rs == [] then []
    else
      var last := rs[|rs| - 1].maturity;
      MaturityScores(rs[..|rs| - 1]) + if last.Some? then [last.value] else []
  }

  function CapabilityScores(rs: seq<AspectResult>): seq<real> {
    if rs == [] then []
    else
      var last := rs[|rs| - 1].capability;
      CapabilityScores(rs[..|rs| - 1]) + if last.Some? then [last.value] else []
  }

  predicate HasIncomplete(r: AspectResult) { exists i :: 0 <= i < |r.checks| && r.checks[i].status == Incomplete }

  predicate AllCompliant(rs: seq<AspectResult>) { forall i :: 0 <= i < |rs| ==> rs[i].compliant }

  function Compliant(rs: seq<AspectResult>): nat { Count(rs, (r: AspectResult) => r.compliant) }

  function DomainResultOf(ar: Arithmetic, d: Domain, rs: seq<AspectResult>): DomainResult {
    DomainResult(d.id, d.name, AverageOf(ar, MaturityScores(rs)), AverageOf(ar, CapabilityScores(rs)),
                 |d.aspects|, Compliant(rs), AllCompliant(rs))
  }

  function ControlResults(controls: seq<ModelControl>, m: ControlIndex): (r: seq<ControlResult>)
    ensures |r| == |controls|
  {
    seq(|controls|, i requires 0 <= i < |controls| => ControlResultOf(controls[i], ControlAnswer(m, controls[i].id)))
  }

  function WithStatus(rs: seq<ControlResult>, status: Status): nat {
    Count(rs, (r: ControlResult) => r.status == status)
  }

  predicate AllControlsPass(rs: seq<ControlResult>) { forall i :: 0 <= i < |rs| ==> rs[i].status == Pass }

  // The report on an accepted assessment under its effective policy.
  function ReportOf(ar: Arithmetic, model: Model, name: string, p: Policy, am: AspectIndex, cm: ControlIndex): Report {
    var aspects := AllAspects(model.domains, am, p);
    var controls := ControlResults(model.controls, cm);
    Report(
      AllCompliant(aspects) && AllControlsPass(controls), name, MODEL_REF, model.source, model.license, p,
      AverageOf(ar, MaturityScores(aspects)), AverageOf(ar, CapabilityScores(aspects)),
      seq(|model.domains|, i requires 0 <= i < |model.domains| =>
        DomainResultOf(ar, model.domains[i], DomainAspects(model.domains[i], am, p))),
      aspects, controls,
      Summary(|model.domains|, |aspects|, Compliant(aspects), Count(aspects, HasIncomplete),
              |controls|, WithStatus(controls, Pass), WithStatus(controls, Incomplete), WithStatus(controls, Fail)))
  }

  function Outcome(ar: Arithmetic, a: Assessment, model: Model): Result<Report, Rejection> {
    if Accepts(a, model)
    then Ok(ReportOf(ar, model, a.name, EffectivePolicy(a.policy, model.defaults), AspectsById(a), ControlsById(a)))
    else Err(Rejected)
  }

  // What Evaluate has gathered from the aspects seen so far.
  datatype Progress = Progress(
    compliant: bool, aspects: seq<AspectResult>, count: nat, compliantAspects: nat, incompleteAspects: nat,
    allMaturity: seq<real>, allCapability: seq<real>)

  function ProgressOf(rs: seq<AspectResult>): Progress {
    Progress(AllCompliant(rs), rs, |rs|, Compliant(rs), Count(rs, HasIncomplete), MaturityScores(rs),
        CapabilityScores(rs))
  }

  lemma OneMoreAspect(rs: seq<AspectResult>, r: AspectResult)
    ensures AllCompliant(rs + [r]) == (AllCompliant(rs) && r.compliant)
    ensures Compliant(rs + [r]) == Compliant(rs) + if r.compliant then 1 else 0
    ensures Count(rs + [r], HasIncomplete) == Count(rs, HasIncomplete) + if HasIncomplete(r) then 1 else 0
    ensures MaturityScores(rs + [r]) == MaturityScores(rs) + if r.maturity.Some? then [r.maturity.value] else []
    ensures CapabilityScores(rs + [r]) == CapabilityScores(rs) + if r.capability.Some? then [r.capability.value] else []
  {
    assert (rs + [r])[..|rs|] == rs;
    if AllCompliant(rs + [r]) {
      assert forall i :: 0 <= i < |rs| ==> rs[i] == (rs + [r])[i];
      assert (rs + [r])[|rs|] == r;
    }
  }

  method AverageScores(ar: Arithmetic, scores: seq<real>) returns (r: Option<real>)
    ensures r == AverageOf(ar, scores)
  {
    var values := new real[|scores|](i requires 0 <= i < |scores| => scores[i]);
    assert values[..] == scores;
    r := Average(ar, values);
  }

  method AnyIncomplete(r: AspectResult) returns (found: bool)
    ensures found == HasIncomplete(r)
  {
    for i := 0 to |r.checks|
      invariant forall k :: 0 <= k < i ==> r.checks[k].status != Incomplete
    {
      if r.checks[i].status == Incomplete {
        return true;
      }
    }
    return false;
  }

  // What one aspect result adds to the report.
  method AddAspect(start: Progress, r: AspectResult, ghost before: seq<AspectResult>) returns (progress: Progress)
    requires start == ProgressOf(before)
    ensures progress == ProgressOf(before + [r])
  {
    hide HasIncomplete, MaturityScores, CapabilityScores, AllCompliant, Compliant;
    OneMoreAspect(before, r);
    progress := start.(aspects := start.aspects + [r], count := start.count + 1);
    if r.maturity.Some? {
      progress := progress.(allMaturity := progress.allMaturity + [r.maturity.value]);
    }
    if r.capability.Some? {
      progress := progress.(allCapability := progress.allCapability + [r.capability.value]);
    }
    if r.compliant {
      progress := progress.(compliantAspects := progress.compliantAspects + 1);
    } else {
      progress := progress.(compliant := false);
    }
    var incomplete := AnyIncomplete(r);
    if incomplete {
      progress := progress.(incompleteAspects := progress.incompleteAspects + 1);
    }
  }

  // The body of the loop over domains.
  method EvaluateDomain(ar: Arithmetic, d: Domain, m: AspectIndex, p: Policy, start: Progress,
      ghost before: seq<AspectResult>)
    returns (result: DomainResult, progress: Progress)
    requires start == ProgressOf(before)
    ensures result == DomainResultOf(ar, d, DomainAspects(d, m, p))
    ensures progress == ProgressOf(before + DomainAspects(d, m, p))
  {
    hide AspectResultOf, HasIncomplete, MaturityScores, CapabilityScores, AllCompliant, Compliant, ProgressOf;
    progress := start;
    ghost var all := DomainAspects(d, m, p);
    var maturityScores: seq<real>, capabilityScores: seq<real> := [], [];
    var compliantAspects, compliant := 0, true;
    NoAspects();
    assert before + all[..0] == before && all[..0] == [];
    for i := 0 to |d.aspects|
      invariant progress == ProgressOf(before + all[..i])
      invariant maturityScores == MaturityScores(all[..i]) && capabilityScores == CapabilityScores(all[..i])
      invariant compliantAspects == Compliant(all[..i]) && compliant == AllCompliant(all[..i])
    {
      var aspect := d.aspects[i];
      var r := EvaluateAspect(d.name, aspect, AspectAnswer(m, aspect.id), p);
      assert before + all[..i] + [r] == before + all[..i + 1] && all[..i] + [r] == all[..i + 1];
      progress := AddAspect(progress, r, before + all[..i]);
      OneMoreAspect(all[..i], r);
      if r.maturity.Some? {
        maturityScores := maturityScores + [r.maturity.value];
      }
      if r.capability.Some? {
        capabilityScores := capabilityScores + [r.capability.value];
      }
      if r.compliant {
        compliantAspects := compliantAspects + 1;
      } else {
        compliant := false;
      }
    }
    assert all[..|all|] == all;
    var maturity := AverageScores(ar, maturityScores);
    var capability := AverageScores(ar, capabilityScores);
    result := DomainResult(d.id, d.name, maturity, capability, |d.aspects|, compliantAspects, compliant);
  }

  lemma NoAspects()
    ensures MaturityScores([]) == [] && CapabilityScores([]) == [] && Compliant([]) == 0 && AllCompliant([])
  {
  }

  // The summary of the controls seen so far.
  ghost predicate Tallies(s: Summary, rs: seq<ControlResult>) {
    && s.controls == |rs| && s.passingControls == WithStatus(rs, Pass)
    && s.incompleteControls == WithStatus(rs, Incomplete) && s.failedControls == WithStatus(rs, Fail)
  }

  lemma OneMoreControl(rs: seq<ControlResult>, r: ControlResult)
    ensures AllControlsPass(rs + [r]) == (AllControlsPass(rs) && r.status == Pass)
    ensures forall status ::
              WithStatus(rs + [r], status) == WithStatus(rs, status) + if r.status == status then 1 else 0
  {
    forall status ensures WithStatus(rs + [r], status) == WithStatus(rs, status) + if r.status == status then 1 else 0 {
      CountSnoc(rs, r, (r: ControlResult) => r.status == status);
    }
    if AllControlsPass(rs + [r]) {
      assert forall i :: 0 <= i < |rs| ==> rs[i] == (rs + [r])[i];
      assert (rs + [r])[|rs|] == r;
    }
  }

  // The loop over the model's controls.
  method EvaluateControls(controls: seq<ModelControl>, m: ControlIndex, start: Report) returns (report: Report)
    requires start.controls == [] && Tallies(start.summary, [])
    ensures report == start.(compliant := start.compliant && AllControlsPass(ControlResults(controls, m)),
                             controls := ControlResults(controls, m), summary := report.summary)
    ensures Tallies(report.summary, ControlResults(controls, m))
    ensures report.summary == start.summary.(
              controls := report.summary.controls, passingControls := report.summary.passingControls,
              incompleteControls := report.summary.incompleteControls, failedControls := report.summary.failedControls)
  {
    hide ControlResultOf, WithStatus, AllControlsPass;
    report := start;
    ghost var all := ControlResults(controls, m);
    assert all[..0] == [];
    NoControls();
    for i := 0 to |controls|
      invariant report == start.(compliant := start.compliant && AllControlsPass(all[..i]),
                                 controls := all[..i], summary := report.summary)
      invariant Tallies(report.summary, all[..i])
      invariant report.summary == start.summary.(
                  controls := report.summary.controls, passingControls := report.summary.passingControls,
                  incompleteControls := report.summary.incompleteControls,
                  failedControls := report.summary.failedControls)
    {
      var result := EvaluateControl(controls[i], ControlAnswer(m, controls[i].id));
      OneMoreControl(all[..i], result);
      assert all[..i] + [result] == all[..i + 1];
      var s := report.summary.(controls := report.summary.controls + 1);
      match result.status {
        case Pass =>
          s := s.(passingControls := s.passingControls + 1);
        case Incomplete =>
          s := s.(incompleteControls := s.incompleteControls + 1);
          report := report.(compliant := false);
        case Fail =>
          s := s.(failedControls := s.failedControls + 1);
          report := report.(compliant := false);
      }
      report := report.(controls := report.controls + [result], summary := s);
    }
    assert all[..|all|] == all;
  }

  lemma NoControls()
    ensures AllControlsPass([]) && forall status :: WithStatus([], status) == 0
  {
  }

  method Evaluate(ar: Arithmetic, a: Assessment, model: Model) returns (r: Result<Report, Rejection>)
    ensures r == Outcome(ar, a, model)
  {
    hide DomainResultOf, DomainAspects, ControlResults, MaturityScores, CapabilityScores, Compliant, AllCompliant,
      HasIncomplete, WithStatus, AllControlsPass, Accepts, EffectivePolicy;
    var checked := ValidateAssessment(a, model);
    if checked.Err? {
      return Err(Rejected);
    }
    var policy := checked.value;
    var aspectResponses := Index(a.aspectResults, (r: AspectResponse) => r.id);
    var domains: seq<DomainResult> := [];
    var progress := Progress(true, [], 0, 0, 0, [], []);
    NoAspects();
    for i := 0 to |model.domains|
      invariant progress == ProgressOf(AllAspects(model.domains[..i], aspectResponses, policy))
      invariant |domains| == i && forall k :: 0 <= k < i ==>
                  domains[k] == DomainResultOf(ar, model.domains[k],
                      DomainAspects(model.domains[k], aspectResponses, policy))
    {
      var result;
      ghost var before := AllAspects(model.domains[..i], aspectResponses, policy);
      assert model.domains[..i + 1][..i] == model.domains[..i];
      result, progress := EvaluateDomain(ar, model.domains[i], aspectResponses, policy, progress, before);
      domains := domains + [result];
    }
    assert model.domains[..|model.domains|] == model.domains;
    var overallMaturity := AverageScores(ar, progress.allMaturity);
    var overallCapability := AverageScores(ar, progress.allCapability);
    var controlResponses := Index(a.controlResults, (r: ControlResponse) => r.id);
    NoControls();
    var report := Report(progress.compliant, a.name, MODEL_REF, model.source, model.license, policy,
                         overallMaturity, overallCapability, domains, progress.aspects, [],
                         Summary(|domains|, progress.count, progress.compliantAspects, progress.incompleteAspects,
                                 0, 0, 0, 0));
    report := EvaluateControls(model.controls, controlResponses, report);
    assert domains == ReportOf(ar, model, a.name, policy, aspectResponses, controlResponses).domains;
    r := Ok(report);
  }
}
