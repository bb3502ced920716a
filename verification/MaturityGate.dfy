// What a maturity report promises, for every model and every assessment: when it
// is compliant, how its counters add up, and that the order of answers is no matter.
module MaturityGate {
  import opened Common
  import opened Counting
  import opened Averages
  import opened Floats
  import opened Maturity
  import Sorting

  // ----- when a report is compliant -----

  lemma {:induction false} AllAspectsCompliant(domains: seq<Domain>, m: AspectIndex, p: Policy)
    ensures AllCompliant(AllAspects(domains, m, p)) <==>
            forall i, k :: 0 <= i < |domains| && 0 <= k < |domains[i].aspects| ==>
              AspectMeets(domains[i].aspects[k], AspectAnswer(m, domains[i].aspects[k].id), p)
    decreases |domains|
  {
    hide AspectMeets, AspectResultOf;
    if domains != [] {
      var n := |domains| - 1;
      var before, last := AllAspects(domains[..n], m, p), DomainAspects(domains[n], m, p);
      AllAspectsCompliant(domains[..n], m, p);
      CompliantConcat(before, last);
      forall k | 0 <= k < |last|
        ensures last[k].compliant <==> AspectMeets(domains[n].aspects[k], AspectAnswer(m, domains[n].aspects[k].id), p)
      {
        var aspect := domains[n].aspects[k];
        AspectCompliantExactly(domains[n].name, aspect, AspectAnswer(m, aspect.id), p);
      }
      assert AllCompliant(last) <==> forall k :: 0 <= k < |last| ==> last[k].compliant;
    }
  }

  lemma CompliantConcat(x: seq<AspectResult>, y: seq<AspectResult>)
    ensures AllCompliant(x + y) == (AllCompliant(x) && AllCompliant(y))
  {
    if AllCompliant(x + y) {
      assert forall i :: 0 <= i < |x| ==> x[i] == (x + y)[i];
      assert forall i :: 0 <= i < |y| ==> y[i] == (x + y)[|x| + i];
    }
  }

  lemma {:induction false} ByIdFinds<T>(s: seq<T>, id: T -> string)
    requires DistinctBy(s, id)
    ensures forall r :: r in s ==> id(r) in ById(s, id) && ById(s, id)[id(r)] == r
    ensures forall k :: k in ById(s, id) ==> ById(s, id)[k] in s && id(ById(s, id)[k]) == k
    decreases |s|
  {
    if s != [] {
      var n := |s| - 1;
      ByIdFinds(s[..n], id);
      assert s == s[..n] + [s[n]];
      assert forall r :: r in s <==> r in s[..n] || r == s[n];
      forall r | r in s[..n] ensures id(r) != id(s[n]) {
        var i :| 0 <= i < n && s[..n][i] == r;
        assert id(s[i]) != id(s[n]);
      }
    }
  }

  // An accepted assessment answers an aspect adequately.
  ghost predicate AspectAnswered(a: Assessment, aspect: Aspect, p: Policy) {
    exists r :: r in a.aspectResults && r.id == aspect.id && AspectMeets(aspect, r, p)
  }

  ghost predicate ControlAnswered(a: Assessment, control: ModelControl) {
    exists r :: r in a.controlResults && r.id == control.id && r.id != "" && r.status == "pass" && r.evidence != []
  }

  // Compliant exactly when every aspect of the model is answered with evidence,
  // a maturity score at the minimum or above and, where capability applies and
  // only there, a capability score likewise, and every control is answered as
  // passing with evidence. The minima in force lie between the model's and the end
  // of the scale, unless they were written as NaN, which every score passes.
  lemma GateIsExact(ar: Arithmetic, a: Assessment, model: Model)
    requires Accepts(a, model)
    ensures var p := EffectivePolicy(a.policy, model.defaults);
            Outcome(ar, a, model).value.compliant <==>
            && (forall i, k :: 0 <= i < |model.domains| && 0 <= k < |model.domains[i].aspects| ==>
                  AspectAnswered(a, model.domains[i].aspects[k], p))
            && (forall i :: 0 <= i < |model.controls| ==> ControlAnswered(a, model.controls[i]))
    ensures var p := Outcome(ar, a, model).value.policy;
            && p == EffectivePolicy(a.policy, model.defaults)
            && Governs(p.minimumMaturity, a.policy.minimumMaturity, model.defaults.minimumMaturity, 5.0)
            && Governs(p.minimumCapability, a.policy.minimumCapability, model.defaults.minimumCapability, 3.0)
  {
    hide AspectMeets, AllAspects, Accepts, ReportOf, EffectivePolicy, AspectAnswered, ControlAnswered, AspectAnswer,
      Governs, AllControlsPass, ControlResults, AllCompliant;
    InForce(a, model);
    WhenCompliant(ar, a, model);
    var p := EffectivePolicy(a.policy, model.defaults);
    AllAspectsCompliant(model.domains, AspectsById(a), p);
    forall aspect: Aspect
      ensures AspectMeets(aspect, AspectAnswer(AspectsById(a), aspect.id), p) <==> AspectAnswered(a, aspect, p)
    {
      AnsweredExactly(a, aspect, p);
    }
    ControlsAnsweredExactly(a, model.controls);
  }

  lemma WhenCompliant(ar: Arithmetic, a: Assessment, model: Model)
    requires Accepts(a, model)
    ensures var p, r := EffectivePolicy(a.policy, model.defaults), Outcome(ar, a, model).value;
            && r.policy == p
            && (r.compliant <==> AllCompliant(AllAspects(model.domains, AspectsById(a), p))
                                 && AllControlsPass(ControlResults(model.controls, ControlsById(a))))
    ensures DistinctBy(a.aspectResults, (r: AspectResponse) => r.id)
    ensures DistinctBy(a.controlResults, (r: ControlResponse) => r.id)
  {
  }

  lemma ControlsAnsweredExactly(a: Assessment, controls: seq<ModelControl>)
    requires DistinctBy(a.controlResults, (r: ControlResponse) => r.id)
    ensures AllControlsPass(ControlResults(controls, ControlsById(a))) <==>
            forall i :: 0 <= i < |controls| ==> ControlAnswered(a, controls[i])
  {
    ByIdFinds(a.controlResults, (r: ControlResponse) => r.id);
    var results := ControlResults(controls, ControlsById(a));
    forall i | 0 <= i < |controls| ensures results[i].status == Pass <==> ControlAnswered(a, controls[i]) {
    }
  }

  lemma InForce(a: Assessment, model: Model)
    requires Accepts(a, model)
    ensures var p := EffectivePolicy(a.policy, model.defaults);
            && Governs(p.minimumMaturity, a.policy.minimumMaturity, model.defaults.minimumMaturity, 5.0)
            && Governs(p.minimumCapability, a.policy.minimumCapability, model.defaults.minimumCapability, 3.0)
  {
  }

  // The minimum in force, for what was written and the model's default.
  predicate Governs(minimum: Float, written: Float, default: real, maximum: real) {
    if written.NaN? then minimum.NaN? else minimum.Real? && default <= minimum.value <= maximum
  }

  lemma AnsweredExactly(a: Assessment, aspect: Aspect, p: Policy)
    requires DistinctBy(a.aspectResults, (r: AspectResponse) => r.id)
    ensures AspectMeets(aspect, AspectAnswer(AspectsById(a), aspect.id), p) <==> AspectAnswered(a, aspect, p)
  {
    ByIdFinds(a.aspectResults, (r: AspectResponse) => r.id);
  }

  // ----- the numbers of the summary -----

  lemma {:induction false} StatusesAddUp(rs: seq<ControlResult>)
    ensures WithStatus(rs, Pass) + WithStatus(rs, Incomplete) + WithStatus(rs, Fail) == |rs|
  {
    if rs != [] {
      var n := |rs| - 1;
      assert rs == rs[..n] + [rs[n]];
      OneMoreControl(rs[..n], rs[n]);
      StatusesAddUp(rs[..n]);
    }
  }

  // A result with an incomplete check is not compliant.
  ghost predicate Honest(r: AspectResult) { HasIncomplete(r) ==> !r.compliant }

  lemma {:induction false} IncompleteIsNotCompliant(rs: seq<AspectResult>)
    requires forall i :: 0 <= i < |rs| ==> Honest(rs[i])
    ensures Count(rs, HasIncomplete) + Compliant(rs) <= |rs|
  {
    if rs != [] {
      IncompleteIsNotCompliant(rs[..|rs| - 1]);
      assert Honest(rs[|rs| - 1]);
    }
  }

  lemma {:induction false} AllHonest(domains: seq<Domain>, m: AspectIndex, p: Policy)
    ensures forall i :: 0 <= i < |AllAspects(domains, m, p)| ==> Honest(AllAspects(domains, m, p)[i])
    decreases |domains|
  {
    if domains != [] {
      AllHonest(domains[..|domains| - 1], m, p);
    }
  }

  function Sum(s: seq<nat>): nat {
    if s == [] then 0 else Sum(s[..|s| - 1]) + s[|s| - 1]
  }

  function AspectCounts(ds: seq<DomainResult>): seq<nat> { seq(|ds|, i requires 0 <= i < |ds| => ds[i].aspects) }
  function CompliantCounts(ds: seq<DomainResult>): seq<nat> {
    seq(|ds|, i requires 0 <= i < |ds| => ds[i].compliantAspects)
  }

  lemma {:induction false} CompliantAdds(x: seq<AspectResult>, y: seq<AspectResult>)
    ensures Compliant(x + y) == Compliant(x) + Compliant(y)
    decreases |y|
  {
    if y == [] {
      assert x + y == x;
    } else {
      assert (x + y)[..|x + y| - 1] == x + y[..|y| - 1];
      CompliantAdds(x, y[..|y| - 1]);
    }
  }

  function DomainResults(ar: Arithmetic, domains: seq<Domain>, m: AspectIndex, p: Policy): seq<DomainResult> {
    seq(|domains|, i requires 0 <= i < |domains| => DomainResultOf(ar, domains[i], DomainAspects(domains[i], m, p)))
  }

  lemma {:induction false} DomainsAddUp(ar: Arithmetic, domains: seq<Domain>, m: AspectIndex, p: Policy)
    ensures Sum(AspectCounts(DomainResults(ar, domains, m, p))) == |AllAspects(domains, m, p)|
    ensures Sum(CompliantCounts(DomainResults(ar, domains, m, p))) == Compliant(AllAspects(domains, m, p))
    decreases |domains|
  {
    hide DomainAspects, AverageOf, Compliant;
    NoAspects();
    if domains != [] {
      var n := |domains| - 1;
      DomainsAddUp(ar, domains[..n], m, p);
      var ds, before := DomainResults(ar, domains, m, p), DomainResults(ar, domains[..n], m, p);
      assert AspectCounts(ds)[..n] == AspectCounts(before);
      assert CompliantCounts(ds)[..n] == CompliantCounts(before);
      CompliantAdds(AllAspects(domains[..n], m, p), DomainAspects(domains[n], m, p));
    }
  }

  // Control statuses partition the controls, the domains' counts add up to the
  // summary's, an incomplete aspect is never a compliant one, and the report is
  // compliant exactly when its own counters say so.
  lemma SummaryIsConsistent(ar: Arithmetic, a: Assessment, model: Model)
    requires Accepts(a, model)
    ensures var r := Outcome(ar, a, model).value;
            && r.summary.passingControls + r.summary.incompleteControls + r.summary.failedControls
               == r.summary.controls == |model.controls|
            && r.summary.domains == |r.domains| == |model.domains|
            && Sum(AspectCounts(r.domains)) == r.summary.aspects
            && Sum(CompliantCounts(r.domains)) == r.summary.compliantAspects
            && r.summary.incompleteAspects <= r.summary.aspects - r.summary.compliantAspects
            && (r.compliant <==>
                      r.summary.compliantAspects == r.summary.aspects
                      && r.summary.passingControls == r.summary.controls)
  {
    hide Accepts, EffectivePolicy, AspectsById, ControlsById, ControlResults, AllAspects, DomainResultOf;
    var p := EffectivePolicy(a.policy, model.defaults);
    var am, cm := AspectsById(a), ControlsById(a);
    var aspects, controls := AllAspects(model.domains, am, p), ControlResults(model.controls, cm);
    StatusesAddUp(controls);
    DomainsAddUp(ar, model.domains, am, p);
    assert Outcome(ar, a, model).value.domains == DomainResults(ar, model.domains, am, p);
    AllHonest(model.domains, am, p);
    IncompleteIsNotCompliant(aspects);
    CountFull(aspects, (r: AspectResult) => r.compliant);
    CountFull(controls, (r: ControlResult) => r.status == Pass);
  }

  lemma {:induction false} CountFull<T>(s: seq<T>, p: T -> bool)
    ensures Count(s, p) == |s| <==> forall i :: 0 <= i < |s| ==> p(s[i])
  {
    if s != [] { CountFull(s[..|s| - 1], p); }
  }

  // ----- the order of the answers -----

  // The same responses in any order, accepted or not, lead to the same outcome,
  // whatever float addition does.
  lemma OrderIsIrrelevant(ar: Arithmetic, a: Assessment, b: Assessment, model: Model)
    requires b == a.(aspectResults := b.aspectResults, controlResults := b.controlResults)
    requires multiset(a.aspectResults) == multiset(b.aspectResults)
    requires multiset(a.controlResults) == multiset(b.controlResults)
    ensures Outcome(ar, a, model) == Outcome(ar, b, model)
  {
    hide ValidAspectResponse, ValidControlResponse, ReportOf;
    SameHeader(a, b, model);
    SameMembers(a.aspectResults, b.aspectResults);
    SameMembers(a.controlResults, b.controlResults);
    DistinctAlike(a.aspectResults, b.aspectResults, (r: AspectResponse) => r.id);
    DistinctAlike(a.controlResults, b.controlResults, (r: ControlResponse) => r.id);
    if Accepts(a, model) {
      SameIndex(a.aspectResults, b.aspectResults, (r: AspectResponse) => r.id);
      SameIndex(a.controlResults, b.controlResults, (r: ControlResponse) => r.id);
    }
  }

  lemma SameHeader(a: Assessment, b: Assessment, model: Model)
    requires b == a.(aspectResults := b.aspectResults, controlResults := b.controlResults)
    requires multiset(a.aspectResults) == multiset(b.aspectResults)
    requires multiset(a.controlResults) == multiset(b.controlResults)
    ensures var p := EffectivePolicy(a.policy, model.defaults);
            ValidHeader(a, p, model.defaults) == ValidHeader(b, p, model.defaults)
  {
    assert |a.aspectResults| == |multiset(a.aspectResults)| == |b.aspectResults|;
    assert |a.controlResults| == |multiset(a.controlResults)| == |b.controlResults|;
  }

  lemma SameMembers<T>(x: seq<T>, y: seq<T>)
    requires multiset(x) == multiset(y)
    ensures forall r :: r in x <==> r in y
  {
    forall r ensures r in x <==> r in y { assert r in multiset(x) <==> r in multiset(y); }
  }

  lemma DistinctAlike<T>(x: seq<T>, y: seq<T>, id: T -> string)
    requires multiset(x) == multiset(y)
    ensures DistinctBy(x, id) <==> DistinctBy(y, id)
  {
    if DistinctBy(x, id) { DistinctShared(x, y, id); }
    if DistinctBy(y, id) { DistinctShared(y, x, id); }
  }

  lemma DistinctShared<T>(x: seq<T>, y: seq<T>, id: T -> string)
    requires multiset(x) == multiset(y) && DistinctBy(x, id)
    ensures DistinctBy(y, id)
  {
    SameMembers(x, y);
    Sorting.NoDuplicates(x);
    forall i, j | 0 <= i < j < |y| ensures id(y[i]) != id(y[j]) {
      assert y[i] in y && y[j] in y;
      var m :| 0 <= m < |x| && x[m] == y[i];
      var n :| 0 <= n < |x| && x[n] == y[j];
      if m == n { Sorting.Repeated(y, i, j); }
    }
  }

  lemma SameIndex<T>(x: seq<T>, y: seq<T>, id: T -> string)
    requires multiset(x) == multiset(y) && DistinctBy(x, id)
    ensures ById(x, id) == ById(y, id)
  {
    SameMembers(x, y);
    DistinctShared(x, y, id);
    ByIdFinds(x, id);
    ByIdFinds(y, id);
    forall k ensures k in ById(x, id) <==> k in ById(y, id) {
      if k in ById(x, id) { assert ById(x, id)[k] in y; }
      if k in ById(y, id) { assert ById(y, id)[k] in x; }
    }
  }
}
