// The log-source gate: internal/logsource/evaluate.go. Times are nanoseconds
// since Go's zero time.
module LogSource {
  import opened Common
  import opened Counting
  import opened Floats
  import Text

  const API_VERSION := "attestor.trisoc.io/v1alpha1"
  const KIND := "LogSourceInventory"
  const MICROSOFT_SENTINEL := "microsoft_sentinel"
  const AWS_SECURITY_LAKE := "aws_security_lake"
  const GOOGLE_SECURITY_OPERATIONS := "google_security_operations"
  const SPLUNK := "splunk"

  const EXPECTED_STANDARDS: map<string, string> :=
    map[MICROSOFT_SENTINEL := "ASIM", AWS_SECURITY_LAKE := "OCSF", GOOGLE_SECURITY_OPERATIONS := "UDM", SPLUNK := "CIM"]

  const MINUTE: int := 60_000_000_000
  const MAX_DURATION: int := 0x7FFF_FFFF_FFFF_FFFF

  datatype Requirement = Requirement(platform: string, sourceId: string, category: string, minimumCount: int)

  // A policy as the caller holds it: the requirements are a shared slice.
  datatype Policy = Policy(
    minimumRetentionDays: int, maximumEventAgeMinutes: int, minimumNormalizationCoverage: Float,
    requirements: array<Requirement>)

  // What a policy says at one moment.
  datatype Terms = Terms(
    minimumRetentionDays: int, maximumEventAgeMinutes: int, minimumNormalizationCoverage: Float,
    requirements: seq<Requirement>)

  function TermsOf(p: Policy): Terms
    reads p.requirements
  {
    Terms(p.minimumRetentionDays, p.maximumEventAgeMinutes, p.minimumNormalizationCoverage, p.requirements[..])
  }

  datatype Normalization = Normalization(standard: string, schema: string, version: string, coveragePercent: Float,
      validated: bool)

  datatype Source = Source(
    id: string, platform: string, name: string, category: string, enabled: bool,
    lastEventAt: Option<int>, retentionDays: int, normalization: Normalization)

  datatype Inventory = Inventory(apiVersion: string, kind: string, policy: Policy, sources: seq<Source>)

  datatype Status = Pass | Fail | Unknown
  datatype Check = Check(name: string, status: Status, sourceId: string, platform: string)
  datatype SourceResult = SourceResult(id: string, platform: string, compliant: bool, checks: seq<Check>)
  datatype Summary = Summary(sources: nat, compliantSources: nat, failedChecks: nat, unknownChecks: nat)
  datatype Report = Report(
    compliant: bool, evaluatedAt: int, policy: Terms, expectedStandards: map<string, string>,
    sources: seq<SourceResult>, requirements: seq<Check>, summary: Summary)

  // ----- platforms -----

  function Normalized(value: string): (r: string) {
    var lower := Text.Lower(Text.TrimSpace(value));
    seq(|lower|, i requires 0 <= i < |lower| => if lower[i] == '-' || lower[i] == ' ' then '_' else lower[i])
  }

  function NamedPlatform(n: string): Option<string> {
    if n in {"microsoft_sentinel", "azure_sentinel", "sentinel", "microsoft"} then Some(MICROSOFT_SENTINEL)
    else if n in {"aws_security_lake", "security_lake", "aws", "amazon_security_lake"} then Some(AWS_SECURITY_LAKE)
    else if n in {"google_security_operations", "google_secops", "chronicle", "gcp_secops", "google"}
    then Some(GOOGLE_SECURITY_OPERATIONS)
    else if n in {"splunk", "splunk_enterprise_security", "splunk_es"} then Some(SPLUNK)
    else None
  }

  function CanonicalPlatform(value: string): Option<string> { NamedPlatform(Normalized(value)) }

  // The platform with the error ignored.
  function PlatformOf(value: string): string {
    var p := CanonicalPlatform(value);
    if p.Some? then p.value else ""
  }

  lemma NormalizedFixes(s: string)
    requires forall i :: 0 <= i < |s| ==> 'a' <= s[i] <= 'z' || s[i] == '_'
    ensures Normalized(s) == s
  {
    assert Text.TrimSpace(s) == s;
    assert Text.Lower(s) == s;
  }

  // A canonical platform names itself.
  lemma CanonicalIsIdempotent(value: string)
    ensures CanonicalPlatform(value).Some? ==>
              CanonicalPlatform(CanonicalPlatform(value).value) == CanonicalPlatform(value)
  {
    hide Normalized;
    NormalizedFixes(MICROSOFT_SENTINEL);
    NormalizedFixes(AWS_SECURITY_LAKE);
    NormalizedFixes(GOOGLE_SECURITY_OPERATIONS);
    NormalizedFixes(SPLUNK);
  }

  // ----- policy defaults -----

  function DefaultedRequirement(r: Requirement): Requirement {
    var count := if r.minimumCount == 0 then 1 else r.minimumCount;
    var p := CanonicalPlatform(r.platform);
    r.(minimumCount := count, platform := if p.Some? then p.value else r.platform)
  }

  function Defaulted(t: Terms): Terms {
    Terms(if t.minimumRetentionDays == 0 then 90 else t.minimumRetentionDays,
          if t.maximumEventAgeMinutes == 0 then 60 else t.maximumEventAgeMinutes,
          if Equal(t.minimumNormalizationCoverage, Real(0.0)) then Real(95.0) else t.minimumNormalizationCoverage,
          seq(|t.requirements|, i requires 0 <= i < |t.requirements| => DefaultedRequirement(t.requirements[i])))
  }

  lemma DefaultingIsIdempotent(t: Terms)
    ensures Defaulted(Defaulted(t)) == Defaulted(t)
  {
    forall i | 0 <= i < |t.requirements|
      ensures DefaultedRequirement(DefaultedRequirement(t.requirements[i])) == DefaultedRequirement(t.requirements[i])
    {
      CanonicalIsIdempotent(t.requirements[i].platform);
    }
    assert Defaulted(Defaulted(t)).requirements == Defaulted(t).requirements;
  }

  // The requirements are defaulted in the caller's slice; the other limits only
  // in the copy that is returned.
  method WithPolicyDefaults(policy: Policy) returns (r: Policy)
    modifies policy.requirements
    ensures r.requirements == policy.requirements
    ensures TermsOf(r) == Defaulted(old(TermsOf(policy)))
  {
    hide CanonicalPlatform;
    r := policy;
    if r.minimumRetentionDays == 0 {
      r := r.(minimumRetentionDays := 90);
    }
    if r.maximumEventAgeMinutes == 0 {
      r := r.(maximumEventAgeMinutes := 60);
    }
    if Equal(r.minimumNormalizationCoverage, Real(0.0)) {
      r := r.(minimumNormalizationCoverage := Real(95.0));
    }
    var slice := r.requirements;
    for i := 0 to slice.Length
      invariant forall k :: 0 <= k < slice.Length ==>
                  slice[k] == if k < i then DefaultedRequirement(old(slice[k])) else old(slice[k])
    {
      if slice[i].minimumCount == 0 {
        slice[i] := slice[i].(minimumCount := 1);
      }
      var platform := CanonicalPlatform(slice[i].platform);
      if platform.Some? {
        slice[i] := slice[i].(platform := platform.value);
      }
    }
    assert slice[..] == Defaulted(old(TermsOf(policy))).requirements;
  }

  // ----- validation -----

  predicate ValidSource(s: Source) {
    && s.id != "" && Text.IsTrimmed(s.id) && Text.ByteLength(s.id) <= 256
    && CanonicalPlatform(s.platform).Some?
    && Text.TrimSpace(s.name) != "" && Text.TrimSpace(s.category) != ""
    && Text.ByteLength(s.name) <= 256 && Text.ByteLength(s.category) <= 128
    && 0 <= s.retentionDays <= 3650
    && Text.ByteLength(s.normalization.standard) <= 32
    && Text.ByteLength(s.normalization.schema) <= 256
    && Text.ByteLength(s.normalization.version) <= 64
    && !Below(s.normalization.coveragePercent, Real(0.0)) && !Below(Real(100.0), s.normalization.coveragePercent)
  }

  predicate ValidRequirement(r: Requirement) {
    && CanonicalPlatform(r.platform).Some?
    && !(Text.TrimSpace(r.sourceId) == "" && Text.TrimSpace(r.category) == "")
    && Text.ByteLength(r.sourceId) <= 256 && Text.ByteLength(r.category) <= 128
    && 1 <= r.minimumCount <= 10000
  }

  // No two identifiers have the same lower-case form.
  predicate DistinctIds(casing: Text.Casing, sources: seq<Source>) {
    forall i, j :: 0 <= i < j < |sources| ==>
      Text.LowerAll(casing, sources[i].id) != Text.LowerAll(casing, sources[j].id)
  }

  predicate Accepts(casing: Text.Casing, apiVersion: string, kind: string, sources: seq<Source>, t: Terms) {
    && apiVersion == API_VERSION && kind == KIND
    && 1 <= |sources| <= 10000 && |t.requirements| <= 1000
    && 1 <= t.minimumRetentionDays <= 3650
    && 1 <= t.maximumEventAgeMinutes <= 525600
    && !AtLeast(Real(0.0), t.minimumNormalizationCoverage) && !Below(Real(100.0), t.minimumNormalizationCoverage)
    && (forall s :: s in sources ==> ValidSource(s))
    && DistinctIds(casing, sources)
    && (forall r :: r in t.requirements ==> ValidRequirement(r))
  }

  method ValidateInventory(casing: Text.Casing, inventory: Inventory, policy: Policy) returns (ok: bool)
    ensures ok == Accepts(casing, inventory.apiVersion, inventory.kind, inventory.sources, TermsOf(policy))
  {
    hide ValidSource, ValidRequirement, DistinctIds;
    var sources, requirements := inventory.sources, policy.requirements;
    if inventory.apiVersion != API_VERSION || inventory.kind != KIND
       || |sources| == 0 || |sources| > 10000 || requirements.Length > 1000
       || policy.minimumRetentionDays < 1 || policy.minimumRetentionDays > 3650
       || policy.maximumEventAgeMinutes < 1 || policy.maximumEventAgeMinutes > 525600
       || AtLeast(Real(0.0), policy.minimumNormalizationCoverage)
       || Below(Real(100.0), policy.minimumNormalizationCoverage)
    {
      return false;
    }
    ok := ValidateSources(casing, sources);
    if !ok {
      return false;
    }
    for i := 0 to requirements.Length
      invariant forall k :: 0 <= k < i ==> ValidRequirement(requirements[k])
    {
      if !ValidRequirement(requirements[i]) {
        assert requirements[i] in requirements[..];
        return false;
      }
    }
    return true;
  }

  lemma BadId(s: Source)
    requires Text.TrimSpace(s.id) == "" || Text.TrimSpace(s.id) != s.id || Text.ByteLength(s.id) > 256
    ensures !ValidSource(s)
  {
  }

  method ValidateSources(casing: Text.Casing, sources: seq<Source>) returns (ok: bool)
    ensures ok == ((forall s :: s in sources ==> ValidSource(s)) && DistinctIds(casing, sources))
  {
    hide ValidSource, Text.LowerAll, Text.TrimSpace, Text.ByteLength;
    var seen: set<string> := {};
    for i := 0 to |sources|
      invariant forall k :: 0 <= k < i ==> ValidSource(sources[k])
      invariant forall x :: x in seen <==> exists k :: 0 <= k < i && Text.LowerAll(casing, sources[k].id) == x
      invariant forall k, l :: 0 <= k < l < i ==>
                  Text.LowerAll(casing, sources[k].id) != Text.LowerAll(casing, sources[l].id)
    {
      var source := sources[i];
      if Text.TrimSpace(source.id) == "" || Text.TrimSpace(source.id) != source.id || Text.ByteLength(source.id) > 256 {
        BadId(source);
        return false;
      }
      var identity := Text.LowerAll(casing, source.id);
      if identity in seen {
        return false;
      }
      seen := seen + {identity};
      if !ValidSource(source) {
        return false;
      }
    }
    return true;
  }

  // ----- evaluation -----

  // time.Time.Sub saturates at the largest durations.
  function Sub(t: int, u: int): int {
    if t - u > MAX_DURATION then MAX_DURATION else if t - u < -MAX_DURATION - 1 then -MAX_DURATION - 1 else t - u
  }

  function FreshnessCheck(s: Source, platform: string, t: Terms, at: int): Check {
    var status :=
      if s.lastEventAt.None? || s.lastEventAt.value > at then Unknown
      else if Sub(at, s.lastEventAt.value) > t.maximumEventAgeMinutes * MINUTE then Fail
      else Pass;
    Check("freshness", status, s.id, platform)
  }

  function NewCheck(s: Source, platform: string, name: string, passed: bool): Check {
    Check(name, if passed then Pass else Fail, s.id, platform)
  }

  // The six checks that do not look at the clock.
  predicate TimelessPass(s: Source, t: Terms) {
    && s.enabled
    && s.retentionDays >= t.minimumRetentionDays
    && Text.EqualFold(Text.TrimSpace(s.normalization.standard), Expected(PlatformOf(s.platform)))
    && Text.TrimSpace(s.normalization.schema) != ""
    && AtLeast(s.normalization.coveragePercent, t.minimumNormalizationCoverage)
    && s.normalization.validated
  }

  function Expected(platform: string): string {
    if platform in EXPECTED_STANDARDS then EXPECTED_STANDARDS[platform] else ""
  }

  function SourceChecks(s: Source, t: Terms, at: int): (r: seq<Check>)
    ensures |r| == 7
  {
    var platform := PlatformOf(s.platform);
    var n := s.normalization;
    [NewCheck(s, platform, "enabled", s.enabled),
     NewCheck(s, platform, "retention", s.retentionDays >= t.minimumRetentionDays),
     NewCheck(s, platform, "normalization_standard", Text.EqualFold(Text.TrimSpace(n.standard), Expected(platform))),
     NewCheck(s, platform, "normalization_schema", Text.TrimSpace(n.schema) != ""),
     NewCheck(s, platform, "normalization_coverage", AtLeast(n.coveragePercent, t.minimumNormalizationCoverage)),
     NewCheck(s, platform, "normalization_validation", n.validated),
     FreshnessCheck(s, platform, t, at)]
  }

  // Freshness cannot be told without a last event in the past, and fails once the
  // last event is older than the limit, across the saturation of Sub.
  lemma FreshnessMeans(s: Source, t: Terms, at: int)
    ensures var checks := SourceChecks(s, t, at);
            && checks[6].name == "freshness"
            && (checks[6].status == Unknown <==> s.lastEventAt.None? || s.lastEventAt.value > at)
            && (1 <= t.maximumEventAgeMinutes <= 525600 ==>
                  (checks[6].status == Fail <==>
                     s.lastEventAt.Some? && at > s.lastEventAt.value + t.maximumEventAgeMinutes * 60_000_000_000))
            && forall k :: 0 <= k < 6 ==> checks[k].status != Unknown
  {
    hide Text.TrimSpace, Text.EqualFold, PlatformOf, Expected;
  }

  predicate AllPass(checks: seq<Check>) { forall i :: 0 <= i < |checks| ==> checks[i].status == Pass }

  method EvaluateSource(s: Source, t: Terms, at: int) returns (r: SourceResult)
    ensures r == SourceResult(s.id, PlatformOf(s.platform), AllPass(SourceChecks(s, t, at)), SourceChecks(s, t, at))
    ensures |r.checks| == 7 && r.checks[6].name == "freshness"
    ensures r.checks[6].status == Unknown <==> s.lastEventAt.None? || s.lastEventAt.value > at
    ensures 1 <= t.maximumEventAgeMinutes <= 525600 ==>
              (r.checks[6].status == Fail <==>
                 s.lastEventAt.Some? && at > s.lastEventAt.value + t.maximumEventAgeMinutes * 60_000_000_000)
    ensures forall k :: 0 <= k < 6 ==> r.checks[k].status != Unknown
    ensures r.compliant <==> forall k :: 0 <= k < 7 ==> r.checks[k].status == Pass
  {
    FreshnessMeans(s, t, at);
    hide SourceChecks, PlatformOf;
    var checks := SourceChecks(s, t, at);
    var compliant := true;
    for i := 0 to |checks|
      invariant compliant <==> forall k :: 0 <= k < i ==> checks[k].status == Pass
    {
      if checks[i].status != Pass {
        compliant := false;
      }
    }
    r := SourceResult(s.id, PlatformOf(s.platform), compliant, checks);
  }

  predicate Matches(casing: Text.Casing, r: Requirement, s: Source) {
    && PlatformOf(s.platform) == PlatformOf(r.platform)
    && (r.sourceId == "" || Text.FoldsTo(casing, s.id, r.sourceId))
    && (r.category == "" || Text.FoldsTo(casing, s.category, r.category))
  }

  function Matching(casing: Text.Casing, r: Requirement, sources: seq<Source>): nat {
    Count(sources, s => Matches(casing, r, s))
  }

  function RequirementCheck(casing: Text.Casing, r: Requirement, sources: seq<Source>): Check {
    var status := if Matching(casing, r, sources) < r.minimumCount then Fail else Pass;
    Check("required_source", status, "", PlatformOf(r.platform))
  }

  method EvaluateRequirement(casing: Text.Casing, r: Requirement, sources: seq<Source>) returns (check: Check)
    ensures check == RequirementCheck(casing, r, sources)
  {
    var platform := PlatformOf(r.platform);
    var count := 0;
    for i := 0 to |sources|
      invariant count == Matching(casing, r, sources[..i])
    {
      assert sources[..i + 1][..i] == sources[..i];
      var source := sources[i];
      if PlatformOf(source.platform) != platform {
        continue;
      }
      if r.sourceId != "" && !Text.FoldsTo(casing, source.id, r.sourceId) {
        continue;
      }
      if r.category != "" && !Text.FoldsTo(casing, source.category, r.category) {
        continue;
      }
      count := count + 1;
    }
    assert sources[..|sources|] == sources;
    check := Check("required_source", if count < r.minimumCount then Fail else Pass, "", platform);
  }

  function ChecksOf(sources: seq<Source>, t: Terms, at: int): seq<Check> {
    if sources == [] then []
    else ChecksOf(sources[..|sources| - 1], t, at) + SourceChecks(sources[|sources| - 1], t, at)
  }

  function RequirementChecks(casing: Text.Casing, sources: seq<Source>, t: Terms): (r: seq<Check>)
    ensures |r| == |t.requirements|
  {
    seq(|t.requirements|, i requires 0 <= i < |t.requirements| => RequirementCheck(casing, t.requirements[i], sources))
  }

  predicate SourcePasses(s: Source, t: Terms, at: int) { AllPass(SourceChecks(s, t, at)) }

  function SourceResults(sources: seq<Source>, t: Terms, at: int): (r: seq<SourceResult>)
    ensures |r| == |sources|
  {
    seq(|sources|, i requires 0 <= i < |sources| =>
      SourceResult(sources[i].id, PlatformOf(sources[i].platform), SourcePasses(sources[i], t, at),
                   SourceChecks(sources[i], t, at)))
  }

  // The report on accepted sources under given terms at a given time.
  function ReportOf(casing: Text.Casing, sources: seq<Source>, t: Terms, at: int): Report {
    var checks := ChecksOf(sources, t, at) + RequirementChecks(casing, sources, t);
    Report(
      AllPass(checks), at, t, EXPECTED_STANDARDS,
      SourceResults(sources, t, at), RequirementChecks(casing, sources, t),
      Summary(|sources|, Count(sources, s => SourcePasses(s, t, at)),
              Count(checks, (c: Check) => c.status == Fail), Count(checks, (c: Check) => c.status == Unknown)))
  }

  datatype Rejection = Rejected

  function Outcome(casing: Text.Casing, apiVersion: string, kind: string, sources: seq<Source>, given: Terms, at: int)
    : Result<Report, Rejection>
  {
    if Accepts(casing, apiVersion, kind, sources, Defaulted(given))
    then Ok(ReportOf(casing, sources, Defaulted(given), at))
    else Err(Rejected)
  }

  // At an explicit time, or the clock's when none is given.
  method Evaluate(casing: Text.Casing, inventory: Inventory, evaluatedAt: int, now: int)
    returns (r: Result<Report, Rejection>)
    modifies inventory.policy.requirements
    ensures r == Outcome(casing, inventory.apiVersion, inventory.kind, inventory.sources,
                         old(TermsOf(inventory.policy)), if evaluatedAt == 0 then now else evaluatedAt)
    ensures inventory.policy.requirements[..] == Defaulted(old(TermsOf(inventory.policy))).requirements
  {
    var at := evaluatedAt;
    if at == 0 {
      at := now;
    }
    var policy := WithPolicyDefaults(inventory.policy);
    var ok := ValidateInventory(casing, inventory, policy);
    if !ok {
      return Err(Rejected);
    }
    var sources, t := inventory.sources, TermsOf(policy);
    var report := EvaluateSources(sources, t, at);
    report := AddRequirements(casing, report, sources, t, at);
    r := Ok(report);
  }

  function CountStatus(summary: Summary, status: Status): Summary {
    match status
    case Fail => summary.(failedChecks := summary.failedChecks + 1)
    case Unknown => summary.(unknownChecks := summary.unknownChecks + 1)
    case Pass => summary
  }

  // The summary's counters agree with the checks seen so far.
  ghost predicate Tallies(summary: Summary, checks: seq<Check>) {
    && summary.failedChecks == Count(checks, (c: Check) => c.status == Fail)
    && summary.unknownChecks == Count(checks, (c: Check) => c.status == Unknown)
  }

  lemma TallyOne(summary: Summary, checks: seq<Check>, c: Check)
    requires Tallies(summary, checks)
    ensures Tallies(CountStatus(summary, c.status), checks + [c])
  {
    CountSnoc(checks, c, (c: Check) => c.status == Fail);
    CountSnoc(checks, c, (c: Check) => c.status == Unknown);
  }

  method CountAll(start: Summary, checks: seq<Check>, ghost before: seq<Check>) returns (summary: Summary)
    requires Tallies(start, before)
    ensures Tallies(summary, before + checks)
    ensures summary.sources == start.sources && summary.compliantSources == start.compliantSources
  {
    summary := start;
    assert before + checks[..0] == before;
    for i := 0 to |checks|
      invariant Tallies(summary, before + checks[..i])
      invariant summary.sources == start.sources && summary.compliantSources == start.compliantSources
    {
      TallyOne(summary, before + checks[..i], checks[i]);
      assert before + checks[..i] + [checks[i]] == before + checks[..i + 1];
      summary := CountStatus(summary, checks[i].status);
    }
    assert checks[..|checks|] == checks;
  }

  // The report once the first n sources are evaluated.
  ghost predicate SourcesDone(report: Report, sources: seq<Source>, n: nat, t: Terms, at: int) {
    && n <= |sources|
    && report.compliant == AllPass(ChecksOf(sources[..n], t, at))
    && report.evaluatedAt == at && report.policy == t && report.expectedStandards == EXPECTED_STANDARDS
    && report.sources == SourceResults(sources[..n], t, at)
    && report.requirements == []
    && report.summary.sources == n
    && report.summary.compliantSources == Count(sources[..n], s => SourcePasses(s, t, at))
    && Tallies(report.summary, ChecksOf(sources[..n], t, at))
  }

  method EvaluateSources(sources: seq<Source>, t: Terms, at: int) returns (report: Report)
    ensures SourcesDone(report, sources, |sources|, t, at)
  {
    hide SourceChecks, PlatformOf;
    report := Report(true, at, t, EXPECTED_STANDARDS, [], [], Summary(0, 0, 0, 0));
    for i := 0 to |sources|
      invariant SourcesDone(report, sources, i, t, at)
    {
      hide SourcesDone;
      var result := EvaluateSource(sources[i], t, at);
      var summary := report.summary.(sources := report.summary.sources + 1);
      if result.compliant {
        summary := summary.(compliantSources := summary.compliantSources + 1);
      }
      DoneTallies(report, sources, i, t, at);
      summary := CountAll(summary, result.checks, ChecksOf(sources[..i], t, at));
      var next := report.(compliant := report.compliant && result.compliant,
                          sources := report.sources + [result], summary := summary);
      OneMoreSource(report, next, sources, i, t, at);
      report := next;
    }
  }

  lemma DoneTallies(report: Report, sources: seq<Source>, n: nat, t: Terms, at: int)
    requires SourcesDone(report, sources, n, t, at)
    ensures n <= |sources| && Tallies(report.summary, ChecksOf(sources[..n], t, at))
  {
  }

  lemma OneMoreSource(report: Report, next: Report, sources: seq<Source>, n: nat, t: Terms, at: int)
    requires n < |sources| && SourcesDone(report, sources, n, t, at)
    requires var s, checks := sources[n], SourceChecks(sources[n], t, at);
             && next == report.(compliant := report.compliant && AllPass(checks),
                                sources := report.sources
                                    + [SourceResult(s.id, PlatformOf(s.platform), AllPass(checks), checks)],
                                summary := next.summary)
             && next.summary.sources == report.summary.sources + 1
             && next.summary.compliantSources == report.summary.compliantSources + (if AllPass(checks) then 1 else 0)
             && Tallies(next.summary, ChecksOf(sources[..n], t, at) + checks)
    ensures SourcesDone(next, sources, n + 1, t, at)
  {
    hide SourceChecks, PlatformOf, Tallies;
    assert sources[..n + 1][..n] == sources[..n];
    var done, checks := ChecksOf(sources[..n], t, at), SourceChecks(sources[n], t, at);
    assert ChecksOf(sources[..n + 1], t, at) == done + checks;
    AllPassConcat(done, checks);
    assert next.sources == SourceResults(sources[..n + 1], t, at);
  }

  lemma AllPassConcat(x: seq<Check>, y: seq<Check>)
    ensures AllPass(x + y) == (AllPass(x) && AllPass(y))
  {
    if AllPass(x + y) {
      assert forall i :: 0 <= i < |x| ==> x[i] == (x + y)[i];
      assert forall i :: 0 <= i < |y| ==> y[i] == (x + y)[|x| + i];
    }
  }

  method AddRequirements(casing: Text.Casing, start: Report, sources: seq<Source>, t: Terms, at: int)
    returns (report: Report)
    requires SourcesDone(start, sources, |sources|, t, at)
    ensures report == ReportOf(casing, sources, t, at)
  {
    hide SourceChecks, PlatformOf, ChecksOf, RequirementCheck, Tallies, CountStatus;
    report := start;
    ghost var done, all := ChecksOf(sources, t, at), RequirementChecks(casing, sources, t);
    assert sources[..|sources|] == sources;
    assert done + all[..0] == done;
    for i := 0 to |t.requirements|
      invariant report == start.(compliant := AllPass(done + all[..i]), requirements := all[..i],
                summary := report.summary)
      invariant Tallies(report.summary, done + all[..i])
      invariant report.summary.sources == start.summary.sources
      invariant report.summary.compliantSources == start.summary.compliantSources
    {
      var check := EvaluateRequirement(casing, t.requirements[i], sources);
      TallyOne(report.summary, done + all[..i], check);
      CountStatusKeeps(report.summary, check.status);
      assert done + all[..i] + [check] == done + all[..i + 1] && all[..i] + [check] == all[..i + 1];
      AllPassConcat(done + all[..i], [check]);
      assert [check][0] == check;
      report := report.(compliant := report.compliant && check.status == Pass,
                        requirements := report.requirements + [check],
                        summary := CountStatus(report.summary, check.status));
    }
    assert all[..|all|] == all;
    TalliesDetermine(report.summary, done + all);
  }

  lemma CountStatusKeeps(summary: Summary, status: Status)
    ensures CountStatus(summary, status).sources == summary.sources
    ensures CountStatus(summary, status).compliantSources == summary.compliantSources
  {
  }

  lemma TalliesDetermine(summary: Summary, checks: seq<Check>)
    requires Tallies(summary, checks)
    ensures summary.failedChecks == Count(checks, (c: Check) => c.status == Fail)
    ensures summary.unknownChecks == Count(checks, (c: Check) => c.status == Unknown)
  {
  }

  // ----- exactness of the gate -----

  lemma {:induction false} AllChecksPass(sources: seq<Source>, t: Terms, at: int)
    ensures AllPass(ChecksOf(sources, t, at)) <==> forall i :: 0 <= i < |sources| ==> SourcePasses(sources[i], t, at)
    decreases |sources|
  {
    hide SourceChecks;
    if sources != [] {
      var n := |sources| - 1;
      AllChecksPass(sources[..n], t, at);
      AllPassConcat(ChecksOf(sources[..n], t, at), SourceChecks(sources[n], t, at));
    }
  }

  // A source passes its seven checks exactly when it passes the six timeless
  // ones and its last event lies within the maximum age before the evaluation.
  lemma SourcePassesExactly(s: Source, t: Terms, at: int)
    requires 1 <= t.maximumEventAgeMinutes <= 525600
    ensures SourcePasses(s, t, at) <==>
            TimelessPass(s, t) && s.lastEventAt.Some?
            && s.lastEventAt.value <= at <= s.lastEventAt.value + t.maximumEventAgeMinutes * MINUTE
  {
    hide Text.EqualFold, Text.TrimSpace, PlatformOf, Expected;
    var c := SourceChecks(s, t, at);
    assert AllPass(c) <==> c[0].status == Pass && c[1].status == Pass && c[2].status == Pass && c[3].status == Pass
                           && c[4].status == Pass && c[5].status == Pass && c[6].status == Pass;
  }

  // Compliant exactly when no check failed and none is unknown; and exactly
  // when every source passes all its checks and every requirement is met by as
  // many sources as it asks for.
  lemma GateIsExact(casing: Text.Casing, sources: seq<Source>, t: Terms, at: int)
    ensures var r := ReportOf(casing, sources, t, at);
            && (r.compliant <==> r.summary.failedChecks == 0 && r.summary.unknownChecks == 0)
            && (r.compliant <==>
                  (forall i :: 0 <= i < |sources| ==> SourcePasses(sources[i], t, at))
                  && (forall i :: 0 <= i < |t.requirements| ==>
                      Matching(casing, t.requirements[i], sources) >= t.requirements[i].minimumCount))
  {
    hide SourceChecks, PlatformOf, SourcePasses, Matching;
    var done, more := ChecksOf(sources, t, at), RequirementChecks(casing, sources, t);
    AllPassConcat(done, more);
    AllChecksPass(sources, t, at);
    CountZero(done + more, (c: Check) => c.status == Fail);
    CountZero(done + more, (c: Check) => c.status == Unknown);
    forall i | 0 <= i < |more|
      ensures more[i].status == Pass <==> Matching(casing, t.requirements[i], sources) >= t.requirements[i].minimumCount
    {
      assert more[i] == RequirementCheck(casing, t.requirements[i], sources);
    }
  }

  // A compliant report counts every source as compliant.
  lemma CompliantCountsAll(casing: Text.Casing, sources: seq<Source>, t: Terms, at: int)
    requires ReportOf(casing, sources, t, at).compliant
    ensures var summary := ReportOf(casing, sources, t, at).summary;
            summary.compliantSources == |sources| == summary.sources
  {
    GateIsExact(casing, sources, t, at);
    CountAllOf(sources, s => SourcePasses(s, t, at));
  }

  // ----- the window of compliant times -----

  function Latest(sources: seq<Source>): int
    requires sources != [] && forall s :: s in sources ==> s.lastEventAt.Some?
  {
    var n := |sources| - 1;
    var last := sources[n].lastEventAt.value;
    if n == 0 then last else var rest := Latest(sources[..n]); if last > rest then last else rest
  }

  function Earliest(sources: seq<Source>): int
    requires sources != [] && forall s :: s in sources ==> s.lastEventAt.Some?
  {
    var n := |sources| - 1;
    var last := sources[n].lastEventAt.value;
    if n == 0 then last else var rest := Earliest(sources[..n]); if last < rest then last else rest
  }

  lemma {:induction false} WithinAll(sources: seq<Source>, age: int, at: int)
    requires sources != [] && forall s :: s in sources ==> s.lastEventAt.Some?
    ensures (forall i :: 0 <= i < |sources| ==>
               sources[i].lastEventAt.value <= at <= sources[i].lastEventAt.value + age)
            <==> Latest(sources) <= at <= Earliest(sources) + age
    decreases |sources|
  {
    var n := |sources| - 1;
    if n > 0 {
      WithinAll(sources[..n], age, at);
    }
  }

  // The time-independent part of compliance.
  predicate Timeless(casing: Text.Casing, sources: seq<Source>, t: Terms) {
    && (forall i :: 0 <= i < |sources| ==> TimelessPass(sources[i], t))
    && (forall i :: 0 <= i < |t.requirements| ==>
          Matching(casing, t.requirements[i], sources) >= t.requirements[i].minimumCount)
  }

  // An accepted inventory that passes everything timeless is compliant at
  // exactly the times from its latest last event to its earliest last event
  // plus the maximum age; never when a last event is missing.
  lemma ComplianceWindow(casing: Text.Casing, sources: seq<Source>, t: Terms, at: int)
    requires sources != [] && 1 <= t.maximumEventAgeMinutes <= 525600
    ensures ReportOf(casing, sources, t, at).compliant <==>
            && Timeless(casing, sources, t)
            && (forall s :: s in sources ==> s.lastEventAt.Some?)
            && Latest(sources) <= at <= Earliest(sources) + t.maximumEventAgeMinutes * MINUTE
  {
    hide SourcePasses, Matching, TimelessPass, ReportOf;
    GateIsExact(casing, sources, t, at);
    forall i | 0 <= i < |sources|
      ensures SourcePasses(sources[i], t, at) <==>
              TimelessPass(sources[i], t) && sources[i].lastEventAt.Some?
              && sources[i].lastEventAt.value <= at <= sources[i].lastEventAt.value + t.maximumEventAgeMinutes * MINUTE
    {
      SourcePassesExactly(sources[i], t, at);
    }
    if forall s :: s in sources ==> s.lastEventAt.Some? {
      WithinAll(sources, t.maximumEventAgeMinutes * MINUTE, at);
    } else {
      var s :| s in sources && s.lastEventAt.None?;
      var i :| 0 <= i < |sources| && sources[i] == s;
      assert !SourcePasses(sources[i], t, at);
    }
  }

  // ----- requirements that name a source -----

  predicate HasLetterS(id: string) { 's' in id || 'S' in id }

  // Whatever folds to an ASCII character other than s has it as lower-case form.
  lemma FoldedLower(casing: Text.Casing, id: string, name: string)
    requires Text.IsGoCasing(casing) && Text.FoldsTo(casing, id, name)
    requires Text.IsAscii(name) && !HasLetterS(name)
    ensures Text.LowerAll(casing, id) == Text.LowerAll(casing, name)
  {
    forall i | 0 <= i < |id| ensures casing.lower(id[i]) == casing.lower(name[i]) {
      assert casing.fold(id[i]) == casing.fold(name[i]) && name[i] in name;
    }
  }

  // ASCII characters are in one case or the other.
  lemma AsciiLower(casing: Text.Casing, id: string, name: string)
    requires Text.IsGoCasing(casing) && Text.FoldsTo(casing, id, name)
    requires Text.IsAscii(name) && Text.IsAscii(id)
    ensures Text.LowerAll(casing, id) == Text.LowerAll(casing, name)
  {
    forall i | 0 <= i < |id| ensures casing.lower(id[i]) == casing.lower(name[i]) {
      assert casing.fold(id[i]) == casing.fold(name[i]);
    }
  }

  // White space folds to itself and nothing else does.
  lemma FoldedSpace(casing: Text.Casing, id: string, name: string)
    requires Text.IsGoCasing(casing) && Text.FoldsTo(casing, id, name)
    ensures Text.IsTrimmed(id) ==> Text.IsTrimmed(name)
    ensures Text.TrimSpace(name) == "" ==> id == name
  {
    hide Text.IsSpace, Text.TrimSpace, Text.LowerChar, Text.FoldChar;
    assert name != "" ==> casing.fold(id[0]) == casing.fold(name[0]);
    assert name != "" ==> casing.fold(id[|id| - 1]) == casing.fold(name[|id| - 1]);
    if Text.TrimSpace(name) == "" {
      Text.BlankIsSpace(name);
      forall i | 0 <= i < |id| ensures id[i] == name[i] {
        assert casing.fold(id[i]) == casing.fold(name[i]) && name[i] in name;
      }
    }
  }

  // An accepted inventory can hold two sources that the requirement names: its name
  // can be spelled with a long s, in two sources that are valid otherwise.
  predicate TwoSpellings(r: Requirement) {
    && HasLetterS(r.sourceId) && Text.IsTrimmed(r.sourceId) && |r.sourceId| <= 255
    && (r.category == "" || Text.TrimSpace(r.category) != "")
  }

  lemma MatchedLower(casing: Text.Casing, r: Requirement, s: Source)
    requires Text.IsGoCasing(casing) && ValidRequirement(r) && ValidSource(s) && Matches(casing, r, s)
    requires r.sourceId != "" && Text.IsAscii(r.sourceId) && !TwoSpellings(r)
    ensures Text.LowerAll(casing, s.id) == Text.LowerAll(casing, r.sourceId)
  {
    hide Text.IsGoCasing, Text.FoldsTo, Text.IsAscii, Text.LowerAll, CanonicalPlatform, HasLetterS, Text.TrimSpace,
      Text.ByteLength, Text.IsTrimmed;
    FoldedSpace(casing, s.id, r.sourceId);
    if !HasLetterS(r.sourceId) {
      FoldedLower(casing, s.id, r.sourceId);
    } else if |r.sourceId| > 255 {
      Text.AsciiLength(s.id);
      SameLength(casing, s.id, r.sourceId);
      AsciiLower(casing, s.id, r.sourceId);
    } else {
      FoldedSpace(casing, s.category, r.category);
    }
  }

  lemma SameLength(casing: Text.Casing, id: string, name: string)
    requires Text.FoldsTo(casing, id, name)
    ensures |id| == |name|
  {
  }

  lemma {:induction false} AtMostOne(casing: Text.Casing, r: Requirement, sources: seq<Source>)
    requires DistinctIds(casing, sources)
    requires forall s :: s in sources && Matches(casing, r, s) ==>
               Text.LowerAll(casing, s.id) == Text.LowerAll(casing, r.sourceId)
    ensures Matching(casing, r, sources) <= 1
    decreases |sources|
  {
    hide Matches, Text.LowerAll;
    if sources != [] {
      var n := |sources| - 1;
      AtMostOne(casing, r, sources[..n]);
      if Matches(casing, r, sources[n]) {
        forall i | 0 <= i < n ensures !Matches(casing, r, sources[..n][i]) {
          assert sources[i] in sources;
          assert Text.LowerAll(casing, sources[i].id) != Text.LowerAll(casing, sources[n].id);
        }
        CountZero(sources[..n], s => Matches(casing, r, s));
      }
    }
  }

  function FirstS(name: string): (p: nat)
    requires HasLetterS(name)
    ensures p < |name| && (name[p] == 's' || name[p] == 'S')
  {
    if name[0] == 's' || name[0] == 'S' then 0 else 1 + FirstS(name[1..])
  }

  // The name with a long s in place of its first letter s.
  function LongS(name: string): string
    requires HasLetterS(name)
  {
    name[FirstS(name) := '\U{17F}']
  }

  lemma LongSIsAnother(casing: Text.Casing, name: string)
    requires Text.IsGoCasing(casing) && HasLetterS(name)
    ensures Text.FoldsTo(casing, LongS(name), name)
    ensures Text.LowerAll(casing, LongS(name)) != Text.LowerAll(casing, name)
  {
    var p := FirstS(name);
    assert Text.LowerAll(casing, LongS(name))[p] != Text.LowerAll(casing, name)[p];
  }

  lemma LongSIsValid(name: string)
    requires HasLetterS(name) && Text.IsAscii(name) && Text.IsTrimmed(name) && |name| <= 255
    ensures Text.IsTrimmed(LongS(name)) && Text.ByteLength(LongS(name)) <= 256
  {
    hide Text.ByteLength, Text.IsAscii;
    var p := FirstS(name);
    LongSLength(name, p);
  }

  lemma LongSLength(name: string, p: nat)
    requires p < |name| <= 255 && Text.IsAscii(name)
    ensures Text.ByteLength(name[p := '\U{17F}']) <= 256
  {
    hide Text.ByteLength;
    var x, y := name[..p], name[p + 1..];
    assert name[p := '\U{17F}'] == x + ("\U{17F}" + y);
    Text.ByteLengthConcat(x, "\U{17F}" + y);
    Text.ByteLengthConcat("\U{17F}", y);
    Text.AsciiLength(x);
    Text.AsciiLength(y);
    LongSTakesTwo();
  }

  lemma LongSTakesTwo()
    ensures Text.ByteLength("\U{17F}") == 2
  {
    assert "\U{17F}"[1..] == "";
  }

  function Named(id: string, r: Requirement): Source {
    Source(id, r.platform, "n", if r.category == "" then "c" else r.category, true, None, 0,
           Normalization("", "", "", Real(0.0), true))
  }

  lemma NamedIsValid(id: string, r: Requirement)
    requires ValidRequirement(r) && (r.category == "" || Text.TrimSpace(r.category) != "")
    requires id != "" && Text.IsTrimmed(id) && Text.ByteLength(id) <= 256
    ensures ValidSource(Named(id, r))
  {
    hide CanonicalPlatform, Text.ByteLength;
    assert Text.TrimSpace("n") == "n" && Text.TrimSpace("c") == "c";
    Text.Short("n");
    Text.Short("c");
    Text.Short("");
  }

  lemma SameFold(casing: Text.Casing, s: string)
    ensures Text.FoldsTo(casing, s, s)
  {
  }

  lemma NamedBoth(casing: Text.Casing, r: Requirement, t: Terms, sources: seq<Source>)
    requires Text.IsGoCasing(casing) && Accepts(casing, API_VERSION, KIND, sources, t) && r in t.requirements
    requires r.sourceId != "" && Text.IsAscii(r.sourceId) && TwoSpellings(r)
    ensures var both := [Named(r.sourceId, r), Named(LongS(r.sourceId), r)];
            Accepts(casing, API_VERSION, KIND, both, t) && Matching(casing, r, both) == 2
  {
    hide ValidSource, ValidRequirement, Text.LowerAll, Text.FoldsTo, Text.IsGoCasing, Matching, HasLetterS, LongS,
      Text.IsTrimmed, Text.TrimSpace, Text.ByteLength, PlatformOf;
    var x, y := r.sourceId, LongS(r.sourceId);
    Text.AsciiLength(x);
    LongSIsValid(x);
    LongSIsAnother(casing, x);
    SameLength(casing, y, x);
    NamedIsValid(x, r);
    NamedIsValid(y, r);
    SameFold(casing, x);
    SameFold(casing, r.category);
    Counted(casing, r, Named(x, r), Named(y, r));
  }

  // In accepted inventories a requirement that names a source in ASCII counts no
  // more than one, exactly when the name has no second spelling: the long s is a
  // lower-case letter of its own, but folds to s. (Provided that some inventory is
  // accepted under these terms.)
  lemma NamedSourceExactly(casing: Text.Casing, r: Requirement, t: Terms, sources: seq<Source>)
    requires Text.IsGoCasing(casing) && Accepts(casing, API_VERSION, KIND, sources, t) && r in t.requirements
    requires r.sourceId != "" && Text.IsAscii(r.sourceId)
    ensures (forall others :: Accepts(casing, API_VERSION, KIND, others, t) ==> Matching(casing, r, others) <= 1)
            <==> !TwoSpellings(r)
  {
    hide Matching, TwoSpellings, Text.IsGoCasing, Text.IsAscii, Accepts;
    if TwoSpellings(r) {
      NamedBoth(casing, r, t, sources);
    } else {
      forall others | Accepts(casing, API_VERSION, KIND, others, t) ensures Matching(casing, r, others) <= 1 {
        CountsOnce(casing, r, t, others);
      }
    }
  }

  lemma CountsOnce(casing: Text.Casing, r: Requirement, t: Terms, sources: seq<Source>)
    requires Text.IsGoCasing(casing) && Accepts(casing, API_VERSION, KIND, sources, t) && r in t.requirements
    requires r.sourceId != "" && Text.IsAscii(r.sourceId) && !TwoSpellings(r)
    ensures Matching(casing, r, sources) <= 1
  {
    hide Matching, Matches, TwoSpellings, Text.IsGoCasing, Text.IsAscii, ValidSource, ValidRequirement, Text.LowerAll;
    forall s | s in sources && Matches(casing, r, s)
      ensures Text.LowerAll(casing, s.id) == Text.LowerAll(casing, r.sourceId)
    {
      MatchedLower(casing, r, s);
    }
    AtMostOne(casing, r, sources);
  }

  // Such a requirement that asks for more than one can never be met.
  lemma NamedSourceCountsOnce(casing: Text.Casing, sources: seq<Source>, t: Terms, at: int, i: nat)
    requires Text.IsGoCasing(casing) && Accepts(casing, API_VERSION, KIND, sources, t) && i < |t.requirements|
    requires t.requirements[i].sourceId != "" && t.requirements[i].minimumCount > 1
    requires Text.IsAscii(t.requirements[i].sourceId) && !TwoSpellings(t.requirements[i])
    ensures !ReportOf(casing, sources, t, at).compliant
    ensures ReportOf(casing, sources, t, at).requirements[i].status == Fail
  {
    hide Accepts, TwoSpellings;
    CountsOnce(casing, t.requirements[i], t, sources);
    GateIsExact(casing, sources, t, at);
  }

  // ----- evaluating again -----

  // Evaluate leaves the caller's slice defaulted; evaluating the same inventory
  // again at the same explicit time gives the same outcome.
  lemma EvaluatingTwiceAgrees(casing: Text.Casing, apiVersion: string, kind: string, sources: seq<Source>,
                              given: Terms, at: int)
    ensures var left := given.(requirements := Defaulted(given).requirements);
            Outcome(casing, apiVersion, kind, sources, left, at)
            == Outcome(casing, apiVersion, kind, sources, given, at)
  {
    var left := given.(requirements := Defaulted(given).requirements);
    DefaultingIsIdempotent(given);
    assert Defaulted(left).requirements == Defaulted(Defaulted(given)).requirements;
    assert Defaulted(left) == Defaulted(given);
  }

  // ----- tightening -----

  // u asks for at least what t asks for, and perhaps for more sources of it.
  predicate Demands(u: Requirement, t: Requirement) {
    u == t.(minimumCount := u.minimumCount) && u.minimumCount >= t.minimumCount
  }

  // u asks at least as much as t in every respect. No coverage is at least NaN.
  predicate Tighter(u: Terms, t: Terms) {
    && u.minimumRetentionDays >= t.minimumRetentionDays
    && u.maximumEventAgeMinutes <= t.maximumEventAgeMinutes
    && (u.minimumNormalizationCoverage.NaN? || AtLeast(u.minimumNormalizationCoverage, t.minimumNormalizationCoverage))
    && DemandsAll(u.requirements, t.requirements)
  }

  // Every requirement of ts is one of us or a laxer form of it.
  predicate DemandsAll(us: seq<Requirement>, ts: seq<Requirement>) {
    forall i :: 0 <= i < |ts| ==> Demanded(us, ts[i])
  }

  predicate Demanded(us: seq<Requirement>, t: Requirement) { exists k :: 0 <= k < |us| && Demands(us[k], t) }

  // Tightening the limits in force never turns a non-compliant inventory
  // compliant.
  lemma TighteningIsMonotone(casing: Text.Casing, sources: seq<Source>, t: Terms, u: Terms, at: int)
    requires 1 <= u.maximumEventAgeMinutes && t.maximumEventAgeMinutes <= 525600 && Tighter(u, t)
    requires ReportOf(casing, sources, u, at).compliant
    ensures ReportOf(casing, sources, t, at).compliant
  {
    hide ReportOf, SourcePasses, Matching, Text.EqualFold, Text.TrimSpace, PlatformOf;
    GateIsExact(casing, sources, t, at);
    GateIsExact(casing, sources, u, at);
    forall i | 0 <= i < |sources| ensures SourcePasses(sources[i], t, at) {
      SourcePassesExactly(sources[i], t, at);
      SourcePassesExactly(sources[i], u, at);
    }
    forall i | 0 <= i < |t.requirements|
      ensures Matching(casing, t.requirements[i], sources) >= t.requirements[i].minimumCount
    {
      assert Demanded(u.requirements, t.requirements[i]);
      var k :| 0 <= k < |u.requirements| && Demands(u.requirements[k], t.requirements[i]);
      SameMatching(casing, t.requirements[i], u.requirements[k], sources);
    }
  }

  lemma {:induction false} SameMatching(casing: Text.Casing, r: Requirement, s: Requirement, sources: seq<Source>)
    requires s == r.(minimumCount := s.minimumCount)
    ensures Matching(casing, r, sources) == Matching(casing, s, sources)
    decreases |sources|
  {
    if sources != [] { SameMatching(casing, r, s, sources[..|sources| - 1]); }
  }

  // ----- tightening a policy as it is written -----

  // A limit that is written as zero stands for a default, which may be on the
  // other side of the limit it is compared with. Where that does not happen:
  predicate DefaultsInOrder(h: Terms, g: Terms) {
    && (g.minimumRetentionDays == 0 ==> h.minimumRetentionDays == 0 || h.minimumRetentionDays >= 90)
    && (h.maximumEventAgeMinutes == 0 ==> g.maximumEventAgeMinutes == 0 || g.maximumEventAgeMinutes >= 60)
    && (Equal(g.minimumNormalizationCoverage, Real(0.0)) ==>
          || Equal(h.minimumNormalizationCoverage, Real(0.0)) || h.minimumNormalizationCoverage.NaN?
          || AtLeast(h.minimumNormalizationCoverage, Real(95.0)))
  }

  lemma DefaultsKeepOrder(h: Terms, g: Terms)
    requires Tighter(h, g)
    ensures Tighter(Defaulted(h), Defaulted(g)) <==> DefaultsInOrder(h, g)
    ensures !DefaultsInOrder(h, g) ==> LooserLimit(Defaulted(h), Defaulted(g))
  {
    hide CanonicalPlatform;
    var u, t := Defaulted(h), Defaulted(g);
    forall i | 0 <= i < |t.requirements|
      ensures Demanded(u.requirements, t.requirements[i])
    {
      assert Demanded(h.requirements, g.requirements[i]);
      var k :| 0 <= k < |h.requirements| && Demands(h.requirements[k], g.requirements[i]);
      assert Demands(u.requirements[k], t.requirements[i]);
    }
    assert DemandsAll(u.requirements, t.requirements);
    CoverageInOrder(h.minimumNormalizationCoverage, g.minimumNormalizationCoverage);
  }

  lemma CoverageInOrder(h: Float, g: Float)
    requires h.NaN? || AtLeast(h, g)
    ensures var u, t := (if Equal(h, Real(0.0)) then Real(95.0) else h),
            (if Equal(g, Real(0.0)) then Real(95.0) else g);
            && (u.NaN? || AtLeast(u, t) <==>
                  (Equal(g, Real(0.0)) ==> Equal(h, Real(0.0)) || h.NaN? || AtLeast(h, Real(95.0))))
            && (!(u.NaN? || AtLeast(u, t)) ==> Below(u, t))
  {
  }

  predicate LooserLimit(u: Terms, t: Terms) {
    || u.minimumRetentionDays < t.minimumRetentionDays
    || u.maximumEventAgeMinutes > t.maximumEventAgeMinutes
    || Below(u.minimumNormalizationCoverage, t.minimumNormalizationCoverage)
  }

  // The inventory is reported compliant under h and non-compliant under g.
  predicate Turned(casing: Text.Casing, h: Terms, g: Terms, sources: seq<Source>, at: int) {
    var u, t := Outcome(casing, API_VERSION, KIND, sources, h, at), Outcome(casing, API_VERSION, KIND, sources, g, at);
    u.Ok? && u.value.compliant && t.Ok? && !t.value.compliant
  }

  // Tightening the written policy g to h never turns a non-compliant inventory
  // compliant, exactly when the defaults stay in order. (Provided that some
  // inventory is compliant under h and acceptable under g; else it is vacuous.)
  lemma TighteningExactly(casing: Text.Casing, h: Terms, g: Terms, sources: seq<Source>, at: int)
    requires Tighter(h, g)
    requires var u := Outcome(casing, API_VERSION, KIND, sources, h, at); u.Ok? && u.value.compliant
    requires Outcome(casing, API_VERSION, KIND, sources, g, at).Ok?
    ensures (forall others: seq<Source>, time: int :: !Turned(casing, h, g, others, time)) <==> DefaultsInOrder(h, g)
  {
    hide ReportOf, Tighter, DefaultsInOrder, Turned, Defaulted;
    DefaultsKeepOrder(h, g);
    if DefaultsInOrder(h, g) {
      forall others: seq<Source>, time: int ensures !Turned(casing, h, g, others, time) {
        NeverTurned(casing, h, g, others, time);
      }
    } else {
      BarelyTurned(casing, h, g, sources, at);
    }
  }

  lemma NeverTurned(casing: Text.Casing, h: Terms, g: Terms, sources: seq<Source>, at: int)
    requires Tighter(Defaulted(h), Defaulted(g))
    ensures !Turned(casing, h, g, sources, at)
  {
    hide ReportOf, Tighter, Defaulted, ValidSource, ValidRequirement, DistinctIds;
    if Turned(casing, h, g, sources, at) {
      TighteningIsMonotone(casing, sources, Defaulted(g), Defaulted(h), at);
    }
  }

  // A source that meets its limits and no more.
  function Barely(s: Source, t: Terms, at: int): Source {
    s.(retentionDays := t.minimumRetentionDays,
       lastEventAt := Some(at - t.maximumEventAgeMinutes * MINUTE),
       normalization := s.normalization.(coveragePercent := t.minimumNormalizationCoverage))
  }

  function BarelyAll(sources: seq<Source>, t: Terms, at: int): (r: seq<Source>)
    ensures |r| == |sources| && forall i :: 0 <= i < |r| ==> r[i] == Barely(sources[i], t, at)
  {
    seq(|sources|, i requires 0 <= i < |sources| => Barely(sources[i], t, at))
  }

  lemma {:induction false} BarelyMatching(casing: Text.Casing, r: Requirement, sources: seq<Source>, t: Terms, at: int)
    ensures Matching(casing, r, BarelyAll(sources, t, at)) == Matching(casing, r, sources)
    decreases |sources|
  {
    hide PlatformOf, Text.FoldsTo;
    if sources != [] {
      var n := |sources| - 1;
      BarelyMatching(casing, r, sources[..n], t, at);
      assert BarelyAll(sources, t, at)[..n] == BarelyAll(sources[..n], t, at);
      assert Matches(casing, r, Barely(sources[n], t, at)) == Matches(casing, r, sources[n]);
    }
  }

  lemma BarelyAccepted(casing: Text.Casing, sources: seq<Source>, t: Terms, at: int, u: Terms)
    requires Accepts(casing, API_VERSION, KIND, sources, t) && Accepts(casing, API_VERSION, KIND, sources, u)
    ensures Accepts(casing, API_VERSION, KIND, BarelyAll(sources, t, at), u)
  {
    hide ValidRequirement, CanonicalPlatform, Text.TrimSpace, Text.ByteLength, Text.IsTrimmed, Text.LowerAll;
    var r := BarelyAll(sources, t, at);
    forall s | s in r ensures ValidSource(s) {
      var i :| 0 <= i < |r| && r[i] == s;
      assert sources[i] in sources;
    }
    forall i, j | 0 <= i < j < |r| ensures Text.LowerAll(casing, r[i].id) != Text.LowerAll(casing, r[j].id) {
      assert Text.LowerAll(casing, sources[i].id) != Text.LowerAll(casing, sources[j].id);
    }
  }

  lemma BarelyPasses(s: Source, t: Terms, u: Terms, at: int)
    requires TimelessPass(s, t) && 1 <= t.maximumEventAgeMinutes <= 525600 && 1 <= u.maximumEventAgeMinutes <= 525600
    ensures SourcePasses(Barely(s, t, at), t, at)
    ensures LooserLimit(t, u) ==> !SourcePasses(Barely(s, t, at), u, at)
  {
    hide SourcePasses, PlatformOf, Expected, Text.EqualFold, Text.TrimSpace;
    SourcePassesExactly(Barely(s, t, at), t, at);
    SourcePassesExactly(Barely(s, t, at), u, at);
  }

  lemma BarelyTurned(casing: Text.Casing, h: Terms, g: Terms, sources: seq<Source>, at: int)
    requires LooserLimit(Defaulted(h), Defaulted(g))
    requires var u := Outcome(casing, API_VERSION, KIND, sources, h, at); u.Ok? && u.value.compliant
    requires Outcome(casing, API_VERSION, KIND, sources, g, at).Ok?
    ensures Turned(casing, h, g, BarelyAll(sources, Defaulted(h), at), at)
  {
    hide ReportOf, SourcePasses, TimelessPass, Matching, LooserLimit, Defaulted, ValidSource, ValidRequirement,
        DistinctIds;
    var u, t := Defaulted(h), Defaulted(g);
    var barely := BarelyAll(sources, u, at);
    BarelyAccepted(casing, sources, u, at, u);
    BarelyAccepted(casing, sources, u, at, t);
    GateIsExact(casing, sources, u, at);
    GateIsExact(casing, barely, u, at);
    GateIsExact(casing, barely, t, at);
    forall i | 0 <= i < |sources|
      ensures SourcePasses(barely[i], u, at) && !SourcePasses(barely[i], t, at)
    {
      SourcePassesExactly(sources[i], u, at);
      BarelyPasses(sources[i], u, t, at);
    }
    forall i | 0 <= i < |u.requirements|
      ensures Matching(casing, u.requirements[i], barely) >= u.requirements[i].minimumCount
    {
      BarelyMatching(casing, u.requirements[i], sources, u, at);
    }
    assert !SourcePasses(barely[0], t, at);
  }

  // Asking for thirty days where nothing was written, which means ninety, turns
  // a non-compliant inventory compliant.
  lemma ZeroLimitTurns(casing: Text.Casing, h: Terms, g: Terms, s: Source)
    requires g == Terms(0, 60, Real(95.0), []) && h == Terms(30, 60, Real(95.0), [])
    requires s == Example("siem")
    ensures Tighter(h, g) && !DefaultsInOrder(h, g) && Turned(casing, h, g, [s], 1)
  {
    hide ReportOf, SourcePasses, ValidSource, TimelessPass;
    GoodSource(s);
    GateIsExact(casing, [s], Defaulted(h), 1);
    GateIsExact(casing, [s], Defaulted(g), 1);
    GoodPasses(s, Defaulted(h));
    GoodPasses(s, Defaulted(g));
    assert !SourcePasses([s][0], Defaulted(g), 1);
  }

  lemma GoodPasses(s: Source, t: Terms)
    requires s.platform == "splunk" && s.normalization == Normalization("CIM", "audit", "1", Real(95.0), true)
    requires s.enabled && s.retentionDays == 45 && s.lastEventAt == Some(1)
    requires t.maximumEventAgeMinutes == 60 && t.minimumNormalizationCoverage == Real(95.0)
    ensures SourcePasses(s, t, 1) <==> t.minimumRetentionDays <= 45
  {
    hide SourcePasses, PlatformOf, Expected, Text.TrimSpace, Text.EqualFold;
    SplunkIsCIM();
    SourcePassesExactly(s, t, 1);
  }

  lemma SplunkIsCIM()
    ensures PlatformOf("splunk") == SPLUNK && Expected(SPLUNK) == "CIM"
    ensures Text.TrimSpace("CIM") == "CIM" && Text.TrimSpace("audit") == "audit" && Text.EqualFold("CIM", "CIM")
  {
    hide Normalized;
    NormalizedFixes(SPLUNK);
    assert EXPECTED_STANDARDS[SPLUNK] == "CIM";
  }

  // A source with 45 days of retention and its last event at time 1.
  function Example(id: string): Source {
    Source(id, "splunk", "SIEM", "audit", true, Some(1), 45, Normalization("CIM", "audit", "1", Real(95.0), true))
  }

  lemma GoodSource(s: Source)
    requires s == Example(s.id) && s.id != "" && Text.IsTrimmed(s.id) && |s.id| <= 64
    ensures ValidSource(s)
  {
    hide Normalized, Text.TrimSpace, Text.ByteLength, Text.IsTrimmed;
    NormalizedFixes(SPLUNK);
    Trimmed();
    Text.Short(s.id);
    Text.Short(s.name);
    Text.Short(s.category);
    Text.Short(s.normalization.standard);
    Text.Short(s.normalization.schema);
    Text.Short(s.normalization.version);
  }

  lemma Trimmed()
    ensures Text.TrimSpace("SIEM") == "SIEM" && Text.TrimSpace("audit") == "audit"
  {
  }

  // Two sources, named s and long s, are accepted as distinct, and one requirement
  // that names s counts both.
  lemma LongSCountsTwice(casing: Text.Casing, t: Terms, sources: seq<Source>)
    requires Text.IsGoCasing(casing)
    requires t == Terms(30, 60, Real(95.0), [Requirement("splunk", "s", "", 2)])
    requires sources == [Example("s"), Example("\U{17F}")]
    ensures Accepts(casing, API_VERSION, KIND, sources, t) && ReportOf(casing, sources, t, 1).compliant
  {
    hide ReportOf, SourcePasses, ValidSource, TimelessPass, CanonicalPlatform, Text.FoldsTo, Text.LowerAll,
      Text.IsGoCasing, LongS;
    LongSOfS();
    LongSIsAnother(casing, "s");
    SameFold(casing, "s");
    GoodSource(sources[0]);
    GoodSource(sources[1]);
    GoodPasses(sources[0], t);
    GoodPasses(sources[1], t);
    GateIsExact(casing, sources, t, 1);
    LongSRequired(t.requirements[0]);
    Counted(casing, t.requirements[0], sources[0], sources[1]);
  }

  lemma LongSOfS()
    ensures HasLetterS("s") && LongS("s") == "\U{17F}"
  {
    assert 's' in "s" && "s"[0 := '\U{17F}'] == "\U{17F}";
  }

  lemma LongSRequired(r: Requirement)
    requires r == Requirement("splunk", "s", "", 2)
    ensures ValidRequirement(r)
  {
    hide Normalized;
    NormalizedFixes(SPLUNK);
    assert Text.TrimSpace("s") == "s";
    Text.Short("s");
  }

  lemma Counted(casing: Text.Casing, r: Requirement, s: Source, t: Source)
    requires Matches(casing, r, s) && Matches(casing, r, t)
    ensures Matching(casing, r, [s, t]) == 2
  {
    hide Matches;
    assert [s, t] == [s] + [t] && [s] == [] + [s];
    CountSnoc([s], t, z => Matches(casing, r, z));
    CountSnoc([], s, z => Matches(casing, r, z));
  }

  // Where the coverage asked for is NaN, no source has it.
  lemma NaNNeverComplies(casing: Text.Casing, sources: seq<Source>, t: Terms, at: int)
    requires Accepts(casing, API_VERSION, KIND, sources, t) && t.minimumNormalizationCoverage.NaN?
    ensures !ReportOf(casing, sources, t, at).compliant
  {
    hide ReportOf, SourcePasses, ValidSource, ValidRequirement, DistinctIds;
    GateIsExact(casing, sources, t, at);
    SourcePassesExactly(sources[0], t, at);
  }
}
