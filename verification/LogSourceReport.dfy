// What a log-source report says, in plain terms: platforms and standards by name,
// each check of a source, the counters, and the limits of a policy.
module LogSourceReport {
  import opened Common
  import opened Counting
  import opened Floats
  import opened LogSource
  import Text

  // ----- platforms by name -----

  const ALIASES: map<string, string> :=
    map["microsoft_sentinel" := "microsoft_sentinel", "azure_sentinel" := "microsoft_sentinel",
        "sentinel" := "microsoft_sentinel", "microsoft" := "microsoft_sentinel",
        "aws_security_lake" := "aws_security_lake", "security_lake" := "aws_security_lake",
        "aws" := "aws_security_lake", "amazon_security_lake" := "aws_security_lake",
        "google_security_operations" := "google_security_operations", "google_secops" := "google_security_operations",
        "chronicle" := "google_security_operations", "gcp_secops" := "google_security_operations",
        "google" := "google_security_operations",
        "splunk" := "splunk", "splunk_enterprise_security" := "splunk", "splunk_es" := "splunk"]

  // The value is the alias in any case, with white space around it, and with hyphens
  // or spaces for underscores.
  ghost predicate SpelledAs(value: string, alias: string) {
    exists p, x, q :: SpelledWith(value, alias, p, x, q)
  }

  predicate SpelledWith(value: string, alias: string, p: string, x: string, q: string) {
    && value == p + x + q && (forall c :: c in p + q ==> Text.IsSpace(c)) && Text.IsTrimmed(x) && Similar(x, alias)
  }

  predicate Similar(x: string, alias: string) {
    |x| == |alias| && forall i :: 0 <= i < |x| ==> alias[i] == if x[i] in "- " then '_' else Text.LowerChar(x[i])
  }

  lemma NormalizedExactly(value: string, alias: string)
    ensures Normalized(value) == alias <==> SpelledAs(value, alias)
  {
    hide Text.IsSpace, Text.LowerChar;
    var x := Text.TrimSpace(value);
    SimilarExactly(x, alias);
    if Normalized(value) == alias {
      var p, q := Text.Trimmed(value);
      assert SpelledWith(value, alias, p, x, q);
    }
    if p, y, q :| SpelledWith(value, alias, p, y, q) {
      Text.TrimsTo(p, y, q);
    }
  }

  lemma SimilarExactly(x: string, alias: string)
    ensures var lower := Text.Lower(x);
            seq(|lower|, i requires 0 <= i < |lower| => if lower[i] == '-' || lower[i] == ' ' then '_' else lower[i])
                == alias
            <==> Similar(x, alias)
  {
    var lower := Text.Lower(x);
    var r := seq(|lower|, i requires 0 <= i < |lower| => if lower[i] == '-' || lower[i] == ' ' then '_' else lower[i]);
    forall i | 0 <= i < |x| ensures r[i] == if x[i] in "- " then '_' else Text.LowerChar(x[i]) {
      assert lower[i] == Text.LowerChar(x[i]);
    }
  }

  lemma NamedExactly(n: string)
    ensures n in ALIASES ==> NamedPlatform(n) == Some(ALIASES[n])
    ensures n !in ALIASES ==> NamedPlatform(n) == None
  {
  }

  // A value stands for a platform exactly if it is spelled as one of its aliases.
  lemma PlatformsAre(value: string)
    ensures forall alias :: alias in ALIASES && SpelledAs(value, alias) ==>
            CanonicalPlatform(value) == Some(ALIASES[alias])
    ensures (forall alias :: alias in ALIASES ==> !SpelledAs(value, alias)) ==> CanonicalPlatform(value) == None
  {
    hide SpelledAs, Normalized, NamedPlatform;
    NamedExactly(Normalized(value));
    forall alias | alias in ALIASES ensures SpelledAs(value, alias) <==> Normalized(value) == alias {
      NormalizedExactly(value, alias);
    }
  }

  // The standard a platform is expected to normalise to.
  lemma StandardsAre()
    ensures Expected("microsoft_sentinel") == "ASIM" && Expected("aws_security_lake") == "OCSF"
    ensures Expected("google_security_operations") == "UDM" && Expected("splunk") == "CIM"
    ensures forall platform :: platform in EXPECTED_STANDARDS <==>
              platform in {"microsoft_sentinel", "aws_security_lake", "google_security_operations", "splunk"}
  {
  }

  // ----- the checks of a source -----

  // The seven checks in order: what each is called and when it passes, for a source
  // on a known platform.
  lemma ChecksMean(s: Source, t: Terms, at: int)
    ensures var c := SourceChecks(s, t, at);
            && c[0].name == "enabled" && (c[0].status == Pass <==> s.enabled)
            && c[1].name == "retention" && (c[1].status == Pass <==> s.retentionDays >= t.minimumRetentionDays)
            && c[2].name == "normalization_standard"
            && (c[2].status == Pass
                <==> Text.EqualFold(Text.TrimSpace(s.normalization.standard), Expected(PlatformOf(s.platform))))
            && c[3].name == "normalization_schema"
            && (c[3].status == Pass <==> Text.TrimSpace(s.normalization.schema) != "")
            && c[4].name == "normalization_coverage"
            && (c[4].status == Pass <==> AtLeast(s.normalization.coveragePercent, t.minimumNormalizationCoverage))
            && c[5].name == "normalization_validation" && (c[5].status == Pass <==> s.normalization.validated)
            && forall k :: 0 <= k < 7 ==> c[k].sourceId == s.id && c[k].platform == PlatformOf(s.platform)
  {
    hide Text.TrimSpace, Text.EqualFold, PlatformOf, Expected;
  }

  // ----- the counters -----

  // No last event, or one that is still to come.
  predicate NoPastEvent(s: Source, at: int) { s.lastEventAt.None? || s.lastEventAt.value > at }

  predicate Stale(s: Source, t: Terms, at: int) {
    s.lastEventAt.Some? && at > s.lastEventAt.value + t.maximumEventAgeMinutes * 60_000_000_000
  }

  function One(fails: bool): nat { if fails then 1 else 0 }

  // How many of its requirements a source fails.
  function Failures(s: Source, t: Terms, at: int): nat {
    One(!s.enabled) + One(s.retentionDays < t.minimumRetentionDays)
    + One(!Text.EqualFold(Text.TrimSpace(s.normalization.standard), Expected(PlatformOf(s.platform))))
    + One(Text.TrimSpace(s.normalization.schema) == "")
    + One(!AtLeast(s.normalization.coveragePercent, t.minimumNormalizationCoverage))
    + One(!s.normalization.validated) + One(Stale(s, t, at))
  }

  function AllFailures(sources: seq<Source>, t: Terms, at: int): nat {
    if sources == [] then 0 else AllFailures(sources[..|sources| - 1], t, at) + Failures(sources[|sources| - 1], t, at)
  }

  function IsFail(c: Check): bool { c.status == Fail }
  function IsUnknown(c: Check): bool { c.status == Unknown }

  lemma {:induction false} CountConcat(x: seq<Check>, y: seq<Check>, p: Check -> bool)
    ensures Count(x + y, p) == Count(x, p) + Count(y, p)
    decreases |y|
  {
    if y == [] {
      assert x + y == x;
    } else {
      var n := |y| - 1;
      assert (x + y)[..|x + y| - 1] == x + y[..n];
      CountConcat(x, y[..n], p);
    }
  }

  lemma CountSeven(c: seq<Check>, p: Check -> bool)
    requires |c| == 7
    ensures Count(c, p) == One(p(c[0])) + One(p(c[1])) + One(p(c[2])) + One(p(c[3])) + One(p(c[4])) + One(p(c[5]))
            + One(p(c[6]))
  {
    assert c[..0] == [] && c[..7] == c;
    CountTake(c, 0, p);
    CountTake(c, 1, p);
    CountTake(c, 2, p);
    CountTake(c, 3, p);
    CountTake(c, 4, p);
    CountTake(c, 5, p);
    CountTake(c, 6, p);
  }

  lemma CountTake(c: seq<Check>, n: nat, p: Check -> bool)
    requires n < |c|
    ensures Count(c[..n + 1], p) == Count(c[..n], p) + One(p(c[n]))
  {
    assert c[..n + 1][..n] == c[..n];
  }

  lemma SourceCounts(s: Source, t: Terms, at: int)
    requires 1 <= t.maximumEventAgeMinutes <= 525600
    ensures Count(SourceChecks(s, t, at), IsFail) == Failures(s, t, at)
    ensures Count(SourceChecks(s, t, at), IsUnknown) == One(NoPastEvent(s, at))
  {
    hide SourceChecks, PlatformOf, Text.TrimSpace, Text.EqualFold, Expected;
    var c := SourceChecks(s, t, at);
    ChecksMean(s, t, at);
    FreshnessMeans(s, t, at);
    CountSeven(c, IsFail);
    CountSeven(c, IsUnknown);
    PassOrFail(c);
  }

  lemma PassOrFail(c: seq<Check>)
    requires forall k :: 0 <= k < |c| - 1 ==> c[k].status != Unknown
    ensures forall k :: 0 <= k < |c| - 1 ==> (IsFail(c[k]) <==> c[k].status != Pass)
  {
  }

  lemma {:induction false} SourcesCount(sources: seq<Source>, t: Terms, at: int)
    requires 1 <= t.maximumEventAgeMinutes <= 525600
    ensures Count(ChecksOf(sources, t, at), IsFail) == AllFailures(sources, t, at)
    ensures Count(ChecksOf(sources, t, at), IsUnknown) == Count(sources, s => NoPastEvent(s, at))
    decreases |sources|
  {
    hide SourceChecks, Failures, NoPastEvent;
    if sources != [] {
      var n := |sources| - 1;
      SourcesCount(sources[..n], t, at);
      SourceCounts(sources[n], t, at);
      CountConcat(ChecksOf(sources[..n], t, at), SourceChecks(sources[n], t, at), IsFail);
      CountConcat(ChecksOf(sources[..n], t, at), SourceChecks(sources[n], t, at), IsUnknown);
    }
  }

  predicate Unmet(casing: Text.Casing, r: Requirement, sources: seq<Source>) {
    Matching(casing, r, sources) < r.minimumCount
  }

  lemma {:induction false} RequirementsCount(casing: Text.Casing, rs: seq<Requirement>, checks: seq<Check>,
      sources: seq<Source>)
    requires |checks| == |rs| && forall i :: 0 <= i < |rs| ==> checks[i] == RequirementCheck(casing, rs[i], sources)
    ensures Count(checks, IsFail) == Count(rs, r => Unmet(casing, r, sources))
    ensures Count(checks, IsUnknown) == 0
    decreases |rs|
  {
    hide Matching, PlatformOf;
    if rs != [] { RequirementsCount(casing, rs[..|rs| - 1], checks[..|rs| - 1], sources); }
  }

  // How many sources the requirement asks for are there: on its platform and, where
  // given, with its identifier and category, regardless of case.
  predicate Meets(casing: Text.Casing, r: Requirement, s: Source) {
    && PlatformOf(s.platform) == PlatformOf(r.platform)
    && (r.sourceId != "" ==> Text.FoldsTo(casing, s.id, r.sourceId))
    && (r.category != "" ==> Text.FoldsTo(casing, s.category, r.category))
  }

  lemma MatchingMeans(casing: Text.Casing, r: Requirement, sources: seq<Source>)
    ensures Matching(casing, r, sources) == |set i | 0 <= i < |sources| && Meets(casing, r, sources[i])|
  {
    hide PlatformOf, Text.FoldsTo;
    CountIsCardinality(sources, s => Matches(casing, r, s), set i | 0 <= i < |sources| && Meets(casing, r, sources[i]));
  }

  // The summary: all sources, those that pass, what fails in sources and
  // requirements, and the sources whose freshness cannot be told.
  lemma SummaryMeans(casing: Text.Casing, sources: seq<Source>, t: Terms, at: int)
    requires 1 <= t.maximumEventAgeMinutes <= 525600
    ensures var summary := ReportOf(casing, sources, t, at).summary;
            && summary.sources == |sources|
            && summary.compliantSources ==
                 |set i | 0 <= i < |sources| && Failures(sources[i], t, at) == 0 && !NoPastEvent(sources[i], at)|
            && summary.unknownChecks == |set i | 0 <= i < |sources| && NoPastEvent(sources[i], at)|
            && summary.failedChecks ==
                 AllFailures(sources, t, at)
                 + |set i | 0 <= i < |t.requirements| && Unmet(casing, t.requirements[i], sources)|
  {
    hide Failures, NoPastEvent, Unmet, SourcePasses, ReportOf;
    SummaryCounts(casing, sources, t, at);
    PassesCount(sources, t, at);
    CountIsCardinality(sources, s => NoPastEvent(s, at), set i | 0 <= i < |sources| && NoPastEvent(sources[i], at));
    CountIsCardinality(t.requirements, r => Unmet(casing, r, sources),
                       set i | 0 <= i < |t.requirements| && Unmet(casing, t.requirements[i], sources));
  }

  lemma SummaryCounts(casing: Text.Casing, sources: seq<Source>, t: Terms, at: int)
    requires 1 <= t.maximumEventAgeMinutes <= 525600
    ensures var summary := ReportOf(casing, sources, t, at).summary;
            && summary.sources == |sources|
            && summary.compliantSources == Count(sources, s => SourcePasses(s, t, at))
            && summary.unknownChecks == Count(sources, s => NoPastEvent(s, at))
            && summary.failedChecks == AllFailures(sources, t, at)
                + Count(t.requirements, r => Unmet(casing, r, sources))
  {
    hide Failures, NoPastEvent, Unmet, SourcePasses, ChecksOf, RequirementCheck, AllFailures, Count, AllPass;
    var done, more := ChecksOf(sources, t, at), RequirementChecks(casing, sources, t);
    SourcesCount(sources, t, at);
    RequirementsCount(casing, t.requirements, more, sources);
    CountConcat(done, more, IsFail);
    CountConcat(done, more, IsUnknown);
    SameCount(done + more);
  }

  lemma PassesCount(sources: seq<Source>, t: Terms, at: int)
    requires 1 <= t.maximumEventAgeMinutes <= 525600
    ensures Count(sources, s => SourcePasses(s, t, at)) ==
            |set i | 0 <= i < |sources| && Failures(sources[i], t, at) == 0 && !NoPastEvent(sources[i], at)|
  {
    hide Failures, NoPastEvent, SourcePasses;
    forall i | 0 <= i < |sources|
      ensures SourcePasses(sources[i], t, at) <==> Failures(sources[i], t, at) == 0 && !NoPastEvent(sources[i], at)
    {
      PassesMeans(sources[i], t, at);
    }
    CountIsCardinality(sources, s => SourcePasses(s, t, at),
                       set i | 0 <= i < |sources| && Failures(sources[i], t, at) == 0 && !NoPastEvent(sources[i], at));
  }

  lemma SameCount(checks: seq<Check>)
    ensures Count(checks, (c: Check) => c.status == Fail) == Count(checks, IsFail)
    ensures Count(checks, (c: Check) => c.status == Unknown) == Count(checks, IsUnknown)
    decreases |checks|
  {
    if checks != [] { SameCount(checks[..|checks| - 1]); }
  }

  lemma PassesMeans(s: Source, t: Terms, at: int)
    requires 1 <= t.maximumEventAgeMinutes <= 525600
    ensures SourcePasses(s, t, at) <==> Failures(s, t, at) == 0 && !NoPastEvent(s, at)
  {
    hide Text.TrimSpace, Text.EqualFold, PlatformOf, Expected, SourcePasses;
    SourcePassesExactly(s, t, at);
  }

  // ----- the limits -----

  // Each limit of an acceptable policy may be changed within its range and no further.
  lemma LimitsAre(casing: Text.Casing, sources: seq<Source>, t: Terms)
    requires Accepts(casing, "attestor.trisoc.io/v1alpha1", "LogSourceInventory", sources, t)
    ensures forall n :: Accepts(casing, API_VERSION, KIND, sources, t.(minimumRetentionDays := n)) <==> 1 <= n <= 3650
    ensures forall n ::
              Accepts(casing, API_VERSION, KIND, sources, t.(maximumEventAgeMinutes := n)) <==> 1 <= n <= 525600
    ensures forall f :: Accepts(casing, API_VERSION, KIND, sources, t.(minimumNormalizationCoverage := f))
                        <==> f.NaN? || (f.Real? && 0.0 < f.value <= 100.0)
  {
    hide ValidSource, ValidRequirement, DistinctIds;
  }

  lemma SourceLimitsAre(s: Source)
    requires ValidSource(s)
    ensures forall n :: ValidSource(s.(retentionDays := n)) <==> 0 <= n <= 3650
    ensures forall x :: ValidSource(s.(name := x)) <==> Text.TrimSpace(x) != "" && Text.ByteLength(x) <= 256
    ensures forall x :: ValidSource(s.(category := x)) <==> Text.TrimSpace(x) != "" && Text.ByteLength(x) <= 128
    ensures forall x :: ValidSource(s.(id := x)) <==> x != "" && Text.IsTrimmed(x) && Text.ByteLength(x) <= 256
    ensures forall f :: ValidSource(s.(normalization := s.normalization.(coveragePercent := f)))
                        <==> f.NaN? || (f.Real? && 0.0 <= f.value <= 100.0)
  {
    hide CanonicalPlatform, Text.TrimSpace, Text.ByteLength, Text.IsTrimmed;
  }

  // Not blank, and of no more than so many bytes.
  predicate IsText(x: string, bytes: nat) { Text.TrimSpace(x) != "" && Text.ByteLength(x) <= bytes }

  lemma RequirementLimitsAre(r: Requirement)
    requires ValidRequirement(r)
    ensures forall n :: ValidRequirement(r.(minimumCount := n)) <==> 1 <= n <= 10000
    ensures forall x :: ValidRequirement(r.(sourceId := x, category := "")) <==> IsText(x, 256)
    ensures forall x :: ValidRequirement(r.(sourceId := "", category := x)) <==> IsText(x, 128)
  {
    hide CanonicalPlatform;
    assert Text.TrimSpace("") == "" && Text.ByteLength("") == 0;
    hide Text.TrimSpace, Text.ByteLength;
  }

  // ----- the rest of the report -----

  // Each source is reported under its identifier and platform with its checks, each
  // requirement as met by enough sources or failed.
  lemma ReportMeans(casing: Text.Casing, sources: seq<Source>, t: Terms, at: int)
    requires 1 <= t.maximumEventAgeMinutes <= 525600
    ensures var r := ReportOf(casing, sources, t, at);
            && r.evaluatedAt == at && r.policy == t && r.expectedStandards == EXPECTED_STANDARDS
            && |r.sources| == |sources| && |r.requirements| == |t.requirements|
            && (forall i :: 0 <= i < |sources| ==>
                  && r.sources[i].id == sources[i].id && r.sources[i].platform == PlatformOf(sources[i].platform)
                  && r.sources[i].checks == SourceChecks(sources[i], t, at)
                  && (r.sources[i].compliant <==> Failures(sources[i], t, at) == 0 && !NoPastEvent(sources[i], at)))
            && forall i :: 0 <= i < |t.requirements| ==>
                 && r.requirements[i].name == "required_source"
                 && r.requirements[i].platform == PlatformOf(t.requirements[i].platform)
                 && r.requirements[i].status == if Unmet(casing, t.requirements[i], sources) then Fail else Pass
  {
    hide Failures, NoPastEvent, SourcePasses, SourceChecks, PlatformOf, Matching, ChecksOf, AllPass, Count;
    forall i | 0 <= i < |sources|
      ensures SourcePasses(sources[i], t, at) <==> Failures(sources[i], t, at) == 0 && !NoPastEvent(sources[i], at)
    {
      PassesMeans(sources[i], t, at);
    }
  }

  // What a policy leaves at zero is filled in: ninety days, sixty minutes, ninety-five
  // per cent, one source; and platforms get their canonical names.
  lemma DefaultsAre(t: Terms)
    ensures var d := Defaulted(t);
            && d.minimumRetentionDays == (if t.minimumRetentionDays == 0 then 90 else t.minimumRetentionDays)
            && d.maximumEventAgeMinutes == (if t.maximumEventAgeMinutes == 0 then 60 else t.maximumEventAgeMinutes)
            && (t.minimumNormalizationCoverage == Real(0.0) ==> d.minimumNormalizationCoverage == Real(95.0))
            && (t.minimumNormalizationCoverage != Real(0.0) ==>
                d.minimumNormalizationCoverage == t.minimumNormalizationCoverage)
            && |d.requirements| == |t.requirements|
            && forall i :: 0 <= i < |t.requirements| ==>
                 var r, q := d.requirements[i], t.requirements[i];
                 && r.sourceId == q.sourceId && r.category == q.category
                 && r.minimumCount == (if q.minimumCount == 0 then 1 else q.minimumCount)
                 && r.platform == (var p := CanonicalPlatform(q.platform); if p.Some? then p.value else q.platform)
  {
    hide CanonicalPlatform;
  }

  // Sources and requirements may be exchanged for valid ones, up to a number.
  lemma NumbersAre(casing: Text.Casing, sources: seq<Source>, t: Terms)
    requires Accepts(casing, API_VERSION, KIND, sources, t)
    ensures forall rs :: Accepts(casing, API_VERSION, KIND, sources, t.(requirements := rs))
                         <==> |rs| <= 1000 && forall r :: r in rs ==> ValidRequirement(r)
    ensures forall ss :: Accepts(casing, API_VERSION, KIND, ss, t)
                         <==> 1 <= |ss| <= 10000 && DistinctIds(casing, ss) && forall s :: s in ss ==> ValidSource(s)
  {
    hide ValidSource, ValidRequirement, DistinctIds;
  }

  lemma TextLimitsAre(s: Source, r: Requirement)
    requires ValidSource(s) && ValidRequirement(r)
    ensures forall x :: ValidSource(s.(platform := x)) <==> CanonicalPlatform(x).Some?
    ensures forall x :: ValidRequirement(r.(platform := x)) <==> CanonicalPlatform(x).Some?
    ensures forall x :: ValidSource(s.(normalization := s.normalization.(standard := x))) <==> Text.ByteLength(x) <= 32
    ensures forall x :: ValidSource(s.(normalization := s.normalization.(schema := x))) <==> Text.ByteLength(x) <= 256
    ensures forall x :: ValidSource(s.(normalization := s.normalization.(version := x))) <==> Text.ByteLength(x) <= 64
  {
    hide CanonicalPlatform, Text.TrimSpace, Text.ByteLength, Text.IsTrimmed;
  }
}
