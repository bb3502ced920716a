# TriSOC decision engine: model and proofs

TriSOC decides things about security programmes: whether a snapshot has drifted,
what of an evidence record may be stored, whether a SOC maturity assessment or a
log-source inventory passes its gate, which control version applies and with what
verdict. This project models that decision code and proves what it promises, for
all documents, records, assessments, inventories, catalogues and command lines.

## Layout

| file | models |
|---|---|
| `Common.dfy`, `Text.dfy`, `Sorting.dfy` | options, counting, comparisons of floats, Go's string operations, a sort that promises no more than `sort.Slice` |
| `Json.dfy` | JSON trees, shared by drift, redaction and applicability; a tree is determined by its views along key paths |
| `DriftModel.dfy` | where two trees differ, dotted paths, deletion, all on values |
| `DriftPatch.dfy`, `DriftFaithful.dfy`, `DriftOrder.dfy`, `DriftIgnore.dfy`, `DriftReport.dfy` | what the change list and the drift flag mean, for all documents |
| `DriftEngine.dfy` | `Compare` and `CanonicalHash` as they run: deletion in place in a heap of maps, a shared change list, a sort |
| `Redaction.dfy`, `Hiding.dfy`, `HidingSteps.dfy`, `Secrets.dfy`, `Evidence.dfy` | string redaction, what it hides and what not, which names and texts are secrets in plain terms, and record redaction |
| `Averages.dfy`, `Maturity.dfy`, `MaturityGate.dfy`, `MaturityTargets.dfy`, `MaturityReport.dfy` | the SOC-CMM gate, and its report from the answers given |
| `Versions.dfy`, `Controls.dfy`, `ControlStore.dfy` | version order, catalogue loading, indexing, selection |
| `LogSource.dfy`, `LogSourceReport.dfy` | the log-source gate, and its report in plain terms |
| `Attestation.dfy`, `Conditions.dfy` | path lookup, conditions, verdicts, the attest commands' result loops; what each operator means |
| `Yaml.dfy` | the bounded walk over parsed YAML |
| `Cli.dfy` | comma-separated lists and the AWS command line |

Methods have the loops, updates and early returns of the Go functions. Each is
proved against a function or predicate on values, and the main theorems are
lemmas about that function or predicate. The leaves of those definitions (orders,
words, character classes, tables, operators, checks, counters, limits) are each
characterised a second time, by positions, decompositions, cardinalities or lists.

## What turned out differently from what the code's readers may expect

* The drift flag and the change list can disagree: a member that is explicitly
  `null` on one side and absent on the other changes the hash but is not listed
  (`DriftReport.NullMemberDriftsUnlisted`). `DriftReport.DriftAgainstChanges`
  states exactly when they agree, over numbers without signed zero.
* A location is faithful if no key in it holds a dot and no empty key begins it
  unless alone: exactly those have a dotted path that leads back to them
  (`DriftModel.PathIsFaithful`); `DriftModel.DottedKeysCollide` names two
  locations with one path. With any other difference the list is never a patch
  (`DriftReport.ReportIsAPatch`), its order can depend on map iteration
  (`DriftOrder.DottedKeysLoseOrder`, `DriftReport.ReportIsUnique`), and ignoring
  does not reach: a key with a dot cannot be ignored by its path
  (`DriftReport.DottedKeyNotIgnored`, `DriftReport.IgnoredPathsUnlisted`).
* A pre-release is ordered after its release, pre-releases of one triple are
  ordered as they are spelled, and build metadata behind the numbers makes the patch
  count as zero, against items 11 and 10 of the specification of Semantic Versioning
  2.0.0 (`Versions.PreReleaseAfterRelease`, `Versions.OrderIsNumeric`,
  `Versions.BuildMetadataLosesPatch`). `Versions.BuildMetadataExactly` says, for all
  valid versions of different triples below 2^63, which pairs are ordered
  numerically; 1.0.2+a and 1.0.10+b are not (`Versions.BuildTwoAfterTen`).
* `docs/MICROSOFT_SENTINEL.md:25-27` and lines 169-170 of the repository's
  `README.md` say a collection error is never coerced to pass or fail. On AWS that
  holds (`Attestation.OnlyEvidenceDecides`). On Azure the collection error is
  overwritten before it is tested (`cmd/trisoc/main.go:391`, likewise
  `internal/mcp/server.go:326`), and the collector returns the zero snapshot with
  it (`providers/azure/discover.go:20-55`). `Attestation.AzureKeepsPromise` states
  when the promise is kept, in both its readings, and
  `Attestation.AzureJudgesFailedCollection` shows one shipped control failing and
  another passing. The model follows the code.
* `docs/SOC_MATURITY.md:40-41` says that an assessment cannot lower the default
  targets and that every aspect must meet its target. A minimum written as `.nan`
  passes the range tests and every score passes it
  (`MaturityTargets.NaNLowersTargets`); otherwise the promise is kept
  (`MaturityTargets.TargetsHoldExactly`). In the log-source gate the same mistake
  is harmless (`LogSource.NaNNeverComplies`).
* Source identifiers are made distinct by lower case and compared by case folding.
  A source named with the long s, U+017F, counts as one named with s
  (`LogSource.LongSCountsTwice`, `LogSource.NamedSourceExactly`).
* `equals` matches no evidence at all if the condition's value is an unquoted
  timestamp, a map with keys that are not strings, NaN or an infinity, or a list or
  map that contains one of these or an integer: evidence holds none of them
  (`Attestation.EqualsMeansEquality`).
* The value of a sensitive assignment is hidden exactly when no bearer or basic
  token in the name runs on through the equals sign and the shown name is still
  sensitive (`Hiding.ValueIsHiddenExactly`). In `token Bearer abc=x LEAK` the token
  swallows the equals sign, and the rest is shown (`Hiding.NamedTokenLeaks`).
* Scores that all meet a minimum average to at least that minimum exactly when it
  is not rounded down (`Averages.AverageReachesExactly`).
* Tightening a policy as it is written can turn an inventory compliant where a
  limit was left at zero, which stands for a stricter default
  (`LogSource.ZeroLimitTurns`, `LogSource.TighteningExactly`).
* Two controls can share an `id@version` key when an identifier holds an at-sign
  (`ControlStore.KeysCanCollide`, `ControlStore.KeyIsExact`); valid identifiers hold
  none, which suffices between them.

## Model

| member | source | states |
|---|---|---|
| `DriftReport.ReportIsAPatch` | internal/drift/compare.go:27-52 | For all documents, ignored paths and hashes: applying a report's changes (split the path, set the current value, delete when it is nil) to the previous document gives the current one, up to null members, if and only if every difference of the given documents that is not ignored is faithful, that is, lies where its path says; and gives it exactly if and only if moreover every null member that is lost or invented is at or below an ignored path |
| `DriftFaithful.DiffIsAPatch` | internal/drift/compare.go:87-111 | The same for the output of diff alone on any two objects, in whatever order it lists the differences |
| `DriftFaithful.RepairsFaithfully` | internal/drift/compare.go:87-111 | The hard half: if the list repairs the document in any order, even by coincidence and only up to null members, then no difference has a dotted key or a leading empty key |
| `DriftPatch.FaithfulDiffIsAPatch` | internal/drift/compare.go:87-111 | The other half: where all differences are faithful the list always repairs the document up to null members |
| `DriftModel.PathIsFaithful` | internal/drift/compare.go:102-105 | The dotted path of a location splits back into its keys exactly when it has keys, no key holds a dot, and an empty key does not begin a longer location |
| `DriftModel.PlainIsFaithful` | internal/drift/compare.go:102-105 | Over non-empty, dot-free keys every difference is faithful |
| `DriftReport.NullMemberUnpatched` | internal/drift/compare.go:88-110 | Input on which the list is no patch: a null member appears |
| `DriftReport.DottedKeyUnpatched` | internal/drift/compare.go:102-105 | Input on which the list is no patch even up to null members: a key holds a dot |
| `DriftPatch.EmptyDiffMeaning` | internal/drift/compare.go:88-110 | The change list is empty exactly when the documents agree after dropping null members along the object spine (not inside arrays); on null-free spines exactly when they are equal |
| `DriftReport.DriftAgainstChanges` | internal/drift/compare.go:48-49 | For a collision-free hash and any two documents: the flag holds iff what remains of them differs, the list is empty iff it agrees up to null members, a listed change implies drift, and between null-free objects flag and list agree |
| `DriftReport.NullMemberDriftsUnlisted` | internal/drift/compare.go:88-110 | Input on which flag and list disagree: a null member appears, drift is reported, nothing is listed |
| `DriftReport.ReportIsUnique` | internal/drift/compare.go:27-52 | For all documents: although keys are visited in random order and ties may be sorted in any order, a report is the only one its documents can get, exactly when differences of the given documents that are not ignored and share a path agree in both values |
| `DriftOrder.DeterministicExactly` | internal/drift/compare.go:49-50 | The same for a sorted change list |
| `DriftOrder.FaithfulIsInjective` | internal/drift/compare.go:102-105 | Faithful differences never share a path, and differences that never share one are told apart |
| `DriftOrder.ChangesAreAnAntichain` | internal/drift/compare.go:15-19 | For all documents: each change holds the two unequal, not-both-object values found at its location, no location lies at or below another, and a change's path leads back to its location exactly where that is faithful |
| `DriftOrder.PathsIncrease` | internal/drift/compare.go:50 | The paths of a sorted change list strictly increase exactly when no two differences of the documents share one |
| `DriftReport.ReportSwaps` | internal/drift/compare.go:27-52 | For all documents: comparing the other way round exchanges the hashes and lists the same changes with their two values exchanged, and in the same order exactly when reports are unique |
| `DriftIgnore.IgnoringFilters` | internal/drift/compare.go:36-47 | Ignoring paths filters the differences of two objects: those that are left are those neither at nor below an ignored path |
| `DriftIgnore.IgnoringFiltersNulls` | internal/drift/compare.go:36-47 | Ignoring paths filters the null members that are lost or invented in the same way |
| `DriftPatch.NullSafeExactly` | internal/drift/compare.go:87-111 | The recursive condition on null members holds exactly when none is lost or invented at any position below objects that both documents share |
| `DriftReport.DriftOutsideIgnored` | internal/drift/compare.go:36-49 | Nothing is listed exactly when every difference of the given documents is at or below an ignored path; and with a collision-free hash two objects do not drift exactly when they agree at every other position |
| `DriftReport.IgnoredPathsUnlisted` | internal/drift/compare.go:36-49 | The changes are found exactly at the differences of the given documents that are not at or below an ignored path; their printed paths say otherwise exactly when one of these is unfaithful and spelled like an ignored path |
| `DriftReport.DottedKeyNotIgnored` | internal/drift/compare.go:36-39 | Input on which that happens: a key with a dot cannot be ignored, its path is listed all the same |
| `DriftOrder.SameMultiset` | internal/drift/compare.go:94-110 | Whatever the keys and the visiting order, diff lists the same changes equally often |
| `DriftOrder.DottedKeysLoseOrder` | internal/drift/compare.go:49-50 | Two documents, one with a dot in a key, whose changes can be sorted in two ways |
| `DriftIgnore.RemoveOrderIrrelevant` | internal/drift/compare.go:36-39 | Ignoring the same set of paths in any order and any number of times leaves the same document |
| `DriftIgnore.RemoveTwice` | internal/drift/compare.go:36-39 | Ignoring a list of paths twice is ignoring it once |
| `DriftIgnore.SameOutsideIgnored` | internal/drift/compare.go:36-47 | Two documents become equal by ignoring paths exactly when they agree at every position not at or below one of them |
| `DriftModel.RemoveView` | internal/drift/compare.go:72-86 | Deleting a path hides it and all below it and leaves every other position of an object document as it was; a path that leads through a non-object deletes nothing |
| `DriftModel.RemoveAllView` | internal/drift/compare.go:36-39 | The same for a list of paths, positions at or below any of them being hidden |
| `DriftEngine.Remove` | internal/drift/compare.go:72-86 | The walk that deletes one key of one nested mutable map, in place, turns the tree of maps into the document with that dotted path deleted, keeps the tree well formed and adds no map to it; a nil map stays nil |
| `DriftEngine.RemovePaths` | internal/drift/compare.go:36-39 | The loop over ignored paths on two disjoint heaps of maps |
| `DriftEngine.Diff` | internal/drift/compare.go:87-101 | What diff appends to the shared list: every differing location once, with its path and both values, after what was there before |
| `DriftEngine.DiffMembers` | internal/drift/compare.go:94-110 | The same for two objects, whatever order the keys are visited in |
| `DriftEngine.Normalise` | internal/drift/compare.go:53-63 | Accepts exactly objects and null, and builds a fresh tree of maps that stands for the document |
| `DriftEngine.Compare` | internal/drift/compare.go:27-52 | Succeeds exactly on two documents; the hashes are those of what remains of the previous and of the current one, the flag says whether they differ, neighbouring changes stand in the order of their paths' code points, and the result satisfies everything the report lemmas assume |
| `Text.LessByPosition` | internal/drift/compare.go:50 | Strings are ordered as in a dictionary: one comes before another iff they agree up to a place where the one ends or has the smaller code point |
| `DriftOrder.NeighboursInOrder` | internal/drift/compare.go:50 | In a sorted change list each path is that of the next change or comes before it by code points |
| `DriftPatch.PruneView` | internal/drift/compare.go:87-111 | What counts as equal up to null members: at every position, the document without anything that is null or has a null on the way |
| `DriftEngine.CanonicalHash` | internal/drift/compare.go:112-121 | Is the hash of the document without the ignored paths, which is the hash Compare reports of it; the same error on a non-document |
| `Redaction.RedactStringProjects` | internal/evidence/evidence.go:84-91 | Redacting twice is redacting once; a string is left alone exactly when it carries no credential and, if it names a secret and has an equals sign, only the mark follows the first one; every result is such a string |
| `Redaction.MatchSpells` | internal/evidence/evidence.go:31 | The credential matcher finds a match exactly where some scheme word, white space and token character are spelled |
| `Secrets.SensitiveExactly` | internal/evidence/evidence.go:30 | A name is sensitive iff it contains one of the seven words, or one of the four pairs with nothing or one character other than a line end between them, each letter in either case or as long s or Kelvin sign, with any text around |
| `Secrets.CleanExactly` | internal/evidence/evidence.go:31 | A text is clean iff it has no bearer or basic, in either case and after no word character, followed by white space and a token character, the characters being listed one by one |
| `Secrets.CleanTextShows` | internal/evidence/evidence.go:84-91 | Text without a credential is shown as it is, unless it names a secret and has an equals sign: then what follows the first one is replaced by the mark |
| `Secrets.SecretAssignment` | internal/evidence/evidence.go:84-91 | An assignment to a name that contains a secret word or pair, without a credential up to its equals sign, shows the name and the mark |
| `Secrets.CredentialShows` | internal/evidence/evidence.go:84-91 | A credential, spelled out as scheme word, white space and token, after text without one shows the scheme word and the mark, and the rest is redacted on its own |
| `Secrets.PasswordIsHidden` | internal/evidence/evidence.go:84-91 | password=hunter2 is shown as password=[REDACTED] |
| `Redaction.ReplaceClean` | internal/evidence/evidence.go:84-91 | No credential is left, and none newly arises, after the replacement of all matches |
| `Redaction.ReplaceFixes` | internal/evidence/evidence.go:84-91 | The replacement leaves text without a credential as it is |
| `Redaction.CredentialIsInvisible` | internal/evidence/evidence.go:84-91 | A credential after credential-free text is shown as its scheme word and the mark; the rest of the string is redacted on its own |
| `Redaction.CredentialsIndistinguishable` | internal/evidence/evidence.go:84-91 | Strings that differ only in a credential's token and white space redact to the same string |
| `Hiding.ValueIsHiddenExactly` | internal/evidence/evidence.go:84-91 | The value assigned to a name has no influence on the redacted string, exactly when no token of a credential in the name runs on through the equals sign and the name as it is shown still names a secret; the result is then that name and the mark |
| `Hiding.ValueLeaks` | internal/evidence/evidence.go:84-91 | Where a token does run on, a value behind a space that carries no credential or equals sign of its own is shown in full |
| `Hiding.NamedTokenLeaks` | internal/evidence/evidence.go:84-91 | Input on which a secret leaks although its name is sensitive: token Bearer abc=x LEAK |
| `Redaction.AssignmentKeepsName` | internal/evidence/evidence.go:84-91 | A sensitive assignment is shown as its name, as written, and the mark, exactly when the text up to the equals sign carries no credential |
| `HidingSteps.RedactionHidesExactly` | internal/evidence/evidence.go:84-91 | Two strings redact to the same string exactly when they can be made equal by hiding secrets one at a time: a credential after clean text, or what follows the first equals sign of a clean string that names a secret |
| `Evidence.RevealsExactly` | internal/evidence/evidence.go:52-82 | Non-interference both ways: two trees redact to the same tree if and only if they have the same shape and agree, through objects and arrays, everywhere but beneath sensitive keys and, within strings, up to such secrets |
| `Evidence.RecordRevealsExactly` | internal/evidence/evidence.go:33-50 | Two records have the same canonical form if and only if they agree but for secrets in query, collector identity, explanation and configuration; their hashes agree then for every digest, and only then for a collision-free one |
| `Evidence.SecretsAreIndistinguishable` | internal/evidence/evidence.go:52-82 | Trees that differ only in values of sensitive keys, at any depth, are among those |
| `Evidence.HashHidesSecrets` | internal/evidence/evidence.go:33-41 | Records whose configurations differ only beneath sensitive keys have the same canonical record and the same hash, for any digest |
| `Evidence.TreeIdempotent` | internal/evidence/evidence.go:52-82 | Redacting a tree twice is redacting it once |
| `Evidence.RecordIdempotent` | internal/evidence/evidence.go:43-50 | Redacting a record twice is redacting it once |
| `Evidence.RedactedView` | internal/evidence/evidence.go:52-82 | Position by position: where no key is sensitive the shape stays and the value is redacted; a sensitive member becomes the mark with nothing left below it; nothing appears |
| `Evidence.RedactMap` | internal/evidence/evidence.go:52-65 | The loop that fills a fresh map, in any key order, keeps the keys, puts the mark under every key that contains one of the secret words or pairs, in any case and with any text around, and the redacted value under every other |
| `Evidence.RedactValue` | internal/evidence/evidence.go:67-82 | Likewise for any value, arrays element by element |
| `Evidence.Redact` | internal/evidence/evidence.go:43-50 | Returns a record that differs from the given one in secrets only, that redacting again leaves as it is, and whose configuration has the mark under every key that names a secret |
| `Averages.AverageIgnoresOrder` | internal/maturity/evaluate.go:319-330 | Scores that are permutations of each other have the same average whatever addition does, associative or not |
| `Averages.AverageIsClose` | internal/maturity/evaluate.go:319-330 | In exact arithmetic the average is within half a hundredth of the mean |
| `Averages.AverageIsNearest` | internal/maturity/evaluate.go:319-330 | The average in hundredths is the integer nearest to a hundred times the mean, halves being rounded away from zero |
| `Averages.TotalIsSum` | internal/maturity/evaluate.go:319-330 | The exact total is the sum, from either end |
| `Averages.AverageAtLeast` | internal/maturity/evaluate.go:319-330 | If every score is at least m, the average is at least m rounded to hundredths |
| `Averages.AverageReachesExactly` | internal/maturity/evaluate.go:319-330 | Scores of at least m always average to at least m, exactly when m rounded to hundredths is at least m |
| `Averages.AverageCanFallShort` | internal/maturity/evaluate.go:319-330 | Input on which they do not: 3.004 is rounded down and two such scores average to 3 |
| `Averages.Average` | internal/maturity/evaluate.go:319-330 | Sorting in place and adding from the left gives the average the lemmas are about; the array ends up sorted; no scores, no average |
| `MaturityGate.GateIsExact` | internal/maturity/evaluate.go:81-164 | An accepted assessment is compliant iff every aspect of the model is answered with evidence, a maturity score not below the minimum in force and a capability score likewise where it applies and none where it does not, and every control is answered as passing with evidence; each minimum in force is NaN if it was written so, and else lies between the model's and the scale's end |
| `MaturityTargets.TargetsHoldExactly` | docs/SOC_MATURITY.md:40-41 | Over all compliant assessments under a policy: every aspect scores at least the model's own targets, exactly when neither minimum is written as NaN, or the target is not positive, or the model has no aspect it applies to |
| `MaturityTargets.NaNLowersTargets` | internal/maturity/evaluate.go:179-191 | Input on which the targets are lowered: both minima are NaN, and an aspect that scores zero is compliant |
| `MaturityGate.SummaryIsConsistent` | internal/maturity/evaluate.go:107-162 | Passing, incomplete and failed controls add up to the model's controls; domain counts add up to the summary's; an aspect counted incomplete is never counted compliant; the report is compliant iff its counters are full |
| `MaturityGate.OrderIsIrrelevant` | internal/maturity/evaluate.go:102-105 | Permuting aspect and control results changes neither acceptance nor any part of the report, for any arithmetic |
| `MaturityTargets.CompliantAverage` | internal/maturity/evaluate.go:107-162 | A compliant report states an overall maturity no lower than the minimum in force rounded to hundredths, or than zero where that is NaN or negative |
| `MaturityTargets.CompliantAverageExactly` | internal/maturity/evaluate.go:107-162 | Compliant reports under a policy never state an overall maturity below the minimum in force, exactly when that is NaN or negative or does not fall short of itself by rounding |
| `Maturity.ValidateAssessment` | internal/maturity/evaluate.go:166-241 | Accepts exactly the assessments with a valid header, valid distinct known results and minima that are neither below the defaults nor above the scale, NaN being neither, and fills in zero minima |
| `Maturity.AspectCompliantExactly` | internal/maturity/evaluate.go:255-295 | An aspect's checks all pass exactly when it has evidence, a maturity that is not below the minimum, and a capability likewise or none as the model asks |
| `Maturity.ValidateResponses` | internal/maturity/evaluate.go:201-239 | The loop with the seen map accepts exactly lists of valid entries with distinct identifiers |
| `Maturity.EvaluateAspect` | internal/maturity/evaluate.go:255-278 | The aspect's names, scores and evidence count, and its checks in order: a missing score is incomplete, a low one fails, a capability that does not apply fails, missing evidence is incomplete; compliant iff all pass |
| `Maturity.EvaluateControl` | internal/maturity/evaluate.go:297-317 | A control passes iff it is answered as passing with evidence, fails iff it is answered otherwise than passing, and is incomplete iff it is not answered or passes without evidence |
| `Maturity.EvaluateDomain` | internal/maturity/evaluate.go:107-139 | One round of the domain loop: the domain's counts, flag and averages, and the running totals extended by exactly its aspects |
| `Maturity.EvaluateControls` | internal/maturity/evaluate.go:148-162 | The control loop: results in model order, tallies that match them, compliance lost on the first that does not pass, other counters untouched |
| `Maturity.Evaluate` | internal/maturity/evaluate.go:81-164 | The nested loops compute the report that the gate lemmas are about, or reject |
| `MaturityReport.FiguresMean` | internal/maturity/evaluate.go:107-147 | Both overall figures and both figures of every domain are the averages of exactly the maturity, respectively capability, scores answered for their aspects, and absent iff there are none |
| `MaturityReport.AspectsMean` | internal/maturity/evaluate.go:107-131 | The report lists the aspects of the model in order with their names and domains, the scores answered, how much evidence was given, and whether the answer is adequate |
| `MaturityReport.DomainsMean` | internal/maturity/evaluate.go:107-139 | Each domain counts its adequate aspects and is compliant iff all of them are |
| `MaturityReport.CountersMean` | internal/maturity/evaluate.go:107-162 | The counters are the numbers of aspects that are adequate and that lack a score or evidence, and of controls that passed, failed and are incomplete; each control is reported with its names, declared status and evidence |
| `MaturityReport.HeadingMeans` | internal/maturity/evaluate.go:81-100 | The report's name, model, source, license and policy in force, zero minima standing for the defaults; the exact versions and counts an accepted assessment has |
| `MaturityReport.LimitsAre` | internal/maturity/evaluate.go:166-191 | Name and minima of an accepted assessment may be changed exactly within their limits |
| `MaturityReport.ResponseLimitsAre` | internal/maturity/evaluate.go:201-253 | Scores, statuses and evidence of a valid answer may be changed exactly within their limits |
| `MaturityReport.NamesAre` | internal/maturity/evaluate.go:195-229 | A valid answer names an aspect, or a control, of the model, and any of them |
| `MaturityReport.CountLimitsAre` | internal/maturity/evaluate.go:192-194 | At most 100 aspect results and 200 control results |
| `Versions.OrderIsTotal` | internal/control/store.go:54-74 | The comparison is a total order on all strings: antisymmetric, transitive, zero for equal strings only |
| `Versions.OrderIsNumeric` | internal/control/store.go:54-74 | Printed MAJOR.MINOR.PATCH triples below 2^63, alone or with a pre-release, are ordered numerically; only equal triples fall back on the spelling |
| `Versions.PreReleasesBySpelling` | internal/control/store.go:54-74 | Equal triples are ordered by the code points of what follows them |
| `Versions.NumbersAre` | internal/control/store.go:54-74 | The numbers of a version are its first three parts between dots, missing ones being zero |
| `Versions.AtoiDecimal` | internal/control/store.go:54-74 | Parsing inverts decimal printing up to the largest 64-bit integer, and clamps beyond |
| `Versions.AtoiSigned` | internal/control/store.go:54-74 | A sign is read, and clamps at its own end of the 64-bit range |
| `Versions.AtoiOther` | internal/control/store.go:54-74 | Digits followed by anything else, or nothing, read as zero |
| `Versions.PreReleaseAfterRelease` | internal/control/store.go:54-74 | Every pre-release is ordered after its own release |
| `Versions.BuildMetadataLosesPatch` | internal/control/store.go:54-74 | With build metadata the patch number counts as zero, so the version is ordered below every version of that minor with a patch above zero |
| `Versions.BuildMetadataExactly` | internal/control/store.go:54-74 | For all valid versions of different triples below 2^63, with any pre-release and build metadata: they are ordered numerically exactly unless they have the same minor and either one of them has build metadata directly behind its numbers and the other an earlier patch other than zero, or both have and their patches are spelled in another order than they count |
| `Versions.BuildTwoAfterTen` | internal/control/store.go:54-74 | Input on which two builds are ordered against their numbers: 1.0.2+a after 1.0.10+b |
| `Versions.CompareVersions` | internal/control/store.go:54-74 | The loop over two parsed arrays computes the order the lemmas are about: -1, 0 or 1, zero for equal strings only, and by code points between versions with the same numbers |
| `ControlStore.LoadPaths` | internal/control/load.go:23-54 | Returns the loaded controls in order, and reports no issue exactly when discovery had none, every file loads and is valid, and no two controls share identifier and version |
| `ControlStore.KeyIsExact` | internal/control/load.go:43-52 | A control's key tells its identifier and version from all others exactly when neither holds an at-sign |
| `ControlStore.KeyIsInjective` | internal/control/load.go:43-52 | Between controls whose identifiers hold no at-sign, whatever their versions, equal keys mean equal identifier and version |
| `ControlStore.IdentifierHasNoAt` | internal/control/validate.go:15 | A valid identifier holds no at-sign |
| `ControlStore.IdentifierExactly` | internal/control/validate.go:15 | A valid identifier consists of lower-case letters, digits and separators, the latter neither at an end nor next to each other, and at least one |
| `ControlStore.Store.LoadStore` | internal/control/store.go:24-31 | The index agrees with the list: each identifier leads to exactly its controls, in load order |
| `ControlStore.Store.LatestByVendor` | internal/control/store.go:35-52 | Neighbouring identifiers come in the order of their code points; only active controls of the vendor are selected, one for every identifier that has one, each the highest version and, among equal versions, the first loaded |
| `ControlStore.LatestIsOrderIndependent` | internal/control/store.go:35-52 | With unique pairs, two catalogues of the same controls in any order select the same sequence |
| `ControlStore.Store.Get` | internal/control/store.go:76-93 | Answers from the index what filtering the list would answer, error by error |
| `ControlStore.GetFinds` | internal/control/store.go:76-93 | With unique pairs, asking for a version finds a control exactly if it is loaded and has that identifier and version; asking for none finds one exactly if it is the only one with the identifier |
| `LogSource.GateIsExact` | internal/logsource/evaluate.go:36-60 | Compliant iff no check failed and none is unknown, and iff every source passes its seven checks and every requirement is met by at least its minimum count of sources |
| `LogSource.SourcePassesExactly` | internal/logsource/evaluate.go:183-234 | A source passes iff it passes the six time-independent checks and its last event lies in the closed interval of the maximum age before the evaluation |
| `LogSourceReport.SummaryMeans` | internal/logsource/evaluate.go:36-60 | The summary counts the sources, those that fail nothing and have a past event, the failures of sources and of requirements one by one, and as unknown exactly the sources without a past event |
| `LogSourceReport.ReportMeans` | internal/logsource/evaluate.go:36-60 | Each source is reported under its identifier and platform with its checks and compliant iff it fails nothing and has a past event; each requirement passes or fails as enough sources meet it |
| `LogSourceReport.ChecksMean` | internal/logsource/evaluate.go:183-209 | The first six checks of a source by name and by when they pass |
| `LogSourceReport.MatchingMeans` | internal/logsource/evaluate.go:236-266 | The sources counted for a requirement are those at the places where platform, identifier and category are as asked for |
| `LogSourceReport.PlatformsAre` | internal/logsource/evaluate.go:70-84 | A value stands for a platform iff it is one of sixteen aliases in any case, with white space around and hyphens or spaces for underscores |
| `LogSourceReport.StandardsAre` | internal/logsource/evaluate.go:10-15 | The standard expected of each of the four platforms |
| `LogSourceReport.DefaultsAre` | internal/logsource/evaluate.go:86-105 | Zero stands for ninety days, sixty minutes, ninety-five per cent and one source; platforms get their canonical names |
| `LogSourceReport.LimitsAre` | internal/logsource/evaluate.go:122-131 | Each limit of an acceptable policy may be changed exactly within its range |
| `LogSourceReport.NumbersAre` | internal/logsource/evaluate.go:107-121 | One to 10000 valid sources with distinct identifiers, and at most 1000 valid requirements |
| `LogSourceReport.SourceLimitsAre` | internal/logsource/evaluate.go:132-163 | Names, retention and coverage of a valid source may be changed exactly within their limits |
| `LogSourceReport.TextLimitsAre` | internal/logsource/evaluate.go:132-180 | Platforms must be known and normalization texts short, exactly |
| `LogSourceReport.RequirementLimitsAre` | internal/logsource/evaluate.go:164-180 | Counts and names of a valid requirement may be changed exactly within their limits |
| `LogSource.ComplianceWindow` | internal/logsource/evaluate.go:201-234 | The compliant times of an inventory are exactly the interval from its latest last event to its earliest last event plus the maximum age, when all else passes; none when a last event is missing |
| `LogSource.NamedSourceExactly` | internal/logsource/evaluate.go:236-266 | Over all inventories accepted under given terms: a requirement that names a source in ASCII counts at most one, exactly unless the name holds a letter s, is trimmed and short enough to be spelled with a long s, and the category asked for, if any, is not blank; for any casing that is Go's on ASCII and white space |
| `LogSource.NamedSourceCountsOnce` | internal/logsource/evaluate.go:236-266 | Where that is so, a requirement for more than one such source fails and no accepted inventory is compliant |
| `LogSource.LongSCountsTwice` | internal/logsource/evaluate.go:132-146 | Input on which one name counts twice: sources named s and long s are accepted, and a requirement for two of s passes |
| `LogSource.NaNNeverComplies` | internal/logsource/evaluate.go:129-131 | A coverage limit of NaN is accepted and met by no source |
| `LogSource.CompliantCountsAll` | internal/logsource/evaluate.go:36-60 | A compliant report counts every source as compliant |
| `LogSource.TighteningExactly` | internal/logsource/evaluate.go:86-105 | For written policies: asking for more retention, coverage, sources or requirements, or for fresher events, never turns a non-compliant inventory compliant, exactly when no limit left at zero, which stands for its default, ends up on the other side of the limit it is compared with (provided some inventory is compliant under the tighter policy and acceptable under the other) |
| `LogSource.ZeroLimitTurns` | internal/logsource/evaluate.go:86-105 | Input on which it does: thirty days are asked for where zero, meaning ninety, were written |
| `LogSource.TighteningIsMonotone` | internal/logsource/evaluate.go:183-266 | For the limits in force, defaults filled in, tightening never makes a non-compliant inventory compliant; adding requirements is tightening |
| `LogSource.EvaluatingTwiceAgrees` | internal/logsource/evaluate.go:86-105 | Evaluating again at the same time, with the requirements slice as the first evaluation left it, gives the same outcome |
| `LogSource.DefaultingIsIdempotent` | internal/logsource/evaluate.go:86-105 | Filling in policy defaults twice is filling them in once |
| `LogSource.CanonicalIsIdempotent` | internal/logsource/evaluate.go:70-84 | A canonical platform name stands for itself |
| `LogSource.WithPolicyDefaults` | internal/logsource/evaluate.go:86-105 | Defaults the requirements in the caller's slice and the limits only in the returned copy |
| `LogSource.ValidateInventory` | internal/logsource/evaluate.go:107-181 | Accepts exactly the inventories whose limits, sources and requirements are outside none of the ranges, NaN being outside none, and whose identifiers have distinct lower-case forms, for any lower-casing of letters |
| `LogSource.ValidateSources` | internal/logsource/evaluate.go:132-163 | The loop with the seen map accepts exactly lists of valid sources whose identifiers have distinct lower-case forms, for any lower-casing of letters |
| `LogSource.EvaluateSource` | internal/logsource/evaluate.go:183-209 | The seven checks, and compliance when all pass; freshness is unknown iff the last event is missing or still to come and fails iff it is older than the limit, and no other check is ever unknown |
| `LogSource.EvaluateRequirement` | internal/logsource/evaluate.go:236-266 | Counts exactly the sources of the platform that match the named source and category, where given, for any case folding of letters |
| `LogSource.Evaluate` | internal/logsource/evaluate.go:17-60 | The loops compute the report the lemmas are about, at the time given or else the clock's, or reject, and leave the caller's requirements defaulted either way |
| `Attestation.LookupAfterRemove` | internal/attestation/evaluator.go:136-149 | Get after delete, in full: a deleted path and all below it is gone, a path above it shows its value without what was deleted, any other path is unaffected |
| `Attestation.LookupAfterRemoveAll` | internal/attestation/evaluator.go:136-149 | The same for a list of ignored paths, in full: gone at or below one, everything else with its value but for the ignored paths below it |
| `Attestation.IgnoringKeepsApplicability` | internal/attestation/evaluator.go:78-96 | Ignoring paths that are related to no condition's field leaves applicability unchanged |
| `Attestation.IgnoringDecidesApplicability` | internal/attestation/evaluator.go:78-135 | Ignoring the fields of all conditions makes applicability a matter of the rule alone: a condition on an ignored field holds exactly if it holds of null |
| `Attestation.EqualsMeansEquality` | internal/attestation/evaluator.go:150-178 | A condition's equality is equality with the value as written, for all evidence, exactly when the value is an integer, or has no integer, NaN, infinity, timestamp or map with keys that are not strings anywhere in it; otherwise no evidence equals it |
| `Attestation.DeepEqualExactly` | internal/attestation/evaluator.go:150-157 | Deep equality holds iff the evidence is the value as written and the value has no integer, NaN, infinity, timestamp or map with keys that are not strings anywhere in it |
| `Attestation.Applicable` | internal/attestation/evaluator.go:78-96 | All of the one list and, when it is not empty, some of the other; applicable without a rule |
| `Conditions.RuleMeans` | internal/attestation/evaluator.go:78-96 | A rule applies iff it would with each condition of the one list alone and, unless the other is empty, with some condition of that alone |
| `Conditions.ExistsMeans` | internal/attestation/evaluator.go:97-135 | exists holds iff the field is there, null included |
| `Conditions.OrderMeans` | internal/attestation/evaluator.go:106-113 | On a field that is there, greaterThan and lessThan hold iff both sides are numbers and the evidence is greater, respectively less, as a real; infinities compare as they should |
| `Conditions.ExactlyOne` | internal/attestation/evaluator.go:97-135 | Between finite numbers exactly one of lessThan, equals and greaterThan holds |
| `Conditions.EqualsMeans` | internal/attestation/evaluator.go:97-135 | equals holds iff the evidence is the value as written, notEquals iff it is not |
| `Conditions.ContainsMeans` | internal/attestation/evaluator.go:114-125 | contains holds of a text iff it is the needle with some text before and after, of an array iff some element is the value as written, and of nothing else |
| `Conditions.InMeans` | internal/attestation/evaluator.go:126-133 | in holds iff the value is a list and the evidence is one of its elements as written |
| `Conditions.OthersFail` | internal/attestation/evaluator.go:97-135 | No other operator ever holds |
| `Attestation.LookupPath` | internal/attestation/evaluator.go:136-149 | The loop that steps through nested objects finds what lies at the path, if anything does |
| `Attestation.Evaluate` | internal/attestation/evaluator.go:41-76 | Not applicable iff the control does not apply; pass or fail iff it applies and its expression is true or false; an error otherwise; never unknown by itself |
| `Attestation.AttestAWS` | cmd/trisoc/main.go:517-541 | An error of its own only for an invalid catalogue or evaluator; else one result per control in catalogue order, unknown for all after a failed collection, and for a control whose evaluation errs |
| `Attestation.OnlyEvidenceDecides` | README.md:169-170 | On AWS a control passes or fails exactly when collecting succeeded, it applies and its expression is true or false; after a failed collection every result is unknown |
| `Attestation.AttestAzure` | cmd/trisoc/main.go:380-411 | The same command with one error variable: whatever the collection error was, the results are the evaluator's verdicts on the snapshot that came with it |
| `Attestation.AzureKeepsPromise` | docs/MICROSOFT_SENTINEL.md:25-27 | Whether a failed collection is judged depends on the catalogue alone: nothing passes or fails iff no expression of a control that applies to the empty snapshot is true or false of it; all is unknown iff moreover every control applies |
| `Attestation.SnapshotIsZero` | providers/azure/types.go:15-39 | The empty snapshot has every field of the snapshot type with its zero value |
| `Attestation.AzureJudgesFailedCollection` | cmd/trisoc/main.go:388-409 | With two controls of the catalogue, for any engine that reads their expressions as CEL does where the fields are a flag and numbers: a failed collection fails the one that asks for Sentinel to be enabled and passes the one on workspace retention |
| `Yaml.InspectYAML` | internal/control/load.go:94-114 | From any depth and count: accepts iff the nodes so far plus the tree's are within the limit, the depth is, and no alias, anchor or custom tag occurs anywhere; the shared counter grows by the tree's size, and on rejection stops at most one past the limit |
| `Yaml.LoadCheck` | internal/control/load.go:74 | The walk as a loader starts it: exact acceptance, the count being the tree's size |
| `Yaml.PlainMeans` | internal/control/load.go:94-114 | A tree is plain iff at every path there is a node without alias and anchor and with no tag or one that begins with two exclamation marks |
| `Yaml.HeightMeans` | internal/control/load.go:94-114 | A tree is within a depth iff no path to a node is longer |
| `Yaml.SizeMeans` | internal/control/load.go:94-114 | The size of a tree is one and the sizes of the children |
| `Yaml.CheckControl` | internal/control/load.go:58-80 | Controls may have 10000 nodes and depth 32 |
| `Yaml.CheckInventory` | internal/logsource/load.go:24-44 | So may inventories |
| `Yaml.CheckAssessment` | internal/maturity/load.go:24-44 | Assessments may have 20000 nodes and depth 32 |
| `Yaml.PrefixFits` | internal/maturity/load.go:58-78 | Children counted so far never exceed the whole tree, so rejecting early never rejects a tree within the limits |
| `Cli.CsvRoundTrip` | cmd/trisoc/main.go:661-673 | Splitting yields trimmed, non-empty, comma-free items only; a list survives join-then-split iff it consists of such items |
| `Cli.SplitCSV` | cmd/trisoc/main.go:661-673 | The loop yields the items the round trip is about, none for blank input |
| `Cli.CsvMeans` | cmd/trisoc/main.go:661-673 | A list is what its parts between commas are, trimmed, the blank ones left out, in order |
| `Cli.OptionsAre` | cmd/trisoc/main.go:544-592 | Each of the eleven options by its spelling and what it sets |
| `Cli.DefaultsAre` | cmd/trisoc/main.go:544-546 | What a target is without options |
| `Cli.ParseAWSTarget` | cmd/trisoc/main.go:544-592 | Accepts exactly the argument lists that spell out some options, and returns the defaults with those options set in order; an error names the option whose value is missing at the end, or the first argument that is no option |
| `Cli.ReadOff` | cmd/trisoc/main.go:544-592 | An argument list spells out at most one list of options, and options can be read off its front one by one |
| `Cli.OptionsRoundTrip` | cmd/trisoc/main.go:544-592 | Settings whose lists consist of items, written as options in any order, parse back to the same settings |

## Left out

- Cloud collectors, STS, ARM and KQL calls, plan generators, MCP and HTTP transport, schemas, SQL migrations and infrastructure code: I/O over libraries, or constants.
- CEL and `fmt.Sprint` of values that are not strings are parameters of the evaluator: any function from expression and evidence to true, false, non-boolean or an error, and any rendering.
- SHA-256 of the marshalled tree is any function of the tree. That no two trees share a hash is a hypothesis of the lemmas that need it and of no other.
- JSON and YAML decoding: the models start from decoded trees. Reading a file is an outcome given to `ControlStore.LoadPaths`, and the number of issues that `Validate` finds outside the identifier is given with it.
- Byte limits of the loaders, and file discovery.
- Messages, explanations, timestamps of results and error texts: results keep statuses, names, identifiers and counts.
- Floating point: NaN and the infinities are modelled where policies, coverages and condition values are compared, and finite numbers are reals. Float addition and the rounded mean are parameters of `Averages`, so order-independence covers floats; the bounds on the average are in exact arithmetic. Signed zero is not modelled: in a drift document -0 and 0 are equal but hashed apart. Scores are reals, since the code rejects NaN and infinite ones (`internal/maturity/evaluate.go:210-215`).
- LogSource.NamedSourceExactly: names a source in ASCII, as does LogSource.NamedSourceCountsOnce; which other names have a second spelling depends on the whole of Unicode's case tables.
- The case tables of letters outside ASCII are a parameter of the log-source gate, used for identifiers and categories; the lemmas that need more assume what the tables say of ASCII and of white space (`Text.IsGoCasing`). Platforms and standards are compared with ASCII names, for which `Text.LowerChar` and `Text.FoldChar` are complete.
- Strings that are not valid UTF-8, and Go values in an evidence tree that JSON does not produce.
- Aliasing inside drift documents other than maps: arrays are never written to and are held as values. diff reads the documents the maps stand for.
- The sort is some sort that keeps the documented promise; nothing is assumed of ties.
- The SOC-CMM model file: the gate is proved for every model.
- Attestation.AttestAWS: whether the catalogue is valid and whether the evaluator can be constructed are inputs; the same holds for Attestation.AttestAzure. The collector's calls are an input too: all succeed, or some call fails.
- Attestation.AzureJudgesFailedCollection: what CEL makes of the two expressions is a hypothesis on the oracle, in the terms of `Attestation.IsTrue` and `Attestation.IsAtLeast`, for documents whose fields are a flag and numbers.
- The Azure argument parser and the other commands: the same shape as the AWS one.
- Semantic Versioning 2.0.0 precedence of pre-releases: the code does not implement it, and the two lemmas about it state what the code does instead.
