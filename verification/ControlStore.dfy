// Loading, indexing and selecting versioned controls: internal/control/load.go
// and internal/control/store.go.
module ControlStore {
  import opened Common
  import opened Controls
  import Sorting
  import Text
  import Versions

  // ----- LoadPaths -----

  // Reading and decoding one discovered file, and what Validate finds in the
  // control apart from its identifier.
  datatype File = Unreadable(path: string) | Loaded(path: string, control: Control, otherIssues: nat)

  datatype Issue =
    | Discovery(path: string)
    | NotLoaded(path: string)
    | BadIdentifier(path: string)
    | OtherField(path: string)
    | Duplicate(path: string, previous: string)

  // idPattern: ^[a-z0-9]+(?:[._-][a-z0-9]+)+$
  predicate IsIdentifier(id: string) { IdentifierRest(id, false, false) }

  // inSegment: a segment has begun; separated: a separator has been seen.
  predicate IdentifierRest(s: string, inSegment: bool, separated: bool) {
    if s == "" then inSegment && separated
    else if 'a' <= s[0] <= 'z' || '0' <= s[0] <= '9' then IdentifierRest(s[1..], true, separated)
    else if s[0] == '.' || s[0] == '_' || s[0] == '-' then inSegment && IdentifierRest(s[1..], false, true)
    else false
  }

  lemma {:induction false} IdentifierHasNoAt(s: string, inSegment: bool, separated: bool)
    requires IdentifierRest(s, inSegment, separated)
    ensures '@' !in s
  {
    if s != "" {
      if 'a' <= s[0] <= 'z' || '0' <= s[0] <= '9' {
        IdentifierHasNoAt(s[1..], true, separated);
      } else {
        IdentifierHasNoAt(s[1..], false, true);
      }
    }
  }

  predicate SegmentChar(c: char) { c in Text.LOWER_CASE || c in Text.DIGITS }
  predicate Separator(c: char) { c in "._-" }

  // Lower-case letters, digits and separators, the latter neither at an end nor
  // next to each other, and at least one.
  predicate SegmentsAndSeparators(id: string) {
    && id != "" && SegmentChar(id[0]) && SegmentChar(id[|id| - 1])
    && Alternates(id) && (exists i :: 0 <= i < |id| && Separator(id[i]))
  }

  predicate Alternates(id: string) {
    && (forall i :: 0 <= i < |id| ==> SegmentChar(id[i]) || Separator(id[i]))
    && (forall i :: 0 <= i < |id| - 1 ==> SegmentChar(id[i]) || SegmentChar(id[i + 1]))
  }

  lemma CharacterSets(c: char)
    ensures SegmentChar(c) <==> 'a' <= c <= 'z' || '0' <= c <= '9'
    ensures Separator(c) <==> c == '.' || c == '_' || c == '-'
  {
    Text.LowerCaseAre(c);
    Text.DigitsAre(c);
  }

  lemma {:induction false} RestExactly(s: string, inSegment: bool, separated: bool)
    ensures IdentifierRest(s, inSegment, separated) <==>
            if s == "" then inSegment && separated
            else && Alternates(s) && SegmentChar(s[|s| - 1]) && (Separator(s[0]) ==> inSegment)
                 && (separated || exists i :: 0 <= i < |s| && Separator(s[i]))
  {
    hide SegmentChar, Separator;
    if s != "" {
      var t := s[1..];
      CharacterSets(s[0]);
      RestExactly(t, !Separator(s[0]), separated || Separator(s[0]));
      AlternatesCons(s);
      SeparatorCons(s);
      if t != "" { CharacterSets(t[0]); }
    }
  }

  lemma AlternatesCons(s: string)
    requires s != ""
    ensures var t := s[1..];
            Alternates(s) <==>
            && Alternates(t) && (SegmentChar(s[0]) || Separator(s[0]))
            && (t != "" ==> SegmentChar(s[0]) || SegmentChar(t[0]))
  {
    hide SegmentChar, Separator;
    var t := s[1..];
    assert forall i :: 0 <= i < |t| ==> t[i] == s[i + 1];
    if Alternates(t) && (SegmentChar(s[0]) || Separator(s[0])) && (t != "" ==> SegmentChar(s[0]) || SegmentChar(t[0])) {
      forall i | 0 <= i < |s| ensures SegmentChar(s[i]) || Separator(s[i]) {
        if i > 0 { assert SegmentChar(t[i - 1]) || Separator(t[i - 1]); }
      }
      forall i | 0 <= i < |s| - 1 ensures SegmentChar(s[i]) || SegmentChar(s[i + 1]) {
        if i > 0 { assert SegmentChar(t[i - 1]) || SegmentChar(t[i - 1 + 1]); }
      }
    }
    if Alternates(s) {
      forall i | 0 <= i < |t| ensures SegmentChar(t[i]) || Separator(t[i]) {
        assert SegmentChar(s[i + 1]) || Separator(s[i + 1]);
      }
      forall i | 0 <= i < |t| - 1 ensures SegmentChar(t[i]) || SegmentChar(t[i + 1]) {
        assert SegmentChar(s[i + 1]) || SegmentChar(s[i + 1 + 1]);
      }
    }
  }

  lemma SeparatorCons(s: string)
    requires s != ""
    ensures (exists i :: 0 <= i < |s| && Separator(s[i])) <==>
            Separator(s[0]) || exists i :: 0 <= i < |s[1..]| && Separator(s[1..][i])
  {
    hide Separator;
    if i :| 0 <= i < |s| && Separator(s[i]) {
      if i > 0 { assert Separator(s[1..][i - 1]); }
    }
    if i :| 0 <= i < |s[1..]| && Separator(s[1..][i]) { assert Separator(s[i + 1]); }
  }

  // The identifier pattern, in plain terms.
  lemma IdentifierExactly(id: string)
    ensures IsIdentifier(id) <==> SegmentsAndSeparators(id)
  {
    hide SegmentChar, Separator, Alternates;
    RestExactly(id, false, false);
    if id != "" {
      CharacterSets(id[0]);
      if Alternates(id) { FirstAlternates(id); }
    }
  }

  lemma FirstAlternates(id: string)
    requires id != "" && Alternates(id)
    ensures SegmentChar(id[0]) || Separator(id[0])
  {
  }

  function Key(c: Control): string { c.id + "@" + c.version }

  function ControlsOf(files: seq<File>): (r: seq<Control>) {
    if files == [] then []
    else
      var n := |files| - 1;
      ControlsOf(files[..n]) + if files[n].Loaded? then [files[n].control] else []
  }

  // No two controls share identifier and version.
  ghost predicate UniqueVersions(controls: seq<Control>) {
    forall i, j :: 0 <= i < j < |controls| ==>
      !SamePair(controls[i], controls[j])
  }

  // Nothing for LoadPaths to report.
  ghost predicate AllSound(files: seq<File>) {
    && (forall i :: 0 <= i < |files| ==> FileSound(files[i]))
    && UniqueVersions(ControlsOf(files))
  }

  // The "@" between identifier and version cannot be mistaken for one of theirs
  // when the identifiers hold none.
  lemma KeyIsInjective(c: Control, d: Control)
    requires '@' !in c.id && '@' !in d.id && Key(c) == Key(d)
    ensures c.id == d.id && c.version == d.version
  {
    var k := Key(c);
    assert k[|c.id|] == '@' && k[|d.id|] == '@';
    assert k[..|c.id|] == c.id && k[..|d.id|] == d.id;
    assert k[|c.id| + 1..] == c.version && k[|d.id| + 1..] == d.version;
  }

  // Without that, two different pairs can share a key.
  lemma KeysCanCollide(c: Control, d: Control)
    requires c.id == "a@1" && c.version == "2" && d.id == "a" && d.version == "1@2"
    ensures Key(c) == Key(d)
  {
  }

  // The key tells a control's pair exactly when neither part holds an at-sign.
  lemma KeyIsExact(c: Control)
    ensures (forall d :: Key(d) == Key(c) ==> SamePair(c, d)) <==> '@' !in c.id && '@' !in c.version
  {
    hide SamePair;
    if '@' in c.id {
      var n := |Text.Before(c.id, '@')|;
      var d := c.(id := c.id[..n], version := c.id[n + 1..] + "@" + c.version);
      assert c.id == c.id[..n] + "@" + c.id[n + 1..];
      Elsewhere(c, d);
    } else if '@' in c.version {
      var n := |Text.Before(c.version, '@')|;
      var d := c.(id := c.id + "@" + c.version[..n], version := c.version[n + 1..]);
      assert c.version == c.version[..n] + "@" + c.version[n + 1..];
      Elsewhere(c, d);
    } else {
      forall d | Key(d) == Key(c) ensures SamePair(c, d) {
        OnePlaceToSplit(c, d);
      }
    }
  }

  lemma Elsewhere(c: Control, d: Control)
    requires |c.id| != |d.id| && Key(d) == Key(c)
    ensures Key(d) == Key(c) && !SamePair(c, d)
  {
  }

  lemma OnePlaceToSplit(c: Control, d: Control)
    requires Key(d) == Key(c) && '@' !in c.id && '@' !in c.version
    ensures SamePair(c, d)
  {
    var k, n := Key(c), |d.id|;
    assert k[n] == '@';
    assert k[..n] == d.id && k[n + 1..] == d.version;
    assert k[..|c.id|] == c.id && k[|c.id| + 1..] == c.version;
  }

  ghost predicate SamePair(c: Control, d: Control) { c.id == d.id && c.version == d.version }

  ghost predicate FileSound(file: File) {
    file.Loaded? && file.otherIssues == 0 && IsIdentifier(file.control.id)
  }

  lemma SoundIsLoaded(file: File)
    requires FileSound(file)
    ensures file.Loaded?
  {
  }

  lemma SoundStep(done: seq<File>, file: File)
    ensures AllSound(done + [file]) <==>
            AllSound(done) && FileSound(file) && forall c :: c in ControlsOf(done) ==> !SamePair(c, file.control)
  {
    hide FileSound, UniqueVersions, SamePair;
    var files, before := done + [file], ControlsOf(done);
    var more := if file.Loaded? then [file.control] else [];
    assert files[..|done|] == done;
    assert ControlsOf(files) == before + more;
    UniqueSnoc(before, more);
    FilesSnoc(done, file);
    if FileSound(file) {
      SoundIsLoaded(file);
      assert forall c :: c in more <==> c == file.control;
    }
  }

  lemma FilesSnoc(done: seq<File>, file: File)
    ensures (forall i :: 0 <= i < |done + [file]| ==> FileSound((done + [file])[i]))
            <==> (forall i :: 0 <= i < |done| ==> FileSound(done[i])) && FileSound(file)
  {
    hide FileSound;
    var files := done + [file];
    if forall i :: 0 <= i < |files| ==> FileSound(files[i]) {
      forall i | 0 <= i < |done| ensures FileSound(done[i]) { assert files[i] == done[i]; }
      assert FileSound(files[|done|]);
    }
  }

  // Among sound files, a key seen before means a pair seen before.
  lemma SeenMeansSamePair(done: seq<File>, file: File)
    requires AllSound(done) && FileSound(file)
    ensures (exists c :: c in ControlsOf(done) && Key(c) == Key(file.control))
            <==> exists c :: c in ControlsOf(done) && SamePair(c, file.control)
  {
    AllIdentified(done);
    IdentifierHasNoAt(file.control.id, false, false);
    forall c | c in ControlsOf(done) && Key(c) == Key(file.control) ensures SamePair(c, file.control) {
      IdentifierHasNoAt(c.id, false, false);
      KeyIsInjective(c, file.control);
    }
  }

  lemma UniqueSnoc(before: seq<Control>, more: seq<Control>)
    requires |more| <= 1
    ensures UniqueVersions(before + more) <==>
            UniqueVersions(before) && forall c, d :: c in before && d in more ==> !SamePair(c, d)
  {
    var all := before + more;
    if UniqueVersions(all) {
      forall i, j | 0 <= i < j < |before| ensures !SamePair(before[i], before[j]) {
        assert all[i] == before[i] && all[j] == before[j];
      }
      forall c, d | c in before && d in more ensures !SamePair(c, d) {
        var i :| 0 <= i < |before| && before[i] == c;
        assert all[i] == c && all[|before|] == d;
      }
    }
  }

  lemma {:induction false} AllIdentified(files: seq<File>)
    requires forall i :: 0 <= i < |files| ==> FileSound(files[i])
    ensures forall c :: c in ControlsOf(files) ==> IsIdentifier(c.id)
  {
    if files != [] { AllIdentified(files[..|files| - 1]); }
  }

  method LoadPaths(files: seq<File>, discoveryIssues: seq<Issue>) returns (controls: seq<Control>, issues: seq<Issue>)
    ensures controls == ControlsOf(files)
    ensures issues == [] <==> discoveryIssues == [] && AllSound(files)
  {
    issues := discoveryIssues;
    controls := [];
    var seen: map<string, string> := map[];
    for n := 0 to |files|
      invariant controls == ControlsOf(files[..n])
      invariant forall key :: key in seen <==> exists c :: c in controls && Key(c) == key
      invariant issues == [] <==> discoveryIssues == [] && AllSound(files[..n])
    {
      var file := files[n];
      assert files[..n + 1] == files[..n] + [file];
      SoundStep(files[..n], file);
      if AllSound(files[..n]) && FileSound(file) { SeenMeansSamePair(files[..n], file); }
      match file
      case Unreadable(path) =>
        issues := issues + [NotLoaded(path)];
      case Loaded(path, c, otherIssues) =>
        if !IsIdentifier(c.id) {
          issues := issues + [BadIdentifier(path)];
        }
        issues := issues + seq(otherIssues, i => OtherField(path));
        ghost var before := controls;
        if Key(c) in seen {
          issues := issues + [Duplicate(path, seen[Key(c)])];
        } else {
          seen := seen[Key(c) := path];
        }
        controls := controls + [c];
        assert forall d :: d in controls <==> d in before || d == c;
    }
    assert files[..|files|] == files;
  }

  // ----- the store -----

  function WithId(controls: seq<Control>, id: string): (r: seq<Control>)
    ensures forall c :: c in r <==> c in controls && c.id == id
  {
    if controls == [] then []
    else
      var n := |controls| - 1;
      assert controls == controls[..n] + [controls[n]];
      WithId(controls[..n], id) + if controls[n].id == id then [controls[n]] else []
  }

  predicate Eligible(c: Control, vendor: string) { c.vendor == vendor && c.status == "active" }

  // controls[i] is what LatestByVendor keeps for its identifier: the highest
  // version, and of equal versions the one loaded first.
  ghost predicate Wins(controls: seq<Control>, vendor: string, i: nat) {
    && i < |controls| && Eligible(controls[i], vendor)
    && forall j :: 0 <= j < |controls| && Eligible(controls[j], vendor) && controls[j].id == controls[i].id ==>
         var order := Versions.Order(controls[j].version, controls[i].version);
         order <= 0 && (order == 0 ==> i <= j)
  }

  ghost predicate Winner(controls: seq<Control>, vendor: string, c: Control) {
    exists i: nat :: Wins(controls, vendor, i) && controls[i] == c
  }

  // The latest control of every identifier, sorted by identifier.
  ghost predicate IsLatest(out: seq<Control>, controls: seq<Control>, vendor: string) {
    && (forall i, j :: 0 <= i < j < |out| ==> Text.Less(out[i].id, out[j].id))
    && (forall c :: c in out ==> Winner(controls, vendor, c))
    && (forall c :: c in controls && Eligible(c, vendor) ==> exists d :: d in out && d.id == c.id)
  }

  predicate IdLess(c: Control, d: Control) { Text.Less(c.id, d.id) }

  datatype LookupError = NotFound | MultipleVersions | VersionNotFound

  ghost predicate Indexes(byID: map<string, seq<Control>>, controls: seq<Control>) {
    && (forall id :: id in byID ==> byID[id] != [] && byID[id] == WithId(controls, id))
    && (forall c :: c in controls ==> c.id in byID)
  }

  // Appending one control to the entry of its identifier.
  lemma IndexSnoc(byID: map<string, seq<Control>>, before: seq<Control>, c: Control)
    requires Indexes(byID, before)
    ensures Indexes(byID[c.id := (if c.id in byID then byID[c.id] else []) + [c]], before + [c])
  {
    hide WithId;
    var next := byID[c.id := (if c.id in byID then byID[c.id] else []) + [c]];
    forall id | id in next ensures next[id] != [] && next[id] == WithId(before + [c], id) {
      WithIdSnoc(before, c, id);
      if id !in byID { NoneWithId(before, id); }
    }
  }

  class Store {
    var controls: seq<Control>
    var byID: map<string, seq<Control>>

    // The index agrees with the list.
    ghost predicate Valid()
      reads this
    {
      Indexes(byID, controls)
    }

    constructor LoadStore(loaded: seq<Control>)
      ensures Valid() && controls == loaded
    {
      controls := loaded;
      byID := map[];
      new;
      for n := 0 to |loaded|
        invariant controls == loaded && Indexes(byID, loaded[..n])
      {
        var c := loaded[n];
        IndexSnoc(byID, loaded[..n], c);
        assert loaded[..n + 1] == loaded[..n] + [c];
        byID := byID[c.id := (if c.id in byID then byID[c.id] else []) + [c]];
      }
      assert loaded[..|loaded|] == loaded;
    }

    method LatestByVendor(vendor: string) returns (out: seq<Control>)
      ensures IsLatest(out, controls, vendor)
      ensures forall i :: 0 <= i < |out| - 1 ==> Text.ComesBefore(out[i].id, out[i + 1].id)
      ensures forall c :: c in out ==> c in controls && c.vendor == vendor && c.status == "active"
      ensures forall c :: c in controls && c.vendor == vendor && c.status == "active" ==>
                exists d :: d in out && d.id == c.id && Versions.Order(c.version, d.version) <= 0
    {
      hide Winner, Versions.Order, Text.Less, Text.ComesBefore;
      var latest: map<string, Control> := map[];
      for n := 0 to |controls|
        invariant forall id :: id in latest ==> latest[id].id == id && Winner(controls[..n], vendor, latest[id])
        invariant forall c :: c in controls[..n] && Eligible(c, vendor) ==> c.id in latest
      {
        var c := controls[n];
        ghost var before := controls[..n];
        assert controls[..n + 1] == before + [c];
        if Eligible(c, vendor) {
          if c.id in latest {
            var order := Versions.CompareVersions(c.version, latest[c.id].version);
            Challenge(before, vendor, c, latest[c.id]);
            if order > 0 {
              latest := latest[c.id := c];
            }
          } else {
            FirstOfItsId(before, vendor, c);
            latest := latest[c.id := c];
          }
        }
        forall id | id in latest && id != c.id ensures Winner(before + [c], vendor, latest[id]) {
          StillWins(before, vendor, c, latest[id]);
        }
        if !Eligible(c, vendor) && c.id in latest { StillWins(before, vendor, c, latest[c.id]); }
      }
      assert controls[..|controls|] == controls;
      out := SortedValues(latest);
      forall c | c in controls && Eligible(c, vendor) ensures exists d :: d in out && d.id == c.id {
        assert latest[c.id] in out;
      }
      LatestMeans(out, controls, vendor);
    }

    method Get(id: string, version: string) returns (r: Result<Control, LookupError>)
      requires Valid()
      ensures var versions := WithId(controls, id);
              r == if versions == [] then Err(NotFound)
                   else if version == "" then (if |versions| > 1 then Err(MultipleVersions) else Ok(versions[0]))
                   else FirstWithVersion(versions, version)
    {
      var versions := if id in byID then byID[id] else [];
      if |versions| == 0 {
        NoneWithId(controls, id);
        return Err(NotFound);
      }
      if version == "" {
        if |versions| > 1 {
          return Err(MultipleVersions);
        }
        return Ok(versions[0]);
      }
      r := FindVersion(versions, version);
    }
  }

  // The loop of Get over the controls with the identifier.
  method FindVersion(versions: seq<Control>, version: string) returns (r: Result<Control, LookupError>)
    ensures r == FirstWithVersion(versions, version)
  {
    for n := 0 to |versions|
      invariant FirstWithVersion(versions[n..], version) == FirstWithVersion(versions, version)
    {
      if versions[n].version == version {
        return Ok(versions[n]);
      }
      assert versions[n..][1..] == versions[n + 1..];
    }
    return Err(VersionNotFound);
  }

  function FirstWithVersion(versions: seq<Control>, version: string): Result<Control, LookupError> {
    if versions == [] then Err(VersionNotFound)
    else if versions[0].version == version then Ok(versions[0])
    else FirstWithVersion(versions[1..], version)
  }

  lemma WithIdSnoc(before: seq<Control>, c: Control, id: string)
    ensures WithId(before + [c], id) == WithId(before, id) + if c.id == id then [c] else []
  {
    assert (before + [c])[..|before|] == before;
  }

  lemma {:induction false} NoneWithId(controls: seq<Control>, id: string)
    requires forall c :: c in controls ==> c.id != id
    ensures WithId(controls, id) == []
  {
    if controls != [] { NoneWithId(controls[..|controls| - 1], id); }
  }

  lemma Challenge(before: seq<Control>, vendor: string, c: Control, champion: Control)
    requires Winner(before, vendor, champion) && Eligible(c, vendor) && c.id == champion.id
    ensures Winner(before + [c], vendor, if Versions.Order(c.version, champion.version) > 0 then c else champion)
  {
    var i: nat :| Wins(before, vendor, i) && before[i] == champion;
    var all, n := before + [c], |before|;
    Versions.OrderIsTotal(c.version, champion.version, c.version);
    if Versions.Order(c.version, champion.version) > 0 {
      forall j | 0 <= j < |all| && Eligible(all[j], vendor) && all[j].id == c.id
        ensures Versions.Order(all[j].version, c.version) <= 0
        ensures Versions.Order(all[j].version, c.version) == 0 ==> n <= j
      {
        if j < n {
          assert all[j] == before[j];
          Versions.OrderIsTotal(all[j].version, champion.version, c.version);
        } else {
          Versions.OrderIsTotal(c.version, c.version, c.version);
        }
      }
      assert Wins(all, vendor, n) && all[n] == c;
    } else {
      assert Wins(all, vendor, i) && all[i] == champion;
    }
  }

  // The selection in plain terms.
  lemma LatestMeans(out: seq<Control>, controls: seq<Control>, vendor: string)
    requires IsLatest(out, controls, vendor)
    ensures forall i :: 0 <= i < |out| - 1 ==> Text.ComesBefore(out[i].id, out[i + 1].id)
    ensures forall c :: c in out ==> c in controls && c.vendor == vendor && c.status == "active"
    ensures forall c :: c in controls && c.vendor == vendor && c.status == "active" ==>
              exists d :: d in out && d.id == c.id && Versions.Order(c.version, d.version) <= 0
  {
    hide Text.Less, Text.ComesBefore, Versions.Order;
    forall i | 0 <= i < |out| - 1 ensures Text.ComesBefore(out[i].id, out[i + 1].id) {
      Text.LessByPosition(out[i].id, out[i + 1].id);
    }
    forall c | c in controls && c.vendor == vendor && c.status == "active"
      ensures exists d :: d in out && d.id == c.id && Versions.Order(c.version, d.version) <= 0
    {
      assert Eligible(c, vendor);
      var d :| d in out && d.id == c.id;
      NoneAbove(controls, vendor, d, c);
    }
  }

  lemma NoneAbove(controls: seq<Control>, vendor: string, d: Control, c: Control)
    requires Winner(controls, vendor, d) && c in controls && Eligible(c, vendor) && c.id == d.id
    ensures Versions.Order(c.version, d.version) <= 0
  {
    hide Versions.Order;
    var i: nat :| Wins(controls, vendor, i) && controls[i] == d;
    var j :| 0 <= j < |controls| && controls[j] == c;
  }

  lemma FirstOfItsId(before: seq<Control>, vendor: string, c: Control)
    requires Eligible(c, vendor)
    requires forall d :: d in before && Eligible(d, vendor) ==> d.id != c.id
    ensures Winner(before + [c], vendor, c)
  {
    Versions.OrderIsTotal(c.version, c.version, c.version);
    assert Wins(before + [c], vendor, |before|);
  }

  lemma StillWins(before: seq<Control>, vendor: string, c: Control, champion: Control)
    requires Winner(before, vendor, champion) && (!Eligible(c, vendor) || c.id != champion.id)
    ensures Winner(before + [c], vendor, champion)
  {
    var i: nat :| Wins(before, vendor, i) && before[i] == champion;
    assert Wins(before + [c], vendor, i);
  }

  lemma IdLessIsAnOrder()
    ensures Sorting.StrictWeakOrder(IdLess)
  {
    forall c: Control ensures !IdLess(c, c) { Text.LessIrreflexive(c.id); }
    forall c: Control, d: Control, e: Control | IdLess(c, d) && IdLess(d, e) ensures IdLess(c, e) {
      Text.LessTransitive(c.id, d.id, e.id);
    }
    forall c: Control, d: Control, e: Control | !IdLess(c, d) && !IdLess(d, e) ensures !IdLess(c, e) {
      Text.LessTotal(c.id, d.id);
      Text.LessTotal(d.id, e.id);
      if IdLess(c, e) && c.id != d.id && d.id != e.id { Text.LessTransitive(c.id, e.id, d.id); }
    }
  }

  // The values of the map, gathered in map order and sorted by identifier.
  method SortedValues(latest: map<string, Control>) returns (out: seq<Control>)
    requires forall id :: id in latest ==> latest[id].id == id
    ensures forall i, j :: 0 <= i < j < |out| ==> Text.Less(out[i].id, out[j].id)
    ensures forall c :: c in out <==> c.id in latest && latest[c.id] == c
  {
    var gathered: seq<Control> := [];
    var ids := latest.Keys;
    while ids != {}
      invariant ids <= latest.Keys
      invariant forall c :: c in gathered <==> c.id in latest && c.id !in ids && latest[c.id] == c
      invariant forall i, j :: 0 <= i < j < |gathered| ==> gathered[i].id != gathered[j].id
      decreases |ids|
    {
      var id :| id in ids;
      gathered := gathered + [latest[id]];
      ids := ids - {id};
    }
    out := SortById(gathered);
  }

  // sort.Slice by identifier, on controls with distinct identifiers.
  method SortById(gathered: seq<Control>) returns (out: seq<Control>)
    requires forall i, j :: 0 <= i < j < |gathered| ==> gathered[i].id != gathered[j].id
    ensures forall i, j :: 0 <= i < j < |out| ==> Text.Less(out[i].id, out[j].id)
    ensures forall c :: c in out <==> c in gathered
  {
    hide Text.Less;
    var slice := new Control[|gathered|](i requires 0 <= i < |gathered| => gathered[i]);
    assert slice[..] == gathered;
    IdLessIsAnOrder();
    ghost var order := Sorting.SortSlice(slice, IdLess);
    out := slice[..];
    forall c ensures c in out <==> c in gathered {
      assert c in multiset(out) <==> c in multiset(gathered);
    }
    forall i, j | 0 <= i < j < |out| ensures Text.Less(out[i].id, out[j].id) {
      assert !IdLess(out[j], out[i]) && order[i] != order[j];
      assert out[i].id != out[j].id;
      Text.LessTotal(out[i].id, out[j].id);
    }
  }

  // ----- what the catalogue promises its readers -----

  // With unique identifier and version pairs the selection depends neither on
  // the order in which controls were loaded nor on the order of map iteration:
  // two catalogues of the same controls select the same sequence.
  lemma LatestIsOrderIndependent(x: seq<Control>, y: seq<Control>, vendor: string, out: seq<Control>,
      out': seq<Control>)
    requires UniqueVersions(x) && multiset(x) == multiset(y)
    requires IsLatest(out, x, vendor) && IsLatest(out', y, vendor)
    ensures out == out'
  {
    hide Winner;
    forall c ensures c in x <==> c in y { assert c in multiset(x) <==> c in multiset(y); }
    UniqueShared(x, y);
    forall c ensures c in out <==> c in out' {
      if c in out { SameWinner(x, y, vendor, out', c); }
      if c in out' { SameWinner(y, x, vendor, out, c); }
    }
    SameSelection(out, out');
  }

  // Strictly sorted sequences of the same controls are equal.
  lemma SameSelection(out: seq<Control>, out': seq<Control>)
    requires forall i, j :: 0 <= i < j < |out| ==> Text.Less(out[i].id, out[j].id)
    requires forall i, j :: 0 <= i < j < |out'| ==> Text.Less(out'[i].id, out'[j].id)
    requires forall c :: c in out <==> c in out'
    ensures out == out'
  {
    hide Text.Less;
    forall i, j | 0 <= i < j < |out| ensures out[i] != out[j] { Text.LessIrreflexive(out[i].id); }
    forall i, j | 0 <= i < j < |out'| ensures out'[i] != out'[j] { Text.LessIrreflexive(out'[i].id); }
    Sorting.NoDuplicates(out);
    Sorting.NoDuplicates(out');
    assert multiset(out) == multiset(out');
    StrictlySorted(out);
    StrictlySorted(out');
    Sorting.SortedUnique(out, out', IdLess);
  }

  lemma StrictlySorted(out: seq<Control>)
    requires forall i, j :: 0 <= i < j < |out| ==> Text.Less(out[i].id, out[j].id)
    ensures Sorting.Sorted(out, IdLess)
    ensures forall c, d :: c in out && d in out && !IdLess(c, d) && !IdLess(d, c) ==> c == d
  {
    forall i, j | 0 <= i < j < |out| ensures !IdLess(out[j], out[i]) {
      if IdLess(out[j], out[i]) {
        Text.LessTransitive(out[i].id, out[j].id, out[i].id);
        Text.LessIrreflexive(out[i].id);
      }
    }
  }

  lemma SameWinner(x: seq<Control>, y: seq<Control>, vendor: string, out: seq<Control>, c: Control)
    requires UniqueVersions(x) && forall c :: c in x <==> c in y
    requires IsLatest(out, y, vendor) && Winner(x, vendor, c)
    ensures c in out
  {
    var i: nat :| Wins(x, vendor, i) && x[i] == c;
    assert c in y && Eligible(c, vendor);
    var d :| d in out && d.id == c.id;
    var j: nat :| Wins(y, vendor, j) && y[j] == d;
    assert d in x;
    var m :| 0 <= m < |x| && x[m] == d;
    var n :| 0 <= n < |y| && y[n] == c;
    Versions.OrderIsTotal(c.version, d.version, c.version);
    assert c.version == d.version;
    assert SamePair(x[i], x[m]);
    assert i == m;
  }

  lemma UniqueShared(x: seq<Control>, y: seq<Control>)
    requires UniqueVersions(x) && multiset(x) == multiset(y)
    ensures UniqueVersions(y)
  {
    forall i, j | 0 <= i < j < |y| ensures !SamePair(y[i], y[j]) {
      if SamePair(y[i], y[j]) {
        assert y[i] in multiset(x) && y[j] in multiset(x);
        var m :| 0 <= m < |x| && x[m] == y[i];
        var n :| 0 <= n < |x| && x[n] == y[j];
        assert SamePair(x[m], x[n]);
        Sorting.Repeated(y, i, j);
        OnlyOnce(x, m);
      }
    }
  }

  lemma OnlyOnce(x: seq<Control>, m: nat)
    requires UniqueVersions(x) && m < |x|
    ensures multiset(x)[x[m]] == 1
  {
    forall i, j | 0 <= i < j < |x| ensures x[i] != x[j] { assert !SamePair(x[i], x[j]); }
    Sorting.NoDuplicates(x);
  }

  // With unique pairs, asking for a version finds exactly the control that has
  // it, and asking for none finds a control exactly when it is the only one with
  // the identifier.
  lemma {:induction false} GetFinds(controls: seq<Control>, id: string, version: string)
    requires UniqueVersions(controls)
    ensures forall c :: FirstWithVersion(WithId(controls, id), version) == Ok(c)
                        <==> c in controls && c.id == id && c.version == version
    ensures forall c :: WithId(controls, id) == [c] <==> OnlyWithId(controls, id, c)
  {
    var versions := WithId(controls, id);
    FirstIsSome(versions, version);
    var found := FirstWithVersion(versions, version);
    forall c | c in controls && c.id == id && c.version == version ensures found == Ok(c) {
      assert c in versions;
      var d := found.value;
      var i :| 0 <= i < |controls| && controls[i] == c;
      var j :| 0 <= j < |controls| && controls[j] == d;
      assert SamePair(controls[i], controls[j]);
    }
    forall c ensures versions == [c] <==> OnlyWithId(controls, id, c) {
      OnlyOneWithId(controls, id, c);
    }
  }

  ghost predicate OnlyWithId(controls: seq<Control>, id: string, c: Control) {
    c in controls && c.id == id && forall d :: d in controls && d.id == id ==> d == c
  }

  lemma {:induction false} WithIdUnique(controls: seq<Control>, id: string)
    requires UniqueVersions(controls)
    ensures UniqueVersions(WithId(controls, id))
  {
    hide SamePair;
    if controls != [] {
      var n := |controls| - 1;
      assert controls == controls[..n] + [controls[n]];
      UniqueSnoc(controls[..n], [controls[n]]);
      WithIdUnique(controls[..n], id);
      UniqueSnoc(WithId(controls[..n], id), if controls[n].id == id then [controls[n]] else []);
    }
  }

  lemma OnlyOneWithId(controls: seq<Control>, id: string, c: Control)
    requires UniqueVersions(controls)
    ensures WithId(controls, id) == [c] <==> OnlyWithId(controls, id, c)
  {
    var versions := WithId(controls, id);
    WithIdUnique(controls, id);
    if OnlyWithId(controls, id, c) {
      assert c in versions;
      assert forall i :: 0 <= i < |versions| ==> versions[i] in versions;
      assert |versions| > 1 ==> versions[0] == c && versions[1] == c && !SamePair(versions[0], versions[1]);
    }
    if versions == [c] { assert c in versions; }
  }

  lemma {:induction false} FirstIsSome(versions: seq<Control>, version: string)
    ensures var r := FirstWithVersion(versions, version);
            && (r.Ok? ==> r.value in versions && r.value.version == version)
            && (r.Err? ==> forall c :: c in versions ==> c.version != version)
  {
    if versions != [] { FirstIsSome(versions[1..], version); }
  }
}
