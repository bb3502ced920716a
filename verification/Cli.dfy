// Command-line parsing of cmd/trisoc/main.go: parseAWSTarget and splitCSV.
module Cli {
  import opened Common
  import Text

  // ----- splitCSV -----

  // What splitCSV can yield: trimmed, non-empty and without a comma.
  predicate IsItem(s: string) { s != "" && Text.IsTrimmed(s) && ',' !in s }

  function Items(parts: seq<string>): seq<string> {
    if parts == [] then []
    else
      var last := Text.TrimSpace(parts[|parts| - 1]);
      Items(parts[..|parts| - 1]) + if last != "" then [last] else []
  }

  function CsvItems(value: string): seq<string> { Items(Text.Split(value, ',')) }

  method SplitCSV(value: string) returns (out: seq<string>)
    ensures out == CsvItems(value)
  {
    if Text.TrimSpace(value) == "" {
      BlankHasNoItems(value);
      return [];
    }
    var parts := Text.Split(value, ',');
    out := [];
    for i := 0 to |parts|
      invariant out == Items(parts[..i])
    {
      assert parts[..i + 1][..i] == parts[..i];
      var trimmed := Text.TrimSpace(parts[i]);
      if trimmed != "" {
        out := out + [trimmed];
      }
    }
    assert parts[..|parts|] == parts;
  }

  lemma BlankHasNoItems(value: string)
    requires Text.TrimSpace(value) == ""
    ensures CsvItems(value) == []
  {
    Text.BlankIsSpace(value);
    Text.SplitOne(value, ',');
    assert [value][..0] == [];
    assert CsvItems(value) == Items([value][..0]) + [];
  }

  // strings.Join with commas.
  function JoinCSV(items: seq<string>): string {
    if items == [] then "" else Text.Join(items, ',')
  }

  lemma {:induction false} ItemsAreItems(parts: seq<string>)
    requires forall part :: part in parts ==> ',' !in part
    ensures forall item :: item in Items(parts) ==> IsItem(item)
  {
    if parts != [] {
      var n := |parts| - 1;
      assert parts[n] in parts;
      ItemsAreItems(parts[..n]);
    }
  }

  lemma ItemIsTrimmed(s: string)
    requires IsItem(s)
    ensures s != "" && Text.TrimSpace(s) == s
  {
  }

  lemma {:induction false} ItemsKept(items: seq<string>)
    requires forall item :: item in items ==> IsItem(item)
    ensures Items(items) == items
  {
    hide Text.TrimSpace, IsItem;
    if items != [] {
      var n := |items| - 1;
      ItemIsTrimmed(items[n]);
      ItemsKept(items[..n]);
      assert items == items[..n] + [items[n]];
    }
  }

  // Splitting yields items only; a list survives joining and splitting exactly
  // when it consists of items; so splitting is a fixpoint of join-then-split.
  lemma CsvRoundTrip(value: string, items: seq<string>)
    ensures forall item :: item in CsvItems(value) ==> IsItem(item)
    ensures CsvItems(JoinCSV(items)) == items <==> forall item :: item in items ==> IsItem(item)
    ensures CsvItems(JoinCSV(CsvItems(value))) == CsvItems(value)
  {
    ItemsAreItems(Text.Split(value, ','));
    ItemsAreItems(Text.Split(JoinCSV(items), ','));
    if forall item :: item in items ==> IsItem(item) { JoinedItems(items); }
    JoinedItems(CsvItems(value));
  }

  lemma JoinedItems(items: seq<string>)
    requires forall item :: item in items ==> IsItem(item)
    ensures CsvItems(JoinCSV(items)) == items
  {
    if items == [] {
      BlankHasNoItems("");
    } else {
      Text.SplitJoinFree(items, ',');
      ItemsKept(items);
    }
  }

  // ----- parseAWSTarget -----

  datatype Target = Target(
    profile: string, roleArn: string, externalId: string, homeRegion: string, governedRegions: seq<string>,
    architecture: string, requireDelegatedAdministrators: bool, requireSecurityLake: bool,
    requiredSecurityHubStandards: seq<string>)

  datatype Settings = Settings(target: Target, trailName: string, format: string)

  const DEFAULTS := Settings(
    Target("", "", "", "us-east-1", ["us-east-1"], "security_hub_findings_centric", false, false, []),
    "trisoc-organization-trail", "human")

  datatype Name = Profile | RoleArn | ExternalId | HomeRegion | Regions | Architecture | Standards | TrailName | Output

  // One option as written: a name with its value, or a flag.
  datatype Opt = Valued(name: Name, value: string) | RequireDelegatedAdmins | RequireSecurityLake

  function Spelling(name: Name): string {
    match name
    case Profile => "--profile"
    case RoleArn => "--role-arn"
    case ExternalId => "--external-id"
    case HomeRegion => "--home-region"
    case Regions => "--regions"
    case Architecture => "--architecture"
    case Standards => "--securityhub-standards"
    case TrailName => "--trail-name"
    case Output => "--output"
  }

  const DELEGATED_FLAG := "--require-delegated-admins"
  const LAKE_FLAG := "--require-security-lake"

  function NameOf(arg: string): Option<Name> {
    if arg == "--profile" then Some(Profile)
    else if arg == "--role-arn" then Some(RoleArn)
    else if arg == "--external-id" then Some(ExternalId)
    else if arg == "--home-region" then Some(HomeRegion)
    else if arg == "--regions" then Some(Regions)
    else if arg == "--architecture" then Some(Architecture)
    else if arg == "--securityhub-standards" then Some(Standards)
    else if arg == "--trail-name" then Some(TrailName)
    else if arg == "--output" then Some(Output)
    else None
  }

  lemma SpellingsAreNames(arg: string, name: Name)
    ensures NameOf(arg) == Some(name) <==> arg == Spelling(name)
    ensures NameOf(DELEGATED_FLAG) == None && NameOf(LAKE_FLAG) == None
  {
    assert NameOf(Spelling(name)) == Some(name);
  }

  // What one option sets.
  function Set(s: Settings, o: Opt): Settings {
    var t := s.target;
    match o
    case RequireDelegatedAdmins => s.(target := t.(requireDelegatedAdministrators := true))
    case RequireSecurityLake => s.(target := t.(requireSecurityLake := true))
    case Valued(name, value) =>
      match name
      case Profile => s.(target := t.(profile := value))
      case RoleArn => s.(target := t.(roleArn := value))
      case ExternalId => s.(target := t.(externalId := value))
      case HomeRegion => s.(target := t.(homeRegion := value))
      case Regions => s.(target := t.(governedRegions := CsvItems(value)))
      case Architecture => s.(target := t.(architecture := value))
      case Standards => s.(target := t.(requiredSecurityHubStandards := CsvItems(value)))
      case TrailName => s.(trailName := value)
      case Output => s.(format := value)
  }

  function SetAll(s: Settings, opts: seq<Opt>): Settings {
    if opts == [] then s else Set(SetAll(s, opts[..|opts| - 1]), opts[|opts| - 1])
  }

  function RenderOne(o: Opt): seq<string> {
    match o
    case Valued(name, value) => [Spelling(name), value]
    case RequireDelegatedAdmins => [DELEGATED_FLAG]
    case RequireSecurityLake => [LAKE_FLAG]
  }

  function Render(opts: seq<Opt>): seq<string> {
    if opts == [] then [] else Render(opts[..|opts| - 1]) + RenderOne(opts[|opts| - 1])
  }

  datatype ParseError = ValueMissing(option: string) | UnknownOption(option: string)

  // Arguments that are the rendering of some options.
  ghost predicate IsCommandLine(args: seq<string>) {
    exists opts :: Render(opts) == args
  }

  lemma {:induction false} RenderConcat(x: seq<Opt>, y: seq<Opt>)
    ensures Render(x + y) == Render(x) + Render(y)
    decreases |y|
  {
    hide RenderOne;
    if y == [] {
      assert x + y == x;
    } else {
      var n := |y| - 1;
      assert (x + y)[..|x + y| - 1] == x + y[..n];
      RenderConcat(x, y[..n]);
    }
  }

  lemma RenderCons(o: Opt, rest: seq<Opt>)
    ensures Render([o] + rest) == RenderOne(o) + Render(rest)
  {
    RenderConcat([o], rest);
    assert [o][..0] == [];
  }

  // The first argument tells which option it begins.
  lemma FirstTells(o: Opt, p: Opt)
    requires RenderOne(o)[0] == RenderOne(p)[0]
    ensures o == p || (o.Valued? && p.Valued? && o.name == p.name)
  {
    hide NameOf, Spelling;
    if o.Valued? { SpellingsAreNames(Spelling(o.name), o.name); }
    if p.Valued? { SpellingsAreNames(Spelling(p.name), p.name); }
  }

  // Options can be read off their rendering one by one: what the arguments
  // begin with is what the options begin with.
  lemma {:induction false} ReadOff(x: seq<Opt>, y: seq<Opt>, rest: seq<string>)
    requires Render(y) == Render(x) + rest
    ensures x <= y && Render(y[|x|..]) == rest
    decreases |x|
  {
    hide RenderOne;
    if x == [] {
      assert y[0..] == y;
    } else {
      assert x == [x[0]] + x[1..];
      RenderCons(x[0], x[1..]);
      RendersSomething(x[0]);
      if y != [] {
        assert y == [y[0]] + y[1..];
        RenderCons(y[0], y[1..]);
        RendersSomething(y[0]);
        SameFirst(x[0], y[0], Render(x[1..]) + rest, Render(y[1..]));
        ReadOff(x[1..], y[1..], rest);
        assert y[|x|..] == y[1..][|x[1..]|..];
      }
    }
  }

  lemma RendersSomething(o: Opt)
    ensures RenderOne(o) != []
  {
  }

  lemma SameFirst(o: Opt, p: Opt, x: seq<string>, y: seq<string>)
    requires RenderOne(o) + x == RenderOne(p) + y
    ensures o == p && x == y
  {
    var r, s := RenderOne(o), RenderOne(p);
    assert (r + x)[0] == r[0] && (s + y)[0] == s[0];
    FirstTells(o, p);
    if o.Valued? { assert (r + x)[1] == r[1] && (s + y)[1] == s[1]; }
    assert (r + x)[|r|..] == x && (s + y)[|s|..] == y;
  }

  // Once the options before it are read, a valued option without a value, or an
  // argument that is no option, cannot be completed to a command line.
  lemma CannotContinue(args: seq<string>, before: seq<Opt>, i: nat)
    requires i < |args| && Render(before) == args[..i]
    requires if NameOf(args[i]).Some? then i + 1 == |args| else args[i] != DELEGATED_FLAG && args[i] != LAKE_FLAG
    ensures !IsCommandLine(args)
  {
    hide Render, RenderOne, NameOf, Spelling;
    if opts :| Render(opts) == args {
      assert args == args[..i] + args[i..];
      ReadOff(before, opts, args[i..]);
      NotRendered(opts[|before|..], args[i..]);
    }
  }

  lemma NotRendered(more: seq<Opt>, rest: seq<string>)
    requires rest != []
    requires if NameOf(rest[0]).Some? then |rest| == 1 else rest[0] != DELEGATED_FLAG && rest[0] != LAKE_FLAG
    ensures Render(more) != rest
  {
    hide NameOf, Spelling;
    if more != [] {
      var o := more[0];
      assert more == [o] + more[1..];
      RenderCons(o, more[1..]);
      if Render(more) == rest {
        assert rest[0] == RenderOne(o)[0];
        SpellingsAreNames(rest[0], if o.Valued? then o.name else Profile);
      }
    }
  }

  // Behind some options there is one without its value, or no option at all.
  ghost predicate Stops(args: seq<string>, error: ParseError) {
    match error
    case ValueMissing(x) =>
      |args| > 0 && args[|args| - 1] == x && NameOf(x).Some? && IsCommandLine(args[..|args| - 1])
    case UnknownOption(x) =>
      exists i :: 0 <= i < |args| && args[i] == x && NoOption(x) && IsCommandLine(args[..i])
  }

  predicate NoOption(x: string) { NameOf(x) == None && x != DELEGATED_FLAG && x != LAKE_FLAG }

  // The parser accepts exactly the renderings of option lists, and returns what
  // the options, in the order given, make of the defaults.
  method ParseAWSTarget(args: seq<string>) returns (r: Result<Settings, ParseError>, ghost opts: seq<Opt>)
    ensures r.Ok? ==> Render(opts) == args && r.value == SetAll(DEFAULTS, opts)
    ensures r.Ok? <==> IsCommandLine(args)
    ensures r.Err? ==> Stops(args, r.error)
  {
    hide NameOf, Spelling, Set;
    var settings := DEFAULTS;
    var i := 0;
    opts := [];
    assert args[..0] == [];
    while i < |args|
      invariant 0 <= i <= |args|
      invariant Render(opts) == args[..i] && settings == SetAll(DEFAULTS, opts)
    {
      var name := NameOf(args[i]);
      ghost var before := opts;
      if name.Some? {
        i := i + 1;
        if i >= |args| {
          CannotContinue(args, before, i - 1);
          return Err(ValueMissing(args[i - 1])), opts;
        }
        SpellingsAreNames(args[i - 1], name.value);
        settings := Set(settings, Valued(name.value, args[i]));
        opts := opts + [Valued(name.value, args[i])];
        assert args[..i - 1] + [args[i - 1], args[i]] == args[..i + 1];
      } else if args[i] == DELEGATED_FLAG {
        settings := Set(settings, RequireDelegatedAdmins);
        opts := opts + [RequireDelegatedAdmins];
        assert args[..i] + [args[i]] == args[..i + 1];
      } else if args[i] == LAKE_FLAG {
        settings := Set(settings, RequireSecurityLake);
        opts := opts + [RequireSecurityLake];
        assert args[..i] + [args[i]] == args[..i + 1];
      } else {
        CannotContinue(args, before, i);
        return Err(UnknownOption(args[i])), opts;
      }
      assert opts[..|before|] == before;
      i := i + 1;
    }
    assert args[..i] == args;
    return Ok(settings), opts;
  }

  // ----- options in any order -----

  // The two settings agree on what o sets.
  predicate AgreeOn(o: Opt, s: Settings, t: Settings) {
    match o
    case RequireDelegatedAdmins => s.target.requireDelegatedAdministrators == t.target.requireDelegatedAdministrators
    case RequireSecurityLake => s.target.requireSecurityLake == t.target.requireSecurityLake
    case Valued(name, _) =>
      match name
      case Profile => s.target.profile == t.target.profile
      case RoleArn => s.target.roleArn == t.target.roleArn
      case ExternalId => s.target.externalId == t.target.externalId
      case HomeRegion => s.target.homeRegion == t.target.homeRegion
      case Regions => s.target.governedRegions == t.target.governedRegions
      case Architecture => s.target.architecture == t.target.architecture
      case Standards => s.target.requiredSecurityHubStandards == t.target.requiredSecurityHubStandards
      case TrailName => s.trailName == t.trailName
      case Output => s.format == t.format
  }

  // Every option sets what t has.
  predicate Sets(opts: seq<Opt>, t: Settings) {
    forall i :: 0 <= i < |opts| ==> AgreeOn(opts[i], Set(DEFAULTS, opts[i]), t)
  }

  predicate SameSlot(o: Opt, p: Opt) {
    o == p || (o.Valued? && p.Valued? && o.name == p.name)
  }

  lemma {:induction false} SetAllAgrees(opts: seq<Opt>, t: Settings, o: Opt)
    requires Sets(opts, t)
    requires AgreeOn(o, DEFAULTS, t) || exists i :: 0 <= i < |opts| && SameSlot(opts[i], o)
    ensures AgreeOn(o, SetAll(DEFAULTS, opts), t)
    decreases |opts|
  {
    if opts != [] {
      var n := |opts| - 1;
      var last, before := opts[n], SetAll(DEFAULTS, opts[..n]);
      SetOne(before, last, o, t);
      if !SameSlot(last, o) {
        if i :| 0 <= i < |opts| && SameSlot(opts[i], o) {
          assert opts[..n][i] == opts[i];
        }
        SetAllAgrees(opts[..n], t, o);
      }
    }
  }

  // Setting one option makes it what it sets and leaves the others.
  lemma SetOne(s: Settings, o: Opt, p: Opt, t: Settings)
    ensures SameSlot(o, p) ==> (AgreeOn(p, Set(s, o), t) <==> AgreeOn(o, Set(DEFAULTS, o), t))
    ensures !SameSlot(o, p) ==> (AgreeOn(p, Set(s, o), t) <==> AgreeOn(p, s, t))
  {
    if SameSlot(o, p) { SetSame(s, o, p, t); } else { SetOther(s, o, p, t); }
  }

  lemma SetSame(s: Settings, o: Opt, p: Opt, t: Settings)
    requires SameSlot(o, p)
    ensures AgreeOn(p, Set(s, o), t) <==> AgreeOn(o, Set(DEFAULTS, o), t)
  {
    hide CsvItems;
  }

  lemma SetOther(s: Settings, o: Opt, p: Opt, t: Settings)
    requires !SameSlot(o, p)
    ensures AgreeOn(p, Set(s, o), t) <==> AgreeOn(p, s, t)
  {
    hide CsvItems;
  }

  // The options that spell out settings, lists joined with commas.
  function OptionsOf(t: Settings): seq<Opt> {
    var g := t.target;
    [Valued(Profile, g.profile), Valued(RoleArn, g.roleArn), Valued(ExternalId, g.externalId),
     Valued(HomeRegion, g.homeRegion), Valued(Regions, JoinCSV(g.governedRegions)),
     Valued(Architecture, g.architecture),
     Valued(Standards, JoinCSV(g.requiredSecurityHubStandards)), Valued(TrailName, t.trailName),
     Valued(Output, t.format)]
    + (if g.requireDelegatedAdministrators then [RequireDelegatedAdmins] else [])
    + (if g.requireSecurityLake then [RequireSecurityLake] else [])
  }

  predicate AllItems(items: seq<string>) { forall item :: item in items ==> IsItem(item) }

  // Settings written out as options in any order, and parsed, come back the
  // same, for all settings whose lists consist of items.
  lemma OptionsRoundTrip(t: Settings, opts: seq<Opt>, parsed: seq<Opt>)
    requires AllItems(t.target.governedRegions) && AllItems(t.target.requiredSecurityHubStandards)
    requires multiset(opts) == multiset(OptionsOf(t))
    requires Render(parsed) == Render(opts)
    ensures parsed == opts && SetAll(DEFAULTS, parsed) == t
  {
    hide AllItems, OptionsOf, SetAll, RenderOne;
    assert Render(opts) == Render(opts) + [];
    ReadOff(opts, parsed, []);
    NothingMore(parsed[|opts|..]);
    assert parsed == opts + parsed[|opts|..] == opts;
    AnyOrderSets(t, opts);
  }

  lemma NothingMore(opts: seq<Opt>)
    requires Render(opts) == []
    ensures opts == []
  {
    if opts != [] { RendersSomething(opts[|opts| - 1]); }
  }

  lemma OptionsSet(t: Settings)
    requires AllItems(t.target.governedRegions) && AllItems(t.target.requiredSecurityHubStandards)
    ensures Sets(OptionsOf(t), t)
  {
    hide CsvItems, JoinCSV;
    JoinedItems(t.target.governedRegions);
    JoinedItems(t.target.requiredSecurityHubStandards);
  }

  lemma AnyOrderSets(t: Settings, opts: seq<Opt>)
    requires AllItems(t.target.governedRegions) && AllItems(t.target.requiredSecurityHubStandards)
    requires multiset(opts) == multiset(OptionsOf(t))
    ensures SetAll(DEFAULTS, opts) == t
  {
    hide SetAll, AgreeOn, Set;
    OptionsSet(t);
    forall i | 0 <= i < |opts| ensures AgreeOn(opts[i], Set(DEFAULTS, opts[i]), t) {
      assert opts[i] in multiset(OptionsOf(t));
    }
    forall o: Opt ensures AgreeOn(o, SetAll(DEFAULTS, opts), t) {
      EverySlot(t, o);
      if i :| 0 <= i < |OptionsOf(t)| && SameSlot(OptionsOf(t)[i], o) {
        var p := OptionsOf(t)[i];
        assert p in multiset(opts);
        var k :| 0 <= k < |opts| && opts[k] == p;
        assert SameSlot(opts[k], o);
      }
      SetAllAgrees(opts, t, o);
    }
    AgreeEverywhere(SetAll(DEFAULTS, opts), t);
  }

  // Whatever can be set is spelled out or has its default value.
  lemma EverySlot(t: Settings, o: Opt)
    ensures AgreeOn(o, DEFAULTS, t) || exists i :: 0 <= i < |OptionsOf(t)| && SameSlot(OptionsOf(t)[i], o)
  {
    hide JoinCSV;
    var all := OptionsOf(t);
    match o {
      case Valued(name, _) =>
        var i := match name
          case Profile => 0 case RoleArn => 1 case ExternalId => 2 case HomeRegion => 3 case Regions => 4
          case Architecture => 5 case Standards => 6 case TrailName => 7 case Output => 8;
        assert SameSlot(all[i], o);
      case RequireDelegatedAdmins =>
        if t.target.requireDelegatedAdministrators { assert SameSlot(all[9], o); }
      case RequireSecurityLake =>
        if t.target.requireSecurityLake { assert SameSlot(all[|all| - 1], o); }
    }
  }

  lemma AgreeEverywhere(s: Settings, t: Settings)
    requires forall o: Opt :: AgreeOn(o, s, t)
    ensures s == t
  {
    forall name: Name ensures AgreeOn(Valued(name, ""), s, t) {
    }
    assert AgreeOn(Valued(Profile, ""), s, t) && AgreeOn(Valued(RoleArn, ""), s, t)
        && AgreeOn(Valued(ExternalId, ""), s, t);
    assert AgreeOn(Valued(HomeRegion, ""), s, t) && AgreeOn(Valued(Regions, ""), s, t)
        && AgreeOn(Valued(Architecture, ""), s, t);
    assert AgreeOn(Valued(Standards, ""), s, t) && AgreeOn(Valued(TrailName, ""), s, t)
        && AgreeOn(Valued(Output, ""), s, t);
    assert AgreeOn(RequireDelegatedAdmins, s, t) && AgreeOn(RequireSecurityLake, s, t);
  }

  // ----- lists and options, spelled out -----

  lemma {:induction false} ItemsConcat(x: seq<string>, y: seq<string>)
    ensures Items(x + y) == Items(x) + Items(y)
    decreases |y|
  {
    if y == [] {
      assert x + y == x;
    } else {
      var n := |y| - 1;
      assert (x + y)[..|x + y| - 1] == x + y[..n];
      ItemsConcat(x, y[..n]);
    }
  }

  // A list is what its parts between commas are, trimmed, the blank ones left out.
  lemma CsvMeans(part: string, rest: string)
    requires ',' !in part
    ensures CsvItems(part) == if Text.TrimSpace(part) == "" then [] else [Text.TrimSpace(part)]
    ensures CsvItems(part + "," + rest) == CsvItems(part) + CsvItems(rest)
  {
    hide Text.TrimSpace;
    Text.SplitOne(part, ',');
    Text.SplitCons(part, rest, ',');
    assert part + [','] + rest == part + "," + rest;
    ItemsConcat([part], Text.Split(rest, ','));
    assert [part][..0] == [];
    assert Items([part]) == Items([part][..0]) + if Text.TrimSpace(part) != "" then [Text.TrimSpace(part)] else [];
  }

  lemma DefaultsAre()
    ensures DEFAULTS.target.profile == DEFAULTS.target.roleArn == DEFAULTS.target.externalId == ""
    ensures DEFAULTS.target.homeRegion == "us-east-1" && DEFAULTS.target.governedRegions == ["us-east-1"]
    ensures DEFAULTS.target.architecture == "security_hub_findings_centric"
    ensures !DEFAULTS.target.requireDelegatedAdministrators && !DEFAULTS.target.requireSecurityLake
    ensures DEFAULTS.target.requiredSecurityHubStandards == []
    ensures DEFAULTS.trailName == "trisoc-organization-trail" && DEFAULTS.format == "human"
  {
  }

  // What the arguments a, read as the single option o, make of settings.
  predicate Reads(a: seq<string>, o: Opt) { Render([o]) == a }

  // Each option as it is written, and what it sets.
  lemma OptionsAre(v: string, s: Settings)
    ensures Reads(["--profile", v], Valued(Profile, v)) && Set(s, Valued(Profile, v)).target.profile == v
    ensures Reads(["--role-arn", v], Valued(RoleArn, v)) && Set(s, Valued(RoleArn, v)).target.roleArn == v
    ensures Reads(["--external-id", v], Valued(ExternalId, v)) && Set(s, Valued(ExternalId, v)).target.externalId == v
    ensures Reads(["--home-region", v], Valued(HomeRegion, v)) && Set(s, Valued(HomeRegion, v)).target.homeRegion == v
    ensures Reads(["--regions", v], Valued(Regions, v))
            && Set(s, Valued(Regions, v)).target.governedRegions == CsvItems(v)
    ensures Reads(["--architecture", v], Valued(Architecture, v))
            && Set(s, Valued(Architecture, v)).target.architecture == v
    ensures Reads(["--securityhub-standards", v], Valued(Standards, v))
            && Set(s, Valued(Standards, v)).target.requiredSecurityHubStandards == CsvItems(v)
    ensures Reads(["--trail-name", v], Valued(TrailName, v)) && Set(s, Valued(TrailName, v)).trailName == v
    ensures Reads(["--output", v], Valued(Output, v)) && Set(s, Valued(Output, v)).format == v
    ensures Reads(["--require-delegated-admins"], RequireDelegatedAdmins)
            && Set(s, RequireDelegatedAdmins).target.requireDelegatedAdministrators
    ensures Reads(["--require-security-lake"], RequireSecurityLake)
            && Set(s, RequireSecurityLake).target.requireSecurityLake
  {
    hide CsvItems;
    forall o: Opt ensures Render([o]) == RenderOne(o) {
      assert [o][..0] == [];
      assert Render([o]) == Render([o][..0]) + RenderOne(o);
    }
  }
}
