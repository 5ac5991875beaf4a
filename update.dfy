/**
 * The decisions `ng update` (`UpdateCommand.run`) makes between reading its
 * options and running schematics: the version-check escape hatch, validation
 * of the requested packages, the dirty-tree guard, the `--migrate-only` path
 * (locating and validating a package's migration collection), and the update
 * path (filtering requests against the installed tree, picking manifests,
 * the `@angular/cli` major-jump guard, the update commit and the migrations
 * the update schematic hands back).
 *
 * Everything the command asks the outside world is given by a `World`: the
 * environment variable, whether the installed CLI is outdated, what the
 * package-argument parser makes of each request, whether the working tree is
 * clean, the installed dependency tree, module resolution, the registry and
 * the update schematic's run.
 */
module Update {
  import opened Wrappers
  import opened Strings
  import opened SemVer
  import opened Coerce
  import opened Git
  import opened Schematic
  import opened Migrations

  // ------------------------------------------------------------------- data

  /** `--migrate-only`: absent or false, true, or the name of a single migration. */
  datatype MigrateOnly = Off | On | Named(name: string)

  datatype Options = Options(
    requests: seq<string>,
    all: bool,
    next: bool,
    migrateOnly: MigrateOnly,
    from: Option<string>,
    to: Option<string>,
    allowDirty: bool,
    createCommits: bool)

  /** The kinds of registry specifier; `Other` covers the rest (aliases and non-registry kinds). */
  datatype SpecType = VersionSpec | RangeSpec | TagSpec | OtherSpec

  /** A parsed package argument, with the fields of the parser's result the command reads. */
  datatype PackageIdentifier = PackageIdentifier(
    raw: string,
    name: string,
    registry: bool,
    specType: SpecType,
    rawSpec: string,
    fetchSpec: string)

  /** The `ng-update.migrations` entry of a `package.json`: missing, not a string, or a path. */
  datatype MigrationsField = Undefined | NotText | Text(path: string)

  datatype PackageJson = PackageJson(name: string, version: string, migrations: MigrationsField)

  /** A node of the installed dependency tree; `package` is missing when the package is not installed. */
  datatype Dependency = Dependency(path: string, package: Option<PackageJson>)

  /** What module resolution gives: a result, `MODULE_NOT_FOUND`, or any other error. */
  datatype Lookup<T> = Found(value: T) | NotFound | LookupFailed

  /** What picking a manifest gives: a version, `ETARGET`, `ENOVERSIONS`, or any other error. */
  datatype PickResult = Picked(version: string) | NoMatchingVersion | NoVersions | PickFailed

  /** An entry of the list of migrations the update schematic hands back. */
  datatype ExternalMigration = ExternalMigration(package: string, collection: string, from: string, to: string)

  datatype World = World(
    versionCheckEnv: Option<string>,
    cliOutdated: bool,
    npa: string -> Option<PackageIdentifier>,
    cleanTree: bool,
    dependencies: map<string, Dependency>,
    transitive: string -> Option<(string, PackageJson)>,
    collections: (string, string) -> Lookup<seq<Migration>>,
    packagePaths: string -> Lookup<string>,
    metadata: string -> bool,
    pick: (string, string) -> PickResult,
    update: seq<string> -> SchematicRun,
    externalMigrations: Option<seq<ExternalMigration>>,
    engine: Env)

  /** How `run` ends: an exit code, handing over to a temporary latest CLI, or an error it does not catch. */
  datatype RunResult = Exit(code: nat) | DelegatedToLatestCli | Uncaught

  const UpdateCollection: string := "../src/commands/update/schematic/collection.json"
  const UpdateSchematic: string := "update"
  const AngularCli: string := "@angular/cli"
  const UpdateCommitPrefix: string := "Angular CLI update for packages - "

  function ExitCode(success: bool): (r: RunResult)
    ensures r.Exit? && (r.code == 0 <==> success) && r.code <= 1
  {
    Exit(if success then 0 else 1)
  }

  /** A string option JavaScript treats as true: given and non-empty. */
  predicate Given(s: Option<string>) { s.Some? && s.value != "" }

  predicate Truthy(m: MigrateOnly) { m.On? || (m.Named? && m.name != "") }

  // ------------------------------------------------------- environment flag

  /** `NG_DISABLE_VERSION_CHECK` is set, is not `0`, and is not `false` in any letter case. */
  function DisableVersionCheck(value: Option<string>): (r: bool)
    ensures r ==> value.Some?
  {
    value.Some? && value.value != "0" && LowerAscii(value.value) != "false"
  }

  // --------------------------------------------------- the package arguments

  predicate Taken(ps: seq<PackageIdentifier>, name: string)
  {
    exists i :: 0 <= i < |ps| && ps[i].name == name
  }

  /** With `--next` and no specifier, the `next` tag is fetched. */
  function AdjustTag(id: PackageIdentifier, next: bool): (r: PackageIdentifier)
    ensures r.name == id.name && r.registry == id.registry && r.rawSpec == id.rawSpec && r.specType == id.specType
    ensures r.fetchSpec == (if next && id.rawSpec == "" then "next" else id.fetchSpec)
  {
    if next && id.rawSpec == "" then id.(fetchSpec := "next") else id
  }

  /** The packages collected from the requests after `acc`; `None` ends the command with 1. */
  function Collect(reqs: seq<string>, npa: string -> Option<PackageIdentifier>, next: bool, acc: seq<PackageIdentifier>)
    : Option<seq<PackageIdentifier>>
    decreases |reqs|
  {
    if reqs == [] then Some(acc)
    else match npa(reqs[0])
      case None => None
      case Some(id) =>
        if !id.registry || Taken(acc, id.name) then None
        else Collect(reqs[1..], npa, next, acc + [AdjustTag(id, next)])
  }

  /** The loop over the requests that builds `packages`. */
  method CollectPackages(reqs: seq<string>, npa: string -> Option<PackageIdentifier>, next: bool)
    returns (packages: Option<seq<PackageIdentifier>>)
    ensures packages == Collect(reqs, npa, next, [])
  {
    var ps: seq<PackageIdentifier> := [];
    var i := 0;
    assert reqs[i..] == reqs;
    while i < |reqs|
      invariant 0 <= i <= |reqs|
      invariant Collect(reqs, npa, next, []) == Collect(reqs[i..], npa, next, ps)
    {
      assert reqs[i..][0] == reqs[i] && reqs[i..][1..] == reqs[i + 1..];
      var parsed := npa(reqs[i]);
      if parsed.None? {
        return None;
      }
      var id := parsed.value;
      if !id.registry || Taken(ps, id.name) {
        return None;
      }
      if next && id.rawSpec == "" {
        id := id.(fetchSpec := "next");
      }
      ps := ps + [id];
      i := i + 1;
    }
    assert reqs[i..] == [];
    packages := Some(ps);
  }

  /** The text a parsed argument prints as: `name@spec`, whichever of the two is there, or the raw argument. */
  function RequestText(id: PackageIdentifier): (r: string)
  {
    var spec := if id.fetchSpec != "" then id.fetchSpec else id.rawSpec;
    if id.name != "" && spec != "" then id.name + "@" + spec
    else if id.name != "" then id.name
    else if spec != "" then spec
    else id.raw
  }

  // ------------------------------------------------- migrate-only: locating

  predicate IsSeparator(c: char) { c == '/' || c == '\\' }

  predicate IsAsciiLetter(c: char) { 'a' <= c <= 'z' || 'A' <= c <= 'Z' }

  /** `path.posix.isAbsolute`. */
  predicate PosixAbsolute(p: string) { |p| > 0 && p[0] == '/' }

  /** `path.win32.isAbsolute`: a leading separator, or a drive letter, a colon and a separator. */
  predicate Win32Absolute(p: string)
  {
    |p| > 0 && (IsSeparator(p[0]) || (|p| > 2 && IsAsciiLetter(p[0]) && p[1] == ':' && IsSeparator(p[2])))
  }

  /** Why the migration collection of a package could not be used. */
  datatype LocateError =
    | NotInstalled
    | NoMigrations
    | MalformedField
    | AbsolutePath
    | OutsidePackage
    | CollectionMissing
    | CollectionUnresolvable

  datatype FieldCheck = Accepted(path: string) | Rejected(reason: LocateError)

  /** The checks on `ng-update.migrations`, in order, and the path with its slashes normalised. */
  function CheckMigrationsField(field: MigrationsField): (r: FieldCheck)
    ensures r.Accepted? <==>
      field.Text? && !PosixAbsolute(field.path) && !Win32Absolute(field.path)
      && !StartsWith(ReplaceBackslashes(field.path), "../")
    ensures r.Accepted? ==> r.path == ReplaceBackslashes(field.path)
    ensures r.Rejected? ==> r.reason in {NoMigrations, MalformedField, AbsolutePath, OutsidePackage}
  {
    match field
    case Undefined => Rejected(NoMigrations)
    case NotText => Rejected(MalformedField)
    case Text(p) =>
      if PosixAbsolute(p) || Win32Absolute(p) then Rejected(AbsolutePath)
      else
        var q := ReplaceBackslashes(p);
        if StartsWith(q, "../") then Rejected(OutsidePackage) else Accepted(q)
  }

  /** The installed package: from the dependency tree, or else a transitive `package.json`. */
  function Installation(name: string, w: World): Option<(string, PackageJson)>
  {
    if name in w.dependencies then
      var d := w.dependencies[name];
      if d.package.Some? then Some((d.path, d.package.value)) else None
    else w.transitive(name)
  }

  datatype Located = Located(package: PackageJson, migrations: seq<Migration>) | NotLocated(reason: LocateError)

  /** Find the package, validate its migrations field, and resolve the collection it names. */
  function Locate(name: string, w: World): (r: Located)
    ensures r.Located? ==> Installation(name, w).Some? && Installation(name, w).value.1 == r.package
    ensures var inst := Installation(name, w);
      inst.None? || inst.value.0 == "" ==> r == NotLocated(NotInstalled)
    ensures var inst := Installation(name, w);
      inst.Some? && inst.value.0 != "" && CheckMigrationsField(inst.value.1.migrations).Rejected? ==>
        r == NotLocated(CheckMigrationsField(inst.value.1.migrations).reason)
    ensures var inst := Installation(name, w);
      inst.Some? && inst.value.0 != "" && CheckMigrationsField(inst.value.1.migrations).Accepted? ==>
        var found := w.collections(inst.value.0, CheckMigrationsField(inst.value.1.migrations).path);
        && (found.NotFound? ==> r == NotLocated(CollectionMissing))
        && (found.LookupFailed? ==> r == NotLocated(CollectionUnresolvable))
        && (found.Found? ==> r == Located(inst.value.1, found.value))
  {
    match Installation(name, w)
    case None => NotLocated(NotInstalled)
    case Some((path, node)) =>
      if path == "" then NotLocated(NotInstalled)
      else match CheckMigrationsField(node.migrations)
        case Rejected(reason) => NotLocated(reason)
        case Accepted(p) =>
          match w.collections(path, p)
          case NotFound => NotLocated(CollectionMissing)
          case LookupFailed => NotLocated(CollectionUnresolvable)
          case Found(ms) => Located(node, ms)
  }

  // ---------------------------------------------------- migrate-only: running

  /** The `--migrate-only` path, from its own checks to the migrations' result. */
  function MigrateOnlyOutcome(o: Options, w: World, packages: seq<PackageIdentifier>): (r: (RunResult, seq<Action>))
    ensures r.0 == Uncaught || (r.0.Exit? && r.0.code <= 1)
  {
    if !Given(o.from) && !o.migrateOnly.Named? then (Exit(1), [])
    else if |packages| != 1 then (Exit(1), [])
    else
      var name := packages[0].name;
      match Locate(name, w)
      case NotLocated(_) => (Exit(1), [])
      case Located(node, ms) =>
        if o.migrateOnly.Named? then
          var run := MigrationByName(name, ms, o.migrateOnly.name, o.createCommits, w.engine);
          (ExitCode(run.0), run.1)
        else match CoerceVersionNumber(o.from)
          case None => (Exit(1), [])
          case Some(from) =>
            var to := if Given(o.to) then o.to.value else node.version;
            var run := MigrationsInRange(name, ms, from, to, o.createCommits, w.engine);
            (if run.0.None? then Uncaught else ExitCode(run.0.value), run.1)
  }

  method MigrateOnlyRun(o: Options, w: World, packages: seq<PackageIdentifier>)
    returns (result: RunResult, trace: seq<Action>)
    ensures (result, trace) == MigrateOnlyOutcome(o, w, packages)
  {
    if !Given(o.from) && !o.migrateOnly.Named? {
      return Exit(1), [];
    }
    if |packages| != 1 {
      return Exit(1), [];
    }
    var name := packages[0].name;
    var located := Locate(name, w);
    if located.NotLocated? {
      return Exit(1), [];
    }
    if o.migrateOnly.Named? {
      var ok;
      ok, trace := ExecuteMigration(name, located.migrations, o.migrateOnly.name, o.createCommits, w.engine);
      return ExitCode(ok), trace;
    }
    var from := CoerceVersionNumber(o.from);
    if from.None? {
      return Exit(1), [];
    }
    var to := if Given(o.to) then o.to.value else located.package.version;
    var outcome;
    outcome, trace := ExecuteMigrations(name, located.migrations, from.value, to, o.createCommits, w.engine);
    result := if outcome.None? then Uncaught else ExitCode(outcome.value);
  }

  // ----------------------------------------------------- update: the requests

  /** A package to update, with its installed `package.json`. */
  datatype Request = Request(identifier: PackageIdentifier, installed: PackageJson)

  predicate IsDependency(p: PackageIdentifier, deps: map<string, Dependency>)
  {
    p.name in deps && deps[p.name].package.Some?
  }

  /** An exact-version request for the version already installed is skipped. */
  predicate AlreadyAtVersion(p: PackageIdentifier, installed: PackageJson)
  {
    p.specType == VersionSpec && installed.version == p.fetchSpec
  }

  /** The requests kept, in order; `None` when some package is not an installed dependency. */
  function Requests(ps: seq<PackageIdentifier>, deps: map<string, Dependency>): Option<seq<Request>>
    decreases |ps|
  {
    if ps == [] then Some([])
    else if !IsDependency(ps[0], deps) then None
    else
      var installed := deps[ps[0].name].package.value;
      match Requests(ps[1..], deps)
      case None => None
      case Some(rs) => Some(if AlreadyAtVersion(ps[0], installed) then rs else [Request(ps[0], installed)] + rs)
  }

  function Prepended<T>(xs: seq<T>, r: Option<seq<T>>): Option<seq<T>>
  {
    match r
    case None => None
    case Some(ys) => Some(xs + ys)
  }

  lemma {:induction false} PrependedNothing<T>(r: Option<seq<T>>)
    ensures Prepended([], r) == r
  {
    if r.Some? { assert [] + r.value == r.value; }
  }

  lemma {:induction false} PrependedTwice<T>(xs: seq<T>, ys: seq<T>, r: Option<seq<T>>)
    ensures Prepended(xs, Prepended(ys, r)) == Prepended(xs + ys, r)
  {
    if r.Some? { assert xs + (ys + r.value) == (xs + ys) + r.value; }
  }

  /** The loop that validates the packages against the workspace and builds `requests`. */
  method FilterRequests(ps: seq<PackageIdentifier>, deps: map<string, Dependency>)
    returns (requests: Option<seq<Request>>)
    ensures requests == Requests(ps, deps)
  {
    var rs: seq<Request> := [];
    var i := 0;
    assert ps[i..] == ps;
    PrependedNothing(Requests(ps, deps));
    while i < |ps|
      invariant 0 <= i <= |ps|
      invariant Requests(ps, deps) == Prepended(rs, Requests(ps[i..], deps))
    {
      assert ps[i..][0] == ps[i] && ps[i..][1..] == ps[i + 1..];
      var pkg := ps[i];
      if pkg.name !in deps || deps[pkg.name].package.None? {
        return None;
      }
      var node := deps[pkg.name].package.value;
      if !AlreadyAtVersion(pkg, node) {
        PrependedTwice(rs, [Request(pkg, node)], Requests(ps[i + 1..], deps));
        rs := rs + [Request(pkg, node)];
      }
      i := i + 1;
    }
    assert ps[i..] == [] && rs + [] == rs;
    requests := Some(rs);
  }

  // ----------------------------------------------------- update: the manifests

  datatype Manifest = Chosen(version: string) | Missing | Threw

  /** Which manifest a request settles on; a bare `next` falls back to `latest`. */
  function PickManifest(id: PackageIdentifier, pick: (string, string) -> PickResult): (m: Manifest)
    ensures m.Chosen? ==> id.specType != OtherSpec
    ensures id.specType != OtherSpec && pick(id.name, id.fetchSpec).Picked? ==>
      m == Chosen(pick(id.name, id.fetchSpec).version)
    ensures m.Chosen? && !pick(id.name, id.fetchSpec).Picked? ==>
      FallsBackToLatest(id) && pick(id.name, "latest") == Picked(m.version)
    ensures m == Threw <==>
      (id.specType != OtherSpec &&
       (pick(id.name, id.fetchSpec) == PickFailed ||
        (pick(id.name, id.fetchSpec) == NoMatchingVersion && FallsBackToLatest(id) && pick(id.name, "latest") == PickFailed)))
    ensures m == Missing <==>
      (id.specType == OtherSpec || pick(id.name, id.fetchSpec) == NoVersions ||
       (pick(id.name, id.fetchSpec) == NoMatchingVersion &&
        (!FallsBackToLatest(id) || pick(id.name, "latest") in {NoMatchingVersion, NoVersions})))
  {
    if id.specType == OtherSpec then Missing
    else match pick(id.name, id.fetchSpec)
      case Picked(v) => Chosen(v)
      case NoVersions => Missing
      case PickFailed => Threw
      case NoMatchingVersion =>
        if FallsBackToLatest(id) then
          match pick(id.name, "latest")
          case Picked(v) => Chosen(v)
          case PickFailed => Threw
          case _ => Missing
        else Missing
  }

  /** A `next` tag the user did not write, which may be missing from the registry. */
  predicate FallsBackToLatest(id: PackageIdentifier)
  {
    id.specType == TagSpec && id.fetchSpec == "next" && id.rawSpec == ""
  }

  /** `+text.split('.')[0]` where the first piece is digits only (an empty piece reads as 0); `None` for `NaN`. */
  function LeadingNumber(text: string): (r: Option<nat>)
  {
    var first := Split(text, '.')[0];
    if AllDigits(first) then Some(DecimalValue(first)) else None
  }

  /** The guard against installing `@angular/cli` 12 or later over a version before 9. */
  predicate MajorJump(installed: PackageJson, target: string)
  {
    && installed.name == AngularCli
    && LeadingNumber(installed.version).Some? && LeadingNumber(target).Some?
    && LeadingNumber(installed.version).value < 9 && LeadingNumber(target).value >= 12
  }

  /** The major version the guard's message recommends; no entry (`undefined`) for the other majors. */
  function RecommendedMajor(current: nat): (r: Option<nat>)
    ensures r.Some? <==> current == 1 || 6 <= current <= 8
    ensures r.Some? ==> current < r.value <= 9
  {
    if current == 1 then Some(6) else if 6 <= current <= 8 then Some(current + 1) else None
  }

  /** Why the update path stopped at a request. */
  datatype Stop = MetadataUnavailable | NotInRegistry | MultipleMajors(recommended: Option<nat>) | PickThrew

  function StopResult(s: Stop): (r: RunResult)
    ensures r == Uncaught <==> s == PickThrew
    ensures r != Uncaught ==> r == Exit(1)
  {
    if s == PickThrew then Uncaught else Exit(1)
  }

  datatype Decision = Install(spec: string) | UpToDate | Halt(reason: Stop)

  /** What the update loop does with one request. */
  function Decide(r: Request, w: World): (d: Decision)
    ensures d == Halt(MetadataUnavailable) <==> !w.metadata(r.identifier.name)
    ensures d == Halt(PickThrew) <==> w.metadata(r.identifier.name) && PickManifest(r.identifier, w.pick) == Threw
    ensures d == Halt(NotInRegistry) <==> w.metadata(r.identifier.name) && PickManifest(r.identifier, w.pick) == Missing
    ensures d.Halt? && d.reason.MultipleMajors? <==>
      && w.metadata(r.identifier.name)
      && PickManifest(r.identifier, w.pick).Chosen?
      && MajorJump(r.installed, PickManifest(r.identifier, w.pick).version)
    ensures d.Halt? && d.reason.MultipleMajors? ==>
      d.reason.recommended == RecommendedMajor(LeadingNumber(r.installed.version).value)
    ensures !d.Halt? ==>
      && w.metadata(r.identifier.name)
      && PickManifest(r.identifier, w.pick).Chosen?
      && !MajorJump(r.installed, PickManifest(r.identifier, w.pick).version)
    ensures d.UpToDate? <==> !d.Halt? && PickManifest(r.identifier, w.pick).version == r.installed.version
    ensures d.Install? ==> d.spec == RequestText(r.identifier)
  {
    var name := r.identifier.name;
    if !w.metadata(name) then Halt(MetadataUnavailable)
    else match PickManifest(r.identifier, w.pick)
      case Threw => Halt(PickThrew)
      case Missing => Halt(NotInRegistry)
      case Chosen(v) =>
        if MajorJump(r.installed, v) then Halt(MultipleMajors(RecommendedMajor(LeadingNumber(r.installed.version).value)))
        else if v == r.installed.version then UpToDate
        else Install(RequestText(r.identifier))
  }

  datatype Choice = Proceed(specs: seq<string>) | Stopped(reason: Stop)

  /** The loop over the requests that builds `packagesToUpdate`, stopping at the first request that halts. */
  function Choose(rs: seq<Request>, w: World): (c: Choice)
    decreases |rs|
  {
    if rs == [] then Proceed([])
    else match Decide(rs[0], w)
      case Halt(reason) => Stopped(reason)
      case UpToDate => Choose(rs[1..], w)
      case Install(s) =>
        match Choose(rs[1..], w)
        case Stopped(reason) => Stopped(reason)
        case Proceed(ss) => Proceed([s] + ss)
  }

  function PrependSpecs(ss: seq<string>, c: Choice): Choice
  {
    match c
    case Stopped(reason) => Stopped(reason)
    case Proceed(ts) => Proceed(ss + ts)
  }

  lemma {:induction false} PrependSpecsTwice(xs: seq<string>, ys: seq<string>, c: Choice)
    ensures PrependSpecs(xs, PrependSpecs(ys, c)) == PrependSpecs(xs + ys, c)
  {
    if c.Proceed? { assert xs + (ys + c.specs) == (xs + ys) + c.specs; }
  }

  method ChooseUpdates(rs: seq<Request>, w: World) returns (choice: Choice)
    ensures choice == Choose(rs, w)
  {
    var packagesToUpdate: seq<string> := [];
    var i := 0;
    assert rs[i..] == rs;
    while i < |rs|
      invariant 0 <= i <= |rs|
      invariant Choose(rs, w) == PrependSpecs(packagesToUpdate, Choose(rs[i..], w))
    {
      assert rs[i..][0] == rs[i] && rs[i..][1..] == rs[i + 1..];
      var d := Decide(rs[i], w);
      match d {
        case Halt(reason) =>
          return Stopped(reason);
        case UpToDate =>
        case Install(s) =>
          PrependSpecsTwice(packagesToUpdate, [s], Choose(rs[i + 1..], w));
          packagesToUpdate := packagesToUpdate + [s];
      }
      i := i + 1;
    }
    assert rs[i..] == [];
    choice := Proceed(packagesToUpdate);
  }

  // -------------------------------------------- update: schematic and after

  /** The update commit's message: the fixed prefix, then the specifiers separated by `, `. */
  function UpdateCommitMessage(specs: seq<string>): (msg: string)
    ensures StartsWith(msg, UpdateCommitPrefix)
    ensures |specs| == 1 ==> msg == UpdateCommitPrefix + specs[0]
  {
    UpdateCommitPrefix + Join(specs, ", ")
  }

  /** Where a migration package's collection is: resolve the package, then the collection from it. */
  function ExternalCollection(x: ExternalMigration, w: World): Lookup<seq<Migration>>
  {
    match w.packagePaths(x.package)
    case Found(path) => w.collections(path, x.collection)
    case NotFound => NotFound
    case LookupFailed => LookupFailed
  }

  /** One handed-back migration entry: `None` when the loop goes on, else the command's result, and what was done. */
  function ExternalStep(x: ExternalMigration, commit: bool, w: World): (Option<RunResult>, seq<Action>)
  {
    match ExternalCollection(x, w)
    case NotFound => (Some(Exit(1)), [])
    case LookupFailed => (Some(Exit(1)), [])
    case Found(ms) =>
      var run := MigrationsInRange(x.package, ms, x.from, x.to, commit, w.engine);
      match run.0
      case None => (Some(Uncaught), run.1)
      case Some(ok) => (if ok then None else Some(Exit(0)), run.1)
  }

  /** The loop over the migrations the update schematic hands back. */
  function ExternalRuns(xs: seq<ExternalMigration>, commit: bool, w: World): (r: (RunResult, seq<Action>))
    ensures r.0 == Uncaught || r.0 == Exit(0) || r.0 == Exit(1)
    decreases |xs|
  {
    if xs == [] then (Exit(0), [])
    else
      var step := ExternalStep(xs[0], commit, w);
      if step.0.Some? then (step.0.value, step.1)
      else
        var rest := ExternalRuns(xs[1..], commit, w);
        (rest.0, step.1 + rest.1)
  }

  /** One pass of the loop: resolve the package and its collection, then run the migrations in range. */
  method RunExternalMigration(x: ExternalMigration, commit: bool, w: World)
    returns (stop: Option<RunResult>, steps: seq<Action>)
    ensures (stop, steps) == ExternalStep(x, commit, w)
  {
    var packagePath := w.packagePaths(x.package);
    var collection := if packagePath.Found? then w.collections(packagePath.value, x.collection) else NotFound;
    if !collection.Found? {
      return Some(Exit(1)), [];
    }
    var outcome;
    outcome, steps := ExecuteMigrations(x.package, collection.value, x.from, x.to, commit, w.engine);
    if outcome.None? {
      stop := Some(Uncaught);
    } else if outcome.value {
      stop := None;
    } else {
      stop := Some(Exit(0));
    }
  }

  method RunExternalMigrations(xs: seq<ExternalMigration>, commit: bool, w: World)
    returns (result: RunResult, trace: seq<Action>)
    ensures (result, trace) == ExternalRuns(xs, commit, w)
  {
    ghost var ss := ExternalSteps(xs, commit, w);
    ExternalRunsChain(xs, commit, w);
    trace := [];
    var i := 0;
    assert ss[i..] == ss;
    while i < |xs|
      invariant 0 <= i <= |xs|
      invariant Chain(ss).0 == Chain(ss[i..]).0
      invariant Chain(ss).1 == trace + Chain(ss[i..]).1
    {
      ChainStep(ss, i);
      var stop, steps := RunExternalMigration(xs[i], commit, w);
      assert ss[i] == (stop, steps);
      if stop.Some? {
        return stop.value, trace + steps;
      }
      trace := trace + steps;
      i := i + 1;
    }
    assert ss[i..] == [] && trace + [] == trace;
    result := Exit(0);
  }

  /** The result of each entry's step, in order. */
  function ExternalSteps(xs: seq<ExternalMigration>, commit: bool, w: World): (ss: seq<(Option<RunResult>, seq<Action>)>)
    ensures |ss| == |xs|
    ensures forall j :: 0 <= j < |xs| ==> ss[j] == ExternalStep(xs[j], commit, w)
  {
    seq(|xs|, j requires 0 <= j < |xs| => ExternalStep(xs[j], commit, w))
  }

  /** The steps' results folded: the first one that stops decides, the actions accumulate. */
  function Chain(ss: seq<(Option<RunResult>, seq<Action>)>): (RunResult, seq<Action>)
    decreases |ss|
  {
    if ss == [] then (Exit(0), [])
    else if ss[0].0.Some? then (ss[0].0.value, ss[0].1)
    else
      var rest := Chain(ss[1..]);
      (rest.0, ss[0].1 + rest.1)
  }

  lemma {:induction false} ChainStep(ss: seq<(Option<RunResult>, seq<Action>)>, i: nat)
    requires i < |ss|
    ensures Chain(ss[i..]) == if ss[i].0.Some? then (ss[i].0.value, ss[i].1) else (Chain(ss[i + 1..]).0, ss[i].1 + Chain(ss[i + 1..]).1)
  {
    assert ss[i..][0] == ss[i] && ss[i..][1..] == ss[i + 1..];
  }

  lemma {:induction false} ExternalRunsChain(xs: seq<ExternalMigration>, commit: bool, w: World)
    ensures ExternalRuns(xs, commit, w) == Chain(ExternalSteps(xs, commit, w))
    decreases |xs|
  {
    if xs != [] {
      ExternalRunsChain(xs[1..], commit, w);
      assert ExternalSteps(xs, commit, w)[1..] == ExternalSteps(xs[1..], commit, w);
    }
  }

  /** Run the update schematic for the chosen packages, commit, and run the migrations it hands back. */
  function AfterUpdate(o: Options, w: World, specs: seq<string>): (r: (RunResult, seq<Action>))
    ensures r.0 == Uncaught || r.0 == Exit(0) || r.0 == Exit(1)
    ensures |r.1| >= 1 && r.1[0] == RanSchematic(UpdateCollection, UpdateSchematic)
  {
    var success := SchematicSucceeds(w.update(specs));
    var ran := [RanSchematic(UpdateCollection, UpdateSchematic)];
    var message := UpdateCommitMessage(specs);
    var outcome := Commit(message, w.engine.git(message));
    var done := if success && o.createCommits then ran + [Checkpoint(message, outcome)] else ran;
    if success && o.createCommits && !Succeeded(outcome) then (Exit(1), done)
    else if success && w.externalMigrations.Some? then
      var ext := ExternalRuns(w.externalMigrations.value, o.createCommits, w);
      (ext.0, done + ext.1)
    else (ExitCode(success), done)
  }

  /** The update path, from validating the packages against the workspace onwards. */
  function UpdateOutcome(o: Options, w: World, packages: seq<PackageIdentifier>): (r: (RunResult, seq<Action>))
    ensures r.0 == Uncaught || r.0 == Exit(0) || r.0 == Exit(1)
  {
    match Requests(packages, w.dependencies)
    case None => (Exit(1), [])
    case Some(rs) =>
      if rs == [] then (Exit(0), [])
      else match Choose(rs, w)
        case Stopped(reason) => (StopResult(reason), [])
        case Proceed(specs) => if specs == [] then (Exit(0), []) else AfterUpdate(o, w, specs)
  }

  method UpdateRun(o: Options, w: World, packages: seq<PackageIdentifier>)
    returns (result: RunResult, trace: seq<Action>)
    ensures (result, trace) == UpdateOutcome(o, w, packages)
  {
    var requests := FilterRequests(packages, w.dependencies);
    if requests.None? {
      return Exit(1), [];
    }
    if |requests.value| == 0 {
      return Exit(0), [];
    }
    var choice := ChooseUpdates(requests.value, w);
    if choice.Stopped? {
      return StopResult(choice.reason), [];
    }
    var packagesToUpdate := choice.specs;
    if |packagesToUpdate| == 0 {
      return Exit(0), [];
    }
    var status, _, _ := ExecuteSchematic(w.update(packagesToUpdate));
    trace := [RanSchematic(UpdateCollection, UpdateSchematic)];
    if status.success && o.createCommits {
      var message := UpdateCommitMessage(packagesToUpdate);
      var outcome := Commit(message, w.engine.git(message));
      trace := trace + [Checkpoint(message, outcome)];
      if !Succeeded(outcome) {
        return Exit(1), trace;
      }
    }
    if status.success && w.externalMigrations.Some? {
      var ext, steps := RunExternalMigrations(w.externalMigrations.value, o.createCommits, w);
      return ext, trace + steps;
    }
    result := ExitCode(status.success);
  }

  // ------------------------------------------------------------------ run

  /** Whether the checks before the dirty-tree guard pass, giving the collected packages. */
  predicate PassesArguments(o: Options, w: World)
  {
    && !(!DisableVersionCheck(w.versionCheckEnv) && w.cliOutdated)
    && !o.all
    && Collect(o.requests, w.npa, o.next, []).Some?
    && !(!Truthy(o.migrateOnly) && (Given(o.from) || Given(o.to)))
  }

  /** What `run` returns, and the schematics and commits it goes through. */
  function Outcome(o: Options, w: World): (r: (RunResult, seq<Action>))
  {
    if !DisableVersionCheck(w.versionCheckEnv) && w.cliOutdated then (DelegatedToLatestCli, [])
    else if o.all then (Exit(0), [])
    else match Collect(o.requests, w.npa, o.next, [])
      case None => (Exit(1), [])
      case Some(packages) =>
        if !Truthy(o.migrateOnly) && (Given(o.from) || Given(o.to)) then (Exit(1), [])
        else if packages != [] && !w.cleanTree && !o.allowDirty then (Exit(2), [])
        else if packages == [] then
          (ExitCode(SchematicSucceeds(w.update([]))), [RanSchematic(UpdateCollection, UpdateSchematic)])
        else if Truthy(o.migrateOnly) then MigrateOnlyOutcome(o, w, packages)
        else UpdateOutcome(o, w, packages)
  }

  /** `run`. */
  method Run(o: Options, w: World) returns (result: RunResult, trace: seq<Action>)
    ensures (result, trace) == Outcome(o, w)
  {
    if !DisableVersionCheck(w.versionCheckEnv) && w.cliOutdated {
      return DelegatedToLatestCli, [];
    }
    if o.all {
      return Exit(0), [];
    }
    var collected := CollectPackages(o.requests, w.npa, o.next);
    if collected.None? {
      return Exit(1), [];
    }
    var packages := collected.value;
    if !Truthy(o.migrateOnly) && (Given(o.from) || Given(o.to)) {
      return Exit(1), [];
    }
    if |packages| > 0 && !w.cleanTree && !o.allowDirty {
      return Exit(2), [];
    }
    if |packages| == 0 {
      var status, _, _ := ExecuteSchematic(w.update([]));
      return ExitCode(status.success), [RanSchematic(UpdateCollection, UpdateSchematic)];
    }
    if Truthy(o.migrateOnly) {
      result, trace := MigrateOnlyRun(o, w, packages);
    } else {
      result, trace := UpdateRun(o, w, packages);
    }
  }

  // ================================================================== lemmas

  // ------------------------------------------------------- environment flag

  /** Only `0`, read in any letter case, is `0`. */
  lemma {:induction false} LowerZero(a: string)
    ensures LowerAscii(a) == "0" <==> a == "0"
  {
    if LowerAscii(a) == "0" {
      assert LowerAscii(a)[0] == '0';
      assert a == [a[0]];
    }
    if a == "0" {
      assert LowerAscii(a) == [LowerAscii(a)[0]];
    }
  }

  /** The flag does not depend on the letter case of the variable's value. */
  lemma {:induction false} DisableVersionCheckIgnoresCase(a: string, b: string)
    requires LowerAscii(a) == LowerAscii(b)
    ensures DisableVersionCheck(Some(a)) == DisableVersionCheck(Some(b))
  {
    LowerZero(a);
    LowerZero(b);
  }

  /** Unset, `0` and `false` in capitals leave the check on; `1` and `true` turn it off. */
  lemma {:induction false} DisableVersionCheckValues()
    ensures !DisableVersionCheck(None) && !DisableVersionCheck(Some("0"))
    ensures !DisableVersionCheck(Some("FALSE")) && !DisableVersionCheck(Some("False"))
    ensures DisableVersionCheck(Some("1")) && DisableVersionCheck(Some("true"))
  {
    assert LowerAscii("FALSE") == "false" by {
      var r := LowerAscii("FALSE");
      assert r[0] == 'f' && r[1] == 'a' && r[2] == 'l' && r[3] == 's' && r[4] == 'e';
    }
    assert LowerAscii("False") == "false" by {
      var r := LowerAscii("False");
      assert r[0] == 'f' && r[1] == 'a' && r[2] == 'l' && r[3] == 's' && r[4] == 'e';
    }
    assert LowerAscii("true") != "false" by {
      assert |LowerAscii("true")| == 4;
    }
    assert LowerAscii("1") != "false" by {
      assert |LowerAscii("1")| == 1;
    }
  }

  // --------------------------------------------------- the package arguments

  /**
   * Every request parses to a registry identifier, and no identifier's name
   * repeats another's or one of `acc`.
   */
  ghost predicate Acceptable(reqs: seq<string>, npa: string -> Option<PackageIdentifier>, acc: seq<PackageIdentifier>)
  {
    && (forall i :: 0 <= i < |reqs| ==> npa(reqs[i]).Some? && npa(reqs[i]).value.registry)
    && (forall i, k :: 0 <= i < |reqs| && 0 <= k < |acc| && npa(reqs[i]).Some? ==>
          npa(reqs[i]).value.name != acc[k].name)
    && (forall i, j :: 0 <= i < j < |reqs| && npa(reqs[i]).Some? && npa(reqs[j]).Some? ==>
          npa(reqs[i]).value.name != npa(reqs[j]).value.name)
  }

  /**
   * The requests are accepted exactly when each parses to a registry
   * identifier and no package is named twice; the packages are then the
   * parsed identifiers in order, with `next` fetched where asked for.
   */
  lemma {:induction false} CollectExactly(reqs: seq<string>, npa: string -> Option<PackageIdentifier>, next: bool,
                                          acc: seq<PackageIdentifier>)
    ensures Collect(reqs, npa, next, acc).Some? <==> Acceptable(reqs, npa, acc)
    ensures Collect(reqs, npa, next, acc).Some? ==>
      var ps := Collect(reqs, npa, next, acc).value;
      && |ps| == |acc| + |reqs| && ps[..|acc|] == acc
      && forall i :: 0 <= i < |reqs| ==> ps[|acc| + i] == AdjustTag(npa(reqs[i]).value, next)
    decreases |reqs|
  {
    if reqs == [] {
      assert acc[..|acc|] == acc;
    } else {
      var t := reqs[1..];
      match npa(reqs[0]) {
        case None =>
        case Some(id) =>
          if !id.registry {
          } else if Taken(acc, id.name) {
          } else {
            var acc' := acc + [AdjustTag(id, next)];
            assert acc'[|acc|].name == id.name;
            CollectExactly(t, npa, next, acc');
            if Acceptable(reqs, npa, acc) {
              forall i | 0 <= i < |t|
                ensures npa(t[i]).Some? && npa(t[i]).value.registry
              {
                assert t[i] == reqs[i + 1];
              }
              forall i, k | 0 <= i < |t| && 0 <= k < |acc'| && npa(t[i]).Some?
                ensures npa(t[i]).value.name != acc'[k].name
              {
                assert t[i] == reqs[i + 1];
                if k < |acc| {
                  assert acc'[k] == acc[k];
                }
              }
              forall i, j | 0 <= i < j < |t| && npa(t[i]).Some? && npa(t[j]).Some?
                ensures npa(t[i]).value.name != npa(t[j]).value.name
              {
                assert t[i] == reqs[i + 1] && t[j] == reqs[j + 1];
              }
            }
            if Acceptable(t, npa, acc') {
              forall i | 0 <= i < |reqs|
                ensures npa(reqs[i]).Some? && npa(reqs[i]).value.registry
              {
                if i > 0 {
                  assert reqs[i] == t[i - 1];
                }
              }
              forall i, k | 0 <= i < |reqs| && 0 <= k < |acc| && npa(reqs[i]).Some?
                ensures npa(reqs[i]).value.name != acc[k].name
              {
                if i > 0 {
                  assert reqs[i] == t[i - 1] && acc'[k] == acc[k];
                }
              }
              forall i, j | 0 <= i < j < |reqs| && npa(reqs[i]).Some? && npa(reqs[j]).Some?
                ensures npa(reqs[i]).value.name != npa(reqs[j]).value.name
              {
                assert reqs[j] == t[j - 1];
                if i > 0 {
                  assert reqs[i] == t[i - 1];
                }
              }
            }
            if Collect(reqs, npa, next, acc).Some? {
              var ps := Collect(reqs, npa, next, acc).value;
              assert ps[..|acc'|] == acc';
              assert ps[..|acc|] == acc by {
                assert ps[..|acc|] == ps[..|acc'|][..|acc|];
              }
              forall i | 0 <= i < |reqs|
                ensures ps[|acc| + i] == AdjustTag(npa(reqs[i]).value, next)
              {
                if i == 0 {
                  assert ps[|acc|] == ps[..|acc'|][|acc|];
                } else {
                  assert reqs[i] == t[i - 1];
                  assert ps[|acc'| + (i - 1)] == AdjustTag(npa(t[i - 1]).value, next);
                }
              }
            }
          }
      }
    }
  }

  /** With `--next`, a request without a specifier asks for the `next` tag and may fall back to `latest`. */
  lemma {:induction false} BareRequestWithNext(id: PackageIdentifier)
    requires id.specType == TagSpec && id.rawSpec == "" && id.name != ""
    ensures FallsBackToLatest(AdjustTag(id, true))
    ensures RequestText(AdjustTag(id, true)) == id.name + "@next"
  {
  }

  // ------------------------------------------------- migrate-only: locating

  /** An accepted migrations path has no backslash, is absolute for neither platform, and does not start at `../`. */
  lemma {:induction false} AcceptedPathIsRelative(field: MigrationsField)
    ensures CheckMigrationsField(field).Accepted? ==>
      var p := CheckMigrationsField(field).path;
      && '\\' !in p && !PosixAbsolute(p) && !Win32Absolute(p) && !StartsWith(p, "../")
  {
    if CheckMigrationsField(field).Accepted? {
      var s := field.path;
      var p := ReplaceBackslashes(s);
      if |p| > 2 {
        assert IsSeparator(p[2]) ==> IsSeparator(s[2]);
        assert p[1] == ':' ==> s[1] == ':';
      }
    }
  }

  /**
   * The outside-the-package check looks only at a leading `../`: a path that
   * climbs out after a leading `./` is accepted as it is.
   */
  lemma {:induction false} ParentAfterDotAccepted(rest: string)
    requires '\\' !in rest
    ensures CheckMigrationsField(Text("./" + rest)) == Accepted("./" + rest)
  {
    var s := "./" + rest;
    assert ReplaceBackslashes(s) == s;
    assert s[1] == '/';
  }

  // ---------------------------------------------------- migrate-only: running

  /** Without `--from` or a migration name, or with other than one package, `--migrate-only` ends with 1 and runs nothing. */
  lemma {:induction false} MigrateOnlyRefusesArguments(o: Options, w: World, packages: seq<PackageIdentifier>)
    requires (!Given(o.from) && !o.migrateOnly.Named?) || |packages| != 1
    ensures MigrateOnlyOutcome(o, w, packages) == (Exit(1), [])
  {
  }

  /** A named migration of a located package: its result decides the exit code, and it is all that runs. */
  lemma {:induction false} MigrateOnlyByName(o: Options, w: World, p: PackageIdentifier, n: string)
    requires o.migrateOnly == Named(n) && Locate(p.name, w).Located?
    ensures var run := MigrationByName(p.name, Locate(p.name, w).migrations, n, o.createCommits, w.engine);
      MigrateOnlyOutcome(o, w, [p]) == (ExitCode(run.0), run.1)
  {
  }

  /**
   * Without a name, the migrations of a located package run on the range from
   * the coerced `--from` to `--to`, or to the installed version when `--to` is
   * not given; a range that cannot be built is an error the command does not
   * catch.
   */
  lemma {:induction false} MigrateOnlyInRange(o: Options, w: World, p: PackageIdentifier, from: string)
    requires !o.migrateOnly.Named? && CoerceVersionNumber(o.from) == Some(from) && Locate(p.name, w).Located?
    ensures var to := if Given(o.to) then o.to.value else Locate(p.name, w).package.version;
      var run := MigrationsInRange(p.name, Locate(p.name, w).migrations, from, to, o.createCommits, w.engine);
      MigrateOnlyOutcome(o, w, [p]) == (if run.0.None? then Uncaught else ExitCode(run.0.value), run.1)
  {
  }

  /** Without a name, a `--from` that does not coerce ends `--migrate-only` with 1 before anything runs. */
  lemma {:induction false} UncoercibleFromRunsNothing(o: Options, w: World, packages: seq<PackageIdentifier>)
    requires !o.migrateOnly.Named? && CoerceVersionNumber(o.from).None?
    ensures MigrateOnlyOutcome(o, w, packages) == (Exit(1), [])
  {
  }

  // ----------------------------------------------------- update: the requests

  /** The kept requests are the dependencies' requests that do not ask for the version already installed. */
  ghost predicate KeptExactly(ps: seq<PackageIdentifier>, deps: map<string, Dependency>, rs: seq<Request>)
  {
    forall r :: r in rs <==>
      exists i :: 0 <= i < |ps| && IsDependency(ps[i], deps)
        && r == Request(ps[i], deps[ps[i].name].package.value)
        && !AlreadyAtVersion(ps[i], deps[ps[i].name].package.value)
  }

  /**
   * The packages pass exactly when each is an installed dependency, and the
   * requests kept are those that do not name the installed version exactly.
   */
  lemma {:induction false} RequestsExactly(ps: seq<PackageIdentifier>, deps: map<string, Dependency>)
    ensures Requests(ps, deps).Some? <==> forall i :: 0 <= i < |ps| ==> IsDependency(ps[i], deps)
    ensures Requests(ps, deps).Some? ==> KeptExactly(ps, deps, Requests(ps, deps).value)
    decreases |ps|
  {
    if ps != [] {
      var t := ps[1..];
      RequestsExactly(t, deps);
      if !IsDependency(ps[0], deps) {
        assert Requests(ps, deps).None?;
      } else {
        if forall i :: 0 <= i < |t| ==> IsDependency(t[i], deps) {
          forall i | 0 <= i < |ps| ensures IsDependency(ps[i], deps) {
            if i > 0 {
              assert ps[i] == t[i - 1];
            }
          }
        }
        if forall i :: 0 <= i < |ps| ==> IsDependency(ps[i], deps) {
          forall i | 0 <= i < |t| ensures IsDependency(t[i], deps) {
            assert t[i] == ps[i + 1];
          }
        }
        if Requests(ps, deps).Some? {
          var rs := Requests(ps, deps).value;
          var tail := Requests(t, deps).value;
          var installed := deps[ps[0].name].package.value;
          forall r
            ensures r in rs <==>
              exists i :: 0 <= i < |ps| && IsDependency(ps[i], deps)
                && r == Request(ps[i], deps[ps[i].name].package.value)
                && !AlreadyAtVersion(ps[i], deps[ps[i].name].package.value)
          {
            if r in rs {
              if r in tail {
                var i :| 0 <= i < |t| && IsDependency(t[i], deps)
                  && r == Request(t[i], deps[t[i].name].package.value)
                  && !AlreadyAtVersion(t[i], deps[t[i].name].package.value);
                assert ps[i + 1] == t[i];
              } else {
                assert r == Request(ps[0], installed) && !AlreadyAtVersion(ps[0], installed);
              }
            }
            if exists i :: 0 <= i < |ps| && IsDependency(ps[i], deps)
                && r == Request(ps[i], deps[ps[i].name].package.value)
                && !AlreadyAtVersion(ps[i], deps[ps[i].name].package.value)
            {
              var i :| 0 <= i < |ps| && IsDependency(ps[i], deps)
                && r == Request(ps[i], deps[ps[i].name].package.value)
                && !AlreadyAtVersion(ps[i], deps[ps[i].name].package.value);
              if i > 0 {
                assert t[i - 1] == ps[i];
                assert r in tail;
              }
            }
          }
        }
      }
    }
  }

  // ----------------------------------------------------- update: the manifests

  /** Outside a bare `next`, `latest` is never consulted: the manifest depends only on the requested specifier. */
  lemma {:induction false} LatestOnlyForBareNext(id: PackageIdentifier, p1: (string, string) -> PickResult,
                                                 p2: (string, string) -> PickResult)
    requires !FallsBackToLatest(id)
    requires p1(id.name, id.fetchSpec) == p2(id.name, id.fetchSpec)
    ensures PickManifest(id, p1) == PickManifest(id, p2)
  {
  }

  /** A bare `next` that the registry lacks takes `latest` instead. */
  lemma {:induction false} NextFallsBackToLatest(id: PackageIdentifier, pick: (string, string) -> PickResult, v: string)
    requires FallsBackToLatest(id)
    requires pick(id.name, "next") == NoMatchingVersion && pick(id.name, "latest") == Picked(v)
    ensures PickManifest(id, pick) == Chosen(v)
  {
  }

  /** The first piece of a formatted version reads as its major version. */
  lemma {:induction false} LeadingNumberOfVersion(v: Version)
    ensures LeadingNumber(Format(v)) == Some(v.major)
  {
    var major := NatToString(v.major);
    var tail := Format(v)[|major| + 1..];
    assert Format(v) == major + ['.'] + tail;
    NumeralExcludes(v.major, '.');
    SplitPieceThenSeparator(major, tail, '.');
    DecimalOfNatToString(v.major);
  }

  /** On versions `semver` prints, the guard compares major versions: before 9 to 12 or later is refused. */
  lemma {:induction false} MajorJumpOnVersions(installed: PackageJson, current: Version, target: Version)
    requires installed.name == AngularCli && installed.version == Format(current)
    ensures MajorJump(installed, Format(target)) <==> current.major < 9 && target.major >= 12
  {
    LeadingNumberOfVersion(current);
    LeadingNumberOfVersion(target);
  }

  /** No request before `k` halts. */
  ghost predicate NoHaltBefore(rs: seq<Request>, w: World, k: nat)
    requires k <= |rs|
  {
    forall j :: 0 <= j < k ==> !Decide(rs[j], w).Halt?
  }

  /** The specifiers are those of the requests that install something. */
  ghost predicate InstallsExactly(rs: seq<Request>, w: World, ss: seq<string>)
  {
    forall s :: s in ss <==> exists i :: 0 <= i < |rs| && Decide(rs[i], w) == Install(s)
  }

  /**
   * The loop goes through exactly when no request halts, and then collects
   * the specifiers of the requests that install something; otherwise it
   * stops with the reason of the first request that halts.
   */
  lemma {:induction false} ChooseExactly(rs: seq<Request>, w: World)
    ensures Choose(rs, w).Proceed? <==> NoHaltBefore(rs, w, |rs|)
    ensures Choose(rs, w).Proceed? ==> InstallsExactly(rs, w, Choose(rs, w).specs)
    ensures Choose(rs, w).Stopped? ==>
      exists k :: 0 <= k < |rs| && NoHaltBefore(rs, w, k) && Decide(rs[k], w) == Halt(Choose(rs, w).reason)
    decreases |rs|
  {
    if rs != [] {
      var t := rs[1..];
      ChooseExactly(t, w);
      var d := Decide(rs[0], w);
      if d.Halt? {
        assert NoHaltBefore(rs, w, 0);
      } else {
        if NoHaltBefore(t, w, |t|) {
          forall j | 0 <= j < |rs| ensures !Decide(rs[j], w).Halt? {
            if j > 0 {
              assert rs[j] == t[j - 1];
            }
          }
        }
        if NoHaltBefore(rs, w, |rs|) {
          forall j | 0 <= j < |t| ensures !Decide(t[j], w).Halt? {
            assert t[j] == rs[j + 1];
          }
        }
        if Choose(rs, w).Stopped? {
          var k :| 0 <= k < |t| && NoHaltBefore(t, w, k) && Decide(t[k], w) == Halt(Choose(t, w).reason);
          assert rs[k + 1] == t[k];
          forall j | 0 <= j < k + 1 ensures !Decide(rs[j], w).Halt? {
            if j > 0 {
              assert rs[j] == t[j - 1];
            }
          }
          assert NoHaltBefore(rs, w, k + 1);
        }
        if Choose(rs, w).Proceed? {
          var ss := Choose(rs, w).specs;
          var tail := Choose(t, w).specs;
          forall s ensures s in ss <==> exists i :: 0 <= i < |rs| && Decide(rs[i], w) == Install(s) {
            if s in ss {
              if s in tail {
                var i :| 0 <= i < |t| && Decide(t[i], w) == Install(s);
                assert rs[i + 1] == t[i];
              } else {
                assert Decide(rs[0], w) == Install(s);
              }
            }
            if exists i :: 0 <= i < |rs| && Decide(rs[i], w) == Install(s) {
              var i :| 0 <= i < |rs| && Decide(rs[i], w) == Install(s);
              if i > 0 {
                assert t[i - 1] == rs[i];
                assert s in tail;
              }
            }
          }
        }
      }
    }
  }

  // -------------------------------------------- update: schematic and after

  /**
   * The update commit's message lists the specifiers after the prefix: split
   * on `,`, its rest gives the first specifier and then each later one after
   * the space of the separator.
   */
  lemma {:induction false} UpdateCommitMessageLists(specs: seq<string>)
    requires |specs| >= 1 && forall i :: 0 <= i < |specs| ==> ',' !in specs[i]
    ensures Split(UpdateCommitMessage(specs)[|UpdateCommitPrefix|..], ',') == PrefixLater(specs, " ")
  {
    var joined := Join(specs, ", ");
    assert UpdateCommitMessage(specs) == UpdateCommitPrefix + joined;
    assert (UpdateCommitPrefix + joined)[|UpdateCommitPrefix|..] == joined;
    assert ", " == [','] + " ";
    SplitJoinLonger(specs, ',', " ");
  }

  /** So the message names the packages unambiguously: equal messages come from equal specifier lists. */
  lemma {:induction false} UpdateCommitMessageInjective(a: seq<string>, b: seq<string>)
    requires |a| >= 1 && forall i :: 0 <= i < |a| ==> ',' !in a[i]
    requires |b| >= 1 && forall i :: 0 <= i < |b| ==> ',' !in b[i]
    requires UpdateCommitMessage(a) == UpdateCommitMessage(b)
    ensures a == b
  {
    UpdateCommitMessageLists(a);
    UpdateCommitMessageLists(b);
    var pa := PrefixLater(a, " ");
    var pb := PrefixLater(b, " ");
    assert pa == pb;
    forall i | 1 <= i < |a| ensures a[i] == b[i] {
      assert pa[i] == " " + a[i] && pb[i] == " " + b[i];
      assert (" " + a[i])[1..] == a[i] && (" " + b[i])[1..] == b[i];
    }
  }

  /** A migration entry whose collection resolves and whose range can be built. */
  ghost predicate Resolvable(x: ExternalMigration, w: World)
  {
    ExternalCollection(x, w).Found? && MigrationRange(x.from, x.to).Some?
  }

  /** The migrations after the update end the command with 1 only when some collection could not be resolved. */
  lemma {:induction false} ExternalExitOne(xs: seq<ExternalMigration>, commit: bool, w: World)
    ensures ExternalRuns(xs, commit, w).0 == Exit(1) ==> exists i :: 0 <= i < |xs| && !ExternalCollection(xs[i], w).Found?
    decreases |xs|
  {
    if xs != [] && ExternalRuns(xs, commit, w).0 == Exit(1) && ExternalCollection(xs[0], w).Found? {
      ExternalExitOne(xs[1..], commit, w);
      var i :| 0 <= i < |xs[1..]| && !ExternalCollection(xs[1..][i], w).Found?;
      assert xs[i + 1] == xs[1..][i];
    }
  }

  /**
   * Once every collection resolves and every range can be built, the
   * migrations after the update end the command with 0, whether they
   * succeed or not.
   */
  lemma {:induction false} MigrationFailureStillZero(xs: seq<ExternalMigration>, commit: bool, w: World)
    requires forall i :: 0 <= i < |xs| ==> Resolvable(xs[i], w)
    ensures ExternalRuns(xs, commit, w).0 == Exit(0)
    decreases |xs|
  {
    if xs != [] {
      assert Resolvable(xs[0], w);
      forall i | 0 <= i < |xs[1..]| ensures Resolvable(xs[1..][i], w) {
        assert xs[1..][i] == xs[i + 1];
      }
      MigrationFailureStillZero(xs[1..], commit, w);
    }
  }

  /** A failed update schematic ends the command with 1, with no commit and no migrations. */
  lemma {:induction false} FailedUpdateStops(o: Options, w: World, specs: seq<string>)
    requires !SchematicSucceeds(w.update(specs))
    ensures AfterUpdate(o, w, specs) == (Exit(1), [RanSchematic(UpdateCollection, UpdateSchematic)])
  {
  }

  /**
   * After a successful update (and its commit, when asked for), failing
   * migrations do not change the result: the command ends with 0.
   */
  lemma {:induction false} UpdateThenFailedMigrationsGivesZero(o: Options, w: World, specs: seq<string>)
    requires SchematicSucceeds(w.update(specs))
    requires o.createCommits ==>
      Succeeded(Commit(UpdateCommitMessage(specs), w.engine.git(UpdateCommitMessage(specs))))
    requires w.externalMigrations.Some?
    requires forall i :: 0 <= i < |w.externalMigrations.value| ==> Resolvable(w.externalMigrations.value[i], w)
    ensures AfterUpdate(o, w, specs).0 == Exit(0)
  {
    MigrationFailureStillZero(w.externalMigrations.value, o.createCommits, w);
  }

  // ------------------------------------------------------------------ run

  /** Only the dirty-tree guard ends the command with 2, and it does so before anything runs. */
  lemma {:induction false} OnlyDirtyTreeGivesTwo(o: Options, w: World)
    ensures Outcome(o, w).0 == Exit(2) <==>
      PassesArguments(o, w) && Collect(o.requests, w.npa, o.next, []).value != [] && !w.cleanTree && !o.allowDirty
    ensures Outcome(o, w).0 == Exit(2) ==> Outcome(o, w).1 == []
    ensures Outcome(o, w).0.Exit? ==> Outcome(o, w).0.code <= 2
  {
  }

  /** `--from` and `--to` need `--migrate-only`. */
  lemma {:induction false} FromToNeedMigrateOnly(o: Options, w: World)
    requires !(!DisableVersionCheck(w.versionCheckEnv) && w.cliOutdated) && !o.all
    requires Collect(o.requests, w.npa, o.next, []).Some?
    requires !Truthy(o.migrateOnly) && (Given(o.from) || Given(o.to))
    ensures Outcome(o, w) == (Exit(1), [])
  {
  }

  /** A package whose migrations cannot be located ends `--migrate-only` before any migration runs. */
  lemma {:induction false} UnlocatedRunsNothing(o: Options, w: World, p: PackageIdentifier)
    requires PassesArguments(o, w) && Collect(o.requests, w.npa, o.next, []) == Some([p])
    requires Truthy(o.migrateOnly) && Locate(p.name, w).NotLocated?
    ensures Outcome(o, w).1 == []
    ensures Outcome(o, w).0 == (if !w.cleanTree && !o.allowDirty then Exit(2) else Exit(1))
  {
  }

  /** A package that is not an installed dependency ends the update with 1 before anything runs. */
  lemma {:induction false} NotDependencyStops(o: Options, w: World, i: nat)
    requires PassesArguments(o, w) && !Truthy(o.migrateOnly) && (w.cleanTree || o.allowDirty)
    requires i < |Collect(o.requests, w.npa, o.next, []).value|
    requires !IsDependency(Collect(o.requests, w.npa, o.next, []).value[i], w.dependencies)
    ensures Outcome(o, w) == (Exit(1), [])
  {
    RequestsExactly(Collect(o.requests, w.npa, o.next, []).value, w.dependencies);
  }

  /**
   * When every kept request is already up to date (or none is kept), the
   * command ends with 0 without running the update schematic.
   */
  lemma {:induction false} NothingToUpdate(o: Options, w: World)
    requires PassesArguments(o, w) && !Truthy(o.migrateOnly) && (w.cleanTree || o.allowDirty)
    requires Collect(o.requests, w.npa, o.next, []).value != []
    requires Requests(Collect(o.requests, w.npa, o.next, []).value, w.dependencies).Some?
    requires var rs := Requests(Collect(o.requests, w.npa, o.next, []).value, w.dependencies).value;
      forall i :: 0 <= i < |rs| ==> Decide(rs[i], w).UpToDate?
    ensures Outcome(o, w) == (Exit(0), [])
  {
    var rs := Requests(Collect(o.requests, w.npa, o.next, []).value, w.dependencies).value;
    ChooseAllUpToDate(rs, w);
  }

  lemma {:induction false} ChooseAllUpToDate(rs: seq<Request>, w: World)
    requires forall i :: 0 <= i < |rs| ==> Decide(rs[i], w).UpToDate?
    ensures Choose(rs, w) == Proceed([])
    decreases |rs|
  {
    if rs != [] {
      assert Decide(rs[0], w).UpToDate?;
      forall i | 0 <= i < |rs[1..]| ensures Decide(rs[1..][i], w).UpToDate? {
        assert rs[1..][i] == rs[i + 1];
      }
      ChooseAllUpToDate(rs[1..], w);
    }
  }
}
