/**
 * Migration selection and execution: `executeMigrations` picks the schematics
 * of a migration collection whose coerced version lies in the window
 * `(from, to]`, orders them by version and then by name, and hands them to
 * `executePackageMigrations`, which runs them one by one, makes a checkpoint
 * commit after each when asked, and stops at the first failure.
 * `executeMigration` runs a single migration found by name.
 *
 * A collection is the sequence of its schematics in the order
 * `listSchematicNames` gives them. How each schematic run goes and what git
 * answers for each commit are given by an `Env`.
 */
module Migrations {
  import opened Wrappers
  import opened Strings
  import opened SemVer
  import opened Coerce
  import opened Git
  import opened Schematic

  /** A schematic's description in a migration collection; `collection` is the collection's name. */
  datatype Migration = Migration(name: string, description: string, collection: string, version: Option<string>)

  /** A selected migration with the version its coerced `version` text denotes. */
  datatype Candidate = Candidate(migration: Migration, version: Version)

  /** What the runner does, in order: run a schematic, or attempt a checkpoint commit. */
  datatype Action =
    | RanSchematic(collection: string, name: string)
    | Checkpoint(message: string, outcome: CommitOutcome)

  /** How each schematic run goes, keyed by (collection, schematic), and what git answers for each commit message. */
  datatype Env = Env(runs: (string, string) -> SchematicRun, git: string -> GitAnswers)

  /** The bounds of the migration range `>lower <=upper`. */
  datatype Window = Window(lower: Version, upper: Version)

  // -------------------------------------------------------------- the window

  predicate InWindow(w: Window, v: Version) { Less(w.lower, v) && LessEq(v, w.upper) }

  /** The floor of the window: a pre-release `from` is lowered to `major.minor.patch-0`. */
  function LowerBound(from: Version): Version
  {
    if IsPrerelease(from) then from.(pre := [Num(0)]) else from
  }

  /** The text after `>` in the range: `from`, or its part before the first `-` followed by `-0`. */
  function RangeLowerText(from: string): string
  {
    match Parse(from)
    case Some(f) => if IsPrerelease(f) then Split(from, '-')[0] + "-0" else from
    case None => from
  }

  /** The range `'>' + lower + ' <=' + to`; `None` where constructing it would throw. */
  function MigrationRange(from: string, to: string): (r: Option<Window>)
  {
    match (Parse(RangeLowerText(from)), Parse(to))
    case (Some(l), Some(u)) => Some(Window(l, u))
    case _ => None
  }

  // ----------------------------------------------------------- the selection

  /** The migrations whose coerced version lies in the window, in collection order. */
  function Candidates(ms: seq<Migration>, w: Window): (cs: seq<Candidate>)
    ensures forall c :: c in cs ==>
      c.migration in ms && CoercedVersion(c.migration.version) == Some(c.version) && InWindow(w, c.version)
    decreases |ms|
  {
    if ms == [] then []
    else
      var m := ms[|ms| - 1];
      var rest := Candidates(ms[..|ms| - 1], w);
      match CoercedVersion(m.version)
      case None => rest
      case Some(v) => if InWindow(w, v) then rest + [Candidate(m, v)] else rest
  }

  /** The sort comparator: by version, then by name; ties keep their order, as the sort is stable. */
  predicate KeyLess(a: Candidate, b: Candidate)
  {
    Less(a.version, b.version) || (a.version == b.version && StrLess(a.migration.name, b.migration.name))
  }

  predicate Sorted(cs: seq<Candidate>)
  {
    forall i, j :: 0 <= i < j < |cs| ==> !KeyLess(cs[j], cs[i])
  }

  /** Place `x` after every element of the sorted `s` that does not sort after it. */
  function Insert(x: Candidate, s: seq<Candidate>): (r: seq<Candidate>)
    ensures multiset(r) == multiset(s) + multiset{x}
    decreases |s|
  {
    if s == [] then [x]
    else if KeyLess(x, s[0]) then [x] + s
    else
      assert s == [s[0]] + s[1..];
      [s[0]] + Insert(x, s[1..])
  }

  /** The in-place `sort` of the selected migrations, as a stable insertion sort. */
  function SortByKey(cs: seq<Candidate>): (r: seq<Candidate>)
    ensures multiset(r) == multiset(cs)
    decreases |cs|
  {
    if cs == [] then []
    else
      assert cs == cs[..|cs| - 1] + [cs[|cs| - 1]];
      Insert(cs[|cs| - 1], SortByKey(cs[..|cs| - 1]))
  }

  function MigrationsOf(cs: seq<Candidate>): (ms: seq<Migration>)
    ensures |ms| == |cs|
    ensures forall i :: 0 <= i < |cs| ==> ms[i] == cs[i].migration
  {
    seq(|cs|, i requires 0 <= i < |cs| => cs[i].migration)
  }

  /** The migrations `executeMigrations` runs, in the order it runs them. */
  function Selection(ms: seq<Migration>, w: Window): seq<Migration>
  {
    MigrationsOf(SortByKey(Candidates(ms, w)))
  }

  // -------------------------------------------------------------- the runner

  predicate SchematicSucceeds(run: SchematicRun) { run.termination == Completed && !HasError(run.events) }

  /** The checkpoint commit's message: `"<package> migration - <name>"`, then the description after a blank line. */
  function MigrationCommitMessage(pkg: string, m: Migration): (msg: string)
    ensures StartsWith(msg, pkg + " migration - " + m.name)
    ensures msg == pkg + " migration - " + m.name <==> m.description == ""
    ensures m.description != "" ==> msg == pkg + " migration - " + m.name + "\n\n" + m.description
  {
    var prefix := pkg + " migration - " + m.name;
    if m.description != "" then prefix + "\n\n" + m.description else prefix
  }

  /** Whether one migration goes through: its schematic succeeds and, when committing, so does its commit. */
  predicate MigrationSucceeds(m: Migration, pkg: string, commit: bool, env: Env)
  {
    && SchematicSucceeds(env.runs(m.collection, m.name))
    && (commit ==> Succeeded(Commit(MigrationCommitMessage(pkg, m), env.git(MigrationCommitMessage(pkg, m)))))
  }

  /** One migration: whether it goes through, and what was done for it. */
  function MigrationStep(m: Migration, pkg: string, commit: bool, env: Env): (bool, seq<Action>)
  {
    var ran := [RanSchematic(m.collection, m.name)];
    if !SchematicSucceeds(env.runs(m.collection, m.name)) then (false, ran)
    else if !commit then (true, ran)
    else
      var msg := MigrationCommitMessage(pkg, m);
      var outcome := Commit(msg, env.git(msg));
      (Succeeded(outcome), ran + [Checkpoint(msg, outcome)])
  }

  /** `executePackageMigrations`: the result and everything done, in order. */
  function PackageMigrations(ms: seq<Migration>, pkg: string, commit: bool, env: Env): (bool, seq<Action>)
    decreases |ms|
  {
    if ms == [] then (true, [])
    else
      var step := MigrationStep(ms[0], pkg, commit, env);
      if !step.0 then (false, step.1)
      else
        var rest := PackageMigrations(ms[1..], pkg, commit, env);
        (rest.0, step.1 + rest.1)
  }

  /** One step of the runner: the first migration, then the rest. */
  lemma {:induction false} PackageMigrationsStep(ms: seq<Migration>, pkg: string, commit: bool, env: Env)
    requires ms != []
    ensures var m := ms[0];
      var ran := RanSchematic(m.collection, m.name);
      var msg := MigrationCommitMessage(pkg, m);
      var outcome := Commit(msg, env.git(msg));
      var rest := PackageMigrations(ms[1..], pkg, commit, env);
      && (!SchematicSucceeds(env.runs(m.collection, m.name)) ==> PackageMigrations(ms, pkg, commit, env) == (false, [ran]))
      && (SchematicSucceeds(env.runs(m.collection, m.name)) && !commit ==>
            PackageMigrations(ms, pkg, commit, env) == (rest.0, [ran] + rest.1))
      && (SchematicSucceeds(env.runs(m.collection, m.name)) && commit && !Succeeded(outcome) ==>
            PackageMigrations(ms, pkg, commit, env) == (false, [ran, Checkpoint(msg, outcome)]))
      && (SchematicSucceeds(env.runs(m.collection, m.name)) && commit && Succeeded(outcome) ==>
            PackageMigrations(ms, pkg, commit, env) == (rest.0, [ran, Checkpoint(msg, outcome)] + rest.1))
  {
    var m := ms[0];
    assert [RanSchematic(m.collection, m.name)] + [Checkpoint(MigrationCommitMessage(pkg, m), Commit(MigrationCommitMessage(pkg, m), env.git(MigrationCommitMessage(pkg, m))))]
      == [RanSchematic(m.collection, m.name), Checkpoint(MigrationCommitMessage(pkg, m), Commit(MigrationCommitMessage(pkg, m), env.git(MigrationCommitMessage(pkg, m))))];
  }

  /** The index of the first migration that does not go through, or the number of migrations. */
  function FirstFailure(ms: seq<Migration>, pkg: string, commit: bool, env: Env): (k: nat)
    ensures k <= |ms|
    ensures forall i :: 0 <= i < k ==> MigrationSucceeds(ms[i], pkg, commit, env)
    ensures k < |ms| ==> !MigrationSucceeds(ms[k], pkg, commit, env)
    decreases |ms|
  {
    if ms == [] || !MigrationSucceeds(ms[0], pkg, commit, env) then 0
    else 1 + FirstFailure(ms[1..], pkg, commit, env)
  }

  /** The schematics a trace ran, in order. */
  function Ran(trace: seq<Action>): (r: seq<(string, string)>)
    decreases |trace|
  {
    if trace == [] then []
    else (if trace[0].RanSchematic? then [(trace[0].collection, trace[0].name)] else []) + Ran(trace[1..])
  }

  function Tasks(ms: seq<Migration>): (r: seq<(string, string)>)
    ensures |r| == |ms|
    ensures forall i :: 0 <= i < |ms| ==> r[i] == (ms[i].collection, ms[i].name)
  {
    seq(|ms|, i requires 0 <= i < |ms| => (ms[i].collection, ms[i].name))
  }

  /** One pass of the runner's loop: run the schematic, then the checkpoint commit when asked for. */
  method RunMigration(m: Migration, pkg: string, commit: bool, env: Env) returns (succeeded: bool, steps: seq<Action>)
    ensures (succeeded, steps) == MigrationStep(m, pkg, commit, env)
  {
    var result, _, _ := ExecuteSchematic(env.runs(m.collection, m.name));
    succeeded := result.success;
    steps := [RanSchematic(m.collection, m.name)];
    if succeeded && commit {
      var message := MigrationCommitMessage(pkg, m);
      var outcome := Commit(message, env.git(message));
      steps := steps + [Checkpoint(message, outcome)];
      succeeded := Succeeded(outcome);
    }
  }

  /** `executePackageMigrations`. */
  method ExecutePackageMigrations(ms: seq<Migration>, pkg: string, commit: bool, env: Env)
    returns (ok: bool, trace: seq<Action>)
    ensures ok == PackageMigrations(ms, pkg, commit, env).0
    ensures trace == PackageMigrations(ms, pkg, commit, env).1
  {
    ghost var ss := MigrationSteps(ms, pkg, commit, env);
    PackageMigrationsInOrder(ms, pkg, commit, env);
    trace := [];
    var i := 0;
    assert ss[i..] == ss;
    while i < |ms|
      invariant 0 <= i <= |ms|
      invariant InOrder(ss).0 == InOrder(ss[i..]).0
      invariant InOrder(ss).1 == trace + InOrder(ss[i..]).1
    {
      InOrderStep(ss, i);
      var succeeded, steps := RunMigration(ms[i], pkg, commit, env);
      assert ss[i] == (succeeded, steps);
      if !succeeded {
        return false, trace + steps;
      }
      trace := trace + steps;
      i := i + 1;
    }
    assert ss[i..] == [] && trace + [] == trace;
    ok := true;
  }

  /** Each migration's step, in order. */
  function MigrationSteps(ms: seq<Migration>, pkg: string, commit: bool, env: Env): (ss: seq<(bool, seq<Action>)>)
    ensures |ss| == |ms|
    ensures forall j :: 0 <= j < |ms| ==> ss[j] == MigrationStep(ms[j], pkg, commit, env)
  {
    seq(|ms|, j requires 0 <= j < |ms| => MigrationStep(ms[j], pkg, commit, env))
  }

  /** Steps taken in order until one does not go through; the actions accumulate. */
  function InOrder(ss: seq<(bool, seq<Action>)>): (bool, seq<Action>)
    decreases |ss|
  {
    if ss == [] then (true, [])
    else if !ss[0].0 then (false, ss[0].1)
    else
      var rest := InOrder(ss[1..]);
      (rest.0, ss[0].1 + rest.1)
  }

  lemma {:induction false} InOrderStep(ss: seq<(bool, seq<Action>)>, i: nat)
    requires i < |ss|
    ensures InOrder(ss[i..]) == if ss[i].0 then (InOrder(ss[i + 1..]).0, ss[i].1 + InOrder(ss[i + 1..]).1) else (false, ss[i].1)
  {
    assert ss[i..][0] == ss[i] && ss[i..][1..] == ss[i + 1..];
  }

  lemma {:induction false} PackageMigrationsInOrder(ms: seq<Migration>, pkg: string, commit: bool, env: Env)
    ensures PackageMigrations(ms, pkg, commit, env) == InOrder(MigrationSteps(ms, pkg, commit, env))
    decreases |ms|
  {
    if ms != [] {
      PackageMigrationsInOrder(ms[1..], pkg, commit, env);
      assert MigrationSteps(ms, pkg, commit, env)[1..] == MigrationSteps(ms[1..], pkg, commit, env);
    }
  }

  /** `listSchematicNames().find(...)`: the first schematic with that name. */
  function FindByName(ms: seq<Migration>, name: string): (r: Option<nat>)
    ensures r.Some? ==> r.value < |ms| && ms[r.value].name == name
    ensures r.Some? ==> forall i :: 0 <= i < r.value ==> ms[i].name != name
    ensures r.None? ==> forall i :: 0 <= i < |ms| ==> ms[i].name != name
    decreases |ms|
  {
    if ms == [] then None
    else if ms[0].name == name then Some(0)
    else match FindByName(ms[1..], name)
      case None => None
      case Some(i) => Some(i + 1)
  }

  /** What `executeMigration` returns and does: nothing runs unless a schematic has that (non-empty) name. */
  function MigrationByName(pkg: string, ms: seq<Migration>, name: string, commit: bool, env: Env): (r: (bool, seq<Action>))
    ensures name == "" || FindByName(ms, name).None? ==> r == (false, [])
    ensures name != "" && FindByName(ms, name).Some? ==>
      Ran(r.1) == [(ms[FindByName(ms, name).value].collection, name)]
  {
    if name == "" then (false, [])
    else match FindByName(ms, name)
      case None => (false, [])
      case Some(i) =>
        PackageMigrationsHalts([ms[i]], pkg, commit, env);
        assert [ms[i]][..1] == [ms[i]];
        PackageMigrations([ms[i]], pkg, commit, env)
  }

  /** What `executeMigrations` returns and does; `None` where building the range throws. */
  function MigrationsInRange(pkg: string, ms: seq<Migration>, from: string, to: string, commit: bool, env: Env)
    : (r: (Option<bool>, seq<Action>))
    ensures r.0.None? <==> MigrationRange(from, to).None?
    ensures r.0.None? ==> r.1 == []
    ensures MigrationRange(from, to).Some? && Selection(ms, MigrationRange(from, to).value) == [] ==>
      r == (Some(true), [])
  {
    match MigrationRange(from, to)
    case None => (None, [])
    case Some(w) =>
      var run := PackageMigrations(Selection(ms, w), pkg, commit, env);
      (Some(run.0), run.1)
  }

  /** `executeMigration`: run the migration called `name`, whatever its version. */
  method ExecuteMigration(pkg: string, ms: seq<Migration>, name: string, commit: bool, env: Env)
    returns (ok: bool, trace: seq<Action>)
    ensures (ok, trace) == MigrationByName(pkg, ms, name, commit, env)
  {
    var found := FindByName(ms, name);
    if found.None? || ms[found.value].name == "" {
      return false, [];
    }
    ok, trace := ExecutePackageMigrations([ms[found.value]], pkg, commit, env);
  }

  /** `executeMigrations`: `None` where building the range throws. */
  method ExecuteMigrations(pkg: string, ms: seq<Migration>, from: string, to: string, commit: bool, env: Env)
    returns (outcome: Option<bool>, trace: seq<Action>)
    ensures (outcome, trace) == MigrationsInRange(pkg, ms, from, to, commit, env)
  {
    var range := MigrationRange(from, to);
    if range.None? {
      return None, [];
    }
    var w := range.value;
    var migrations: seq<Candidate> := [];
    var i := 0;
    while i < |ms|
      invariant 0 <= i <= |ms|
      invariant migrations == Candidates(ms[..i], w)
    {
      CandidatesStep(ms, i, w);
      var coerced := CoerceVersionNumber(ms[i].version);
      if coerced.Some? {
        var v := CoercedVersion(ms[i].version).value;
        if InWindow(w, v) {
          migrations := migrations + [Candidate(ms[i], v)];
        }
      }
      i := i + 1;
    }
    assert ms[..i] == ms;
    var sorted := SortByKey(migrations);
    if |sorted| == 0 {
      return Some(true), [];
    }
    var ok;
    ok, trace := ExecutePackageMigrations(MigrationsOf(sorted), pkg, commit, env);
    outcome := Some(ok);
  }

  // ------------------------------------------------------------------ lemmas

  /** One more migration of the collection is selected exactly when its coerced version lies in the window. */
  lemma {:induction false} CandidatesStep(ms: seq<Migration>, i: nat, w: Window)
    requires i < |ms|
    ensures Candidates(ms[..i + 1], w) ==
      Candidates(ms[..i], w) + (
        match CoercedVersion(ms[i].version)
        case None => []
        case Some(v) => if InWindow(w, v) then [Candidate(ms[i], v)] else [])
  {
    assert ms[..i + 1][..i] == ms[..i] && ms[..i + 1][i] == ms[i];
  }

  /** The `-0` floor text parses to the floor version. */
  lemma {:induction false} LowerTextOfPrerelease(from: string, f: Version)
    requires Parse(from) == Some(f) && IsPrerelease(f)
    ensures Parse(Split(from, '-')[0] + "-0") == Some(LowerBound(f))
  {
    FormatParse(from, f);
    FloorTextParses(from, f);
  }

  lemma {:induction false} FloorTextParses(from: string, f: Version)
    requires Format(f) == CoreText(from) && Representable(f) && IsPrerelease(f) && |from| <= MaxLength
    ensures Parse(Split(from, '-')[0] + "-0") == Some(LowerBound(f))
  {
    var lead := FloorTextShape(from, f);
    FloorFormat(f);
    assert Split(from, '-')[0] + "-0" == lead + Format(LowerBound(f));
    ParseWithLead(lead, LowerBound(f));
  }

  /** The floor of a pre-release prints as its main text followed by `-0`. */
  lemma {:induction false} FloorFormat(f: Version)
    requires Representable(f) && IsPrerelease(f) && |MainText(f)| + 2 <= MaxLength
    ensures Format(LowerBound(f)) == MainText(f) + "-0"
    ensures Representable(LowerBound(f))
  {
    var low := LowerBound(f);
    assert IdStrings(low.pre) == ["0"];
    assert MainText(low) == MainText(f);
  }

  /** A pre-release version text is an optional `v`, the main version, `-`, and more. */
  lemma {:induction false} FloorTextShape(from: string, f: Version) returns (lead: string)
    requires Format(f) == CoreText(from) && Representable(f) && IsPrerelease(f) && |from| <= MaxLength
    ensures lead == "v" || lead == ""
    ensures Split(from, '-')[0] == lead + MainText(f)
    ensures |lead| + |MainText(f)| + 2 <= |from| <= MaxLength
  {
    var main := MainText(f);
    var j := PrereleaseTextOf(f);
    MainTextExcludes(f);
    var tail := RejoinFirst(StripV(from), '+');
    lead := LeadOf(from);
    assert from == lead + (Format(f) + tail);
    Regroup(lead, main, j, tail);
    FirstPieceAfterLead(from, lead, main, j + tail);
  }

  lemma {:induction false} Regroup(lead: string, main: string, j: string, tail: string)
    ensures lead + ((main + "-" + j) + tail) == lead + (main + "-" + (j + tail))
  {
  }

  lemma {:induction false} MainTextExcludes(f: Version)
    ensures '-' !in MainText(f) && 'v' !in MainText(f)
  {
    MainTextParts(f);
  }

  /** The text of a pre-release version is its main text, `-`, and a non-empty identifier list. */
  lemma {:induction false} PrereleaseTextOf(f: Version) returns (j: string)
    requires Representable(f) && IsPrerelease(f)
    ensures Format(f) == MainText(f) + "-" + j && |j| >= 1
  {
    j := Join(IdStrings(f.pre), ".");
    var ids := IdStrings(f.pre);
    assert |ids[0]| >= 1 by {
      match f.pre[0]
      case Num(_) =>
      case Alpha(_) => assert WellFormedIdentifier(f.pre[0]);
    }
  }

  /** What follows the first piece, separator included. */
  lemma {:induction false} RejoinFirst(s: string, c: char) returns (tail: string)
    ensures s == SplitFirst(s, c).0 + tail
  {
    var r := SplitFirst(s, c);
    tail := if r.1.Some? then [c] + r.1.value else "";
  }

  lemma {:induction false} LeadOf(s: string) returns (lead: string)
    ensures lead == "v" || lead == ""
    ensures s == lead + StripV(s)
  {
    lead := if |s| > 0 && s[0] == 'v' then "v" else "";
  }

  lemma {:induction false} ParseWithLead(lead: string, v: Version)
    requires lead == "v" || lead == ""
    requires Representable(v) && |lead + Format(v)| <= MaxLength
    ensures Parse(lead + Format(v)) == Some(v)
  {
    ParseFormat(v);
    FormatStartsWithDigit(v);
    StripLead(lead, Format(v));
    StripLead("", Format(v));
    assert "" + Format(v) == Format(v);
    ParseSeesStripped(lead + Format(v), Format(v));
  }

  /** `parse` looks past a leading `v` (within the length limit). */
  lemma {:induction false} ParseSeesStripped(a: string, b: string)
    requires |a| <= MaxLength && |b| <= MaxLength && StripV(a) == StripV(b)
    ensures Parse(a) == Parse(b)
  {
  }

  lemma {:induction false} FirstPieceAfterLead(s: string, lead: string, main: string, rest: string)
    requires s == lead + (main + "-" + rest)
    requires '-' !in lead && '-' !in main
    ensures Split(s, '-')[0] == lead + main
  {
    assert s == (lead + main) + ['-'] + rest;
    SplitPieceThenSeparator(lead + main, rest, '-');
  }

  lemma {:induction false} StripLead(lead: string, t: string)
    requires lead == "v" || lead == ""
    requires |t| >= 1 && t[0] != 'v'
    ensures StripV(lead + t) == t
  {
    if lead == "v" {
      assert (lead + t)[1..] == t;
    } else {
      assert lead + t == t;
    }
  }

  /** The range is built exactly when `from` and `to` are versions, and spans `(floor of from, to]`. */
  lemma {:induction false} RangeWindow(from: string, to: string)
    ensures MigrationRange(from, to).Some? <==> Parse(from).Some? && Parse(to).Some?
    ensures MigrationRange(from, to).Some? ==>
      MigrationRange(from, to).value == Window(LowerBound(Parse(from).value), Parse(to).value)
  {
    if Parse(from).Some? && IsPrerelease(Parse(from).value) {
      LowerTextOfPrerelease(from, Parse(from).value);
    }
  }

  /**
   * With a pre-release `from`, a version sharing its `major.minor.patch` is in
   * range of the floor unless it is exactly `-0`: the release itself and every
   * pre-release of it, including `from`, are selected.
   */
  lemma {:induction false} PrereleaseFloor(f: Version, v: Version)
    requires IsPrerelease(f)
    requires v.major == f.major && v.minor == f.minor && v.patch == f.patch
    ensures Less(LowerBound(f), v) <==> v.pre != [Num(0)]
  {
    if v.pre != [] {
      if v.pre[0] == Num(0) && v.pre[1..] == [] {
        assert v.pre == [Num(0)];
      }
    }
  }

  /** Versions with another `major.minor.patch` are above the floor exactly when they are above `from`. */
  lemma {:induction false} FloorOtherBase(f: Version, v: Version)
    requires !(v.major == f.major && v.minor == f.minor && v.patch == f.patch)
    ensures Less(LowerBound(f), v) <==> Less(f, v)
  {
  }

  /** A release `from` is kept as the exclusive floor: the window is exactly `(from, to]`. */
  lemma {:induction false} ReleaseFloor(from: string, to: string, f: Version, v: Version)
    requires Parse(from) == Some(f) && !IsPrerelease(f) && Parse(to).Some?
    ensures MigrationRange(from, to) == Some(Window(f, Parse(to).value))
  {
    RangeWindow(from, to);
  }

  lemma {:induction false} InPrefix<T>(s: seq<T>, x: T)
    requires x in s && x != s[|s| - 1]
    ensures x in s[..|s| - 1]
  {
    var k :| 0 <= k < |s| && s[k] == x;
    assert s[..|s| - 1][k] == x;
  }

  /** A migration is selected exactly when its version coerces to one inside the window. */
  lemma {:induction false} CandidatesExactly(ms: seq<Migration>, w: Window, m: Migration)
    requires m in ms
    ensures (exists c :: c in Candidates(ms, w) && c.migration == m) <==>
      CoercedVersion(m.version).Some? && InWindow(w, CoercedVersion(m.version).value)
    decreases |ms|
  {
    var n := |ms| - 1;
    var p := ms[..n];
    var cs := Candidates(ms, w);
    if CoercedVersion(m.version).Some? && InWindow(w, CoercedVersion(m.version).value) {
      if m == ms[n] {
        assert Candidate(m, CoercedVersion(m.version).value) in cs;
      } else {
        InPrefix(ms, m);
        CandidatesExactly(p, w, m);
        var c :| c in Candidates(p, w) && c.migration == m;
        assert c in cs;
      }
    }
  }

  /** A migration whose version does not coerce is never selected by range. */
  lemma {:induction false} UncoercibleNeverSelected(ms: seq<Migration>, w: Window, m: Migration)
    requires CoercedVersion(m.version).None?
    ensures m !in Selection(ms, w)
  {
    var cs := Candidates(ms, w);
    var sorted := SortByKey(cs);
    forall i | 0 <= i < |sorted| ensures sorted[i].migration != m {
      assert sorted[i] in multiset(cs);
    }
  }

  /**
   * A migration whose version does not coerce is never selected by range,
   * yet `executeMigration` still runs it by its (unique) name, and only it.
   */
  lemma {:induction false} UncoercibleFoundByName(ms: seq<Migration>, k: nat, w: Window, pkg: string, commit: bool, env: Env)
    requires k < |ms| && ms[k].name != "" && CoercedVersion(ms[k].version).None?
    requires forall i :: 0 <= i < |ms| && i != k ==> ms[i].name != ms[k].name
    ensures ms[k] !in Selection(ms, w)
    ensures Ran(MigrationByName(pkg, ms, ms[k].name, commit, env).1) == [(ms[k].collection, ms[k].name)]
    ensures MigrationByName(pkg, ms, ms[k].name, commit, env).0 == MigrationSucceeds(ms[k], pkg, commit, env)
  {
    UncoercibleNeverSelected(ms, w, ms[k]);
    assert FindByName(ms, ms[k].name) == Some(k);
    PackageMigrationsOk([ms[k]], pkg, commit, env);
  }

  lemma {:induction false} KeyLessTransitive(a: Candidate, b: Candidate, c: Candidate)
    requires KeyLess(a, b) && KeyLess(b, c)
    ensures KeyLess(a, c)
  {
    if Less(a.version, b.version) && Less(b.version, c.version) {
      CompareTransitive(a.version, b.version, c.version);
    } else if a.version == b.version && b.version == c.version {
      StrLessTransitive(a.migration.name, b.migration.name, c.migration.name);
    }
  }

  lemma {:induction false} KeyLessIrreflexive(a: Candidate)
    ensures !KeyLess(a, a)
  {
    CompareProperties(a.version, a.version);
    StrLessIrreflexive(a.migration.name);
  }

  lemma {:induction false} InsertSorted(x: Candidate, s: seq<Candidate>)
    requires Sorted(s)
    ensures Sorted(Insert(x, s))
    decreases |s|
  {
    if s != [] {
      if KeyLess(x, s[0]) {
        forall j | 1 <= j < |s| + 1 ensures !KeyLess(([x] + s)[j], x) {
          assert ([x] + s)[j] == s[j - 1];
          if KeyLess(s[j - 1], x) {
            KeyLessTransitive(s[j - 1], x, s[0]);
            KeyLessIrreflexive(s[0]);
          }
        }
      } else {
        InsertSorted(x, s[1..]);
        var r := Insert(x, s[1..]);
        forall j | 0 <= j < |r| ensures !KeyLess(r[j], s[0]) {
          assert r[j] in multiset(r);
          assert r[j] == x || r[j] in multiset(s[1..]);
          if r[j] != x {
            var k :| 0 <= k < |s[1..]| && s[1..][k] == r[j];
            assert s[k + 1] == r[j];
          }
        }
      }
    }
  }

  /** The sort orders its input and keeps exactly its elements. */
  lemma {:induction false} SortByKeySorts(cs: seq<Candidate>)
    ensures Sorted(SortByKey(cs))
    ensures multiset(SortByKey(cs)) == multiset(cs)
    decreases |cs|
  {
    if cs != [] {
      SortByKeySorts(cs[..|cs| - 1]);
      InsertSorted(cs[|cs| - 1], SortByKey(cs[..|cs| - 1]));
    }
  }

  /** Selected migrations run in ascending version order, and equal versions by ascending name. */
  lemma {:induction false} SelectionOrdered(ms: seq<Migration>, w: Window, i: nat, j: nat)
    requires i < j < |SortByKey(Candidates(ms, w))|
    ensures var s := SortByKey(Candidates(ms, w));
      LessEq(s[i].version, s[j].version) &&
      (s[i].version == s[j].version ==> !StrLess(s[j].migration.name, s[i].migration.name))
  {
    var s := SortByKey(Candidates(ms, w));
    SortByKeySorts(Candidates(ms, w));
    assert !KeyLess(s[j], s[i]);
    CompareProperties(s[i].version, s[j].version);
  }

  lemma {:induction false} RanAppend(a: seq<Action>, b: seq<Action>)
    ensures Ran(a + b) == Ran(a) + Ran(b)
    decreases |a|
  {
    if a == [] {
      assert a + b == b;
    } else {
      assert (a + b)[0] == a[0] && (a + b)[1..] == a[1..] + b;
      RanAppend(a[1..], b);
      var h := if a[0].RanSchematic? then [(a[0].collection, a[0].name)] else [];
      assert Ran(a) == h + Ran(a[1..]);
      assert Ran(a + b) == h + Ran(a[1..] + b);
    }
  }

  /** The runner reports success exactly when no migration fails. */
  lemma {:induction false} PackageMigrationsOk(ms: seq<Migration>, pkg: string, commit: bool, env: Env)
    ensures PackageMigrations(ms, pkg, commit, env).0 <==> FirstFailure(ms, pkg, commit, env) == |ms|
    ensures PackageMigrations(ms, pkg, commit, env).0 <==>
      forall i :: 0 <= i < |ms| ==> MigrationSucceeds(ms[i], pkg, commit, env)
    decreases |ms|
  {
    if ms != [] {
      PackageMigrationsOk(ms[1..], pkg, commit, env);
      PackageMigrationsStep(ms, pkg, commit, env);
    }
  }

  /**
   * The runner stops at the first migration that does not go through: it ran
   * the schematics of the migrations up to and including the failing one, in
   * order, and no others.
   */
  lemma {:induction false} PackageMigrationsHalts(ms: seq<Migration>, pkg: string, commit: bool, env: Env)
    ensures Ran(PackageMigrations(ms, pkg, commit, env).1) ==
      Tasks(ms[..Min(FirstFailure(ms, pkg, commit, env) + 1, |ms|)])
    decreases |ms|
  {
    if ms != [] {
      var step := MigrationStep(ms[0], pkg, commit, env);
      var rest := PackageMigrations(ms[1..], pkg, commit, env);
      var k := FirstFailure(ms, pkg, commit, env);
      MigrationStepRan(ms[0], pkg, commit, env);
      if !step.0 {
        assert k == 0;
        TasksCons(ms, 1);
      } else {
        PackageMigrationsHalts(ms[1..], pkg, commit, env);
        var k1 := FirstFailure(ms[1..], pkg, commit, env);
        assert k == 1 + k1;
        assert PackageMigrations(ms, pkg, commit, env).1 == step.1 + rest.1;
        RanAppend(step.1, rest.1);
        TasksCons(ms, Min(k + 1, |ms|));
        assert ms[1..][..Min(k1 + 1, |ms| - 1)] == ms[1..Min(k + 1, |ms|)];
      }
    }
  }

  /** One migration runs its own schematic and no other, and goes through exactly when it succeeds. */
  lemma {:induction false} MigrationStepRan(m: Migration, pkg: string, commit: bool, env: Env)
    ensures MigrationStep(m, pkg, commit, env).0 == MigrationSucceeds(m, pkg, commit, env)
    ensures Ran(MigrationStep(m, pkg, commit, env).1) == [(m.collection, m.name)]
  {
    var steps := MigrationStep(m, pkg, commit, env).1;
    assert steps[1..] == [] || Ran(steps[1..]) == [] by {
      if |steps| == 2 { assert steps[1..][1..] == []; }
    }
  }

  lemma {:induction false} TasksCons(ms: seq<Migration>, n: nat)
    requires 1 <= n <= |ms|
    ensures Tasks(ms[..n]) == [(ms[0].collection, ms[0].name)] + Tasks(ms[1..n])
  {
  }

  /** Without `commit` the runner never touches git. */
  lemma {:induction false} NoCommitNoCheckpoint(ms: seq<Migration>, pkg: string, env: Env)
    ensures forall a :: a in PackageMigrations(ms, pkg, false, env).1 ==> a.RanSchematic?
    decreases |ms|
  {
    if ms != [] {
      NoCommitNoCheckpoint(ms[1..], pkg, env);
    }
  }

  /** The commit message's first line, shown after committing, is `"<package> migration - <name>"`. */
  lemma {:induction false} CommitMessageFirstLine(pkg: string, m: Migration)
    requires '\n' !in pkg && '\n' !in m.name
    ensures FirstLine(MigrationCommitMessage(pkg, m)) == pkg + " migration - " + m.name
  {
    var prefix := pkg + " migration - " + m.name;
    assert '\n' !in prefix;
    if m.description != "" {
      assert MigrationCommitMessage(pkg, m) == prefix + ['\n'] + ("\n" + m.description);
      SplitPieceThenSeparator(prefix, "\n" + m.description, '\n');
    }
  }
}
