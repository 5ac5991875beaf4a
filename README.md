# `ng update`: migration engine and update decisions, in Dafny

This project models the core of the Angular CLI's `ng update` command
(`packages/angular/cli/commands/update-impl.ts`) and proves properties of
that model. The core has two parts:

- the migration engine: version coercion, range selection and ordering,
  the sequential runner with checkpoint commits, and the fold of a
  schematic's events;
- the decisions `run` takes between reading its options and running the
  update schematic.

Git, the file system, module resolution, the package registry, the
package-argument parser and the schematic engine are not modelled.
Each is replaced by the answers it gives, collected in an `Env` (schematic
runs and git answers) or a `World` (everything else `run` asks).

Modules, in dependency order:

- `Wrappers` (`wrappers.dfy`): `Option`.
- `Strings` (`strings.dfy`): digits and decimal numerals, `split`/`join`,
  prefixes, backslash replacement, ASCII lower-casing, and code-unit
  string order.
- `SemVer` (`semver.dfy`): the part of `semver` the command uses.
  - Parsing is strict SemVer 2.0.0: an optional leading `v`, at most 256
    characters, and main components no larger than 2^53 - 1.
  - `valid` is "parse, then print".
  - Precedence follows section 11 of Semantic Versioning 2.0.0. The proofs
    cover the round trips between printing and parsing and that the order
    is total and transitive.
- `Coerce` (`coerce.dfy`): `coerceVersionNumber`, with the two regular
  expressions modelled as greedy matchers.
- `Git` (`git.dfy`): `commit` over the git answers, `getShortHash`, and the
  first line of a message.
- `Schematic` (`schematic.dfy`): `executeSchematic` as a loop over a finite
  sequence of reporter and life-cycle events. It updates the error flag,
  the pending log buffer and the set of touched files.
- `Migrations` (`migrations.dfy`): `executeMigrations`, `executeMigration` and
  `executePackageMigrations`.
  - Each method is proved equal to a specification function.
  - Lemmas prove window membership, the stable `(version, name)` sort,
    halting at the first failure, and the commit messages.
- `Update` (`update.dfy`): `run`.
  - Every loop of `run` is a method proved against a specification
    function: the package arguments, the requests, the packages to update,
    and the migrations the update schematic hands back. `Run` itself is
    proved equal to `Outcome`.
  - Lemmas about `Outcome` state the documented exit codes.

## Model

| member | source | states |
|---|---|---|
| SemVer.ParseFormat | packages/angular/cli/commands/update-impl.ts:920 | every representable version prints to a text that parses back to it |
| SemVer.FormatParse | packages/angular/cli/commands/update-impl.ts:920 | a parsed text's core (without `v` and build) is the printed version, no longer than the text, and representable |
| SemVer.ValidIdempotent | packages/angular/cli/commands/update-impl.ts:920 | what `valid` returns is itself valid and returned unchanged |
| SemVer.CompareProperties | packages/angular/cli/commands/update-impl.ts:219 | `compare` is antisymmetric, returns 0 exactly on equal versions, and lies in -1..1 |
| SemVer.CompareTransitive | packages/angular/cli/commands/update-impl.ts:219 | `compare` is transitive, so sorting by it is well defined |
| Coerce.CoerceVersionNumber | packages/angular/cli/commands/update-impl.ts:899-921 | absent or empty input gives null; input not starting with a digit gives null; a text with a full `d.d.d` prefix gives exactly `valid` of the text |
| Coerce.CoercedIsValid | packages/angular/cli/commands/update-impl.ts:899-921 | every coerced result is a valid version text, and `valid` leaves it unchanged |
| Coerce.CoercedVersion | packages/angular/cli/commands/update-impl.ts:207-211 | a migration has a version exactly when its version text coerces |
| Coerce.FallbackHasAtMostOneGroup | packages/angular/cli/commands/update-impl.ts:905-917 | whenever the second expression is consulted, its group repeats at most once, so the `else return null` branch is unreachable |
| Coerce.CoercePadsMajor | packages/angular/cli/commands/update-impl.ts:911-912 | a bare number gets `.0.0` inserted right after it, the rest of the text kept, and the result is `valid` of that |
| Coerce.CoercePadsMinor | packages/angular/cli/commands/update-impl.ts:913-914 | a `major.minor` prefix gets `.0` inserted right after it, the rest kept |
| Coerce.CoerceKeepsFullPrefix | packages/angular/cli/commands/update-impl.ts:904 | a text starting with three numeric components goes to `valid` unchanged |
| Coerce.CoerceBareNumber | packages/angular/cli/commands/update-impl.ts:899-921 | a canonical number of at most 30 digits coerces to `N.0.0` (so `11` gives `11.0.0`) |
| Coerce.CoerceMinorNumber | packages/angular/cli/commands/update-impl.ts:913-920 | canonical `major.minor` numbers of at most 30 digits coerce to `major.minor.0` (so `11.2` gives `11.2.0`) |
| Coerce.CoerceRejectsFourComponents | packages/angular/cli/commands/update-impl.ts:904-920 | `d.d.d.d` passes the padding step and is rejected by `valid`, giving null |
| Git.GetShortHash | packages/angular/cli/commands/update-impl.ts:895-897 | the short hash is the hash's first nine characters, or the whole of a shorter hash |
| Git.ShortHashOfShort | packages/angular/cli/commands/update-impl.ts:895-897 | a hash of at most nine characters is its own short hash; a longer one keeps exactly nine |
| Git.FirstLine | packages/angular/cli/commands/update-impl.ts:798 | the first line has no newline, is a prefix of the message, is the whole message when there is no newline, and otherwise stops at the first newline |
| Git.Commit | packages/angular/cli/commands/update-impl.ts:770-809 | an unreadable tree gives a read failure; no changes gives no commit; a failed commit is reported; a commit shows the first line and a short hash exactly when HEAD could be read and is non-empty |
| Git.CommitSucceedsIff | packages/angular/cli/commands/update-impl.ts:770-809 | `commit` returns true exactly when there was nothing to commit or the commit went through; a missing HEAD hash does not change that |
| Schematic.StripSlash | packages/angular/cli/commands/update-impl.ts:92 | a leading slash is removed; any other path is kept |
| Schematic.ExecuteSchematic | packages/angular/cli/commands/update-impl.ts:81-160 | success exactly when the workflow completed and no error event arrived; files are exactly the stripped source paths of the update/create/delete/rename events; what is shown and reported equals the event fold |
| Schematic.FoldError | packages/angular/cli/commands/update-impl.ts:94-99 | the error flag is set exactly when some error event arrived |
| Schematic.FoldFiles | packages/angular/cli/commands/update-impl.ts:100-116 | every file-touching event adds its stripped path (the source path of a rename) and nothing else adds one |
| Schematic.FoldKeepsEntries | packages/angular/cli/commands/update-impl.ts:100-126 | what was shown, followed by what is still buffered, is every log entry in event order |
| Schematic.ShownFrozenAfterError | packages/angular/cli/commands/update-impl.ts:120-127 | once an error has arrived, nothing more is shown |
| Schematic.FlushShowsAll | packages/angular/cli/commands/update-impl.ts:120-127 | at an `end` or `post-tasks-start` event with no error so far, every entry has been shown and the buffer is empty |
| Migrations.RangeWindow | packages/angular/cli/commands/update-impl.ts:198-201 | the range is built exactly when `from` and `to` parse, and its bounds are the floor of `from` and `to` |
| Migrations.LowerTextOfPrerelease | packages/angular/cli/commands/update-impl.ts:200 | for a pre-release `from`, the text before its first `-` followed by `-0` parses to `major.minor.patch-0` |
| Migrations.PrereleaseFloor | packages/angular/cli/commands/update-impl.ts:199-201 | with a pre-release `from`, a version with the same `major.minor.patch` lies above the floor unless it is exactly `-0` (so `9.0.0-rc.0` still selects `9.0.0`) |
| Migrations.FloorOtherBase | packages/angular/cli/commands/update-impl.ts:199-201 | a version with another `major.minor.patch` lies above the floor exactly when it lies above `from` |
| Migrations.ReleaseFloor | packages/angular/cli/commands/update-impl.ts:199-201 | a release `from` is itself the exclusive floor |
| Migrations.Candidates | packages/angular/cli/commands/update-impl.ts:203-217 | every candidate comes from the collection, carries the version its text coerces to, and lies in the window |
| Migrations.CandidatesExactly | packages/angular/cli/commands/update-impl.ts:203-217 | a migration is selected exactly when its version coerces to one in `(floor, to]` |
| Migrations.UncoercibleNeverSelected | packages/angular/cli/commands/update-impl.ts:209-212 | a migration whose version does not coerce is never selected by range |
| Migrations.UncoercibleFoundByName | packages/angular/cli/commands/update-impl.ts:172-186 | a migration whose version does not coerce is never selected by range, yet by its unique name it is run, alone, and decides the result |
| Migrations.Insert | packages/angular/cli/commands/update-impl.ts:219 | inserting adds exactly one element to the multiset |
| Migrations.SortByKey | packages/angular/cli/commands/update-impl.ts:219 | the sort keeps exactly the elements it was given |
| Migrations.KeyLessTransitive | packages/angular/cli/commands/update-impl.ts:219 | the comparator (version, then name) is transitive |
| Migrations.SortByKeySorts | packages/angular/cli/commands/update-impl.ts:219 | the sort's output is ordered by the comparator and is a permutation of its input |
| Migrations.SelectionOrdered | packages/angular/cli/commands/update-impl.ts:219 | selected migrations run in ascending version order, and equal versions never with a later name first |
| Migrations.MigrationCommitMessage | packages/angular/cli/commands/update-impl.ts:257-260 | the message is `<package> migration - <name>` when the description is empty, and otherwise that prefix, a blank line and the description |
| Migrations.CommitMessageFirstLine | packages/angular/cli/commands/update-impl.ts:257-260 | the first line of the checkpoint message, shown after committing, is `<package> migration - <name>` |
| Migrations.PackageMigrationsStep | packages/angular/cli/commands/update-impl.ts:235-271 | one step of the runner: a failed schematic stops it, a failed commit stops it after the checkpoint, and otherwise it goes on with the rest |
| Migrations.FirstFailure | packages/angular/cli/commands/update-impl.ts:235-271 | every migration before the index goes through, and the one at the index does not |
| Migrations.RunMigration | packages/angular/cli/commands/update-impl.ts:248-266 | one migration runs its schematic and, when it succeeded and commits are asked for, commits; it returns and does what `MigrationStep` gives |
| Migrations.MigrationStepRan | packages/angular/cli/commands/update-impl.ts:248-266 | one migration goes through exactly when its schematic and, when committing, its commit succeed, and it runs its own schematic and no other |
| Migrations.ExecutePackageMigrations | packages/angular/cli/commands/update-impl.ts:230-272 | the loop returns and does exactly what the runner's specification function gives |
| Migrations.PackageMigrationsOk | packages/angular/cli/commands/update-impl.ts:249-271 | the runner returns true exactly when every migration's schematic and, when committing, its commit go through |
| Migrations.PackageMigrationsHalts | packages/angular/cli/commands/update-impl.ts:235-265 | the runner runs the schematics of the migrations up to and including the first failing one, in order, and no later one |
| Migrations.NoCommitNoCheckpoint | packages/angular/cli/commands/update-impl.ts:256 | without `commit`, git is never touched |
| Migrations.FindByName | packages/angular/cli/commands/update-impl.ts:172 | the first schematic with that name, or none when no schematic has it |
| Migrations.MigrationByName | packages/angular/cli/commands/update-impl.ts:165-186 | an empty or unknown name gives false and runs nothing; otherwise exactly that one schematic runs |
| Migrations.ExecuteMigration | packages/angular/cli/commands/update-impl.ts:165-186 | the method returns and does what `MigrationByName` gives |
| Migrations.MigrationsInRange | packages/angular/cli/commands/update-impl.ts:191-228 | building the range throws exactly when `from` or `to` does not parse, and then nothing runs; an empty selection gives true and runs nothing |
| Migrations.ExecuteMigrations | packages/angular/cli/commands/update-impl.ts:191-228 | the selection loop, sort and runner return and do what `MigrationsInRange` gives |
| Update.DisableVersionCheck | packages/angular/cli/commands/update-impl.ts:58-62 | the check is only disabled when the variable is set |
| Update.DisableVersionCheckIgnoresCase | packages/angular/cli/commands/update-impl.ts:58-62 | the flag does not depend on the letter case of the value |
| Update.DisableVersionCheckValues | packages/angular/cli/commands/update-impl.ts:58-62 | unset, `0`, `FALSE` and `False` leave the check on; `1` and `true` turn it off |
| Update.ExitCode | packages/angular/cli/commands/update-impl.ts:389 | success gives 0 and failure 1 |
| Update.AdjustTag | packages/angular/cli/commands/update-impl.ts:337-340 | only the fetched specifier changes: to `next` when `--next` is given and no specifier was written |
| Update.CollectPackages | packages/angular/cli/commands/update-impl.ts:315-348 | the loop over the requests returns what `Collect` gives |
| Update.CollectExactly | packages/angular/cli/commands/update-impl.ts:315-348 | the requests pass exactly when each parses to a registry identifier and no name comes twice; the packages are then the parsed identifiers in order, with `next` substituted where asked |
| Update.BareRequestWithNext | packages/angular/cli/commands/update-impl.ts:337-340 | with `--next`, a bare request asks for `name@next` and may fall back to `latest` |
| Update.CheckMigrationsField | packages/angular/cli/commands/update-impl.ts:436-464 | the field is accepted exactly when it is a string, absolute for neither platform, and not starting with `../` after backslashes become `/`; the accepted path is the normalised one |
| Update.AcceptedPathIsRelative | packages/angular/cli/commands/update-impl.ts:446-457 | an accepted path has no backslash, is absolute for neither platform, and does not start with `../` |
| Update.ParentAfterDotAccepted | packages/angular/cli/commands/update-impl.ts:457-464 | the check only looks at a leading `../`: `./` followed by anything without a backslash (such as `./../x`) is accepted as written |
| Update.Locate | packages/angular/cli/commands/update-impl.ts:411-484 | a missing install or an empty path gives "not installed"; a rejected migrations field gives its reason; otherwise a collection that is missing or cannot be resolved is reported as such, and a found one is located with exactly its migrations |
| Update.MigrateOnlyOutcome | packages/angular/cli/commands/update-impl.ts:392-523 | the migrate-only path ends with 0 or 1, or with an error it does not catch when the range cannot be built |
| Update.MigrateOnlyRun | packages/angular/cli/commands/update-impl.ts:392-523 | the migrate-only path returns and does what `MigrateOnlyOutcome` gives |
| Update.MigrateOnlyRefusesArguments | packages/angular/cli/commands/update-impl.ts:392-404 | without `--from` and without a migration name, or with other than exactly one package, `--migrate-only` ends with 1 and runs nothing |
| Update.MigrateOnlyByName | packages/angular/cli/commands/update-impl.ts:486-493 | for a located package, a named migration's result decides the exit code and is all that runs |
| Update.MigrateOnlyInRange | packages/angular/cli/commands/update-impl.ts:494-523 | for a located package without a name, the migrations run on the range from the coerced `--from` to `--to` or else the installed version; success gives 0, failure 1, and a range that cannot be built is uncaught |
| Update.UncoercibleFromRunsNothing | packages/angular/cli/commands/update-impl.ts:495-500 | without a name, a `--from` that does not coerce ends with 1 before anything runs |
| Update.FilterRequests | packages/angular/cli/commands/update-impl.ts:527-548 | the loop over the packages returns what `Requests` gives |
| Update.RequestsExactly | packages/angular/cli/commands/update-impl.ts:533-548 | the packages pass exactly when each is an installed dependency; the kept requests are exactly those that do not ask for the installed version |
| Update.PickManifest | packages/angular/cli/commands/update-impl.ts:576-604 | a picked specifier is used; a manifest found otherwise comes from `latest`, and only for a bare `next`; the result is an uncaught error exactly when a pick fails with a code other than ETARGET or ENOVERSIONS, and missing exactly for non-registry kinds, ENOVERSIONS, or ETARGET with no fallback or a fallback that also finds nothing |
| Update.LatestOnlyForBareNext | packages/angular/cli/commands/update-impl.ts:583-598 | outside a bare `next`, the manifest depends only on the requested specifier |
| Update.NextFallsBackToLatest | packages/angular/cli/commands/update-impl.ts:583-598 | a bare `next` the registry lacks takes `latest` instead |
| Update.LeadingNumberOfVersion | packages/angular/cli/commands/update-impl.ts:616-617 | the first piece of a printed version reads as its major version |
| Update.MajorJumpOnVersions | packages/angular/cli/commands/update-impl.ts:614-636 | for `@angular/cli` on printed versions the guard refuses exactly a jump from before 9 to 12 or later |
| Update.RecommendedMajor | packages/angular/cli/commands/update-impl.ts:619-626 | the table has entries exactly for 1, 6, 7 and 8, each recommending a later major no larger than 9 |
| Update.StopResult | packages/angular/cli/commands/update-impl.ts:567-636 | a stop ends with 1, except an unexpected picking error, which propagates |
| Update.Decide | packages/angular/cli/commands/update-impl.ts:557-643 | unavailable metadata stops exactly when the fetch fails; a thrown pick halts as uncaught and a missing manifest as not in the registry, exactly; a major jump halts exactly when the guard fires, with the table's recommendation; it is a skip exactly when the manifest version is the installed one; an update carries the request's text |
| Update.ChooseUpdates | packages/angular/cli/commands/update-impl.ts:554-644 | the loop over the requests returns what `Choose` gives |
| Update.ChooseExactly | packages/angular/cli/commands/update-impl.ts:554-648 | the loop goes through exactly when no request stops it, and then collects the specifiers of the requests that install something; otherwise it stops at the first request that stops |
| Update.UpdateCommitMessage | packages/angular/cli/commands/update-impl.ts:658-661 | the update commit's message starts with the fixed prefix and, for one package, is the prefix followed by its specifier |
| Update.UpdateCommitMessageLists | packages/angular/cli/commands/update-impl.ts:658-661 | after the prefix the message is the specifiers joined by `, `: split on `,` it gives the first specifier and then each later one after a space, when no specifier contains `,` |
| Update.UpdateCommitMessageInjective | packages/angular/cli/commands/update-impl.ts:658-661 | equal update messages come from equal lists of comma-free specifiers |
| Strings.SplitJoinLonger | packages/angular/cli/commands/update-impl.ts:660 | splitting a join on its separator's first character gives the pieces back, later ones with the rest of the separator in front |
| Update.ExternalRuns | packages/angular/cli/commands/update-impl.ts:676-750 | the migrations after the update end with 0 or 1, or with an error they do not catch |
| Update.RunExternalMigrations | packages/angular/cli/commands/update-impl.ts:676-750 | the loop over the handed-back migrations returns and does what `ExternalRuns` gives |
| Update.RunExternalMigration | packages/angular/cli/commands/update-impl.ts:677-749 | one handed-back migration: an unresolvable package or collection stops with 1, a range that cannot be built propagates, a failed run stops with 0, and otherwise the loop goes on; it returns and does what `ExternalStep` gives |
| Update.ExternalExitOne | packages/angular/cli/commands/update-impl.ts:676-737 | the migrations after the update end with 1 only when some package or collection cannot be resolved |
| Update.MigrationFailureStillZero | packages/angular/cli/commands/update-impl.ts:739-749 | once every collection and range resolves, the migrations after the update end with 0 whether they succeed or not |
| Update.AfterUpdate | packages/angular/cli/commands/update-impl.ts:650-764 | after the update schematic the command ends with 0 or 1, or an uncaught error; the update schematic is always the first thing run |
| Update.FailedUpdateStops | packages/angular/cli/commands/update-impl.ts:650-764 | a failed update schematic ends with 1, with no commit and no migrations |
| Update.UpdateThenFailedMigrationsGivesZero | packages/angular/cli/commands/update-impl.ts:747-749 | after a successful update and commit, failing migrations still end the command with 0 |
| Update.UpdateOutcome | packages/angular/cli/commands/update-impl.ts:526-764 | the update path ends with 0 or 1, or an uncaught error |
| Update.UpdateRun | packages/angular/cli/commands/update-impl.ts:526-764 | the update path returns and does what `UpdateOutcome` gives |
| Update.Run | packages/angular/cli/commands/update-impl.ts:275-765 | `run` returns and does what `Outcome` gives |
| Update.OnlyDirtyTreeGivesTwo | packages/angular/cli/commands/update-impl.ts:358-370 | the command ends with 2 exactly when the arguments pass, packages were named, and the tree is dirty without `--allow-dirty`; then nothing runs; no other code above 2 occurs |
| Update.FromToNeedMigrateOnly | packages/angular/cli/commands/update-impl.ts:350-354 | `--from` or `--to` without `--migrate-only` ends with 1 and runs nothing |
| Update.UnlocatedRunsNothing | packages/angular/cli/commands/update-impl.ts:392-484 | when the package's migrations cannot be located, `--migrate-only` ends with 1 (2 on a dirty tree) before any migration runs |
| Update.NotDependencyStops | packages/angular/cli/commands/update-impl.ts:533-539 | a package that is not an installed dependency ends the update with 1 before anything runs |
| Update.NothingToUpdate | packages/angular/cli/commands/update-impl.ts:550-552 | when every kept request is already up to date, or none is kept, the command ends with 0 without running the update schematic |

## Left out

- Logging (messages, colours, the Angular 9 notice): only results, the
  schematics run and the commits attempted are modelled.
- Git, the file system, module resolution, the registry, the
  package-argument parser and the schematic engine are not modelled.
  - Each is an answer given in advance: `Env` for schematic runs and git,
    `World` for the rest of `run`.
  - Schematic runs are keyed by (collection, schematic) and git answers by
    commit message, so a repeated question gets the same answer.
  - `checkCleanGit`'s parsing of `git status` is not modelled; only its
    boolean answer is.
- `runTempPackageBin`, `ensureCompatibleNpm`, `checkCLILatestVersion`,
  `getPackageManager` and `initialize`: process and network plumbing.
  Handing over to a temporary CLI is the outcome `DelegatedToLatestCli`.
- The reporter and the life-cycle streams: given as one interleaved
  sequence of events. File sizes are taken as given, not as content
  lengths.
- The log lines written when a schematic fails (unsuccessful workflow
  versus any other error) and the error log file.
- `semver` is modelled by strict SemVer 2.0.0 parsing.
  - The leniencies of node-semver's loose mode are not modelled.
  - Numeric pre-release identifiers beyond 2^53 are not modelled.
  - `from` or `to` texts that are X-ranges (such as `9`) are not read as
    ranges.
  - A range bound that does not parse is the uncaught error `Range`
    throws. That is `None` from `MigrationsInRange` and `Uncaught` from
    `run`.
- Migrations.KeyLess: `localeCompare` is approximated by code-unit order.
- Migrations.SortByKey: the in-place `Array.prototype.sort` is modelled as a
  stable insertion sort over a sequence.
- Update.RequestText: the parser's `toString` is modelled for registry
  identifiers only (`name@spec`, the name alone, the spec alone, or the raw
  text).
- Update.LeadingNumber: `+text` reads only plain decimal digits.
  - The empty text is 0, and every other text is `NaN`.
  - Whitespace, signs, hexadecimal and exponent forms are not modelled.
- Update.MajorJump: the recommended-version table only feeds the error
  message. `RecommendedMajor` models it, but no result depends on it.
- `options.to || packageNode.version` and the other string options are
  modelled with JavaScript truthiness, where the empty string counts as
  absent.
- The transitive `package.json` lookup always yields a non-empty directory,
  as `path.dirname` does.
- `executeMigration`'s collection listing: a collection is the sequence of
  its schematic descriptions in listing order.
