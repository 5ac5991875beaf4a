/**
 * Running one schematic (`executeSchematic`). The workflow's reporter and
 * life-cycle streams are given as one finite sequence of events in the order
 * they are delivered, and the way the workflow's promise settles is given
 * with them. The subscriptions' callbacks update an error flag, a buffer of
 * pending log entries and the set of touched files; the buffer is shown at
 * `end` and `post-tasks-start` unless an error was reported.
 */
module Schematic {
  import opened Wrappers
  import opened Strings

  /** The `description` of a reporter `error` event. */
  datatype ErrorDescription = AlreadyExist | DoesNotExist

  datatype ReporterEvent =
    | ErrorEvent(path: string, description: ErrorDescription)
    | UpdateEvent(path: string, size: nat)
    | CreateEvent(path: string, size: nat)
    | DeleteEvent(path: string)
    | RenameEvent(path: string, to: string)

  datatype LifeCycleKind = WorkflowStart | Start | End | PostTasksStart | PostTasksEnd | WorkflowEnd

  datatype Event = Report(report: ReporterEvent) | LifeCycle(kind: LifeCycleKind)

  /** How the workflow's promise settles: resolved, rejected as unsuccessful, or rejected by any other error. */
  datatype Termination = Completed | Unsuccessful | Crashed(message: string)

  datatype SchematicRun = SchematicRun(events: seq<Event>, termination: Termination)

  /** A buffered log line, with the leading slash already stripped from its paths. */
  datatype Change =
    | Updated(path: string, size: nat)
    | Created(path: string, size: nat)
    | Deleted(path: string)
    | Renamed(path: string, to: string)

  /** A line written through `logger.error` when an error event arrives. */
  datatype ErrorReport = ErrorReport(path: string, description: ErrorDescription)

  /** What `executeSchematic` returns. */
  datatype SchematicResult = SchematicResult(success: bool, files: set<string>)

  /** The state the two subscriptions share. */
  datatype FoldState = FoldState(
    error: bool,
    logs: seq<Change>,
    files: set<string>,
    shown: seq<Change>,
    reported: seq<ErrorReport>)

  /** Leading slashes are stripped "to prevent confusion". */
  function StripSlash(p: string): (r: string)
    ensures |p| >= 1 && p[0] == '/' ==> p == "/" + r
    ensures !(|p| >= 1 && p[0] == '/') ==> r == p
  {
    if |p| >= 1 && p[0] == '/' then p[1..] else p
  }

  /** A reporter event that touches a file (every kind but `error`). */
  predicate IsChange(ev: Event) { ev.Report? && !ev.report.ErrorEvent? }

  predicate IsError(ev: Event) { ev.Report? && ev.report.ErrorEvent? }

  /** The life-cycle events at which pending entries are shown. */
  predicate IsFlush(ev: Event) { ev.LifeCycle? && (ev.kind == End || ev.kind == PostTasksStart) }

  function ChangeOf(e: ReporterEvent): Change
    requires !e.ErrorEvent?
  {
    match e
    case UpdateEvent(p, n) => Updated(StripSlash(p), n)
    case CreateEvent(p, n) => Created(StripSlash(p), n)
    case DeleteEvent(p) => Deleted(StripSlash(p))
    case RenameEvent(p, t) => Renamed(StripSlash(p), StripSlash(t))
  }

  const Initial := FoldState(false, [], {}, [], [])

  /** What the callbacks do with one event. */
  function Step(st: FoldState, ev: Event): FoldState
  {
    match ev
    case Report(e) =>
      if e.ErrorEvent? then
        st.(error := true, reported := st.reported + [ErrorReport(StripSlash(e.path), e.description)])
      else
        st.(logs := st.logs + [ChangeOf(e)], files := st.files + {StripSlash(e.path)})
    case LifeCycle(k) =>
      if (k == End || k == PostTasksStart) && !st.error then st.(shown := st.shown + st.logs, logs := [])
      else st
  }

  /** The shared state after a sequence of events. */
  function Fold(events: seq<Event>): FoldState
    decreases |events|
  {
    if events == [] then Initial else Step(Fold(events[..|events| - 1]), events[|events| - 1])
  }

  /** Every file-touching event's entry, in order. */
  function Entries(events: seq<Event>): (r: seq<Change>)
    ensures |r| <= |events|
    decreases |events|
  {
    if events == [] then []
    else
      var last := events[|events| - 1];
      Entries(events[..|events| - 1]) + (if IsChange(last) then [ChangeOf(last.report)] else [])
  }

  predicate HasError(events: seq<Event>) { exists i :: 0 <= i < |events| && IsError(events[i]) }

  /** The files are the stripped source paths of the file-touching events, and nothing else. */
  ghost predicate TouchedExactly(events: seq<Event>, files: set<string>)
  {
    forall x :: x in files <==>
      exists i :: 0 <= i < |events| && IsChange(events[i]) && StripSlash(events[i].report.path) == x
  }

  /** `executeSchematic`: feed the events to the callbacks, then settle. */
  method ExecuteSchematic(run: SchematicRun) returns (result: SchematicResult, shown: seq<Change>, reported: seq<ErrorReport>)
    ensures result.success <==> run.termination == Completed && !HasError(run.events)
    ensures TouchedExactly(run.events, result.files)
    ensures shown == Fold(run.events).shown
    ensures reported == Fold(run.events).reported
  {
    var events := run.events;
    var error := false;
    var logs: seq<Change> := [];
    var files: set<string> := {};
    shown := [];
    reported := [];
    var i := 0;
    while i < |events|
      invariant 0 <= i <= |events|
      invariant FoldState(error, logs, files, shown, reported) == Fold(events[..i])
    {
      assert events[..i + 1][..i] == events[..i];
      match events[i] {
        case Report(e) =>
          var path := StripSlash(e.path);
          if e.ErrorEvent? {
            error := true;
            reported := reported + [ErrorReport(path, e.description)];
          } else {
            logs := logs + [ChangeOf(e)];
            files := files + {path};
          }
        case LifeCycle(k) =>
          if (k == End || k == PostTasksStart) && !error {
            shown := shown + logs;
            logs := [];
          }
      }
      i := i + 1;
    }
    assert events[..i] == events;
    FoldError(events);
    FoldFiles(events);
    result := SchematicResult(run.termination == Completed && !error, files);
  }

  // ------------------------------------------------------------------ lemmas

  /** The error flag is raised exactly when some error event arrived. */
  lemma {:induction false} FoldError(events: seq<Event>)
    ensures Fold(events).error <==> HasError(events)
    decreases |events|
  {
    if events != [] {
      var p := events[..|events| - 1];
      FoldError(p);
      if HasError(p) {
        var i :| 0 <= i < |p| && IsError(p[i]);
        assert IsError(events[i]);
      }
      if HasError(events) && !IsError(events[|events| - 1]) {
        var i :| 0 <= i < |events| && IsError(events[i]);
        assert IsError(p[i]);
      }
    }
  }

  /** Every file-touching event adds its stripped path to the files, and nothing else does. */
  lemma {:induction false} FoldFiles(events: seq<Event>)
    ensures TouchedExactly(events, Fold(events).files)
    decreases |events|
  {
    if events != [] {
      var n := |events| - 1;
      var p := events[..n];
      FoldFiles(p);
      forall x
        ensures x in Fold(events).files <==>
          exists i :: 0 <= i < |events| && IsChange(events[i]) && StripSlash(events[i].report.path) == x
      {
        if x in Fold(events).files {
          if x in Fold(p).files {
            var i :| 0 <= i < |p| && IsChange(p[i]) && StripSlash(p[i].report.path) == x;
            assert events[i] == p[i];
          } else {
            assert IsChange(events[n]) && StripSlash(events[n].report.path) == x;
          }
        }
        if exists i :: 0 <= i < |events| && IsChange(events[i]) && StripSlash(events[i].report.path) == x {
          var i :| 0 <= i < |events| && IsChange(events[i]) && StripSlash(events[i].report.path) == x;
          if i < n {
            assert p[i] == events[i];
          }
        }
      }
    }
  }

  /** Entries are never lost: what was shown, followed by what is still buffered, is every entry in order. */
  lemma {:induction false} FoldKeepsEntries(events: seq<Event>)
    ensures Fold(events).shown + Fold(events).logs == Entries(events)
    decreases |events|
  {
    if events != [] {
      FoldKeepsEntries(events[..|events| - 1]);
    }
  }

  /** Once an error has been reported, nothing more is shown. */
  lemma {:induction false} ShownFrozenAfterError(events: seq<Event>, j: nat)
    requires j <= |events| && HasError(events[..j])
    ensures Fold(events).shown == Fold(events[..j]).shown
    decreases |events|
  {
    if j < |events| {
      var p := events[..|events| - 1];
      assert p[..j] == events[..j];
      ShownFrozenAfterError(p, j);
      FoldError(p);
      var i :| 0 <= i < j && IsError(events[..j][i]);
      assert IsError(p[i]);
    } else {
      assert events[..j] == events;
    }
  }

  /** At a flush with no error so far, every entry has been shown and the buffer is empty. */
  lemma {:induction false} FlushShowsAll(events: seq<Event>)
    requires |events| >= 1 && IsFlush(events[|events| - 1]) && !HasError(events)
    ensures Fold(events).shown == Entries(events)
    ensures Fold(events).logs == []
  {
    var p := events[..|events| - 1];
    FoldError(p);
    FoldKeepsEntries(events);
  }
}
