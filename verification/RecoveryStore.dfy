/** The recovery store of one task: its manifest and its tool log, and the execution of one tool
    call around them. */
module RecoveryStore {
  import opened CallIds
  import opened JournalFile
  import opened ToolWal

  datatype TaskState =
    | Preparing | Running | WaitingApproval | WaitingRoundLimit | WaitingProgress | WaitingUserInput
    | RecoveryPending
    | Interrupted | Paused | Completed | Failed | Cancelled | Abandoned | Superseded

  predicate IsActive(state: TaskState) {
    match state
    case Preparing | Running | WaitingApproval | WaitingRoundLimit | WaitingProgress | WaitingUserInput
       | RecoveryPending => true
    case _ => false
  }

  datatype Finish = Ended(state: TaskState) | NotTerminal

  /** What hooks and the tool itself do: the tool runs to its result, it is unknown or a hook refuses
      it, or an exception or a cancellation comes before the tool starts or after that. */
  datatype Course = Ran(success: bool) | Refused | RaisedBefore | RaisedAfter

  /** Errors of the storage around one execution, and its course. */
  datatype ToolEnv = ToolEnv(
    intent: Write<WalRow>, intentManifest: bool,
    course: Course,
    result: Write<WalRow>, resultManifest: bool)

  /** Whether the intent is recorded as far as a write needs it. */
  predicate IntentKept(env: ToolEnv) {
    env.intent.Whole? && env.intentManifest
  }

  datatype ToolEnd = Blocked | Done(success: bool) | Raised

  class TaskRecoveryStore {
    var wal: Wal
    var state: TaskState
    var inflight: set<CallId>

    constructor ()
      ensures wal == File([], Clean) && state == Preparing && inflight == {}
    {
      wal, state, inflight := File([], Clean), Preparing, {};
    }

    /** Folds the readable rows of the log. */
    method UnresolvedTools() returns (pending: map<CallId, WalRow>)
      ensures pending == Fold(Read(wal))
    {
      pending := map[];
      var rows := Read(wal);
      for n := 0 to |rows|
        invariant pending == Fold(rows[..n])
      {
        FoldSnoc(rows[..n], rows[n]);
        assert rows[..n] + [rows[n]] == rows[..n + 1];
        var row := rows[n];
        if row.call.text == "" {
          continue;
        }
        match row
        case Intent(call, _, _) => pending := pending[call := row];
        case Result(call, _) => pending := pending - {call};
      }
      assert rows[..|rows|] == rows;
    }

    /** Log first, then manifest; either may fail. */
    method RecordToolIntent(row: WalRow, write: Write<WalRow>, manifestOk: bool) returns (ok: bool)
      requires row.Intent?
      modifies this
      ensures wal == Written(old(wal), [row], write)
      ensures ok == (write.Whole? && manifestOk)
      ensures if ok then state == Running && inflight == Unresolved(wal)
              else state == old(state) && inflight == old(inflight)
    {
      wal := Written(wal, [row], write);
      if !write.Whole? {
        return false;
      }
      var pending := UnresolvedTools();
      if !manifestOk {
        return false;
      }
      state, inflight := Running, pending.Keys;
      return true;
    }

    method RecordToolResult(row: WalRow, write: Write<WalRow>, manifestOk: bool) returns (ok: bool)
      requires row.Result?
      modifies this`wal, this`inflight
      ensures wal == Written(old(wal), [row], write)
      ensures ok == (write.Whole? && manifestOk)
      ensures inflight == if ok then Unresolved(wal) else old(inflight)
    {
      wal := Written(wal, [row], write);
      if !write.Whole? {
        return false;
      }
      var pending := UnresolvedTools();
      if !manifestOk {
        return false;
      }
      inflight := pending.Keys;
      return true;
    }

    /** Ends a task.  While a tool is unresolved nothing but `abandoned` or `interrupted` is
        ever recorded. */
    method Finish(requested: TaskState) returns (r: Finish)
      modifies this`state, this`inflight
      ensures r.Ended? <==> requested in {Interrupted, Paused, Completed, Failed, Cancelled, Abandoned, Superseded}
      ensures IsActive(requested) ==> r == NotTerminal && state == old(state) && inflight == old(inflight)
      ensures !IsActive(requested) ==> r == Ended(state) && inflight == Unresolved(wal)
      ensures r.Ended? && Unresolved(wal) != {} ==> r.state == Interrupted || r.state == Abandoned
      ensures r.Ended? && (Unresolved(wal) == {} || requested == Abandoned) ==> r.state == requested
    {
      if IsActive(requested) {
        return NotTerminal;
      }
      var unresolved := UnresolvedTools();
      state := if unresolved != map[] && requested != Abandoned then Interrupted else requested;
      inflight := unresolved.Keys;
      assert unresolved != map[] <==> unresolved.Keys != {};
      return Ended(state);
    }

    /** Selects the task for recovery; the in-flight tools come from the log, not the manifest. */
    method PrepareRecovery() returns (interrupted: TaskState)
      modifies this`state, this`inflight
      ensures interrupted == old(state)
      ensures state == RecoveryPending && inflight == Unresolved(wal)
    {
      interrupted := state;
      var pending := UnresolvedTools();
      state, inflight := RecoveryPending, pending.Keys;
    }

    /** Up to the tool: the intent, and the start unless a hook or an exception is in the way. */
    method BeginTool(a: Attempt, env: ToolEnv, ghost w: World) returns (blocked: bool, ghost steps: seq<Step>)
      requires w.wal == wal && a !in w.live && a !in w.owed && a.call.text != ""
      modifies this
      ensures Legal(w, steps) && Run(w, steps).wal == wal == Written(old(wal), [IntentRow(a)], env.intent)
      ensures blocked <==> a.mayModify && !IntentKept(env)
      ensures blocked ==> a !in Run(w, steps).live && Run(w, steps).owed == w.owed
      ensures !blocked ==> a in Run(w, steps).live
      ensures Start(a) in steps <==> !blocked && (env.course.Ran? || env.course.RaisedAfter?)
      ensures Run(w, steps).owed == if Start(a) in steps && a.mayModify then w.owed + {a} else w.owed
    {
      var recorded := RecordToolIntent(IntentRow(a), env.intent, env.intentManifest);
      IntentRun(w, a, env.intent);
      steps := [RecordIntent(a, env.intent)];
      if a.mayModify && !recorded {
        if env.intent.Whole? {
          AbortRun(w, steps, a);
          steps := steps + [Abort(a)];
        }
        return true, steps;
      }
      if env.course.Ran? || env.course.RaisedAfter? {
        StartRun(w, steps, a);
        steps := steps + [Start(a)];
      }
      return false, steps;
    }

    /** From the tool on: its result row, unless an exception is in the way. */
    method EndTool(a: Attempt, env: ToolEnv, ghost w: World, ghost begun: seq<Step>)
        returns (end: ToolEnd, ghost steps: seq<Step>)
      requires Legal(w, begun) && Run(w, begun).wal == wal && a in Run(w, begun).live
      modifies this
      ensures Legal(w, steps) && Run(w, steps).wal == wal && a !in Run(w, steps).live
      ensures Start(a) in steps <==> Start(a) in begun
      ensures end != Blocked
      ensures end.Done? <==> (env.course.Ran? || env.course.Refused?) && env.result.Whole? && env.resultManifest
      ensures end.Done? ==> end.success == (env.course.Ran? && env.course.success)
      ensures Run(w, steps).owed ==
              if (env.course.Ran? || env.course.Refused?) && Landed(old(wal), env.result)
              then Run(w, begun).owed - {a} else Run(w, begun).owed
    {
      if env.course.RaisedBefore? || env.course.RaisedAfter? {
        AbortRun(w, begun, a);
        return Raised, begun + [Abort(a)];
      }
      var success := env.course.Ran? && env.course.success;
      var reported := RecordToolResult(Result(a.call, success), env.result, env.resultManifest);
      ResultRun(w, begun, a, success, env.result);
      steps := begun + [ToolWal.RecordResult(a, success, env.result)];
      end := if reported then Done(success) else Raised;
    }

    /** One execution with its log rows.  What it does to the log is a legal run of the log
        machine; a write runs only if its intent and the manifest were recorded, and whatever ends
        it, it is owed unless its result can be read. */
    method ExecuteToolWithHooks(a: Attempt, env: ToolEnv, ghost w: World)
        returns (end: ToolEnd, ghost steps: seq<Step>)
      requires w.wal == wal && a !in w.live && a !in w.owed && a.call.text != ""
      modifies this
      ensures Legal(w, steps) && Run(w, steps).wal == wal
      ensures a !in Run(w, steps).live
      ensures end == Blocked <==> a.mayModify && !IntentKept(env)
      ensures Start(a) in steps <==> end != Blocked && (env.course.Ran? || env.course.RaisedAfter?)
      ensures end.Done? <==> end != Blocked && (env.course.Ran? || env.course.Refused?)
                             && env.result.Whole? && env.resultManifest
      ensures end.Done? ==> end.success == (env.course.Ran? && env.course.success)
      ensures Run(w, steps).owed ==
              if Start(a) in steps && a.mayModify
                 && !(env.course.Ran? && Landed(Written(old(wal), [IntentRow(a)], env.intent), env.result))
              then w.owed + {a} else w.owed
    {
      var blocked;
      blocked, steps := BeginTool(a, env, w);
      if blocked {
        return Blocked, steps;
      }
      end, steps := EndTool(a, env, w, steps);
    }
  }
}
