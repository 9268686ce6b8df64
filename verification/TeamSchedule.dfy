/** The bookkeeping of one team run: which task each member runs, which runs have ended, and
    what every dispatch, completion and task creation keeps. */
module TeamSchedule {
  import opened Wrappers
  import opened TeamTasks

  /** What stays fixed during a run.  `planned` holds the tasks as they are when dispatching
      starts. */
  datatype Context = Context(run: RunId, members: seq<Member>, planned: Table)

  /** How a member run ends: with its result, or with the text of an error. */
  datatype Report = Success(text: string) | Failure(text: string)

  /** How the member run of each task would end; the environment decides. */
  type Outcome = TaskId -> Report

  function Earned(report: Report): TaskStatus {
    if report.Success? then Completed else Failed
  }

  /** `running` is the lead's table of started runs, `ended` the members in it whose run is
      over, and `ran` every task ever started. */
  datatype Schedule = Schedule(tasks: Table, running: map<Member, TaskId>, ended: set<Member>, ran: set<TaskId>)

  predicate IsCurrent(tasks: Table, id: TaskId, run: RunId) {
    id in tasks && tasks[id].run == run
  }

  ghost predicate StatusOk(s: Schedule, id: TaskId, outcome: Outcome)
    requires id in s.tasks
  {
    var task := s.tasks[id];
    match task.status
    case Pending => id !in s.ran && task.assignedTo == None
    case InProgress =>
      && id in s.ran && task.assignedTo.Some?
      && task.assignedTo.value in s.running && s.running[task.assignedTo.value] == id
      && task.assignedTo.value !in s.ended
    case Completed => id in s.ran && outcome(id).Success?
    case Failed => id in s.ran && outcome(id).Failure?
  }

  ghost predicate RunningOk(s: Schedule, m: Member, ctx: Context)
    requires m in s.running
  {
    var id := s.running[m];
    && m in ctx.members
    && IsCurrent(s.tasks, id, ctx.run)
    && s.tasks[id].assignedTo == Some(m)
    && id in s.ran
    && (m in s.ended <==> IsTerminal(s.tasks[id]))
  }

  /** The task is with a member of the team, and with the preferred one if it has one. */
  predicate WellAssigned(task: Task, members: seq<Member>) {
    && task.assignedTo.Some? && task.assignedTo.value in members
    && (task.preferred.Some? ==> task.assignedTo == task.preferred)
  }

  /** A started task is well assigned; it had its planned dependencies complete, and they stay so. */
  ghost predicate StartedOk(s: Schedule, id: TaskId, ctx: Context)
    requires id in s.tasks
  {
    && WellAssigned(s.tasks[id], ctx.members)
    && forall d :: d in s.tasks[id].dependsOn && d in ctx.planned ==> CompletedIn(s.tasks, d)
  }

  ghost predicate Consistent(s: Schedule, ctx: Context, outcome: Outcome) {
    && (forall id: TaskId :: IsCurrent(s.tasks, id, ctx.run) ==> StatusOk(s, id, outcome))
    && (forall id :: id in s.ran ==> IsCurrent(s.tasks, id, ctx.run) && StartedOk(s, id, ctx))
    && (forall m :: m in s.running ==> RunningOk(s, m, ctx))
    && s.ended <= s.running.Keys
    && (forall id :: id in ctx.planned ==> IsCurrent(s.tasks, id, ctx.run) && SameTask(ctx.planned[id], s.tasks[id]))
  }

  /** Only status, assignment and result may differ. */
  predicate SameTask(left: Task, right: Task) {
    && left.name == right.name && left.description == right.description && left.run == right.run
    && left.preferred == right.preferred && left.dependsOn == right.dependsOn && left.createdAt == right.createdAt
  }

  function CurrentTasks(tasks: Table, run: RunId): Table {
    map id | id in tasks && tasks[id].run == run :: tasks[id]
  }

  // ----- the moves -----

  function Start(s: Schedule, m: Member, id: TaskId): Schedule
    requires id in s.tasks
  {
    s.(tasks := s.tasks[id := s.tasks[id].(status := InProgress, assignedTo := Some(m))],
       running := s.running[m := id],
       ran := s.ran + {id})
  }

  lemma StartConsistent(s: Schedule, m: Member, id: TaskId, ctx: Context, outcome: Outcome)
    requires Consistent(s, ctx, outcome)
    requires m in ctx.members && m !in s.running
    requires IsReady(s.tasks, id) && IsCurrent(s.tasks, id, ctx.run)
    requires s.tasks[id].preferred.Some? ==> s.tasks[id].preferred.value == m
    ensures Consistent(Start(s, m, id), ctx, outcome)
    ensures forall x :: x != id && IsReady(s.tasks, x) ==> IsReady(Start(s, m, id).tasks, x)
  {
    var t := Start(s, m, id);
    assert forall x :: CompletedIn(s.tasks, x) ==> CompletedIn(t.tasks, x);
    assert StatusOk(s, id, outcome);
    forall x: TaskId | IsCurrent(t.tasks, x, ctx.run) ensures StatusOk(t, x, outcome) {
      assert StatusOk(s, x, outcome);
    }
    forall x: TaskId | x in t.ran ensures IsCurrent(t.tasks, x, ctx.run) && StartedOk(t, x, ctx) {
      assert x != id ==> StartedOk(s, x, ctx);
    }
    forall k | k in t.running ensures RunningOk(t, k, ctx) {
      assert k != m ==> RunningOk(s, k, ctx);
    }
  }

  /** The run of `m` is over and its task gets its final status and result. */
  function End(s: Schedule, m: Member, outcome: Outcome, path: string): Schedule
    requires m in s.running && s.running[m] in s.tasks
  {
    var id := s.running[m];
    s.(tasks := s.tasks[id := s.tasks[id].(status := Earned(outcome(id)), result := Kept(outcome(id).text, path))],
       ended := s.ended + {m})
  }

  lemma EndConsistent(s: Schedule, m: Member, ctx: Context, outcome: Outcome, path: string)
    requires Consistent(s, ctx, outcome)
    requires m in s.running && m !in s.ended
    ensures s.running[m] in s.tasks && Consistent(End(s, m, outcome, path), ctx, outcome)
  {
    assert RunningOk(s, m, ctx);
    var id, t := s.running[m], End(s, m, outcome, path);
    assert StatusOk(s, id, outcome);
    assert forall x :: CompletedIn(s.tasks, x) ==> CompletedIn(t.tasks, x);
    forall x: TaskId | IsCurrent(t.tasks, x, ctx.run) ensures StatusOk(t, x, outcome) {
      assert StatusOk(s, x, outcome);
    }
    forall x: TaskId | x in t.ran ensures IsCurrent(t.tasks, x, ctx.run) && StartedOk(t, x, ctx) {
      assert StartedOk(s, x, ctx);
    }
    forall k | k in t.running ensures RunningOk(t, k, ctx) {
      assert RunningOk(s, k, ctx);
    }
  }

  /** The lead takes the ended runs off its table. */
  function Reap(s: Schedule): Schedule {
    s.(running := s.running - s.ended, ended := {})
  }

  lemma ReapConsistent(s: Schedule, ctx: Context, outcome: Outcome)
    requires Consistent(s, ctx, outcome)
    ensures Consistent(Reap(s), ctx, outcome)
  {
    var t := Reap(s);
    forall x: TaskId | IsCurrent(t.tasks, x, ctx.run) ensures StatusOk(t, x, outcome) {
      assert StatusOk(s, x, outcome);
    }
    forall x: TaskId | x in t.ran ensures IsCurrent(t.tasks, x, ctx.run) && StartedOk(t, x, ctx) {
      assert StartedOk(s, x, ctx);
    }
    forall k | k in t.running ensures RunningOk(t, k, ctx) {
      assert RunningOk(s, k, ctx);
    }
  }

  /** Pruning and creation: foreign tasks may go, at most one pending current task may come. */
  ghost predicate Grows(before: Table, after: Table, added: Option<TaskId>, run: RunId) {
    && (forall id: TaskId :: IsCurrent(before, id, run) ==> id in after && after[id] == before[id] && added != Some(id))
    && (forall id: TaskId :: IsCurrent(after, id, run) ==> added == Some(id) || IsCurrent(before, id, run))
    && (added.Some? ==>
          && IsCurrent(after, added.value, run)
          && after[added.value].status == Pending && after[added.value].assignedTo == None)
  }

  lemma GrowConsistent(s: Schedule, after: Table, added: Option<TaskId>, ctx: Context, outcome: Outcome)
    requires Consistent(s, ctx, outcome) && Grows(s.tasks, after, added, ctx.run)
    ensures Consistent(s.(tasks := after), ctx, outcome)
  {
  }

  // ----- the measure -----

  function CurrentIds(tasks: Table, run: RunId): set<TaskId> {
    set id | id in tasks && tasks[id].run == run
  }

  function PendingIds(tasks: Table, run: RunId): set<TaskId> {
    set id | id in tasks && tasks[id].run == run && tasks[id].status == Pending
  }

  /** Room for new tasks counts twice: a created task uses up two and adds one pending. */
  function Measure(s: Schedule, run: RunId): nat {
    var current := |CurrentIds(s.tasks, run)|;
    2 * (if current < MAX_TEAM_TASKS then MAX_TEAM_TASKS - current else 0)
      + |PendingIds(s.tasks, run)| + |s.running|
  }

  lemma StartMeasure(s: Schedule, m: Member, id: TaskId, run: RunId)
    requires m !in s.running && IsReady(s.tasks, id) && IsCurrent(s.tasks, id, run)
    ensures Measure(Start(s, m, id), run) == Measure(s, run)
  {
    var t := Start(s, m, id);
    StartSets(s, m, id, run);
    assert |t.running.Keys| == |t.running| && |s.running.Keys| == |s.running|;
  }

  lemma StartSets(s: Schedule, m: Member, id: TaskId, run: RunId)
    requires m !in s.running && IsReady(s.tasks, id) && IsCurrent(s.tasks, id, run)
    ensures var t := Start(s, m, id);
            && CurrentIds(t.tasks, run) == CurrentIds(s.tasks, run)
            && PendingIds(t.tasks, run) == PendingIds(s.tasks, run) - {id} && id in PendingIds(s.tasks, run)
            && t.running.Keys == s.running.Keys + {m}
  {
  }

  lemma EndMeasure(s: Schedule, m: Member, ctx: Context, outcome: Outcome, path: string)
    requires Consistent(s, ctx, outcome) && m in s.running && m !in s.ended
    ensures s.running[m] in s.tasks && Measure(End(s, m, outcome, path), ctx.run) == Measure(s, ctx.run)
  {
    assert RunningOk(s, m, ctx);
    assert StatusOk(s, s.running[m], outcome);
    var t := End(s, m, outcome, path);
    assert CurrentIds(t.tasks, ctx.run) == CurrentIds(s.tasks, ctx.run);
    assert PendingIds(t.tasks, ctx.run) == PendingIds(s.tasks, ctx.run);
  }

  lemma ReapMeasure(s: Schedule, run: RunId)
    requires s.ended <= s.running.Keys && s.ended != {}
    ensures Measure(Reap(s), run) < Measure(s, run)
  {
  }

  lemma GrowSets(before: Table, after: Table, added: Option<TaskId>, run: RunId)
    requires Grows(before, after, added, run)
    ensures var more := if added.Some? then {added.value} else {};
            && CurrentIds(after, run) == CurrentIds(before, run) + more
            && PendingIds(after, run) == PendingIds(before, run) + more
            && more !! CurrentIds(before, run) && more !! PendingIds(before, run)
  {
    forall id: TaskId ensures id in CurrentIds(before, run) <==> IsCurrent(before, id, run) {}
    forall id: TaskId ensures id in CurrentIds(after, run) <==> IsCurrent(after, id, run) {}
  }

  /** A task can only be created while the table, and so the run, is below the cap. */
  lemma GrowMeasure(s: Schedule, after: Table, added: Option<TaskId>, run: RunId)
    requires Grows(s.tasks, after, added, run)
    requires added.Some? ==> |after| <= MAX_TEAM_TASKS
    ensures Measure(s.(tasks := after), run) <= Measure(s, run)
    ensures added.Some? ==> Measure(s.(tasks := after), run) == Measure(s, run) - 1
  {
    GrowSets(s.tasks, after, added, run);
    if added.Some? {
      assert |CurrentIds(after, run)| == |CurrentIds(s.tasks, run)| + 1;
      assert |PendingIds(after, run)| == |PendingIds(s.tasks, run)| + 1;
      Subset(CurrentIds(after, run), after.Keys);
      assert |after.Keys| == |after|;
    }
  }

  lemma Subset<T>(small: set<T>, large: set<T>)
    requires small <= large
    ensures |small| <= |large|
  {
    assert large == small + (large - small);
  }
}
