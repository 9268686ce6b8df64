/** The lead of an agent team: it turns a plan into tasks and dispatches them to idle members
    until nothing is left to do.  Members run concurrently: the environment decides which runs
    end when, whether they succeed, and which tasks running members create meanwhile. */
module TeamLead {
  import opened Wrappers
  import opened Spaces
  import opened Json
  import opened TeamTasks
  import opened TeamSchedule

  /** A task created by a running member. */
  datatype NewTask = NewTask(name: string, description: string, dependsOn: seq<TaskId>, now: int)

  /** What members do while the lead waits: create tasks, then end their runs, in any order. */
  datatype Activity = Activity(created: seq<NewTask>, finished: seq<Member>)

  /** One iteration: activity while tasks are handed out, and activity while the lead waits. */
  datatype Turn = Turn(early: Activity, late: Activity)

  /** Some member could run the task. */
  predicate Assignable(tasks: Table, id: TaskId, members: seq<Member>) {
    && members != []
    && id in tasks
    && (tasks[id].preferred == None || tasks[id].preferred.value in members)
  }

  predicate Blocked(tasks: Table, id: TaskId)
    requires id in tasks
  {
    exists d :: d in tasks[id].dependsOn && !CompletedIn(tasks, d)
  }

  /** How a run ends: a task that was started is with the member that ran it, the preferred one if
      it has one, and has the status that run earned; one that never was is failed because a
      dependency is not complete or no member may run it. */
  ghost predicate Finished(tasks: Table, ran: set<TaskId>, ctx: Context, outcome: Outcome) {
    forall id: TaskId :: IsCurrent(tasks, id, ctx.run) ==>
      if id in ran then
        && tasks[id].status == Earned(outcome(id)) && WellAssigned(tasks[id], ctx.members)
        && forall d :: d in tasks[id].dependsOn && d in ctx.planned ==> CompletedIn(tasks, d)
      else
        && tasks[id].status == Failed && tasks[id].assignedTo == None
        && (Blocked(tasks, id) || !Assignable(tasks, id, ctx.members))
  }

  /** Nobody runs, and nothing that is ready can be handed out. */
  ghost predicate Deadlocked(s: Schedule, ctx: Context) {
    && s.running == map[]
    && forall id: TaskId :: IsCurrent(s.tasks, id, ctx.run) && IsReady(s.tasks, id)
         ==> !Assignable(s.tasks, id, ctx.members)
  }

  const UNSATISFIABLE := "任务依赖无法满足"

  /** The table after failing every pending task of the run. */
  function FailAll(tasks: Table, run: RunId): Table {
    map id | id in tasks ::
      if tasks[id].run == run && tasks[id].status == Pending
      then tasks[id].(status := Failed, result := UNSATISFIABLE) else tasks[id]
  }

  /** The tasks of the start are still there, with the same dependencies. */
  ghost predicate KeepsPlanned(tasks: Table, ctx: Context) {
    forall id :: id in ctx.planned ==> IsCurrent(tasks, id, ctx.run) && SameTask(ctx.planned[id], tasks[id])
  }

  lemma UntouchedIsConsistent(tasks: Table, run: RunId, members: seq<Member>, outcome: Outcome)
    requires forall id: TaskId :: IsCurrent(tasks, id, run) ==>
               tasks[id].status == Pending && tasks[id].assignedTo == None
    ensures Consistent(Schedule(tasks, map[], {}, {}), Context(run, members, CurrentTasks(tasks, run)), outcome)
  {
  }

  lemma DeadlockFinishes(s: Schedule, ctx: Context, outcome: Outcome)
    requires Consistent(s, ctx, outcome) && Deadlocked(s, ctx)
    ensures Finished(FailAll(s.tasks, ctx.run), s.ran, ctx, outcome)
    ensures KeepsPlanned(FailAll(s.tasks, ctx.run), ctx)
  {
    var after := FailAll(s.tasks, ctx.run);
    assert forall d :: CompletedIn(s.tasks, d) <==> CompletedIn(after, d);
    forall id: TaskId | IsCurrent(after, id, ctx.run) && id !in s.ran
      ensures after[id].status == Failed && after[id].assignedTo == None
      ensures Blocked(after, id) || !Assignable(after, id, ctx.members)
    {
      assert StatusOk(s, id, outcome);
      if !IsReady(s.tasks, id) {
        var d :| d in s.tasks[id].dependsOn && !CompletedIn(s.tasks, d);
        assert d in after[id].dependsOn && !CompletedIn(after, d);
      }
    }
    forall id: TaskId | IsCurrent(after, id, ctx.run) && id in s.ran
      ensures after[id].status == Earned(outcome(id)) && WellAssigned(after[id], ctx.members)
      ensures forall d :: d in after[id].dependsOn && d in ctx.planned ==> CompletedIn(after, d)
    {
      assert StatusOk(s, id, outcome);
      assert StartedOk(s, id, ctx);
    }
  }

  lemma QuietIsFinished(s: Schedule, ctx: Context, outcome: Outcome)
    requires Consistent(s, ctx, outcome)
    requires forall id: TaskId :: IsCurrent(s.tasks, id, ctx.run) ==> IsTerminal(s.tasks[id])
    ensures Finished(s.tasks, s.ran, ctx, outcome) && KeepsPlanned(s.tasks, ctx)
  {
    forall id: TaskId | IsCurrent(s.tasks, id, ctx.run)
      ensures id in s.ran && s.tasks[id].status == Earned(outcome(id)) && WellAssigned(s.tasks[id], ctx.members)
      ensures forall d :: d in s.tasks[id].dependsOn && d in ctx.planned ==> CompletedIn(s.tasks, d)
    {
      assert StatusOk(s, id, outcome);
      assert StartedOk(s, id, ctx);
    }
  }

  /** What `create` does to the table, seen from the active run. */
  lemma AdditionGrows(tasks: Table, pruned: Table, run: RunId, created: Option<TaskId>, task: Task)
    requires task.run == run && task.status == Pending && task.assignedTo == None
    requires created.Some? ==> created.value !in pruned
    requires pruned.Keys <= tasks.Keys && forall id :: id in pruned ==> pruned[id] == tasks[id]
    requires forall id :: id in tasks && !IsPrunable(tasks[id], run) ==> id in pruned
    ensures Grows(tasks, if created.Some? then pruned[created.value := task] else pruned, created, run)
  {
  }

  lemma CreationGrows(order: seq<TaskId>, tasks: Table, run: RunId, created: Option<TaskId>, task: Task)
    requires Lists(order, tasks.Keys) && task.run == run && task.status == Pending && task.assignedTo == None
    requires created.Some? ==> created.value !in Pruned(order, tasks, run)
    ensures
      var pruned := Pruned(order, tasks, run);
      Grows(tasks, if created.Some? then pruned[created.value := task] else pruned, created, run)
  {
    PrunedKeeps(order, tasks, run);
    AdditionGrows(tasks, Pruned(order, tasks, run), run, created, task);
  }

  function Elements(ids: seq<TaskId>): set<TaskId> {
    set id | id in ids
  }

  function Remove(idle: seq<Member>, m: Member): (r: seq<Member>)
    ensures forall x :: x in r <==> x in idle && x != m
  {
    if idle == [] then []
    else
      var front, last := Remove(idle[..|idle| - 1], m), idle[|idle| - 1];
      if last == m then front else front + [last]
  }

  function IdleMembers(members: seq<Member>, running: set<Member>): (r: seq<Member>)
    ensures forall x :: x in r <==> x in members && x !in running
  {
    if members == [] then []
    else
      var front, last := IdleMembers(members[..|members| - 1], running), members[|members| - 1];
      if last in running then front else front + [last]
  }

  /** The first idle member is the first in the team that does not run. */
  lemma {:induction false} FirstIdle(members: seq<Member>, running: set<Member>) returns (k: nat)
    requires IdleMembers(members, running) != []
    ensures k < |members| && members[k] == IdleMembers(members, running)[0] && members[k] !in running
    ensures forall j :: 0 <= j < k ==> members[j] in running
  {
    var front := members[..|members| - 1];
    if IdleMembers(front, running) == [] {
      k := |members| - 1;
      forall j | 0 <= j < k ensures members[j] in running {
        assert front[j] == members[j] && front[j] !in IdleMembers(front, running);
      }
    } else {
      k := FirstIdle(front, running);
    }
  }

  /** A member that starts is no longer idle. */
  lemma {:induction false} IdleWithout(members: seq<Member>, running: set<Member>, m: Member)
    ensures Remove(IdleMembers(members, running), m) == IdleMembers(members, running + {m})
  {
    if members != [] {
      var front, last := members[..|members| - 1], members[|members| - 1];
      IdleWithout(front, running, m);
      if last !in running {
        RemoveSnoc(IdleMembers(front, running), last, m);
      }
    }
  }

  lemma AddedKey(running: map<Member, TaskId>, m: Member, id: TaskId)
    ensures running[m := id].Keys == running.Keys + {m}
    ensures running[m := id] != map[]
  {
    assert m in running[m := id];
  }

  lemma {:induction false} RemoveSnoc(idle: seq<Member>, last: Member, m: Member)
    ensures Remove(idle + [last], m) == Remove(idle, m) + (if last == m then [] else [last])
  {
    assert (idle + [last])[..|idle|] == idle;
  }

  /** The ready tasks from the n-th on. */
  ghost predicate Offered(table: Table, ready: seq<TaskId>, n: nat, run: RunId) {
    forall k :: n <= k < |ready| ==> IsReady(table, ready[k]) && IsCurrent(table, ready[k], run)
  }

  /** None of the first `n` tasks can be given to anybody. */
  ghost predicate NoneAssignable(table: Table, ready: seq<TaskId>, n: nat, members: seq<Member>) {
    forall k :: 0 <= k < n && k < |ready| ==> !Assignable(table, ready[k], members)
  }

  lemma OfferedNext(before: Table, table: Table, ready: seq<TaskId>, n: nat, run: RunId)
    requires n < |ready| && Offered(before, ready, n, run)
    requires forall i, j :: 0 <= i < j < |ready| ==> ready[i] != ready[j]
    requires forall x :: x != ready[n] && IsReady(before, x) ==> IsReady(table, x)
    requires forall x: TaskId :: IsCurrent(before, x, run) ==> IsCurrent(table, x, run)
    ensures Offered(table, ready, n + 1, run)
  {
  }

  lemma NobodyIdle(members: seq<Member>, running: map<Member, TaskId>, table: Table, ready: seq<TaskId>)
    requires IdleMembers(members, running.Keys) == []
    ensures running == map[] ==> NoneAssignable(table, ready, |ready|, members)
  {
    if members != [] {
      assert members[0] in members && members[0] !in IdleMembers(members, running.Keys);
    }
  }

  /** The first `n` pending tasks are failed, all other tasks are as before. */
  ghost predicate FailedSoFar(before: Table, now: Table, pending: seq<TaskId>, n: nat) {
    && n <= |pending| && now.Keys == before.Keys
    && (forall id :: id in pending ==> id in before)
    && forall id :: id in before ==>
         now[id] == if id in pending[..n] then before[id].(status := Failed, result := UNSATISFIABLE) else before[id]
  }

  lemma FailOneMore(before: Table, now: Table, pending: seq<TaskId>, n: nat)
    requires n < |pending| && FailedSoFar(before, now, pending, n)
    ensures pending[n] in now
    ensures var failed := now[pending[n]].(status := Failed, result := UNSATISFIABLE);
            FailedSoFar(before, now[pending[n] := failed], pending, n + 1)
  {
    assert pending[..n + 1] == pending[..n] + [pending[n]];
    assert pending[n] in pending;
  }

  lemma AllFailed(before: Table, now: Table, pending: seq<TaskId>, run: RunId)
    requires FailedSoFar(before, now, pending, |pending|)
    requires forall id :: id in pending <==> id in PendingIds(before, run)
    ensures now == FailAll(before, run)
  {
    assert pending[..|pending|] == pending;
  }

  // ----- plans -----

  datatype RawItem = NotObject | Item(name: Value, description: Value, member: Value, dependsOn: Value)

  /** `dependsOn` holds indices of earlier items. */
  datatype PlanItem = PlanItem(name: string, description: string, member: Member, dependsOn: seq<nat>)

  const MAX_PLAN_ITEMS := 32
  const MAX_PLAN_NAME_CHARS := 120

  predicate ValidIndex(v: Value, index: nat) {
    v.Int? && 0 <= v.number < index
  }

  /** What validation asks of the item at `index`. */
  predicate ValidItem(item: RawItem, index: nat, members: seq<Member>) {
    && item.Item?
    && item.name.Text? && StripSpace(item.name.text) != ""
    && item.description.Text? && StripSpace(item.description.text) != ""
    && item.member.Text? && Member(item.member.text) in members
    && (item.dependsOn.Missing? ||
        (item.dependsOn.List? && forall v :: v in item.dependsOn.items ==> ValidIndex(v, index)))
  }

  function Indices(items: seq<Value>, index: nat): (r: seq<nat>)
    requires forall v :: v in items ==> ValidIndex(v, index)
    ensures |r| == |items| && forall k :: k in r ==> k < index
  {
    if items == [] then []
    else
      var n := |items| - 1;
      assert items[n] in items && ValidIndex(items[n], index);
      Indices(items[..n], index) + [items[n].number]
  }

  function Accepted(item: RawItem, index: nat, members: seq<Member>): PlanItem
    requires ValidItem(item, index, members)
  {
    var name := StripSpace(item.name.text);
    PlanItem(
      if |name| > MAX_PLAN_NAME_CHARS then name[..MAX_PLAN_NAME_CHARS] else name,
      StripSpace(item.description.text),
      Member(item.member.text),
      if item.dependsOn.Missing? then [] else Indices(item.dependsOn.items, index))
  }

  /** Dependencies point backwards, and every item names a member of the team. */
  predicate WellFormed(plan: seq<PlanItem>, members: seq<Member>) {
    forall i :: 0 <= i < |plan| ==>
      && plan[i].member in members
      && forall k :: k in plan[i].dependsOn ==> k < i
  }

  /** The plan item says what the raw one does: the stripped name, cut to 120 characters, the
      stripped description, the member, and the indices one by one. */
  ghost predicate Says(p: PlanItem, item: RawItem)
    requires item.Item? && item.name.Text? && item.description.Text? && item.member.Text?
  {
    && p.name <= StripSpace(item.name.text)
    && |p.name| == (if |StripSpace(item.name.text)| > 120 then 120 else |StripSpace(item.name.text)|)
    && p.description == StripSpace(item.description.text)
    && p.member.name == item.member.text
    && if !item.dependsOn.List? then p.dependsOn == []
       else
         && |p.dependsOn| == |item.dependsOn.items|
         && forall k :: 0 <= k < |p.dependsOn| ==> item.dependsOn.items[k] == Int(p.dependsOn[k])
  }

  lemma {:induction false} IndicesAre(items: seq<Value>, index: nat)
    requires forall v :: v in items ==> ValidIndex(v, index)
    ensures forall k :: 0 <= k < |items| ==> items[k] == Int(Indices(items, index)[k])
  {
    if items != [] {
      var n := |items| - 1;
      assert items[n] in items && ValidIndex(items[n], index);
      IndicesAre(items[..n], index);
    }
  }

  lemma AcceptedSays(item: RawItem, index: nat, members: seq<Member>)
    requires ValidItem(item, index, members)
    ensures Says(Accepted(item, index, members), item)
  {
    if item.dependsOn.List? {
      IndicesAre(item.dependsOn.items, index);
    }
  }

  /** Accepts a raw plan as a whole or not at all. */
  method ParsePlan(raw: seq<RawItem>, members: seq<Member>) returns (plan: seq<PlanItem>)
    ensures plan != [] <==> 0 < |raw| <= MAX_PLAN_ITEMS
                            && forall i :: 0 <= i < |raw| ==> ValidItem(raw[i], i, members)
    ensures plan != [] ==> |plan| == |raw|
                           && forall i :: 0 <= i < |raw| ==> ValidItem(raw[i], i, members) && Says(plan[i], raw[i])
    ensures WellFormed(plan, members)
  {
    plan := [];
    if raw == [] || |raw| > MAX_PLAN_ITEMS {
      return;
    }
    for i := 0 to |raw|
      invariant |plan| == i
      invariant forall k :: 0 <= k < i ==> ValidItem(raw[k], k, members) && Says(plan[k], raw[k])
      invariant WellFormed(plan, members)
    {
      if !ValidItem(raw[i], i, members) {
        return [];
      }
      AcceptedSays(raw[i], i, members);
      plan := plan + [Accepted(raw[i], i, members)];
    }
  }

  /** Item i, or one it depends on directly or indirectly, has a failing run. */
  ghost predicate Doomed(plan: seq<PlanItem>, fails: set<nat>, i: nat)
    requires i < |plan|
  {
    i in fails || exists k :: k in plan[i].dependsOn && k < i && Doomed(plan, fails, k)
  }

  ghost predicate DependsOn(plan: seq<PlanItem>, i: nat, j: nat)
    requires i < |plan|
    decreases i
  {
    i == j || exists k :: k in plan[i].dependsOn && k < i && DependsOn(plan, k, j)
  }

  lemma {:induction false} DoomedIsTransitive(plan: seq<PlanItem>, fails: set<nat>, i: nat)
    requires i < |plan|
    ensures Doomed(plan, fails, i) <==> exists j :: DependsOn(plan, i, j) && j in fails
    decreases i
  {
    if i in fails {
      assert DependsOn(plan, i, i);
    }
    forall k | k in plan[i].dependsOn && k < i
      ensures Doomed(plan, fails, k) <==> exists j :: DependsOn(plan, k, j) && j in fails
    {
      DoomedIsTransitive(plan, fails, k);
    }
    if Doomed(plan, fails, i) && i !in fails {
      var k :| k in plan[i].dependsOn && k < i && Doomed(plan, fails, k);
      var j :| DependsOn(plan, k, j) && j in fails;
      assert DependsOn(plan, i, j);
    }
    if j :| DependsOn(plan, i, j) && j in fails && i !in fails {
      var k :| k in plan[i].dependsOn && k < i && DependsOn(plan, k, j);
      assert Doomed(plan, fails, k);
    }
  }

  /** `ids` are the tasks of the plan items, with the dependencies of the plan. */
  ghost predicate Planned(tasks: Table, ids: seq<TaskId>, plan: seq<PlanItem>, run: RunId) {
    && |ids| == |plan|
    && (forall i, j :: 0 <= i < j < |ids| ==> ids[i] != ids[j])
    && (forall i :: 0 <= i < |ids| ==> IsTaskOf(tasks, ids[i], plan[i], ids, run))
  }

  ghost predicate IsTaskOf(tasks: Table, id: TaskId, item: PlanItem, ids: seq<TaskId>, run: RunId) {
    && IsCurrent(tasks, id, run)
    && tasks[id].name == item.name && tasks[id].description == item.description
    && tasks[id].preferred == Some(item.member)
    && tasks[id].dependsOn == TaskIds(item.dependsOn, ids)
  }

  /** The created tasks of the items that exist already. */
  function TaskIds(indices: seq<nat>, ids: seq<TaskId>): (r: seq<TaskId>)
    ensures forall id :: id in r <==> exists k :: k in indices && k < |ids| && ids[k] == id
  {
    if indices == [] then []
    else
      var front, last := TaskIds(indices[..|indices| - 1], ids), indices[|indices| - 1];
      assert indices == indices[..|indices| - 1] + [last];
      if last < |ids| then front + [ids[last]] else front
  }

  lemma {:induction false} TaskIdsStable(indices: seq<nat>, ids: seq<TaskId>, more: seq<TaskId>)
    requires forall k :: k in indices ==> k < |ids|
    ensures TaskIds(indices, ids + more) == TaskIds(indices, ids)
  {
    if indices != [] {
      var front, last := indices[..|indices| - 1], indices[|indices| - 1];
      assert last in indices && forall k :: k in front ==> k in indices;
      TaskIdsStable(front, ids, more);
    }
  }

  function FailingItems(ids: seq<TaskId>, outcome: Outcome): set<nat> {
    set i | 0 <= i < |ids| && outcome(ids[i]).Failure?
  }

  /** How the task of item i ends: failed exactly if the item is doomed, and with the planned member
      exactly if no item it depends on is; otherwise nobody ever had it. */
  ghost predicate EndsAs(task: Task, plan: seq<PlanItem>, fails: set<nat>, i: nat)
    requires i < |plan|
  {
    && task.status == (if Doomed(plan, fails, i) then Failed else Completed)
    && task.assignedTo == if Runs(plan, fails, i) then Some(plan[i].member) else None
  }

  /** Everything item i depends on succeeds. */
  ghost predicate Runs(plan: seq<PlanItem>, fails: set<nat>, i: nat)
    requires i < |plan|
  {
    forall k :: k in plan[i].dependsOn && k < i ==> !Doomed(plan, fails, k)
  }

  /** One item, given that the items it depends on ended as they should. */
  lemma FailureSpreadsNow(tasks: Table, ran: set<TaskId>, ctx: Context, outcome: Outcome,
                          ids: seq<TaskId>, plan: seq<PlanItem>, i: nat)
    requires Finished(tasks, ran, ctx, outcome) && Planned(tasks, ids, plan, ctx.run)
    requires WellFormed(plan, ctx.members) && (forall k :: 0 <= k < |ids| ==> ids[k] in ctx.planned)
    requires i < |plan|
    requires forall k :: k in plan[i].dependsOn ==>
               k < i && (CompletedIn(tasks, ids[k]) <==> !Doomed(plan, FailingItems(ids, outcome), k))
    ensures EndsAs(tasks[ids[i]], plan, FailingItems(ids, outcome), i)
  {
    var id, fails := ids[i], FailingItems(ids, outcome);
    assert forall k :: k in plan[i].dependsOn ==> ids[k] in tasks[id].dependsOn;
    if id in ran {
      assert forall k :: k in plan[i].dependsOn ==> !Doomed(plan, fails, k);
    } else {
      assert Assignable(tasks, id, ctx.members);
      var d :| d in tasks[id].dependsOn && !CompletedIn(tasks, d);
      var k :| k in plan[i].dependsOn && k < |ids| && ids[k] == d;
      assert Doomed(plan, fails, k);
    }
  }

  /** The failed tasks of a finished plan are exactly those whose run failed or that depend on
      one; all others are completed.  The order in which runs ended does not matter. */
  lemma {:induction false} FailureSpreadsExactly(tasks: Table, ran: set<TaskId>, ctx: Context, outcome: Outcome,
                                                 ids: seq<TaskId>, plan: seq<PlanItem>, i: nat)
    requires Finished(tasks, ran, ctx, outcome) && Planned(tasks, ids, plan, ctx.run)
    requires WellFormed(plan, ctx.members) && (forall k :: 0 <= k < |ids| ==> ids[k] in ctx.planned)
    requires i < |plan|
    ensures EndsAs(tasks[ids[i]], plan, FailingItems(ids, outcome), i)
    decreases i
  {
    var id, fails := ids[i], FailingItems(ids, outcome);
    assert forall k :: k in plan[i].dependsOn ==> k < i;
    forall k | k in plan[i].dependsOn
      ensures k < i && (CompletedIn(tasks, ids[k]) <==> !Doomed(plan, fails, k))
    {
      FailureSpreadsExactly(tasks, ran, ctx, outcome, ids, plan, k);
    }
    FailureSpreadsNow(tasks, ran, ctx, outcome, ids, plan, i);
  }

  /** A finished run of a plan ends every one of its tasks as the plan and the outcomes say. */
  lemma {:induction false} PlanEnds(before: Table, after: Table, ran: set<TaskId>, ctx: Context, outcome: Outcome,
                 ids: seq<TaskId>, plan: seq<PlanItem>)
    requires Planned(before, ids, plan, ctx.run) && ctx.planned == CurrentTasks(before, ctx.run)
    requires KeepsPlanned(after, ctx)
    requires Finished(after, ran, ctx, outcome) && WellFormed(plan, ctx.members)
    ensures forall i :: 0 <= i < |ids| ==>
              && ids[i] in after
              && EndsAs(after[ids[i]], plan, FailingItems(ids, outcome), i)
  {
    forall i | 0 <= i < |ids|
      ensures ids[i] in ctx.planned && IsTaskOf(after, ids[i], plan[i], ids, ctx.run)
    {
      assert IsTaskOf(before, ids[i], plan[i], ids, ctx.run);
      assert SameTask(before[ids[i]], after[ids[i]]);
    }
    forall i | 0 <= i < |ids|
      ensures EndsAs(after[ids[i]], plan, FailingItems(ids, outcome), i)
    {
      FailureSpreadsExactly(after, ran, ctx, outcome, ids, plan, i);
    }
  }

  lemma ReapedIsRunning(s: Schedule, ctx: Context, outcome: Outcome, run: RunId)
    requires Consistent(s, ctx, outcome) && s.ended != {}
    ensures Consistent(Reap(s), ctx, outcome) && Measure(Reap(s), run) < Measure(s, run)
  {
    ReapConsistent(s, ctx, outcome);
    ReapMeasure(s, run);
  }

  class LeadAgent {
    const members: seq<Member>
    const tasks: SharedTaskList
    var runId: RunId
    var running: map<Member, TaskId>   // running_by_member
    var ended: set<Member>             // the runs in it that are done
    ghost var started: seq<TaskId>     // every assignment, in order

    constructor (members: seq<Member>, tasks: SharedTaskList)
      ensures this.members == members && this.tasks == tasks && runId == NoRun
    {
      this.members, this.tasks, runId := members, tasks, NoRun;
      running, ended, started := map[], {}, [];
    }

    ghost function State(): Schedule
      reads this, tasks
    {
      Schedule(tasks.tasks, running, ended, Elements(started))
    }

    /** The loop invariant; in particular no task is ever assigned twice. */
    ghost predicate Running(ctx: Context, outcome: Outcome)
      reads this, tasks
    {
      && tasks.Valid()
      && runId.Run? && ctx.run == runId && tasks.activeRun == runId && ctx.members == members
      && Consistent(State(), ctx, outcome)
      && (forall i, j :: 0 <= i < j < |started| ==> started[i] != started[j])
    }

    /** Hands one ready task to an idle member. */
    method Assign(id: TaskId, member: Member, ghost ctx: Context, ghost outcome: Outcome)
      requires Running(ctx, outcome)
      requires member in members && member !in running
      requires IsReady(tasks.tasks, id) && IsCurrent(tasks.tasks, id, runId)
      requires tasks.tasks[id].preferred.Some? ==> tasks.tasks[id].preferred.value == member
      modifies this`running, this`started, tasks`tasks, tasks`resultFiles
      ensures Running(ctx, outcome) && State() == Start(old(State()), member, id)
      ensures running == old(running)[member := id]
      ensures Measure(State(), runId) == Measure(old(State()), runId)
      ensures forall x :: x != id && old(IsReady(tasks.tasks, x)) ==> IsReady(tasks.tasks, x)
      ensures forall x: TaskId :: old(IsCurrent(tasks.tasks, x, runId)) ==> IsCurrent(tasks.tasks, x, runId)
    {
      ghost var before := State();
      StartConsistent(before, member, id, ctx, outcome);
      StartMeasure(before, member, id, runId);
      assert id !in started by { assert StatusOk(before, id, outcome); }
      var found := tasks.Assign(id, member);
      running := running[member := id];
      started := started + [id];
      assert State().ran == before.ran + {id};
    }

    /** Offers one ready task to the idle members: a preferred member gets it or nobody, otherwise
        the first idle one does. */
    method Offer(id: TaskId, idle: seq<Member>, ghost ctx: Context, ghost outcome: Outcome)
      returns (left: seq<Member>, given: bool)
      requires Running(ctx, outcome) && idle == IdleMembers(members, running.Keys) && idle != []
      requires IsReady(tasks.tasks, id) && IsCurrent(tasks.tasks, id, runId)
      modifies this`running, this`started, tasks`tasks, tasks`resultFiles
      ensures Running(ctx, outcome) && left == IdleMembers(members, running.Keys)
      ensures Measure(State(), runId) == Measure(old(State()), runId)
      ensures var preferred := old(tasks.tasks)[id].preferred;
              && (given <==> preferred == None || preferred.value in idle)
              && (given ==> State() == Start(old(State()), if preferred.Some? then preferred.value else idle[0], id))
      ensures !given ==> tasks.tasks == old(tasks.tasks) && running == old(running)
      ensures !given && running == map[] ==> !Assignable(tasks.tasks, id, members)
      ensures forall x :: x != id && old(IsReady(tasks.tasks, x)) ==> IsReady(tasks.tasks, x)
      ensures forall x: TaskId :: old(IsCurrent(tasks.tasks, x, runId)) ==> IsCurrent(tasks.tasks, x, runId)
    {
      var preferred := tasks.tasks[id].preferred;
      if preferred.Some? && preferred.value !in idle {
        return idle, false;
      }
      var member := if preferred.Some? then preferred.value else idle[0];
      left := Remove(idle, member);
      IdleWithout(members, running.Keys, member);
      Assign(id, member, ctx, outcome);
      AddedKey(old(running), member, id);
      given := true;
    }

    /** Goes through the ready tasks once, while members are idle. */
    method Dispatch(ready: seq<TaskId>, ghost ctx: Context, ghost outcome: Outcome)
      requires Running(ctx, outcome)
      requires forall i, j :: 0 <= i < j < |ready| ==> ready[i] != ready[j]
      requires Offered(tasks.tasks, ready, 0, runId)
      modifies this`running, this`started, tasks`tasks, tasks`resultFiles
      ensures Running(ctx, outcome)
      ensures Measure(State(), runId) == Measure(old(State()), runId)
      ensures running == map[] ==>
                tasks.tasks == old(tasks.tasks) && NoneAssignable(tasks.tasks, ready, |ready|, members)
    {
      var idle := IdleMembers(members, running.Keys);
      for n := 0 to |ready|
        invariant Running(ctx, outcome) && idle == IdleMembers(members, running.Keys)
        invariant Measure(State(), runId) == Measure(old(State()), runId)
        invariant Offered(tasks.tasks, ready, n, runId)
        invariant running == map[] ==> tasks.tasks == old(tasks.tasks) && NoneAssignable(tasks.tasks, ready, n, members)
      {
        if idle == [] {
          NobodyIdle(members, running, tasks.tasks, ready);
          break;
        }
        ghost var before := tasks.tasks;
        var given: bool;
        idle, given := Offer(ready[n], idle, ctx, outcome);
        OfferedNext(before, tasks.tasks, ready, n, runId);
      }
    }

    /** Looks up the ready tasks of the run and goes through them. */
    method DispatchReady(ghost ctx: Context, ghost outcome: Outcome)
      requires Running(ctx, outcome)
      modifies this`running, this`started, tasks`tasks, tasks`resultFiles
      ensures Running(ctx, outcome)
      ensures Measure(State(), runId) == Measure(old(State()), runId)
      ensures running == map[] ==> Deadlocked(State(), ctx)
    {
      var all := tasks.ReadyTasks();
      var ready := Filter(all, CurrentIds(tasks.tasks, runId));
      FilterLists(all, CurrentIds(tasks.tasks, runId));
      Dispatch(ready, ctx, outcome);
    }

    /** One member creates a task; only while it runs can it do so. */
    method CreateByMember(task: NewTask, ghost ctx: Context, ghost outcome: Outcome)
      requires Running(ctx, outcome)
      modifies tasks`tasks, tasks`resultFiles, tasks`order
      ensures Running(ctx, outcome)
      ensures Measure(State(), runId) <= Measure(old(State()), runId)
    {
      ghost var before, order, pruned := State(), tasks.order, Pruned(tasks.order, tasks.tasks, runId);
      var created := tasks.Create(task.name, task.description, task.dependsOn, None, None, task.now);
      ghost var id := if created.Ok? then Some(created.id) else None;
      CreationGrows(order, before.tasks, runId, id,
                    Task(task.name, task.description, runId, None, None, task.dependsOn, Pending, "", task.now));
      GrowConsistent(before, tasks.tasks, id, ctx, outcome);
      GrowMeasure(before, tasks.tasks, id, runId);
      assert State() == before.(tasks := tasks.tasks);
    }

    /** The run of `member` is over: its task is completed or failed. */
    method RunMemberTask(member: Member, outcome: Outcome, ghost ctx: Context)
      requires Running(ctx, outcome) && member in running && member !in ended
      modifies this`ended, tasks`tasks, tasks`resultFiles
      ensures Running(ctx, outcome)
      ensures State() == End(old(State()), member, outcome, tasks.resultPath(old(running[member])))
      ensures Measure(State(), runId) == Measure(old(State()), runId)
    {
      ghost var before := State();
      var id, report := running[member], outcome(running[member]);
      EndConsistent(before, member, ctx, outcome, tasks.resultPath(id));
      EndMeasure(before, member, ctx, outcome, tasks.resultPath(id));
      var found := tasks.Update(id, NO_CHANGES.(status := Some(Earned(report)), result := Some(report.text)));
      ended := ended + {member};
      assert State() == End(before, member, outcome, tasks.resultPath(id));
    }

    /** Members create tasks and end their runs. */
    method Act(activity: Activity, outcome: Outcome, ghost ctx: Context)
      requires Running(ctx, outcome)
      modifies this`ended, tasks`tasks, tasks`resultFiles, tasks`order
      ensures Running(ctx, outcome)
      ensures Measure(State(), runId) <= Measure(old(State()), runId)
      ensures running == map[] ==> State() == old(State())
    {
      for n := 0 to |activity.created|
        invariant Running(ctx, outcome)
        invariant Measure(State(), runId) <= Measure(old(State()), runId)
        invariant ended == old(ended)
        invariant running == map[] ==> State() == old(State())
      {
        if running.Keys != ended {
          CreateByMember(activity.created[n], ctx, outcome);
        }
      }
      for n := 0 to |activity.finished|
        invariant Running(ctx, outcome)
        invariant Measure(State(), runId) <= Measure(old(State()), runId)
        invariant running == map[] ==> State() == old(State())
      {
        var member := activity.finished[n];
        if member in running && member !in ended {
          RunMemberTask(member, outcome, ctx);
        }
      }
    }

    /** Waits until at least one run is over and takes all ended runs off the table. */
    method Wait(activity: Activity, outcome: Outcome, ghost ctx: Context)
      requires Running(ctx, outcome) && running != map[]
      modifies this`running, this`ended, tasks`tasks, tasks`resultFiles, tasks`order
      ensures Running(ctx, outcome)
      ensures Measure(State(), runId) < Measure(old(State()), runId)
    {
      Act(activity, outcome, ctx);
      if ended == {} {
        var member :| member in running;
        RunMemberTask(member, outcome, ctx);
      }
      ReapEnded(ctx, outcome);
    }

    method ReapEnded(ghost ctx: Context, ghost outcome: Outcome)
      requires Running(ctx, outcome) && ended != {}
      modifies this`running, this`ended
      ensures Running(ctx, outcome)
      ensures Measure(State(), runId) < Measure(old(State()), runId)
    {
      ghost var before := State();
      ReapedIsRunning(before, ctx, outcome, runId);
      running, ended := running - ended, {};
      assert State() == Reap(before);
    }

    /** Fails every pending task of the run. */
    method FailPending()
      requires tasks.Valid()
      modifies tasks`tasks, tasks`resultFiles
      ensures tasks.Valid() && tasks.tasks == FailAll(old(tasks.tasks), runId)
    {
      ghost var before := tasks.tasks;
      var pending := Filter(tasks.order, PendingIds(tasks.tasks, runId));
      FilterLists(tasks.order, PendingIds(tasks.tasks, runId));
      for n := 0 to |pending|
        invariant tasks.Valid() && FailedSoFar(before, tasks.tasks, pending, n)
      {
        FailOneMore(before, tasks.tasks, pending, n);
        var found := tasks.Update(pending[n], NO_CHANGES.(status := Some(Failed), result := Some(UNSATISFIABLE)));
      }
      AllFailed(before, tasks.tasks, pending, runId);
    }

    /** The dispatch loop.  It ends whatever the members do, and ends as `Finished` says. */
    method DispatchLoop(env: nat -> Turn, outcome: Outcome) returns (ghost planned: Table)
      requires tasks.Valid() && runId.Run? && tasks.activeRun == runId
      requires forall id: TaskId :: IsCurrent(tasks.tasks, id, runId) ==>
                 tasks.tasks[id].status == Pending && tasks.tasks[id].assignedTo == None
      modifies this`running, this`ended, this`started, tasks`tasks, tasks`resultFiles, tasks`order
      ensures tasks.Valid()
      ensures planned == CurrentTasks(old(tasks.tasks), runId)
      ensures KeepsPlanned(tasks.tasks, Context(runId, members, planned))
      ensures Finished(tasks.tasks, Elements(started), Context(runId, members, planned), outcome)
      ensures forall i, j :: 0 <= i < j < |started| ==> started[i] != started[j]
    {
      running, ended, started := map[], {}, [];
      planned := CurrentTasks(tasks.tasks, runId);
      ghost var ctx := Context(runId, members, planned);
      UntouchedIsConsistent(tasks.tasks, runId, members, outcome);
      assert State() == Schedule(tasks.tasks, map[], {}, {});
      var turn := 0;
      while true
        invariant Running(ctx, outcome)
        decreases Measure(State(), runId)
      {
        DispatchReady(ctx, outcome);
        Act(env(turn).early, outcome, ctx);
        if forall id: TaskId :: id in tasks.tasks && tasks.tasks[id].run == runId ==> IsTerminal(tasks.tasks[id]) {
          QuietIsFinished(State(), ctx, outcome);
          break;
        }
        if running == map[] {
          DeadlockFinishes(State(), ctx, outcome);
          FailPending();
          break;
        }
        Wait(env(turn).late, outcome, ctx);
        turn := turn + 1;
      }
    }

    method CreateItem(plan: seq<PlanItem>, n: nat, ids: seq<TaskId>, now: int) returns (created: Created)
      requires tasks.Valid() && runId.Run? && tasks.activeRun == runId && WellFormed(plan, members) && n < |plan|
      requires Planned(tasks.tasks, ids, plan[..n], runId) && OnlyPending(tasks.tasks, ids, runId)
      modifies tasks`tasks, tasks`resultFiles, tasks`order
      ensures tasks.Valid()
      ensures if created.Ok? then
                && Planned(tasks.tasks, ids + [created.id], plan[..n + 1], runId)
                && OnlyPending(tasks.tasks, ids + [created.id], runId)
              else OnlyPending(tasks.tasks, ids, runId)
    {
      ghost var before, order := tasks.tasks, tasks.order;
      var item := plan[n];
      created := tasks.Create(item.name, item.description, TaskIds(item.dependsOn, ids),
                              Some(item.member), Some(runId), now);
      if created.Err? {
        PrunedKeeps(order, before, runId);
      } else {
        DecomposeStep(order, before, tasks.tasks, ids, created.id, plan, members, n, runId, now);
      }
    }

    /** Creates one task per plan item; dependencies become the ids of earlier items. */
    method Decompose(plan: seq<PlanItem>, now: int) returns (ids: seq<TaskId>, error: Option<CreateError>)
      requires tasks.Valid() && runId.Run? && tasks.activeRun == runId && WellFormed(plan, members)
      requires forall id :: id in tasks.tasks ==> tasks.tasks[id].run != runId
      modifies tasks`tasks, tasks`resultFiles, tasks`order
      ensures tasks.Valid()
      ensures OnlyPending(tasks.tasks, ids, runId)
      ensures error == None ==> Planned(tasks.tasks, ids, plan, runId)
    {
      ids := [];
      for n := 0 to |plan|
        invariant tasks.Valid()
        invariant OnlyPending(tasks.tasks, ids, runId)
        invariant Planned(tasks.tasks, ids, plan[..n], runId)
      {
        var created := CreateItem(plan, n, ids, now);
        if created.Err? {
          return ids, Some(created.error);
        }
        ids := ids + [created.id];
      }
      assert plan[..|plan|] == plan;
      error := None;
    }

    /** One run: decompose the plan, dispatch until nothing is left.  However the members
        interleave, and whatever they create, the plan's failed tasks are exactly those whose run
        failed and those that depend on one; every other task, and every one whose own run failed
        first, was run by its planned member. */
    method Execute(plan: seq<PlanItem>, run: RunId, env: nat -> Turn, outcome: Outcome, now: int)
        returns (ids: seq<TaskId>, error: Option<CreateError>)
      requires tasks.Valid() && run.Run? && WellFormed(plan, members)
      requires forall id :: id in tasks.tasks ==> tasks.tasks[id].run != run
      modifies this, tasks
      ensures tasks.Valid() && running == map[] && ended == {}
      ensures error == None ==>
                && |ids| == |plan|
                && forall i :: 0 <= i < |ids| ==>
                     && ids[i] in tasks.tasks
                     && EndsAs(tasks.tasks[ids[i]], plan, FailingItems(ids, outcome), i)
    {
      runId := run;
      tasks.SetActiveRun(run);
      running, ended := map[], {};
      ids, error := Decompose(plan, now);
      if error.Some? {
        return;
      }
      ghost var before := tasks.tasks;
      ghost var planned := DispatchLoop(env, outcome);
      ghost var ctx := Context(run, members, planned);
      PlanEnds(before, tasks.tasks, Elements(started), ctx, outcome, ids, plan);
      running, ended := map[], {};
    }
  }

  /** The tasks of the run are among `ids`, and none has been touched yet. */
  ghost predicate OnlyPending(tasks: Table, ids: seq<TaskId>, run: RunId) {
    forall id: TaskId :: IsCurrent(tasks, id, run) ==>
      id in ids && tasks[id].status == Pending && tasks[id].assignedTo == None
  }

  lemma StaysTaskOf(before: Table, after: Table, id: TaskId, item: PlanItem, ids: seq<TaskId>, added: TaskId,
                    run: RunId)
    requires IsTaskOf(before, id, item, ids, run) && forall k :: k in item.dependsOn ==> k < |ids|
    requires Grows(before, after, Some(added), run)
    ensures id != added && IsTaskOf(after, id, item, ids + [added], run)
  {
    TaskIdsStable(item.dependsOn, ids, [added]);
  }

  lemma {:induction false} DecomposeStep(order: seq<TaskId>, before: Table, after: Table, ids: seq<TaskId>, id: TaskId,
                      plan: seq<PlanItem>, members: seq<Member>, n: nat, run: RunId, now: int)
    requires Lists(order, before.Keys) && n < |plan|
    requires Planned(before, ids, plan[..n], run) && OnlyPending(before, ids, run)
    requires WellFormed(plan, members)
    requires id !in Pruned(order, before, run)
    requires after == Pruned(order, before, run)[id := Task(plan[n].name, plan[n].description, run,
               Some(plan[n].member), None, TaskIds(plan[n].dependsOn, ids), Pending, "", now)]
    ensures Planned(after, ids + [id], plan[..n + 1], run) && OnlyPending(after, ids + [id], run)
  {
    CreationGrows(order, before, run, Some(id), after[id]);
    forall i | 0 <= i < n
      ensures ids[i] != id && IsTaskOf(after, ids[i], plan[i], ids + [id], run)
    {
      assert plan[..n][i] == plan[i];
      StaysTaskOf(before, after, ids[i], plan[i], ids, id, run);
    }
    TaskIdsStable(plan[n].dependsOn, ids, [id]);
    assert IsTaskOf(after, id, plan[n], ids + [id], run);
    assert plan[..n + 1] == plan[..n] + [plan[n]];
  }
}
