/** The shared task list of an agent team: an insertion-ordered table of tasks that members
    and the lead change in place. */
module TeamTasks {
  import opened Wrappers

  const MAX_TEAM_TASKS := 128
  const PRUNE_TARGET := MAX_TEAM_TASKS - 16
  const MAX_TASK_NAME_CHARS := 200
  const MAX_TASK_DESCRIPTION_CHARS := 50_000
  const MAX_TASK_RESULT_CHARS := 100_000

  type TaskId = nat

  datatype RunId = NoRun | Run(number: nat)

  datatype Member = Member(name: string)

  datatype TaskStatus = Pending | InProgress | Completed | Failed

  datatype Task = Task(
    name: string,
    description: string,
    run: RunId,
    preferred: Option<Member>,
    assignedTo: Option<Member>,
    dependsOn: seq<TaskId>,
    status: TaskStatus,
    result: string,
    createdAt: int)

  /** The fields an update sets; an empty member name is no member. */
  datatype Changes = Changes(
    name: Option<string>,
    description: Option<string>,
    run: Option<RunId>,
    preferred: Option<Option<Member>>,
    assignedTo: Option<Option<Member>>,
    dependsOn: Option<seq<TaskId>>,
    status: Option<TaskStatus>,
    result: Option<string>)

  const NO_CHANGES := Changes(None, None, None, None, None, None, None, None)

  datatype CreateError = TooManyTasks | NameTooLong | DescriptionTooLong

  datatype Created = Ok(id: TaskId) | Err(error: CreateError)

  type Table = map<TaskId, Task>

  predicate IsTerminal(task: Task) {
    task.status == Completed || task.status == Failed
  }

  /** What pruning may remove: ended tasks of other runs. */
  predicate IsPrunable(task: Task, active: RunId) {
    IsTerminal(task) && task.run != active
  }

  predicate CompletedIn(tasks: Table, id: TaskId) {
    id in tasks && tasks[id].status == Completed
  }

  predicate IsReady(tasks: Table, id: TaskId) {
    && id in tasks
    && tasks[id].status == Pending
    && tasks[id].assignedTo == None
    && forall d :: d in tasks[id].dependsOn ==> CompletedIn(tasks, d)
  }

  // ----- order of insertion, order of age -----

  ghost predicate Lists(order: seq<TaskId>, ids: set<TaskId>) {
    && (forall i, j :: 0 <= i < j < |order| ==> order[i] != order[j])
    && (forall id :: id in order <==> id in ids)
  }

  function Filter(order: seq<TaskId>, keep: set<TaskId>): (r: seq<TaskId>)
    ensures forall id :: id in r <==> id in order && id in keep
  {
    if order == [] then []
    else
      var front, last := Filter(order[..|order| - 1], keep), order[|order| - 1];
      if last in keep then front + [last] else front
  }

  lemma {:induction false} FilterLists(order: seq<TaskId>, keep: set<TaskId>)
    requires forall i, j :: 0 <= i < j < |order| ==> order[i] != order[j]
    ensures Lists(Filter(order, keep), set id | id in order && id in keep)
    ensures |Filter(order, keep)| <= |order|
  {
    FilterIsDistinct(order, keep);
  }

  lemma {:induction false} FilterIsDistinct(order: seq<TaskId>, keep: set<TaskId>)
    requires forall i, j :: 0 <= i < j < |order| ==> order[i] != order[j]
    ensures forall i, j :: 0 <= i < j < |Filter(order, keep)| ==> Filter(order, keep)[i] != Filter(order, keep)[j]
    ensures |Filter(order, keep)| <= |order|
  {
    if order != [] {
      var front, last := order[..|order| - 1], order[|order| - 1];
      FilterIsDistinct(front, keep);
      LastIsNew(order);
      assert last !in Filter(front, keep);
    }
  }

  lemma LastIsNew(order: seq<TaskId>)
    requires order != [] && forall i, j :: 0 <= i < j < |order| ==> order[i] != order[j]
    ensures order[|order| - 1] !in order[..|order| - 1]
  {
  }

  /** Stable insertion by creation time, oldest first. */
  function InsertByAge(sorted: seq<TaskId>, id: TaskId, tasks: Table): (r: seq<TaskId>)
    requires id in tasks && forall x :: x in sorted ==> x in tasks
    ensures forall x :: x in r <==> x in sorted || x == id
  {
    if sorted != [] && tasks[sorted[|sorted| - 1]].createdAt > tasks[id].createdAt then
      var front, last := sorted[..|sorted| - 1], sorted[|sorted| - 1];
      assert sorted == front + [last];
      InsertByAge(front, id, tasks) + [last]
    else sorted + [id]
  }

  function OldestFirst(order: seq<TaskId>, tasks: Table): (r: seq<TaskId>)
    requires forall id :: id in order ==> id in tasks
    ensures forall id :: id in r <==> id in order
  {
    if order == [] then []
    else
      assert order == order[..|order| - 1] + [order[|order| - 1]];
      InsertByAge(OldestFirst(order[..|order| - 1], tasks), order[|order| - 1], tasks)
  }

  /** `x` was inserted before `y`. */
  ghost predicate Before(order: seq<TaskId>, x: TaskId, y: TaskId) {
    exists i, j :: 0 <= i < j < |order| && order[i] == x && order[j] == y
  }

  /** Created earlier, or at the same time and inserted earlier. */
  ghost predicate Older(order: seq<TaskId>, tasks: Table, x: TaskId, y: TaskId)
    requires x in tasks && y in tasks
  {
    || tasks[x].createdAt < tasks[y].createdAt
    || (tasks[x].createdAt == tasks[y].createdAt && Before(order, x, y))
  }

  ghost predicate SortedByAge(ids: seq<TaskId>, tasks: Table, order: seq<TaskId>) {
    && (forall id :: id in ids ==> id in tasks)
    && (forall i, j :: 0 <= i < j < |ids| ==> ids[i] != ids[j] && Older(order, tasks, ids[i], ids[j]))
  }

  lemma SortedSnoc(front: seq<TaskId>, last: TaskId, tasks: Table, order: seq<TaskId>)
    requires SortedByAge(front, tasks, order) && last in tasks
    requires forall id :: id in front ==> id != last && Older(order, tasks, id, last)
    ensures SortedByAge(front + [last], tasks, order)
  {
    var more := front + [last];
    forall i, j | 0 <= i < j < |more| ensures more[i] != more[j] && Older(order, tasks, more[i], more[j]) {
      assert more[i] == front[i] && front[i] in front;
    }
  }

  lemma {:induction false} InsertIsSorted(sorted: seq<TaskId>, id: TaskId, tasks: Table, order: seq<TaskId>)
    requires SortedByAge(sorted, tasks, order) && id in tasks && id !in sorted
    requires forall x :: x in sorted ==> Before(order, x, id)
    ensures SortedByAge(InsertByAge(sorted, id, tasks), tasks, order)
    ensures |InsertByAge(sorted, id, tasks)| == |sorted| + 1
  {
    if sorted != [] && tasks[sorted[|sorted| - 1]].createdAt > tasks[id].createdAt {
      var front, last := sorted[..|sorted| - 1], sorted[|sorted| - 1];
      assert sorted == front + [last];
      InsertIsSorted(front, id, tasks, order);
      SortedSnoc(InsertByAge(front, id, tasks), last, tasks, order);
    } else {
      SortedSnoc(sorted, id, tasks, order);
    }
  }

  lemma {:induction false} OldestFirstIsSorted(order: seq<TaskId>, n: nat, tasks: Table)
    requires n <= |order| && forall id :: id in order ==> id in tasks
    requires forall i, j :: 0 <= i < j < |order| ==> order[i] != order[j]
    ensures SortedByAge(OldestFirst(order[..n], tasks), tasks, order)
    ensures |OldestFirst(order[..n], tasks)| == n
  {
    if n > 0 {
      var front, last := order[..n - 1], order[n - 1];
      assert order[..n] == front + [last] && order[..n][..n - 1] == front;
      OldestFirstIsSorted(order, n - 1, tasks);
      forall x | x in front ensures x != last && Before(order, x, last) {
        var i :| 0 <= i < n - 1 && front[i] == x;
        assert order[i] == x;
      }
      InsertIsSorted(OldestFirst(front, tasks), last, tasks, order);
    }
  }

  lemma BeforeSnoc(order: seq<TaskId>, last: TaskId, x: TaskId, y: TaskId)
    requires Before(order, x, y)
    ensures Before(order + [last], x, y)
  {
    var i, j :| 0 <= i < j < |order| && order[i] == x && order[j] == y;
    assert (order + [last])[i] == x && (order + [last])[j] == y;
  }

  /** Filtering keeps the order. */
  lemma {:induction false} FilterKeepsOrder(order: seq<TaskId>, keep: set<TaskId>, x: TaskId, y: TaskId)
    requires Before(order, x, y) && x in keep && y in keep
    ensures Before(Filter(order, keep), x, y)
  {
    var i, j :| 0 <= i < j < |order| && order[i] == x && order[j] == y;
    var n := |order| - 1;
    var kept := Filter(order[..n], keep);
    if j < n {
      assert order[..n][i] == x && order[..n][j] == y;
      FilterKeepsOrder(order[..n], keep, x, y);
      BeforeSnoc(kept, order[n], x, y);
    } else {
      assert order[..n][i] == x && x in kept;
      var k :| 0 <= k < |kept| && kept[k] == x;
      assert (kept + [y])[k] == x && (kept + [y])[|kept|] == y;
    }
  }

  /** What is left of a list is in the old order. */
  ghost predicate KeepsOrder(order: seq<TaskId>, rest: seq<TaskId>, ids: set<TaskId>) {
    forall x, y :: Before(order, x, y) && x in ids && y in ids ==> Before(rest, x, y)
  }

  lemma FilterOrders(order: seq<TaskId>, keep: set<TaskId>)
    ensures KeepsOrder(order, Filter(order, keep), keep)
  {
    forall x, y | Before(order, x, y) && x in keep && y in keep ensures Before(Filter(order, keep), x, y) {
      FilterKeepsOrder(order, keep, x, y);
    }
  }

  // ----- pruning -----

  function Prunable(tasks: Table, active: RunId): set<TaskId> {
    set id | id in tasks && IsPrunable(tasks[id], active)
  }

  /** The prunable tasks, oldest first. */
  function Candidates(order: seq<TaskId>, tasks: Table, active: RunId): seq<TaskId>
    requires forall id :: id in order ==> id in tasks
  {
    Filter(OldestFirst(order, tasks), Prunable(tasks, active))
  }

  /** How many of them a full table gives up. */
  function PruneCount(size: nat, candidates: nat): (n: nat)
    ensures n <= candidates
  {
    if size < MAX_TEAM_TASKS then 0
    else if size - PRUNE_TARGET <= candidates then size - PRUNE_TARGET
    else candidates
  }

  function Without(tasks: Table, ids: seq<TaskId>): Table {
    map id | id in tasks && id !in ids :: tasks[id]
  }

  lemma WithoutSnoc(tasks: Table, ids: seq<TaskId>, id: TaskId)
    requires id in tasks && id !in ids
    ensures Without(tasks, ids + [id]) == Without(tasks, ids) - {id}
    ensures |Without(tasks, ids + [id])| == |Without(tasks, ids)| - 1
  {
    var before, after := Without(tasks, ids), Without(tasks, ids + [id]);
    assert before.Keys == after.Keys + {id};
    assert |before.Keys| == |before| && |after.Keys| == |after|;
  }

  ghost predicate Distinct(ids: seq<TaskId>, tasks: Table) {
    && (forall i, j :: 0 <= i < j < |ids| ==> ids[i] != ids[j])
    && (forall id :: id in ids ==> id in tasks)
  }

  lemma WithoutNext(tasks: Table, ids: seq<TaskId>, n: nat)
    requires Distinct(ids, tasks) && n < |ids|
    ensures Without(tasks, ids[..n + 1]) == Without(tasks, ids[..n]) - {ids[n]}
    ensures |Without(tasks, ids[..n + 1])| == |Without(tasks, ids[..n])| - 1
  {
    assert ids[n] in ids && ids[n] !in ids[..n];
    assert ids[..n + 1] == ids[..n] + [ids[n]];
    WithoutSnoc(tasks, ids[..n], ids[n]);
  }

  lemma {:induction false} Relist(order: seq<TaskId>, tasks: Table, rest: Table)
    requires Lists(order, tasks.Keys) && rest.Keys <= tasks.Keys
    ensures Lists(Filter(order, rest.Keys), rest.Keys)
  {
    FilterLists(order, rest.Keys);
  }

  /** The table after pruning. */
  function Pruned(order: seq<TaskId>, tasks: Table, active: RunId): Table
    requires forall id :: id in order ==> id in tasks
  {
    var candidates := Candidates(order, tasks, active);
    Without(tasks, candidates[..PruneCount(|tasks|, |candidates|)])
  }

  class SharedTaskList {
    var tasks: Table
    var order: seq<TaskId>
    var activeRun: RunId
    /** The result texts that were too long for the table. */
    var resultFiles: map<TaskId, string>
    /** Where the result of a task would be kept. */
    const resultPath: TaskId -> string

    ghost predicate Valid()
      reads this
    {
      Lists(order, tasks.Keys)
    }

    constructor (resultPath: TaskId -> string)
      ensures Valid() && tasks == map[] && activeRun == NoRun && resultFiles == map[]
      ensures this.resultPath == resultPath
    {
      tasks, order, activeRun, resultFiles := map[], [], NoRun, map[];
      this.resultPath := resultPath;
    }

    method SetActiveRun(run: RunId)
      requires Valid()
      modifies this`activeRun
      ensures Valid() && activeRun == run
    {
      activeRun := run;
    }

    /** Removes the oldest ended tasks of other runs from a full table. */
    method PruneTerminalTasks()
      requires Valid()
      modifies this`tasks, this`order
      ensures Valid() && tasks == Pruned(old(order), old(tasks), activeRun)
      ensures KeepsOrder(old(order), order, tasks.Keys)
    {
      var terminal := Candidates(order, tasks, activeRun);
      if |tasks| < MAX_TEAM_TASKS {
        assert terminal[..0] == [] && Without(tasks, []) == tasks;
        return;
      }
      CandidatesDistinct(order, tasks, activeRun);
      RemoveFirst(terminal);
      Relist(order, old(tasks), tasks);
      FilterOrders(order, tasks.Keys);
      order := Filter(order, tasks.Keys);
    }

    /** Adds a pending task under a fresh id, unless the table stays full or a text is too long. */
    method Create(name: string, description: string, dependsOn: seq<TaskId>, preferred: Option<Member>,
                  run: Option<RunId>, now: int)
        returns (created: Created)
      requires Valid()
      modifies this`tasks, this`order
      ensures Valid()
      ensures
        var pruned := Pruned(old(order), old(tasks), activeRun);
        if |pruned| >= MAX_TEAM_TASKS then created == Err(TooManyTasks) && tasks == pruned
        else if |name| > MAX_TASK_NAME_CHARS then created == Err(NameTooLong) && tasks == pruned
        else if |description| > MAX_TASK_DESCRIPTION_CHARS then created == Err(DescriptionTooLong) && tasks == pruned
        else
          && created.Ok? && created.id !in pruned
          && tasks == pruned[created.id := Task(name, description, if run == None then activeRun else run.value,
                                                preferred, None, dependsOn, Pending, "", now)]
      ensures created.Ok? ==> order != [] && order[|order| - 1] == created.id
      ensures KeepsOrder(old(order), order, Pruned(old(order), old(tasks), activeRun).Keys)
    {
      PruneTerminalTasks();
      if |tasks| >= MAX_TEAM_TASKS {
        return Err(TooManyTasks);
      }
      if |name| > MAX_TASK_NAME_CHARS {
        return Err(NameTooLong);
      }
      if |description| > MAX_TASK_DESCRIPTION_CHARS {
        return Err(DescriptionTooLong);
      }
      var id := FreshId(tasks);
      tasks := tasks[id := Task(name, description, if run == None then activeRun else run.value,
                                preferred, None, dependsOn, Pending, "", now)];
      ghost var before := order;
      order := order + [id];
      forall x, y | Before(before, x, y) ensures Before(order, x, y) {
        BeforeSnoc(before, id, x, y);
      }
      return Ok(id);
    }

    /** Sets the given fields of a task; an unknown id changes nothing.  A result that is too long
        goes to a file, and the task keeps its beginning and the path. */
    method Update(id: TaskId, changes: Changes) returns (found: bool)
      requires Valid()
      modifies this`tasks, this`resultFiles
      ensures Valid() && found == (id in tasks)
      ensures tasks == if id in old(tasks) then old(tasks)[id := Changed(old(tasks)[id], changes, resultPath(id))]
                       else old(tasks)
      ensures found ==> Sets(old(tasks)[id], tasks[id], changes, resultPath(id))
      ensures resultFiles == if id in old(tasks) && changes.result.Some? && TooLong(changes.result.value)
                             then old(resultFiles)[id := changes.result.value] else old(resultFiles)
    {
      if id !in tasks {
        return false;
      }
      if changes.result.Some? && TooLong(changes.result.value) {
        resultFiles := resultFiles[id := changes.result.value];
      }
      tasks := tasks[id := Changed(tasks[id], changes, resultPath(id))];
      return true;
    }

    method Assign(id: TaskId, member: Member) returns (found: bool)
      requires Valid()
      modifies this`tasks, this`resultFiles
      ensures Valid() && found == (id in tasks) && resultFiles == old(resultFiles)
      ensures tasks == if id in old(tasks) then
                         old(tasks)[id := old(tasks)[id].(status := InProgress, assignedTo := Some(member))]
                       else old(tasks)
    {
      found := Update(id, NO_CHANGES.(status := Some(InProgress), assignedTo := Some(Some(member))));
    }

    /** The pending, unassigned tasks whose dependencies are all completed, in insertion order. */
    method ReadyTasks() returns (ready: seq<TaskId>)
      requires Valid()
      ensures Distinct(ready, tasks)
      ensures forall id :: id in ready <==> IsReady(tasks, id)
      ensures forall id :: id in ready <==>
                && id in tasks && tasks[id].status == Pending && tasks[id].assignedTo == None
                && forall d :: d in tasks[id].dependsOn ==> d in tasks && tasks[d].status == Completed
      ensures forall i, j :: 0 <= i < j < |ready| ==> Before(order, ready[i], ready[j])
    {
      ready := [];
      for n := 0 to |order|
        invariant forall id :: id in ready <==> id in order[..n] && IsReady(tasks, id)
        invariant forall i, j :: 0 <= i < j < |ready| ==> ready[i] != ready[j] && Before(order, ready[i], ready[j])
      {
        var id := order[n];
        InsertedBefore(order, n);
        assert order[..n + 1] == order[..n] + [id] && id !in order[..n];
        if IsReady(tasks, id) {
          ready := ready + [id];
        }
      }
      assert order[..|order|] == order;
    }

    /** Removes from the front of `terminal` until the table is small enough. */
    method RemoveFirst(terminal: seq<TaskId>)
      requires Distinct(terminal, tasks) && |tasks| >= MAX_TEAM_TASKS
      modifies this`tasks
      ensures tasks == Without(old(tasks), terminal[..PruneCount(|old(tasks)|, |terminal|)])
    {
      ghost var before, gone := tasks, 0;
      assert terminal[..0] == [] && Without(tasks, []) == tasks;
      for n := 0 to |terminal|
        invariant gone == n
        invariant tasks == Without(before, terminal[..n]) && |tasks| == |before| - n
        invariant n > 0 ==> |before| - (n - 1) > PRUNE_TARGET
      {
        if |tasks| <= PRUNE_TARGET {
          break;
        }
        WithoutNext(before, terminal, n);
        tasks := tasks - {terminal[n]};
        gone := n + 1;
      }
      assert gone == PruneCount(|before|, |terminal|);
    }
  }

  lemma InsertedBefore(order: seq<TaskId>, n: nat)
    requires n < |order|
    ensures forall x :: x in order[..n] ==> Before(order, x, order[n])
  {
    forall x | x in order[..n] ensures Before(order, x, order[n]) {
      var i :| 0 <= i < n && order[..n][i] == x;
      assert order[i] == x;
    }
  }

  function Or<T>(change: Option<T>, value: T): T {
    if change.Some? then change.value else value
  }

  predicate TooLong(result: string) {
    |result| > MAX_TASK_RESULT_CHARS
  }

  /** What the table keeps of a result. */
  function Kept(result: string, path: string): string {
    if TooLong(result) then result[..MAX_TASK_RESULT_CHARS] + "\n\n[完整结果: " + path + "]" else result
  }

  function Changed(task: Task, c: Changes, path: string): Task {
    Task(Or(c.name, task.name), Or(c.description, task.description), Or(c.run, task.run),
         Or(c.preferred, task.preferred), Or(c.assignedTo, task.assignedTo),
         Or(c.dependsOn, task.dependsOn), Or(c.status, task.status),
         if c.result.Some? then Kept(c.result.value, path) else task.result, task.createdAt)
  }

  /** Each field is as the change says, or as it was. */
  predicate Sets(was: Task, now: Task, c: Changes, path: string) {
    && now.name == (if c.name.Some? then c.name.value else was.name)
    && now.description == (if c.description.Some? then c.description.value else was.description)
    && now.run == (if c.run.Some? then c.run.value else was.run)
    && now.preferred == (if c.preferred.Some? then c.preferred.value else was.preferred)
    && now.assignedTo == (if c.assignedTo.Some? then c.assignedTo.value else was.assignedTo)
    && now.dependsOn == (if c.dependsOn.Some? then c.dependsOn.value else was.dependsOn)
    && now.status == (if c.status.Some? then c.status.value else was.status)
    && now.createdAt == was.createdAt
    && if c.result.Some? then Abridges(now.result, c.result.value, path) else now.result == was.result
  }

  /** A result is kept as it is, or its first 100000 characters are, followed by the path of the
      whole of it. */
  predicate Abridges(kept: string, result: string, path: string) {
    if |result| <= 100_000 then kept == result
    else
      && |kept| > 100_000 && kept[..100_000] == result[..100_000]
      && kept[100_000..] == "\n\n[完整结果: " + path + "]"
  }

  /** An id that the table does not hold; which one is up to the id generator. */
  method FreshId(tasks: Table) returns (id: TaskId)
    ensures id !in tasks
  {
    ghost var bound := FreshIdExists(tasks.Keys);
    id :| id !in tasks;
  }

  lemma {:induction false} FreshIdExists(ids: set<TaskId>) returns (bound: TaskId)
    ensures forall id :: id in ids ==> id < bound
    ensures bound !in ids
    decreases ids
  {
    if ids == {} {
      return 0;
    }
    var x :| x in ids;
    var rest := FreshIdExists(ids - {x});
    assert forall id :: id in ids ==> id == x || id in ids - {x};
    bound := if x < rest then rest else x + 1;
  }

  /** Pruning never touches a task of the active run or one that has not ended. */
  lemma PrunedKeeps(order: seq<TaskId>, tasks: Table, active: RunId)
    requires Lists(order, tasks.Keys)
    ensures var pruned := Pruned(order, tasks, active);
            && pruned.Keys <= tasks.Keys
            && (forall id :: id in pruned ==> pruned[id] == tasks[id])
            && (forall id :: id in tasks && !IsPrunable(tasks[id], active) ==> id in pruned)
            && (forall id :: id in tasks && tasks[id].run == active ==> id in pruned)
            && (forall id :: id in tasks && tasks[id].status in {Pending, InProgress} ==> id in pruned)
  {
  }

  lemma {:induction false} FilterSorted(ids: seq<TaskId>, keep: set<TaskId>, tasks: Table, order: seq<TaskId>)
    requires SortedByAge(ids, tasks, order)
    ensures SortedByAge(Filter(ids, keep), tasks, order)
  {
    if ids != [] {
      var front, last := ids[..|ids| - 1], ids[|ids| - 1];
      FilterSorted(front, keep, tasks, order);
      if last in keep {
        SortedSnoc(Filter(front, keep), last, tasks, order);
      }
    }
  }

  lemma CandidatesAreSorted(order: seq<TaskId>, tasks: Table, active: RunId)
    requires Lists(order, tasks.Keys)
    ensures SortedByAge(Candidates(order, tasks, active), tasks, order)
  {
    OldestFirstIsSorted(order, |order|, tasks);
    assert order[..|order|] == order;
    FilterSorted(OldestFirst(order, tasks), Prunable(tasks, active), tasks, order);
  }

  /** What pruning removes is older than any prunable task it keeps, and it keeps one only when the
      table has shrunk to the target. */
  lemma PrunedRemovesOldest(order: seq<TaskId>, tasks: Table, active: RunId, gone: TaskId, kept: TaskId)
    requires Lists(order, tasks.Keys)
    requires var pruned := Pruned(order, tasks, active);
             gone in tasks && gone !in pruned && kept in pruned && IsPrunable(tasks[kept], active)
    ensures IsPrunable(tasks[gone], active) && Older(order, tasks, gone, kept)
    ensures |Pruned(order, tasks, active)| == PRUNE_TARGET
  {
    var candidates := Candidates(order, tasks, active);
    var n := PruneCount(|tasks|, |candidates|);
    CandidatesAreSorted(order, tasks, active);
    CandidatesDistinct(order, tasks, active);
    WithoutCount(tasks, candidates, n);
    PrefixIsOlder(candidates, n, gone, kept, tasks, order);
  }

  lemma PrefixIsOlder(ids: seq<TaskId>, n: nat, first: TaskId, later: TaskId, tasks: Table, order: seq<TaskId>)
    requires SortedByAge(ids, tasks, order) && n <= |ids|
    requires first in ids[..n] && later in ids && later !in ids[..n]
    ensures n < |ids| && Older(order, tasks, first, later)
  {
    forall k | 0 <= k < n ensures ids[k] in ids[..n] {
      assert ids[..n][k] == ids[k];
    }
    var i :| 0 <= i < |ids| && ids[i] == later;
    var j :| 0 <= j < n && ids[..n][j] == first;
  }

  lemma {:induction false} WithoutCount(tasks: Table, ids: seq<TaskId>, n: nat)
    requires Distinct(ids, tasks) && n <= |ids|
    ensures |Without(tasks, ids[..n])| == |tasks| - n
  {
    if n == 0 {
      assert ids[..0] == [] && Without(tasks, []) == tasks;
    } else {
      WithoutCount(tasks, ids, n - 1);
      WithoutNext(tasks, ids, n - 1);
    }
  }

  lemma CandidatesDistinct(order: seq<TaskId>, tasks: Table, active: RunId)
    requires Lists(order, tasks.Keys)
    ensures Distinct(Candidates(order, tasks, active), tasks)
  {
    OldestFirstIsSorted(order, |order|, tasks);
    assert order[..|order|] == order;
    FilterLists(OldestFirst(order, tasks), Prunable(tasks, active));
  }
}
