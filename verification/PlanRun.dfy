/** The life of an approved task plan: nodes start when their dependencies are complete, and
    status updates come in any order.  Two writers that can touch the same file are never in
    progress together, as long as no node is completed before its dependencies. */
module PlanRun {
  import opened PlanScopes
  import opened PlanGraph

  datatype PlanStatus = Draft | Active | NeedsReview | PlanCompleted | PlanFailed | Interrupted | Discarded

  datatype Plan = Plan(status: PlanStatus, nodes: seq<Node>, fallback: bool)

  datatype Reply = NoPlan | NotApproved | NotActive | UnknownNode | MissingDependencies | Terminal | Updated

  /** The node that a lookup by id finds first. */
  function Find(nodes: seq<Node>, id: Id): (i: nat)
    ensures i <= |nodes|
    ensures i < |nodes| ==> nodes[i].id == id
    ensures forall k :: 0 <= k < i ==> nodes[k].id != id
  {
    if nodes == [] then 0
    else
      var i := Find(nodes[..|nodes| - 1], id);
      if i < |nodes| - 1 || nodes[|nodes| - 1].id == id then i else |nodes|
  }

  predicate IsComplete(nodes: seq<Node>, id: Id) {
    Find(nodes, id) < |nodes| && nodes[Find(nodes, id)].status == Completed
  }

  predicate DependenciesComplete(nodes: seq<Node>, node: Node) {
    forall id :: id in node.dependsOn ==> IsComplete(nodes, id)
  }

  predicate Ready(nodes: seq<Node>, i: nat)
    requires i < |nodes|
  {
    nodes[i].status == Pending && DependenciesComplete(nodes, nodes[i])
  }

  function SetStatus(nodes: seq<Node>, i: nat, status: NodeStatus): (r: seq<Node>)
    requires i < |nodes|
    ensures SameGraph(nodes, r)
  {
    nodes[i := nodes[i].(status := status)]
  }

  /** The first ready node from `from` on. */
  function FirstReady(nodes: seq<Node>, from: nat): (i: nat)
    requires from <= |nodes|
    ensures from <= i <= |nodes|
    ensures i < |nodes| ==> Ready(nodes, i)
    ensures forall k :: from <= k < i ==> !Ready(nodes, k)
    decreases |nodes| - from
  {
    if from == |nodes| || Ready(nodes, from) then from else FirstReady(nodes, from + 1)
  }

  function StartNext(nodes: seq<Node>): seq<Node> {
    var i := FirstReady(nodes, 0);
    if i < |nodes| then SetStatus(nodes, i, InProgress) else nodes
  }

  // ----- events -----

  datatype Event = Approve | Update(id: Id, next: NodeStatus) | ObserveWrite

  const SCOPE := Id("scope")

  function UpdateReply(plan: Plan, id: Id, next: NodeStatus): Reply {
    if plan.status == Draft then NotApproved
    else if plan.status != Active then NotActive
    else
      var i := Find(plan.nodes, id);
      if i == |plan.nodes| then UnknownNode
      else if next == InProgress && !DependenciesComplete(plan.nodes, plan.nodes[i]) then MissingDependencies
      else if plan.nodes[i].status == Completed || plan.nodes[i].status == Skipped then Terminal
      else Updated
  }

  /** A workspace write ends the reconnaissance node of the fallback plan. */
  predicate EndsScope(plan: Plan) {
    var i := Find(plan.nodes, SCOPE);
    plan.fallback && i < |plan.nodes| && plan.nodes[i].status == InProgress
  }

  function Step(plan: Plan, e: Event): Plan {
    match e
    case Approve =>
      if plan.status == Draft then Plan(Active, StartNext(plan.nodes), plan.fallback) else plan
    case Update(id, next) =>
      if UpdateReply(plan, id, next) != Updated then plan
      else
        var nodes := SetStatus(plan.nodes, Find(plan.nodes, id), next);
        plan.(nodes := if next == Completed then StartNext(nodes) else nodes)
    case ObserveWrite =>
      if !EndsScope(plan) then plan
      else plan.(nodes := StartNext(SetStatus(plan.nodes, Find(plan.nodes, SCOPE), Completed)))
  }

  function Run(plan: Plan, events: seq<Event>): Plan {
    if events == [] then plan else Step(Run(plan, events[..|events| - 1]), events[|events| - 1])
  }

  lemma {:induction false} RunSnoc(plan: Plan, events: seq<Event>, e: Event)
    ensures Run(plan, events + [e]) == Step(Run(plan, events), e)
  {
    assert (events + [e])[..|events|] == events;
  }

  lemma {:induction false} RunAppend(plan: Plan, left: seq<Event>, right: seq<Event>)
    ensures Run(plan, left + right) == Run(Run(plan, left), right)
  {
    if right == [] {
      assert left + right == left;
    } else {
      var front, last := right[..|right| - 1], right[|right| - 1];
      RunAppend(plan, left, front);
      RunSnoc(plan, left + front, last);
      assert left + right == (left + front) + [last];
    }
  }

  // ----- the planning service -----

  class TaskPlan {
    var status: PlanStatus
    var tasks: seq<Node>
    const fallback: bool

    constructor (tasks: seq<Node>, status: PlanStatus, fallback: bool)
      ensures Snapshot() == Plan(status, tasks, fallback)
    {
      this.tasks, this.status, this.fallback := tasks, status, fallback;
    }

    function Snapshot(): Plan
      reads this
    {
      Plan(status, tasks, fallback)
    }

    method StartNextReady()
      modifies this`tasks
      ensures tasks == StartNext(old(tasks))
    {
      for i := 0 to |tasks|
        invariant tasks == old(tasks)
        invariant FirstReady(tasks, i) == FirstReady(tasks, 0)
      {
        if tasks[i].status != Pending {
          continue;
        }
        if DependenciesComplete(tasks, tasks[i]) {
          tasks := SetStatus(tasks, i, InProgress);
          return;
        }
      }
    }
  }

  class TaskPlanningService {
    var active: TaskPlan?

    constructor ()
      ensures active == null
    {
      active := null;
    }

    method ApproveDraft() returns (approved: bool)
      modifies active
      ensures active == old(active)
      ensures approved == (active != null && old(active.status) == Draft)
      ensures active != null ==> active.Snapshot() == Step(old(active.Snapshot()), Approve)
    {
      if active == null || active.status != Draft {
        return false;
      }
      active.status := Active;
      active.StartNextReady();
      return true;
    }

    method UpdateTask(id: Id, next: NodeStatus) returns (reply: Reply)
      modifies active
      ensures active == old(active)
      ensures reply == if active == null then NoPlan else UpdateReply(old(active.Snapshot()), id, next)
      ensures active != null ==> active.Snapshot() == Step(old(active.Snapshot()), Update(id, next))
    {
      if active == null {
        return NoPlan;
      }
      if active.status == Draft {
        return NotApproved;
      }
      if active.status != Active {
        return NotActive;
      }
      var i := Find(active.tasks, id);
      if i == |active.tasks| {
        return UnknownNode;
      }
      if next == InProgress && !DependenciesComplete(active.tasks, active.tasks[i]) {
        return MissingDependencies;
      }
      if active.tasks[i].status == Completed || active.tasks[i].status == Skipped {
        return Terminal;
      }
      active.tasks := SetStatus(active.tasks, i, next);
      if next == Completed {
        active.StartNextReady();
      }
      return Updated;
    }

    method ObserveSuccessfulWorkspaceWrite() returns (advanced: bool)
      modifies active
      ensures active == old(active)
      ensures advanced == (active != null && EndsScope(old(active.Snapshot())))
      ensures active != null ==> active.Snapshot() == Step(old(active.Snapshot()), ObserveWrite)
    {
      if active == null || !active.fallback {
        return false;
      }
      var i := Find(active.tasks, SCOPE);
      if i == |active.tasks| || active.tasks[i].status != InProgress {
        return false;
      }
      active.tasks := SetStatus(active.tasks, i, Completed);
      active.StartNextReady();
      return true;
    }
  }

  // ----- what an event changes -----

  predicate IsTerminal(status: NodeStatus) {
    status == Completed || status == Skipped
  }

  /** Starting a node changes one pending node whose dependencies are complete, or nothing. */
  lemma StartNextChanges(nodes: seq<Node>)
    ensures var after := StartNext(nodes);
            && |after| == |nodes|
            && forall k :: 0 <= k < |nodes| && after[k] != nodes[k] ==>
                 && nodes[k].status == Pending
                 && (forall d :: d in nodes[k].dependsOn ==>
                       Find(nodes, d) < |nodes| && nodes[Find(nodes, d)].status == Completed)
                 && after[k] == nodes[k].(status := InProgress)
                 && forall j :: 0 <= j < |nodes| && j != k ==> after[j] == nodes[j]
  {
  }

  /** When an update is accepted, and what it does then: the node found gets the status, and only a
      completion starts another one. */
  lemma UpdateExactly(plan: Plan, id: Id, next: NodeStatus)
    ensures var i, after := Find(plan.nodes, id), Step(plan, Update(id, next));
            && after.status == plan.status && after.fallback == plan.fallback && |after.nodes| == |plan.nodes|
            && (UpdateReply(plan, id, next) == Updated <==>
                  && plan.status == Active && i < |plan.nodes|
                  && plan.nodes[i].status != Completed && plan.nodes[i].status != Skipped
                  && (next == InProgress ==>
                        forall d :: d in plan.nodes[i].dependsOn ==>
                          && Find(plan.nodes, d) < |plan.nodes|
                          && plan.nodes[Find(plan.nodes, d)].status == Completed))
            && (UpdateReply(plan, id, next) != Updated ==> after == plan)
            && (UpdateReply(plan, id, next) == Updated ==>
                  && after.nodes[i] == plan.nodes[i].(status := next)
                  && forall k :: 0 <= k < |plan.nodes| && k != i && after.nodes[k] != plan.nodes[k] ==>
                       && next == Completed && plan.nodes[k].status == Pending
                       && after.nodes[k] == plan.nodes[k].(status := InProgress))
  {
    if UpdateReply(plan, id, next) == Updated {
      StartNextChanges(SetStatus(plan.nodes, Find(plan.nodes, id), next));
    }
  }

  /** What is complete or skipped stays as it is through every run. */
  lemma {:induction false} TerminalStays(plan: Plan, events: seq<Event>, k: nat)
    requires k < |plan.nodes| && IsTerminal(plan.nodes[k].status)
    ensures |Run(plan, events).nodes| == |plan.nodes| && Run(plan, events).nodes[k] == plan.nodes[k]
  {
    if events != [] {
      var before, e := Run(plan, events[..|events| - 1]), events[|events| - 1];
      TerminalStays(plan, events[..|events| - 1], k);
      match e
      case Approve => StartNextChanges(before.nodes);
      case Update(id, next) => UpdateExactly(before, id, next);
      case ObserveWrite =>
        if EndsScope(before) {
          StartNextChanges(SetStatus(before.nodes, Find(before.nodes, SCOPE), Completed));
        }
    }
  }

  /** An approval activates a draft and starts a node of it; it changes nothing else. */
  lemma ApproveExactly(plan: Plan)
    ensures var after := Step(plan, Approve);
            if plan.status != Draft then after == plan
            else
              && after.status == Active && after.fallback == plan.fallback && |after.nodes| == |plan.nodes|
              && (after.nodes == plan.nodes <==> forall k :: 0 <= k < |plan.nodes| ==> !Ready(plan.nodes, k))
  {
  }

  /** A write counts as completing the scope node of an active fallback plan while that is in
      progress, and as nothing else. */
  lemma WriteExactly(plan: Plan)
    requires plan.status == Active
    ensures var i := Find(plan.nodes, SCOPE);
            Step(plan, ObserveWrite) ==
            if plan.fallback && i < |plan.nodes| && plan.nodes[i].status == InProgress
            then Step(plan, Update(SCOPE, Completed)) else plan
  {
  }

  // ----- the invariant -----

  /** Same ids, dependencies and scopes; only statuses may differ. */
  ghost predicate SameGraph(left: seq<Node>, right: seq<Node>) {
    && |left| == |right|
    && forall i :: 0 <= i < |left| ==> left[i].(status := Pending) == right[i].(status := Pending)
  }

  /** What has started or ended has all its dependencies complete. */
  ghost predicate Ordered(nodes: seq<Node>) {
    forall i :: 0 <= i < |nodes| && (nodes[i].status == InProgress || nodes[i].status == Completed)
      ==> DependenciesComplete(nodes, nodes[i])
  }

  /** No two nodes in progress can write the same file. */
  ghost predicate Exclusive(nodes: seq<Node>) {
    forall i, j :: 0 <= i < j < |nodes| && nodes[i].status == InProgress && nodes[j].status == InProgress
      ==> !Overlap(nodes[i].writeScope, nodes[j].writeScope)
  }

  lemma {:induction false} FindUnique(nodes: seq<Node>, i: nat)
    requires UniqueIds(nodes) && i < |nodes|
    ensures Find(nodes, nodes[i].id) == i
  {
  }

  lemma SameIds(start: seq<Node>, nodes: seq<Node>)
    requires SameGraph(start, nodes)
    ensures forall k :: 0 <= k < |nodes| ==> nodes[k].id == start[k].id && nodes[k].dependsOn == start[k].dependsOn
    ensures UniqueIds(start) ==> UniqueIds(nodes)
  {
    forall k | 0 <= k < |nodes| ensures nodes[k].id == start[k].id && nodes[k].dependsOn == start[k].dependsOn {
      assert start[k].(status := Pending) == nodes[k].(status := Pending);
    }
  }

  lemma {:induction false} SameById(left: seq<Node>, right: seq<Node>)
    requires SameGraph(left, right)
    ensures ById(left) == ById(right)
  {
    if left != [] {
      var n := |left| - 1;
      assert forall i :: 0 <= i < n ==> left[..n][i] == left[i] && right[..n][i] == right[i];
      SameById(left[..n], right[..n]);
      assert left[n].(status := Pending) == right[n].(status := Pending);
    }
  }

  lemma SameValid(left: seq<Node>, right: seq<Node>)
    requires SameGraph(left, right) && ValidPlan(left)
    ensures ValidPlan(right)
  {
    SameById(left, right);
    assert forall i :: 0 <= i < |left| ==>
      && left[i].id == right[i].id && left[i].dependsOn == right[i].dependsOn
      && left[i].writeScope == right[i].writeScope
      by {
        assert forall i :: 0 <= i < |left| ==> left[i].(status := Pending) == right[i].(status := Pending);
      }
    forall i | 0 <= i < |right| ensures ValidDependencies(right[i], right) {
      assert ValidDependencies(left[i], left);
    }
    forall i, j | 0 <= i < j < |right| ensures OrderedWriters(right[i], right[j], right) {
      assert OrderedWriters(left[i], left[j], left);
    }
  }

  lemma {:induction false} ByIdUnique(nodes: seq<Node>, i: nat)
    requires UniqueIds(nodes) && i < |nodes|
    ensures nodes[i].id in ById(nodes) && ById(nodes)[nodes[i].id] == nodes[i].dependsOn
  {
    if i < |nodes| - 1 {
      ByIdUnique(nodes[..|nodes| - 1], i);
    }
  }

  /** All transitive dependencies of a started node are complete. */
  lemma {:induction false} ReachedIsComplete(nodes: seq<Node>, node: Node, target: Id, n: nat)
    requires UniqueIds(nodes) && Ordered(nodes) && DependenciesComplete(nodes, node)
    requires ReachesIn(node.dependsOn, ById(nodes), target, n)
    ensures IsComplete(nodes, target)
    decreases n
  {
    if n > 0 {
      var id :| ReachesIn(node.dependsOn, ById(nodes), id, n - 1) && Edge(ById(nodes), id, target);
      ReachedIsComplete(nodes, node, id, n - 1);
      var i := Find(nodes, id);
      ByIdUnique(nodes, i);
      assert DependenciesComplete(nodes, nodes[i]);
    }
  }

  lemma OrderedIsExclusive(nodes: seq<Node>)
    requires ValidPlan(nodes) && Ordered(nodes)
    ensures Exclusive(nodes)
  {
    forall i, j | 0 <= i < j < |nodes| && nodes[i].status == InProgress && nodes[j].status == InProgress
      ensures !Overlap(nodes[i].writeScope, nodes[j].writeScope)
    {
      assert OrderedWriters(nodes[i], nodes[j], nodes);
      FindUnique(nodes, i);
      FindUnique(nodes, j);
      if TransitivelyDepends(nodes[i], nodes[j].id, nodes) {
        var n: nat :| ReachesIn(nodes[i].dependsOn, ById(nodes), nodes[j].id, n);
        ReachedIsComplete(nodes, nodes[i], nodes[j].id, n);
      }
      if TransitivelyDepends(nodes[j], nodes[i].id, nodes) {
        var n: nat :| ReachesIn(nodes[j].dependsOn, ById(nodes), nodes[i].id, n);
        ReachedIsComplete(nodes, nodes[j], nodes[i].id, n);
      }
    }
  }

  /** Setting the status of a node that is not complete keeps the order exactly when the
      node's dependencies are complete or the new status does not need them. */
  lemma SetStatusOrdered(nodes: seq<Node>, i: nat, status: NodeStatus)
    requires UniqueIds(nodes) && Ordered(nodes) && i < |nodes| && nodes[i].status != Completed
    requires nodes[i].id !in nodes[i].dependsOn
    ensures Ordered(SetStatus(nodes, i, status)) <==>
            (status == InProgress || status == Completed ==> DependenciesComplete(nodes, nodes[i]))
  {
    var after := SetStatus(nodes, i, status);
    forall id ensures IsComplete(nodes, id) ==> IsComplete(after, id) {
      if IsComplete(nodes, id) { FindUnique(after, Find(nodes, id)); }
    }
    forall id | id != nodes[i].id ensures IsComplete(after, id) ==> IsComplete(nodes, id) {
      if IsComplete(after, id) { FindUnique(nodes, Find(after, id)); }
    }
    assert DependenciesComplete(after, after[i]) <==> DependenciesComplete(nodes, nodes[i]);
  }

  /** Starting nodes never touches what is complete. */
  lemma StartNextOrdered(nodes: seq<Node>)
    requires ValidPlan(nodes)
    ensures SameGraph(nodes, StartNext(nodes))
    ensures Ordered(nodes) ==> Ordered(StartNext(nodes))
    ensures Ordered(StartNext(nodes)) ==>
              forall i :: 0 <= i < |nodes| && nodes[i].status == Completed ==> DependenciesComplete(nodes, nodes[i])
  {
    var k, after := FirstReady(nodes, 0), StartNext(nodes);
    if k < |nodes| {
      assert ValidDependencies(nodes[k], nodes);
      if Ordered(nodes) {
        SetStatusOrdered(nodes, k, InProgress);
      }
      forall i | Ordered(after) && 0 <= i < |nodes| && nodes[i].status == Completed
        ensures DependenciesComplete(nodes, nodes[i])
      {
        assert after[i] == nodes[i];
        forall id | id in nodes[i].dependsOn ensures IsComplete(nodes, id) {
          assert IsComplete(after, id);
          FindUnique(nodes, Find(after, id));
        }
      }
    }
  }

  /** An accepted update that completes a node whose dependencies are not complete.  Nothing
      in `update_task` refuses it. */
  predicate Premature(plan: Plan, e: Event) {
    && e.Update? && e.next == Completed
    && UpdateReply(plan, e.id, e.next) == Updated
    && !DependenciesComplete(plan.nodes, plan.nodes[Find(plan.nodes, e.id)])
  }

  /** Every event but a premature completion keeps the order, and that one always breaks it. */
  lemma StepOrdered(plan: Plan, e: Event)
    requires ValidPlan(plan.nodes) && Ordered(plan.nodes)
    ensures SameGraph(plan.nodes, Step(plan, e).nodes)
    ensures Ordered(Step(plan, e).nodes) <==> !Premature(plan, e)
  {
    match e
    case Approve =>
      StartNextOrdered(plan.nodes);
    case ObserveWrite =>
      if EndsScope(plan) {
        CompleteOrdered(plan.nodes, Find(plan.nodes, SCOPE));
      }
    case Update(id, next) =>
      if UpdateReply(plan, id, next) == Updated {
        var i := Find(plan.nodes, id);
        if next == Completed {
          CompleteOrdered(plan.nodes, i);
        } else {
          assert ValidDependencies(plan.nodes[i], plan.nodes);
          SetStatusOrdered(plan.nodes, i, next);
        }
      }
  }

  /** Completing a node completes nothing below it. */
  lemma CompletedBefore(nodes: seq<Node>, i: nat)
    requires UniqueIds(nodes) && i < |nodes| && nodes[i].id !in nodes[i].dependsOn
    requires var done := SetStatus(nodes, i, Completed); DependenciesComplete(done, done[i])
    ensures DependenciesComplete(nodes, nodes[i])
  {
    var done := SetStatus(nodes, i, Completed);
    forall id | id in nodes[i].dependsOn ensures IsComplete(nodes, id) {
      assert IsComplete(done, id);
      FindUnique(nodes, Find(done, id));
    }
  }

  lemma CompleteOrdered(nodes: seq<Node>, i: nat)
    requires ValidPlan(nodes) && Ordered(nodes) && i < |nodes| && nodes[i].status != Completed
    ensures SameGraph(nodes, StartNext(SetStatus(nodes, i, Completed)))
    ensures Ordered(StartNext(SetStatus(nodes, i, Completed))) <==> DependenciesComplete(nodes, nodes[i])
  {
    var done := SetStatus(nodes, i, Completed);
    assert ValidDependencies(nodes[i], nodes);
    SetStatusOrdered(nodes, i, Completed);
    SameValid(nodes, done);
    StartNextOrdered(done);
    if Ordered(StartNext(done)) {
      assert DependenciesComplete(done, done[i]);
      CompletedBefore(nodes, i);
    }
  }

  /** No event of the run is a premature completion. */
  ghost predicate Careful(plan: Plan, events: seq<Event>) {
    events == [] ||
    (var front, last := events[..|events| - 1], events[|events| - 1];
     Careful(plan, front) && !Premature(Run(plan, front), last))
  }

  /** Completing a node that is in progress is never premature. */
  lemma FromInProgressIsCareful(plan: Plan, e: Event)
    requires Ordered(plan.nodes)
    requires e.Update? && Find(plan.nodes, e.id) < |plan.nodes|
    requires plan.nodes[Find(plan.nodes, e.id)].status == InProgress
    ensures !Premature(plan, e)
  {
  }

  lemma CarefulSnoc(plan: Plan, events: seq<Event>, e: Event)
    ensures Careful(plan, events + [e]) <==> Careful(plan, events) && !Premature(Run(plan, events), e)
  {
    assert (events + [e])[..|events|] == events;
  }

  /** After every event what has started or ended has its dependencies complete. */
  ghost predicate AlwaysOrdered(plan: Plan, events: seq<Event>) {
    && Ordered(Run(plan, events).nodes)
    && (events == [] || AlwaysOrdered(plan, events[..|events| - 1]))
  }

  ghost predicate Untouched(plan: Plan) {
    forall i :: 0 <= i < |plan.nodes| ==> plan.nodes[i].status == Pending
  }

  lemma {:induction false} RunIsOrdered(plan: Plan, events: seq<Event>)
    requires ValidPlan(plan.nodes) && Untouched(plan) && Careful(plan, events)
    ensures ValidPlan(Run(plan, events).nodes) && AlwaysOrdered(plan, events)
  {
    if events != [] {
      RunIsOrdered(plan, events[..|events| - 1]);
      var before := Run(plan, events[..|events| - 1]);
      StepOrdered(before, events[|events| - 1]);
      SameValid(before.nodes, Run(plan, events).nodes);
    }
  }

  /** A run keeps dependencies complete below what has started or ended exactly if no event of it is
      a premature completion. */
  lemma {:induction false} RunIsOrderedExactly(plan: Plan, events: seq<Event>)
    requires ValidPlan(plan.nodes) && Untouched(plan)
    ensures AlwaysOrdered(plan, events) <==> Careful(plan, events)
  {
    if Careful(plan, events) {
      RunIsOrdered(plan, events);
    } else if events != [] {
      var front := events[..|events| - 1];
      RunIsOrderedExactly(plan, front);
      if Careful(plan, front) {
        RunIsOrdered(plan, front);
        StepOrdered(Run(plan, front), events[|events| - 1]);
      }
    }
  }

  /** Through every careful run of approvals, updates and observed writes, overlapping writers are
      never in progress together. */
  lemma {:induction false} RunIsExclusive(plan: Plan, events: seq<Event>)
    requires ValidPlan(plan.nodes) && Untouched(plan) && Careful(plan, events)
    ensures ValidPlan(Run(plan, events).nodes) && Ordered(Run(plan, events).nodes)
    ensures Exclusive(Run(plan, events).nodes)
  {
    RunIsOrdered(plan, events);
    OrderedIsExclusive(Run(plan, events).nodes);
  }

  /** An update that is accepted. */
  lemma UpdateStep(plan: Plan, k: nat, next: NodeStatus)
    requires UniqueIds(plan.nodes) && plan.status == Active && k < |plan.nodes|
    requires plan.nodes[k].status != Completed && plan.nodes[k].status != Skipped
    requires next == InProgress ==> DependenciesComplete(plan.nodes, plan.nodes[k])
    ensures var changed := SetStatus(plan.nodes, k, next);
            Step(plan, Update(plan.nodes[k].id, next)) ==
            plan.(nodes := if next == Completed then StartNext(changed) else changed)
  {
    FindUnique(plan.nodes, k);
  }

  /** What every step keeps holds at the end of a run. */
  lemma {:induction false} RunKeeps(plan: Plan, steps: seq<Event>, inv: (Plan, nat) -> bool)
    requires inv(plan, 0)
    requires forall p: Plan, k: nat :: k < |steps| && inv(p, k) ==> inv(Step(p, steps[k]), k + 1)
    ensures inv(Run(plan, steps), |steps|)
  {
    if steps != [] {
      var front, last := steps[..|steps| - 1], steps[|steps| - 1];
      assert forall k :: 0 <= k < |front| ==> front[k] == steps[k];
      RunKeeps(plan, front, inv);
      assert inv(Step(Run(plan, front), steps[|front|]), |front| + 1);
    }
  }

  // ----- why that care is needed -----

  const FIRST := Id("a")
  const MIDDLE := Id("b")
  const LAST := Id("c")

  /** A chain of three nodes whose ends write the same directory. */
  function Chain(first: NodeStatus, middle: NodeStatus, last: NodeStatus): seq<Node> {
    [Node(FIRST, [], ["src"], first), Node(MIDDLE, [FIRST], [], middle), Node(LAST, [MIDDLE], ["src"], last)]
  }

  lemma ChainFind(first: NodeStatus, middle: NodeStatus, last: NodeStatus)
    ensures UniqueIds(Chain(first, middle, last))
    ensures Find(Chain(first, middle, last), FIRST) == 0
    ensures Find(Chain(first, middle, last), MIDDLE) == 1
    ensures Find(Chain(first, middle, last), LAST) == 2
  {
    var nodes := Chain(first, middle, last);
    assert "a"[0] != "b"[0] && "b"[0] != "c"[0] && "a"[0] != "c"[0];
    FindUnique(nodes, 0);
    FindUnique(nodes, 1);
    FindUnique(nodes, 2);
  }

  lemma ChainDependencies()
    ensures var nodes := Chain(Pending, Pending, Pending);
            forall i :: 0 <= i < |nodes| ==> ValidDependencies(nodes[i], nodes)
  {
    var nodes := Chain(Pending, Pending, Pending);
    assert nodes[0].id == FIRST && nodes[1].id == MIDDLE && nodes[2].id == LAST;
    assert "a"[0] != "b"[0] && "b"[0] != "c"[0];
    assert Known(FIRST, nodes) && Known(MIDDLE, nodes);
    assert ValidDependencies(nodes[0], nodes) && ValidDependencies(nodes[1], nodes);
    assert ValidDependencies(nodes[2], nodes);
  }

  lemma ChainIsOrdered()
    ensures var nodes := Chain(Pending, Pending, Pending);
            TransitivelyDepends(nodes[2], FIRST, nodes)
  {
    var nodes := Chain(Pending, Pending, Pending);
    ChainFind(Pending, Pending, Pending);
    ByIdUnique(nodes, 1);
    assert Edge(ById(nodes), MIDDLE, FIRST);
    assert ReachesIn(nodes[2].dependsOn, ById(nodes), MIDDLE, 0);
    assert ReachesIn(nodes[2].dependsOn, ById(nodes), FIRST, 1);
  }

  lemma ChainIsValid()
    ensures ValidPlan(Chain(Pending, Pending, Pending))
  {
    var nodes := Chain(Pending, Pending, Pending);
    ChainFind(Pending, Pending, Pending);
    ChainDependencies();
    ChainIsOrdered();
    forall i, j | 0 <= i < j < |nodes| ensures OrderedWriters(nodes[i], nodes[j], nodes) {
      if i == 0 && j == 2 {
        assert TransitivelyDepends(nodes[j], nodes[i].id, nodes);
      } else {
        assert nodes[1].writeScope == [];
      }
    }
  }

  lemma ChainStarts()
    ensures StartNext(Chain(Pending, Pending, Pending)) == Chain(InProgress, Pending, Pending)
    ensures StartNext(Chain(InProgress, Completed, Pending)) == Chain(InProgress, Completed, InProgress)
  {
    var untouched, done := Chain(Pending, Pending, Pending), Chain(InProgress, Completed, Pending);
    ChainFind(InProgress, Completed, Pending);
    assert Ready(untouched, 0);
    assert SetStatus(untouched, 0, InProgress) == Chain(InProgress, Pending, Pending);
    assert !Ready(done, 0) && !Ready(done, 1) && Ready(done, 2);
    assert FirstReady(done, 2) == 2 && FirstReady(done, 1) == 2;
    assert SetStatus(done, 2, InProgress) == Chain(InProgress, Completed, InProgress);
  }

  /** Without that care exclusion fails: completing the middle of a chain early starts its end
      while its beginning still writes the same files. */
  lemma PrematureCompletionBreaksExclusion()
    ensures ValidPlan(Chain(Pending, Pending, Pending))
    ensures var plan := Plan(Draft, Chain(Pending, Pending, Pending), false);
            !Exclusive(Run(plan, [Approve, Update(MIDDLE, Completed)]).nodes)
  {
    var plan := Plan(Draft, Chain(Pending, Pending, Pending), false);
    var approved := Plan(Active, Chain(InProgress, Pending, Pending), false);
    var e := Update(MIDDLE, Completed);
    ChainIsValid();
    ChainStarts();
    ChainFind(InProgress, Pending, Pending);
    UpdateStep(approved, 1, Completed);
    assert SetStatus(approved.nodes, 1, Completed) == Chain(InProgress, Completed, Pending);
    RunTwo(plan, Approve, e);
    ChainOverlaps();
  }

  lemma {:induction false} RunTwo(plan: Plan, first: Event, second: Event)
    ensures Run(plan, [first, second]) == Step(Step(plan, first), second)
  {
    assert [first, second][..1] == [first] && [first][..0] == [];
    assert Run(plan, [first]) == Step(Run(plan, []), first);
  }

  lemma ChainOverlaps()
    ensures !Exclusive(Chain(InProgress, Completed, InProgress))
  {
    var nodes := Chain(InProgress, Completed, InProgress);
    assert Strip("src") == "src";
    assert Related(nodes[0].writeScope[0], nodes[2].writeScope[0]);
    assert Overlap(nodes[0].writeScope, nodes[2].writeScope);
  }
}
