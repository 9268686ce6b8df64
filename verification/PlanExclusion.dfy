/** The plans in which overlapping writers can never be in progress together, whatever status
    updates arrive in whatever order. */
module PlanExclusion {
  import opened PlanScopes
  import opened PlanGraph
  import opened PlanRun

  /** Of two writers that can touch the same file one names the other as its dependency. */
  ghost predicate DirectlyOrdered(nodes: seq<Node>) {
    forall i, j :: 0 <= i < j < |nodes| && Overlap(nodes[i].writeScope, nodes[j].writeScope)
      ==> Linked(nodes[i], nodes[j])
  }

  predicate Linked(left: Node, right: Node) {
    left.id in right.dependsOn || right.id in left.dependsOn
  }

  // ----- direct dependencies suffice -----

  /** What is in progress has its own dependencies complete; what was completed early need not. */
  ghost predicate Grounded(nodes: seq<Node>) {
    forall i :: 0 <= i < |nodes| && nodes[i].status == InProgress ==> DependenciesComplete(nodes, nodes[i])
  }

  lemma SetStatusGrounded(nodes: seq<Node>, i: nat, status: NodeStatus)
    requires UniqueIds(nodes) && Grounded(nodes) && i < |nodes| && nodes[i].status != Completed
    requires status == InProgress ==> DependenciesComplete(nodes, nodes[i])
    ensures Grounded(SetStatus(nodes, i, status)) && UniqueIds(SetStatus(nodes, i, status))
  {
    var after := SetStatus(nodes, i, status);
    assert forall k :: 0 <= k < |nodes| ==> after[k].id == nodes[k].id;
    forall id ensures IsComplete(nodes, id) ==> IsComplete(after, id) {
      if IsComplete(nodes, id) { FindUnique(after, Find(nodes, id)); }
    }
    forall k | 0 <= k < |after| && after[k].status == InProgress ensures DependenciesComplete(after, after[k]) {
      assert DependenciesComplete(nodes, nodes[k]);
    }
  }

  lemma StartNextGrounded(nodes: seq<Node>)
    requires UniqueIds(nodes) && Grounded(nodes)
    ensures Grounded(StartNext(nodes)) && UniqueIds(StartNext(nodes)) && SameGraph(nodes, StartNext(nodes))
  {
    var k := FirstReady(nodes, 0);
    if k < |nodes| {
      SetStatusGrounded(nodes, k, InProgress);
    }
  }

  lemma StepGrounded(plan: Plan, e: Event)
    requires UniqueIds(plan.nodes) && Grounded(plan.nodes)
    ensures Grounded(Step(plan, e).nodes) && UniqueIds(Step(plan, e).nodes)
    ensures SameGraph(plan.nodes, Step(plan, e).nodes)
  {
    match e
    case Approve =>
      StartNextGrounded(plan.nodes);
    case ObserveWrite =>
      if EndsScope(plan) {
        SetStatusGrounded(plan.nodes, Find(plan.nodes, SCOPE), Completed);
        StartNextGrounded(SetStatus(plan.nodes, Find(plan.nodes, SCOPE), Completed));
      }
    case Update(id, next) =>
      if UpdateReply(plan, id, next) == Updated {
        SetStatusGrounded(plan.nodes, Find(plan.nodes, id), next);
        StartNextGrounded(SetStatus(plan.nodes, Find(plan.nodes, id), next));
      }
  }

  lemma {:induction false} RunGrounded(plan: Plan, events: seq<Event>)
    requires UniqueIds(plan.nodes) && Grounded(plan.nodes)
    ensures Grounded(Run(plan, events).nodes) && UniqueIds(Run(plan, events).nodes)
    ensures SameGraph(plan.nodes, Run(plan, events).nodes)
  {
    if events != [] {
      RunGrounded(plan, events[..|events| - 1]);
      StepGrounded(Run(plan, events[..|events| - 1]), events[|events| - 1]);
    }
  }

  lemma GroundedIsExclusive(start: seq<Node>, nodes: seq<Node>)
    requires SameGraph(start, nodes) && DirectlyOrdered(start) && UniqueIds(nodes) && Grounded(nodes)
    ensures Exclusive(nodes)
  {
    forall i, j | 0 <= i < j < |nodes| && nodes[i].status == InProgress && nodes[j].status == InProgress
      ensures !Overlap(nodes[i].writeScope, nodes[j].writeScope)
    {
      assert start[i].(status := Pending) == nodes[i].(status := Pending);
      assert start[j].(status := Pending) == nodes[j].(status := Pending);
      FindUnique(nodes, i);
      FindUnique(nodes, j);
      assert DependenciesComplete(nodes, nodes[i]) && DependenciesComplete(nodes, nodes[j]);
    }
  }

  // ----- and are needed -----

  /** Completes every node early except i and j, for which there is an event that does nothing. */
  function CompleteOthers(nodes: seq<Node>, i: nat, j: nat): (events: seq<Event>)
    ensures |events| == |nodes|
    ensures forall n :: 0 <= n < |nodes| ==>
              events[n] == if n == i || n == j then Approve else Update(nodes[n].id, Completed)
  {
    seq(|nodes|, n requires 0 <= n < |nodes| => if n == i || n == j then Approve else Update(nodes[n].id, Completed))
  }

  ghost predicate Unfinished(node: Node) {
    node.status == Pending || node.status == InProgress
  }

  /** The first n nodes but i and j are complete, and no other node is. */
  ghost predicate ClearedNodes(start: seq<Node>, nodes: seq<Node>, i: nat, j: nat, n: nat) {
    && SameGraph(start, nodes)
    && forall k :: 0 <= k < |nodes| ==>
         if k < n && k != i && k != j then nodes[k].status == Completed else Unfinished(nodes[k])
  }

  ghost predicate Cleared(start: seq<Node>, plan: Plan, i: nat, j: nat, n: nat) {
    plan.status == Active && ClearedNodes(start, plan.nodes, i, j, n)
  }

  lemma ClearOne(start: seq<Node>, nodes: seq<Node>, i: nat, j: nat, n: nat)
    requires n < |start| && n != i && n != j && ClearedNodes(start, nodes, i, j, n)
    ensures ClearedNodes(start, SetStatus(nodes, n, Completed), i, j, n + 1)
  {
  }

  lemma StartNextClears(start: seq<Node>, nodes: seq<Node>, i: nat, j: nat, n: nat)
    requires ClearedNodes(start, nodes, i, j, n)
    ensures ClearedNodes(start, StartNext(nodes), i, j, n)
  {
    var k := FirstReady(nodes, 0);
    if k < |nodes| {
      assert Ready(nodes, k);
    }
  }

  lemma ClearNext(start: seq<Node>, plan: Plan, i: nat, j: nat, n: nat)
    requires UniqueIds(start) && n < |start| && Cleared(start, plan, i, j, n)
    ensures Cleared(start, Step(plan, CompleteOthers(start, i, j)[n]), i, j, n + 1)
  {
    if n != i && n != j {
      SameIds(start, plan.nodes);
      assert Unfinished(plan.nodes[n]);
      UpdateStep(plan, n, Completed);
      ClearOne(start, plan.nodes, i, j, n);
      StartNextClears(start, SetStatus(plan.nodes, n, Completed), i, j, n + 1);
    }
  }

  lemma ClearOthers(start: seq<Node>, plan: Plan, i: nat, j: nat)
    requires UniqueIds(start) && Cleared(start, plan, i, j, 0)
    ensures Cleared(start, Run(plan, CompleteOthers(start, i, j)), i, j, |start|)
  {
    var inv := (p: Plan, k: nat) => Cleared(start, p, i, j, k);
    forall p: Plan, k: nat | k < |start| && inv(p, k) ensures inv(Step(p, CompleteOthers(start, i, j)[k]), k + 1) {
      ClearNext(start, p, i, j, k);
    }
    RunKeeps(plan, CompleteOthers(start, i, j), inv);
  }

  lemma OthersSuffice(start: seq<Node>, plan: Plan, i: nat, j: nat, k: nat)
    requires ValidPlan(start) && i < j < |start| && !Linked(start[i], start[j]) && (k == i || k == j)
    requires Cleared(start, plan, i, j, |start|)
    ensures DependenciesComplete(plan.nodes, plan.nodes[k])
  {
    SameIds(start, plan.nodes);
    assert start[k].(status := Pending) == plan.nodes[k].(status := Pending);
    assert ValidDependencies(start[k], start);
    forall id | id in plan.nodes[k].dependsOn ensures IsComplete(plan.nodes, id) {
      assert Known(id, start);
      var x :| 0 <= x < |start| && start[x].id == id;
      FindUnique(plan.nodes, x);
      assert x != i && x != j;
    }
  }

  lemma StartOne(start: seq<Node>, plan: Plan, i: nat, j: nat, k: nat)
    requires ValidPlan(start) && i < j < |start| && !Linked(start[i], start[j]) && (k == i || k == j)
    requires Cleared(start, plan, i, j, |start|)
    ensures var after := Step(plan, Update(start[k].id, InProgress));
            Cleared(start, after, i, j, |start|) && after.nodes == SetStatus(plan.nodes, k, InProgress)
  {
    SameIds(start, plan.nodes);
    OthersSuffice(start, plan, i, j, k);
    assert Unfinished(plan.nodes[k]);
    UpdateStep(plan, k, InProgress);
  }

  lemma StartBoth(start: seq<Node>, plan: Plan, i: nat, j: nat)
    requires ValidPlan(start) && i < j < |start| && !Linked(start[i], start[j])
    requires Cleared(start, plan, i, j, |start|)
    ensures var after := Step(Step(plan, Update(start[i].id, InProgress)), Update(start[j].id, InProgress)).nodes;
            SameGraph(start, after) && after[i].status == InProgress && after[j].status == InProgress
  {
    StartOne(start, plan, i, j, i);
    StartOne(start, Step(plan, Update(start[i].id, InProgress)), i, j, j);
  }

  lemma ApproveClears(plan: Plan, i: nat, j: nat)
    requires plan.status == Draft && Untouched(plan)
    ensures Cleared(plan.nodes, Step(plan, Approve), i, j, 0)
  {
  }

  /** Two overlapping writers that are ordered only through other nodes: complete those early and
      start both. */
  lemma UnlinkedWritersMeet(plan: Plan, i: nat, j: nat) returns (events: seq<Event>)
    requires ValidPlan(plan.nodes) && plan.status == Draft && Untouched(plan)
    requires i < j < |plan.nodes| && !Linked(plan.nodes[i], plan.nodes[j])
    requires Overlap(plan.nodes[i].writeScope, plan.nodes[j].writeScope)
    ensures !Exclusive(Run(plan, events).nodes)
  {
    var start := plan.nodes;
    var approved := Step(plan, Approve);
    ApproveClears(plan, i, j);
    var clearing := CompleteOthers(start, i, j);
    ClearOthers(start, approved, i, j);
    StartBoth(start, Run(approved, clearing), i, j);
    var one, two := Update(start[i].id, InProgress), Update(start[j].id, InProgress);
    events := [Approve] + clearing + [one] + [two];
    RunAppend(plan, [Approve], clearing);
    assert [Approve][..0] == [] && Run(plan, [Approve]) == approved;
    RunSnoc(plan, [Approve] + clearing, one);
    RunSnoc(plan, [Approve] + clearing + [one], two);
    var after := Run(plan, events).nodes;
    assert start[i].(status := Pending) == after[i].(status := Pending);
    assert start[j].(status := Pending) == after[j].(status := Pending);
  }

  /** A valid plan keeps overlapping writers apart through every run, careful or not, exactly if
      each two of them are linked by a direct dependency.  Validation asks for less. */
  lemma {:induction false} EveryRunIsExclusiveExactly(plan: Plan)
    requires ValidPlan(plan.nodes) && plan.status == Draft && Untouched(plan)
    ensures (forall events :: Exclusive(Run(plan, events).nodes)) <==> DirectlyOrdered(plan.nodes)
  {
    if DirectlyOrdered(plan.nodes) {
      forall events ensures Exclusive(Run(plan, events).nodes) {
        RunGrounded(plan, events);
        GroundedIsExclusive(plan.nodes, Run(plan, events).nodes);
      }
    } else {
      var i, j :| 0 <= i < j < |plan.nodes| && Overlap(plan.nodes[i].writeScope, plan.nodes[j].writeScope)
                  && !Linked(plan.nodes[i], plan.nodes[j]);
      var events := UnlinkedWritersMeet(plan, i, j);
    }
  }
}
