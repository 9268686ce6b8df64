/** The plans that can be completed in order: exactly those without a dependency cycle, which
    validation does not look for. */
module PlanProgress {
  import opened PlanGraph
  import opened PlanRun

  ghost predicate OnCycle(nodes: seq<Node>, i: nat)
    requires i < |nodes|
  {
    TransitivelyDepends(nodes[i], nodes[i].id, nodes)
  }

  ghost predicate Acyclic(nodes: seq<Node>) {
    forall i :: 0 <= i < |nodes| ==> !OnCycle(nodes, i)
  }

  predicate AllComplete(nodes: seq<Node>) {
    forall i :: 0 <= i < |nodes| ==> nodes[i].status == Completed
  }

  // ----- a cycle never starts -----

  lemma FirstStep(start: seq<Id>, byId: map<Id, seq<Id>>, target: Id, n: nat) returns (d: Id)
    requires ReachesIn(start, byId, target, n)
    ensures d in start && ReachesIn([d], byId, target, n)
    decreases n
  {
    if n == 0 {
      d := target;
    } else {
      var id :| ReachesIn(start, byId, id, n - 1) && Edge(byId, id, target);
      d := FirstStep(start, byId, id, n - 1);
    }
  }

  lemma {:induction false} WithoutFirst(d: Id, byId: map<Id, seq<Id>>, target: Id, n: nat)
    requires n > 0 && ReachesIn([d], byId, target, n)
    ensures d in byId && ReachesIn(byId[d], byId, target, n - 1)
    decreases n
  {
    var id :| ReachesIn([d], byId, id, n - 1) && Edge(byId, id, target);
    if n > 1 {
      WithoutFirst(d, byId, id, n - 1);
    } else {
      assert id == d;
    }
  }

  /** A node on a cycle depends on another node on a cycle. */
  lemma CycleGoesOn(nodes: seq<Node>, i: nat) returns (j: nat)
    requires ValidPlan(nodes) && i < |nodes| && OnCycle(nodes, i)
    ensures j < |nodes| && nodes[j].id in nodes[i].dependsOn && OnCycle(nodes, j)
  {
    var byId, id := ById(nodes), nodes[i].id;
    var n: nat :| ReachesIn(nodes[i].dependsOn, byId, id, n);
    var d := FirstStep(nodes[i].dependsOn, byId, id, n);
    assert ValidDependencies(nodes[i], nodes);
    j :| 0 <= j < |nodes| && nodes[j].id == d;
    WithoutFirst(d, byId, id, n);
    ByIdUnique(nodes, i);
    ByIdUnique(nodes, j);
    assert Edge(byId, id, d);
    assert ReachesIn(nodes[j].dependsOn, byId, d, n);
  }

  /** No node on a cycle has been started or completed. */
  ghost predicate CyclesRest(start: seq<Node>, nodes: seq<Node>) {
    && SameGraph(start, nodes)
    && forall i :: 0 <= i < |start| && OnCycle(start, i) ==>
         nodes[i].status != InProgress && nodes[i].status != Completed
  }

  lemma CycleWaits(start: seq<Node>, nodes: seq<Node>, i: nat)
    requires ValidPlan(start) && CyclesRest(start, nodes) && i < |nodes| && OnCycle(start, i)
    ensures !DependenciesComplete(nodes, nodes[i])
  {
    SameIds(start, nodes);
    var j := CycleGoesOn(start, i);
    FindUnique(nodes, j);
    assert nodes[j].id in nodes[i].dependsOn && !IsComplete(nodes, nodes[j].id);
  }

  lemma CompletePastCycles(start: seq<Node>, nodes: seq<Node>, i: nat)
    requires ValidPlan(start) && CyclesRest(start, nodes) && i < |nodes| && DependenciesComplete(nodes, nodes[i])
    ensures !OnCycle(start, i)
  {
    if OnCycle(start, i) {
      CycleWaits(start, nodes, i);
    }
  }

  lemma StartNextRests(start: seq<Node>, nodes: seq<Node>)
    requires ValidPlan(start) && CyclesRest(start, nodes)
    ensures CyclesRest(start, StartNext(nodes))
  {
    var k := FirstReady(nodes, 0);
    if k < |nodes| {
      CompletePastCycles(start, nodes, k);
    }
  }

  lemma StepRests(start: seq<Node>, plan: Plan, e: Event)
    requires ValidPlan(start) && CyclesRest(start, plan.nodes) && !Premature(plan, e)
    ensures CyclesRest(start, Step(plan, e).nodes)
  {
    match e
    case Approve =>
      StartNextRests(start, plan.nodes);
    case ObserveWrite =>
      if EndsScope(plan) {
        StartNextRests(start, SetStatus(plan.nodes, Find(plan.nodes, SCOPE), Completed));
      }
    case Update(id, next) =>
      if UpdateReply(plan, id, next) == Updated {
        var i := Find(plan.nodes, id);
        if next == InProgress || next == Completed {
          CompletePastCycles(start, plan.nodes, i);
        }
        StartNextRests(start, SetStatus(plan.nodes, i, next));
      }
  }

  lemma {:induction false} RunRests(plan: Plan, events: seq<Event>)
    requires ValidPlan(plan.nodes) && Untouched(plan) && Careful(plan, events)
    ensures CyclesRest(plan.nodes, Run(plan, events).nodes)
  {
    if events != [] {
      RunRests(plan, events[..|events| - 1]);
      StepRests(plan.nodes, Run(plan, events[..|events| - 1]), events[|events| - 1]);
    }
  }

  // ----- without a cycle something is always ready -----

  /** The nodes that node i depends on. */
  ghost function Below(nodes: seq<Node>, i: nat): set<Id>
    requires i < |nodes|
  {
    set id | id in Ids(nodes) && TransitivelyDepends(nodes[i], id, nodes)
  }

  lemma {:induction false} WithFirst(start: seq<Id>, d: Id, byId: map<Id, seq<Id>>, target: Id, n: nat)
    requires d in start && d in byId && ReachesIn(byId[d], byId, target, n)
    ensures ReachesIn(start, byId, target, n + 1)
    decreases n
  {
    if n == 0 {
      assert ReachesIn(start, byId, d, 0) && Edge(byId, d, target);
    } else {
      var id :| ReachesIn(byId[d], byId, id, n - 1) && Edge(byId, id, target);
      WithFirst(start, d, byId, id, n - 1);
    }
  }

  lemma BelowShrinks(nodes: seq<Node>, i: nat, j: nat)
    requires UniqueIds(nodes) && Acyclic(nodes) && i < |nodes| && j < |nodes| && nodes[j].id in nodes[i].dependsOn
    ensures |Below(nodes, j)| < |Below(nodes, i)|
  {
    var byId := ById(nodes);
    ByIdUnique(nodes, j);
    forall id | id in Below(nodes, j) ensures id in Below(nodes, i) {
      var n: nat :| ReachesIn(nodes[j].dependsOn, byId, id, n);
      WithFirst(nodes[i].dependsOn, nodes[j].id, byId, id, n);
    }
    assert ReachesIn(nodes[i].dependsOn, byId, nodes[j].id, 0);
    assert nodes[j].id in Ids(nodes) && !OnCycle(nodes, j);
    SmallerSet(Below(nodes, j), Below(nodes, i), nodes[j].id);
  }

  /** Below every pending node there is one that is ready. */
  lemma ReadyBelow(nodes: seq<Node>, i: nat) returns (k: nat)
    requires ValidPlan(nodes) && Acyclic(nodes) && i < |nodes| && nodes[i].status == Pending
    requires forall j :: 0 <= j < |nodes| ==> nodes[j].status == Pending || nodes[j].status == Completed
    ensures k < |nodes| && Ready(nodes, k)
    decreases |Below(nodes, i)|
  {
    if DependenciesComplete(nodes, nodes[i]) {
      k := i;
    } else {
      var id :| id in nodes[i].dependsOn && !IsComplete(nodes, id);
      assert ValidDependencies(nodes[i], nodes);
      var j :| 0 <= j < |nodes| && nodes[j].id == id;
      FindUnique(nodes, j);
      BelowShrinks(nodes, i, j);
      k := ReadyBelow(nodes, j);
    }
  }

  // ----- completing a plan -----

  /** Work goes on: one node is in progress, or all are complete. */
  ghost predicate Moving(nodes: seq<Node>) {
    AllComplete(nodes) || exists i :: 0 <= i < |nodes| && OnlyStarted(nodes, i)
  }

  ghost predicate OnlyStarted(nodes: seq<Node>, i: nat)
    requires i < |nodes|
  {
    && nodes[i].status == InProgress
    && forall j :: 0 <= j < |nodes| && j != i ==> nodes[j].status == Pending || nodes[j].status == Completed
  }

  lemma StartNextMoves(nodes: seq<Node>)
    requires ValidPlan(nodes) && Acyclic(nodes)
    requires forall j :: 0 <= j < |nodes| ==> nodes[j].status == Pending || nodes[j].status == Completed
    ensures Moving(StartNext(nodes))
  {
    var k, after := FirstReady(nodes, 0), StartNext(nodes);
    if k < |nodes| {
      assert OnlyStarted(after, k);
    } else if !AllComplete(nodes) {
      var i :| 0 <= i < |nodes| && nodes[i].status != Completed;
      var ready := ReadyBelow(nodes, i);
    }
  }

  lemma SameAcyclic(start: seq<Node>, nodes: seq<Node>)
    requires SameGraph(start, nodes) && Acyclic(start)
    ensures Acyclic(nodes)
  {
    SameById(start, nodes);
    SameIds(start, nodes);
    forall i | 0 <= i < |nodes| ensures !OnCycle(nodes, i) {
      assert !OnCycle(start, i) && ById(start) == ById(nodes);
    }
  }

  ghost function Incomplete(nodes: seq<Node>): set<int> {
    set i | 0 <= i < |nodes| && nodes[i].status != Completed
  }

  /** Completing the node in progress starts the next one. */
  lemma CompleteMoves(plan: Plan, i: nat)
    requires ValidPlan(plan.nodes) && Acyclic(plan.nodes) && plan.status == Active
    requires i < |plan.nodes| && OnlyStarted(plan.nodes, i)
    ensures var after := Step(plan, Update(plan.nodes[i].id, Completed));
            && after.status == Active && SameGraph(plan.nodes, after.nodes)
            && Moving(after.nodes) && |Incomplete(after.nodes)| < |Incomplete(plan.nodes)|
  {
    UpdateStep(plan, i, Completed);
    var done := SetStatus(plan.nodes, i, Completed);
    SameValid(plan.nodes, done);
    SameAcyclic(plan.nodes, done);
    StartNextMoves(done);
    LessIncomplete(plan.nodes, i);
  }

  lemma LessIncomplete(nodes: seq<Node>, i: nat)
    requires i < |nodes| && OnlyStarted(nodes, i)
    ensures |Incomplete(StartNext(SetStatus(nodes, i, Completed)))| < |Incomplete(nodes)|
  {
    SmallerSet(Incomplete(StartNext(SetStatus(nodes, i, Completed))), Incomplete(nodes), i);
  }

  lemma {:induction false} CarefulCons(plan: Plan, e: Event, rest: seq<Event>)
    requires !Premature(plan, e) && Careful(Step(plan, e), rest)
    ensures Careful(plan, [e] + rest) && Run(plan, [e] + rest) == Run(Step(plan, e), rest)
  {
    if rest == [] {
      RunSnoc(plan, [], e);
      CarefulSnoc(plan, [], e);
      assert [e] + rest == [] + [e];
    } else {
      var front, last := rest[..|rest| - 1], rest[|rest| - 1];
      CarefulCons(plan, e, front);
      CarefulSnoc(plan, [e] + front, last);
      RunSnoc(plan, [e] + front, last);
      assert [e] + rest == ([e] + front) + [last];
    }
  }

  lemma FinishPlan(plan: Plan) returns (events: seq<Event>)
    requires ValidPlan(plan.nodes) && Acyclic(plan.nodes) && plan.status == Active
    requires Ordered(plan.nodes) && Moving(plan.nodes)
    ensures Careful(plan, events) && AllComplete(Run(plan, events).nodes)
    decreases |Incomplete(plan.nodes)|
  {
    events := [];
    if !AllComplete(plan.nodes) {
      var i :| 0 <= i < |plan.nodes| && OnlyStarted(plan.nodes, i);
      var e := Update(plan.nodes[i].id, Completed);
      var after := Step(plan, e);
      FindUnique(plan.nodes, i);
      FromInProgressIsCareful(plan, e);
      StepOrdered(plan, e);
      CompleteMoves(plan, i);
      SameValid(plan.nodes, after.nodes);
      SameAcyclic(plan.nodes, after.nodes);
      var rest := FinishPlan(after);
      CarefulCons(plan, e, rest);
      events := [e] + rest;
    }
  }

  /** Without a cycle there is always something to do until everything is complete. */
  lemma AcyclicPlanCompletes(plan: Plan) returns (events: seq<Event>)
    requires ValidPlan(plan.nodes) && Acyclic(plan.nodes) && plan.status == Draft && Untouched(plan)
    ensures Careful(plan, events) && AllComplete(Run(plan, events).nodes)
  {
    var approved := Step(plan, Approve);
    StepOrdered(plan, Approve);
    StartNextMoves(plan.nodes);
    SameValid(plan.nodes, approved.nodes);
    SameAcyclic(plan.nodes, approved.nodes);
    var rest := FinishPlan(approved);
    CarefulCons(plan, Approve, rest);
    events := [Approve] + rest;
  }

  /** The run completes everything, no node before its dependencies. */
  ghost predicate Finishes(plan: Plan, events: seq<Event>) {
    Careful(plan, events) && AllComplete(Run(plan, events).nodes)
  }

  lemma CycleStaysIncomplete(plan: Plan, events: seq<Event>, i: nat)
    requires ValidPlan(plan.nodes) && Untouched(plan) && Careful(plan, events)
    requires i < |plan.nodes| && OnCycle(plan.nodes, i)
    ensures !AllComplete(Run(plan, events).nodes)
  {
    RunRests(plan, events);
    assert Run(plan, events).nodes[i].status != Completed;
  }

  /** A valid plan can be completed in order, no node before its dependencies, exactly if it has no
      dependency cycle. */
  lemma {:induction false} CompletableExactly(plan: Plan)
    requires ValidPlan(plan.nodes) && plan.status == Draft && Untouched(plan)
    ensures (exists events :: Finishes(plan, events)) <==> Acyclic(plan.nodes)
  {
    if Acyclic(plan.nodes) {
      var events := AcyclicPlanCompletes(plan);
      assert Finishes(plan, events);
    } else {
      var i :| 0 <= i < |plan.nodes| && OnCycle(plan.nodes, i);
      forall events ensures !Finishes(plan, events) {
        if Careful(plan, events) {
          CycleStaysIncomplete(plan, events, i);
        }
      }
    }
  }
}
