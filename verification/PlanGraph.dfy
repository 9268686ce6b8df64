/** The dependency graph of a task plan: reachability and plan validation. */
module PlanGraph {
  import opened PlanScopes

  const MAX_TASKS := 8

  /** A node id. */
  datatype Id = Id(name: string)

  datatype NodeStatus = Pending | InProgress | Blocked | Completed | Failed | Skipped

  datatype Node = Node(id: Id, dependsOn: seq<Id>, writeScope: seq<string>, status: NodeStatus)

  datatype Verdict = Accepted | BadCount | DuplicateId | BadDependency | ParallelWriters(left: Id, right: Id)

  /** The `by_id` dictionary: a later node replaces an earlier one with the same id. */
  function ById(nodes: seq<Node>): (byId: map<Id, seq<Id>>)
    ensures forall id :: id in byId <==> exists i :: 0 <= i < |nodes| && nodes[i].id == id
  {
    if nodes == [] then map[]
    else
      var last := nodes[|nodes| - 1];
      ById(nodes[..|nodes| - 1])[last.id := last.dependsOn]
  }

  // ----- reachability -----

  predicate Edge(byId: map<Id, seq<Id>>, id: Id, next: Id) {
    id in byId && next in byId[id]
  }

  /** `target` is reached from one of `start` by following n dependencies. */
  ghost predicate ReachesIn(start: seq<Id>, byId: map<Id, seq<Id>>, target: Id, n: nat)
    decreases n
  {
    if n == 0 then target in start
    else exists id :: ReachesIn(start, byId, id, n - 1) && Edge(byId, id, target)
  }

  ghost predicate Reaches(start: seq<Id>, byId: map<Id, seq<Id>>, target: Id) {
    exists n: nat :: ReachesIn(start, byId, target, n)
  }

  /** `node` depends on `ancestor`, directly or through other nodes. */
  ghost predicate TransitivelyDepends(node: Node, ancestor: Id, nodes: seq<Node>) {
    Reaches(node.dependsOn, ById(nodes), ancestor)
  }

  lemma ReachesStart(start: seq<Id>, byId: map<Id, seq<Id>>)
    ensures forall id :: id in start ==> Reaches(start, byId, id)
  {
    forall id | id in start ensures Reaches(start, byId, id) {
      assert ReachesIn(start, byId, id, 0);
    }
  }

  lemma ReachesNext(start: seq<Id>, byId: map<Id, seq<Id>>, id: Id)
    requires Reaches(start, byId, id)
    ensures forall next :: Edge(byId, id, next) ==> Reaches(start, byId, next)
  {
    var n: nat :| ReachesIn(start, byId, id, n);
    forall next | Edge(byId, id, next) ensures Reaches(start, byId, next) {
      assert ReachesIn(start, byId, next, n + 1);
    }
  }

  /** A set that contains the start and is closed under dependencies contains all that is reached. */
  lemma {:induction false} ClosedContains(start: seq<Id>, byId: map<Id, seq<Id>>, closed: set<Id>, target: Id, n: nat)
    requires forall id :: id in start ==> id in closed
    requires forall id, next :: id in closed && Edge(byId, id, next) ==> next in closed
    requires ReachesIn(start, byId, target, n)
    ensures target in closed
    decreases n
  {
    if n > 0 {
      var id :| ReachesIn(start, byId, id, n - 1) && Edge(byId, id, target);
      ClosedContains(start, byId, closed, id, n - 1);
    }
  }

  /** Every id that the search can ever put on its worklist. */
  ghost function Mentioned(start: seq<Id>, byId: map<Id, seq<Id>>): set<Id> {
    (set id | id in start) + (set id, next | id in byId && next in byId[id] :: next)
  }

  /** The search invariant: everything reached from what was seen is seen or still pending. */
  ghost predicate Searching(start: seq<Id>, byId: map<Id, seq<Id>>, seen: set<Id>, pending: seq<Id>) {
    && (forall id :: id in start ==> id in seen || id in pending)
    && (forall id, next :: id in seen && Edge(byId, id, next) ==> next in seen || next in pending)
    && (forall id :: id in pending ==> id in Mentioned(start, byId) && Reaches(start, byId, id))
  }

  lemma SearchStep(start: seq<Id>, byId: map<Id, seq<Id>>, seen: set<Id>, pending: seq<Id>, current: Id)
    requires Searching(start, byId, seen, pending + [current])
    ensures current in seen ==> Searching(start, byId, seen, pending)
    ensures Searching(start, byId, seen + {current}, if current in byId then pending + byId[current] else pending)
  {
    assert current in pending + [current];
    assert forall id :: id in pending ==> id in pending + [current];
    ReachesNext(start, byId, current);
    var more := if current in byId then pending + byId[current] else pending;
    assert forall next :: next in more <==> next in pending || Edge(byId, current, next);
  }

  /** The worklist search.  It answers reachability exactly, also on cyclic graphs and with
      dependencies that name no node. */
  method DependsOn(node: Node, ancestor: Id, nodes: seq<Node>) returns (found: bool)
    ensures found <==> TransitivelyDepends(node, ancestor, nodes)
  {
    var byId := ById(nodes);
    var pending, seen := node.dependsOn, {};
    ghost var mentioned := Mentioned(node.dependsOn, byId);
    ReachesStart(node.dependsOn, byId);
    while pending != []
      invariant Searching(node.dependsOn, byId, seen, pending)
      invariant seen <= mentioned && ancestor !in seen
      decreases |mentioned - seen|, |pending|
    {
      var current := pending[|pending| - 1];
      assert pending == pending[..|pending| - 1] + [current];
      pending := pending[..|pending| - 1];
      assert current in pending + [current];
      if current == ancestor {
        return true;
      }
      SearchStep(node.dependsOn, byId, seen, pending, current);
      if current in seen {
        continue;
      }
      SmallerSet(mentioned - (seen + {current}), mentioned - seen, current);
      seen := seen + {current};
      if current in byId {
        pending := pending + byId[current];
      }
    }
    if TransitivelyDepends(node, ancestor, nodes) {
      var n: nat :| ReachesIn(node.dependsOn, byId, ancestor, n);
      ClosedContains(node.dependsOn, byId, seen, ancestor, n);
    }
    return false;
  }

  lemma SmallerSet<T>(small: set<T>, large: set<T>, x: T)
    requires small <= large && x in large && x !in small
    ensures |small| < |large|
  {
    var rest := large - small;
    assert large == small + rest;
    assert x in rest;
  }

  // ----- validation -----

  ghost predicate UniqueIds(nodes: seq<Node>) {
    forall i, j :: 0 <= i < j < |nodes| ==> nodes[i].id != nodes[j].id
  }

  predicate Known(id: Id, nodes: seq<Node>) {
    exists i :: 0 <= i < |nodes| && nodes[i].id == id
  }

  ghost predicate ValidDependencies(node: Node, nodes: seq<Node>) {
    forall id :: id in node.dependsOn ==> id != node.id && Known(id, nodes)
  }

  /** Two writers that can touch the same file are ordered by the graph. */
  ghost predicate OrderedWriters(left: Node, right: Node, nodes: seq<Node>) {
    Overlap(left.writeScope, right.writeScope) ==>
      TransitivelyDepends(left, right.id, nodes) || TransitivelyDepends(right, left.id, nodes)
  }

  ghost predicate ValidPlan(nodes: seq<Node>) {
    && 2 <= |nodes| <= MAX_TASKS
    && UniqueIds(nodes)
    && (forall i :: 0 <= i < |nodes| ==> ValidDependencies(nodes[i], nodes))
    && (forall i, j :: 0 <= i < j < |nodes| ==> OrderedWriters(nodes[i], nodes[j], nodes))
  }

  function Ids(nodes: seq<Node>): set<Id> {
    set i | 0 <= i < |nodes| :: nodes[i].id
  }

  lemma IdsSnoc(front: seq<Node>, last: Node)
    ensures Ids(front + [last]) == Ids(front) + {last.id}
  {
    var more := front + [last];
    assert more[|front|] == last && forall i :: 0 <= i < |front| ==> more[i] == front[i];
    forall id | id in Ids(front) + {last.id} ensures id in Ids(more) {
      if id in Ids(front) {
        var i :| 0 <= i < |front| && front[i].id == id;
        assert more[i].id == id;
      }
    }
  }

  lemma UniqueSnoc(front: seq<Node>, last: Node)
    ensures UniqueIds(front + [last]) <==> UniqueIds(front) && last.id !in Ids(front)
  {
    var more := front + [last];
    assert more[|front|] == last && forall i :: 0 <= i < |front| ==> more[i] == front[i];
    if UniqueIds(more) {
      forall i | 0 <= i < |front| ensures front[i].id != last.id {
        assert more[i].id != more[|front|].id;
      }
      forall i, j | 0 <= i < j < |front| ensures front[i].id != front[j].id {
        assert more[i].id != more[j].id;
      }
    }
    if UniqueIds(front) && last.id !in Ids(front) {
      forall i | 0 <= i < |front| ensures front[i].id != last.id {
        assert front[i].id in Ids(front);
      }
    }
  }

  /** `len({ids}) == len(nodes)` is uniqueness. */
  lemma {:induction false} UniqueIsCount(nodes: seq<Node>)
    ensures |Ids(nodes)| <= |nodes|
    ensures |Ids(nodes)| == |nodes| <==> UniqueIds(nodes)
  {
    if nodes != [] {
      var front, last := nodes[..|nodes| - 1], nodes[|nodes| - 1];
      assert nodes == front + [last];
      UniqueIsCount(front);
      IdsSnoc(front, last);
      UniqueSnoc(front, last);
    }
  }

  method CheckDependencies(nodes: seq<Node>) returns (ok: bool)
    ensures ok <==> forall i :: 0 <= i < |nodes| ==> ValidDependencies(nodes[i], nodes)
  {
    var ids := Ids(nodes);
    for i := 0 to |nodes|
      invariant forall k :: 0 <= k < i ==> ValidDependencies(nodes[k], nodes)
    {
      if exists dep :: dep in nodes[i].dependsOn && (dep !in ids || dep == nodes[i].id) {
        assert !ValidDependencies(nodes[i], nodes);
        return false;
      }
    }
    return true;
  }

  method CheckPair(left: Node, right: Node, nodes: seq<Node>) returns (ok: bool)
    ensures ok <==> OrderedWriters(left, right, nodes)
  {
    var overlap := WriteScopesOverlap(left.writeScope, right.writeScope);
    if !overlap {
      return true;
    }
    ok := DependsOn(left, right.id, nodes);
    if !ok {
      ok := DependsOn(right, left.id, nodes);
    }
  }

  /** The first pair of writers that could meet. */
  method CheckWriters(nodes: seq<Node>) returns (verdict: Verdict)
    ensures verdict == Accepted || verdict.ParallelWriters?
    ensures verdict == Accepted <==> forall i, j :: 0 <= i < j < |nodes| ==> OrderedWriters(nodes[i], nodes[j], nodes)
    ensures verdict.ParallelWriters? ==>
              exists i, j ::
                && 0 <= i < j < |nodes|
                && nodes[i].id == verdict.left && nodes[j].id == verdict.right
                && !OrderedWriters(nodes[i], nodes[j], nodes)
  {
    for i := 0 to |nodes|
      invariant forall k, j :: 0 <= k < i && k < j < |nodes| ==> OrderedWriters(nodes[k], nodes[j], nodes)
    {
      for j := i + 1 to |nodes|
        invariant forall k :: i < k < j ==> OrderedWriters(nodes[i], nodes[k], nodes)
      {
        var ok := CheckPair(nodes[i], nodes[j], nodes);
        if !ok {
          return ParallelWriters(nodes[i].id, nodes[j].id);
        }
      }
    }
    return Accepted;
  }

  /** Acceptance is exactly validity. */
  method ValidatePlan(nodes: seq<Node>) returns (verdict: Verdict)
    ensures verdict == Accepted <==> ValidPlan(nodes)
    ensures verdict == BadCount <==> !(2 <= |nodes| <= MAX_TASKS)
    ensures verdict == DuplicateId <==> 2 <= |nodes| <= MAX_TASKS && !UniqueIds(nodes)
    ensures verdict == BadDependency ==> exists i :: 0 <= i < |nodes| && !ValidDependencies(nodes[i], nodes)
    ensures verdict.ParallelWriters? ==>
              exists i, j ::
                && 0 <= i < j < |nodes|
                && nodes[i].id == verdict.left && nodes[j].id == verdict.right
                && !OrderedWriters(nodes[i], nodes[j], nodes)
  {
    if !(2 <= |nodes| <= MAX_TASKS) {
      return BadCount;
    }
    var ids := Ids(nodes);
    UniqueIsCount(nodes);
    if |ids| != |nodes| {
      return DuplicateId;
    }
    var ok := CheckDependencies(nodes);
    if !ok {
      return BadDependency;
    }
    verdict := CheckWriters(nodes);
  }
}
