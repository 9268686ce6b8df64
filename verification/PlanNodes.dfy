/** Where task plans come from: the model's list of nodes, accepted as a whole or replaced by a
    fixed fallback.  Such plans point backwards, and that is what keeps them moving. */
module PlanNodes {
  import opened Wrappers
  import opened Spaces
  import opened Json
  import opened PlanScopes
  import opened PlanGraph
  import opened PlanRun

  const MAX_DEPENDENCIES := 16
  const MAX_ID_CHARS := 80
  const MAX_SCOPES := 12
  const MAX_SCOPE_CHARS := 300

  datatype RawNode =
    | NotObject
    | Item(id: Value, title: Value, description: Value, dependsOn: Value, executor: Value, writeScope: Value)

  // ----- one node -----

  function Cut(text: string, limit: nat): string {
    if |text| > limit then text[..limit] else text
  }

  /** The texts of a list, stripped; anything else is left out. */
  function Texts(items: seq<Value>, limit: nat): seq<string> {
    if items == [] then []
    else
      var front, last := Texts(items[..|items| - 1], limit), items[|items| - 1];
      if last.Text? && StripSpace(last.text) != "" then front + [Cut(StripSpace(last.text), limit)] else front
  }

  function Strings(v: Value, maxItems: nat, maxChars: nat): seq<string> {
    if v.List? && |v.items| <= maxItems then Texts(v.items, maxChars) else []
  }

  predicate IsIdStart(c: char) {
    'a' <= c <= 'z' || '0' <= c <= '9'
  }

  predicate IsIdText(text: string) {
    && 1 <= |text| <= 64 && IsIdStart(text[0])
    && forall c :: c in text ==> IsIdStart(c) || c == '_' || c == '-'
  }

  predicate NonBlank(v: Value) {
    v.Text? && StripSpace(v.text) != ""
  }

  function AsIds(names: seq<string>): (ids: seq<Id>)
    ensures |ids| == |names| && forall i :: 0 <= i < |names| ==> ids[i] == Id(names[i])
  {
    seq(|names|, i requires 0 <= i < |names| => Id(names[i]))
  }

  function Dependencies(item: RawNode): seq<Id>
    requires item.Item?
  {
    AsIds(Strings(item.dependsOn, MAX_DEPENDENCIES, MAX_ID_CHARS))
  }

  function Writes(item: RawNode): seq<string>
    requires item.Item?
  {
    Strings(item.writeScope, MAX_SCOPES, MAX_SCOPE_CHARS)
  }

  predicate KnownNeeds(item: RawNode, known: set<Id>)
    requires item.Item?
  {
    forall id :: id in Dependencies(item) ==> id in known
  }

  /** What parsing asks of a node behind the `known` ones; a subagent may not write. */
  predicate ValidNode(item: RawNode, known: set<Id>) {
    && item.Item?
    && item.id.Text? && IsIdText(item.id.text) && Id(item.id.text) !in known
    && NonBlank(item.title) && NonBlank(item.description)
    && KnownNeeds(item, known)
    && (|| item.executor.Missing? || item.executor == Text("main")
        || (item.executor == Text("subagent") && Writes(item) == []))
  }

  function Parsed(item: RawNode): Node
    requires item.Item? && item.id.Text?
  {
    Node(Id(item.id.text), Dependencies(item), Writes(item), Pending)
  }

  /** All nodes are valid in turn. */
  predicate ValidNodes(raw: seq<RawNode>) {
    raw == [] ||
    (var front, last := raw[..|raw| - 1], raw[|raw| - 1];
     ValidNodes(front) && ValidNode(last, Ids(ParsedNodes(front))))
  }

  function ParsedNodes(raw: seq<RawNode>): seq<Node> {
    if raw == [] then []
    else
      var front, last := ParsedNodes(raw[..|raw| - 1]), raw[|raw| - 1];
      if last.Item? && last.id.Text? then front + [Parsed(last)] else front
  }

  // ----- plans that point backwards -----

  /** Every dependency is an earlier node, and no id is used twice. */
  ghost predicate Backward(nodes: seq<Node>) {
    && UniqueIds(nodes)
    && forall i, id :: 0 <= i < |nodes| && id in nodes[i].dependsOn ==> IsEarlier(nodes, i, id)
  }

  ghost predicate IsEarlier(nodes: seq<Node>, i: nat, id: Id)
    requires i <= |nodes|
  {
    exists j :: 0 <= j < i && nodes[j].id == id
  }

  predicate AllPending(nodes: seq<Node>) {
    forall i :: 0 <= i < |nodes| ==> nodes[i].status == Pending
  }

  lemma BackwardSnoc(nodes: seq<Node>, node: Node)
    requires Backward(nodes) && node.id !in Ids(nodes)
    requires forall id :: id in node.dependsOn ==> id in Ids(nodes)
    ensures Backward(nodes + [node])
  {
    var more := nodes + [node];
    forall i, j | 0 <= i < j < |more| ensures more[i].id != more[j].id {
      if j == |nodes| {
        assert nodes[i].id in Ids(nodes);
      }
    }
    forall i, id | 0 <= i < |more| && id in more[i].dependsOn ensures IsEarlier(more, i, id) {
      if i < |nodes| {
        assert IsEarlier(nodes, i, id);
        var j :| 0 <= j < i && nodes[j].id == id;
        assert more[j].id == id;
      } else {
        var j :| 0 <= j < |nodes| && nodes[j].id == id;
        assert more[j].id == id;
      }
    }
  }

  lemma {:induction false} ParsedIsBackward(raw: seq<RawNode>)
    requires ValidNodes(raw)
    ensures Backward(ParsedNodes(raw)) && AllPending(ParsedNodes(raw)) && |ParsedNodes(raw)| == |raw|
  {
    if raw != [] {
      ParsedIsBackward(raw[..|raw| - 1]);
      BackwardSnoc(ParsedNodes(raw[..|raw| - 1]), Parsed(raw[|raw| - 1]));
    }
  }

  lemma {:induction false} InvalidStays(raw: seq<RawNode>, n: nat)
    requires n <= |raw| && !ValidNodes(raw[..n])
    ensures !ValidNodes(raw)
    decreases |raw|
  {
    if n == |raw| {
      assert raw[..n] == raw;
    } else {
      assert raw[..|raw| - 1][..n] == raw[..n];
      InvalidStays(raw[..|raw| - 1], n);
    }
  }

  /** Accepts the model's nodes as a whole or not at all. */
  method ParseNodes(raw: seq<RawNode>, maxTasks: nat) returns (nodes: seq<Node>)
    ensures nodes == if 2 <= |raw| <= maxTasks && ValidNodes(raw) then ParsedNodes(raw) else []
    ensures Backward(nodes) && AllPending(nodes)
    ensures nodes != [] ==> |nodes| == |raw|
    ensures nodes != [] <==> 2 <= |raw| <= maxTasks && forall i :: 0 <= i < |raw| ==> ValidRaw(raw, i)
    ensures nodes != [] ==> SayNodes(nodes, raw)
  {
    ValidNodesExactly(raw);
    if ValidNodes(raw) {
      ParsedSay(raw);
    }
    nodes := [];
    if !(2 <= |raw| <= maxTasks) {
      return;
    }
    var known: set<Id> := {};
    for n := 0 to |raw|
      invariant ValidNodes(raw[..n]) && nodes == ParsedNodes(raw[..n]) && known == Ids(nodes)
    {
      assert raw[..n + 1][..n] == raw[..n];
      if !ValidNode(raw[n], known) {
        InvalidStays(raw, n + 1);
        return [];
      }
      KnownSnoc(nodes, Parsed(raw[n]));
      nodes := nodes + [Parsed(raw[n])];
      known := known + {Id(raw[n].id.text)};
    }
    assert raw[..|raw|] == raw;
    ParsedIsBackward(raw);
  }

  lemma KnownSnoc(nodes: seq<Node>, node: Node)
    ensures Ids(nodes + [node]) == Ids(nodes) + {node.id}
  {
    var more := nodes + [node];
    forall id ensures id in Ids(more) <==> id in Ids(nodes) + {node.id} {
      if id in Ids(nodes) {
        var i :| 0 <= i < |nodes| && nodes[i].id == id;
        assert more[i].id == id;
      }
      assert more[|nodes|] == node;
    }
  }

  // ----- what the raw nodes say -----

  /** `part` is one of the texts of a list, stripped and cut. */
  ghost predicate Mentions(v: Value, maxItems: nat, maxChars: nat, part: string) {
    v.List? && |v.items| <= maxItems && exists k :: 0 <= k < |v.items| && IsPart(v.items[k], maxChars, part)
  }

  ghost predicate IsPart(v: Value, maxChars: nat, part: string) {
    && v.Text?
    && var text := StripSpace(v.text);
       text != "" && part <= text && |part| == if |text| > maxChars then maxChars else |text|
  }

  ghost predicate Needs(item: RawNode, name: string) {
    item.Item? && Mentions(item.dependsOn, 16, 80, name)
  }

  ghost predicate MayWrite(item: RawNode, path: string) {
    item.Item? && Mentions(item.writeScope, 12, 300, path)
  }

  ghost predicate WritesNone(item: RawNode) {
    forall path :: !MayWrite(item, path)
  }

  ghost predicate IsNamed(item: RawNode, name: string) {
    item.Item? && item.id == Text(name)
  }

  lemma {:induction false} TextsAre(items: seq<Value>, limit: nat, part: string)
    ensures part in Texts(items, limit) <==> exists k :: 0 <= k < |items| && IsPart(items[k], limit, part)
  {
    if items != [] {
      var front, last := items[..|items| - 1], items[|items| - 1];
      TextsAre(front, limit, part);
      CutIs(last, limit, part);
      if part in Texts(front, limit) {
        var k :| 0 <= k < |front| && IsPart(front[k], limit, part);
        assert IsPart(items[k], limit, part);
      }
      if k :| 0 <= k < |items| && IsPart(items[k], limit, part) {
        assert k < |front| ==> IsPart(front[k], limit, part);
      }
    }
  }

  lemma CutIs(v: Value, limit: nat, part: string)
    ensures IsPart(v, limit, part) <==>
            v.Text? && StripSpace(v.text) != "" && part == Cut(StripSpace(v.text), limit)
  {
  }

  lemma StringsAre(v: Value, maxItems: nat, maxChars: nat, part: string)
    ensures part in Strings(v, maxItems, maxChars) <==> Mentions(v, maxItems, maxChars, part)
  {
    if v.List? {
      TextsAre(v.items, maxChars, part);
    }
  }

  lemma DependenciesAre(item: RawNode, name: string)
    requires item.Item?
    ensures Id(name) in Dependencies(item) <==> Needs(item, name)
  {
    var names := Strings(item.dependsOn, MAX_DEPENDENCIES, MAX_ID_CHARS);
    StringsAre(item.dependsOn, MAX_DEPENDENCIES, MAX_ID_CHARS, name);
    if name in names {
      var k :| 0 <= k < |names| && names[k] == name;
      assert AsIds(names)[k] == Id(name);
    }
  }

  /** The node has the raw one's id, the dependencies and the write scopes it mentions, and no others. */
  ghost predicate SaysNode(node: Node, item: RawNode) {
    && IsNamed(item, node.id.name) && node.status == Pending
    && (forall name :: Id(name) in node.dependsOn <==> Needs(item, name))
    && (forall path :: path in node.writeScope <==> MayWrite(item, path))
  }

  lemma ParsedSays(item: RawNode)
    requires item.Item? && item.id.Text?
    ensures SaysNode(Parsed(item), item)
  {
    forall name ensures Id(name) in Dependencies(item) <==> Needs(item, name) {
      DependenciesAre(item, name);
    }
    forall path ensures path in Writes(item) <==> MayWrite(item, path) {
      StringsAre(item.writeScope, MAX_SCOPES, MAX_SCOPE_CHARS, path);
    }
  }

  ghost predicate SayNodes(nodes: seq<Node>, raw: seq<RawNode>) {
    && |nodes| == |raw|
    && (raw == [] ||
        (var n := |raw| - 1; SayNodes(nodes[..n], raw[..n]) && SaysNode(nodes[n], raw[n])))
  }

  lemma {:induction false} SaidAt(nodes: seq<Node>, raw: seq<RawNode>, i: nat)
    requires SayNodes(nodes, raw) && i < |raw|
    ensures SaysNode(nodes[i], raw[i])
  {
    var n := |raw| - 1;
    if i < n {
      SaidAt(nodes[..n], raw[..n], i);
    }
  }

  lemma SayOneMore(nodes: seq<Node>, raw: seq<RawNode>, item: RawNode)
    requires SayNodes(nodes, raw) && item.Item? && item.id.Text?
    ensures SayNodes(nodes + [Parsed(item)], raw + [item])
  {
    ParsedSays(item);
    assert (nodes + [Parsed(item)])[..|nodes|] == nodes && (raw + [item])[..|raw|] == raw;
  }

  ghost predicate AllHaveIds(raw: seq<RawNode>) {
    raw == [] || (AllHaveIds(raw[..|raw| - 1]) && raw[|raw| - 1].Item? && raw[|raw| - 1].id.Text?)
  }

  lemma {:induction false} ValidHaveIds(raw: seq<RawNode>)
    requires ValidNodes(raw)
    ensures AllHaveIds(raw)
  {
    if raw != [] {
      ValidHaveIds(raw[..|raw| - 1]);
    }
  }

  lemma {:induction false} ItemsSay(raw: seq<RawNode>)
    requires AllHaveIds(raw)
    ensures SayNodes(ParsedNodes(raw), raw)
  {
    if raw != [] {
      var front, last := raw[..|raw| - 1], raw[|raw| - 1];
      ItemsSay(front);
      SayOneMore(ParsedNodes(front), front, last);
      assert raw == front + [last];
    }
  }

  lemma ParsedSay(raw: seq<RawNode>)
    requires ValidNodes(raw)
    ensures SayNodes(ParsedNodes(raw), raw)
  {
    ValidHaveIds(raw);
    ItemsSay(raw);
  }

  /** What is asked of raw node i, in terms of the list alone. */
  ghost predicate ValidRaw(raw: seq<RawNode>, i: nat)
    requires i < |raw|
  {
    var item := raw[i];
    && item.Item? && item.id.Text? && MatchesIdPattern(item.id.text)
    && !NamedBefore(raw, i, item.id.text)
    && item.title.Text? && StripSpace(item.title.text) != ""
    && item.description.Text? && StripSpace(item.description.text) != ""
    && NeedsBefore(raw, i, item)
    && (|| item.executor.Missing? || item.executor == Text("main")
        || (item.executor == Text("subagent") && WritesNone(item)))
  }

  lemma KnownAre(nodes: seq<Node>, raw: seq<RawNode>, name: string)
    requires SayNodes(nodes, raw)
    ensures Id(name) in Ids(nodes) <==> exists j :: 0 <= j < |raw| && IsNamed(raw[j], name)
  {
    if Id(name) in Ids(nodes) {
      var i :| 0 <= i < |nodes| && nodes[i].id == Id(name);
      SaidAt(nodes, raw, i);
    }
    if j :| 0 <= j < |raw| && IsNamed(raw[j], name) {
      SaidAt(nodes, raw, j);
      assert nodes[j].id.name == name;
      assert nodes[j].id == Id(name);
    }
  }

  lemma WritesNothing(item: RawNode)
    requires item.Item?
    ensures Writes(item) == [] <==> WritesNone(item)
  {
    if Writes(item) != [] {
      StringsAre(item.writeScope, MAX_SCOPES, MAX_SCOPE_CHARS, Writes(item)[0]);
      assert MayWrite(item, Writes(item)[0]);
    }
    forall path | Writes(item) == [] ensures !MayWrite(item, path) {
      StringsAre(item.writeScope, MAX_SCOPES, MAX_SCOPE_CHARS, path);
    }
  }

  /** [a-z0-9][a-z0-9_-]{0,63} */
  ghost predicate MatchesIdPattern(text: string) {
    && 1 <= |text| <= 64 && ('a' <= text[0] <= 'z' || '0' <= text[0] <= '9')
    && forall i :: 1 <= i < |text| ==>
         'a' <= text[i] <= 'z' || '0' <= text[i] <= '9' || text[i] == '_' || text[i] == '-'
  }

  lemma IdPattern(text: string)
    ensures IsIdText(text) <==> MatchesIdPattern(text)
  {
    if MatchesIdPattern(text) {
      forall c | c in text ensures IsIdStart(c) || c == '_' || c == '-' {
        var i :| 0 <= i < |text| && text[i] == c;
      }
    }
    if IsIdText(text) {
      assert forall i :: 0 <= i < |text| ==> text[i] in text;
    }
  }

  /** A node with this name stands before position n. */
  ghost predicate NamedBefore(raw: seq<RawNode>, n: nat, name: string)
    requires n <= |raw|
  {
    exists j :: 0 <= j < n && IsNamed(raw[j], name)
  }

  ghost predicate NeedsBefore(raw: seq<RawNode>, n: nat, item: RawNode)
    requires n <= |raw|
  {
    forall name :: Needs(item, name) ==> NamedBefore(raw, n, name)
  }

  lemma BeforeIsKnown(nodes: seq<Node>, raw: seq<RawNode>, n: nat, name: string)
    requires n <= |raw| && SayNodes(nodes, raw[..n])
    ensures NamedBefore(raw, n, name) <==> Id(name) in Ids(nodes)
  {
    KnownAre(nodes, raw[..n], name);
    if NamedBefore(raw, n, name) {
      var j :| 0 <= j < n && IsNamed(raw[j], name);
      assert raw[..n][j] == raw[j];
    }
  }

  lemma NeedsAreKnown(nodes: seq<Node>, raw: seq<RawNode>, n: nat, item: RawNode)
    requires n <= |raw| && SayNodes(nodes, raw[..n]) && item.Item?
    ensures KnownNeeds(item, Ids(nodes)) <==> NeedsBefore(raw, n, item)
  {
    forall id ensures id in Dependencies(item) <==> Needs(item, id.name) {
      DependenciesAre(item, id.name);
      assert id == Id(id.name);
    }
    forall name ensures NamedBefore(raw, n, name) <==> Id(name) in Ids(nodes) {
      BeforeIsKnown(nodes, raw, n, name);
    }
    if forall id :: id in Dependencies(item) ==> id in Ids(nodes) {
      forall name | Needs(item, name) ensures NamedBefore(raw, n, name) {
        assert Id(name) in Dependencies(item);
      }
    }
  }

  /** Validity of the last node, seen from the whole list. */
  lemma NextIsValid(raw: seq<RawNode>, n: nat)
    requires n < |raw| && ValidNodes(raw[..n])
    ensures ValidNode(raw[n], Ids(ParsedNodes(raw[..n]))) <==> ValidRaw(raw, n)
  {
    var item, known := raw[n], Ids(ParsedNodes(raw[..n]));
    if item.Item? && item.id.Text? {
      assert IsIdText(item.id.text) <==> MatchesIdPattern(item.id.text) by { IdPattern(item.id.text); }
      assert NamedBefore(raw, n, item.id.text) <==> Id(item.id.text) in known by {
        ParsedSay(raw[..n]);
        BeforeIsKnown(ParsedNodes(raw[..n]), raw, n, item.id.text);
      }
      assert KnownNeeds(item, known) <==> NeedsBefore(raw, n, item) by {
        ParsedSay(raw[..n]);
        NeedsAreKnown(ParsedNodes(raw[..n]), raw, n, item);
      }
      assert Writes(item) == [] <==> WritesNone(item) by { WritesNothing(item); }
    }
  }

  lemma SameRaw(raw: seq<RawNode>, n: nat, i: nat)
    requires i < n <= |raw|
    ensures ValidRaw(raw[..n], i) <==> ValidRaw(raw, i)
  {
    forall name ensures NamedBefore(raw[..n], i, name) <==> NamedBefore(raw, i, name) {
      assert forall j :: 0 <= j < i ==> raw[..n][j] == raw[j];
    }
  }

  /** The nodes are accepted exactly if each of them is in order by itself and what it names stands
      before it. */
  lemma {:induction false} ValidNodesExactly(raw: seq<RawNode>)
    ensures ValidNodes(raw) <==> forall i :: 0 <= i < |raw| ==> ValidRaw(raw, i)
  {
    if raw != [] {
      var n := |raw| - 1;
      ValidNodesExactly(raw[..n]);
      forall i | 0 <= i < n ensures ValidRaw(raw[..n], i) <==> ValidRaw(raw, i) {
        SameRaw(raw, n, i);
      }
      if ValidNodes(raw[..n]) {
        NextIsValid(raw, n);
      } else {
        var i :| 0 <= i < n && !ValidRaw(raw[..n], i);
        assert !ValidRaw(raw, i);
      }
    }
  }

  // ----- which raw plans are accepted -----

  /** Raw node j needs raw node k. */
  ghost predicate NeedsNode(raw: seq<RawNode>, j: nat, k: nat)
    requires j < |raw| && k < |raw|
  {
    exists name :: IsNamed(raw[k], name) && Needs(raw[j], name)
  }

  /** Raw node j depends on raw node i, directly or through nodes in between. */
  ghost predicate Path(raw: seq<RawNode>, j: nat, i: nat)
    requires j < |raw| && i < |raw|
    decreases j
  {
    exists k :: 0 <= k < j && NeedsNode(raw, j, k) && (k == i || Path(raw, k, i))
  }

  /** Both may write, and one of the two paths contains the other. */
  ghost predicate MayMeet(left: RawNode, right: RawNode) {
    exists p, q :: MayWrite(left, p) && MayWrite(right, q) && Related(p, q)
  }

  lemma {:induction false} PathJoins(raw: seq<RawNode>, j: nat, m: nat, i: nat)
    requires j < |raw| && m < |raw| && i < |raw|
    requires Path(raw, j, m) && i < m && NeedsNode(raw, m, i)
    ensures Path(raw, j, i)
    decreases j
  {
    var k :| 0 <= k < j && NeedsNode(raw, j, k) && (k == m || Path(raw, k, m));
    if k == m {
      assert Path(raw, m, i);
    } else {
      PathJoins(raw, k, m, i);
    }
  }

  /** The dependencies of the nodes are the needs of the raw nodes. */
  ghost predicate SameNeeds(nodes: seq<Node>, raw: seq<RawNode>) {
    && |nodes| == |raw|
    && forall j, k :: 0 <= j < |raw| && 0 <= k < |raw| ==> (NeedsNode(raw, j, k) <==> nodes[k].id in nodes[j].dependsOn)
  }

  lemma NeedsAreSame(nodes: seq<Node>, raw: seq<RawNode>)
    requires SayNodes(nodes, raw)
    ensures SameNeeds(nodes, raw)
  {
    forall j, k | 0 <= j < |raw| && 0 <= k < |raw|
      ensures NeedsNode(raw, j, k) <==> nodes[k].id in nodes[j].dependsOn
    {
      NeedIsDependency(nodes, raw, j, k);
    }
  }

  lemma NeedIsDependency(nodes: seq<Node>, raw: seq<RawNode>, j: nat, k: nat)
    requires SayNodes(nodes, raw) && j < |raw| && k < |raw|
    ensures NeedsNode(raw, j, k) <==> nodes[k].id in nodes[j].dependsOn
  {
    SaidAt(nodes, raw, j);
    SaidAt(nodes, raw, k);
    assert nodes[k].id == Id(nodes[k].id.name);
  }

  lemma EarlierNeed(nodes: seq<Node>, raw: seq<RawNode>, j: nat, target: Id) returns (i: nat)
    requires SameNeeds(nodes, raw) && Backward(nodes) && j < |nodes| && target in nodes[j].dependsOn
    ensures i < j && nodes[i].id == target && NeedsNode(raw, j, i) && Path(raw, j, i)
  {
    assert IsEarlier(nodes, j, target);
    i :| 0 <= i < j && nodes[i].id == target;
  }

  ghost predicate IsIndex(byId: map<Id, seq<Id>>, nodes: seq<Node>) {
    forall m :: 0 <= m < |nodes| ==> nodes[m].id in byId && byId[nodes[m].id] == nodes[m].dependsOn
  }

  lemma ByIdIsIndex(nodes: seq<Node>)
    requires UniqueIds(nodes)
    ensures IsIndex(ById(nodes), nodes)
  {
    forall m | 0 <= m < |nodes| ensures nodes[m].id in ById(nodes) && ById(nodes)[nodes[m].id] == nodes[m].dependsOn {
      ByIdUnique(nodes, m);
    }
  }

  lemma PathStep(nodes: seq<Node>, raw: seq<RawNode>, byId: map<Id, seq<Id>>, j: nat, m: nat, target: Id)
      returns (i: nat)
    requires SameNeeds(nodes, raw) && Backward(nodes) && m < j < |nodes| && IsIndex(byId, nodes)
    requires Path(raw, j, m) && Edge(byId, nodes[m].id, target)
    ensures i < j && nodes[i].id == target && Path(raw, j, i)
  {
    i := EarlierNeed(nodes, raw, m, target);
    PathJoins(raw, j, m, i);
  }

  lemma {:induction false} ReachedIsPath(nodes: seq<Node>, raw: seq<RawNode>, byId: map<Id, seq<Id>>, j: nat,
                                         target: Id, n: nat)
      returns (i: nat)
    requires SameNeeds(nodes, raw) && Backward(nodes) && j < |nodes| && IsIndex(byId, nodes)
    requires ReachesIn(nodes[j].dependsOn, byId, target, n)
    ensures i < j && nodes[i].id == target && Path(raw, j, i)
    decreases n
  {
    if n == 0 {
      i := EarlierNeed(nodes, raw, j, target);
    } else {
      var id :| ReachesIn(nodes[j].dependsOn, byId, id, n - 1) && Edge(byId, id, target);
      var m := ReachedIsPath(nodes, raw, byId, j, id, n - 1);
      i := PathStep(nodes, raw, byId, j, m, target);
    }
  }

  lemma {:induction false} ReachesBelow(nodes: seq<Node>, j: nat, k: nat, target: Id, n: nat)
    requires UniqueIds(nodes) && j < |nodes| && k < |nodes| && nodes[k].id in nodes[j].dependsOn
    requires ReachesIn(nodes[k].dependsOn, ById(nodes), target, n)
    ensures ReachesIn(nodes[j].dependsOn, ById(nodes), target, n + 1)
    decreases n
  {
    if n == 0 {
      ByIdUnique(nodes, k);
      assert ReachesIn(nodes[j].dependsOn, ById(nodes), nodes[k].id, 0);
      assert Edge(ById(nodes), nodes[k].id, target);
    } else {
      var id :| ReachesIn(nodes[k].dependsOn, ById(nodes), id, n - 1) && Edge(ById(nodes), id, target);
      ReachesBelow(nodes, j, k, id, n - 1);
    }
  }

  lemma {:induction false} PathIsReached(nodes: seq<Node>, raw: seq<RawNode>, j: nat, i: nat)
    requires SameNeeds(nodes, raw) && UniqueIds(nodes) && j < |nodes| && i < |nodes|
    requires Path(raw, j, i)
    ensures TransitivelyDepends(nodes[j], nodes[i].id, nodes)
    decreases j
  {
    var k :| 0 <= k < j && NeedsNode(raw, j, k) && (k == i || Path(raw, k, i));
    if k == i {
      assert ReachesIn(nodes[j].dependsOn, ById(nodes), nodes[i].id, 0);
    } else {
      PathIsReached(nodes, raw, k, i);
      var n: nat :| ReachesIn(nodes[k].dependsOn, ById(nodes), nodes[i].id, n);
      ReachesBelow(nodes, j, k, nodes[i].id, n);
    }
  }

  /** Dependency in the plan is a path in the raw list. */
  lemma DependsIsPath(nodes: seq<Node>, raw: seq<RawNode>, j: nat, i: nat)
    requires SameNeeds(nodes, raw) && Backward(nodes) && j < |nodes| && i < |nodes|
    ensures TransitivelyDepends(nodes[j], nodes[i].id, nodes) <==> Path(raw, j, i)
    ensures Path(raw, j, i) ==> i < j
  {
    if TransitivelyDepends(nodes[j], nodes[i].id, nodes) {
      var n: nat :| ReachesIn(nodes[j].dependsOn, ById(nodes), nodes[i].id, n);
      ByIdIsIndex(nodes);
      var k := ReachedIsPath(nodes, raw, ById(nodes), j, nodes[i].id, n);
      assert k == i;
    }
    if Path(raw, j, i) {
      PathIsReached(nodes, raw, j, i);
    }
  }

  lemma OverlapMeets(left: Node, right: Node, one: RawNode, two: RawNode)
    requires SaysNode(left, one) && SaysNode(right, two) && Overlap(left.writeScope, right.writeScope)
    ensures MayMeet(one, two)
  {
    var a, b :| && 0 <= a < |left.writeScope| && 0 <= b < |right.writeScope|
                && Related(left.writeScope[a], right.writeScope[b]);
    assert MayWrite(one, left.writeScope[a]) && MayWrite(two, right.writeScope[b]);
  }

  lemma MeetingOverlaps(left: Node, right: Node, one: RawNode, two: RawNode)
    requires SaysNode(left, one) && SaysNode(right, two) && MayMeet(one, two)
    ensures Overlap(left.writeScope, right.writeScope)
  {
    var p, q :| MayWrite(one, p) && MayWrite(two, q) && Related(p, q);
    assert p in left.writeScope && q in right.writeScope;
    var a :| 0 <= a < |left.writeScope| && left.writeScope[a] == p;
    var b :| 0 <= b < |right.writeScope| && right.writeScope[b] == q;
  }

  lemma OverlapIsMeeting(nodes: seq<Node>, raw: seq<RawNode>, i: nat, j: nat)
    requires SayNodes(nodes, raw) && i < |raw| && j < |raw|
    ensures Overlap(nodes[i].writeScope, nodes[j].writeScope) <==> MayMeet(raw[i], raw[j])
  {
    SaidAt(nodes, raw, i);
    SaidAt(nodes, raw, j);
    if Overlap(nodes[i].writeScope, nodes[j].writeScope) {
      OverlapMeets(nodes[i], nodes[j], raw[i], raw[j]);
    } else if MayMeet(raw[i], raw[j]) {
      MeetingOverlaps(nodes[i], nodes[j], raw[i], raw[j]);
    }
  }

  /** Of two raw nodes that may write the same file the later one depends on the earlier. */
  ghost predicate MeetInOrder(raw: seq<RawNode>) {
    forall i, j :: 0 <= i < j < |raw| && MayMeet(raw[i], raw[j]) ==> Path(raw, j, i)
  }

  ghost predicate WritersOrdered(nodes: seq<Node>) {
    forall i, j :: 0 <= i < j < |nodes| ==> OrderedWriters(nodes[i], nodes[j], nodes)
  }

  lemma PairIsCompatible(nodes: seq<Node>, raw: seq<RawNode>, i: nat, j: nat)
    requires SayNodes(nodes, raw) && SameNeeds(nodes, raw) && Backward(nodes) && i < j < |raw|
    ensures OrderedWriters(nodes[i], nodes[j], nodes) <==> (MayMeet(raw[i], raw[j]) ==> Path(raw, j, i))
  {
    OverlapIsMeeting(nodes, raw, i, j);
    DependsIsPath(nodes, raw, j, i);
    DependsIsPath(nodes, raw, i, j);
  }

  lemma OrderedIsMeeting(nodes: seq<Node>, raw: seq<RawNode>)
    requires SayNodes(nodes, raw) && SameNeeds(nodes, raw) && Backward(nodes) && WritersOrdered(nodes)
    ensures MeetInOrder(raw)
  {
    forall i, j | 0 <= i < j < |raw| && MayMeet(raw[i], raw[j]) ensures Path(raw, j, i) {
      PairIsCompatible(nodes, raw, i, j);
    }
  }

  lemma MeetingIsOrdered(nodes: seq<Node>, raw: seq<RawNode>)
    requires SayNodes(nodes, raw) && SameNeeds(nodes, raw) && Backward(nodes) && MeetInOrder(raw)
    ensures WritersOrdered(nodes)
  {
    forall i, j | 0 <= i < j < |nodes| ensures OrderedWriters(nodes[i], nodes[j], nodes) {
      PairIsCompatible(nodes, raw, i, j);
    }
  }

  lemma BackwardIsValid(nodes: seq<Node>)
    requires Backward(nodes) && 2 <= |nodes|
    ensures ValidPlan(nodes) <==> |nodes| <= 8 && WritersOrdered(nodes)
  {
    BackwardIsKnown(nodes);
  }

  /** The raw plan has at most eight nodes, and writers that may meet are in order. */
  ghost predicate Compatible(raw: seq<RawNode>) {
    |raw| <= 8 && MeetInOrder(raw)
  }

  /** Which parsed plans validation accepts, in terms of the raw list alone. */
  lemma ParsedIsValidExactly(raw: seq<RawNode>)
    requires 2 <= |raw| && ValidNodes(raw)
    ensures ValidPlan(ParsedNodes(raw)) <==> Compatible(raw)
  {
    var nodes := ParsedNodes(raw);
    ParsedIsBackward(raw);
    BackwardIsValid(nodes);
    if WritersOrdered(nodes) {
      ParsedSay(raw);
      NeedsAreSame(nodes, raw);
      OrderedIsMeeting(nodes, raw);
    } else if MeetInOrder(raw) {
      ParsedSay(raw);
      NeedsAreSame(nodes, raw);
      MeetingIsOrdered(nodes, raw);
    }
  }

  lemma BackwardIsKnown(nodes: seq<Node>)
    requires Backward(nodes)
    ensures forall i :: 0 <= i < |nodes| ==> ValidDependencies(nodes[i], nodes)
  {
    forall i, id | 0 <= i < |nodes| && id in nodes[i].dependsOn ensures id != nodes[i].id && Known(id, nodes) {
      assert IsEarlier(nodes, i, id);
      var j :| 0 <= j < i && nodes[j].id == id;
    }
  }

  /** In particular two nodes that write the same path are refused unless one depends on the other. */
  lemma SamePathIsRefused(raw: seq<RawNode>, i: nat, j: nat, path: string)
    requires 2 <= |raw| && ValidNodes(raw) && i < j < |raw|
    requires MayWrite(raw[i], path) && MayWrite(raw[j], path) && Strip(path) != "" && !Path(raw, j, i)
    ensures !ValidPlan(ParsedNodes(raw))
  {
    ParsedIsValidExactly(raw);
    assert Related(path, path);
    assert MayMeet(raw[i], raw[j]);
  }

  const EXECUTE := Id("execute")
  const VERIFY := Id("verify")

  /** The fallback: scope, execute, verify. */
  function FallbackPlan(): seq<Node> {
    [Node(SCOPE, [], [], Pending), Node(EXECUTE, [SCOPE], [], Pending), Node(VERIFY, [EXECUTE], [], Pending)]
  }

  lemma FallbackIds()
    ensures SCOPE != EXECUTE && SCOPE != VERIFY && EXECUTE != VERIFY
  {
    assert "scope"[0] != "execute"[0] && "scope"[0] != "verify"[0] && "execute"[0] != "verify"[0];
  }

  lemma FallbackIsBackward()
    ensures Backward(FallbackPlan()) && AllPending(FallbackPlan())
  {
    var nodes := FallbackPlan();
    FallbackIds();
    assert nodes[0].id == SCOPE && nodes[1].id == EXECUTE;
    assert IsEarlier(nodes, 1, SCOPE) && IsEarlier(nodes, 2, EXECUTE);
  }

  lemma FallbackIsValid()
    ensures ValidPlan(FallbackPlan()) && Backward(FallbackPlan()) && AllPending(FallbackPlan())
  {
    var nodes := FallbackPlan();
    FallbackIds();
    FallbackIsBackward();
    assert nodes[0].id == SCOPE && nodes[1].id == EXECUTE;
    assert Known(SCOPE, nodes) && Known(EXECUTE, nodes);
    forall i | 0 <= i < |nodes| ensures ValidDependencies(nodes[i], nodes) {
      assert i == 0 || i == 1 || i == 2;
    }
    assert forall i :: 0 <= i < |nodes| ==> nodes[i].writeScope == [];
  }

  /** Validates a plan and, unless it is to stay a draft, starts it. */
  method Establish(nodes: seq<Node>, fallback: bool, draft: bool) returns (plan: Option<Plan>)
    ensures plan.None? <==> !ValidPlan(nodes)
    ensures plan.Some? ==>
              plan.value == if draft then Plan(Draft, nodes, fallback) else Step(Plan(Draft, nodes, fallback), Approve)
    ensures plan.Some? ==> SameGraph(nodes, plan.value.nodes)
  {
    var verdict := ValidatePlan(nodes);
    if verdict != Accepted {
      return None;
    }
    if draft {
      return Some(Plan(Draft, nodes, fallback));
    }
    var active := new TaskPlan(nodes, Active, fallback);
    active.StartNextReady();
    plan := Some(Plan(Active, active.tasks, fallback));
    assert plan.value == Step(Plan(Draft, nodes, fallback), Approve);
  }

  /** A new plan: the model's nodes or the fallback, validated, as a draft or already started.
      Writes advance only a fallback that nobody asked for by hand. */
  method CreatePlan(raw: seq<RawNode>, maxTasks: nat, manual: bool, draft: bool)
    returns (plan: Option<Plan>, usedFallback: bool)
    ensures usedFallback <==> !(2 <= |raw| <= maxTasks && ValidNodes(raw))
    ensures var nodes := if usedFallback then FallbackPlan() else ParsedNodes(raw);
            && (plan.None? <==> !ValidPlan(nodes))
            && (plan.Some? ==>
                  && Backward(nodes) && AllPending(nodes)
                  && plan.value == if draft then Plan(Draft, nodes, usedFallback && !manual)
                                   else Step(Plan(Draft, nodes, usedFallback && !manual), Approve))
    ensures usedFallback ==> plan.Some?
    ensures usedFallback <==> !(2 <= |raw| <= maxTasks && forall i :: 0 <= i < |raw| ==> ValidRaw(raw, i))
    ensures !usedFallback ==>
              && (plan.Some? <==> Compatible(raw))
              && SayNodes(ParsedNodes(raw), raw)
              && (plan.Some? ==> SameGraph(ParsedNodes(raw), plan.value.nodes))
  {
    ValidNodesExactly(raw);
    if 2 <= |raw| && ValidNodes(raw) {
      ParsedIsValidExactly(raw);
      ParsedSay(raw);
    }
    var nodes := ParseNodes(raw, maxTasks);
    usedFallback := nodes == [];
    if usedFallback {
      nodes := FallbackPlan();
      FallbackIsValid();
    }
    plan := Establish(nodes, usedFallback && !manual, draft);
  }

  // ----- such plans keep moving -----

  function StatusAt(i: nat, n: nat): NodeStatus {
    if i < n then Completed else if i == n then InProgress else Pending
  }

  /** The first `n` nodes are complete and the next one is in progress. */
  function Advanced(nodes: seq<Node>, n: nat): (r: seq<Node>)
    ensures |r| == |nodes| && forall i :: 0 <= i < |nodes| ==> r[i] == nodes[i].(status := StatusAt(i, n))
  {
    seq(|nodes|, i requires 0 <= i < |nodes| => nodes[i].(status := StatusAt(i, n)))
  }

  /** The first `n` nodes are complete and nothing is in progress. */
  function Waiting(nodes: seq<Node>, n: nat): (r: seq<Node>)
    ensures |r| == |nodes|
    ensures forall i :: 0 <= i < |nodes| ==> r[i] == nodes[i].(status := if i < n then Completed else Pending)
  {
    seq(|nodes|, i requires 0 <= i < |nodes| => nodes[i].(status := if i < n then Completed else Pending))
  }

  lemma WaitingIsReady(nodes: seq<Node>, n: nat)
    requires Backward(nodes) && n < |nodes|
    ensures FirstReady(Waiting(nodes, n), 0) == n
  {
    var now := Waiting(nodes, n);
    forall id | id in now[n].dependsOn ensures IsComplete(now, id) {
      assert IsEarlier(nodes, n, id);
      var j :| 0 <= j < n && nodes[j].id == id;
      assert now[j].id == id && UniqueIds(now);
      FindUnique(now, j);
    }
    assert Ready(now, n);
    forall k | 0 <= k < n ensures !Ready(now, k) {
      assert now[k].status == Completed;
    }
  }

  /** When the first n nodes are complete the next one starts. */
  lemma NextStarts(nodes: seq<Node>, n: nat)
    requires Backward(nodes) && n <= |nodes|
    ensures StartNext(Waiting(nodes, n)) == Advanced(nodes, n)
  {
    var now := Waiting(nodes, n);
    if n < |nodes| {
      WaitingIsReady(nodes, n);
      assert SetStatus(now, n, InProgress) == Advanced(nodes, n);
    } else {
      assert forall k :: 0 <= k < |now| ==> !Ready(now, k);
      assert now == Advanced(nodes, n);
    }
  }

  function Updates(nodes: seq<Node>, n: nat): (events: seq<Event>)
    requires n <= |nodes|
    ensures |events| == n && forall k :: 0 <= k < n ==> events[k] == Update(nodes[k].id, Completed)
  {
    seq(n, k requires 0 <= k < n => Update(nodes[k].id, Completed))
  }

  function Completions(nodes: seq<Node>, n: nat): seq<Event>
    requires n <= |nodes|
  {
    [Approve] + Updates(nodes, n)
  }

  function Stages(nodes: seq<Node>, n: nat, fallback: bool): (states: seq<Plan>)
    ensures |states| == n + 1 && forall k :: 0 <= k <= n ==> states[k] == Plan(Active, Advanced(nodes, k), fallback)
  {
    seq(n + 1, k requires 0 <= k <= n => Plan(Active, Advanced(nodes, k), fallback))
  }

  lemma ApproveStarts(nodes: seq<Node>, fallback: bool)
    requires Backward(nodes) && AllPending(nodes)
    ensures Run(Plan(Draft, nodes, fallback), [Approve]) == Plan(Active, Advanced(nodes, 0), fallback)
  {
    RunSnoc(Plan(Draft, nodes, fallback), [], Approve);
    assert [] + [Approve] == [Approve];
    assert Waiting(nodes, 0) == nodes;
    NextStarts(nodes, 0);
  }

  /** Completing node n starts node n + 1. */
  ghost predicate Advances(nodes: seq<Node>, n: nat, fallback: bool)
    requires n < |nodes|
  {
    Step(Plan(Active, Advanced(nodes, n), fallback), Update(nodes[n].id, Completed))
    == Plan(Active, Advanced(nodes, n + 1), fallback)
  }

  lemma CompleteNext(nodes: seq<Node>, n: nat, fallback: bool)
    requires Backward(nodes) && n < |nodes|
    ensures Advances(nodes, n, fallback)
  {
    var now := Advanced(nodes, n);
    assert UniqueIds(now);
    FindUnique(now, n);
    assert SetStatus(now, n, Completed) == Waiting(nodes, n + 1);
    NextStarts(nodes, n + 1);
  }

  /** A run whose steps are known one by one. */
  lemma {:induction false} RunThrough(plan: Plan, first: seq<Event>, steps: seq<Event>, states: seq<Plan>, n: nat)
    requires |states| == |steps| + 1 && Run(plan, first) == states[0] && n <= |steps|
    requires forall k :: 0 <= k < |steps| ==> Step(states[k], steps[k]) == states[k + 1]
    ensures Run(plan, first + steps[..n]) == states[n]
  {
    if n == 0 {
      assert first + steps[..0] == first;
    } else {
      RunThrough(plan, first, steps, states, n - 1);
      RunSnoc(plan, first + steps[..n - 1], steps[n - 1]);
      assert first + steps[..n] == (first + steps[..n - 1]) + [steps[n - 1]];
    }
  }

  /** Approving a plan that points backwards and completing whatever is in progress, one after
      the other, completes every node; exactly one node is in progress until then. */
  lemma BackwardPlanCompletes(nodes: seq<Node>, n: nat, fallback: bool)
    requires Backward(nodes) && AllPending(nodes) && n <= |nodes|
    ensures Run(Plan(Draft, nodes, fallback), Completions(nodes, n)) == Plan(Active, Advanced(nodes, n), fallback)
  {
    var states := Stages(nodes, n, fallback);
    ApproveStarts(nodes, fallback);
    forall k | 0 <= k < n ensures Step(states[k], Updates(nodes, n)[k]) == states[k + 1] {
      CompleteNext(nodes, k, fallback);
      assert Advances(nodes, k, fallback);
    }
    RunThrough(Plan(Draft, nodes, fallback), [Approve], Updates(nodes, n), states, n);
    assert Updates(nodes, n)[..n] == Updates(nodes, n);
  }

  /** The first write after the approval ends the scope node of an automatic fallback and starts the
      execution. */
  lemma WriteAdvancesFallback()
    ensures var nodes := Run(Plan(Draft, FallbackPlan(), true), [Approve, ObserveWrite]).nodes;
            && |nodes| == 3 && nodes[0].id == Id("scope") && nodes[1].id == Id("execute") && nodes[2].id == Id("verify")
            && nodes[0].status == Completed && nodes[1].status == InProgress && nodes[2].status == Pending
            && nodes[1].dependsOn == [Id("scope")] && nodes[2].dependsOn == [Id("execute")]
  {
    var nodes := FallbackPlan();
    FallbackIsBackward();
    ApproveStarts(nodes, true);
    var active := Plan(Active, Advanced(nodes, 0), true);
    RunSnoc(Plan(Draft, nodes, true), [Approve], ObserveWrite);
    assert [Approve] + [ObserveWrite] == [Approve, ObserveWrite];
    assert UniqueIds(active.nodes);
    FindUnique(active.nodes, 0);
    WriteExactly(active);
    CompleteNext(nodes, 0, true);
  }

  /** Validation alone does not exclude cycles, and a cycle never starts. */
  lemma CyclicPlanNeverStarts(left: Id, right: Id)
    requires left != right
    ensures var nodes := [Node(left, [right], [], Pending), Node(right, [left], [], Pending)];
            ValidPlan(nodes) && StartNext(nodes) == nodes
  {
    var nodes := [Node(left, [right], [], Pending), Node(right, [left], [], Pending)];
    assert Known(left, nodes) && Known(right, nodes) by {
      assert nodes[0].id == left && nodes[1].id == right;
    }
    FindUnique(nodes, 0);
    FindUnique(nodes, 1);
    assert left in nodes[1].dependsOn && right in nodes[0].dependsOn;
    assert !Ready(nodes, 0) && !Ready(nodes, 1);
  }
}
