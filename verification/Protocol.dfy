/** Ids of tool calls, as the provider chose them. */
module CallIds {
  datatype CallId = CallId(text: string)
}

/** Conversation messages and the tool-call protocol: which calls a history has opened and not
    yet answered, and whether every result answers an open call. */
module Protocol {
  import opened CallIds

  datatype Role = System | User | Assistant | Tool

  datatype Block =
    | TextBlock(text: string)
    | Image(source: string)
    | ToolUse(id: CallId, name: string, input: string)
    | ToolResult(id: CallId, content: string, isError: bool)

  datatype Content = NoContent | Text(text: string) | Blocks(blocks: seq<Block>)

  datatype Call = Call(id: CallId, name: string, arguments: string)

  /** `calls` belong to assistant messages and `callId`, `name` to tool messages. */
  datatype Message = Message(role: Role, content: Content, calls: seq<Call>, callId: CallId, name: string)

  const NO_CALL := CallId("")

  function Plain(role: Role, content: Content): Message {
    Message(role, content, [], NO_CALL, "")
  }

  predicate Empty(c: Content) {
    c == NoContent || c == Text("") || c == Blocks([])
  }

  /** An assistant message without content and calls; it is never sent. */
  predicate Hollow(m: Message) {
    m.role == Assistant && Empty(m.content) && m.calls == []
  }

  // ----- what a message opens and closes -----

  function IdSet(id: CallId): set<CallId> {
    if id == NO_CALL then {} else {id}
  }

  function IdsOfCalls(calls: seq<Call>): set<CallId> {
    if calls == [] then {} else IdsOfCalls(calls[..|calls| - 1]) + IdSet(calls[|calls| - 1].id)
  }

  function UseIds(blocks: seq<Block>): set<CallId> {
    if blocks == [] then {}
    else
      var last := blocks[|blocks| - 1];
      UseIds(blocks[..|blocks| - 1]) + (if last.ToolUse? then IdSet(last.id) else {})
  }

  function ResultBlockIds(blocks: seq<Block>): set<CallId> {
    if blocks == [] then {}
    else
      var last := blocks[|blocks| - 1];
      ResultBlockIds(blocks[..|blocks| - 1]) + (if last.ToolResult? then IdSet(last.id) else {})
  }

  function CallIdsOf(m: Message): set<CallId> {
    if m.role != Assistant then {}
    else IdsOfCalls(m.calls) + (if m.content.Blocks? then UseIds(m.content.blocks) else {})
  }

  function ResultIdsOf(m: Message): set<CallId> {
    if m.role == Tool then IdSet(m.callId)
    else if m.role == User && m.content.Blocks? then ResultBlockIds(m.content.blocks)
    else {}
  }

  predicate HasImage(m: Message) {
    m.content.Blocks? && exists b :: b in m.content.blocks && b.Image?
  }

  // ----- open calls of a history -----

  function OpenAfter(open: set<CallId>, m: Message): set<CallId> {
    open + CallIdsOf(m) - ResultIdsOf(m)
  }

  function OpenFrom(open: set<CallId>, h: seq<Message>): set<CallId> {
    if h == [] then open else OpenAfter(OpenFrom(open, h[..|h| - 1]), h[|h| - 1])
  }

  /** The calls a history leaves without a result. */
  function Open(h: seq<Message>): set<CallId> {
    OpenFrom({}, h)
  }

  predicate OrphanFreeFrom(open: set<CallId>, h: seq<Message>) {
    h == [] ||
    (var front, last := h[..|h| - 1], h[|h| - 1];
     OrphanFreeFrom(open, front) && ResultIdsOf(last) <= OpenFrom(open, front))
  }

  /** Every result answers a call that is open when it arrives. */
  predicate OrphanFree(h: seq<Message>) {
    OrphanFreeFrom({}, h)
  }

  /** What a provider accepts: no unanswered call, no orphan result. */
  predicate Paired(h: seq<Message>) {
    Open(h) == {} && OrphanFree(h)
  }

  lemma {:induction false} OpenSnoc(open: set<CallId>, h: seq<Message>, m: Message)
    ensures OpenFrom(open, h + [m]) == OpenAfter(OpenFrom(open, h), m)
    ensures OrphanFreeFrom(open, h + [m]) <==> OrphanFreeFrom(open, h) && ResultIdsOf(m) <= OpenFrom(open, h)
  {
    assert (h + [m])[..|h|] == h;
  }

  /** Histories compose. */
  lemma {:induction false} OpenAppend(open: set<CallId>, left: seq<Message>, right: seq<Message>)
    ensures OpenFrom(open, left + right) == OpenFrom(OpenFrom(open, left), right)
    ensures OrphanFreeFrom(open, left + right) <==>
            OrphanFreeFrom(open, left) && OrphanFreeFrom(OpenFrom(open, left), right)
  {
    if right == [] {
      assert left + right == left;
    } else {
      var front, last := right[..|right| - 1], right[|right| - 1];
      OpenAppend(open, left, front);
      OpenSnoc(open, left + front, last);
      assert left + right == (left + front) + [last];
    }
  }

  /** A history can be cut where nothing is open. */
  lemma CutWhereClosed(h: seq<Message>, k: nat)
    requires k <= |h| && Open(h[..k]) == {}
    ensures Open(h[k..]) == Open(h)
    ensures OrphanFree(h) <==> OrphanFree(h[..k]) && OrphanFree(h[k..])
  {
    OpenAppend({}, h[..k], h[k..]);
    assert h[..k] + h[k..] == h;
  }

  lemma {:induction false} OrphanFreePrefix(h: seq<Message>, n: nat)
    requires OrphanFree(h) && n <= |h|
    ensures OrphanFree(h[..n])
    decreases |h|
  {
    if n == |h| {
      assert h[..n] == h;
    } else {
      OrphanFreePrefix(h[..|h| - 1], n);
      assert h[..|h| - 1][..n] == h[..n];
    }
  }

  // ----- distinct call ids -----

  function CalledIds(h: seq<Message>): set<CallId> {
    if h == [] then {} else CalledIds(h[..|h| - 1]) + CallIdsOf(h[|h| - 1])
  }

  /** No two messages call under the same id. */
  predicate DistinctCalls(h: seq<Message>) {
    h == [] || (DistinctCalls(h[..|h| - 1]) && CallIdsOf(h[|h| - 1]) !! CalledIds(h[..|h| - 1]))
  }

  lemma {:induction false} OpenIsCalled(h: seq<Message>)
    ensures Open(h) <= CalledIds(h)
  {
    if h != [] {
      OpenIsCalled(h[..|h| - 1]);
    }
  }

  lemma {:induction false} CalledInPrefix(h: seq<Message>, n: nat)
    requires n <= |h|
    ensures CalledIds(h[..n]) <= CalledIds(h)
    decreases |h|
  {
    if n == |h| {
      assert h[..n] == h;
    } else {
      CalledInPrefix(h[..|h| - 1], n);
      assert h[..|h| - 1][..n] == h[..n];
    }
  }
}
