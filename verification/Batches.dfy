/** One batch of tool calls in a conversation: the assistant message that makes the calls and the
    results that follow it at once. */
module Batches {
  import opened CallIds
  import opened Protocol
  import opened SessionRepair

  // ----- histories made of whole batches -----

  /** The calls that still wait for their result, unless something came between. */
  datatype State = Broken | Waiting(open: set<CallId>)

  /** A message that carries nothing but results, one per id: a tool message, or a user message
      with one or more result blocks. */
  predicate CarriesResults(m: Message) {
    OnlyResults(m) && GoodResults(m) && ResultIdsOf(m) != {}
  }

  function After(s: State, m: Message): State {
    if s.Broken? then Broken
    else if s.open == {} then (if ResultIdsOf(m) == {} then Waiting(CallIdsOf(m)) else Broken)
    else if CarriesResults(m) && ResultIdsOf(m) <= s.open then Waiting(s.open - ResultIdsOf(m))
    else Broken
  }

  function Batched(h: seq<Message>): State {
    if h == [] then Waiting({}) else After(Batched(h[..|h| - 1]), h[|h| - 1])
  }

  /** Each batch of calls is followed at once by exactly one result per call, in as many messages
      as the protocol likes. */
  predicate WellBatched(h: seq<Message>) {
    Batched(h) == Waiting({})
  }

  lemma {:induction false} BatchedSnoc(h: seq<Message>, m: Message)
    ensures Batched(h + [m]) == After(Batched(h), m)
  {
    assert (h + [m])[..|h|] == h;
  }

  /** Whole batches are more than pairing. */
  lemma {:induction false} BatchedIsOpen(h: seq<Message>)
    requires Batched(h).Waiting?
    ensures Open(h) == Batched(h).open && OrphanFree(h)
  {
    if h != [] {
      BatchedIsOpen(h[..|h| - 1]);
    }
  }

  /** Where the batch at the end of a history began, if one is still waiting. */
  function BatchStart(h: seq<Message>): nat {
    if h == [] then 0
    else if WellBatched(h[..|h| - 1]) then |h| - 1
    else BatchStart(h[..|h| - 1])
  }

  /** A waiting batch: whole batches, the message with the calls that still wait, and then nothing
      but results. */
  ghost predicate WaitsSince(h: seq<Message>, i: nat) {
    && i < |h| && WellBatched(h[..i]) && OnlyResultsBehind(h, i)
    && Batched(h).Waiting? && Batched(h).open <= CallIdsOf(h[i])
  }

  lemma {:induction false} BatchStartIs(h: seq<Message>)
    requires Batched(h).Waiting? && !WellBatched(h)
    ensures WaitsSince(h, BatchStart(h))
  {
    var front := h[..|h| - 1];
    if !WellBatched(front) {
      BatchStartIs(front);
      assert front[..BatchStart(h)] == h[..BatchStart(h)];
    }
  }

  /** There is only one such place: an assistant message is not a result. */
  lemma {:induction false} BatchStartIsUnique(h: seq<Message>, i: nat)
    requires WaitsSince(h, i) && !WellBatched(h)
    ensures i == BatchStart(h)
  {
    BatchStartIs(h);
    var id :| id in Batched(h).open;
    assert h[i].role == Assistant && h[BatchStart(h)].role == Assistant;
  }

  predicate IsPlain(m: Message) {
    CallIdsOf(m) == {} && ResultIdsOf(m) == {}
  }

  lemma {:induction false} AddPlain(h: seq<Message>, more: seq<Message>)
    requires WellBatched(h) && forall m :: m in more ==> IsPlain(m)
    ensures WellBatched(h + more)
  {
    if more == [] {
      assert h + more == h;
    } else {
      var front, last := more[..|more| - 1], more[|more| - 1];
      assert more == front + [last] && last in more && IsPlain(last);
      AddPlain(h, front);
      BatchedSnoc(h + front, last);
      assert h + more == (h + front) + [last];
    }
  }

  // ----- the messages of a batch -----

  function UseBlocks(calls: seq<Call>): seq<Block> {
    if calls == [] then []
    else
      var last := calls[|calls| - 1];
      UseBlocks(calls[..|calls| - 1]) + [ToolUse(last.id, last.name, last.arguments)]
  }

  /** `make_tool_calls_message` of the two protocols. */
  function CallsMessage(style: Style, calls: seq<Call>, text: string): Message {
    match style
    case OpenAI => Message(Assistant, if text == "" then NoContent else Text(text), calls, NO_CALL, "")
    case Anthropic => Plain(Assistant, Blocks((if text == "" then [] else [TextBlock(text)]) + UseBlocks(calls)))
  }

  function ResultMessage(style: Style, id: CallId, name: string, text: string): Message {
    match style
    case OpenAI => Message(Tool, Text(text), [], id, name)
    case Anthropic => Plain(User, Blocks([ToolResult(id, text, false)]))
  }

  /** The message makes just these calls, each with its name and arguments, behind the text. */
  ghost predicate Makes(m: Message, style: Style, calls: seq<Call>, text: string) {
    && m.role == Assistant
    && match style
       case OpenAI => m.calls == calls && m.content == if text == "" then NoContent else Text(text)
       case Anthropic =>
         && m.calls == [] && m.content.Blocks?
         && var blocks, first := m.content.blocks, if text == "" then 0 else 1;
            && |blocks| == first + |calls| && (first == 1 ==> blocks[0] == TextBlock(text))
            && forall k :: 0 <= k < |calls| ==>
                 blocks[first + k] == ToolUse(calls[k].id, calls[k].name, calls[k].arguments)
  }

  /** The message returns the text as the result of the call, and nothing else. */
  ghost predicate Returns(m: Message, style: Style, id: CallId, name: string, text: string) {
    match style
    case OpenAI => m.role == Tool && m.callId == id && m.name == name && m.content == Text(text) && m.calls == []
    case Anthropic =>
      m.role == User && m.content == Blocks([ToolResult(id, text, false)]) && m.calls == []
  }

  lemma {:induction false} UseBlocksAre(calls: seq<Call>)
    ensures |UseBlocks(calls)| == |calls|
    ensures forall k :: 0 <= k < |calls| ==>
              UseBlocks(calls)[k] == ToolUse(calls[k].id, calls[k].name, calls[k].arguments)
  {
    if calls != [] {
      UseBlocksAre(calls[..|calls| - 1]);
    }
  }

  lemma CallsMessageMakes(style: Style, calls: seq<Call>, text: string)
    ensures Makes(CallsMessage(style, calls, text), style, calls, text)
  {
    if style == Anthropic {
      UseBlocksAre(calls);
      BlocksBehindText(text, UseBlocks(calls));
    }
  }

  lemma BlocksBehindText(text: string, uses: seq<Block>)
    ensures var blocks, first := (if text == "" then [] else [TextBlock(text)]) + uses, if text == "" then 0 else 1;
            && |blocks| == first + |uses| && (first == 1 ==> blocks[0] == TextBlock(text))
            && forall k :: 0 <= k < |uses| ==> blocks[first + k] == uses[k]
  {
  }

  lemma ResultMessageReturns(style: Style, id: CallId, name: string, text: string)
    ensures Returns(ResultMessage(style, id, name, text), style, id, name, text)
  {
  }

  /** `now` is `before`, then the calls, then the result of each answered call, in order. */
  ghost predicate CarriesBatch(before: seq<Message>, now: seq<Message>, style: Style, calls: seq<Call>, text: string,
                               answered: seq<Call>, answer: Call -> string)
  {
    && |now| == |before| + 1 + |answered| && now[..|before|] == before
    && Makes(now[|before|], style, calls, text)
    && ReturnsAll(now, |before| + 1, style, answered, answer)
  }

  /** From position n on there is one result per call, in order. */
  ghost predicate ReturnsAll(now: seq<Message>, n: nat, style: Style, calls: seq<Call>, answer: Call -> string) {
    && |now| == n + |calls|
    && (calls == [] ||
        (var k := |calls| - 1;
         && Returns(now[n + k], style, calls[k].id, calls[k].name, answer(calls[k]))
         && ReturnsAll(now[..n + k], n, style, calls[..k], answer)))
  }

  lemma {:induction false} KthReturns(now: seq<Message>, n: nat, style: Style, calls: seq<Call>,
                                      answer: Call -> string, k: nat)
    requires ReturnsAll(now, n, style, calls, answer) && k < |calls|
    ensures n + k < |now| && Returns(now[n + k], style, calls[k].id, calls[k].name, answer(calls[k]))
  {
    var m := |calls| - 1;
    if k < m {
      KthReturns(now[..n + m], n, style, calls[..m], answer, k);
    }
  }

  function IdSetOf(calls: seq<Call>): set<CallId> {
    if calls == [] then {} else IdSetOf(calls[..|calls| - 1]) + {calls[|calls| - 1].id}
  }

  /** Ids are non-empty and distinct, as the agent checks while the response arrives. */
  predicate ValidCalls(calls: seq<Call>) {
    calls == [] ||
    (var front, last := calls[..|calls| - 1], calls[|calls| - 1];
     ValidCalls(front) && last.id != NO_CALL && last.id !in IdSetOf(front))
  }

  lemma {:induction false} ValidSnoc(calls: seq<Call>, c: Call)
    ensures IdSetOf(calls + [c]) == IdSetOf(calls) + {c.id}
    ensures ValidCalls(calls + [c]) <==> ValidCalls(calls) && c.id != NO_CALL && c.id !in IdSetOf(calls)
  {
    assert (calls + [c])[..|calls|] == calls;
  }

  lemma {:induction false} ValidAppend(left: seq<Call>, right: seq<Call>)
    ensures IdSetOf(left + right) == IdSetOf(left) + IdSetOf(right)
    ensures ValidCalls(left + right) <==> ValidCalls(left) && ValidCalls(right) && IdSetOf(left) !! IdSetOf(right)
  {
    if right == [] {
      assert left + right == left;
    } else {
      var front, last := right[..|right| - 1], right[|right| - 1];
      ValidAppend(left, front);
      ValidSnoc(left + front, last);
      assert left + right == (left + front) + [last];
    }
  }

  lemma {:induction false} UseBlocksSnoc(calls: seq<Call>, c: Call)
    ensures UseBlocks(calls + [c]) == UseBlocks(calls) + [ToolUse(c.id, c.name, c.arguments)]
    ensures UseIds(UseBlocks(calls + [c])) == UseIds(UseBlocks(calls)) + IdSet(c.id)
    ensures IdsOfCalls(calls + [c]) == IdsOfCalls(calls) + IdSet(c.id)
  {
    var b := ToolUse(c.id, c.name, c.arguments);
    assert (calls + [c])[..|calls|] == calls;
    assert (UseBlocks(calls) + [b])[..|UseBlocks(calls)|] == UseBlocks(calls);
  }

  lemma {:induction false} CallsMessageIds(calls: seq<Call>)
    requires ValidCalls(calls)
    ensures IdsOfCalls(calls) == UseIds(UseBlocks(calls)) == IdSetOf(calls)
  {
    if calls != [] {
      var front, last := calls[..|calls| - 1], calls[|calls| - 1];
      assert calls == front + [last];
      CallsMessageIds(front);
      UseBlocksSnoc(front, last);
    }
  }

  lemma {:induction false} UseIdsBehindText(text: string, blocks: seq<Block>)
    ensures UseIds([TextBlock(text)] + blocks) == UseIds(blocks)
  {
    var b := TextBlock(text);
    if blocks == [] {
      assert [b] + blocks == [b] && [b][..0] == [];
    } else {
      var n := |blocks| - 1;
      UseIdsBehindText(text, blocks[..n]);
      assert ([b] + blocks)[..n + 1] == [b] + blocks[..n];
    }
  }

  lemma {:induction false} CallsMessageOpens(style: Style, calls: seq<Call>, text: string)
    requires ValidCalls(calls)
    ensures CallIdsOf(CallsMessage(style, calls, text)) == IdSetOf(calls)
    ensures ResultIdsOf(CallsMessage(style, calls, text)) == {}
    ensures calls != [] ==> !Hollow(CallsMessage(style, calls, text))
  {
    CallsMessageIds(calls);
    if style == Anthropic {
      UseMessageOpens(calls, text);
    }
  }

  lemma {:induction false} UseMessageOpens(calls: seq<Call>, text: string)
    requires ValidCalls(calls)
    ensures var m := CallsMessage(Anthropic, calls, text);
            CallIdsOf(m) == IdSetOf(calls) && ResultIdsOf(m) == {} && (calls != [] ==> !Hollow(m))
  {
    TextAndUses(calls, text);
    BlocksMessageIds((if text == "" then [] else [TextBlock(text)]) + UseBlocks(calls));
  }

  lemma {:induction false} TextAndUses(calls: seq<Call>, text: string)
    requires ValidCalls(calls)
    ensures var blocks := (if text == "" then [] else [TextBlock(text)]) + UseBlocks(calls);
            UseIds(blocks) == IdSetOf(calls) && (calls != [] ==> blocks != [])
  {
    CallsMessageIds(calls);
    if text == "" {
      assert [] + UseBlocks(calls) == UseBlocks(calls);
    } else {
      UseIdsBehindText(text, UseBlocks(calls));
    }
  }

  lemma {:induction false} BlocksMessageIds(blocks: seq<Block>)
    ensures CallIdsOf(Plain(Assistant, Blocks(blocks))) == UseIds(blocks)
  {
    assert IdsOfCalls([]) == {};
  }

  lemma ResultMessageCloses(style: Style, id: CallId, name: string, text: string)
    requires id != NO_CALL
    ensures var m := ResultMessage(style, id, name, text);
            CarriesResults(m) && ResultIdsOf(m) == {id} && CallIdsOf(m) == {} && !Hollow(m)
  {
    var b := ToolResult(id, text, false);
    assert [b][..0] == [];
    assert ResultBlockIds([]) == {} && ResultList([]) == [];
    assert ResultList([b]) == [id];
  }

  lemma {:induction false} CarriedResultCloses(h: seq<Message>, open: set<CallId>, m: Message)
    requires Batched(h) == Waiting(open) && CarriesResults(m) && ResultIdsOf(m) <= open
    ensures Batched(h + [m]) == Waiting(OpenAfter(open, m))
  {
    BatchedSnoc(h, m);
    assert CallIdsOf(m) == {} && open != {};
  }

  /** Messages that carry only results close what they answer. */
  lemma {:induction false} CarriedResultsClose(h: seq<Message>, more: seq<Message>)
    requires Batched(h).Waiting? && forall m :: m in more ==> CarriesResults(m)
    requires OrphanFreeFrom(Batched(h).open, more)
    ensures Batched(h + more) == Waiting(OpenFrom(Batched(h).open, more))
  {
    if more == [] {
      assert h + more == h;
    } else {
      var front, last := more[..|more| - 1], more[|more| - 1];
      assert more == front + [last] && CarriesResults(last);
      CarriedResultsClose(h, front);
      CarriedResultCloses(h + front, OpenFrom(Batched(h).open, front), last);
      assert h + more == (h + front) + [last];
    }
  }

  function Results(style: Style, calls: seq<Call>, answer: Call -> string): (ms: seq<Message>)
    ensures |ms| == |calls|
    ensures forall i :: 0 <= i < |calls| ==> ms[i] == ResultMessage(style, calls[i].id, calls[i].name, answer(calls[i]))
  {
    seq(|calls|, i requires 0 <= i < |calls| => ResultMessage(style, calls[i].id, calls[i].name, answer(calls[i])))
  }

  lemma {:induction false} ResultsReturn(h: seq<Message>, style: Style, calls: seq<Call>, answer: Call -> string)
    ensures ReturnsAll(h + Results(style, calls, answer), |h|, style, calls, answer)
  {
    if calls != [] {
      var front, last := calls[..|calls| - 1], calls[|calls| - 1];
      ResultsReturn(h, style, front, answer);
      ResultMessageReturns(style, last.id, last.name, answer(last));
      assert (h + Results(style, calls, answer))[..|h| + |front|] == h + Results(style, front, answer);
    }
  }

  /** A batch in a history: every call with its name and arguments, and the k-th message behind them
      with the text of the k-th answer. */
  lemma BatchCarries(h: seq<Message>, style: Style, calls: seq<Call>, text: string, answered: seq<Call>,
                     answer: Call -> string)
    ensures CarriesBatch(h, h + [CallsMessage(style, calls, text)] + Results(style, answered, answer),
                         style, calls, text, answered, answer)
  {
    CallsMessageMakes(style, calls, text);
    ResultsReturn(h + [CallsMessage(style, calls, text)], style, answered, answer);
  }

  lemma ResultsSnoc(style: Style, calls: seq<Call>, c: Call, answer: Call -> string)
    ensures Results(style, calls + [c], answer) ==
            Results(style, calls, answer) + [ResultMessage(style, c.id, c.name, answer(c))]
  {
  }

  lemma {:induction false} ResultCloses(h: seq<Message>, open: set<CallId>, style: Style, c: Call, text: string)
    requires c.id != NO_CALL && c.id in open && Batched(h) == Waiting(open)
    ensures Batched(h + [ResultMessage(style, c.id, c.name, text)]) == Waiting(open - {c.id})
  {
    ResultMessageCloses(style, c.id, c.name, text);
    BatchedSnoc(h, ResultMessage(style, c.id, c.name, text));
  }

  /** Results of distinct waiting calls close them one by one. */
  lemma {:induction false} ResultsClose(h: seq<Message>, open: set<CallId>, style: Style, calls: seq<Call>,
                                        answer: Call -> string)
    requires ValidCalls(calls) && IdSetOf(calls) <= open && Batched(h) == Waiting(open)
    ensures Batched(h + Results(style, calls, answer)) == Waiting(open - IdSetOf(calls))
  {
    if calls == [] {
      assert h + Results(style, calls, answer) == h;
    } else {
      var front, last := calls[..|calls| - 1], calls[|calls| - 1];
      assert calls == front + [last];
      ResultsClose(h, open, style, front, answer);
      ResultsSnoc(style, front, last, answer);
      var before := h + Results(style, front, answer);
      ResultCloses(before, open - IdSetOf(front), style, last, answer(last));
      assert h + Results(style, calls, answer) == before + [ResultMessage(style, last.id, last.name, answer(last))];
      assert open - IdSetOf(front) - {last.id} == open - IdSetOf(calls);
    }
  }

  // ----- the order of results -----

  /** A read that is refused at once, a read that runs, or anything else. */
  datatype Kind = RefusedRead | Read | Write

  function OfKind(calls: seq<Call>, kind: Call -> Kind, k: Kind): seq<Call> {
    if calls == [] then []
    else
      var front, last := OfKind(calls[..|calls| - 1], kind, k), calls[|calls| - 1];
      if kind(last) == k then front + [last] else front
  }

  /** Refused reads, then the reads that ran, then the writes, each in call order. */
  function Order(calls: seq<Call>, kind: Call -> Kind): seq<Call> {
    OfKind(calls, kind, RefusedRead) + OfKind(calls, kind, Read) + OfKind(calls, kind, Write)
  }

  lemma {:induction false} OfKindSnoc(calls: seq<Call>, c: Call, kind: Call -> Kind, k: Kind)
    ensures OfKind(calls + [c], kind, k) == OfKind(calls, kind, k) + (if kind(c) == k then [c] else [])
  {
    assert (calls + [c])[..|calls|] == calls;
  }

  lemma {:induction false} OfKindIsValid(calls: seq<Call>, kind: Call -> Kind, k: Kind)
    requires ValidCalls(calls)
    ensures ValidCalls(OfKind(calls, kind, k)) && IdSetOf(OfKind(calls, kind, k)) <= IdSetOf(calls)
  {
    if calls != [] {
      var front, last := calls[..|calls| - 1], calls[|calls| - 1];
      OfKindIsValid(front, kind, k);
      ValidSnoc(OfKind(front, kind, k), last);
    }
  }

  lemma {:induction false} KindsDiffer(calls: seq<Call>, kind: Call -> Kind, k: Kind, other: Kind)
    requires ValidCalls(calls) && k != other
    ensures IdSetOf(OfKind(calls, kind, k)) !! IdSetOf(OfKind(calls, kind, other))
  {
    if calls != [] {
      var front, last := calls[..|calls| - 1], calls[|calls| - 1];
      KindsDiffer(front, kind, k, other);
      OfKindIsValid(front, kind, k);
      OfKindIsValid(front, kind, other);
      if kind(last) == k {
        ValidSnoc(OfKind(front, kind, k), last);
      } else if kind(last) == other {
        ValidSnoc(OfKind(front, kind, other), last);
      }
    }
  }

  lemma {:induction false} KindsPartition(calls: seq<Call>, kind: Call -> Kind)
    ensures IdSetOf(calls) == IdSetOf(OfKind(calls, kind, RefusedRead)) + IdSetOf(OfKind(calls, kind, Read))
                            + IdSetOf(OfKind(calls, kind, Write))
    ensures |calls| == |OfKind(calls, kind, RefusedRead)| + |OfKind(calls, kind, Read)| + |OfKind(calls, kind, Write)|
  {
    if calls != [] {
      var front, last := calls[..|calls| - 1], calls[|calls| - 1];
      KindsPartition(front, kind);
      ValidSnoc(OfKind(front, kind, kind(last)), last);
    }
  }

  /** Reordering loses no call and repeats none. */
  lemma {:induction false} OrderPermutes(calls: seq<Call>, kind: Call -> Kind)
    requires ValidCalls(calls)
    ensures var order := Order(calls, kind);
            ValidCalls(order) && |order| == |calls| && IdSetOf(order) == IdSetOf(calls)
  {
    KindsPartition(calls, kind);
    OfKindIsValid(calls, kind, RefusedRead);
    OfKindIsValid(calls, kind, Read);
    OfKindIsValid(calls, kind, Write);
    KindsDiffer(calls, kind, RefusedRead, Read);
    KindsDiffer(calls, kind, RefusedRead, Write);
    KindsDiffer(calls, kind, Read, Write);
    var r, v, w := OfKind(calls, kind, RefusedRead), OfKind(calls, kind, Read), OfKind(calls, kind, Write);
    ValidAppend(r, v);
    ValidAppend(r + v, w);
  }
}
