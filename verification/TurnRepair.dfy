/** Closing the tool calls a failed turn left open: one synthetic result per call made since the
    turn started. */
module TurnRepair {
  import opened CallIds
  import opened Filters
  import opened Protocol
  import opened History
  import opened SessionRepair
  import opened Batches
  import Summarizer

  const RECOVERY_TEXT := "[运行中断] 此工具调用的最终状态未知；磁盘或外部系统可能已经发生变化。"
                         + "继续前必须先检查实际状态，不要盲目重试。"

  // ----- the calls still pending -----

  /** Popping ids that may be missing. */
  function DelEach(opens: seq<Entry>, ids: seq<CallId>): seq<Entry> {
    if ids == [] then opens else Del(DelEach(opens, ids[..|ids| - 1]), ids[|ids| - 1])
  }

  /** The table of pending calls behind one more message. */
  function Noted(opens: seq<Entry>, m: Message): seq<Entry> {
    match m.role
    case Assistant =>
      var mid := PutCalls(opens, m.calls, 0);
      if m.content.Blocks? then PutUses(mid, m.content.blocks, 0) else mid
    case Tool => Del(opens, m.callId)
    case User => if m.content.Blocks? then DelEach(opens, ResultList(m.content.blocks)) else opens
    case System => opens
  }

  function Pending(h: seq<Message>): seq<Entry> {
    if h == [] then [] else Noted(Pending(h[..|h| - 1]), h[|h| - 1])
  }

  lemma {:induction false} DelEachEntries(opens: seq<Entry>, ids: seq<CallId>)
    requires DistinctIds(opens)
    ensures DistinctIds(DelEach(opens, ids))
    ensures forall x :: x in DelEach(opens, ids) <==> x in opens && x.id !in ids
  {
    if ids != [] {
      var front, last := ids[..|ids| - 1], ids[|ids| - 1];
      assert ids == front + [last];
      DelEachEntries(opens, front);
      DelEntries(DelEach(opens, front), last);
    }
  }

  ghost predicate Table(opens: seq<Entry>, open: set<CallId>) {
    DistinctIds(opens) && Ids(opens) == open && NO_CALL !in open
  }

  lemma NotedTracks(opens: seq<Entry>, open: set<CallId>, m: Message)
    requires Table(opens, open)
    ensures Table(Noted(opens, m), OpenAfter(open, m))
  {
    match m.role
    case Assistant => NotedCalls(opens, open, m);
    case Tool =>
      DelEntries(opens, m.callId);
      DelIds(opens, Del(opens, m.callId), {m.callId});
    case User =>
      if m.content.Blocks? {
        var ids := ResultList(m.content.blocks);
        DelEachEntries(opens, ids);
        DelIds(opens, DelEach(opens, ids), set id | id in ids);
        ResultListIds(m.content.blocks);
      }
    case System =>
  }

  lemma NotedCalls(opens: seq<Entry>, open: set<CallId>, m: Message)
    requires Table(opens, open) && m.role == Assistant
    ensures Table(Noted(opens, m), open + CallIdsOf(m))
  {
    assert Extends(opens, opens, {}, 0);
    PutCallsExtends(opens, opens, {}, m.calls, 0);
    IdsNonEmpty(m.calls);
    if m.content.Blocks? {
      PutUsesExtends(PutCalls(opens, m.calls, 0), m.content.blocks, 0);
      UsesNonEmpty(m.content.blocks);
    }
  }

  /** The scan finds exactly the calls left open. */
  lemma {:induction false} PendingIsOpen(h: seq<Message>)
    ensures Table(Pending(h), Open(h))
  {
    if h != [] {
      PendingIsOpen(h[..|h| - 1]);
      NotedTracks(Pending(h[..|h| - 1]), Open(h[..|h| - 1]), h[|h| - 1]);
    }
  }

  /** The last message that calls under this id does so with this name. */
  ghost predicate LastCalledAs(h: seq<Message>, id: CallId, name: string) {
    exists i ::
      && 0 <= i < |h| && (CallsAs(h[i], id, name, OpenAI) || CallsAs(h[i], id, name, Anthropic))
      && forall j :: i < j < |h| ==> id !in CallIdsOf(h[j])
  }

  ghost predicate AllCalled(opens: seq<Entry>, h: seq<Message>) {
    forall e :: e in opens ==> LastCalledAs(h, e.id, e.name)
  }

  lemma StillLast(h: seq<Message>, m: Message, id: CallId, name: string)
    requires LastCalledAs(h, id, name) && id !in CallIdsOf(m)
    ensures LastCalledAs(h + [m], id, name)
  {
    var i :| && 0 <= i < |h| && (CallsAs(h[i], id, name, OpenAI) || CallsAs(h[i], id, name, Anthropic))
             && forall j :: i < j < |h| ==> id !in CallIdsOf(h[j]);
    assert (h + [m])[i] == h[i];
  }

  lemma CalledLast(h: seq<Message>, m: Message, id: CallId, name: string, style: Style)
    requires CallsAs(m, id, name, style)
    ensures LastCalledAs(h + [m], id, name)
  {
    assert (h + [m])[|h|] == m;
  }

  /** What an assistant message leaves in the table: its own calls, and older ones with other ids. */
  lemma NotedFrom(opens: seq<Entry>, m: Message)
    requires DistinctIds(opens) && m.role == Assistant
    ensures forall e :: e in Noted(opens, m) ==>
              || CallsAs(m, e.id, e.name, OpenAI) || CallsAs(m, e.id, e.name, Anthropic)
              || (e in opens && e.id !in CallIdsOf(m))
  {
    PutCallsFrom(opens, m.calls, 0);
    if m.content.Blocks? {
      PutUsesFrom(PutCalls(opens, m.calls, 0), m.content.blocks, 0);
    }
  }

  lemma NotedCalled(opens: seq<Entry>, h: seq<Message>, m: Message)
    requires DistinctIds(opens) && AllCalled(opens, h)
    ensures AllCalled(Noted(opens, m), h + [m])
  {
    if m.role == Assistant {
      NotedFrom(opens, m);
    } else {
      DelEntries(opens, m.callId);
      if m.content.Blocks? {
        DelEachEntries(opens, ResultList(m.content.blocks));
      }
    }
    forall e | e in Noted(opens, m) ensures LastCalledAs(h + [m], e.id, e.name) {
      if CallsAs(m, e.id, e.name, OpenAI) {
        CalledLast(h, m, e.id, e.name, OpenAI);
      } else if CallsAs(m, e.id, e.name, Anthropic) {
        CalledLast(h, m, e.id, e.name, Anthropic);
      } else {
        StillLast(h, m, e.id, e.name);
      }
    }
  }

  lemma {:induction false} PendingCalled(h: seq<Message>)
    ensures AllCalled(Pending(h), h)
  {
    if h != [] {
      var front, last := h[..|h| - 1], h[|h| - 1];
      PendingIsOpen(front);
      PendingCalled(front);
      NotedCalled(Pending(front), front, last);
      assert h == front + [last];
    }
  }

  // ----- the repair -----

  function Suffix(h: seq<Message>, start: nat): seq<Message> {
    if start <= |h| then h[start..] else []
  }

  function AsCalls(opens: seq<Entry>): seq<Call> {
    if opens == [] then []
    else
      var last := opens[|opens| - 1];
      AsCalls(opens[..|opens| - 1]) + [Call(last.id, last.name, "")]
  }

  function Recovery(c: Call): string {
    RECOVERY_TEXT
  }

  function Recoveries(style: Style, h: seq<Message>, start: nat): seq<Message> {
    Results(style, AsCalls(Pending(Suffix(h, start))), Recovery)
  }

  /** The history after the repair of a turn that began at `start`. */
  function TurnRepaired(style: Style, h: seq<Message>, start: nat): seq<Message> {
    h + Recoveries(style, Select(h, Sendable), start)
  }

  method RepairUnpairedToolCalls(history: ConversationHistory, style: Style, start: nat)
    modifies history`messages
    ensures history.messages == TurnRepaired(style, old(history.messages), start)
  {
    var sent := history.GetMessages();
    var messages := Suffix(sent, start);
    var pending: seq<Entry> := [];
    for n := 0 to |messages|
      invariant pending == Pending(messages[..n])
      invariant history.messages == old(history.messages)
    {
      assert messages[..n + 1][..n] == messages[..n];
      pending := Noted(pending, messages[n]);
    }
    assert messages[..|messages|] == messages;
    var calls := AsCalls(pending);
    for n := 0 to |calls|
      invariant history.messages == old(history.messages) + Results(style, calls, Recovery)[..n]
    {
      var m := ResultMessage(style, calls[n].id, calls[n].name, RECOVERY_TEXT);
      assert !Hollow(m);
      history.AddRawMessage(m);
    }
  }

  lemma {:induction false} AsCallsAreValid(opens: seq<Entry>)
    requires DistinctIds(opens) && NO_CALL !in Ids(opens)
    ensures ValidCalls(AsCalls(opens)) && IdSetOf(AsCalls(opens)) == Ids(opens)
  {
    if opens != [] {
      var front, last := opens[..|opens| - 1], opens[|opens| - 1];
      assert opens == front + [last];
      IdsSnoc(front, last);
      AsCallsAreValid(front);
      ValidSnoc(AsCalls(front), Call(last.id, last.name, ""));
    }
  }

  /** Results of distinct calls take just these out of the open set, orphans or not. */
  lemma {:induction false} ResultsSubtract(open: set<CallId>, style: Style, calls: seq<Call>, answer: Call -> string)
    requires ValidCalls(calls)
    ensures OpenFrom(open, Results(style, calls, answer)) == open - IdSetOf(calls)
  {
    if calls != [] {
      var front, last := calls[..|calls| - 1], calls[|calls| - 1];
      assert calls == front + [last];
      ResultsSubtract(open, style, front, answer);
      ResultsSnoc(style, front, last, answer);
      var m := ResultMessage(style, last.id, last.name, answer(last));
      ResultMessageCloses(style, last.id, last.name, answer(last));
      OpenSnoc(open, Results(style, front, answer), m);
    }
  }

  ghost predicate AllSendable(h: seq<Message>) {
    forall m :: m in h ==> Sendable(m)
  }

  lemma {:induction false} SentIsAll(h: seq<Message>)
    requires AllSendable(h)
    ensures Select(h, Sendable) == h
  {
    SelectShortens(h, Sendable);
  }

  lemma {:induction false} PendingCalls(h: seq<Message>)
    ensures ValidCalls(AsCalls(Pending(h))) && IdSetOf(AsCalls(Pending(h))) == Open(h)
  {
    PendingIsOpen(h);
    AsCallsAreValid(Pending(h));
  }

  lemma RepairedForm(style: Style, h: seq<Message>, start: nat)
    requires AllSendable(h)
    ensures TurnRepaired(style, h, start) == h + Results(style, AsCalls(Pending(Suffix(h, start))), Recovery)
  {
    SentIsAll(h);
  }

  lemma {:induction false} AsCallsAre(opens: seq<Entry>)
    ensures |AsCalls(opens)| == |opens|
    ensures forall k :: 0 <= k < |opens| ==>
              AsCalls(opens)[k].id == opens[k].id && AsCalls(opens)[k].name == opens[k].name
  {
    if opens != [] {
      AsCallsAre(opens[..|opens| - 1]);
    }
  }

  /** Each message the repair appends says that the state of an open call is unknown, under the id and
      the name of the call. */
  lemma RepairSays(style: Style, h: seq<Message>, start: nat, k: nat)
    requires AllSendable(h) && |h| <= k < |TurnRepaired(style, h, start)|
    ensures h <= TurnRepaired(style, h, start)
    ensures exists id, name ::
              && Returns(TurnRepaired(style, h, start)[k], style, id, name, RECOVERY_TEXT)
              && LastCalledAs(Suffix(h, start), id, name) && id in Open(Suffix(h, start))
  {
    RepairedForm(style, h, start);
    var opens := Pending(Suffix(h, start));
    AsCallsAre(opens);
    var e := opens[k - |h|];
    PendingCalled(Suffix(h, start));
    PendingIsOpen(Suffix(h, start));
    ResultMessageReturns(style, e.id, e.name, RECOVERY_TEXT);
    assert e in opens && e.id in Ids(opens);
  }

  /** Exactly the calls left open since the start are closed. */
  lemma RepairSubtracts(style: Style, h: seq<Message>, start: nat)
    requires AllSendable(h)
    ensures Open(TurnRepaired(style, h, start)) == Open(h) - Open(Suffix(h, start))
  {
    RepairedForm(style, h, start);
    var calls := AsCalls(Pending(Suffix(h, start)));
    PendingCalls(Suffix(h, start));
    ResultsSubtract(Open(h), style, calls, Recovery);
    OpenAppend({}, h, Results(style, calls, Recovery));
  }

  lemma {:induction false} ResultsCloseAll(h: seq<Message>, style: Style, calls: seq<Call>)
    requires ValidCalls(calls) && Batched(h) == Waiting(IdSetOf(calls))
    ensures WellBatched(h + Results(style, calls, Recovery))
  {
    ResultsClose(h, IdSetOf(calls), style, calls, Recovery);
  }

  lemma {:induction false} OpenGrows(less: set<CallId>, more: set<CallId>, h: seq<Message>)
    requires less <= more
    ensures OpenFrom(less, h) <= OpenFrom(more, h)
  {
    if h != [] {
      OpenGrows(less, more, h[..|h| - 1]);
    }
  }

  lemma {:induction false} ResultsOpenNothing(ms: seq<Message>)
    requires forall m :: m in ms ==> OnlyResults(m)
    ensures Open(ms) == {}
  {
    if ms != [] {
      var front, last := ms[..|ms| - 1], ms[|ms| - 1];
      assert ms == front + [last] && OnlyResults(last);
      ResultsOpenNothing(front);
    }
  }

  /** A paired history has nothing open from any message on either. */
  lemma ClosedSince(h: seq<Message>, start: nat)
    requires Open(h) == {}
    ensures Open(Suffix(h, start)) == {}
  {
    if start <= |h| {
      OpenAppend({}, h[..start], h[start..]);
      assert h[..start] + h[start..] == h;
      OpenGrows({}, Open(h[..start]), h[start..]);
    }
  }

  lemma OpenSinceBefore(h: seq<Message>, i: nat, start: nat)
    requires start <= i <= |h| && Open(h[..i]) == {}
    ensures Open(h[start..]) == Open(h)
  {
    var front := h[..i];
    ClosedSince(front, start);
    assert front[start..] == h[start..i];
    OpenAppend({}, h[start..i], h[i..]);
    assert h[start..i] + h[i..] == h[start..];
    CutWhereClosed(h, i);
  }

  /** Seen from anywhere before its calls, the waiting batch is what is open; seen from behind
      them nothing is. */
  lemma OpenSinceBatch(h: seq<Message>, i: nat, start: nat)
    requires WaitsSince(h, i)
    ensures Open(Suffix(h, start)) == if start <= i then Open(h) else {}
  {
    if start <= i {
      BatchedIsOpen(h[..i]);
      OpenSinceBefore(h, i, start);
    } else {
      ResultsOpenNothing(Suffix(h, start));
    }
  }

  /** However a turn was interrupted, its repair leaves whole batches exactly if no call was
      waiting or the waiting batch began at the start index or later.  Otherwise every waiting
      call stays open. */
  lemma {:induction false} RepairClosesExactly(style: Style, h: seq<Message>, start: nat)
    requires AllSendable(h) && Batched(h).Waiting?
    ensures var whole, repaired := WellBatched(h) || start <= BatchStart(h), TurnRepaired(style, h, start);
            && (WellBatched(repaired) <==> whole)
            && Open(repaired) == (if whole then {} else Batched(h).open)
  {
    RepairedForm(style, h, start);
    RepairSubtracts(style, h, start);
    var since := Suffix(h, start);
    PendingCalls(since);
    BatchedIsOpen(h);
    if WellBatched(h) {
      ClosedSince(h, start);
    } else {
      BatchStartIs(h);
      OpenSinceBatch(h, BatchStart(h), start);
    }
    if Open(since) == Batched(h).open {
      ResultsCloseAll(h, style, AsCalls(Pending(since)));
    } else if WellBatched(TurnRepaired(style, h, start)) {
      BatchedIsOpen(TurnRepaired(style, h, start));
    }
  }

  /** Where nothing was open at the start, the waiting batch is a later one. */
  lemma {:induction false} GrownBatchIsNew(h: seq<Message>, start: nat)
    requires start <= |h| && Open(h[..start]) == {} && Batched(h).Waiting? && !WellBatched(h)
    ensures start <= BatchStart(h)
  {
    BatchStartIs(h);
    BatchedIsOpen(h);
    CutWhereClosed(h, start);
    OpenSinceBatch(h, BatchStart(h), start);
  }

  /** In particular a turn is repaired that began with nothing open and has not shrunk since. */
  lemma {:induction false} FreshTurnIsRepaired(style: Style, h: seq<Message>, start: nat)
    requires AllSendable(h) && start <= |h| && Open(h[..start]) == {} && Batched(h).Waiting?
    ensures WellBatched(TurnRepaired(style, h, start))
  {
    RepairClosesExactly(style, h, start);
    if !WellBatched(h) {
      GrownBatchIsNew(h, start);
    }
  }

  /** A history that has become shorter than it was at the start is not repaired at all. */
  lemma ShrunkHistoryIsNotRepaired(style: Style, h: seq<Message>, start: nat)
    requires AllSendable(h) && |h| <= start
    ensures TurnRepaired(style, h, start) == h
  {
    SentIsAll(h);
    assert Suffix(h, start) == [];
    assert h + [] == h;
  }

  lemma ResultsAreSendable(h: seq<Message>, style: Style, calls: seq<Call>, answer: Call -> string)
    requires AllSendable(h)
    ensures AllSendable(h + Results(style, calls, answer))
  {
    forall m | m in Results(style, calls, answer) ensures Sendable(m) {
    }
  }

  lemma {:induction false} RecoveriesSettle(style: Style, since: seq<Message>)
    ensures Pending(since + Results(style, AsCalls(Pending(since)), Recovery)) == []
  {
    var more := Results(style, AsCalls(Pending(since)), Recovery);
    PendingCalls(since);
    OpenAppend({}, since, more);
    ResultsSubtract(Open(since), style, AsCalls(Pending(since)), Recovery);
    PendingIsOpen(since + more);
    NothingOpen(Pending(since + more));
  }

  /** Repairing twice adds nothing. */
  lemma RepairIsIdempotent(style: Style, h: seq<Message>, start: nat)
    requires AllSendable(h)
    ensures TurnRepaired(style, TurnRepaired(style, h, start), start) == TurnRepaired(style, h, start)
  {
    RepairedForm(style, h, start);
    var since := Suffix(h, start);
    var more := Results(style, AsCalls(Pending(since)), Recovery);
    ResultsAreSendable(h, style, AsCalls(Pending(since)), Recovery);
    RepairedForm(style, h + more, start);
    assert Suffix(h + more, start) == since + more;
    RecoveriesSettle(style, since);
    assert Results(style, AsCalls([]), Recovery) == [];
  }

  // ----- compression -----

  lemma {:induction false} BatchedPrefix(h: seq<Message>, n: nat)
    requires n <= |h| && Batched(h).Waiting?
    ensures Batched(h[..n]).Waiting?
    decreases |h|
  {
    if n == |h| {
      assert h[..n] == h;
    } else {
      BatchedPrefix(h[..|h| - 1], n);
      assert h[..|h| - 1][..n] == h[..n];
    }
  }

  lemma SplitLast(left: seq<Message>, rest: seq<Message>)
    requires rest != []
    ensures (left + rest[..|rest| - 1]) + [rest[|rest| - 1]] == left + rest
  {
  }

  lemma {:induction false} BatchedFrom(left: seq<Message>, other: seq<Message>, rest: seq<Message>)
    requires Batched(left) == Batched(other)
    ensures Batched(left + rest) == Batched(other + rest)
  {
    if rest == [] {
      assert left + rest == left && other + rest == other;
    } else {
      var front, last := rest[..|rest| - 1], rest[|rest| - 1];
      BatchedFrom(left, other, front);
      BatchedSnoc(left + front, last);
      BatchedSnoc(other + front, last);
      SplitLast(left, rest);
      SplitLast(other, rest);
    }
  }

  lemma {:induction false} CutKeepsBatches(h: seq<Message>, split: nat, text: string)
    requires Batched(h).Waiting? && split <= |h| && Open(h[..split]) == {}
    ensures Batched([Summarizer.SummaryMessage(text), Summarizer.BoundaryMessage()] + h[split..]) == Batched(h)
  {
    BatchedPrefix(h, split);
    BatchedIsOpen(h[..split]);
    PairIsBatched(text);
    BatchedFrom([Summarizer.SummaryMessage(text), Summarizer.BoundaryMessage()], h[..split], h[split..]);
    assert h[..split] + h[split..] == h;
  }

  /** Compressing a history splits no batch. */
  lemma {:induction false} CompressionKeepsBatches(h: seq<Message>, reply: Summarizer.Reply)
    requires Batched(h).Waiting?
    ensures Batched(Summarizer.Summarized(h, reply)) == Batched(h)
  {
    var outcome := Summarizer.Attempt(h, reply);
    if outcome.Compressed? {
      CutKeepsBatches(h, outcome.count, reply.text);
    }
  }

  lemma PairIsBatched(text: string)
    ensures WellBatched([Summarizer.SummaryMessage(text), Summarizer.BoundaryMessage()])
  {
    var pair := [Summarizer.SummaryMessage(text), Summarizer.BoundaryMessage()];
    Summarizer.PairIsNeutral(text);
    AddPlain([], pair);
    assert [] + pair == pair;
  }
}
