/** One turn of the agent: rounds of model requests and tool batches over a shared history, until
    the model answers without tools, the budget is used up, or something fails.  What the model
    replies, which tools are refused, what fails and what users queue meanwhile is decided by the
    environment. */
module AgentTurn {
  import opened Wrappers
  import opened Spaces
  import opened Chunks
  import opened CallIds
  import opened Filters
  import opened Protocol
  import opened History
  import opened SessionRepair
  import opened Batches
  import opened TurnRepair
  import opened ToolRound
  import opened RoundBudget
  import Summarizer

  const MAX_PARALLEL_TOOL_CALLS := 128

  /** What the provider stream delivers before anything is executed: a text in parts, and calls. */
  datatype ModelReply = StreamCancelled | Refused(code: string) | StreamRaised
                      | Reply(parts: seq<string>, calls: seq<Call>)

  datatype RoundInput = RoundInput(
    cancelled: bool,
    injections: seq<string>,
    compression: Option<Summarizer.Reply>,
    overflow: bool,
    pinned: seq<string>,
    hook: string,
    reply: ModelReply,
    kind: Call -> Kind,
    answer: Call -> string,
    stop: ToolRound.Stop,
    raisedEarly: bool,
    raisedUnsent: bool,
    raisedLate: bool,
    cause: Cause,
    background: seq<string>,
    steering: seq<string>,
    deferred: seq<string>,
    toolsAfter: bool,
    stalled: bool,
    stall: StallDecision,
    limit: LimitDecision)

  /** What ends a turn from inside or outside: an error, a cancellation from outside, or
      a consumer of its events that closes the stream. */
  datatype Cause = Error | Aborted | StreamClosed

  /** How the rounds ended: with a terminal event, with a cancellation that leaves writes
      unanswered (which also has its terminal event), or with an exception that leaves the batch
      that began at `began` with unanswered calls, if any are left. */
  datatype Exit = Closed | BetweenWrites(left: seq<Call>) | Raised(cause: Cause, left: seq<Call>, began: nat)

  datatype Next = Go(budget: Budget, tools: bool) | Leave(exit: Exit)

  /** An exception outside any batch. */
  function Quit(cause: Cause, h: seq<Message>): Next {
    Leave(Exit.Raised(cause, [], |h|))
  }

  predicate Blank(text: string) {
    forall c :: c in text ==> IsSpace(c)
  }

  /** What a provider is sent: pinned context, the history, and a hook's text. */
  function Assembled(pinned: seq<string>, h: seq<Message>, hook: string): seq<Message> {
    UserTexts(pinned) + h + HookMessages(hook)
  }

  /** What is sent: the pinned texts as user messages, then the history, verbatim and in order, and
      then the text of a hook, if there is one. */
  ghost predicate IsRequest(request: seq<Message>, pinned: seq<string>, h: seq<Message>, hook: string) {
    var n := |pinned|;
    && |request| == n + |h| + (if hook == "" then 0 else 1)
    && (forall i :: 0 <= i < n ==> request[i] == Message(User, Text(pinned[i]), [], NO_CALL, ""))
    && request[n..n + |h|] == h
    && (hook != "" ==> request[n + |h|] == Message(User, Text("[Hook Injection]\n" + hook), [], NO_CALL, ""))
  }

  lemma AssembledIsRequest(pinned: seq<string>, h: seq<Message>, hook: string)
    ensures IsRequest(Assembled(pinned, h, hook), pinned, h, hook)
  {
  }

  /** Histories that only grow, from `base` to `now`. */
  ghost predicate Chain(base: seq<Message>, sent: seq<seq<Message>>, now: seq<Message>) {
    if sent == [] then base <= now
    else
      var front, last := sent[..|sent| - 1], sent[|sent| - 1];
      Chain(base, front, last) && last <= now
  }

  lemma {:induction false} ChainGrows(base: seq<Message>, sent: seq<seq<Message>>, now: seq<Message>,
                                      later: seq<Message>)
    requires Chain(base, sent, now) && now <= later
    ensures Chain(base, sent, later)
  {
  }

  lemma {:induction false} ChainSnoc(base: seq<Message>, sent: seq<seq<Message>>, h: seq<Message>, now: seq<Message>)
    requires Chain(base, sent, h) && h <= now
    ensures Chain(base, sent + [h], now)
  {
    assert (sent + [h])[..|sent|] == sent;
  }

  /** Each of them holds all of the earlier ones. */
  lemma {:induction false} ChainHolds(base: seq<Message>, sent: seq<seq<Message>>, now: seq<Message>, i: nat, j: nat)
    requires Chain(base, sent, now) && i <= j < |sent|
    ensures base <= sent[i] <= sent[j] <= now
  {
    var n := |sent| - 1;
    if j < n {
      ChainHolds(base, sent[..n], sent[n], i, j);
    } else if i < n {
      ChainHolds(base, sent[..n], sent[n], i, i);
    } else {
      ChainStarts(base, sent[..n], sent[n]);
    }
  }

  lemma {:induction false} ChainStarts(base: seq<Message>, sent: seq<seq<Message>>, now: seq<Message>)
    requires Chain(base, sent, now)
    ensures base <= now
  {
    if sent != [] {
      ChainStarts(base, sent[..|sent| - 1], sent[|sent| - 1]);
    }
  }

  /** Request k is made of history k, for what the environment pins and injects in that round. */
  ghost predicate AreRequests(requests: seq<seq<Message>>, sent: seq<seq<Message>>, env: nat -> RoundInput) {
    && |requests| == |sent|
    && (sent == [] ||
        (var n := |sent| - 1;
         && AreRequests(requests[..n], sent[..n], env)
         && IsRequest(requests[n], env(n + 1).pinned, sent[n], env(n + 1).hook)))
  }

  /** So every request of a turn holds the history of its round. */
  lemma {:induction false} KthRequest(requests: seq<seq<Message>>, sent: seq<seq<Message>>, env: nat -> RoundInput,
                                      k: nat)
    requires AreRequests(requests, sent, env) && k < |sent|
    ensures IsRequest(requests[k], env(k + 1).pinned, sent[k], env(k + 1).hook)
  {
    var n := |sent| - 1;
    if k < n {
      KthRequest(requests[..n], sent[..n], env, k);
    }
  }

  function HookMessages(hook: string): seq<Message> {
    if hook == "" then [] else [UserText("[Hook Injection]\n" + hook)]
  }

  predicate HasText(m: Message) {
    match m.content
    case NoContent => false
    case Text(text) => text != ""
    case Blocks(blocks) => exists b :: b in blocks && b.TextBlock? && !Blank(b.text)
  }

  /** The user messages with text at the end of a history. */
  function TrailingUsers(h: seq<Message>): seq<Message> {
    if h == [] || h[|h| - 1].role != User then []
    else TrailingUsers(h[..|h| - 1]) + (if HasText(h[|h| - 1]) then [h[|h| - 1]] else [])
  }

  ghost predicate Sound(h: seq<Message>) {
    WellBatched(h) && AllSendable(h)
  }

  ghost predicate AllPlain(ms: seq<Message>) {
    forall m :: m in ms ==> IsPlain(m) && Sendable(m)
  }

  /** The given calls are open, all of one batch that began at `began`. */
  ghost predicate Waits(h: seq<Message>, left: seq<Call>, began: nat) {
    Batched(h) == Waiting(IdSetOf(left)) && (left != [] ==> began == BatchStart(h))
  }

  lemma WaitsForSome(h: seq<Message>, left: seq<Call>, began: nat)
    requires Waits(h, left, began)
    ensures WellBatched(h) <==> left == []
  {
    assert left != [] ==> left[|left| - 1].id in IdSetOf(left);
  }

  lemma PlainKeepsSound(h: seq<Message>, more: seq<Message>)
    requires Sound(h) && AllPlain(more)
    ensures Sound(h + more)
  {
    AddPlain(h, more);
  }

  lemma TextsArePlain(texts: seq<string>)
    ensures AllPlain(UserTexts(texts))
  {
    forall m | m in UserTexts(texts) ensures IsPlain(m) && Sendable(m) {
    }
  }

  lemma BehindPlain(front: seq<Message>, h: seq<Message>)
    requires AllPlain(front) && WellBatched(h)
    ensures WellBatched(front + h)
  {
    AddPlain([], front);
    assert [] + front == front;
    BatchedFrom([], front, h);
    assert [] + h == h;
  }

  lemma AssembledIsBatched(pinned: seq<string>, h: seq<Message>, hook: string)
    requires WellBatched(h)
    ensures WellBatched(Assembled(pinned, h, hook))
  {
    TextsArePlain(pinned);
    BehindPlain(UserTexts(pinned), h);
    AddPlain(UserTexts(pinned) + h, HookMessages(hook));
  }

  /** A message with user text in a well-batched history answers no call. */
  lemma TextAnswersNothing(s: Batches.State, m: Message)
    requires After(s, m).Waiting? && m.role == User && HasText(m)
    ensures IsPlain(m) && Sendable(m)
  {
  }

  lemma {:induction false} TrailingUsersArePlain(h: seq<Message>)
    requires Batched(h).Waiting?
    ensures AllPlain(TrailingUsers(h))
  {
    if h != [] && h[|h| - 1].role == User {
      TrailingUsersArePlain(h[..|h| - 1]);
      if HasText(h[|h| - 1]) {
        TextAnswersNothing(Batched(h[..|h| - 1]), h[|h| - 1]);
      }
    }
  }

  lemma CompressionKeepsSound(h: seq<Message>, reply: Summarizer.Reply)
    requires Sound(h)
    ensures Sound(Summarizer.Summarized(h, reply))
  {
    CompressionKeepsBatches(h, reply);
    CompressionIsSendable(h, reply);
  }

  lemma CompressionIsSendable(h: seq<Message>, reply: Summarizer.Reply)
    requires AllSendable(h)
    ensures AllSendable(Summarizer.Summarized(h, reply))
  {
    var outcome := Summarizer.Attempt(h, reply);
    if outcome.Compressed? {
      Summarizer.AttemptIsSafe(h, reply);
      SuffixIsSendable([Summarizer.SummaryMessage(reply.text), Summarizer.BoundaryMessage()], h, outcome.count);
    }
  }

  lemma SuffixIsSendable(pair: seq<Message>, h: seq<Message>, k: nat)
    requires AllSendable(pair) && AllSendable(h) && k <= |h|
    ensures AllSendable(pair + h[k..])
  {
  }

  function Contexts(texts: seq<string>): seq<Message> {
    if texts == [] then []
    else
      var last := texts[|texts| - 1];
      Contexts(texts[..|texts| - 1]) + (if Blank(last) then [] else [Context(last)])
  }

  /** A text is blank exactly if stripping leaves nothing. */
  lemma BlankExactly(text: string)
    ensures Blank(text) <==> StripSpace(text) == ""
  {
    var a, b := StripSpaceIs(text);
    if a < b {
      assert text[a] in text;
    } else {
      forall c | c in text ensures IsSpace(c) {
        var k :| 0 <= k < |text| && text[k] == c;
      }
    }
  }

  /** Every report that is not blank becomes one system message, in order. */
  lemma {:induction false} ContextsAre(texts: seq<string>, keep: string -> bool)
    requires forall t :: keep(t) <==> StripSpace(t) != ""
    ensures var kept := Select(texts, keep);
            && |Contexts(texts)| == |kept|
            && forall k :: 0 <= k < |kept| ==> Contexts(texts)[k] == Message(System, Text(kept[k]), [], NO_CALL, "")
  {
    if texts != [] {
      ContextsAre(texts[..|texts| - 1], keep);
      BlankExactly(texts[|texts| - 1]);
    }
  }

  /** Only empty texts are not queued. */
  lemma {:induction false} NonEmptyAre(texts: seq<string>, keep: string -> bool)
    requires forall t :: keep(t) <==> t != ""
    ensures NonEmpty(texts) == Select(texts, keep)
  {
    if texts != [] {
      NonEmptyAre(texts[..|texts| - 1], keep);
    }
  }

  lemma OneMoreBehind(h: seq<Message>, k: nat)
    requires k < |h|
    ensures h[..|h| - 1][k..] + [h[|h| - 1]] == h[k..]
  {
  }

  ghost predicate UsersFrom(h: seq<Message>, k: nat) {
    forall i :: k <= i < |h| ==> h[i].role == User
  }

  /** The trailing user messages: all behind the last message of another role, as far as they have
      text. */
  lemma {:induction false} TrailingUsersAre(h: seq<Message>, k: nat)
    requires k <= |h| && UsersFrom(h, k) && (k > 0 ==> h[k - 1].role != User)
    ensures TrailingUsers(h) == Select(h[k..], HasText)
  {
    if k < |h| {
      var front, last := h[..|h| - 1], h[|h| - 1];
      TrailingUsersAre(front, k);
      OneMoreBehind(h, k);
      SelectSnoc(front[k..], last);
    }
  }

  lemma SelectSnoc(front: seq<Message>, last: Message)
    ensures Select(front + [last], HasText) == Select(front, HasText) + (if HasText(last) then [last] else [])
  {
    SelectAppend(front, [last], HasText);
    SelectOne(last, HasText);
  }

  lemma {:induction false} ContextsArePlain(texts: seq<string>)
    ensures AllPlain(Contexts(texts))
  {
    if texts != [] {
      ContextsArePlain(texts[..|texts| - 1]);
      var last := texts[|texts| - 1];
      assert IsPlain(Context(last)) && Sendable(Context(last));
    }
  }

  function NonEmpty(texts: seq<string>): seq<string> {
    if texts == [] then []
    else
      var last := texts[|texts| - 1];
      NonEmpty(texts[..|texts| - 1]) + (if last == "" then [] else [last])
  }

  lemma NonEmptySnoc(texts: seq<string>, n: nat)
    requires n < |texts|
    ensures NonEmpty(texts[..n + 1]) == NonEmpty(texts[..n]) + (if texts[n] == "" then [] else [texts[n]])
  {
    assert texts[..n + 1][..n] == texts[..n];
  }

  lemma SteeringIsPlain(pending: seq<string>)
    ensures AllPlain(SteeringMessages(pending))
  {
    if pending != [] {
      var text := if |pending| == 1 then pending[0] else Combined(pending);
      assert IsPlain(UserText(text)) && Sendable(UserText(text));
    }
  }

  lemma {:induction false} InputKeepsSound(h: seq<Message>, queued: seq<string>, background: seq<string>)
    requires Sound(h)
    ensures var begun := h + UserTexts(queued) + Contexts(background);
            Sound(begun) && Select(begun, Sendable) == begun
  {
    TextsArePlain(queued);
    PlainKeepsSound(h, UserTexts(queued));
    ContextsArePlain(background);
    PlainKeepsSound(h + UserTexts(queued), Contexts(background));
    SentIsAll(h + UserTexts(queued) + Contexts(background));
  }

  ghost predicate AllBatched(requests: seq<seq<Message>>) {
    forall r :: r in requests ==> WellBatched(r)
  }

  function ContextsOf(texts: seq<string>): (ms: seq<Message>)
    ensures |ms| == |texts| && forall i :: 0 <= i < |texts| ==> ms[i] == Context(texts[i])
  {
    seq(|texts|, i requires 0 <= i < |texts| => Context(texts[i]))
  }

  /** Whether a compression is asked for that changes the history. */
  predicate Compresses(h: seq<Message>, injections: seq<string>, compression: Option<Summarizer.Reply>) {
    compression.Some? && Summarizer.Attempt(h + ContextsOf(injections), compression.value).Compressed?
  }

  /** The request history of a round: injections are appended, then it may be compressed. */
  function Prepared(h: seq<Message>, injections: seq<string>, compression: Option<Summarizer.Reply>): seq<Message> {
    var injected := h + ContextsOf(injections);
    if compression.Some? then Summarizer.Summarized(injected, compression.value) else injected
  }

  /** Injected texts become system messages behind the history, before it may be compressed. */
  lemma PreparedIs(h: seq<Message>, injections: seq<string>, compression: Option<Summarizer.Reply>)
    ensures var injected := Prepared(h, injections, None);
            && |injected| == |h| + |injections| && h <= injected
            && (forall i :: 0 <= i < |injections| ==>
                  injected[|h| + i] == Message(System, Text(injections[i]), [], NO_CALL, ""))
            && (compression.Some? ==>
                  Prepared(h, injections, compression) == Summarizer.Summarized(injected, compression.value))
  {
  }

  lemma PreparedIsSound(h: seq<Message>, injections: seq<string>, compression: Option<Summarizer.Reply>)
    requires Sound(h)
    ensures Sound(Prepared(h, injections, compression))
    ensures !Compresses(h, injections, compression) ==> h <= Prepared(h, injections, compression)
  {
    forall m | m in ContextsOf(injections) ensures IsPlain(m) && Sendable(m) {
    }
    PlainKeepsSound(h, ContextsOf(injections));
    if compression.Some? {
      CompressionKeepsSound(h + ContextsOf(injections), compression.value);
    }
  }

  /** Ids are valid, names are not empty, there are not too many calls, and none without tools. */
  predicate Executable(calls: seq<Call>, tools: bool) {
    && ValidCalls(calls) && |calls| <= MAX_PARALLEL_TOOL_CALLS && (calls != [] ==> tools)
    && forall c :: c in calls ==> c.name != ""
  }

  /** A reply that is not refused; one without calls needs a part of text, be it empty. */
  predicate Accepted(reply: ModelReply, tools: bool) {
    reply.Reply? && Executable(reply.calls, tools) && (reply.parts != [] || reply.calls != [])
  }

  /** An empty text adds no message. */
  function AnswerMessages(text: string): seq<Message> {
    if text == "" then [] else [Plain(Assistant, Text(text))]
  }

  function RequestOf(h: seq<Message>, input: RoundInput): seq<Message> {
    Assembled(input.pinned, Prepared(h, input.injections, input.compression), input.hook)
  }

  ghost predicate AtMostOneMore(was: seq<seq<Message>>, requests: seq<seq<Message>>, request: seq<Message>) {
    requests == was || requests == was + [request]
  }

  /** A round sends nothing, or the request made of history `h`. */
  ghost predicate SendsAtMost(was: seq<seq<Message>>, requests: seq<seq<Message>>,
                              wasSent: seq<seq<Message>>, sent: seq<seq<Message>>, input: RoundInput, h: seq<Message>)
  {
    || (requests == was && sent == wasSent)
    || (&& |requests| == |was| + 1 && requests[..|was|] == was && sent == wasSent + [h]
        && IsRequest(requests[|was|], input.pinned, h, input.hook))
  }

  lemma SendsOne(was: seq<seq<Message>>, requests: seq<seq<Message>>, wasSent: seq<seq<Message>>,
                 sent: seq<seq<Message>>, env: nat -> RoundInput, h: seq<Message>)
    requires AreRequests(was, wasSent, env) && SendsAtMost(was, requests, wasSent, sent, env(|was| + 1), h)
    ensures AreRequests(requests, sent, env)
  {
    if requests != was {
      assert requests[..|was|] == was && sent[..|was|] == wasSent;
    }
  }

  lemma ChainNext(base: seq<Message>, wasSent: seq<seq<Message>>, sent: seq<seq<Message>>, before: seq<Message>,
                  h: seq<Message>, now: seq<Message>)
    requires Chain(base, wasSent, before) && before <= now && (sent == wasSent || sent == wasSent + [h])
    requires sent != wasSent ==> before <= h <= now
    ensures Chain(base, sent, now)
  {
    ChainGrows(base, wasSent, before, now);
    if sent != wasSent {
      ChainGrows(base, wasSent, before, h);
      ChainSnoc(base, wasSent, h, now);
    }
  }

  method Inject(h: seq<Message>, injections: seq<string>) returns (r: seq<Message>)
    ensures r == h + ContextsOf(injections)
  {
    r := h;
    for n := 0 to |injections|
      invariant r == h + ContextsOf(injections)[..n]
    {
      r := r + [Context(injections[n])];
    }
  }

  class AgentLoop {
    const style: Style
    const maxRounds: nat
    const extension: nat
    const hardMaxRounds: nat
    const action: LimitAction
    const history: ConversationHistory
    /** The separate history of a turn without tools. */
    var isolated: Option<seq<Message>>
    /** The budget and terminal events of this turn. */
    var events: seq<Event>
    /** The requests sent to the provider in this turn. */
    var requests: seq<seq<Message>>
    /** The histories that these requests were made of. */
    ghost var sent: seq<seq<Message>>
    /** Whether the shared history was compressed in this turn. */
    ghost var compressed: bool

    constructor (style: Style, maxRounds: nat, extension: nat, hardMaxRounds: nat, action: LimitAction,
                 history: ConversationHistory)
      requires 1 <= maxRounds <= hardMaxRounds && 1 <= extension
      ensures Configured() && this.history == history && this.hardMaxRounds == hardMaxRounds
    {
      this.style, this.maxRounds, this.extension, this.hardMaxRounds := style, maxRounds, extension, hardMaxRounds;
      this.action, this.history := action, history;
      isolated, events, requests, sent, compressed := None, [], [], [], false;
    }

    ghost predicate Configured() {
      1 <= maxRounds <= hardMaxRounds && 1 <= extension
    }

    /** Between rounds: both histories consist of whole batches, and so did every request. */
    ghost predicate Ready()
      reads this`isolated, this`requests, history
    {
      && history.Valid() && Sound(history.messages)
      && (isolated.Some? ==> Sound(isolated.value))
      && AllBatched(requests)
    }

    function Request(): seq<Message>
      reads this`isolated, history
    {
      if isolated.Some? then isolated.value else history.messages
    }

    /** Background reports enter the history as context. */
    method ApplyBackground(texts: seq<string>) returns (count: nat)
      modifies history`messages
      ensures history.messages == old(history.messages) + Contexts(texts) && count == |Contexts(texts)|
    {
      count := 0;
      for n := 0 to |texts|
        invariant history.messages == old(history.messages) + Contexts(texts[..n]) && count == |Contexts(texts[..n])|
      {
        assert texts[..n + 1][..n] == texts[..n];
        if !Blank(texts[n]) {
          history.AddContextMessage(texts[n]);
          count := count + 1;
        }
      }
      assert texts[..|texts|] == texts;
    }

    method ReceiveSteering(texts: seq<string>)
      requires history.Valid()
      modifies history`steering
      ensures history.Valid()
      ensures history.steering == old(history.steering) + NonEmpty(texts)
    {
      for n := 0 to |texts|
        invariant history.Valid() && history.steering == old(history.steering) + NonEmpty(texts[..n])
      {
        NonEmptySnoc(texts, n);
        history.QueueSteeringMessage(texts[n]);
      }
      assert texts[..|texts|] == texts;
    }

    method ReceiveDeferred(texts: seq<string>)
      requires history.Valid()
      modifies history`deferred
      ensures history.Valid()
      ensures history.deferred == old(history.deferred) + NonEmpty(texts)
    {
      for n := 0 to |texts|
        invariant history.Valid() && history.deferred == old(history.deferred) + NonEmpty(texts[..n])
      {
        NonEmptySnoc(texts, n);
        history.DeferUserMessage(texts[n]);
      }
      assert texts[..|texts|] == texts;
    }

    /** What users and background work queue while a round runs. */
    method Receive(input: RoundInput)
      requires history.Valid()
      modifies history`deferred, history`steering
      ensures history.Valid()
      ensures history.steering == old(history.steering) + NonEmpty(input.steering)
      ensures history.deferred == old(history.deferred) + NonEmpty(input.deferred)
    {
      ReceiveSteering(input.steering);
      ReceiveDeferred(input.deferred);
    }

    /** At a safe point: background context, then queued steering; deferred texts stay queued. */
    method ApplyPending(input: RoundInput) returns (pending: bool, more: seq<Message>)
      requires history.Valid()
      modifies history
      ensures history.Valid() && AllPlain(more)
      ensures more == Contexts(input.background) + SteeringMessages(old(history.steering) + NonEmpty(input.steering))
      ensures history.messages == old(history.messages) + more && (pending <==> more != [])
      ensures history.steering == [] && history.deferred == old(history.deferred) + NonEmpty(input.deferred)
    {
      Receive(input);
      var reports := ApplyBackground(input.background);
      more := Contexts(input.background) + SteeringMessages(history.steering);
      ContextsArePlain(input.background);
      SteeringIsPlain(history.steering);
      var instructions := history.FlushSteering();
      pending := reports + instructions > 0;
    }

    /** Injected instructions and compression, on the history the request is made of. */
    method PrepareRequest(input: RoundInput)
      requires Ready()
      modifies this`isolated, this`compressed, history`messages
      ensures Ready() && (isolated.Some? <==> old(isolated).Some?)
      ensures Request() == Prepared(old(Request()), input.injections, input.compression)
      ensures isolated.Some? ==> history.messages == old(history.messages)
      ensures compressed <==>
              old(compressed) || (isolated.None? && Compresses(old(Request()), input.injections, input.compression))
      ensures !compressed ==> old(history.messages) <= history.messages
    {
      compressed := compressed || (isolated.None? && Compresses(Request(), input.injections, input.compression));
      PreparedIsSound(Request(), input.injections, input.compression);
      var h := Inject(Request(), input.injections);
      if input.compression.Some? {
        h := Summarizer.Summarized(h, input.compression.value);
      }
      if isolated.Some? {
        isolated := Some(h);
      } else {
        history.ReplaceMessages(h);
      }
    }

    method Send(pinned: seq<string>, hook: string)
      requires Ready()
      modifies this`requests, this`sent
      ensures Ready() && requests == old(requests) + [Assembled(pinned, Request(), hook)]
      ensures IsRequest(requests[|old(requests)|], pinned, Request(), hook) && sent == old(sent) + [Request()]
    {
      AssembledIsBatched(pinned, Request(), hook);
      AssembledIsRequest(pinned, Request(), hook);
      sent := sent + [Request()];
      requests := requests + [Assembled(pinned, Request(), hook)];
    }

    method Emit(e: Event)
      modifies this`events
      ensures events == old(events) + [e]
    {
      events := events + [e];
    }

    /** The round's events and budget once it is settled. */
    method Finish(s: Settled, b: Budget, round: nat, tools: bool) returns (next: Next)
      requires Running(events, round, b.currentLimit, hardMaxRounds) && b.hardLimit == hardMaxRounds
      requires b.currentLimit <= s.budget.currentLimit <= hardMaxRounds
      requires s.end.None? ==> Within(s.budget, round + 1) && s.budget.hardLimit == hardMaxRounds
      modifies this`events
      ensures next == if s.end.None? then Go(s.budget, tools) else Leave(Closed)
      ensures events ==
              old(events)
              + (if s.budget.currentLimit > b.currentLimit
                 then [LimitExtended(b.currentLimit, s.budget.currentLimit)] else [])
              + (if s.end.Some? then [Done(s.end.value)] else [])
      ensures s.end.None? ==> Running(events, round, s.budget.currentLimit, hardMaxRounds)
      ensures s.end.Some? ==> Finished(events, hardMaxRounds) && |Starts(events)| == round
    {
      ExtendLimit(events, round, b.currentLimit, s.budget.currentLimit, hardMaxRounds);
      events := events + Extension(b.currentLimit, s.budget.currentLimit);
      if s.end.Some? {
        EndTurn(events, round, s.budget.currentLimit, hardMaxRounds, Done(s.end.value));
        Emit(Done(s.end.value));
        return Leave(Closed);
      }
      return Go(s.budget, tools);
    }

    /** The next round lies inside the budget, or the turn is over with its event, or it raises. */
    ghost predicate RoundSettled(next: Next, input: RoundInput, b: Budget, round: nat)
      reads this, history
    {
      && |Starts(events)| == round
      && match next
         case Go(budget, _) =>
           && Within(budget, round + 1) && budget.hardLimit == hardMaxRounds
           && Running(events, round, budget.currentLimit, hardMaxRounds)
         case Leave(Closed) => Finished(events, hardMaxRounds)
         case Leave(_) =>
           next == Quit(input.cause, history.messages) && Running(events, round, b.currentLimit, hardMaxRounds)
    }

    /** The answer enters both histories. */
    method TakeAnswer(text: string)
      requires Ready()
      modifies this`isolated, history
      ensures Ready() && (isolated.Some? <==> old(isolated).Some?)
      ensures history.messages == old(history.messages) + AnswerMessages(text)
    {
      PlainKeepsSound(history.messages, AnswerMessages(text));
      history.AddAssistantMessage(text);
      if isolated.Some? {
        PlainKeepsSound(isolated.value, AnswerMessages(text));
        isolated := Some(isolated.value + AnswerMessages(text));
      }
    }

    /** So does what is pending. */
    method TakePending(input: RoundInput) returns (pending: bool)
      requires Ready()
      modifies this`isolated, history
      ensures Ready() && (isolated.Some? <==> old(isolated).Some?)
      ensures old(history.messages) <= history.messages
    {
      var more;
      pending, more := ApplyPending(input);
      PlainKeepsSound(old(history.messages), more);
      if isolated.Some? {
        PlainKeepsSound(isolated.value, more);
        isolated := Some(isolated.value + more);
      }
    }

    /** An answer without tool calls; an empty one ends the turn all the same. */
    method AnswerRound(input: RoundInput, text: string, b: Budget, round: nat, tools: bool) returns (next: Next)
      requires Ready() && Within(b, round) && b.hardLimit == hardMaxRounds
      requires Running(events, round, b.currentLimit, hardMaxRounds)
      modifies this`isolated, this`events, history
      ensures Ready() && (isolated.Some? <==> old(isolated).Some?)
      ensures old(history.messages) + AnswerMessages(text) <= history.messages
      ensures next.Go? ==> next.tools == tools
      ensures RoundSettled(next, input, b, round)
    {
      TakeAnswer(text);
      var pending := TakePending(input);
      if input.raisedLate {
        return Quit(input.cause, history.messages);
      }
      var s := SettleAnswer(b, round, pending);
      next := Finish(s, b, round, tools);
    }

    /** A history with the calls and the results so far. */
    function BatchMessages(h: seq<Message>, calls: seq<Call>, text: string, answer: Call -> string, answered: seq<Call>)
      : seq<Message>
    {
      h + [CallsMessage(style, calls, text)] + Results(style, answered, answer)
    }

    /** The history has grown by the batch, as far as that got. */
    ghost predicate HasBatch(before: seq<Message>, now: seq<Message>, input: RoundInput, calls: seq<Call>, text: string)
    {
      BatchMessages(before, calls, text, input.answer, Answered(calls, input.kind, input.stop)) <= now
    }

    /** Runs a batch, and says how it ends and which calls it leaves open. */
    method RunBatch(input: RoundInput, calls: seq<Call>, text: string) returns (end: BatchEnd)
      requires history.Valid() && Sound(history.messages) && ValidCalls(calls) && calls != []
      modifies history`messages
      ensures history.Valid() && AllSendable(history.messages)
      ensures end == EndOf(calls, input.kind, input.stop)
      ensures history.messages == BatchMessages(old(history.messages), calls, text, input.answer,
                                                Answered(calls, input.kind, input.stop))
      ensures Waits(history.messages, Unanswered(calls, input.kind, input.stop), |old(history.messages)|)
      ensures WellBatched(history.messages) <==> Unanswered(calls, input.kind, input.stop) == []
    {
      ghost var before := history.messages;
      var answered;
      end, answered := ExecuteBatch(history, style, calls, text, input.kind, input.answer, input.stop);
      BatchLeavesOpen(before, style, calls, text, input.kind, input.answer, answered);
      OpenLeft(calls, input.kind, answered);
      CallsMessageOpens(style, calls, text);
      ResultsAreSendable(before + [CallsMessage(style, calls, text)], style, answered, input.answer);
    }

    /** New input and the budget decide how the turn goes on. */
    method SettleRound(input: RoundInput, b: Budget, round: nat) returns (next: Next)
      requires Ready() && isolated.None? && Within(b, round) && b.hardLimit == hardMaxRounds
      requires Running(events, round, b.currentLimit, hardMaxRounds)
      modifies this`events, history
      ensures Ready() && old(history.messages) <= history.messages
      ensures RoundSettled(next, input, b, round)
    {
      ghost var before := history.messages;
      var pending, more := ApplyPending(input);
      PlainKeepsSound(before, more);
      if input.raisedLate {
        return Quit(input.cause, history.messages);
      }
      var s := SettleTools(b, round, pending, input.stalled, input.stall, input.limit);
      next := Finish(s, b, round, if pending then input.toolsAfter else true);
    }

    /** A batch of tool calls. */
    method ToolsRound(input: RoundInput, calls: seq<Call>, text: string, b: Budget, round: nat) returns (next: Next)
      requires Ready() && isolated.None? && ValidCalls(calls) && calls != []
      requires Within(b, round) && b.hardLimit == hardMaxRounds
      requires Running(events, round, b.currentLimit, hardMaxRounds)
      modifies this`events, history
      ensures HasBatch(old(history.messages), history.messages, input, calls, text)
      ensures old(history.messages) <= history.messages && AllSendable(history.messages) && history.Valid()
      ensures EndOf(calls, input.kind, input.stop) == ToolRound.Cancelled ==>
                && next == Leave(BetweenWrites(Unanswered(calls, input.kind, input.stop)))
                && Finished(events, hardMaxRounds) && |Starts(events)| == round
      ensures EndOf(calls, input.kind, input.stop) == ToolRound.Raised ==>
                && next == Leave(Exit.Raised(input.cause, Unanswered(calls, input.kind, input.stop),
                                             |old(history.messages)|))
                && Running(events, round, b.currentLimit, hardMaxRounds)
      ensures EndOf(calls, input.kind, input.stop) == ToolRound.Complete ==>
                Ready() && RoundSettled(next, input, b, round)
      ensures EndOf(calls, input.kind, input.stop) != ToolRound.Complete ==>
                Waits(history.messages, Unanswered(calls, input.kind, input.stop), |old(history.messages)|)
    {
      var began := |history.messages|;
      var end := RunBatch(input, calls, text);
      var left := Unanswered(calls, input.kind, input.stop);
      if end == ToolRound.Raised {
        return Leave(Exit.Raised(input.cause, left, began));
      }
      if end == ToolRound.Cancelled {
        EndTurn(events, round, b.currentLimit, hardMaxRounds, Done(Reason.Cancelled));
        Emit(Done(Reason.Cancelled));
        return Leave(BetweenWrites(left));
      }
      next := SettleRound(input, b, round);
    }

    method Fail(code: string, b: Budget, rounds: nat) returns (next: Next)
      requires Running(events, rounds, b.currentLimit, hardMaxRounds)
      modifies this`events
      ensures next == Leave(Closed) && Finished(events, hardMaxRounds) && |Starts(events)| == rounds
    {
      EndTurn(events, rounds, b.currentLimit, hardMaxRounds, Failed(code));
      Emit(Failed(code));
      return Leave(Closed);
    }

    method Cancel(b: Budget, rounds: nat) returns (next: Next)
      requires Running(events, rounds, b.currentLimit, hardMaxRounds)
      modifies this`events
      ensures next == Leave(Closed) && Finished(events, hardMaxRounds) && |Starts(events)| == rounds
    {
      EndTurn(events, rounds, b.currentLimit, hardMaxRounds, Done(Reason.Cancelled));
      Emit(Done(Reason.Cancelled));
      return Leave(Closed);
    }

    /** Whether the calls of a response may be executed at all. */
    method CheckCalls(calls: seq<Call>, tools: bool) returns (ok: bool)
      ensures ok <==> Executable(calls, tools)
    {
      var ids: set<CallId> := {};
      for n := 0 to |calls|
        invariant ids == IdSetOf(calls[..n]) && Executable(calls[..n], tools)
      {
        ExecutableSnoc(calls, n, tools);
        var c := calls[n];
        if !tools || c.id == NO_CALL || c.name == "" || c.id in ids || n >= MAX_PARALLEL_TOOL_CALLS {
          if Executable(calls, tools) {
            ExecutablePrefix(calls, n + 1, tools);
          }
          return false;
        }
        ids := ids + {c.id};
      }
      assert calls[..|calls|] == calls;
      return true;
    }

    /** One request per start event; an exception may come between the last start and its request. */
    ghost predicate Counted(next: Next)
      reads this`requests, this`events
    {
      || |requests| == |Starts(events)|
      || (next.Leave? && next.exit.Raised? && |requests| + 1 == |Starts(events)|)
    }

    /** What one round promises: the next one may start, or the turn is over. */
    ghost predicate RoundDone(next: Next, round: nat)
      reads this, history
    {
      && history.Valid() && AllSendable(history.messages)
      && AllBatched(requests) && Counted(next)
      && match next
         case Go(b, tools) =>
           && Ready() && Within(b, round + 1) && b.hardLimit == hardMaxRounds && (isolated.Some? ==> !tools)
           && Running(events, round, b.currentLimit, hardMaxRounds)
         case Leave(Closed) => Sound(history.messages) && Finished(events, hardMaxRounds)
         case Leave(BetweenWrites(left)) =>
           left != [] && Batched(history.messages) == Waiting(IdSetOf(left)) && Finished(events, hardMaxRounds)
         case Leave(Raised(_, left, began)) =>
           Waits(history.messages, left, began) && Quiet(events) && Regular(Starts(events), hardMaxRounds)
    }

    /** What follows the model's reply. */
    method HandleReply(input: RoundInput, b: Budget, round: nat, tools: bool) returns (next: Next)
      requires Ready() && Within(b, round) && b.hardLimit == hardMaxRounds && (isolated.Some? ==> !tools)
      requires Running(events, round, b.currentLimit, hardMaxRounds) && |requests| == round
      modifies this`isolated, this`events, history
      ensures RoundDone(next, round) && old(history.messages) <= history.messages
      ensures isolated.Some? <==> old(isolated).Some?
      ensures !Accepted(input.reply, tools) ==> next.Leave? && history.messages == old(history.messages)
      ensures Accepted(input.reply, tools) && input.reply.calls == [] ==>
                old(history.messages) + AnswerMessages(Concat(input.reply.parts)) <= history.messages
      ensures Accepted(input.reply, tools) && input.reply.calls != [] ==>
                HasBatch(old(history.messages), history.messages, input, input.reply.calls, Concat(input.reply.parts))
    {
      match input.reply
      case StreamCancelled =>
        next := Cancel(b, round);
      case Refused(code) =>
        next := Fail(code, b, round);
      case StreamRaised =>
        next := Quit(input.cause, history.messages);
      case Reply(parts, calls) =>
        var ok := CheckCalls(calls, tools);
        if !ok {
          next := Fail("invalid_tool_call", b, round);
        } else if parts == [] && calls == [] {
          next := Fail("empty_response", b, round);
        } else if calls == [] {
          next := AnswerRound(input, Concat(parts), b, round, tools);
        } else {
          next := ToolsRound(input, calls, Concat(parts), b, round);
        }
    }

    method BeginRound(b: Budget, round: nat)
      requires Within(b, round) && b.hardLimit == hardMaxRounds
      requires Running(events, round - 1, b.currentLimit, hardMaxRounds)
      modifies this`events
      ensures events == old(events) + [RoundStart(round, b.currentLimit)]
      ensures Running(events, round, b.currentLimit, hardMaxRounds)
    {
      StartRound(events, round - 1, b.currentLimit, hardMaxRounds);
      Emit(RoundStart(round, b.currentLimit));
    }

    /** Up to the request: cancellation, injections, compression, the start event and the request. */
    method OpenRound(input: RoundInput, b: Budget, round: nat) returns (left: Option<Next>)
      requires Ready() && Within(b, round) && b.hardLimit == hardMaxRounds
      requires Running(events, round - 1, b.currentLimit, hardMaxRounds) && |requests| == round - 1
      modifies this, history
      ensures left.None? ==> Ready() && Running(events, round, b.currentLimit, hardMaxRounds)
      ensures left.None? ==> requests == old(requests) + [RequestOf(old(Request()), input)]
      ensures left.None? ==>
                var h := Prepared(old(Request()), input.injections, input.compression);
                && IsRequest(requests[|old(requests)|], input.pinned, h, input.hook) && sent == old(sent) + [h]
                && (isolated.None? ==> h == history.messages)
      ensures left.Some? ==>
                && left.value.Leave? && RoundDone(left.value, round)
                && requests == old(requests) && sent == old(sent)
      ensures isolated.Some? <==> old(isolated).Some?
      ensures (old(compressed) ==> compressed) && (!compressed ==> old(history.messages) <= history.messages)
    {
      if input.cancelled {
        var next := Cancel(b, round - 1);
        return Some(next);
      }
      PrepareRequest(input);
      if input.raisedEarly {
        return Some(Quit(input.cause, history.messages));
      }
      if input.overflow {
        var next := Fail("context_compression_failed", b, round - 1);
        return Some(next);
      }
      BeginRound(b, round);
      if input.raisedUnsent {
        return Some(Quit(input.cause, history.messages));
      }
      Send(input.pinned, input.hook);
      return None;
    }

    method Round(input: RoundInput, b: Budget, round: nat, tools: bool) returns (next: Next)
      requires Ready() && Within(b, round) && b.hardLimit == hardMaxRounds && (isolated.Some? ==> !tools)
      requires Running(events, round - 1, b.currentLimit, hardMaxRounds) && |requests| == round - 1
      modifies this, history
      ensures RoundDone(next, round)
      ensures AtMostOneMore(old(requests), requests, RequestOf(old(Request()), input))
      ensures SendsAtMost(old(requests), requests, old(sent), sent, input,
                          Prepared(old(Request()), input.injections, input.compression))
      ensures isolated.Some? <==> old(isolated).Some?
      ensures (old(compressed) ==> compressed) && (!compressed ==> old(history.messages) <= history.messages)
      ensures isolated.None? && !compressed && sent != old(sent) ==>
                var h := Prepared(old(Request()), input.injections, input.compression);
                old(history.messages) <= h <= history.messages
    {
      var left := OpenRound(input, b, round);
      if left.Some? {
        return left.value;
      }
      next := HandleReply(input, b, round, tools);
    }

    /** What has been sent, and how the history has grown from `base`. */
    ghost predicate Sending(env: nat -> RoundInput, base: seq<Message>)
      reads this, history
    {
      && AreRequests(requests, sent, env)
      && (!compressed ==> base <= history.messages)
      && (!compressed && isolated.None? ==> Chain(base, sent, history.messages))
    }

    method NextRound(env: nat -> RoundInput, b: Budget, round: nat, tools: bool, ghost base: seq<Message>)
      returns (next: Next)
      requires Ready() && Within(b, round) && b.hardLimit == hardMaxRounds && (isolated.Some? ==> !tools)
      requires Running(events, round - 1, b.currentLimit, hardMaxRounds) && |requests| == round - 1
      requires Sending(env, base)
      modifies this, history
      ensures RoundDone(next, round) && Sending(env, base)
      ensures isolated.Some? <==> old(isolated).Some?
    {
      ghost var was, wasSent, before := requests, sent, history.messages;
      ghost var h := Prepared(Request(), env(round).injections, env(round).compression);
      next := Round(env(round), b, round, tools);
      SendsOne(was, requests, wasSent, sent, env, h);
      if !compressed && isolated.None? {
        ChainNext(base, wasSent, sent, before, h, history.messages);
      }
    }

    /** The rounds of a turn; they end within the hard limit. */
    method RunRounds(env: nat -> RoundInput, toolsEnabled: bool) returns (exit: Exit)
      requires Configured() && Ready() && (isolated.Some? ==> !toolsEnabled)
      requires events == [] && requests == [] && sent == [] && !compressed
      modifies this, history
      ensures RoundDone(Leave(exit), 0) && Sending(env, old(history.messages))
      ensures isolated.Some? <==> old(isolated).Some?
    {
      var budget := Budget(maxRounds, extension, hardMaxRounds, action, action == ExtendAlways);
      var round := 1;
      var tools := toolsEnabled;
      while round <= budget.hardLimit
        invariant RoundDone(Go(budget, tools), round - 1) && Sending(env, old(history.messages))
        invariant round >= 1
        invariant isolated.Some? <==> old(isolated).Some?
        decreases hardMaxRounds - round
      {
        var next := NextRound(env, budget, round, tools, old(history.messages));
        if next.Leave? {
          return next.exit;
        }
        budget, tools := next.budget, next.tools;
        round := round + 1;
      }
      assert false;
    }

    /** The history a turn without tools sees: the latest user messages alone, if there are any. */
    method IsolateRequest(toolsEnabled: bool)
      requires Batched(history.messages).Waiting?
      modifies this`isolated
      ensures isolated.Some? ==>
                Sound(isolated.value) && !toolsEnabled && isolated.value == TrailingUsers(history.messages)
      ensures isolated.None? <==> toolsEnabled || TrailingUsers(history.messages) == []
    {
      isolated := None;
      if !toolsEnabled && TrailingUsers(history.messages) != [] {
        TrailingUsersArePlain(history.messages);
        isolated := Some(TrailingUsers(history.messages));
        PlainKeepsSound([], TrailingUsers(history.messages));
        assert [] + TrailingUsers(history.messages) == TrailingUsers(history.messages);
      }
    }

    /** The history at the start of a turn. */
    function Begun(background: seq<string>): seq<Message>
      reads this, history
    {
      history.messages + UserTexts(history.deferred + history.steering) + Contexts(background)
    }

    /** Queued input and background reports enter the history before the turn starts. */
    method BeginTurn(background: seq<string>, toolsEnabled: bool) returns (start: nat)
      requires history.Valid() && Sound(history.messages)
      modifies this, history
      ensures Ready() && (isolated.Some? ==> !toolsEnabled)
      ensures events == [] && requests == [] && sent == [] && !compressed
      ensures history.messages == old(Begun(background)) && start == |history.messages|
    {
      events, requests, sent, compressed := [], [], [], false;
      InputKeepsSound(history.messages, history.deferred + history.steering, background);
      var flushed := history.FlushDeferred();
      var reports := ApplyBackground(background);
      var sent := history.GetMessages();
      start := |sent|;
      IsolateRequest(toolsEnabled);
    }

    /** A failed turn is repaired, and reported unless it was aborted from outside.  Nothing runs
        when the consumer closes the stream. */
    method Recover(cause: Cause, start: nat, ghost env: nat -> RoundInput, ghost base: seq<Message>)
      requires Quiet(events) && Regular(Starts(events), hardMaxRounds) && Sending(env, base)
      modifies this`events, history`messages
      ensures history.messages ==
              if cause.StreamClosed? then old(history.messages) else TurnRepaired(style, old(history.messages), start)
      ensures if cause.Error? then Finished(events, hardMaxRounds) else events == old(events)
      ensures |Starts(events)| == |Starts(old(events))| && Sending(env, base)
    {
      if cause.StreamClosed? {
        return;
      }
      RepairUnpairedToolCalls(history, style, start);
      if !compressed && isolated.None? {
        ChainGrows(base, sent, old(history.messages), history.messages);
      }
      if cause.Error? {
        EndTurn(events, |Starts(events)|, hardMaxRounds, hardMaxRounds, Failed("agent_failed"));
        Emit(Failed("agent_failed"));
      }
    }

    /** What a turn that began with `base` is after an exception and its recovery. */
    method Mend(exit: Exit, start: nat, ghost env: nat -> RoundInput, ghost base: seq<Message>)
      requires exit.Raised? && RoundDone(Leave(exit), 0) && Sending(env, base)
      requires WellBatched(base) && start == |base|
      modifies this`events, history`messages
      ensures history.Valid() && AllSendable(history.messages)
      ensures Counted(Leave(exit)) && Sending(env, base)
      ensures if exit.cause == Error then Finished(events, hardMaxRounds)
              else Quiet(events) && Regular(Starts(events), hardMaxRounds)
      ensures var whole := exit.left == [] || (exit.cause != StreamClosed && start <= exit.began);
              && (WellBatched(history.messages) <==> whole)
              && Open(history.messages) == (if whole then {} else IdSetOf(exit.left))
      ensures exit.cause != StreamClosed && !compressed ==> WellBatched(history.messages)
    {
      ghost var broken := history.messages;
      Recover(exit.cause, start, env, base);
      if exit.cause.StreamClosed? {
        WaitsForSome(broken, exit.left, exit.began);
        BatchedIsOpen(broken);
      } else {
        RepairAfterFailure(style, broken, exit.left, exit.began, start);
        if !compressed && exit.left != [] {
          BeganSince(base, broken, exit.left, exit.began);
        }
      }
    }

    /** One user turn.  Each round sends at most one request, of whole batches only, which holds the
        history of that round verbatim; with tools, and as long as nothing is compressed, each of these
        histories extends the one before it and the first one what the turn began with.  Unless the run is
        aborted from outside or its event stream is closed there is exactly one terminal event, the last
        one.  A turn that is neither cancelled between two writes nor raised ends well-batched.  After an
        exception that is so exactly if no call was left, or the stream was not closed and the batch it came
        from began no earlier than the turn did; that is the case when the history was not compressed in
        the turn.  Otherwise exactly the calls left by the exception stay open. */
    method Run(env: nat -> RoundInput, background: seq<string>, toolsEnabled: bool) returns (exit: Exit)
      requires Configured() && history.Valid() && Sound(history.messages)
      modifies this, history
      ensures history.Valid() && AllSendable(history.messages)
      ensures AllBatched(requests) && Counted(Leave(exit))
      ensures Sending(env, old(Begun(background))) && (toolsEnabled ==> isolated.None?)
      ensures !(exit.Raised? && exit.cause != Error) ==> Finished(events, hardMaxRounds)
      ensures exit.Raised? && exit.cause != Error ==> Quiet(events) && Regular(Starts(events), hardMaxRounds)
      ensures exit == Closed ==> WellBatched(history.messages)
      ensures exit.BetweenWrites? ==> exit.left != [] && Batched(history.messages) == Waiting(IdSetOf(exit.left))
      ensures exit.Raised? ==>
                var whole := exit.left == [] || (exit.cause != StreamClosed && |old(Begun(background))| <= exit.began);
                && (WellBatched(history.messages) <==> whole)
                && Open(history.messages) == (if whole then {} else IdSetOf(exit.left))
      ensures exit.Raised? && exit.cause != StreamClosed && !compressed ==> WellBatched(history.messages)
    {
      var start := BeginTurn(background, toolsEnabled);
      ghost var before := history.messages;
      exit := RunRounds(env, toolsEnabled);
      if exit.Raised? {
        Mend(exit, start, env, before);
      }
    }
  }

  /** The next plain message keeps the batches whole exactly if no call is left open; after a
      cancellation between two writes some are, and what is sent next has unanswered calls. */
  lemma {:induction false} CancelBreaksNextTurn(h: seq<Message>, open: set<CallId>, m: Message)
    requires Batched(h) == Waiting(open) && IsPlain(m)
    ensures Batched(h + [m]) == (if open == {} then Waiting({}) else Broken) && Open(h + [m]) == open
  {
    BatchedSnoc(h, m);
    BatchedIsOpen(h);
    OpenSnoc({}, h, m);
  }

  lemma ExecutableSnoc(calls: seq<Call>, n: nat, tools: bool)
    requires n < |calls|
    ensures IdSetOf(calls[..n + 1]) == IdSetOf(calls[..n]) + {calls[n].id}
    ensures Executable(calls[..n + 1], tools) <==>
            && Executable(calls[..n], tools) && tools && n < MAX_PARALLEL_TOOL_CALLS
            && calls[n].id != NO_CALL && calls[n].name != "" && calls[n].id !in IdSetOf(calls[..n])
  {
    ValidSnoc(calls[..n], calls[n]);
    assert calls[..n + 1] == calls[..n] + [calls[n]];
  }

  lemma ExecutablePrefix(calls: seq<Call>, n: nat, tools: bool)
    requires n <= |calls| && Executable(calls, tools)
    ensures Executable(calls[..n], tools)
  {
    ValidAppend(calls[..n], calls[n..]);
    assert calls[..n] + calls[n..] == calls;
  }

  lemma {:induction false} RepairAfterFailure(style: Style, broken: seq<Message>, left: seq<Call>, began: nat,
                                              start: nat)
    requires AllSendable(broken) && Waits(broken, left, began)
    ensures var whole, repaired := left == [] || start <= began, TurnRepaired(style, broken, start);
            && AllSendable(repaired) && (WellBatched(repaired) <==> whole)
            && Open(repaired) == (if whole then {} else IdSetOf(left))
  {
    WaitsForSome(broken, left, began);
    RepairClosesExactly(style, broken, start);
    RepairedForm(style, broken, start);
    ResultsAreSendable(broken, style, AsCalls(Pending(Suffix(broken, start))), Recovery);
  }

  /** A batch that an exception interrupts is completed by the repair exactly if every call was
      answered or the batch began at the start index or later. */
  lemma {:induction false} RaisedBatchIsRepairedExactly(before: seq<Message>, style: Style, calls: seq<Call>,
                                                        text: string,
                                     kind: Call -> Kind, answer: Call -> string, answered: seq<Call>, start: nat)
    requires Sound(before) && ValidCalls(calls) && calls != [] && answered <= Order(calls, kind)
    ensures var broken := before + [CallsMessage(style, calls, text)] + Results(style, answered, answer);
            var whole := answered == Order(calls, kind) || start <= |before|;
            var repaired := TurnRepaired(style, broken, start);
            && (WellBatched(repaired) <==> whole)
            && Open(repaired) == (if whole then {} else IdSetOf(calls) - IdSetOf(answered))
  {
    BatchLeavesOpen(before, style, calls, text, kind, answer, answered);
    CallsMessageOpens(style, calls, text);
    ResultsAreSendable(before + [CallsMessage(style, calls, text)], style, answered, answer);
    RepairClosesExactly(style, before + [CallsMessage(style, calls, text)] + Results(style, answered, answer), start);
  }

  /** In a history that has only grown, the waiting batch is new. */
  lemma BeganSince(before: seq<Message>, broken: seq<Message>, left: seq<Call>, began: nat)
    requires WellBatched(before) && before <= broken && Waits(broken, left, began) && left != []
    ensures |before| <= began
  {
    WaitsForSome(broken, left, began);
    BatchedIsOpen(before);
    assert broken[..|before|] == before;
    GrownBatchIsNew(broken, |before|);
  }

  lemma UserTextsAreSound(texts: seq<string>)
    ensures Sound(UserTexts(texts))
  {
    TextsArePlain(texts);
    PlainKeepsSound([], UserTexts(texts));
    assert [] + UserTexts(texts) == UserTexts(texts);
  }

  lemma EightTextsShrink(texts: seq<string>, summary: string)
    requires |texts| == 8
    ensures var h, reply := UserTexts(texts), Summarizer.Summary(summary);
            Compresses(h, [], Some(reply)) && |Prepared(h, [], Some(reply))| == 6
  {
    var h := UserTexts(texts);
    assert h + ContextsOf([]) == h;
    assert Summarizer.FirstImage(h) == 8 by {
      assert forall i :: 0 <= i < 8 ==> !HasImage(h[i]);
    }
    UserTextsAreSound(texts[..4]);
    assert h[..4] == UserTexts(texts[..4]);
    BatchedIsOpen(h[..4]);
    assert Summarizer.SafeAt(h, 4);
  }

  lemma {:induction false} TwoOfThree(calls: seq<Call>, kind: Call -> Kind)
    requires ValidCalls(calls) && |calls| == 3
    ensures EndOf(calls, kind, RaiseAfter(2)) == ToolRound.Raised && |Answered(calls, kind, RaiseAfter(2))| == 2
    ensures Answered(calls, kind, RaiseAfter(2)) != Order(calls, kind)
    ensures var left := IdSetOf(Unanswered(calls, kind, RaiseAfter(2)));
            left != {} && IdSetOf(calls) - IdSetOf(Answered(calls, kind, RaiseAfter(2))) == left
  {
    OrderPermutes(calls, kind);
    OpenLeft(calls, kind, Answered(calls, kind, RaiseAfter(2)));
  }

  /** Compression can lose the start index: a turn over eight user texts is compressed to six
      messages and then raises when two of three calls are answered.  The start index lies behind
      the message with the calls, and the third call stays open. */
  lemma {:induction false} CompressedTurnEndsOpen(style: Style, texts: seq<string>, summary: string,
                                                  calls: seq<Call>, text: string,
                               kind: Call -> Kind, answer: Call -> string)
    requires |texts| == 8 && ValidCalls(calls) && |calls| == 3
    ensures var h, stop := UserTexts(texts), RaiseAfter(2);
            var shrunk := Prepared(h, [], Some(Summarizer.Summary(summary)));
            var answered := Answered(calls, kind, stop);
            var broken := shrunk + [CallsMessage(style, calls, text)] + Results(style, answered, answer);
            && Sound(h) && EndOf(calls, kind, stop) == ToolRound.Raised
            && |shrunk| < |h| < |broken|
            && Open(TurnRepaired(style, broken, |h|)) == IdSetOf(Unanswered(calls, kind, stop)) != {}
  {
    var h, stop, reply := UserTexts(texts), RaiseAfter(2), Summarizer.Summary(summary);
    var shrunk := Prepared(h, [], Some(reply));
    UserTextsAreSound(texts);
    EightTextsShrink(texts, summary);
    PreparedIsSound(h, [], Some(reply));
    TwoOfThree(calls, kind);
    var answered := Answered(calls, kind, stop);
    RaisedBatchIsRepairedExactly(shrunk, style, calls, text, kind, answer, answered, |h|);
  }
}
