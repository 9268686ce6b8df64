/** Executing one batch of tool calls: reads that are refused answer at once, the other reads
    when all of them have run, then the writes one after the other. */
module ToolRound {
  import opened Protocol
  import opened History
  import opened SessionRepair
  import opened Batches

  /** What may stop a batch: a cancellation seen before a write, or an exception once `n` results
      have been appended. */
  datatype Stop = NoStop | CancelBeforeWrite(n: nat) | RaiseAfter(n: nat)

  datatype BatchEnd = Complete | Cancelled | Raised

  function Reads(calls: seq<Call>, kind: Call -> Kind): seq<Call> {
    if calls == [] then []
    else
      var front, last := Reads(calls[..|calls| - 1], kind), calls[|calls| - 1];
      if kind(last) != Write then front + [last] else front
  }

  method PartitionTools(calls: seq<Call>, kind: Call -> Kind) returns (readCalls: seq<Call>, writeCalls: seq<Call>)
    ensures readCalls == Reads(calls, kind) && writeCalls == OfKind(calls, kind, Write)
  {
    readCalls, writeCalls := [], [];
    for n := 0 to |calls|
      invariant readCalls == Reads(calls[..n], kind) && writeCalls == OfKind(calls[..n], kind, Write)
    {
      assert calls[..n + 1][..n] == calls[..n];
      if kind(calls[n]) != Write {
        readCalls := readCalls + [calls[n]];
      } else {
        writeCalls := writeCalls + [calls[n]];
      }
    }
    assert calls[..|calls|] == calls;
  }

  lemma {:induction false} ReadsOfKind(calls: seq<Call>, kind: Call -> Kind, k: Kind)
    requires k != Write
    ensures OfKind(Reads(calls, kind), kind, k) == OfKind(calls, kind, k)
  {
    if calls != [] {
      var front, last := calls[..|calls| - 1], calls[|calls| - 1];
      ReadsOfKind(front, kind, k);
      OfKindSnoc(Reads(front, kind), last, kind, k);
    }
  }

  /** The history while results arrive. */
  ghost predicate Answering(now: seq<Message>, before: seq<Message>, style: Style, answered: seq<Call>,
                            answer: Call -> string)
  {
    now == before + Results(style, answered, answer)
  }

  lemma AnswerMore(now: seq<Message>, before: seq<Message>, style: Style, answered: seq<Call>, answer: Call -> string,
                   c: Call)
    requires Answering(now, before, style, answered, answer)
    ensures Answering(now + [ResultMessage(style, c.id, c.name, answer(c))], before, style, answered + [c], answer)
    ensures !Hollow(ResultMessage(style, c.id, c.name, answer(c)))
  {
    ResultsSnoc(style, answered, c, answer);
  }

  method AppendToolResult(history: ConversationHistory, style: Style, c: Call, answer: Call -> string,
                          ghost before: seq<Message>, ghost answered: seq<Call>)
    requires Answering(history.messages, before, style, answered, answer)
    modifies history`messages
    ensures Answering(history.messages, before, style, answered + [c], answer)
  {
    AnswerMore(history.messages, before, style, answered, answer, c);
    history.AddRawMessage(ResultMessage(style, c.id, c.name, answer(c)));
  }

  function ReadsOf(calls: seq<Call>, kind: Call -> Kind): seq<Call> {
    OfKind(calls, kind, RefusedRead) + OfKind(calls, kind, Read)
  }

  /** How a batch ends: cancelled if there is a write to be seen before, raised if so many results
      come about. */
  function EndOf(calls: seq<Call>, kind: Call -> Kind, stop: Stop): BatchEnd {
    match stop
    case NoStop => Complete
    case CancelBeforeWrite(n) => if n < |OfKind(calls, kind, Write)| then Cancelled else Complete
    case RaiseAfter(n) => if n <= |Order(calls, kind)| then Raised else Complete
  }

  /** How many calls are answered by then. */
  function AnswerCount(calls: seq<Call>, kind: Call -> Kind, stop: Stop): (n: nat)
    ensures n <= |Order(calls, kind)|
  {
    match EndOf(calls, kind, stop)
    case Complete => |Order(calls, kind)|
    case Cancelled => |ReadsOf(calls, kind)| + stop.n
    case Raised => stop.n
  }

  /** The calls a batch answers, in the order of their results. */
  function Answered(calls: seq<Call>, kind: Call -> Kind, stop: Stop): (answered: seq<Call>)
    ensures answered <= Order(calls, kind)
  {
    Order(calls, kind)[..AnswerCount(calls, kind, stop)]
  }

  /** The calls it does not get to. */
  function Unanswered(calls: seq<Call>, kind: Call -> Kind, stop: Stop): seq<Call> {
    Order(calls, kind)[AnswerCount(calls, kind, stop)..]
  }

  predicate NoWrites(calls: seq<Call>, kind: Call -> Kind) {
    forall c :: c in calls ==> kind(c) != Write
  }

  lemma {:induction false} ReadsCount(calls: seq<Call>, kind: Call -> Kind)
    requires NoWrites(calls, kind)
    ensures |ReadsOf(calls, kind)| == |calls|
  {
    if calls != [] {
      assert calls == calls[..|calls| - 1] + [calls[|calls| - 1]];
      ReadsCount(calls[..|calls| - 1], kind);
    }
  }

  lemma {:induction false} ReadsAreReads(calls: seq<Call>, kind: Call -> Kind)
    ensures NoWrites(Reads(calls, kind), kind)
  {
    if calls != [] {
      ReadsAreReads(calls[..|calls| - 1], kind);
    }
  }

  /** The first loop over the reads, before read i. */
  ghost predicate Refusing(readCalls: seq<Call>, kind: Call -> Kind, stop: Stop, i: nat, answered: seq<Call>,
                           valid: seq<Call>)
  {
    && i <= |readCalls|
    && answered == OfKind(readCalls[..i], kind, RefusedRead) && valid == OfKind(readCalls[..i], kind, Read)
    && (stop.RaiseAfter? ==> |answered| <= stop.n)
  }

  lemma RefuseNext(readCalls: seq<Call>, kind: Call -> Kind, stop: Stop, i: nat, answered: seq<Call>, valid: seq<Call>)
    requires Refusing(readCalls, kind, stop, i, answered, valid) && i < |readCalls| && NoWrites(readCalls, kind)
    requires stop != RaiseAfter(|answered|)
    ensures if kind(readCalls[i]) == RefusedRead then
              Refusing(readCalls, kind, stop, i + 1, answered + [readCalls[i]], valid)
            else Refusing(readCalls, kind, stop, i + 1, answered, valid + [readCalls[i]])
  {
    OfKindSnoc(readCalls[..i], readCalls[i], kind, RefusedRead);
    OfKindSnoc(readCalls[..i], readCalls[i], kind, Read);
    assert readCalls[..i + 1] == readCalls[..i] + [readCalls[i]];
  }

  lemma RefuseRaises(readCalls: seq<Call>, kind: Call -> Kind, stop: Stop, i: nat, answered: seq<Call>,
                     valid: seq<Call>)
    requires Refusing(readCalls, kind, stop, i, answered, valid) && i < |readCalls| && NoWrites(readCalls, kind)
    requires stop == RaiseAfter(|answered|)
    ensures stop.n < |ReadsOf(readCalls, kind)| && answered == ReadsOf(readCalls, kind)[..stop.n]
  {
    OfKindPrefix(readCalls, i, kind, RefusedRead);
    ReadsCount(readCalls, kind);
    ReadsCount(readCalls[..i], kind);
  }

  /** Reads, refused ones first; an exception comes about if fewer results than reads precede it. */
  method AnswerReads(history: ConversationHistory, style: Style, readCalls: seq<Call>, kind: Call -> Kind,
                     answer: Call -> string, stop: Stop)
    returns (raised: bool, answered: seq<Call>)
    requires NoWrites(readCalls, kind)
    modifies history`messages
    ensures Answering(history.messages, old(history.messages), style, answered, answer)
    ensures raised <==> stop.RaiseAfter? && stop.n < |ReadsOf(readCalls, kind)|
    ensures stop.RaiseAfter? && stop.n < |ReadsOf(readCalls, kind)| ==> answered == ReadsOf(readCalls, kind)[..stop.n]
    ensures !raised ==> answered == ReadsOf(readCalls, kind)
  {
    ghost var before := history.messages;
    answered := [];
    var valid: seq<Call> := [];
    assert before + Results(style, [], answer) == before;
    for i := 0 to |readCalls|
      invariant Answering(history.messages, before, style, answered, answer)
      invariant Refusing(readCalls, kind, stop, i, answered, valid)
    {
      if stop == RaiseAfter(|answered|) {
        RefuseRaises(readCalls, kind, stop, i, answered, valid);
        return true, answered;
      }
      RefuseNext(readCalls, kind, stop, i, answered, valid);
      if kind(readCalls[i]) == RefusedRead {
        AppendToolResult(history, style, readCalls[i], answer, before, answered);
        answered := answered + [readCalls[i]];
        continue;
      }
      valid := valid + [readCalls[i]];
    }
    assert readCalls[..|readCalls|] == readCalls;
    ghost var refused := answered;
    for i := 0 to |valid|
      invariant Answering(history.messages, before, style, answered, answer)
      invariant answered == refused + valid[..i] && (stop.RaiseAfter? ==> |answered| <= stop.n)
    {
      if stop == RaiseAfter(|answered|) {
        return true, answered;
      }
      AppendToolResult(history, style, valid[i], answer, before, answered);
      answered := answered + [valid[i]];
    }
    return false, answered;
  }

  lemma {:induction false} OfKindPrefix(calls: seq<Call>, n: nat, kind: Call -> Kind, k: Kind)
    requires n <= |calls|
    ensures OfKind(calls[..n], kind, k) <= OfKind(calls, kind, k)
    decreases |calls|
  {
    if n == |calls| {
      assert calls[..n] == calls;
    } else {
      OfKindPrefix(calls[..|calls| - 1], n, kind, k);
      assert calls[..|calls| - 1][..n] == calls[..n];
    }
  }

  /** The writes one after the other, behind the answered reads. */
  method AnswerWrites(history: ConversationHistory, style: Style, writeCalls: seq<Call>, answer: Call -> string,
                      stop: Stop, ghost before: seq<Message>, readCalls: seq<Call>)
    returns (end: BatchEnd, answered: seq<Call>)
    requires Answering(history.messages, before, style, readCalls, answer)
    requires stop.RaiseAfter? ==> |readCalls| <= stop.n
    modifies history`messages
    ensures Answering(history.messages, before, style, answered, answer)
    ensures end == Cancelled <==> stop.CancelBeforeWrite? && stop.n < |writeCalls|
    ensures end == Raised <==> stop.RaiseAfter? && stop.n <= |readCalls + writeCalls|
    ensures stop.CancelBeforeWrite? && stop.n < |writeCalls| ==> answered == readCalls + writeCalls[..stop.n]
    ensures stop.RaiseAfter? && stop.n <= |readCalls + writeCalls| ==> answered == (readCalls + writeCalls)[..stop.n]
    ensures end == Complete ==> answered == readCalls + writeCalls
  {
    answered := readCalls;
    for i := 0 to |writeCalls|
      invariant Answering(history.messages, before, style, answered, answer)
      invariant answered == readCalls + writeCalls[..i]
      invariant (stop.CancelBeforeWrite? ==> i <= stop.n) && (stop.RaiseAfter? ==> |answered| <= stop.n)
    {
      if stop == CancelBeforeWrite(i) {
        return Cancelled, answered;
      }
      if stop == RaiseAfter(|answered|) {
        return Raised, answered;
      }
      AppendToolResult(history, style, writeCalls[i], answer, before, answered);
      answered := answered + [writeCalls[i]];
    }
    if stop == RaiseAfter(|answered|) {
      return Raised, answered;
    }
    return Complete, answered;
  }

  lemma PartitionIsOrder(calls: seq<Call>, kind: Call -> Kind)
    ensures NoWrites(Reads(calls, kind), kind)
    ensures ReadsOf(Reads(calls, kind), kind) == ReadsOf(calls, kind)
    ensures Order(calls, kind) == ReadsOf(calls, kind) + OfKind(calls, kind, Write)
  {
    ReadsOfKind(calls, kind, RefusedRead);
    ReadsOfKind(calls, kind, Read);
    ReadsAreReads(calls, kind);
  }

  method RunCalls(history: ConversationHistory, style: Style, calls: seq<Call>, text: string,
                  kind: Call -> Kind, answer: Call -> string, stop: Stop)
    returns (end: BatchEnd, answered: seq<Call>)
    requires ValidCalls(calls) && calls != []
    modifies history`messages
    ensures end == EndOf(calls, kind, stop) && answered == Answered(calls, kind, stop)
    ensures history.messages ==
            old(history.messages) + [CallsMessage(style, calls, text)] + Results(style, answered, answer)
  {
    CallsMessageOpens(style, calls, text);
    history.AddRawMessage(CallsMessage(style, calls, text));
    ghost var before := history.messages;
    var readCalls, writeCalls := PartitionTools(calls, kind);
    PartitionIsOrder(calls, kind);
    var raised, done := AnswerReads(history, style, readCalls, kind, answer, stop);
    if raised {
      return Raised, done;
    }
    end, answered := AnswerWrites(history, style, writeCalls, answer, stop, before, done);
  }

  /** The assistant message with its calls, and the results as far as the batch gets. */
  method ExecuteBatch(history: ConversationHistory, style: Style, calls: seq<Call>, text: string,
                      kind: Call -> Kind, answer: Call -> string, stop: Stop)
    returns (end: BatchEnd, answered: seq<Call>)
    requires ValidCalls(calls) && calls != []
    modifies history`messages
    ensures end == EndOf(calls, kind, stop) && answered == Answered(calls, kind, stop)
    ensures history.messages ==
            old(history.messages) + [CallsMessage(style, calls, text)] + Results(style, answered, answer)
    ensures CarriesBatch(old(history.messages), history.messages, style, calls, text, answered, answer)
  {
    ghost var before := history.messages;
    end, answered := RunCalls(history, style, calls, text, kind, answer, stop);
    BatchCarries(before, style, calls, text, answered, answer);
  }

  lemma {:induction false} AnsweredAreCalls(calls: seq<Call>, kind: Call -> Kind, answered: seq<Call>)
    requires ValidCalls(calls) && answered <= Order(calls, kind)
    ensures ValidCalls(answered) && IdSetOf(answered) <= IdSetOf(calls)
    ensures answered == Order(calls, kind) ==> IdSetOf(answered) == IdSetOf(calls)
  {
    OrderPermutes(calls, kind);
    var order := Order(calls, kind);
    ValidAppend(answered, order[|answered|..]);
    assert answered + order[|answered|..] == order;
  }

  /** The history behind a batch: exactly the unanswered calls are open, and where they wait the
      batch began right behind the old history. */
  lemma {:induction false} BatchLeavesOpen(h: seq<Message>, style: Style, calls: seq<Call>, text: string,
                                           kind: Call -> Kind,
                        answer: Call -> string, answered: seq<Call>)
    requires WellBatched(h) && ValidCalls(calls) && answered <= Order(calls, kind)
    ensures var now := h + [CallsMessage(style, calls, text)] + Results(style, answered, answer);
            && Batched(now) == Waiting(IdSetOf(calls) - IdSetOf(answered))
            && (WellBatched(now) <==> answered == Order(calls, kind))
            && (!WellBatched(now) ==> BatchStart(now) == |h|)
  {
    AnsweredAreCalls(calls, kind, answered);
    OpenLeft(calls, kind, answered);
    var m := CallsMessage(style, calls, text);
    assert Batched(h + [m]) == Waiting(IdSetOf(calls)) && CallIdsOf(m) == IdSetOf(calls) by {
      CallsMessageOpens(style, calls, text);
      BatchedSnoc(h, m);
    }
    ResultsClose(h + [m], IdSetOf(calls), style, answered, answer);
    var now := h + [m] + Results(style, answered, answer);
    if !WellBatched(now) {
      BatchBegins(h, m, Results(style, answered, answer));
    }
  }

  lemma {:induction false} BatchBegins(h: seq<Message>, m: Message, results: seq<Message>)
    requires WellBatched(h) && Batched(h + [m] + results).Waiting? && !WellBatched(h + [m] + results)
    requires Batched(h + [m] + results).open <= CallIdsOf(m) && forall r :: r in results ==> OnlyResults(r)
    ensures BatchStart(h + [m] + results) == |h|
  {
    var now := h + [m] + results;
    assert now[..|h|] == h && now[|h|] == m;
    forall k | |h| < k < |now| ensures OnlyResults(now[k]) {
      assert now[k] == results[k - |h| - 1] && results[k - |h| - 1] in results;
    }
    BatchStartIsUnique(now, |h|);
  }

  lemma {:induction false} SplitIds(left: seq<Call>, right: seq<Call>)
    requires ValidCalls(left + right)
    ensures IdSetOf(left + right) - IdSetOf(left) == IdSetOf(right)
  {
    ValidAppend(left, right);
  }

  lemma {:induction false} OpenLeft(calls: seq<Call>, kind: Call -> Kind, answered: seq<Call>)
    requires ValidCalls(calls) && answered <= Order(calls, kind)
    ensures IdSetOf(calls) - IdSetOf(answered) == IdSetOf(Order(calls, kind)[|answered|..])
    ensures answered == Order(calls, kind) <==> IdSetOf(calls) - IdSetOf(answered) == {}
  {
    OrderPermutes(calls, kind);
    var rest := Order(calls, kind)[|answered|..];
    assert answered + rest == Order(calls, kind);
    SplitIds(answered, rest);
    assert rest != [] ==> rest[|rest| - 1].id in IdSetOf(rest);
  }

  /** A cancelled batch leaves exactly the writes from the stop on open, and at least one. */
  lemma {:induction false} CancelLeavesWrites(calls: seq<Call>, kind: Call -> Kind, stop: Stop)
    requires ValidCalls(calls) && EndOf(calls, kind, stop) == Cancelled
    ensures var left := OfKind(calls, kind, Write)[stop.n..];
            && left != [] && Unanswered(calls, kind, stop) == left
            && IdSetOf(calls) - IdSetOf(Answered(calls, kind, stop)) == IdSetOf(left)
  {
    OpenLeft(calls, kind, Answered(calls, kind, stop));
    assert Order(calls, kind) == ReadsOf(calls, kind) + OfKind(calls, kind, Write);
  }
}
