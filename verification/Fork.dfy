/** The snapshot of a parent conversation that a forked subagent starts from: unanswered calls are
    removed, and a long history is cut and shortened without breaking the tool protocol. */
module Fork {
  import opened CallIds
  import opened Filters
  import opened Protocol
  import opened Summarizer

  const FORK_MAX_MESSAGES := 24
  const FORK_MAX_CHARS := 40_000
  const FIRST_LIMIT := 1_200
  const LAST_LIMIT := 64
  const CUT_MARK := "\n…[fork 内容已截断]…\n"
  const CUT_INPUT := "{\"_truncated\":true}"

  /** The size of a message as JSON text. */
  type Size = Message -> nat

  // ----- unanswered calls -----

  method UnpairedToolCallIds(h: seq<Message>) returns (pending: set<CallId>)
    ensures pending == Open(h)
  {
    pending := {};
    for n := 0 to |h|
      invariant pending == Open(h[..n])
    {
      assert h[..n + 1][..n] == h[..n];
      ghost var before := pending;
      var m := h[n];
      match m.role
      case Assistant =>
        for k := 0 to |m.calls|
          invariant pending == before + IdsOfCalls(m.calls[..k])
        {
          assert m.calls[..k + 1][..k] == m.calls[..k];
          if m.calls[k].id != NO_CALL {
            pending := pending + {m.calls[k].id};
          }
        }
        assert m.calls[..|m.calls|] == m.calls;
        if m.content.Blocks? {
          var blocks := m.content.blocks;
          for k := 0 to |blocks|
            invariant pending == before + IdsOfCalls(m.calls) + UseIds(blocks[..k])
          {
            assert blocks[..k + 1][..k] == blocks[..k];
            if blocks[k].ToolUse? && blocks[k].id != NO_CALL {
              pending := pending + {blocks[k].id};
            }
          }
          assert blocks[..|blocks|] == blocks;
        }
      case Tool =>
        pending := pending - IdSet(m.callId);
      case User =>
        if m.content.Blocks? {
          var blocks := m.content.blocks;
          for k := 0 to |blocks|
            invariant pending == before - ResultBlockIds(blocks[..k])
          {
            assert blocks[..k + 1][..k] == blocks[..k];
            if blocks[k].ToolResult? {
              pending := pending - IdSet(blocks[k].id);
            }
          }
          assert blocks[..|blocks|] == blocks;
        }
      case System =>
    }
    assert h[..|h|] == h;
  }

  function KeepCalls(calls: seq<Call>, pending: set<CallId>): seq<Call> {
    if calls == [] then []
    else
      var front, last := KeepCalls(calls[..|calls| - 1], pending), calls[|calls| - 1];
      if last.id in pending then front else front + [last]
  }

  lemma {:induction false} KeepCallsIds(calls: seq<Call>, pending: set<CallId>)
    ensures IdsOfCalls(KeepCalls(calls, pending)) == IdsOfCalls(calls) - pending
  {
    if calls != [] {
      var front, last := calls[..|calls| - 1], calls[|calls| - 1];
      KeepCallsIds(front, pending);
      var kept := KeepCalls(front, pending);
      assert (kept + [last])[..|kept|] == kept;
    }
  }

  function KeepUses(blocks: seq<Block>, pending: set<CallId>): seq<Block> {
    if blocks == [] then []
    else
      var front, last := KeepUses(blocks[..|blocks| - 1], pending), blocks[|blocks| - 1];
      if last.ToolUse? && last.id in pending then front else front + [last]
  }

  lemma {:induction false} KeepUsesIds(blocks: seq<Block>, pending: set<CallId>)
    ensures UseIds(KeepUses(blocks, pending)) == UseIds(blocks) - pending
  {
    if blocks != [] {
      var front, last := blocks[..|blocks| - 1], blocks[|blocks| - 1];
      KeepUsesIds(front, pending);
      var kept := KeepUses(front, pending);
      assert (kept + [last])[..|kept|] == kept;
    }
  }

  /** An assistant message without the calls in `pending`. */
  function Strip(m: Message, pending: set<CallId>): Message {
    if m.role != Assistant then m
    else
      m.(calls := KeepCalls(m.calls, pending),
         content := if m.content.Blocks? then Blocks(KeepUses(m.content.blocks, pending)) else m.content)
  }

  lemma StripIds(m: Message, pending: set<CallId>)
    ensures CallIdsOf(Strip(m, pending)) == CallIdsOf(m) - pending
    ensures ResultIdsOf(Strip(m, pending)) == ResultIdsOf(m)
  {
    KeepCallsIds(m.calls, pending);
    if m.content.Blocks? {
      KeepUsesIds(m.content.blocks, pending);
    }
  }

  /** Nothing but the calls is taken out of a message, and the rest stays in order. */
  lemma KeepsOthers(m: Message, pending: set<CallId>, keepCall: Call -> bool, keepBlock: Block -> bool)
    requires forall c :: keepCall(c) <==> c.id !in pending
    requires forall b :: keepBlock(b) <==> !(b.ToolUse? && b.id in pending)
    ensures Strip(m, pending) ==
            if m.role != Assistant then m
            else
              m.(calls := Select(m.calls, keepCall),
                 content := if m.content.Blocks? then Blocks(Select(m.content.blocks, keepBlock)) else m.content)
  {
    KeepCallsAre(m.calls, pending, keepCall);
    if m.content.Blocks? {
      KeepUsesAre(m.content.blocks, pending, keepBlock);
    }
  }

  lemma {:induction false} KeepCallsAre(calls: seq<Call>, pending: set<CallId>, keep: Call -> bool)
    requires forall c :: keep(c) <==> c.id !in pending
    ensures KeepCalls(calls, pending) == Select(calls, keep)
  {
    if calls != [] {
      KeepCallsAre(calls[..|calls| - 1], pending, keep);
    }
  }

  lemma {:induction false} KeepUsesAre(blocks: seq<Block>, pending: set<CallId>, keep: Block -> bool)
    requires forall b :: keep(b) <==> !(b.ToolUse? && b.id in pending)
    ensures KeepUses(blocks, pending) == Select(blocks, keep)
  {
    if blocks != [] {
      KeepUsesAre(blocks[..|blocks| - 1], pending, keep);
    }
  }

  /** A history stores no hollow message. */
  function AddRaw(h: seq<Message>, m: Message): seq<Message> {
    if Hollow(m) then h else h + [m]
  }

  /** Skipping an empty message changes nothing for the protocol. */
  lemma AddRawOpens(h: seq<Message>, m: Message)
    ensures Open(AddRaw(h, m)) == OpenAfter(Open(h), m)
    ensures OrphanFree(AddRaw(h, m)) <==> OrphanFree(h) && ResultIdsOf(m) <= Open(h)
  {
    OpenSnoc({}, h, m);
  }

  function StripAll(h: seq<Message>, pending: set<CallId>): seq<Message> {
    if h == [] then [] else AddRaw(StripAll(h[..|h| - 1], pending), Strip(h[|h| - 1], pending))
  }

  /** None of the calls in `pending` is ever answered. */
  ghost predicate NeverAnswered(h: seq<Message>, pending: set<CallId>) {
    forall m :: m in h ==> ResultIdsOf(m) !! pending
  }

  lemma StripStep(stripped: seq<Message>, open: set<CallId>, pending: set<CallId>, m: Message)
    requires Open(stripped) == open - pending
    ensures Open(AddRaw(stripped, Strip(m, pending))) == OpenAfter(open, m) - pending
    ensures OrphanFree(AddRaw(stripped, Strip(m, pending))) <==>
            OrphanFree(stripped) && ResultIdsOf(m) <= open && ResultIdsOf(m) !! pending
  {
    StripIds(m, pending);
    AddRawOpens(stripped, Strip(m, pending));
  }

  lemma NeverAnsweredSnoc(h: seq<Message>, m: Message, pending: set<CallId>)
    ensures NeverAnswered(h + [m], pending) <==> NeverAnswered(h, pending) && ResultIdsOf(m) !! pending
  {
    assert forall x :: x in h ==> x in h + [m];
    assert m in h + [m];
  }

  /** Removing calls takes them out of the open set, and makes their results orphans. */
  lemma {:induction false} StripRemoves(h: seq<Message>, pending: set<CallId>)
    ensures Open(StripAll(h, pending)) == Open(h) - pending
    ensures OrphanFree(StripAll(h, pending)) <==> OrphanFree(h) && NeverAnswered(h, pending)
  {
    if h != [] {
      var front, last := h[..|h| - 1], h[|h| - 1];
      StripRemoves(front, pending);
      StripStep(StripAll(front, pending), Open(front), pending, last);
      OpenSnoc({}, front, last);
      NeverAnsweredSnoc(front, last, pending);
      assert front + [last] == h;
    }
  }

  /** Removing the calls that end up unanswered always leaves no call open; it leaves no orphan
      result exactly if the parent has none and no call left open was ever answered. */
  lemma {:induction false} StripPairsExactly(h: seq<Message>)
    ensures Open(StripAll(h, Open(h))) == {}
    ensures Paired(StripAll(h, Open(h))) <==> OrphanFree(h) && NeverAnswered(h, Open(h))
  {
    StripRemoves(h, Open(h));
  }

  /** Call ids that are not used twice meet the condition. */
  lemma {:induction false} DistinctCallsNeverAnswered(h: seq<Message>, n: nat, later: seq<Message>)
    requires DistinctCalls(h + later) && OrphanFree(h) && n < |h|
    ensures ResultIdsOf(h[n]) !! Open(h + later)
    decreases |h| + |later|, |h|
  {
    if later != [] {
      var front, last := later[..|later| - 1], later[|later| - 1];
      assert (h + later)[..|h + later| - 1] == h + front;
      DistinctCallsNeverAnswered(h, n, front);
      AnsweredWasCalled(h, n);
      CalledInPrefix(h + front, |h|);
      assert (h + front)[..|h|] == h;
    } else if n == |h| - 1 {
      assert h + later == h;
    } else {
      assert h + later == h[..|h| - 1] + [h[|h| - 1]];
      DistinctCallsNeverAnswered(h[..|h| - 1], n, [h[|h| - 1]]);
    }
  }

  lemma {:induction false} AnsweredWasCalled(h: seq<Message>, n: nat)
    requires OrphanFree(h) && n < |h|
    ensures ResultIdsOf(h[n]) <= CalledIds(h)
  {
    OrphanFreePrefix(h, n + 1);
    assert h[..n + 1][..n] == h[..n];
    OpenIsCalled(h[..n]);
    CalledInPrefix(h, n);
  }

  lemma {:induction false} DistinctCallsStrip(h: seq<Message>)
    requires DistinctCalls(h) && OrphanFree(h)
    ensures NeverAnswered(h, Open(h))
  {
    assert h + [] == h;
    forall m | m in h ensures ResultIdsOf(m) !! Open(h) {
      var n :| 0 <= n < |h| && h[n] == m;
      DistinctCallsNeverAnswered(h, n, []);
    }
  }

  // ----- shortening -----

  function Max1(n: nat): nat {
    if n < 1 then 1 else n
  }

  function TextPreview(text: string, limit: nat): string {
    if |text| <= limit then text
    else
      var head := Max1(limit * 2 / 3);
      var tail := Max1(if limit > head then limit - head else 0);
      (if head <= |text| then text[..head] else text)
      + CUT_MARK
      + (if tail <= |text| then text[|text| - tail..] else text)
  }

  /** A text that is too long keeps its first two thirds of the limit and its end, with a mark between;
      what is kept is no longer than the limit. */
  lemma PreviewIs(text: string, limit: nat)
    ensures |text| <= limit ==> TextPreview(text, limit) == text
    ensures |text| > limit >= 2 ==>
              var head := if limit * 2 / 3 < 1 then 1 else limit * 2 / 3;
              var tail := limit - head;
              && 1 <= head && 1 <= tail
              && TextPreview(text, limit) ==
                 text[..head] + "\n…[fork 内容已截断]…\n" + text[|text| - tail..]
  {
  }

  function ShortenBlock(b: Block, limit: nat): Block {
    match b
    case TextBlock(text) => TextBlock(TextPreview(text, limit))
    case ToolUse(id, name, input) => ToolUse(id, name, if |input| > limit then CUT_INPUT else input)
    case ToolResult(id, content, isError) => ToolResult(id, TextPreview(content, limit), isError)
    case Image(_) => b
  }

  function ShortenBlocks(blocks: seq<Block>, limit: nat): seq<Block> {
    seq(|blocks|, i requires 0 <= i < |blocks| => ShortenBlock(blocks[i], limit))
  }

  function ShortenCall(call: Call, limit: nat): Call {
    call.(arguments := if |call.arguments| > limit then CUT_INPUT else call.arguments)
  }

  function ShortenCalls(calls: seq<Call>, limit: nat): seq<Call> {
    seq(|calls|, i requires 0 <= i < |calls| => ShortenCall(calls[i], limit))
  }

  lemma {:induction false} ShortenBlocksSame(blocks: seq<Block>, limit: nat)
    ensures UseIds(ShortenBlocks(blocks, limit)) == UseIds(blocks)
    ensures ResultBlockIds(ShortenBlocks(blocks, limit)) == ResultBlockIds(blocks)
  {
    if blocks != [] {
      ShortenBlocksSame(blocks[..|blocks| - 1], limit);
      ShortenBlocksFront(blocks, limit);
    }
  }

  lemma ShortenBlocksFront(blocks: seq<Block>, limit: nat)
    requires blocks != []
    ensures var short, last := ShortenBlocks(blocks, limit), |blocks| - 1;
            && |short| == |blocks| && short[..last] == ShortenBlocks(blocks[..last], limit)
            && short[last] == ShortenBlock(blocks[last], limit)
  {
  }

  lemma {:induction false} ShortenCallsSame(calls: seq<Call>, limit: nat)
    ensures IdsOfCalls(ShortenCalls(calls, limit)) == IdsOfCalls(calls)
  {
    if calls != [] {
      ShortenCallsSame(calls[..|calls| - 1], limit);
      var short := ShortenCalls(calls, limit);
      assert short[..|short| - 1] == ShortenCalls(calls[..|calls| - 1], limit);
    }
  }

  /** Same role, same ids: the protocol cannot tell the two apart. */
  ghost predicate SameProtocol(left: Message, right: Message) {
    && left.role == right.role && left.callId == right.callId
    && CallIdsOf(left) == CallIdsOf(right) && ResultIdsOf(left) == ResultIdsOf(right)
  }

  function ShortenContent(c: Content, limit: nat): Content {
    match c
    case Text(text) => Text(TextPreview(text, limit))
    case Blocks(blocks) => Blocks(ShortenBlocks(blocks, limit))
    case NoContent => NoContent
  }

  function Shorten(m: Message, limit: nat): Message {
    m.(calls := ShortenCalls(m.calls, limit), content := ShortenContent(m.content, limit))
  }

  /** Nothing in the message is longer than the limit. */
  predicate IsShort(m: Message, limit: nat) {
    && (forall c :: c in m.calls ==> |c.arguments| <= limit)
    && match m.content
       case NoContent => true
       case Text(text) => |text| <= limit
       case Blocks(blocks) => forall b :: b in blocks ==> IsShortBlock(b, limit)
  }

  predicate IsShortBlock(b: Block, limit: nat) {
    match b
    case TextBlock(text) => |text| <= limit
    case ToolUse(_, _, input) => |input| <= limit
    case ToolResult(_, content, _) => |content| <= limit
    case Image(_) => true
  }

  /** A message with nothing too long stays as it is. */
  lemma ShortStays(m: Message, limit: nat)
    requires IsShort(m, limit)
    ensures Shorten(m, limit) == m
  {
    assert ShortenCalls(m.calls, limit) == m.calls;
    if m.content.Blocks? {
      BlocksStay(m.content.blocks, limit);
    }
  }

  lemma BlocksStay(blocks: seq<Block>, limit: nat)
    requires forall b :: b in blocks ==> IsShortBlock(b, limit)
    ensures ShortenBlocks(blocks, limit) == blocks
  {
    forall i | 0 <= i < |blocks| ensures ShortenBlock(blocks[i], limit) == blocks[i] {
      assert blocks[i] in blocks;
    }
  }

  /** How a single block is shortened: its kind and id stay, and a long text becomes a preview. */
  lemma ShortenBlockIs(b: Block, limit: nat)
    ensures match b
            case TextBlock(text) => ShortenBlock(b, limit) == TextBlock(TextPreview(text, limit))
            case ToolUse(id, name, input) =>
              ShortenBlock(b, limit) ==
              ToolUse(id, name, if |input| > limit then "{\"_truncated\":true}" else input)
            case ToolResult(id, content, isError) =>
              ShortenBlock(b, limit) == ToolResult(id, TextPreview(content, limit), isError)
            case Image(_) => ShortenBlock(b, limit) == b
  {
  }

  lemma ShortenSame(m: Message, limit: nat)
    ensures SameProtocol(m, Shorten(m, limit))
  {
    ShortenCallsSame(m.calls, limit);
    if m.content.Blocks? {
      ShortenBlocksSame(m.content.blocks, limit);
    }
  }

  ghost predicate SameProtocols(left: seq<Message>, right: seq<Message>) {
    |left| == |right| && forall i :: 0 <= i < |left| ==> SameProtocol(left[i], right[i])
  }

  lemma SameFront(left: seq<Message>, right: seq<Message>)
    requires SameProtocols(left, right) && left != []
    ensures SameProtocols(left[..|left| - 1], right[..|right| - 1])
    ensures SameProtocol(left[|left| - 1], right[|right| - 1])
  {
    var n := |left| - 1;
    forall i | 0 <= i < n ensures SameProtocol(left[..n][i], right[..n][i]) {
      assert SameProtocol(left[i], right[i]);
    }
  }

  lemma SameAfter(open: set<CallId>, left: Message, right: Message)
    requires SameProtocol(left, right)
    ensures OpenAfter(open, left) == OpenAfter(open, right)
    ensures ResultIdsOf(left) == ResultIdsOf(right)
  {
  }

  lemma {:induction false} SameProtocolsPaired(open: set<CallId>, left: seq<Message>, right: seq<Message>)
    requires SameProtocols(left, right)
    ensures OpenFrom(open, left) == OpenFrom(open, right)
    ensures OrphanFreeFrom(open, left) <==> OrphanFreeFrom(open, right)
  {
    if left != [] {
      SameFront(left, right);
      var front := left[..|left| - 1];
      SameProtocolsPaired(open, front, right[..|right| - 1]);
      SameAfter(OpenFrom(open, front), left[|left| - 1], right[|right| - 1]);
    }
  }

  function TotalChars(h: seq<Message>, size: Size): nat {
    if h == [] then 0 else TotalChars(h[..|h| - 1], size) + size(h[|h| - 1])
  }

  /** The limit of the n-th pass: 1200, 600, 300, 150, 75, 37. */
  function LimitOf(pass: nat): nat {
    if pass == 0 then FIRST_LIMIT else LimitOf(pass - 1) / 2
  }

  function ShortenAll(h: seq<Message>, limit: nat): seq<Message> {
    seq(|h|, i requires 0 <= i < |h| => Shorten(h[i], limit))
  }

  function Passes(h: seq<Message>, n: nat): seq<Message> {
    if n == 0 then h else ShortenAll(Passes(h, n - 1), LimitOf(n - 1))
  }

  lemma ShortenAllSame(h: seq<Message>, limit: nat)
    ensures SameProtocols(h, ShortenAll(h, limit))
  {
    forall i | 0 <= i < |h| ensures SameProtocol(h[i], ShortenAll(h, limit)[i]) {
      ShortenSame(h[i], limit);
    }
  }

  /** Shortening keeps the number of messages, their roles and all ids. */
  lemma {:induction false} PassesSame(h: seq<Message>, n: nat)
    ensures SameProtocols(h, Passes(h, n))
    decreases n
  {
    if n > 0 {
      PassesSame(h, n - 1);
      ShortenAllSame(Passes(h, n - 1), LimitOf(n - 1));
      SameTransitive(h, Passes(h, n - 1), Passes(h, n));
    }
  }

  lemma SameTransitive(a: seq<Message>, b: seq<Message>, c: seq<Message>)
    requires SameProtocols(a, b) && SameProtocols(b, c)
    ensures SameProtocols(a, c)
  {
    forall i | 0 <= i < |a| ensures SameProtocol(a[i], c[i]) {
      assert SameProtocol(a[i], b[i]) && SameProtocol(b[i], c[i]);
    }
  }

  method ShortenPass(h: seq<Message>, limit: nat) returns (r: seq<Message>)
    ensures r == ShortenAll(h, limit)
  {
    r := [];
    for n := 0 to |h|
      invariant r == ShortenAll(h, limit)[..n]
    {
      r := r + [Shorten(h[n], limit)];
    }
  }

  /** The sixth limit is the first at or below the last one. */
  lemma {:induction false} LimitReached(pass: nat)
    requires pass <= 5
    ensures LimitOf(pass) <= LAST_LIMIT <==> pass == 5
  {
    assert LimitOf(1) == 600 && LimitOf(2) == 300;
    assert LimitOf(3) == 150 && LimitOf(4) == 75 && LimitOf(5) == 37;
  }

  /** The budget is not met after n passes. */
  predicate StillOver(h: seq<Message>, n: nat, size: Size) {
    TotalChars(Passes(h, n), size) > FORK_MAX_CHARS
  }

  /** Shortens in passes with halving limits, and stops as soon as the budget is met: at most
      six passes. */
  method TruncateForkPayloads(h: seq<Message>, size: Size) returns (bounded: seq<Message>, passes: nat)
    ensures passes <= 6 && bounded == Passes(h, passes)
    ensures TotalChars(bounded, size) <= FORK_MAX_CHARS || passes == 6
    ensures forall n :: 0 <= n < passes ==> StillOver(h, n, size)
  {
    bounded, passes := h, 0;
    var limit := FIRST_LIMIT;
    while TotalChars(bounded, size) > FORK_MAX_CHARS
      invariant bounded == Passes(h, passes) && passes <= 5 && limit == LimitOf(passes)
      invariant forall n :: 0 <= n < passes ==> StillOver(h, n, size)
      decreases 6 - passes
    {
      LimitReached(passes);
      assert StillOver(h, passes, size);
      bounded := ShortenPass(bounded, limit);
      passes := passes + 1;
      if limit <= LAST_LIMIT {
        break;
      }
      limit := limit / 2;
    }
  }

  // ----- cutting -----

  predicate Fits(h: seq<Message>, size: Size) {
    |h| <= FORK_MAX_MESSAGES && TotalChars(h, size) <= FORK_MAX_CHARS
  }

  /** `r` is `h` from a safe cut on, possibly shortened. */
  ghost predicate IsCompacted(h: seq<Message>, r: seq<Message>) {
    exists k, n ::
      && 0 <= k <= |h| && (k == 0 || SafeAt(h, k))
      && 0 <= n <= 6 && r == Passes(h[k..], n)
  }

  lemma CompactedIsPaired(h: seq<Message>, r: seq<Message>)
    requires Paired(h) && IsCompacted(h, r)
    ensures Paired(r)
  {
    var k, n :| 0 <= k <= |h| && (k == 0 || SafeAt(h, k)) && 0 <= n <= 6 && r == Passes(h[k..], n);
    assert k == 0 ==> h[..k] == [];
    CutWhereClosed(h, k);
    PassesSame(h[k..], n);
    SameProtocolsPaired({}, h[k..], r);
  }

  /** What remains behind the last safe split up to `c`. */
  function SuffixAt(h: seq<Message>, c: nat): seq<Message>
    requires c <= |h|
  {
    h[LastSafe(h, c)..]
  }

  /** The first candidate from `c` on whose suffix fits the snapshot. */
  function FirstFit(h: seq<Message>, c: nat, size: Size): (i: nat)
    requires c <= |h|
    ensures c <= i <= |h|
    ensures i < |h| ==> Fits(SuffixAt(h, i), size)
    ensures forall k :: c <= k < i ==> !Fits(SuffixAt(h, k), size)
    decreases |h| - c
  {
    if c == |h| || Fits(SuffixAt(h, c), size) then c else FirstFit(h, c + 1, size)
  }

  /** The first candidate from `c` on whose suffix has few enough messages. */
  function FirstShort(h: seq<Message>, c: nat): (i: nat)
    requires c <= |h|
    ensures c <= i <= |h|
    ensures i < |h| ==> |SuffixAt(h, i)| <= FORK_MAX_MESSAGES
    ensures forall k :: c <= k < i ==> |SuffixAt(h, k)| > FORK_MAX_MESSAGES
    decreases |h| - c
  {
    if c == |h| || |SuffixAt(h, c)| <= FORK_MAX_MESSAGES then c else FirstShort(h, c + 1)
  }

  function FirstCandidate(h: seq<Message>): (c: nat)
    ensures c <= |h| && c == if |h| > 24 then |h| - 24 else 0
  {
    if |h| > FORK_MAX_MESSAGES then |h| - FORK_MAX_MESSAGES else 0
  }

  /** Where the shortened snapshot starts when no suffix fits as it is. */
  function FallbackCut(h: seq<Message>): (cut: nat)
    ensures cut <= |h| && (cut == 0 || SafeAt(h, cut))
  {
    var short := FirstShort(h, FirstCandidate(h));
    if short < |h| then LastSafe(h, short) else 0
  }

  /** The candidates before `c` did not fit; `found` says whether one was short enough. */
  ghost predicate Searched(h: seq<Message>, size: Size, c: nat, seen: set<nat>, found: bool, fallback: nat) {
    var first := FirstCandidate(h);
    && first <= c <= |h|
    && (forall s :: s in seen ==> WasSplit(h, first, c, s))
    && FirstFit(h, c, size) == FirstFit(h, first, size)
    && if found then FirstShort(h, first) < c && fallback == LastSafe(h, FirstShort(h, first))
       else FirstShort(h, c) == FirstShort(h, first) && fallback == 0
  }

  ghost predicate WasSplit(h: seq<Message>, first: nat, c: nat, split: nat)
    requires c <= |h|
  {
    exists k :: first <= k < c && split == LastSafe(h, k)
  }

  /** A split that was looked at before decides nothing new. */
  lemma SearchSkips(h: seq<Message>, size: Size, c: nat, seen: set<nat>, found: bool, fallback: nat)
    requires c < |h| && Searched(h, size, c, seen, found, fallback) && LastSafe(h, c) in seen
    ensures Searched(h, size, c + 1, seen, found, fallback)
  {
    var first, split := FirstCandidate(h), LastSafe(h, c);
    assert WasSplit(h, first, c, split);
    var k :| first <= k < c && split == LastSafe(h, k);
    assert SuffixAt(h, k) == SuffixAt(h, c);
    SplitsStay(h, first, c, seen);
  }

  lemma {:induction false} SplitsStay(h: seq<Message>, first: nat, c: nat, seen: set<nat>)
    requires first <= c < |h| && forall s :: s in seen ==> WasSplit(h, first, c, s)
    ensures forall s :: s in seen + {LastSafe(h, c)} ==> WasSplit(h, first, c + 1, s)
  {
    forall s | s in seen + {LastSafe(h, c)} ensures WasSplit(h, first, c + 1, s) {
      if s in seen {
        var k :| first <= k < c && s == LastSafe(h, k);
        assert first <= k < c + 1;
      }
    }
  }

  /** A new split that does not fit. */
  lemma {:induction false} SearchGoesOn(h: seq<Message>, size: Size, c: nat, seen: set<nat>, found: bool, fallback: nat)
    requires c < |h| && Searched(h, size, c, seen, found, fallback) && !Fits(SuffixAt(h, c), size)
    ensures var now := !found && |SuffixAt(h, c)| <= FORK_MAX_MESSAGES;
            Searched(h, size, c + 1, seen + {LastSafe(h, c)}, found || now, if now then LastSafe(h, c) else fallback)
  {
    SplitsStay(h, FirstCandidate(h), c, seen);
  }

  /** How the snapshot is cut: not at all, before the first suffix that fits, or at the fallback
      with as many shortening passes as needed, at most six. */
  ghost predicate CutAsPromised(h: seq<Message>, r: seq<Message>, size: Size) {
    var first := FirstCandidate(h);
    if Fits(h, size) then r == h
    else if FirstFit(h, first, size) < |h| then r == SuffixAt(h, FirstFit(h, first, size))
    else
      exists n :: 0 <= n <= 6 && r == Passes(h[FallbackCut(h)..], n)
        && (TotalChars(r, size) <= FORK_MAX_CHARS || n == 6)
        && forall m :: 0 <= m < n ==> StillOver(h[FallbackCut(h)..], m, size)
  }

  lemma {:induction false} TotalSnoc(h: seq<Message>, m: Message, size: Size)
    ensures TotalChars([], size) == 0 && TotalChars(h + [m], size) == TotalChars(h, size) + size(m)
  {
    assert (h + [m])[..|h|] == h;
  }

  /** A history of at most 24 messages and 40000 characters is kept; of a longer one a suffix that fits
      is kept verbatim if there is one behind a safe split. */
  lemma CutIsVerbatim(h: seq<Message>, r: seq<Message>, size: Size, c: nat)
    requires CutAsPromised(h, r, size)
    ensures |h| <= 24 && TotalChars(h, size) <= 40_000 ==> r == h
    ensures FirstCandidate(h) <= c < |h| && |SuffixAt(h, c)| <= 24 && TotalChars(SuffixAt(h, c), size) <= 40_000 ==>
              && |r| <= 24 && TotalChars(r, size) <= 40_000
              && exists k :: 0 <= k <= |h| && (k == 0 || SafeAt(h, k)) && r == h[k..]
  {
    var first := FirstCandidate(h);
    if FirstCandidate(h) <= c < |h| && Fits(SuffixAt(h, c), size) {
      if Fits(h, size) {
        assert r == h[0..];
      } else {
        assert FirstFit(h, first, size) <= c;
        assert r == h[LastSafe(h, FirstFit(h, first, size))..];
      }
    }
  }

  lemma CutIsCompaction(h: seq<Message>, r: seq<Message>, size: Size)
    requires CutAsPromised(h, r, size)
    ensures IsCompacted(h, r)
  {
    var first := FirstCandidate(h);
    if Fits(h, size) {
      assert h[0..] == h && Passes(h[0..], 0) == r;
    } else if FirstFit(h, first, size) < |h| {
      assert Passes(h[LastSafe(h, FirstFit(h, first, size))..], 0) == r;
    }
  }

  /** The snapshot has at most 24 messages whenever some safe cut leaves so few. */
  lemma CutIsShort(h: seq<Message>, r: seq<Message>, size: Size, c: nat)
    requires CutAsPromised(h, r, size)
    requires FirstCandidate(h) <= c < |h| && |SuffixAt(h, c)| <= FORK_MAX_MESSAGES
    ensures |r| <= FORK_MAX_MESSAGES
  {
    if !Fits(h, size) && FirstFit(h, FirstCandidate(h), size) == |h| {
      var n :| 0 <= n <= 6 && r == Passes(h[FallbackCut(h)..], n);
      PassesSame(h[FallbackCut(h)..], n);
    }
  }

  /** The first split whose suffix fits, or else the fallback. */
  ghost predicate SearchResult(h: seq<Message>, size: Size, fits: bool, split: nat) {
    var first := FirstFit(h, FirstCandidate(h), size);
    && (fits <==> first < |h|)
    && split == if first < |h| then LastSafe(h, first) else FallbackCut(h)
  }

  lemma SearchStarts(h: seq<Message>, size: Size)
    ensures Searched(h, size, FirstCandidate(h), {}, false, 0)
  {
  }

  lemma {:induction false} SearchHits(h: seq<Message>, size: Size, c: nat, seen: set<nat>, found: bool, fallback: nat)
    requires c < |h| && Searched(h, size, c, seen, found, fallback) && Fits(SuffixAt(h, c), size)
    ensures SearchResult(h, size, true, LastSafe(h, c))
  {
  }

  lemma SearchEnds(h: seq<Message>, size: Size, seen: set<nat>, found: bool, fallback: nat)
    requires Searched(h, size, |h|, seen, found, fallback)
    ensures SearchResult(h, size, false, fallback)
  {
  }

  /** Looks at one candidate, unless its split has been looked at before. */
  method TryCandidate(h: seq<Message>, size: Size, c: nat, seen: set<nat>, found: bool, fallback: nat)
      returns (fits: bool, split: nat, nowSeen: set<nat>, nowFound: bool, nowFallback: nat)
    requires c < |h| && Searched(h, size, c, seen, found, fallback)
    ensures fits ==> SearchResult(h, size, true, split)
    ensures !fits ==> Searched(h, size, c + 1, nowSeen, nowFound, nowFallback)
  {
    split := FindSafeSplit(h, c);
    nowSeen, nowFound, nowFallback := seen, found, fallback;
    if split in seen {
      SearchSkips(h, size, c, seen, found, fallback);
      return false, split, seen, found, fallback;
    }
    var suffix := h[split..];
    if Fits(suffix, size) {
      SearchHits(h, size, c, seen, found, fallback);
      return true, split, seen, found, fallback;
    }
    SearchGoesOn(h, size, c, seen, found, fallback);
    nowSeen := seen + {split};
    if |suffix| <= FORK_MAX_MESSAGES && !found {
      nowFound, nowFallback := true, split;
    }
    fits := false;
  }

  /** Tries the safe splits in turn; each is looked at once. */
  method SearchSplits(h: seq<Message>, size: Size) returns (fits: bool, split: nat)
    ensures SearchResult(h, size, fits, split)
  {
    var seen: set<nat> := {};
    var fallback, found := 0, false;
    SearchStarts(h, size);
    for candidate := FirstCandidate(h) to |h|
      invariant Searched(h, size, candidate, seen, found, fallback)
    {
      fits, split, seen, found, fallback := TryCandidate(h, size, candidate, seen, found, fallback);
      if fits {
        return;
      }
    }
    SearchEnds(h, size, seen, found, fallback);
    return false, fallback;
  }

  method CompactForkMessages(h: seq<Message>, size: Size) returns (r: seq<Message>)
    ensures CutAsPromised(h, r, size)
  {
    if Fits(h, size) {
      return h;
    }
    var fits, split := SearchSplits(h, size);
    if fits {
      return h[split..];
    }
    var passes;
    r, passes := TruncateForkPayloads(h[split..], size);
  }

  /** Cutting and shortening a history without open calls leaves orphan results exactly if the cut
      part had some. */
  lemma {:induction false} CompactedExactly(h: seq<Message>, k: nat, n: nat)
    requires Open(h) == {} && k <= |h| && (k == 0 || SafeAt(h, k))
    ensures Open(Passes(h[k..], n)) == {}
    ensures Paired(Passes(h[k..], n)) <==> OrphanFree(h[k..])
  {
    assert k == 0 ==> h[..k] == [];
    CutWhereClosed(h, k);
    PassesSame(h[k..], n);
    SameProtocolsPaired({}, h[k..], Passes(h[k..], n));
  }

  lemma CompactedIsClosed(h: seq<Message>, r: seq<Message>)
    requires Open(h) == {} && IsCompacted(h, r)
    ensures Open(r) == {}
  {
    var k, n :| 0 <= k <= |h| && (k == 0 || SafeAt(h, k)) && 0 <= n <= 6 && r == Passes(h[k..], n);
    CompactedExactly(h, k, n);
  }

  /** The whole snapshot.  It never has an unanswered call; it has no orphan result if the parent
      has none and no call that the parent leaves open was ever answered. */
  method ForkHistory(parent: seq<Message>, size: Size) returns (r: seq<Message>)
    ensures CutAsPromised(StripAll(parent, Open(parent)), r, size)
    ensures Open(r) == {}
    ensures OrphanFree(parent) && NeverAnswered(parent, Open(parent)) ==> Paired(r)
    ensures OrphanFree(parent) && DistinctCalls(parent) ==> Paired(r)
    ensures Fits(StripAll(parent, Open(parent)), size) ==>
              (Paired(r) <==> OrphanFree(parent) && NeverAnswered(parent, Open(parent)))
  {
    var pending := UnpairedToolCallIds(parent);
    var fork: seq<Message> := [];
    for n := 0 to |parent|
      invariant fork == StripAll(parent[..n], pending)
    {
      assert parent[..n + 1][..n] == parent[..n];
      fork := AddRaw(fork, Strip(parent[n], pending));
    }
    assert parent[..|parent|] == parent;
    r := CompactForkMessages(fork, size);
    StripPairsExactly(parent);
    CutIsCompaction(fork, r, size);
    CompactedIsClosed(fork, r);
    if Paired(fork) {
      CompactedIsPaired(fork, r);
    }
    if OrphanFree(parent) && DistinctCalls(parent) {
      DistinctCallsStrip(parent);
    }
  }

  /** The cut of a single message keeps it. */
  lemma LoneCut(m: Message, r: seq<Message>, size: Size)
    requires CutAsPromised([m], r, size)
    ensures exists n :: 0 <= n <= 6 && r == Passes([m], n)
  {
    var h := [m];
    assert FirstCandidate(h) == 0 && LastSafe(h, 0) == 0 && h[0..] == h;
    assert Passes(h, 0) == h;
    assert FirstFit(h, 0, size) < |h| ==> FirstFit(h, 0, size) == 0;
    assert FirstShort(h, 0) == 0 && FallbackCut(h) == 0;
  }

  lemma LoneResult(result: Message, r: seq<Message>, size: Size)
    requires CutAsPromised([result], r, size) && ResultIdsOf(result) != {}
    ensures !OrphanFree(r)
  {
    LoneCut(result, r, size);
    var n :| 0 <= n <= 6 && r == Passes([result], n);
    PassesSame([result], n);
    SameProtocolsPaired({}, [result], r);
    assert [result][..0] == [];
  }

  /** With a reused call id the snapshot loses the call of a result it keeps, whatever the sizes. */
  lemma ReusedIdOrphansResult(call: Call, text: string, r: seq<Message>, size: Size)
    requires call.id != NO_CALL
    requires var opening := Message(Assistant, NoContent, [call], NO_CALL, "");
             var parent := [opening, Message(Tool, Text(text), [], call.id, call.name), opening];
             CutAsPromised(StripAll(parent, Open(parent)), r, size)
    ensures !OrphanFree(r)
  {
    var opening := Message(Assistant, NoContent, [call], NO_CALL, "");
    var result := Message(Tool, Text(text), [], call.id, call.name);
    var parent := [opening, result, opening];
    StrippedReuse(call, text);
    LoneResult(result, r, size);
  }

  lemma StrippedReuse(call: Call, text: string)
    requires call.id != NO_CALL
    ensures var opening := Message(Assistant, NoContent, [call], NO_CALL, "");
            var result := Message(Tool, Text(text), [], call.id, call.name);
            var parent := [opening, result, opening];
            OrphanFree(parent) && StripAll(parent, Open(parent)) == [result]
  {
    var opening := Message(Assistant, NoContent, [call], NO_CALL, "");
    var result := Message(Tool, Text(text), [], call.id, call.name);
    assert [call][..0] == [];
    assert IdsOfCalls([call]) == {call.id};
    assert CallIdsOf(opening) == {call.id} && ResultIdsOf(opening) == {};
    assert CallIdsOf(result) == {} && ResultIdsOf(result) == {call.id};
    assert OpenAfter({}, opening) == {call.id} && OpenAfter({call.id}, result) == {};
    OpenSnoc({}, [], opening);
    OpenSnoc({}, [opening], result);
    OpenSnoc({}, [opening, result], opening);
    assert [] + [opening] == [opening] && [opening] + [result] == [opening, result];
    var parent := [opening, result] + [opening];
    assert parent == [opening, result, opening] && Open(parent) == {call.id};
    assert KeepCalls([call], {call.id}) == [];
    assert Hollow(Strip(opening, {call.id}));
    StripAllSnoc([], opening, {call.id});
    StripAllSnoc([opening], result, {call.id});
    StripAllSnoc([opening, result], opening, {call.id});
    assert StripAll(parent, {call.id}) == [result];
  }

  lemma {:induction false} StripAllSnoc(h: seq<Message>, m: Message, pending: set<CallId>)
    ensures StripAll(h + [m], pending) == AddRaw(StripAll(h, pending), Strip(m, pending))
  {
    assert (h + [m])[..|h|] == h;
  }
}
