/** Rolling compression of a conversation: an old prefix is replaced by one summary, cut where
    no tool exchange is split and no image is lost. */
module Summarizer {
  import opened CallIds
  import opened Protocol

  const KEEP_RECENT := 4
  const SUMMARY_PREFIX := "[结构化摘要]\n"
  const BOUNDARY_PREFIX := "[对话上下文已压缩]"
  const HINT_ONE := " 上方的结构化摘要替代了早期的详细对话。"
  const HINT_TWO := "如果你需要某个文件的完整内容或某段具体代码，请使用 read_file 或 grep "
  const HINT_THREE := "重新读取，不要根据摘要脑补不存在的细节。"
  const BOUNDARY_TEXT := BOUNDARY_PREFIX + (HINT_ONE + HINT_TWO + HINT_THREE)

  datatype Reply = Failed | Summary(text: string)

  datatype Outcome = TooShort | OnlyImages | NoSafeSplit | SummaryFailed | Compressed(count: nat)

  function SummaryMessage(text: string): Message {
    Plain(System, Text(SUMMARY_PREFIX + text))
  }

  function BoundaryMessage(): Message {
    Plain(System, Text(BOUNDARY_TEXT))
  }

  predicate SystemStarting(m: Message, prefix: string) {
    m.role == System && m.content.Text? && prefix <= m.content.text
  }

  /** Whether a history starts with a summary and its boundary. */
  predicate HasCompressionPrefix(h: seq<Message>) {
    |h| >= 2 && SystemStarting(h[0], SUMMARY_PREFIX) && SystemStarting(h[1], BOUNDARY_PREFIX)
  }

  lemma PrefixExactly(h: seq<Message>)
    ensures HasCompressionPrefix(h) <==>
            && |h| >= 2 && h[0].role == System && h[1].role == System && h[0].content.Text? && h[1].content.Text?
            && "[结构化摘要]\n" <= h[0].content.text && "[对话上下文已压缩]" <= h[1].content.text
  {
  }

  // ----- safe splits -----

  predicate StartsTurn(m: Message) {
    ResultIdsOf(m) == {} && (m.role == User || m.role == System)
  }

  /** Cutting before `split` keeps the summary pair whole, starts at a turn boundary and splits
      no exchange. */
  predicate SafeAt(h: seq<Message>, split: nat)
    requires split <= |h|
  {
    && 0 < split
    && !(split == 1 && HasCompressionPrefix(h))
    && (split < |h| ==> StartsTurn(h[split]))
    && Open(h[..split]) == {}
  }

  /** The last safe split up to `upper`, or 0. */
  function LastSafe(h: seq<Message>, upper: nat): (split: nat)
    requires upper <= |h|
    ensures split <= upper
    ensures split > 0 ==> SafeAt(h, split)
    ensures forall k :: split < k <= upper ==> !SafeAt(h, k)
  {
    if upper == 0 || SafeAt(h, upper) then upper else LastSafe(h, upper - 1)
  }

  function Clamp(desired: int, n: nat): nat {
    if desired <= 0 then 0 else if desired <= n then desired else n
  }

  /** The calls left open by the messages before `split`. */
  method OpenCalls(h: seq<Message>, split: nat) returns (openCalls: set<CallId>)
    requires split <= |h|
    ensures openCalls == Open(h[..split])
  {
    openCalls := {};
    for n := 0 to split
      invariant openCalls == Open(h[..n])
    {
      assert h[..n + 1][..n] == h[..n];
      openCalls := openCalls + CallIdsOf(h[n]);
      openCalls := openCalls - ResultIdsOf(h[n]);
    }
  }

  method FindSafeSplit(h: seq<Message>, desired: int) returns (split: nat)
    ensures split == LastSafe(h, Clamp(desired, |h|))
  {
    split := Clamp(desired, |h|);
    while split > 0
      invariant split <= |h|
      invariant LastSafe(h, split) == LastSafe(h, Clamp(desired, |h|))
    {
      if split == 1 && HasCompressionPrefix(h) {
        split := split - 1;
        continue;
      }
      if split < |h| && ResultIdsOf(h[split]) != {} {
        split := split - 1;
        continue;
      }
      if split < |h| && h[split].role != User && h[split].role != System {
        split := split - 1;
        continue;
      }
      var openCalls := OpenCalls(h, split);
      if openCalls == {} {
        return;
      }
      split := split - 1;
    }
  }

  // ----- one compression -----

  /** The first message with an image, or the length. */
  function FirstImage(h: seq<Message>): (i: nat)
    ensures i <= |h|
    ensures i < |h| ==> HasImage(h[i])
    ensures forall k :: 0 <= k < i ==> !HasImage(h[k])
  {
    if h == [] then 0
    else
      var i := FirstImage(h[..|h| - 1]);
      if i < |h| - 1 || HasImage(h[|h| - 1]) then i else |h|
  }

  function KeepRecent(n: nat): nat {
    var half := if n / 2 > 1 then n / 2 else 1;
    if half < KEEP_RECENT then half else KEEP_RECENT
  }

  function DesiredSplit(h: seq<Message>): int {
    var desired, image := |h| - KeepRecent(|h|), FirstImage(h);
    if image < |h| && image < desired then image else desired
  }

  function Attempt(h: seq<Message>, reply: Reply): Outcome {
    if |h| < 3 then TooShort
    else if FirstImage(h) < |h| && HasCompressionPrefix(h) && DesiredSplit(h) <= 2 then OnlyImages
    else
      var split := LastSafe(h, Clamp(DesiredSplit(h), |h|));
      if split == 0 then NoSafeSplit
      else if reply == Failed then SummaryFailed
      else Compressed(split)
  }

  function Summarized(h: seq<Message>, reply: Reply): seq<Message> {
    var outcome := Attempt(h, reply);
    if outcome.Compressed? then [SummaryMessage(reply.text), BoundaryMessage()] + h[outcome.count..] else h
  }

  /** Opens after enough consecutive failures and stops automatic compression. */
  class StructuredSummarizer {
    const maxFailures: nat
    var failures: nat
    var circuitOpen: bool

    ghost predicate Valid()
      reads this
    {
      circuitOpen <==> maxFailures <= failures
    }

    constructor (maxFailures: nat)
      requires maxFailures > 0
      ensures Valid() && failures == 0
    {
      this.maxFailures := maxFailures;
      failures, circuitOpen := 0, false;
    }

    method Summarize(h: seq<Message>, reply: Reply) returns (r: seq<Message>, outcome: Outcome)
      requires Valid() && maxFailures > 0
      modifies this
      ensures Valid()
      ensures r == Summarized(h, reply) && outcome == Attempt(h, reply)
      ensures outcome.Compressed? ==>
                && outcome.count <= |h| && |r| == 2 + |h| - outcome.count && r[2..] == h[outcome.count..]
                && r[0] == Message(System, Text("[结构化摘要]\n" + reply.text), [], NO_CALL, "")
                && r[1] == BoundaryMessage()
      ensures !outcome.Compressed? ==> r == h
      ensures failures == if outcome == SummaryFailed then old(failures) + 1
                          else if outcome.Compressed? then 0 else old(failures)
    {
      if |h| < 3 {
        return h, TooShort;
      }
      var desired, image := |h| - KeepRecent(|h|), FirstImage(h);
      if image < |h| && image < desired {
        desired := image;
      }
      assert desired == DesiredSplit(h);
      if image < |h| && HasCompressionPrefix(h) && desired <= 2 {
        return h, OnlyImages;
      }
      var split := FindSafeSplit(h, desired);
      if split == 0 {
        return h, NoSafeSplit;
      }
      if reply == Failed {
        failures := failures + 1;
        if failures >= maxFailures {
          circuitOpen := true;
        }
        return h, SummaryFailed;
      }
      failures, circuitOpen := 0, false;
      return [SummaryMessage(reply.text), BoundaryMessage()] + h[split..], Compressed(split);
    }
  }

  // ----- rolling compression -----

  datatype Event = Append(messages: seq<Message>) | Compress(reply: Reply)

  function Step(h: seq<Message>, e: Event): seq<Message> {
    match e
    case Append(messages) => h + messages
    case Compress(reply) => Summarized(h, reply)
  }

  function Run(h: seq<Message>, events: seq<Event>): seq<Message> {
    if events == [] then h else Step(Run(h, events[..|events| - 1]), events[|events| - 1])
  }

  /** Everything that was ever said. */
  function Transcript(h: seq<Message>, events: seq<Event>): seq<Message> {
    if events == [] then h
    else
      var last := events[|events| - 1];
      Transcript(h, events[..|events| - 1]) + (if last.Append? then last.messages else [])
  }

  /** `h` is the whole transcript, or one summary pair and the transcript from k on, where the
      cut splits no exchange, loses no image and leaves a suffix that starts a turn. */
  ghost predicate Rolled(h: seq<Message>, full: seq<Message>, k: nat, text: string) {
    && k <= |full|
    && (if k == 0 then h == full else h == [SummaryMessage(text), BoundaryMessage()] + full[k..])
    && (k > 0 ==> k < |full| && StartsTurn(full[k]))
    && Open(full[..k]) == {}
    && forall i :: 0 <= i < k ==> !HasImage(full[i])
  }

  lemma PairIsNeutral(text: string)
    ensures CallIdsOf(SummaryMessage(text)) == {} && ResultIdsOf(SummaryMessage(text)) == {}
    ensures CallIdsOf(BoundaryMessage()) == {} && ResultIdsOf(BoundaryMessage()) == {}
  {
  }

  lemma PairOpens(text: string, rest: seq<Message>)
    ensures var pair := [SummaryMessage(text), BoundaryMessage()];
            Open(pair + rest) == Open(rest) && (OrphanFree(pair + rest) <==> OrphanFree(rest))
  {
    var first, second := SummaryMessage(text), BoundaryMessage();
    PairIsNeutral(text);
    OpenSnoc({}, [], first);
    OpenSnoc({}, [first], second);
    assert [] + [first] == [first] && [first] + [second] == [first, second];
    OpenAppend({}, [first, second], rest);
  }

  lemma PairIsPrefix(text: string, rest: seq<Message>)
    ensures HasCompressionPrefix([SummaryMessage(text), BoundaryMessage()] + rest)
  {
    assert SUMMARY_PREFIX <= SUMMARY_PREFIX + text;
    assert BOUNDARY_PREFIX <= BOUNDARY_TEXT;
  }

  /** Cutting behind an existing pair cuts the transcript further on. */
  lemma SlicePair(full: seq<Message>, pair: seq<Message>, k: nat, split: nat)
    requires k <= |full| && |pair| == 2 && 2 <= split <= |full| - k + 2
    ensures var h, k' := pair + full[k..], k + split - 2;
            && h[split..] == full[k'..] && h[..split] == pair + full[k..k']
            && full[..k] + full[k..k'] == full[..k']
  {
  }

  lemma CutBehindPair(full: seq<Message>, k: nat, text: string, split: nat)
    requires k <= |full| && Open(full[..k]) == {} && 2 <= split <= |full| - k + 2
    ensures var h := [SummaryMessage(text), BoundaryMessage()] + full[k..];
            h[split..] == full[k + split - 2..] && Open(full[..k + split - 2]) == Open(h[..split])
  {
    var k' := k + split - 2;
    SlicePair(full, [SummaryMessage(text), BoundaryMessage()], k, split);
    PairOpens(text, full[k..k']);
    OpenAppend({}, full[..k], full[k..k']);
  }

  lemma AttemptIsSafe(h: seq<Message>, reply: Reply)
    ensures var outcome := Attempt(h, reply);
            outcome.Compressed? ==>
              var split := outcome.count;
              && 0 < split < |h| && SafeAt(h, split)
              && forall i :: 0 <= i < split ==> !HasImage(h[i])
  {
    var outcome := Attempt(h, reply);
    if outcome.Compressed? {
      assert outcome.count == LastSafe(h, Clamp(DesiredSplit(h), |h|));
    }
  }

  /** How many messages at the end are always kept: half of them, but one at least and four at most. */
  lemma KeepRecentIs(n: nat)
    ensures KeepRecent(n) == if n < 4 then 1 else if n < 8 then n / 2 else 4
  {
  }

  /** A place to cut: protocol-safe, with no image before it, and far enough from the end. */
  ghost predicate CutsAt(h: seq<Message>, k: nat) {
    && 0 < k <= |h| && k + KeepRecent(|h|) <= |h| && SafeAt(h, k)
    && forall i :: 0 <= i < k ==> !HasImage(h[i])
  }

  /** Behind an earlier summary, an image among the first three messages or a history of less than
      four messages leaves nothing new to compress. */
  ghost predicate NothingNew(h: seq<Message>) {
    && HasCompressionPrefix(h) && (exists i :: 0 <= i < |h| && HasImage(h[i]))
    && (|h| - KeepRecent(|h|) <= 2 || exists i :: 0 <= i <= 2 && i < |h| && HasImage(h[i]))
  }

  lemma LastSafeIsLast(h: seq<Message>, desired: int, k: nat)
    requires 0 < k <= desired <= |h| && SafeAt(h, k)
    ensures LastSafe(h, Clamp(desired, |h|)) >= k
  {
  }

  /** A history is compressed exactly if the summary came and there is a place to cut, and then at the
      last such place; what lies behind it is kept. */
  lemma AttemptExactly(h: seq<Message>, reply: Reply)
    ensures var outcome := Attempt(h, reply);
            && (outcome.Compressed? <==>
                  |h| >= 3 && reply.Summary? && !NothingNew(h) && exists k: nat :: CutsAt(h, k))
            && (outcome.Compressed? ==>
                  && CutsAt(h, outcome.count) && forall k: nat :: CutsAt(h, k) ==> k <= outcome.count)
  {
    var outcome, desired := Attempt(h, reply), DesiredSplit(h);
    if |h| >= 3 {
      forall k: nat | CutsAt(h, k) ensures k <= desired && k <= LastSafe(h, Clamp(desired, |h|)) {
        assert FirstImage(h) < |h| ==> HasImage(h[FirstImage(h)]);
        LastSafeIsLast(h, desired, k);
      }
      var split := LastSafe(h, Clamp(desired, |h|));
      if split > 0 {
        assert CutsAt(h, split);
      }
    }
  }

  lemma AttemptKeepsRecent(h: seq<Message>, reply: Reply)
    ensures Attempt(h, reply).Compressed? ==> Attempt(h, reply).count + KeepRecent(|h|) <= |h|
  {
  }

  lemma EndIsKept(pair: seq<Message>, h: seq<Message>, k: nat, n: nat)
    requires k + n <= |h|
    ensures (pair + h[k..])[|pair| + |h| - k - n..] == h[|h| - n..]
  {
  }

  /** The most recent messages survive every compression, in order and at the end. */
  lemma RecentSurvive(h: seq<Message>, reply: Reply)
    ensures var r, n := Summarized(h, reply), if |h| < 4 then 1 else if |h| < 8 then |h| / 2 else 4;
            n <= |h| ==> n <= |r| && r[|r| - n..] == h[|h| - n..]
  {
    KeepRecentIs(|h|);
    AttemptKeepsRecent(h, reply);
    var outcome := Attempt(h, reply);
    if outcome.Compressed? {
      EndIsKept([SummaryMessage(reply.text), BoundaryMessage()], h, outcome.count, KeepRecent(|h|));
    }
  }

  /** Cutting behind the pair rolls the summary forward. */
  lemma CutRolls(full: seq<Message>, k: nat, text: string, split: nat, newText: string)
    requires 0 < k <= |full|
    requires Rolled([SummaryMessage(text), BoundaryMessage()] + full[k..], full, k, text)
    requires var h := [SummaryMessage(text), BoundaryMessage()] + full[k..];
             && 2 <= split < |h| && SafeAt(h, split)
             && forall i :: 0 <= i < split ==> !HasImage(h[i])
    ensures var h := [SummaryMessage(text), BoundaryMessage()] + full[k..];
            Rolled([SummaryMessage(newText), BoundaryMessage()] + h[split..], full, k + split - 2, newText)
  {
    var h, k' := [SummaryMessage(text), BoundaryMessage()] + full[k..], k + split - 2;
    CutBehindPair(full, k, text, split);
    assert full[k'] == h[split];
    forall i | 0 <= i < k' ensures !HasImage(full[i]) {
      assert i >= k ==> full[i] == h[i - k + 2];
    }
  }

  lemma FirstCutRolls(full: seq<Message>, split: nat, text: string)
    requires 0 < split < |full| && SafeAt(full, split) && forall i :: 0 <= i < split ==> !HasImage(full[i])
    ensures Rolled([SummaryMessage(text), BoundaryMessage()] + full[split..], full, split, text)
  {
  }

  /** One more compression moves the cut forward and keeps the rest verbatim. */
  lemma CompressRolls(h: seq<Message>, full: seq<Message>, k: nat, text: string, reply: Reply)
      returns (k': nat, text': string)
    requires Rolled(h, full, k, text)
    ensures k <= k' && Rolled(Summarized(h, reply), full, k', text')
  {
    var outcome := Attempt(h, reply);
    AttemptIsSafe(h, reply);
    if !outcome.Compressed? {
      return k, text;
    }
    text' := reply.text;
    if k == 0 {
      k' := outcome.count;
      FirstCutRolls(h, k', reply.text);
    } else {
      PairIsPrefix(text, full[k..]);
      k' := k + outcome.count - 2;
      CutRolls(full, k, text, outcome.count, reply.text);
    }
  }

  lemma AppendRolls(h: seq<Message>, full: seq<Message>, k: nat, text: string, more: seq<Message>)
    requires Rolled(h, full, k, text)
    ensures Rolled(h + more, full + more, k, text)
  {
    assert (full + more)[..k] == full[..k];
    assert (full + more)[k..] == full[k..] + more;
    assert ([SummaryMessage(text), BoundaryMessage()] + full[k..]) + more
        == [SummaryMessage(text), BoundaryMessage()] + (full[k..] + more);
  }

  /** Any number of compressions between any appended messages. */
  lemma {:induction false} RunRolls(h: seq<Message>, events: seq<Event>) returns (k: nat, text: string)
    ensures Rolled(Run(h, events), Transcript(h, events), k, text)
    decreases |events|
  {
    if events == [] {
      k, text := 0, "";
      assert h[..0] == [];
    } else {
      var front, last := events[..|events| - 1], events[|events| - 1];
      k, text := RunRolls(h, front);
      match last
      case Append(messages) =>
        AppendRolls(Run(h, front), Transcript(h, front), k, text, messages);
      case Compress(reply) =>
        assert Transcript(h, front) + [] == Transcript(h, front);
        k, text := CompressRolls(Run(h, front), Transcript(h, front), k, text, reply);
    }
  }

  /** What a rolled history keeps of the transcript. */
  lemma RolledIsSound(h: seq<Message>, full: seq<Message>, k: nat, text: string)
    requires Rolled(h, full, k, text)
    ensures Open(h) == Open(full) && (OrphanFree(full) ==> OrphanFree(h))
  {
    if k > 0 {
      CutWhereClosed(full, k);
      PairOpens(text, full[k..]);
    }
  }

  lemma RolledKeepsImages(h: seq<Message>, full: seq<Message>, k: nat, text: string)
    requires Rolled(h, full, k, text)
    ensures forall m :: m in full && HasImage(m) ==> m in h
  {
    forall m | m in full && HasImage(m) ensures m in h {
      var i :| 0 <= i < |full| && full[i] == m;
      assert i >= k;
      if k > 0 {
        assert h[i - k + 2] == m;
      }
    }
  }

  /** What rolling compression keeps of the whole transcript: its open calls, the absence of
      orphan results, and every image message. */
  lemma {:induction false} RollingIsSound(h: seq<Message>, events: seq<Event>)
    ensures Open(Run(h, events)) == Open(Transcript(h, events))
    ensures OrphanFree(Transcript(h, events)) ==> OrphanFree(Run(h, events))
    ensures forall m :: m in Transcript(h, events) && HasImage(m) ==> m in Run(h, events)
  {
    var k, text := RunRolls(h, events);
    RolledIsSound(Run(h, events), Transcript(h, events), k, text);
    RolledKeepsImages(Run(h, events), Transcript(h, events), k, text);
  }
}
