/** Timestamps of a rewritten journal: each copy of a message inherits the timestamp its
    counterpart had. */
module SessionStamps {
  import opened Protocol
  import opened SessionRows

  /** How often `m` occurs among the first `n` messages. */
  function Copies(ms: seq<Message>, n: nat, m: Message): (k: nat)
    requires n <= |ms|
    ensures k <= n
    decreases n
  {
    if n == 0 then 0 else Copies(ms, n - 1, m) + (if ms[n - 1] == m then 1 else 0)
  }

  /** The timestamps of these copies, in order. */
  function StampsOf(ms: seq<Message>, stamps: seq<Stamp>, n: nat, m: Message): (r: seq<Stamp>)
    requires n <= |ms| == |stamps|
    ensures |r| == Copies(ms, n, m)
    decreases n
  {
    if n == 0 then []
    else StampsOf(ms, stamps, n - 1, m) + (if ms[n - 1] == m then [stamps[n - 1]] else [])
  }

  function StampFor(was: seq<Message>, stamps: seq<Stamp>, ms: seq<Message>, i: nat, now: Stamp): Stamp
    requires |was| == |stamps| && i < |ms|
  {
    var k := Copies(ms, i, ms[i]);
    if k < Copies(was, |was|, ms[i]) then StampsOf(was, stamps, |was|, ms[i])[k] else now
  }

  function RewriteStamps(was: seq<Message>, stamps: seq<Stamp>, ms: seq<Message>, now: Stamp): (r: seq<Stamp>)
    requires |was| == |stamps|
    ensures |r| == |ms|
  {
    seq(|ms|, i requires 0 <= i < |ms| => StampFor(was, stamps, ms, i, now))
  }

  // ----- the program's queues -----

  function Queue(queues: map<Message, seq<Stamp>>, m: Message): seq<Stamp> {
    if m in queues then queues[m] else []
  }

  /** The queues hold the timestamps of the first `n` old messages. */
  ghost predicate Filled(queues: map<Message, seq<Stamp>>, was: seq<Message>, stamps: seq<Stamp>, n: nat)
    requires n <= |was| == |stamps|
  {
    forall m :: Queue(queues, m) == StampsOf(was, stamps, n, m)
  }

  /** The first `n` new messages have each taken one timestamp, as long as there were any. */
  ghost predicate Drained(queues: map<Message, seq<Stamp>>, was: seq<Message>, stamps: seq<Stamp>, ms: seq<Message>,
                          n: nat)
    requires |was| == |stamps| && n <= |ms|
  {
    forall m :: Queue(queues, m) ==
                var all, k := StampsOf(was, stamps, |was|, m), Copies(ms, n, m);
                if k <= |all| then all[k..] else []
  }

  function Pushed(queues: map<Message, seq<Stamp>>, m: Message, stamp: Stamp): map<Message, seq<Stamp>> {
    queues[m := Queue(queues, m) + [stamp]]
  }

  lemma FillStart(was: seq<Message>, stamps: seq<Stamp>)
    requires |was| == |stamps|
    ensures Filled(map[], was, stamps, 0)
  {
  }

  lemma FillStep(queues: map<Message, seq<Stamp>>, was: seq<Message>, stamps: seq<Stamp>, n: nat)
    requires n < |was| == |stamps| && Filled(queues, was, stamps, n)
    ensures Filled(Pushed(queues, was[n], stamps[n]), was, stamps, n + 1)
  {
    var after := Pushed(queues, was[n], stamps[n]);
    forall m ensures Queue(after, m) == StampsOf(was, stamps, n + 1, m) {
      assert Queue(queues, m) == StampsOf(was, stamps, n, m);
    }
  }

  function Popped(queues: map<Message, seq<Stamp>>, m: Message): map<Message, seq<Stamp>> {
    if Queue(queues, m) != [] then queues[m := Queue(queues, m)[1..]] else queues
  }

  function NextStamp(queues: map<Message, seq<Stamp>>, m: Message, now: Stamp): Stamp {
    if Queue(queues, m) != [] then Queue(queues, m)[0] else now
  }

  lemma PopStep(queues: map<Message, seq<Stamp>>, was: seq<Message>, stamps: seq<Stamp>, ms: seq<Message>, n: nat,
                now: Stamp)
    requires |was| == |stamps| && n < |ms| && Drained(queues, was, stamps, ms, n)
    ensures Drained(Popped(queues, ms[n]), was, stamps, ms, n + 1)
    ensures NextStamp(queues, ms[n], now) == StampFor(was, stamps, ms, n, now)
  {
    var after := Popped(queues, ms[n]);
    forall m
      ensures Queue(after, m) ==
              var all, k := StampsOf(was, stamps, |was|, m), Copies(ms, n + 1, m);
              if k <= |all| then all[k..] else []
    {
      var all, k := StampsOf(was, stamps, |was|, m), Copies(ms, n, m);
      assert Queue(queues, m) == if k <= |all| then all[k..] else [];
      assert k < |all| ==> all[k..][1..] == all[k + 1..];
    }
  }

  lemma QueuesStart(queues: map<Message, seq<Stamp>>, was: seq<Message>, stamps: seq<Stamp>, ms: seq<Message>)
    requires |was| == |stamps| && Filled(queues, was, stamps, |was|)
    ensures Drained(queues, was, stamps, ms, 0)
  {
    forall m
      ensures Queue(queues, m) ==
              var all, k := StampsOf(was, stamps, |was|, m), Copies(ms, 0, m);
              if k <= |all| then all[k..] else []
    {
      assert Queue(queues, m) == StampsOf(was, stamps, |was|, m);
    }
  }

  method FillQueues(was: seq<Message>, stamps: seq<Stamp>) returns (existing: map<Message, seq<Stamp>>)
    requires |was| == |stamps|
    ensures Filled(existing, was, stamps, |was|)
  {
    existing := map[];
    FillStart(was, stamps);
    for n := 0 to |was|
      invariant Filled(existing, was, stamps, n)
    {
      FillStep(existing, was, stamps, n);
      existing := Pushed(existing, was[n], stamps[n]);
    }
  }

  /** `n` messages have got their timestamps. */
  ghost predicate Rewriting(r: seq<Stamp>, queues: map<Message, seq<Stamp>>,
                            was: seq<Message>, stamps: seq<Stamp>, ms: seq<Message>, now: Stamp, n: nat)
    requires |was| == |stamps| && n <= |ms|
  {
    && |r| == n && (forall i :: 0 <= i < n ==> r[i] == StampFor(was, stamps, ms, i, now))
    && Drained(queues, was, stamps, ms, n)
  }

  lemma RewriteStep(r: seq<Stamp>, queues: map<Message, seq<Stamp>>,
                    was: seq<Message>, stamps: seq<Stamp>, ms: seq<Message>, now: Stamp, n: nat)
    requires |was| == |stamps| && n < |ms| && Rewriting(r, queues, was, stamps, ms, now, n)
    ensures Rewriting(r + [NextStamp(queues, ms[n], now)], Popped(queues, ms[n]), was, stamps, ms, now, n + 1)
  {
    PopStep(queues, was, stamps, ms, n, now);
  }

  method TimestampsForRewrite(was: seq<Message>, stamps: seq<Stamp>, ms: seq<Message>, now: Stamp)
    returns (r: seq<Stamp>)
    requires |was| == |stamps|
    ensures r == RewriteStamps(was, stamps, ms, now)
  {
    var existing := FillQueues(was, stamps);
    QueuesStart(existing, was, stamps, ms);
    r := [];
    for n := 0 to |ms|
      invariant Rewriting(r, existing, was, stamps, ms, now, n)
    {
      RewriteStep(r, existing, was, stamps, ms, now, n);
      r := r + [NextStamp(existing, ms[n], now)];
      existing := Popped(existing, ms[n]);
    }
  }

  // ----- what it means -----

  /** The copy at `i` and the copy at `j` are the same message, equally many copies in. */
  predicate Counterparts(ms: seq<Message>, i: nat, was: seq<Message>, j: nat) {
    && i < |ms| && j < |was|
    && ms[i] == was[j] && Copies(ms, i, ms[i]) == Copies(was, j, was[j])
  }

  lemma {:induction false} CopiesGrow(ms: seq<Message>, i: nat, j: nat, m: Message)
    requires i <= j <= |ms|
    ensures Copies(ms, i, m) <= Copies(ms, j, m)
    ensures i < j && ms[i] == m ==> Copies(ms, i, m) < Copies(ms, j, m)
    decreases j
  {
    if i < j {
      CopiesGrow(ms, i, j - 1, m);
    }
  }

  lemma {:induction false} StampOfCopy(was: seq<Message>, stamps: seq<Stamp>, j: nat, n: nat)
    requires j < n <= |was| == |stamps|
    ensures Copies(was, j, was[j]) < Copies(was, n, was[j])
    ensures StampsOf(was, stamps, n, was[j])[Copies(was, j, was[j])] == stamps[j]
    decreases n
  {
    CopiesGrow(was, j, n, was[j]);
    if j < n - 1 {
      StampOfCopy(was, stamps, j, n - 1);
    }
  }

  /** Every timestamp is inherited from the counterpart. */
  lemma CounterpartsShareStamps(was: seq<Message>, stamps: seq<Stamp>, ms: seq<Message>, now: Stamp, i: nat, j: nat)
    requires |was| == |stamps| && Counterparts(ms, i, was, j)
    ensures RewriteStamps(was, stamps, ms, now)[i] == stamps[j]
  {
    StampOfCopy(was, stamps, j, |was|);
  }

  lemma {:induction false} KthCopy(was: seq<Message>, n: nat, m: Message, k: nat) returns (j: nat)
    requires n <= |was| && k < Copies(was, n, m)
    ensures j < n && was[j] == m && Copies(was, j, m) == k
    decreases n
  {
    if was[n - 1] == m && Copies(was, n - 1, m) == k {
      j := n - 1;
    } else {
      j := KthCopy(was, n - 1, m, k);
    }
  }

  /** A message has a counterpart unless the old copies have run out; then its timestamp is new. */
  lemma {:induction false} WithoutCounterpart(was: seq<Message>, stamps: seq<Stamp>, ms: seq<Message>, now: Stamp,
                                              i: nat)
    requires |was| == |stamps| && i < |ms|
    ensures (exists j: nat :: Counterparts(ms, i, was, j)) <==> Copies(ms, i + 1, ms[i]) <= Copies(was, |was|, ms[i])
    ensures (forall j: nat :: !Counterparts(ms, i, was, j)) ==> RewriteStamps(was, stamps, ms, now)[i] == now
  {
    var k := Copies(ms, i, ms[i]);
    if k < Copies(was, |was|, ms[i]) {
      var j := KthCopy(was, |was|, ms[i], k);
      assert Counterparts(ms, i, was, j);
    } else if exists j: nat :: Counterparts(ms, i, was, j) {
      var j: nat :| Counterparts(ms, i, was, j);
      CopiesGrow(was, j, |was|, was[j]);
    }
  }

  /** No old timestamp is handed out twice, and copies keep their order. */
  lemma CounterpartsAreUnique(ms: seq<Message>, i: nat, other: nat, was: seq<Message>, j: nat, otherJ: nat)
    requires Counterparts(ms, i, was, j) && Counterparts(ms, other, was, otherJ)
    ensures j == otherJ ==> i == other
    ensures ms[i] == ms[other] ==> (i < other <==> j < otherJ)
  {
    if ms[i] == ms[other] {
      if i < other { CopiesGrow(ms, i, other, ms[i]); }
      if other < i { CopiesGrow(ms, other, i, ms[i]); }
      if j < otherJ { CopiesGrow(was, j, otherJ, was[j]); }
      if otherJ < j { CopiesGrow(was, otherJ, j, was[j]); }
    }
  }

  /** Rewriting unchanged messages changes no timestamp. */
  lemma UnchangedKeepsStamps(ms: seq<Message>, stamps: seq<Stamp>, now: Stamp)
    requires |ms| == |stamps|
    ensures RewriteStamps(ms, stamps, ms, now) == stamps
  {
    forall i | 0 <= i < |ms| ensures RewriteStamps(ms, stamps, ms, now)[i] == stamps[i] {
      CounterpartsShareStamps(ms, stamps, ms, now, i, i);
    }
  }
}
