/** The round budget of one turn: a soft limit that steering, stall decisions and extensions
    move up to a hard limit, and the events that report it. */
module RoundBudget {
  import opened Wrappers

  datatype LimitAction = StopAtLimit | AskUser | ExtendAlways

  datatype Budget = Budget(currentLimit: nat, extension: nat, hardLimit: nat, action: LimitAction, autoExtend: bool)

  datatype StallAction = Strategy | Continue | GiveUp

  datatype StallDecision = NotADecision | Decided(action: StallAction, rounds: Option<int>)

  datatype LimitChoice = Extend | Auto | Stop

  datatype LimitDecision = LimitDecision(choice: LimitChoice, requested: Option<int>)

  datatype Reason = NoToolCall | Stalled | HardMaxRounds | BudgetStopped | Cancelled

  datatype Event =
    | RoundStart(number: nat, limit: nat)
    | LimitExtended(previous: nat, next: nat)
    | Done(reason: Reason)
    | Failed(code: string)

  /** What a round ends with: the turn is over, or the next round runs under the new budget. */
  datatype Settled = Settled(budget: Budget, end: Option<Reason>)

  /** The round is inside the soft limit and the soft limit inside the hard one. */
  predicate Within(b: Budget, round: nat) {
    1 <= round <= b.currentLimit <= b.hardLimit && 1 <= b.extension
  }

  function Max(a: int, b: int): int {
    if a < b then b else a
  }

  /** The soft limit raised to what is requested, never lowered and never above the hard limit. */
  function RaisedTo(b: Budget, requested: int): (r: Budget)
    requires b.currentLimit <= b.hardLimit
    ensures r == b.(currentLimit := r.currentLimit)
    ensures b.currentLimit <= r.currentLimit <= b.hardLimit
    ensures requested <= b.currentLimit ==> r == b
    ensures b.currentLimit <= requested <= b.hardLimit ==> r.currentLimit == requested
    ensures requested >= b.hardLimit ==> r.currentLimit == b.hardLimit
  {
    var limit := Max(b.currentLimit, requested);
    b.(currentLimit := if limit <= b.hardLimit then limit else b.hardLimit)
  }

  // ----- how rounds settle -----

  /** After an answer without tool calls; `pending` new instructions keep the turn going. */
  method SettleAnswer(b: Budget, round: nat, pending: bool) returns (s: Settled)
    requires Within(b, round)
    ensures s.end.None? <==> pending && round < b.hardLimit
    ensures s.end.None? ==> s.budget == RaisedTo(b, round + b.extension) && Within(s.budget, round + 1)
    ensures s.end.Some? ==> s.budget == b && s.end.value == if pending then HardMaxRounds else NoToolCall
  {
    if pending {
      if round < b.hardLimit {
        return Settled(RaisedTo(b, round + b.extension), None);
      }
      return Settled(b, Some(HardMaxRounds));
    }
    return Settled(b, Some(NoToolCall));
  }

  /** The budget once new instructions have arrived. */
  function Steered(b: Budget, round: nat, pending: bool): Budget
    requires b.currentLimit <= b.hardLimit
  {
    if pending && round < b.hardLimit then RaisedTo(b, round + b.extension) else b
  }

  function DefaultContinue(b: Budget, round: nat): int {
    var left := b.hardLimit - round;
    Max(1, if left < 5 then left else 5)
  }

  /** How a stall is resolved: without asking if extensions are automatic. */
  function StallAnswer(b: Budget, round: nat, stall: StallDecision): StallDecision {
    if b.autoExtend then Decided(Strategy, Some(DefaultContinue(b, round))) else stall
  }

  function StallRounds(b: Budget, round: nat, d: StallDecision): int
    requires d.Decided?
  {
    if d.rounds.Some? && d.rounds.value > 0 then d.rounds.value
    else if d.action == Strategy then b.extension
    else DefaultContinue(b, round)
  }

  function LimitAnswer(b: Budget, limit: LimitDecision): LimitDecision {
    if b.action == StopAtLimit then LimitDecision(Stop, None)
    else if b.autoExtend then LimitDecision(Auto, None)
    else limit
  }

  /** Which turns end after a round with tool calls, and why. */
  function ToolsEnd(b: Budget, round: nat, pending: bool, stalled: bool, stall: StallDecision, limit: LimitDecision)
    : Option<Reason>
    requires b.currentLimit <= b.hardLimit
  {
    var c := Steered(b, round, pending);
    if round >= b.hardLimit then Some(HardMaxRounds)
    else if stalled && !pending then
      var d := StallAnswer(b, round, stall);
      if b.action == StopAtLimit || d.NotADecision? || d.action == GiveUp then Some(Stalled) else None
    else if round >= c.currentLimit && LimitAnswer(b, limit).choice == Stop then Some(BudgetStopped)
    else None
  }

  /** When a turn ends after a round with tool calls: at the hard limit; at a stall without new input
      that must not or shall not be overcome; at the soft limit without new input if it is not extended.
      New input ends no turn below the hard limit. */
  lemma ToolsEndExactly(b: Budget, round: nat, pending: bool, stalled: bool, stall: StallDecision,
                        limit: LimitDecision)
    requires Within(b, round)
    ensures ToolsEnd(b, round, pending, stalled, stall, limit) ==
            if round >= b.hardLimit then Some(HardMaxRounds)
            else if pending then None
            else if stalled then
              if b.action == StopAtLimit || (!b.autoExtend && (stall.NotADecision? || stall.action == GiveUp))
              then Some(Stalled) else None
            else if round == b.currentLimit && (b.action == StopAtLimit || (!b.autoExtend && limit.choice == Stop))
            then Some(BudgetStopped) else None
  {
  }

  /** How far a stall that is overcome moves the budget: as many rounds as were asked for; without a
      number the extension for a new strategy, else up to five rounds and at least one. */
  lemma StallRoundsAre(b: Budget, round: nat, stall: StallDecision)
    requires Within(b, round) && round < b.hardLimit && (b.autoExtend || stall.Decided?)
    ensures var few := if b.hardLimit - round < 5 then b.hardLimit - round else 5;
            StallRounds(b, round, StallAnswer(b, round, stall)) ==
            if b.autoExtend then few
            else if stall.rounds.Some? && stall.rounds.value > 0 then stall.rounds.value
            else if stall.action == Strategy then b.extension else few
  {
  }

  /** After a round with tool calls. */
  method SettleTools(b: Budget, round: nat, pending: bool, stalled: bool, stall: StallDecision, limit: LimitDecision)
    returns (s: Settled)
    requires Within(b, round)
    ensures s.end == ToolsEnd(b, round, pending, stalled, stall, limit)
    ensures b.currentLimit <= s.budget.currentLimit <= b.hardLimit
    ensures s.budget.hardLimit == b.hardLimit && s.budget.extension == b.extension && s.budget.action == b.action
    ensures s.end.None? ==> Within(s.budget, round + 1)
    ensures s.end.None? && stalled && !pending ==>
              s.budget == RaisedTo(b, round + StallRounds(b, round, StallAnswer(b, round, stall)))
    ensures s.end.None? && (pending || !stalled) && round < Steered(b, round, pending).currentLimit ==>
              s.budget == Steered(b, round, pending)
    ensures s.end.None? && (pending || !stalled) && round >= Steered(b, round, pending).currentLimit ==>
              var d := LimitAnswer(b, limit);
              && (s.budget.autoExtend <==> b.autoExtend || d.choice == Auto)
              && s.budget.currentLimit ==
                 RaisedTo(b, Max(round + 1, if d.requested.Some? then d.requested.value else round + b.extension))
                 .currentLimit
  {
    var c := b;
    if pending && round < b.hardLimit {
      c := RaisedTo(c, round + c.extension);
    }
    if round >= c.hardLimit {
      return Settled(c, Some(HardMaxRounds));
    }
    if !pending && stalled {
      if c.action == StopAtLimit {
        return Settled(c, Some(Stalled));
      }
      var decision := stall;
      if c.autoExtend {
        decision := Decided(Strategy, Some(DefaultContinue(c, round)));
      }
      if decision.NotADecision? || decision.action == GiveUp {
        return Settled(c, Some(Stalled));
      }
      return Settled(RaisedTo(c, round + StallRounds(c, round, decision)), None);
    }
    if round >= c.currentLimit {
      var decision := limit;
      if c.action == StopAtLimit {
        decision := LimitDecision(Stop, None);
      } else if c.autoExtend {
        decision := LimitDecision(Auto, None);
      }
      if decision.choice == Stop {
        return Settled(c, Some(BudgetStopped));
      }
      var requested := if decision.requested.Some? then decision.requested.value else round + c.extension;
      c := RaisedTo(c, Max(round + 1, requested));
      if decision.choice == Auto {
        c := c.(autoExtend := true);
      }
    }
    return Settled(c, None);
  }

  // ----- the events of a turn -----

  function Starts(events: seq<Event>): seq<Event> {
    if events == [] then []
    else
      var front, last := Starts(events[..|events| - 1]), events[|events| - 1];
      if last.RoundStart? then front + [last] else front
  }

  predicate Terminal(e: Event) {
    e.Done? || e.Failed?
  }

  /** Rounds 1, 2, 3, … each inside its limit, with limits that never fall nor pass the hard one. */
  ghost predicate Regular(starts: seq<Event>, hard: nat) {
    && (forall i :: 0 <= i < |starts| ==>
          starts[i].RoundStart? && starts[i].number == i + 1 && i + 1 <= starts[i].limit <= hard)
    && forall i, j :: 0 <= i <= j < |starts| ==>
          starts[i].RoundStart? && starts[j].RoundStart? && starts[i].limit <= starts[j].limit
  }

  ghost predicate Quiet(events: seq<Event>) {
    forall e :: e in events ==> !Terminal(e)
  }

  lemma QuietSnoc(events: seq<Event>, e: Event)
    requires Quiet(events) && !Terminal(e)
    ensures Quiet(events + [e])
  {
  }

  /** The events while a turn runs: `rounds` have started and the soft limit is `limit`. */
  ghost predicate Running(events: seq<Event>, rounds: nat, limit: nat, hard: nat) {
    && Quiet(events)
    && |Starts(events)| == rounds && Regular(Starts(events), hard)
    && limit <= hard
    && (rounds > 0 ==> Starts(events)[rounds - 1].limit <= limit)
  }

  /** The events of a finished turn: one terminal event, at the end. */
  ghost predicate Finished(events: seq<Event>, hard: nat) {
    && events != [] && Terminal(events[|events| - 1])
    && (forall i :: 0 <= i < |events| - 1 ==> !Terminal(events[i]))
    && Regular(Starts(events), hard) && |Starts(events)| <= hard
  }

  lemma {:induction false} StartsSnoc(events: seq<Event>, e: Event)
    ensures Starts(events + [e]) == Starts(events) + (if e.RoundStart? then [e] else [])
  {
    assert (events + [e])[..|events|] == events;
  }

  lemma RegularSnoc(starts: seq<Event>, limit: nat, hard: nat)
    requires Regular(starts, hard) && |starts| + 1 <= limit <= hard
    requires |starts| > 0 ==> starts[|starts| - 1].limit <= limit
    ensures Regular(starts + [RoundStart(|starts| + 1, limit)], hard)
  {
    var more := starts + [RoundStart(|starts| + 1, limit)];
    forall i, j | 0 <= i <= j < |more|
      ensures more[i].RoundStart? && more[j].RoundStart? && more[i].limit <= more[j].limit
    {
      assert i < |starts| ==> starts[i].RoundStart? && starts[i].limit <= starts[|starts| - 1].limit;
    }
  }

  lemma StartRound(events: seq<Event>, rounds: nat, limit: nat, hard: nat)
    requires Running(events, rounds, limit, hard) && rounds + 1 <= limit
    ensures Running(events + [RoundStart(rounds + 1, limit)], rounds + 1, limit, hard)
  {
    var e := RoundStart(rounds + 1, limit);
    StartsSnoc(events, e);
    QuietSnoc(events, e);
    assert Regular(Starts(events) + [e], hard) by {
      RegularSnoc(Starts(events), limit, hard);
    }
  }

  function Extension(previous: nat, next: nat): seq<Event> {
    if next > previous then [LimitExtended(previous, next)] else []
  }

  lemma ExtendLimit(events: seq<Event>, rounds: nat, limit: nat, next: nat, hard: nat)
    requires Running(events, rounds, limit, hard) && limit <= next <= hard
    ensures Running(events + Extension(limit, next), rounds, next, hard)
  {
    if next > limit {
      StartsSnoc(events, LimitExtended(limit, next));
      QuietSnoc(events, LimitExtended(limit, next));
    } else {
      assert events + [] == events;
    }
  }

  lemma {:induction false} RegularIsShort(starts: seq<Event>, hard: nat)
    requires Regular(starts, hard)
    ensures |starts| <= hard
  {
    if starts != [] {
      assert starts[|starts| - 1].number <= starts[|starts| - 1].limit;
    }
  }

  lemma {:induction false} EndTurn(events: seq<Event>, rounds: nat, limit: nat, hard: nat, e: Event)
    requires Running(events, rounds, limit, hard) && Terminal(e)
    ensures Finished(events + [e], hard) && |Starts(events + [e])| == rounds
  {
    StartsSnoc(events, e);
    RegularIsShort(Starts(events), hard);
    forall i | 0 <= i < |events| ensures !Terminal((events + [e])[i]) {
      assert events[i] in events;
    }
  }
}
