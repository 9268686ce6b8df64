/** The write-ahead log of tool executions.  Calls run concurrently, appends may be torn and the
    process may stop anywhere; a write that may have happened must stay visible as unresolved. */
module ToolWal {
  import opened CallIds
  import opened JournalFile

  datatype WalRow = Intent(call: CallId, tool: string, mayModify: bool) | Result(call: CallId, success: bool)

  type Wal = File<WalRow>

  // ----- what the log says -----

  function Fold(rows: seq<WalRow>): map<CallId, WalRow> {
    if rows == [] then map[]
    else
      var pending, row := Fold(rows[..|rows| - 1]), rows[|rows| - 1];
      if row.call.text == "" then pending
      else if row.Intent? then pending[row.call := row]
      else pending - {row.call}
  }

  /** The calls whose last readable row is an intent. */
  ghost predicate IsUnresolved(rows: seq<WalRow>, call: CallId) {
    exists i :: 0 <= i < |rows| && rows[i].Intent? && rows[i].call == call
             && forall j :: i < j < |rows| ==> rows[j].call != call
  }

  lemma UnresolvedSnoc(rows: seq<WalRow>, row: WalRow, call: CallId)
    ensures IsUnresolved(rows + [row], call) <==>
            if row.call == call then row.Intent? else IsUnresolved(rows, call)
  {
    var more := rows + [row];
    if row.call == call {
      assert more[|rows|] == row;
    } else {
      if i :| 0 <= i < |rows| && rows[i].Intent? && rows[i].call == call
              && forall j :: i < j < |rows| ==> rows[j].call != call {
        assert more[i] == rows[i];
      }
      if i :| 0 <= i < |more| && more[i].Intent? && more[i].call == call
              && forall j :: i < j < |more| ==> more[j].call != call {
        assert forall j :: i < j < |rows| ==> rows[j] == more[j];
      }
    }
  }

  /** The fold keeps exactly the calls whose last row is an intent. */
  lemma {:induction false} FoldIsUnresolved(rows: seq<WalRow>, call: CallId)
    requires call.text != ""
    ensures call in Fold(rows) <==> IsUnresolved(rows, call)
  {
    if rows != [] {
      var front, last := rows[..|rows| - 1], rows[|rows| - 1];
      FoldIsUnresolved(front, call);
      UnresolvedSnoc(front, last, call);
      assert rows == front + [last];
    }
  }

  lemma {:induction false} FoldSnoc(rows: seq<WalRow>, row: WalRow)
    ensures Fold(rows + [row]) ==
            if row.call.text == "" then Fold(rows)
            else if row.Intent? then Fold(rows)[row.call := row]
            else Fold(rows) - {row.call}
  {
    assert (rows + [row])[..|rows|] == rows;
  }

  function Unresolved(wal: Wal): set<CallId> {
    Fold(Read(wal)).Keys
  }

  // ----- concurrent executions -----

  /** One execution of a tool call.  Two executions may carry the same call id. */
  datatype Attempt = Attempt(number: nat, call: CallId, mayModify: bool)

  datatype Phase = Recorded | Started

  /** `live` are the executions of the current process, `owed` the started writes whose result
      row never became readable. */
  datatype World = World(wal: Wal, live: map<Attempt, Phase>, owed: set<Attempt>)

  datatype Step =
    | RecordIntent(attempt: Attempt, write: Write<WalRow>)
    | Start(attempt: Attempt)
    | RecordResult(attempt: Attempt, success: bool, write: Write<WalRow>)
    | Abort(attempt: Attempt)   // no result will be recorded
    | Crash

  predicate Enabled(w: World, step: Step) {
    match step
    case RecordIntent(a, _) => a !in w.live && a !in w.owed && a.call.text != ""
    case Start(a) => a in w.live && w.live[a] == Recorded
    case RecordResult(a, _, _) => a in w.live   // also of a call that a hook kept from starting
    case Abort(a) => a in w.live
    case Crash => true
  }

  function IntentRow(a: Attempt): WalRow {
    Intent(a.call, "", a.mayModify)
  }

  /** The row of a single-row append can be read afterwards. */
  predicate Landed(wal: Wal, write: Write<WalRow>) {
    wal.tail == Clean && (write.Whole? || write.whole > 0 || write.tail.Unterminated?)
  }

  function Next(w: World, step: Step): World {
    match step
    case RecordIntent(a, write) =>
      var wal := Written(w.wal, [IntentRow(a)], write);
      // An error fails closed for writes only; a read goes on without its intent.
      World(wal, if write.Whole? || !a.mayModify then w.live[a := Recorded] else w.live, w.owed)
    case Start(a) =>
      World(w.wal, w.live[a := Started], if a.mayModify then w.owed + {a} else w.owed)
    case RecordResult(a, success, write) =>
      World(Written(w.wal, [Result(a.call, success)], write), w.live - {a},
            if Landed(w.wal, write) then w.owed - {a} else w.owed)
    case Abort(a) => World(w.wal, w.live - {a}, w.owed)
    case Crash => World(w.wal, map[], w.owed)
  }

  /** The call of `a` is unresolved in the complete lines, and no unterminated row hides it. */
  ghost predicate Secured(wal: Wal, call: CallId) {
    && call in Fold(Rows(wal.lines))
    && (wal.tail.Unterminated? && wal.tail.row.Result? ==> wal.tail.row.call != call)
  }

  lemma SecuredIsUnresolved(wal: Wal, call: CallId)
    requires Secured(wal, call)
    ensures call in Unresolved(wal)
  {
    if wal.tail.Unterminated? {
      FoldSnoc(Rows(wal.lines), wal.tail.row);
    } else {
      assert Read(wal) == Rows(wal.lines);
    }
  }

  /** A write that has started, or may still start. */
  predicate AtRisk(w: World, a: Attempt) {
    a.mayModify && (a in w.owed || a in w.live)
  }

  ghost predicate Safe(w: World) {
    && (forall a :: a in w.owed ==> a.mayModify)
    && (forall a :: AtRisk(w, a) ==> a.call.text != "" && Secured(w.wal, a.call))
  }

  /** The two ways a started write can disappear from the log: its intent is glued to a torn
      line and no earlier intent of the call stands in the log, or the readable result of another
      execution with the same id resolves it. */
  ghost predicate Hides(w: World, step: Step) {
    && step.RecordIntent? && step.attempt.mayModify && step.write.Whole? && w.wal.tail != Clean
    && step.attempt.call !in Fold(Rows(w.wal.lines))
  }

  ghost predicate Steals(w: World, step: Step) {
    && step.RecordResult? && Landed(w.wal, step.write)
    && exists b :: b != step.attempt && AtRisk(w, b) && b.call == step.attempt.call
  }

  /** What one single-row append does to the security of a call. */
  lemma WriteSecures(wal: Wal, row: WalRow, write: Write<WalRow>, call: CallId)
    requires call.text != "" && Secured(wal, call)
    requires row.Result? ==> row.call != call
    ensures Secured(Written(wal, [row], write), call)
  {
    RowsAfterWrite(wal, row, write);
    FoldSnoc(Rows(wal.lines), row);
  }

  /** The complete lines after a single-row append. */
  lemma RowsAfterWrite(wal: Wal, row: WalRow, write: Write<WalRow>)
    ensures var after := Written(wal, [row], write);
            Rows(after.lines) ==
              if wal.tail == Clean && (write.Whole? || write.whole > 0) then Rows(wal.lines) + [row]
              else Rows(wal.lines)
  {
    var rows := [row];
    assert rows[..0] == [] && rows[1..] == [];
    if wal.tail == Clean {
      RowsAppend(wal.lines, AsLines(rows));
      RowsOfRows(rows);
    } else {
      var broken: seq<Line<WalRow>> := wal.lines + [Unreadable];
      assert broken + AsLines(rows[1..]) == broken;
      assert broken[..|wal.lines|] == wal.lines;
    }
  }

  lemma IntentSecures(wal: Wal, a: Attempt)
    requires a.call.text != "" && a.call !in Fold(Rows(wal.lines))
    ensures Secured(Written(wal, [IntentRow(a)], Whole), a.call) <==> wal.tail == Clean
  {
    RowsAfterWrite(wal, IntentRow(a), Whole);
    FoldSnoc(Rows(wal.lines), IntentRow(a));
  }

  lemma IntentKeepsSafe(w: World, step: Step)
    requires Safe(w) && Enabled(w, step) && step.RecordIntent?
    ensures Safe(Next(w, step)) <==> !Hides(w, step)
  {
    var v, a := Next(w, step), step.attempt;
    RowsAfterWrite(w.wal, IntentRow(a), step.write);
    FoldSnoc(Rows(w.wal.lines), IntentRow(a));
    if Hides(w, step) {
      assert AtRisk(v, a);
    } else {
      forall b | AtRisk(v, b) ensures b.call.text != "" && Secured(v.wal, b.call) {
        if b != a {
          assert AtRisk(w, b);
          WriteSecures(w.wal, IntentRow(a), step.write, b.call);
        }
      }
    }
  }

  /** A readable result resolves just the calls with its id. */
  lemma ResultSecures(wal: Wal, call: CallId, success: bool, write: Write<WalRow>, other: CallId)
    requires other.text != "" && Secured(wal, other)
    ensures Secured(Written(wal, [Result(call, success)], write), other) <==> other != call || !Landed(wal, write)
  {
    var row := Result(call, success);
    if other != call {
      WriteSecures(wal, row, write, other);
    } else {
      RowsAfterWrite(wal, row, write);
      FoldSnoc(Rows(wal.lines), row);
    }
  }

  /** A result takes no other write out of danger. */
  lemma ResultRisks(w: World, step: Step, b: Attempt)
    requires Enabled(w, step) && step.RecordResult?
    ensures AtRisk(Next(w, step), b) ==> AtRisk(w, b)
    ensures AtRisk(w, b) && b != step.attempt ==> AtRisk(Next(w, step), b)
    ensures AtRisk(Next(w, step), step.attempt) ==> !Landed(w.wal, step.write)
  {
  }

  lemma ResultKeepsSafe(w: World, step: Step)
    requires Safe(w) && Enabled(w, step) && step.RecordResult?
    ensures Safe(Next(w, step)) <==> !Steals(w, step)
  {
    var v, a := Next(w, step), step.attempt;
    if Steals(w, step) {
      var b :| b != a && AtRisk(w, b) && b.call == a.call;
      ResultRisks(w, step, b);
      ResultSecures(w.wal, a.call, step.success, step.write, b.call);
    } else {
      forall b | AtRisk(v, b) ensures b.call.text != "" && Secured(v.wal, b.call) {
        ResultRisks(w, step, b);
        ResultSecures(w.wal, a.call, step.success, step.write, b.call);
      }
    }
  }

  /** A step keeps every write at risk secured exactly if it neither hides an intent nor steals a
      resolution. */
  lemma StepKeepsSafe(w: World, step: Step)
    requires Safe(w) && Enabled(w, step)
    ensures Safe(Next(w, step)) <==> !Hides(w, step) && !Steals(w, step)
  {
    if step.RecordIntent? {
      IntentKeepsSafe(w, step);
    } else if step.RecordResult? {
      ResultKeepsSafe(w, step);
    } else {
      forall b | AtRisk(Next(w, step), b) ensures AtRisk(w, b) {
      }
    }
  }

  // ----- whole runs -----

  function Run(w: World, steps: seq<Step>): World {
    if steps == [] then w else Next(Run(w, steps[..|steps| - 1]), steps[|steps| - 1])
  }

  ghost predicate Legal(w: World, steps: seq<Step>) {
    steps == [] ||
    (var n := |steps| - 1;
     Legal(w, steps[..n]) && Enabled(Run(w, steps[..n]), steps[n]))
  }

  ghost predicate Careful(w: World, steps: seq<Step>) {
    steps == [] ||
    (var n := |steps| - 1;
     Careful(w, steps[..n]) && !Hides(Run(w, steps[..n]), steps[n]) && !Steals(Run(w, steps[..n]), steps[n]))
  }

  /** Every write at risk is secured after every step. */
  ghost predicate AlwaysSafe(w: World, steps: seq<Step>) {
    Safe(Run(w, steps)) && (steps == [] || AlwaysSafe(w, steps[..|steps| - 1]))
  }

  /** A run keeps the writes at risk secured at every point exactly if it takes neither dangerous
      step. */
  lemma {:induction false} RunsAreSafeExactly(w: World, steps: seq<Step>)
    requires Safe(w) && Legal(w, steps)
    ensures AlwaysSafe(w, steps) <==> Careful(w, steps)
  {
    if steps != [] {
      var n := |steps| - 1;
      RunsAreSafeExactly(w, steps[..n]);
      if AlwaysSafe(w, steps[..n]) {
        StepKeepsSafe(Run(w, steps[..n]), steps[n]);
      }
    }
  }

  // ----- what can be seen in the log -----

  /** Each started write without a readable result is among the unresolved calls. */
  ghost predicate Shown(w: World) {
    forall a :: a in w.owed ==> a.call in Unresolved(w.wal)
  }

  /** The same for the writes that may start next. */
  ghost predicate ShownNext(w: World) {
    Shown(w) && forall a :: Enabled(w, Start(a)) ==> Shown(Next(w, Start(a)))
  }

  /** A write that runs is owed its result. */
  ghost predicate StartedOwed(w: World) {
    forall a :: a in w.live && w.live[a] == Started && a.mayModify ==> a in w.owed
  }

  lemma SafeIsShown(w: World)
    requires Safe(w)
    ensures ShownNext(w)
  {
    forall a | AtRisk(w, a) ensures a.call in Unresolved(w.wal) {
      SecuredIsUnresolved(w.wal, a.call);
    }
    assert forall a :: a in w.owed ==> AtRisk(w, a);
    forall a | Enabled(w, Start(a)) ensures Shown(Next(w, Start(a))) {
      assert a.mayModify ==> AtRisk(w, a);
    }
  }

  /** A write at risk that cannot be seen. */
  lemma HiddenIsNotShown(w: World, b: Attempt)
    requires StartedOwed(w) && AtRisk(w, b) && b.call !in Unresolved(w.wal)
    ensures !ShownNext(w)
  {
    if b !in w.owed {
      assert Enabled(w, Start(b)) && b in Next(w, Start(b)).owed;
    }
  }

  lemma HiddenIntent(wal: Wal, a: Attempt)
    requires wal.tail != Clean && a.call !in Fold(Rows(wal.lines))
    ensures a.call !in Unresolved(Written(wal, [IntentRow(a)], Whole))
  {
    AppendReads(wal, [IntentRow(a)]);
    assert [IntentRow(a)][1..] == [] && Rows(wal.lines) + [] == Rows(wal.lines);
  }

  lemma LandedReads(wal: Wal, row: WalRow, write: Write<WalRow>)
    requires Landed(wal, write)
    ensures Read(Written(wal, [row], write)) == Rows(wal.lines) + [row]
  {
    if write.Whole? || write.whole > 0 {
      AppendReads(wal, [row]);
    } else {
      assert [row][..0] == [];
    }
  }

  lemma StolenResolution(wal: Wal, call: CallId, success: bool, write: Write<WalRow>)
    requires Landed(wal, write) && call.text != ""
    ensures call !in Unresolved(Written(wal, [Result(call, success)], write))
  {
    LandedReads(wal, Result(call, success), write);
    FoldSnoc(Rows(wal.lines), Result(call, success));
  }

  lemma StartedStaysOwed(w: World, step: Step)
    requires StartedOwed(w) && Enabled(w, step)
    ensures StartedOwed(Next(w, step))
  {
  }

  lemma HidingIsNotShown(w: World, step: Step)
    requires Safe(w) && StartedOwed(w) && Enabled(w, step) && Hides(w, step)
    ensures !ShownNext(Next(w, step))
  {
    StartedStaysOwed(w, step);
    HiddenIntent(w.wal, step.attempt);
    HiddenIsNotShown(Next(w, step), step.attempt);
  }

  lemma StealingIsNotShown(w: World, step: Step)
    requires Safe(w) && StartedOwed(w) && Enabled(w, step) && Steals(w, step)
    ensures !ShownNext(Next(w, step))
  {
    StartedStaysOwed(w, step);
    var b :| b != step.attempt && AtRisk(w, b) && b.call == step.attempt.call;
    StolenResolution(w.wal, b.call, step.success, step.write);
    HiddenIsNotShown(Next(w, step), b);
  }

  /** A step keeps the started writes and those that may start next in sight exactly if it takes
      neither danger. */
  lemma StepShowsExactly(w: World, step: Step)
    requires Safe(w) && StartedOwed(w) && Enabled(w, step)
    ensures ShownNext(Next(w, step)) <==> !Hides(w, step) && !Steals(w, step)
  {
    if Hides(w, step) {
      HidingIsNotShown(w, step);
    } else if Steals(w, step) {
      StealingIsNotShown(w, step);
    } else {
      StepKeepsSafe(w, step);
      SafeIsShown(Next(w, step));
    }
  }

  ghost predicate AlwaysShown(w: World, steps: seq<Step>) {
    ShownNext(Run(w, steps)) && (steps == [] || AlwaysShown(w, steps[..|steps| - 1]))
  }

  lemma {:induction false} RunsStartedOwed(w: World, steps: seq<Step>)
    requires StartedOwed(w) && Legal(w, steps)
    ensures StartedOwed(Run(w, steps))
  {
    if steps != [] {
      RunsStartedOwed(w, steps[..|steps| - 1]);
      StartedStaysOwed(Run(w, steps[..|steps| - 1]), steps[|steps| - 1]);
    }
  }

  /** At every crash point of a run all started writes without a readable result, and those that
      may start next, are among the unresolved calls exactly if the run takes neither dangerous
      step. */
  lemma {:induction false} RunsShowExactly(w: World, steps: seq<Step>)
    requires Safe(w) && StartedOwed(w) && Legal(w, steps)
    ensures AlwaysShown(w, steps) <==> Careful(w, steps)
  {
    if steps == [] {
      SafeIsShown(w);
    } else {
      var front, last := steps[..|steps| - 1], steps[|steps| - 1];
      RunsShowExactly(w, front);
      if Careful(w, front) {
        RunsAreSafeExactly(w, front);
        RunsStartedOwed(w, front);
        StepShowsExactly(Run(w, front), last);
      }
    }
  }

  /** At every crash point of every interleaving, each started write without a readable result
      is among the unresolved calls recomputed from the log. */
  lemma {:induction false} StartedWritesStayVisible(w: World, steps: seq<Step>)
    requires Safe(w) && Legal(w, steps) && Careful(w, steps)
    ensures Safe(Run(w, steps))
    ensures forall a :: a in Run(w, steps).owed ==> a.call in Unresolved(Run(w, steps).wal)
  {
    RunsAreSafeExactly(w, steps);
    SafeIsShown(Run(w, steps));
  }

  /** No append of the run was torn. */
  predicate AllWhole(steps: seq<Step>) {
    forall s :: s in steps ==>
      (s.RecordIntent? ==> s.write.Whole?) && (s.RecordResult? ==> s.write.Whole?)
  }

  /** Executions of the run have call ids of their own, also against what `w` still carries. */
  ghost predicate OwnIds(w: World, steps: seq<Step>) {
    && (forall s, t :: s in steps && t in steps && s.RecordIntent? && t.RecordIntent? ==>
          (s.attempt.call == t.attempt.call ==> s.attempt == t.attempt))
    && (forall s, b :: s in steps && s.RecordIntent? && (b in w.live || b in w.owed) ==> b.call != s.attempt.call)
    && (forall a, b :: (a in w.live || a in w.owed) && (b in w.live || b in w.owed) ==> (a.call == b.call ==> a == b))
  }

  /** Who can be live or owed in a run: what was before, and what recorded an intent. */
  lemma {:induction false} KnownAttempts(w: World, steps: seq<Step>, a: Attempt)
    requires Legal(w, steps) && (a in Run(w, steps).live || a in Run(w, steps).owed)
    ensures a in w.live || a in w.owed || exists s :: s in steps && s.RecordIntent? && s.attempt == a
  {
    if steps != [] {
      var n := |steps| - 1;
      var before := Run(w, steps[..n]);
      if a in before.live || a in before.owed {
        KnownAttempts(w, steps[..n], a);
        if s :| s in steps[..n] && s.RecordIntent? && s.attempt == a {
          assert s in steps;
        }
      } else {
        assert steps[n] in steps;
      }
    }
  }

  /** Both dangers are absent from runs with whole appends and own call ids. */
  lemma {:induction false} OrdinaryRunsAreCareful(w: World, steps: seq<Step>)
    requires Legal(w, steps) && AllWhole(steps) && OwnIds(w, steps) && w.wal.tail == Clean
    ensures Careful(w, steps) && Run(w, steps).wal.tail == Clean
  {
    if steps != [] {
      var n := |steps| - 1;
      var before := Run(w, steps[..n]);
      assert forall s :: s in steps[..n] ==> s in steps;
      assert steps[n] in steps;
      OrdinaryRunsAreCareful(w, steps[..n]);
      if steps[n].RecordResult? {
        forall b | b != steps[n].attempt && AtRisk(before, b)
          ensures b.call != steps[n].attempt.call
        {
          KnownAttempts(w, steps[..n], b);
          KnownAttempts(w, steps[..n], steps[n].attempt);
        }
      }
    }
  }

  // ----- why both conditions are needed -----

  function Fresh(): World {
    World(File([], Clean), map[], {})
  }

  lemma {:induction false} RunSnoc(w: World, steps: seq<Step>, step: Step)
    ensures Run(w, steps + [step]) == Next(Run(w, steps), step)
    ensures Legal(w, steps + [step]) <==> Legal(w, steps) && Enabled(Run(w, steps), step)
  {
    assert (steps + [step])[..|steps|] == steps;
  }

  // ----- runs of one execution -----

  lemma IntentRun(w: World, a: Attempt, write: Write<WalRow>)
    requires Enabled(w, RecordIntent(a, write))
    ensures var v := Run(w, [RecordIntent(a, write)]);
            && Legal(w, [RecordIntent(a, write)])
            && v.wal == Written(w.wal, [IntentRow(a)], write) && v.owed == w.owed
            && (a in v.live <==> write.Whole? || !a.mayModify) && (a in v.live ==> v.live[a] == Recorded)
  {
    RunSnoc(w, [], RecordIntent(a, write));
    assert [] + [RecordIntent(a, write)] == [RecordIntent(a, write)];
  }

  lemma StartRun(w: World, steps: seq<Step>, a: Attempt)
    requires Legal(w, steps) && Enabled(Run(w, steps), Start(a))
    ensures var v, u := Run(w, steps), Run(w, steps + [Start(a)]);
            && Legal(w, steps + [Start(a)]) && u.wal == v.wal && a in u.live
            && u.owed == if a.mayModify then v.owed + {a} else v.owed
  {
    RunSnoc(w, steps, Start(a));
  }

  lemma AbortRun(w: World, steps: seq<Step>, a: Attempt)
    requires Legal(w, steps) && Enabled(Run(w, steps), Abort(a))
    ensures var v, u := Run(w, steps), Run(w, steps + [Abort(a)]);
            Legal(w, steps + [Abort(a)]) && u.wal == v.wal && a !in u.live && u.owed == v.owed
  {
    RunSnoc(w, steps, Abort(a));
  }

  lemma ResultRun(w: World, steps: seq<Step>, a: Attempt, success: bool, write: Write<WalRow>)
    requires Legal(w, steps) && a in Run(w, steps).live
    ensures var v, u := Run(w, steps), Run(w, steps + [RecordResult(a, success, write)]);
            && Legal(w, steps + [RecordResult(a, success, write)])
            && u.wal == Written(v.wal, [Result(a.call, success)], write) && a !in u.live
            && u.owed == if Landed(v.wal, write) then v.owed - {a} else v.owed
  {
    RunSnoc(w, steps, RecordResult(a, success, write));
  }

  /** A torn line swallows the next intent: after a crash in the middle of an append, the first
      write of the resumed process runs without leaving a trace in the log. */
  lemma TornLineHidesNextWrite(read: Attempt, write: Attempt)
    requires !read.mayModify && write.mayModify && read.call.text != "" && write.call.text != ""
    ensures var steps := [RecordIntent(read, Torn(0, Fragment)), Crash, RecordIntent(write, Whole), Start(write)];
            && Legal(Fresh(), steps)
            && write in Run(Fresh(), steps).owed
            && write.call !in Unresolved(Run(Fresh(), steps).wal)
  {
    var s1, s2, s3, s4 := RecordIntent(read, Torn(0, Fragment)), Crash, RecordIntent(write, Whole), Start(write);
    RunSnoc(Fresh(), [], s1);
    RunSnoc(Fresh(), [s1], s2);
    RunSnoc(Fresh(), [s1, s2], s3);
    RunSnoc(Fresh(), [s1, s2, s3], s4);
    assert [] + [s1] == [s1] && [s1] + [s2] == [s1, s2] && [s1, s2] + [s3] == [s1, s2, s3];
    assert [s1, s2, s3] + [s4] == [s1, s2, s3, s4];
    var torn: Wal := File([], Fragment);
    assert Run(Fresh(), [s1, s2]) == World(torn, map[], {});
    RowsAfterWrite(torn, IntentRow(write), Whole);
    assert Fold([]) == map[];
  }

  /** A write that was started and never heard of again. */
  lemma WriteThenCrash(write: Attempt)
    requires write.mayModify && write.call.text != ""
    ensures var steps := [RecordIntent(write, Whole), Start(write), Crash];
            && Legal(Fresh(), steps)
            && Run(Fresh(), steps) == World(File([Row(IntentRow(write))], Clean), map[], {write})
  {
    var s1, s2, s3 := RecordIntent(write, Whole), Start(write), Crash;
    RunSnoc(Fresh(), [], s1);
    RunSnoc(Fresh(), [s1], s2);
    RunSnoc(Fresh(), [s1, s2], s3);
    assert [] + [s1] == [s1] && [s1] + [s2] == [s1, s2] && [s1, s2] + [s3] == [s1, s2, s3];
    assert Append(File([], Clean), [IntentRow(write)]) == File([Row(IntentRow(write))], Clean);
  }

  lemma ResultResolves(before: Wal, call: CallId, success: bool)
    requires before.tail == Clean && call.text != ""
    ensures call !in Unresolved(Append(before, [Result(call, success)]))
  {
    var row := Result(call, success);
    AppendReads(before, [row]);
    assert Read(before) == Rows(before.lines);
    FoldSnoc(Rows(before.lines), row);
  }

  /** A reused call id resolves an older write that never reported its result. */
  lemma ReusedIdResolvesOlderWrite(write: Attempt, read: Attempt)
    requires write.mayModify && !read.mayModify && write.call == read.call && write.call.text != ""
    ensures var steps := [RecordIntent(write, Whole), Start(write), Crash]
                         + [RecordIntent(read, Whole), Start(read), RecordResult(read, true, Whole)];
            && Legal(Fresh(), steps)
            && write in Run(Fresh(), steps).owed
            && write.call !in Unresolved(Run(Fresh(), steps).wal)
  {
    var start := [RecordIntent(write, Whole), Start(write), Crash];
    var s4, s5, s6 := RecordIntent(read, Whole), Start(read), RecordResult(read, true, Whole);
    WriteThenCrash(write);
    RunSnoc(Fresh(), start, s4);
    RunSnoc(Fresh(), start + [s4], s5);
    RunSnoc(Fresh(), start + [s4] + [s5], s6);
    assert start + [s4] + [s5] + [s6] == start + [s4, s5, s6];
    var w3 := Run(Fresh(), start);
    var w4, w5 := Next(w3, s4), Next(Next(w3, s4), s5);
    assert Enabled(w3, s4) && w4.live == map[read := Recorded] && w4.owed == {write} && w4.wal.tail == Clean;
    assert Enabled(w4, s5) && w5.live == map[read := Started] && w5.owed == {write} && w5.wal == w4.wal;
    assert Enabled(w5, s6) && Next(w5, s6).owed == {write};
    ResultResolves(Run(Fresh(), start + [s4] + [s5]).wal, read.call, true);
  }
}
