/** What a turn finds when it starts on a loaded session: the repair completes an interrupted
    batch, and the reminder of a pause may split one. */
module ResumedTurn {
  import opened Wrappers
  import opened CallIds
  import opened Filters
  import opened Protocol
  import opened SessionRows
  import opened SessionRepair
  import opened TimeGaps
  import opened SessionStore
  import opened Batches
  import opened AgentTurn
  import History
  import TurnRepair
  import J = JournalFile

  // ----- the repair completes an interrupted batch -----

  /** Whole batches and one interrupted batch survive the removal of orphans. */
  lemma {:induction false} FilterKeepsBatches(h: seq<Message>)
    requires Batched(h).Waiting?
    ensures !Fails(h) && Batched(WithoutOrphans(h)) == Batched(h)
  {
    if h != [] {
      var front, last := h[..|h| - 1], h[|h| - 1];
      FilterKeepsBatches(front);
      var kept := WithoutOrphans(front);
      BatchedIsOpen(kept);
      BatchedSnoc(kept, last);
      if Batched(front).open == {} {
        RepeatedIsAnswered(last);
      } else {
        AnswersOpen(last);
      }
    }
  }

  lemma RepeatedIsAnswered(m: Message)
    ensures RepeatsAResult(m) ==> Answers(m) != {}
  {
    if RepeatsAResult(m) {
      var ids := ResultList(m.content.blocks);
      assert ids[0] in Answers(m);
    }
  }

  /** In an interrupted batch all open calls were made by the same message. */
  lemma {:induction false} FirstUnpairedIsBatchStart(kept: seq<Message>, opens: seq<Entry>)
    requires Tracks(opens, kept) && Batched(kept).Waiting? && opens != []
    ensures !WellBatched(kept) && FirstUnpaired(opens) == BatchStart(kept)
    ensures OnlyResultsBehind(kept, FirstUnpaired(opens))
  {
    BatchedIsOpen(kept);
    var e := FirstEntry(opens);
    assert e.id in Ids(opens);
    BatchStartIs(kept);
    OpenedAtStart(kept, BatchStart(kept), e);
  }

  /** A call that still waits was made where the batch began. */
  lemma OpenedAtStart(kept: seq<Message>, i: nat, e: Entry)
    requires WaitsSince(kept, i) && IsLastOpening(e, kept) && e.id in Batched(kept).open
    ensures e.index == i
  {
    assert e.id in CallIdsOf(kept[i]);
    assert e.index > i ==> OnlyResults(kept[e.index]);
  }

  lemma {:induction false} BlockRecoveriesAre(opens: seq<Entry>)
    requires AllNamed(opens)
    ensures forall b :: b in BlockRecoveries(opens) ==> b.ToolResult?
    ensures BlockRecoveries(opens) != [] ==> ResultBlockIds(BlockRecoveries(opens)) != {}
  {
    if opens != [] {
      var front, last := opens[..|opens| - 1], opens[|opens| - 1];
      assert opens == front + [last] && last in opens;
      BlockRecoveriesAre(front);
    }
  }

  lemma {:induction false} ToolRecoveriesAre(opens: seq<Entry>)
    requires AllNamed(opens)
    ensures forall m :: m in ToolRecoveries(opens) ==> CarriesResults(m) && History.Sendable(m)
  {
    if opens != [] {
      var front, last := opens[..|opens| - 1], opens[|opens| - 1];
      assert opens == front + [last] && last in opens;
      ToolRecoveriesAre(front);
    }
  }

  lemma RecoveriesCarryResults(opens: seq<Entry>)
    requires DistinctIds(opens) && AllNamed(opens)
    ensures forall m :: m in Recoveries(opens) ==> CarriesResults(m) && History.Sendable(m)
  {
    RecoveriesGood(opens);
    ToolRecoveriesAre(opens);
    BlockRecoveriesAre(opens);
    var blocks := BlockRecoveries(opens);
    if blocks != [] {
      var m := Plain(User, Blocks(blocks));
      assert m in Recoveries(opens);
    }
  }

  lemma {:induction false} CompletedIsWhole(kept: seq<Message>, opens: seq<Entry>)
    requires Tracks(opens, kept) && Batched(kept).Waiting?
    ensures WellBatched(kept + Recoveries(opens))
    ensures forall m :: m in Recoveries(opens) ==> History.Sendable(m)
  {
    forall x | x in opens ensures x.id != NO_CALL { assert IsLastOpening(x, kept); }
    BatchedIsOpen(kept);
    RecoveriesClose(Open(kept), opens);
    RecoveriesCarryResults(opens);
    CarriedResultsClose(kept, Recoveries(opens));
  }

  lemma {:induction false} FilterIsSubset(h: seq<Message>)
    ensures forall m :: m in WithoutOrphans(h) ==> m in h
  {
    if h != [] {
      assert h == h[..|h| - 1] + [h[|h| - 1]];
      FilterIsSubset(h[..|h| - 1]);
    }
  }

  /** Whatever batch a crash interrupted, in either protocol and with any number of calls left: the
      repair completes it, so that a turn can start on the result. */
  lemma {:induction false} RepairCompletesBatch(h: seq<Message>)
    requires Batched(h).Waiting?
    ensures Repaired(h).Some?
    ensures WithoutOrphans(h) <= Repaired(h).value && WellBatched(Repaired(h).value)
    ensures TurnRepair.AllSendable(h) ==> Sound(Repaired(h).value)
  {
    FilterKeepsBatches(h);
    ScanIsFilter(h);
    ScanKeeps(h);
    FilterIsSubset(h);
    var kept, opens := Scan(h).cleaned, Scan(h).opens;
    CompletedIsWhole(kept, opens);
    if opens == [] {
      assert Recoveries(opens) == [] && kept + [] == kept;
    } else {
      FirstUnpairedIsBatchStart(kept, opens);
    }
    assert Repaired(h).value == kept + Recoveries(opens);
  }

  // ----- reminders of pauses -----

  /** No message that carries a result comes directly after a pause. */
  ghost predicate NoResultAfterPause(ds: seq<Dated>) {
    forall i :: 0 <= i < |ds| && AfterPause(LastTime(ds[..i]), ds[i]) ==> ResultIdsOf(ds[i].message) == {}
  }

  lemma {:induction false} NoResultSnoc(ds: seq<Dated>, d: Dated)
    ensures NoResultAfterPause(ds + [d]) <==>
            NoResultAfterPause(ds) && (AfterPause(LastTime(ds), d) ==> ResultIdsOf(d.message) == {})
  {
    var more := ds + [d];
    assert more[..|ds|] == ds && more[|ds|] == d;
    assert forall i :: 0 <= i < |ds| ==> more[..i] == ds[..i] && more[i] == ds[i];
  }

  lemma HiddenIsPlain(m: Message)
    ensures !Shown(m) ==> IsPlain(m)
    ensures !Saved(m) ==> IsPlain(m)
    ensures Shown(m) ==> History.Sendable(m)
  {
  }

  lemma PlainKeepsState(s: Batches.State, m: Message)
    requires After(s, m).Waiting? && IsPlain(m)
    ensures After(s, m) == s
  {
  }

  /** Plain messages can be dropped from whole batches: none of them stands inside a batch. */
  lemma {:induction false} DroppedKeepsBatches(h: seq<Message>, keep: Message -> bool)
    requires Batched(h).Waiting? && forall m :: !keep(m) ==> IsPlain(m)
    ensures Batched(Select(h, keep)) == Batched(h)
  {
    if h != [] {
      var front, last := h[..|h| - 1], h[|h| - 1];
      DroppedKeepsBatches(front, keep);
      if keep(last) {
        BatchedSnoc(Select(front, keep), last);
      } else {
        PlainKeepsState(Batched(front), last);
      }
    }
  }

  lemma ReminderIsShown(hours: string)
    ensures Shown(Reminder(hours)) && IsPlain(Reminder(hours))
  {
    var text := Reminder(hours).content.text;
    ReminderIsGap(hours);
    assert OccursAt(GAP_MARKER, text, 0);
  }

  lemma {:induction false} BrokenStays(h: seq<Message>, more: seq<Message>)
    requires Batched(h).Broken?
    ensures Batched(h + more).Broken?
  {
    if more == [] {
      assert h + more == h;
    } else {
      var front, last := more[..|more| - 1], more[|more| - 1];
      BrokenStays(h, front);
      BatchedSnoc(h + front, last);
      assert h + more == (h + front) + [last];
    }
  }

  /** A reminder may come between batches and breaks a waiting one. */
  lemma {:induction false} RemindedBatch(h: seq<Message>, last: Option<int>, d: Dated, hours: int -> string)
    requires Batched(h).Waiting?
    ensures Batched(h + Select(ReminderFor(last, d, hours), Shown)) ==
            if AfterPause(last, d) && !WellBatched(h) then Broken else Batched(h)
  {
    if AfterPause(last, d) {
      var text := hours(d.stamp.time.value - last.value);
      ReminderIsShown(text);
      KeptBehind(h, Reminder(text), Shown);
    } else {
      assert Select([], Shown) == [] && h + [] == h;
    }
  }

  lemma KeptBehind(h: seq<Message>, m: Message, keep: Message -> bool)
    requires Batched(h).Waiting? && IsPlain(m) && keep(m)
    ensures Batched(h + Select([m], keep)) == if WellBatched(h) then Batched(h) else Broken
  {
    SelectOne(m, keep);
    PlainBehind(h, m);
  }

  lemma PlainBehind(h: seq<Message>, m: Message)
    requires Batched(h).Waiting? && IsPlain(m)
    ensures Batched(h + [m]) == if WellBatched(h) then Batched(h) else Broken
  {
    BatchedSnoc(h, m);
  }

  lemma {:induction false} ShownSnoc(front: seq<Dated>, d: Dated, hours: int -> string)
    ensures Select(WithReminders(front + [d], hours), Shown) ==
            Select(WithReminders(front, hours), Shown) + Select(ReminderFor(LastTime(front), d, hours), Shown)
            + Select([d.message], Shown)
  {
    assert (front + [d])[..|front|] == front;
    SelectAppend(WithReminders(front, hours), ReminderFor(LastTime(front), d, hours) + [d.message], Shown);
    SelectAppend(ReminderFor(LastTime(front), d, hours), [d.message], Shown);
  }

  lemma {:induction false} ShownKeepsState(h: seq<Message>, m: Message)
    requires After(Batched(h), m).Waiting?
    ensures Batched(h + Select([m], Shown)) == After(Batched(h), m)
  {
    SelectOne(m, Shown);
    HiddenIsPlain(m);
    if Shown(m) {
      BatchedSnoc(h, m);
    } else {
      PlainKeepsState(Batched(h), m);
      assert h + [] == h;
    }
  }

  /** What a loaded session shows consists of the same batches, unless a reminder splits one. */
  lemma {:induction false} RemindersKeepBatchesExactly(ds: seq<Dated>, hours: int -> string)
    requires Batched(Messages(ds)).Waiting?
    ensures Batched(Select(WithReminders(ds, hours), Shown)) ==
            if NoResultAfterPause(ds) then Batched(Messages(ds)) else Broken
  {
    if ds == [] {
      assert Messages(ds) == [];
    } else {
      var front, d := ds[..|ds| - 1], ds[|ds| - 1];
      assert ds == front + [d] && Messages(ds) == Messages(front) + [d.message];
      BatchedSnoc(Messages(front), d.message);
      RemindersKeepBatchesExactly(front, hours);
      NoResultSnoc(front, d);
      ShownSnoc(front, d, hours);
      var shown := Select(WithReminders(front, hours), Shown);
      var reminder := Select(ReminderFor(LastTime(front), d, hours), Shown);
      if NoResultAfterPause(front) {
        RemindedBatch(shown, LastTime(front), d, hours);
        if Batched(shown + reminder).Waiting? {
          ShownKeepsState(shown + reminder, d.message);
        } else {
          BrokenStays(shown + reminder, Select([d.message], Shown));
        }
      } else {
        BrokenStays(shown, reminder);
        BrokenStays(shown + reminder, Select([d.message], Shown));
      }
    }
  }

  // ----- loading a session and going on -----

  lemma {:induction false} ShownIsSendable(ms: seq<Message>)
    ensures TurnRepair.AllSendable(Select(ms, Shown))
  {
    SelectedIsKept(ms, Shown);
    forall m | m in Select(ms, Shown) ensures History.Sendable(m) {
      HiddenIsPlain(m);
    }
  }

  /** The messages of a store with their timestamps. */
  function Entries(s: Store): seq<Dated> {
    if |s.messages| == |s.stamps| then DateAll(s.messages, s.stamps) else []
  }

  /** A journal of whole batches, the last one perhaps interrupted, is loaded as a history a turn
      can start on exactly if none of its results comes directly after a pause. */
  lemma LoadedTurnExactly(s: Store, sid: SessionId, hours: int -> string)
    requires sid in s.files && Batched(Messages(Sanitize(J.Read(s.files[sid])))).Waiting?
    ensures var (t, r) := LoadedStore(s, sid, hours);
            && r.Loaded? && WellBatched(t.messages)
            && (Sound(r.history) <==> NoResultAfterPause(Entries(t)))
            && (Batched(r.history).Broken? <==> !NoResultAfterPause(Entries(t)))
  {
    var ds := Sanitize(J.Read(s.files[sid]));
    RepairCompletesBatch(Messages(ds));
    var rd := RepairDated(ds).value;
    assert Messages(rd) == Repaired(Messages(ds)).value;
    DateAllSplits(rd);
    RemindersKeepBatchesExactly(rd, hours);
    ShownIsSendable(WithReminders(rd, hours));
  }

  lemma UntimedAddNoPause(ds: seq<Dated>, more: seq<Dated>)
    requires ds <= more && forall i :: |ds| <= i < |more| ==> more[i].stamp == NO_STAMP
    ensures NoResultAfterPause(more) <==> NoResultAfterPause(ds)
  {
    assert forall i :: 0 <= i < |ds| ==> more[..i] == ds[..i] && more[i] == ds[i];
  }

  /** The synthetic results of a repair carry no time, so they cannot be behind a pause. */
  lemma RepairAddsNoPause(ds: seq<Dated>)
    requires Batched(Messages(ds)).Waiting? && AllGood(Messages(ds))
    ensures RepairDated(ds).Some? && ds <= RepairDated(ds).value
    ensures NoResultAfterPause(RepairDated(ds).value) <==> NoResultAfterPause(ds)
  {
    var ms := Messages(ds);
    BatchedIsOpen(ms);
    NothingFiltered(ms);
    AllKeptStamps(ds);
    RepairCompletesBatch(ms);
    var r := Repaired(ms).value;
    RepairedStampsAre(ds, |r|);
    RepairedExtends(ds, r);
    UntimedAddNoPause(ds, RepairDated(ds).value);
  }

  lemma RepairedExtends(ds: seq<Dated>, r: seq<Message>)
    requires Messages(ds) <= r
    requires forall i :: 0 <= i < |r| ==> RepairedStamps(ds, |r|)[i] == if i < |ds| then ds[i].stamp else NO_STAMP
    ensures var rd := DateAll(r, RepairedStamps(ds, |r|));
            ds <= rd && forall i :: |ds| <= i < |rd| ==> rd[i].stamp == NO_STAMP
  {
    forall i | 0 <= i < |ds| ensures DateAll(r, RepairedStamps(ds, |r|))[i] == ds[i] {
      assert Messages(ds)[i] == r[i];
    }
  }

  lemma AgreeingReads(s: Store, sid: SessionId)
    requires Agree(s) && s.current == Some(sid) && sid in s.files && CanonicalAll(s.messages)
    ensures Sanitize(J.Read(s.files[sid])) == Entries(s) && Messages(Entries(s)) == s.messages
  {
    assert AllCanonical(Entries(s)) by {
      forall d | d in Entries(s) ensures Canonical(d.message) {
        assert d.message in s.messages;
      }
    }
    SanitizeInverts(Entries(s));
  }

  lemma JournalResumes(files: map<SessionId, Journal>, sid: SessionId, ds: seq<Dated>, hours: int -> string)
    requires sid in files && Sanitize(J.Read(files[sid])) == ds
    requires Batched(Messages(ds)).Waiting? && AllGood(Messages(ds))
    ensures var (t, r) := LoadedStore(Store(None, [], [], files), sid, hours);
            && r.Loaded? && Messages(ds) <= t.messages && WellBatched(t.messages)
            && (Sound(r.history) <==> NoResultAfterPause(ds))
            && (Batched(r.history).Broken? <==> !NoResultAfterPause(ds))
  {
    RepairAddsNoPause(ds);
    LoadedTurnExactly(Store(None, [], [], files), sid, hours);
    DateAllSplits(RepairDated(ds).value);
  }

  /** Leaving out what is not written changes no batch. */
  lemma {:induction false} VisibleBatches(history: seq<Message>)
    requires Batched(history).Waiting? && CanonicalAll(history) && AllGood(history)
    ensures Batched(Visible(history)) == Batched(history)
    ensures CanonicalAll(Visible(history)) && AllGood(Visible(history))
  {
    forall m | !Saved(m) ensures IsPlain(m) {
      HiddenIsPlain(m);
    }
    DroppedKeepsBatches(history, Saved);
    SelectedFrom(history, Saved);
  }

  lemma {:induction false} SelectedFrom(h: seq<Message>, keep: Message -> bool)
    ensures forall m :: m in Select(h, keep) ==> m in h
  {
    if h != [] {
      assert h == h[..|h| - 1] + [h[|h| - 1]];
      SelectedFrom(h[..|h| - 1], keep);
    }
  }

  /** A saved history of whole batches, the last one perhaps interrupted: the next process loads a
      history a turn can start on exactly if no saved result comes directly after a pause. */
  lemma {:induction false} SavedTurnResumesExactly(s: Store, history: seq<Message>, sid: SessionId, now: Stamp,
                                                   hours: int -> string)
    requires Agree(s) && NameIsFree(s, sid) && Visible(history) != []
    requires CanonicalAll(history) && AllGood(history) && Batched(history).Waiting?
    ensures var saved := SavedStore(s, history, sid, now);
            && saved.current.Some? && saved.current.value in saved.files
            && var (t, r) := LoadedStore(Store(None, [], [], saved.files), saved.current.value, hours);
            && r.Loaded? && saved.messages <= t.messages && WellBatched(t.messages)
            && (Sound(r.history) <==> NoResultAfterPause(Entries(saved)))
  {
    var saved := SavedStore(s, history, sid, now);
    VisibleBatches(history);
    SaveAgrees(s, history, sid, now);
    SavedFileExists(s, history, sid, now);
    AgreeingReads(saved, saved.current.value);
    JournalResumes(saved.files, saved.current.value, Entries(saved), hours);
  }

  /** A store after a call was written at once and its result more than thirty minutes later. */
  function LongToolRun(c: CallId, sid: SessionId, one: string, two: string): Store {
    var called := Appended(Store(None, [], [], map[]), [Calling(c)], sid, Stamp(one, Some(0)));
    Appended(called, [Answering(c)], sid, Stamp(two, Some(TIME_GAP + 1)))
  }

  lemma LongToolRunAgrees(c: CallId, sid: SessionId, one: string, two: string)
    ensures var s := LongToolRun(c, sid, one, two);
            && Agree(s) && s.current == Some(sid) && sid in s.files
            && s.messages == [Calling(c), Answering(c)]
            && s.stamps == [Stamp(one, Some(0)), Stamp(two, Some(TIME_GAP + 1))]
  {
    var empty := Store(None, [], [], map[]);
    var called := Appended(empty, [Calling(c)], sid, Stamp(one, Some(0)));
    AppendAgrees(empty, [Calling(c)], sid, Stamp(one, Some(0)));
    AppendAgrees(called, [Answering(c)], sid, Stamp(two, Some(TIME_GAP + 1)));
  }

  lemma LongPause(ds: seq<Dated>)
    requires |ds| == 2 && ds[0].stamp.time == Some(0) && ds[1].stamp.time == Some(TIME_GAP + 1)
    requires ResultIdsOf(ds[1].message) != {}
    ensures !NoResultAfterPause(ds)
  {
    assert ds[..1] == [ds[0]] && AfterPause(LastTime(ds[..1]), ds[1]);
  }

  /** A tool that runs, or waits for approval, for more than thirty minutes: the journal holds one
      whole batch, and loading it splits the batch by a reminder. */
  lemma LongToolRunSplitsBatch(c: CallId, sid: SessionId, one: string, two: string, hours: int -> string)
    requires c != NO_CALL
    ensures var s := LongToolRun(c, sid, one, two);
            && Agree(s) && s.messages == [Calling(c), Answering(c)] && WellBatched(s.messages) && sid in s.files
            && var r := LoadedStore(Store(None, [], [], s.files), sid, hours).1;
            && r.Loaded? && Batched(r.history).Broken?
  {
    var s := LongToolRun(c, sid, one, two);
    LongToolRunAgrees(c, sid, one, two);
    OneExchangeIsWhole(c);
    AgreeingReads(s, sid);
    LongPause(Entries(s));
    JournalResumes(s.files, sid, Entries(s), hours);
  }

  lemma OneExchangeIsWhole(c: CallId)
    requires c != NO_CALL
    ensures WellBatched([Calling(c), Answering(c)]) && ResultIdsOf(Answering(c)) == {c}
    ensures CanonicalAll([Calling(c), Answering(c)]) && AllGood([Calling(c), Answering(c)])
  {
    CallFacts(c);
    AnswerFacts(c);
    assert Batched([Calling(c)]) == Waiting({c}) by {
      BatchedSnoc([], Calling(c));
      assert [] + [Calling(c)] == [Calling(c)];
    }
    assert WellBatched([Calling(c), Answering(c)]) by {
      BatchedSnoc([Calling(c)], Answering(c));
      assert [Calling(c)] + [Answering(c)] == [Calling(c), Answering(c)];
    }
  }

  lemma CallFacts(c: CallId)
    requires c != NO_CALL
    ensures CallIdsOf(Calling(c)) == {c} && ResultIdsOf(Calling(c)) == {}
    ensures Canonical(Calling(c)) && GoodResults(Calling(c))
  {
    CallingOpens([], c, 0);
  }

  lemma AnswerFacts(c: CallId)
    requires c != NO_CALL
    ensures CallIdsOf(Answering(c)) == {} && ResultIdsOf(Answering(c)) == {c}
    ensures Canonical(Answering(c)) && GoodResults(Answering(c)) && CarriesResults(Answering(c))
  {
  }
}
