/** The session store: an in-memory copy of what the journal of the current session holds,
    kept in step with the file by appending or rewriting it. */
module SessionStore {
  import opened Wrappers
  import opened Filters
  import opened Protocol
  import opened SessionRows
  import opened SessionStamps
  import opened TimeGaps
  import opened SessionRepair
  import Summarizer
  import J = JournalFile

  datatype SessionId = SessionId(name: string)

  type Journal = J.File<Row>

  const EMPTY: Journal := J.File([], J.Clean)

  datatype Store = Store(current: Option<SessionId>, messages: seq<Message>, stamps: seq<Stamp>,
                         files: map<SessionId, Journal>)

  datatype LoadResult = Missing | Raised | Loaded(history: seq<Message>)

  function FileOf(files: map<SessionId, Journal>, sid: SessionId): Journal {
    if sid in files then files[sid] else EMPTY
  }

  function DateAll(ms: seq<Message>, stamps: seq<Stamp>): (ds: seq<Dated>)
    requires |ms| == |stamps|
    ensures |ds| == |ms| && forall i :: 0 <= i < |ms| ==> ds[i] == Dated(ms[i], stamps[i])
  {
    seq(|ms|, i requires 0 <= i < |ms| => Dated(ms[i], stamps[i]))
  }

  function RowsOf(ms: seq<Message>, stamps: seq<Stamp>): seq<Row>
    requires |ms| == |stamps|
  {
    Encoded(DateAll(ms, stamps))
  }

  function SameStamp(n: nat, now: Stamp): seq<Stamp> {
    seq(n, _ => now)
  }

  // ----- the operations on values -----

  function Opened(s: Store, sid: SessionId): Store {
    Store(Some(sid), [], [], s.files[sid := EMPTY])
  }

  /** `append_messages`: a session without id gets a fresh one. */
  function Appended(s: Store, ms: seq<Message>, freshId: SessionId, now: Stamp): Store {
    if ms == [] then s
    else
      var t := if s.current.None? then Opened(s, freshId) else s;
      var sid, stamps := t.current.value, SameStamp(|ms|, now);
      Store(t.current, t.messages + ms, t.stamps + stamps,
            t.files[sid := J.Append(FileOf(t.files, sid), RowsOf(ms, stamps))])
  }

  /** The part of a history that is written. */
  function Visible(history: seq<Message>): seq<Message> {
    Select(history, Saved)
  }

  /** `save`: append what is new if the history extends the journal, else rewrite the journal. */
  function SavedStore(s: Store, history: seq<Message>, sid: SessionId, now: Stamp): Store
    requires |s.messages| == |s.stamps|
  {
    var t := s.(current := Some(if s.current.Some? then s.current.value else sid));
    var ms := Visible(history);
    if t.messages <= ms then Appended(t, ms[|t.messages|..], sid, now)
    else
      var stamps := RewriteStamps(t.messages, t.stamps, ms, now);
      Store(t.current, ms, stamps, t.files[t.current.value := J.Replace(RowsOf(ms, stamps))])
  }

  /** `append_messages` whose write may fail: then only the file has changed. */
  function AppendTried(s: Store, ms: seq<Message>, freshId: SessionId, now: Stamp, write: J.Write<Row>): (t: Store)
    requires |s.messages| == |s.stamps|
    ensures |t.messages| == |t.stamps|
  {
    if ms == [] || write.Whole? then Appended(s, ms, freshId, now)
    else
      var t := if s.current.None? then Opened(s, freshId) else s;
      var sid, rows := t.current.value, RowsOf(ms, SameStamp(|ms|, now));
      t.(files := t.files[sid := J.Written(FileOf(t.files, sid), rows, write)])
  }

  /** `save` whose write may fail; a rewrite that fails leaves the journal alone. */
  function SaveTried(s: Store, history: seq<Message>, sid: SessionId, now: Stamp, write: J.Write<Row>): (t: Store)
    requires |s.messages| == |s.stamps|
    ensures |t.messages| == |t.stamps|
  {
    if write.Whole? then SavedStore(s, history, sid, now)
    else
      var t := s.(current := Some(if s.current.Some? then s.current.value else sid));
      var ms := Visible(history);
      if t.messages <= ms then AppendTried(t, ms[|t.messages|..], sid, now, write) else t
  }

  // ----- agreement with the journal -----

  /** The journal holds the persisted messages with their timestamps, and ends with a newline. */
  ghost predicate Agree(s: Store) {
    && |s.messages| == |s.stamps|
    && (s.current.None? ==> s.messages == [])
    && (s.current.Some? ==>
          J.Holds(FileOf(s.files, s.current.value), RowsOf(s.messages, s.stamps)))
  }

  lemma RowsOfAppend(ms: seq<Message>, stamps: seq<Stamp>, more: seq<Message>, moreStamps: seq<Stamp>)
    requires |ms| == |stamps| && |more| == |moreStamps|
    ensures RowsOf(ms + more, stamps + moreStamps) == RowsOf(ms, stamps) + RowsOf(more, moreStamps)
  {
  }

  /** The append itself, whatever state the journal is in. */
  lemma AppendedReads(s: Store, ms: seq<Message>, sid: SessionId, now: Stamp)
    requires s.current.Some? && ms != []
    ensures var f, rows := FileOf(s.files, s.current.value), RowsOf(ms, SameStamp(|ms|, now));
            var g := FileOf(Appended(s, ms, sid, now).files, s.current.value);
            && g.tail == J.Clean
            && J.Read(g) == J.Rows(f.lines) + (if f.tail == J.Clean then rows else rows[1..])
  {
    J.AppendReads(FileOf(s.files, s.current.value), RowsOf(ms, SameStamp(|ms|, now)));
  }

  lemma OpenedAgrees(s: Store, sid: SessionId)
    ensures Agree(Opened(s, sid))
  {
    assert J.Read(EMPTY) == RowsOf([], []);
  }

  lemma AppendAgrees(s: Store, ms: seq<Message>, sid: SessionId, now: Stamp)
    requires Agree(s)
    ensures Agree(Appended(s, ms, sid, now))
    ensures Appended(s, ms, sid, now).messages == s.messages + ms
    decreases s.current.None?
  {
    if ms != [] {
      if s.current.None? {
        OpenedAgrees(s, sid);
        AppendAgrees(Opened(s, sid), ms, sid, now);
      } else {
        AppendedReads(s, ms, sid, now);
        RowsOfAppend(s.messages, s.stamps, ms, SameStamp(|ms|, now));
      }
    }
  }

  /** A save without a current session chooses a name; its journal must be empty. */
  ghost predicate NameIsFree(s: Store, sid: SessionId) {
    s.current.None? ==> FileOf(s.files, sid).tail == J.Clean && J.Read(FileOf(s.files, sid)) == []
  }

  lemma SavedMessages(s: Store, history: seq<Message>, sid: SessionId, now: Stamp)
    requires |s.messages| == |s.stamps|
    ensures SavedStore(s, history, sid, now).messages == Visible(history)
  {
  }

  /** The rows an append adds. */
  function NewRows(ms: seq<Message>, now: Stamp): seq<Row> {
    RowsOf(ms, SameStamp(|ms|, now))
  }

  /** Whether the journal holds what memory holds after an append that may fail: the old rows, and
      the new ones if it did not. */
  ghost predicate Fits(f: Journal, have: seq<Row>, rows: seq<Row>, write: J.Write<Row>) {
    J.EndsClean(f, rows, write) && J.Survivors(f, rows, write) == (if write.Whole? then have + rows else have)
  }

  /** An append in any state of the journal. */
  lemma AppendTriedExactly(s: Store, ms: seq<Message>, sid: SessionId, now: Stamp, write: J.Write<Row>)
    requires s.current.Some? && |s.messages| == |s.stamps| && ms != []
    ensures Agree(AppendTried(s, ms, sid, now, write)) <==>
            Fits(FileOf(s.files, s.current.value), RowsOf(s.messages, s.stamps), NewRows(ms, now), write)
  {
    var f, have := FileOf(s.files, s.current.value), RowsOf(s.messages, s.stamps);
    RowsOfAppend(s.messages, s.stamps, ms, SameStamp(|ms|, now));
    J.WrittenHoldsExactly(f, NewRows(ms, now), write, if write.Whole? then have + NewRows(ms, now) else have);
  }

  /** Where the journal agreed before, a failed append keeps that exactly if nothing was written. */
  lemma FitsExactly(f: Journal, have: seq<Row>, rows: seq<Row>, write: J.Write<Row>)
    requires rows != []
    ensures J.Holds(f, have) ==>
              (Fits(f, have, rows, write) <==> write.Whole? || (write.whole == 0 && write.tail == J.Clean))
    ensures write.Whole? ==>
              (Fits(f, have, rows, write) <==>
                 J.Rows(f.lines) == have + (if f.tail == J.Clean then [] else rows[..1]))
  {
    var before, k := J.Rows(f.lines), J.WholeRows(rows, write);
    assert before + [] == before && have + [] == have && rows[..|rows|] == rows;
    if write.Whole? {
      SameRest(before, have, rows);
    }
  }

  lemma SameRest(before: seq<Row>, have: seq<Row>, rows: seq<Row>)
    requires rows != []
    ensures before + rows == have + rows <==> before == have
    ensures before + rows[1..] == have + rows <==> before == have + rows[..1]
  {
    assert rows[..1] + rows[1..] == rows && have + rows == (have + rows[..1]) + rows[1..];
    SameFront(before, have, rows);
    SameFront(before, have + rows[..1], rows[1..]);
  }

  lemma SameFront(left: seq<Row>, right: seq<Row>, rest: seq<Row>)
    ensures left + rest == right + rest <==> left == right
  {
    if left + rest == right + rest {
      assert |left| == |right|;
      assert left == (left + rest)[..|left|] && right == (right + rest)[..|right|];
    }
  }

  /** When a save leaves the journal equal to memory, in any state of the two: the history does
      not extend the journal and it is rewritten, or what is appended fits. */
  ghost predicate SaveFits(s: Store, history: seq<Message>, sid: SessionId, now: Stamp, write: J.Write<Row>)
    requires |s.messages| == |s.stamps|
  {
    var f := FileOf(s.files, if s.current.Some? then s.current.value else sid);
    var ms, have := Visible(history), RowsOf(s.messages, s.stamps);
    if !(s.messages <= ms) then write.Whole? || J.Holds(f, have)
    else if ms == s.messages then J.Holds(f, have)
    else Fits(f, have, NewRows(ms[|s.messages|..], now), write)
  }

  lemma SaveTriedExactly(s: Store, history: seq<Message>, sid: SessionId, now: Stamp, write: J.Write<Row>)
    requires |s.messages| == |s.stamps|
    ensures Agree(SaveTried(s, history, sid, now, write)) <==> SaveFits(s, history, sid, now, write)
  {
    var t := s.(current := Some(if s.current.Some? then s.current.value else sid));
    var ms := Visible(history);
    if s.messages <= ms {
      var tail := ms[|s.messages|..];
      assert ms == s.messages + tail;
      if tail != [] {
        AppendTriedExactly(t, tail, sid, now, write);
      }
    } else if write.Whole? {
      J.ReplaceReads(RowsOf(ms, RewriteStamps(s.messages, s.stamps, ms, now)));
    }
  }

  lemma SaveAgrees(s: Store, history: seq<Message>, sid: SessionId, now: Stamp)
    requires Agree(s) && NameIsFree(s, sid)
    ensures Agree(SavedStore(s, history, sid, now))
    ensures SavedStore(s, history, sid, now).messages == Visible(history)
  {
    SavedMessages(s, history, sid, now);
    SaveTriedExactly(s, history, sid, now, J.Whole);
    var ms, have := Visible(history), RowsOf(s.messages, s.stamps);
    if s.messages <= ms && ms != s.messages {
      FitsExactly(FileOf(s.files, if s.current.Some? then s.current.value else sid), have,
                  NewRows(ms[|s.messages|..], now), J.Whole);
    }
  }

  /** A save in a session whose journal has come apart from memory restores agreement when it
      rewrites the journal; when it appends, only if a torn line swallows the first new row and
      the same row already stands behind those of memory. */
  lemma SaveRestoresExactly(s: Store, history: seq<Message>, sid: SessionId, now: Stamp)
    requires |s.messages| == |s.stamps| && s.current.Some? && !Agree(s)
    ensures var f, ms, have := FileOf(s.files, s.current.value), Visible(history), RowsOf(s.messages, s.stamps);
            Agree(SavedStore(s, history, sid, now)) <==>
              || !(s.messages <= ms)
              || (&& ms != s.messages && f.tail != J.Clean
                  && J.Rows(f.lines) == have + NewRows(ms[|s.messages|..][..1], now))
  {
    SaveTriedExactly(s, history, sid, now, J.Whole);
    var f, ms, have := FileOf(s.files, s.current.value), Visible(history), RowsOf(s.messages, s.stamps);
    if s.messages <= ms && ms != s.messages {
      var tail := ms[|s.messages|..];
      FitsExactly(f, have, NewRows(tail, now), J.Whole);
      FirstRow(tail, now);
      CleanReads(f, have);
    }
  }

  lemma CleanReads(f: Journal, have: seq<Row>)
    ensures f.tail == J.Clean ==> (J.Holds(f, have) <==> J.Rows(f.lines) == have)
    ensures have + [] == have
  {
    assert J.Rows(f.lines) + [] == J.Rows(f.lines);
  }

  lemma FirstRow(ms: seq<Message>, now: Stamp)
    requires ms != []
    ensures NewRows(ms, now)[..1] == NewRows(ms[..1], now)
  {
    assert SameStamp(|ms|, now)[0] == now && SameStamp(1, now)[0] == now;
  }

  /** A journal holds one row more than memory after an append that fails behind its first row. */
  lemma FailedBehindFirst(f: Journal, have: seq<Row>, rows: seq<Row>)
    requires J.Holds(f, have) && |rows| > 1
    ensures J.Holds(J.Written(f, rows, J.Torn(1, J.Clean)), have + rows[..1])
  {
    CleanReads(f, have);
    J.WrittenHoldsExactly(f, rows, J.Torn(1, J.Clean), have + rows[..1]);
  }

  lemma AppendsBehind(f: Journal, have: seq<Row>, rows: seq<Row>)
    requires J.Holds(f, have) && rows != []
    ensures J.Holds(J.Append(f, rows), have + rows)
  {
    CleanReads(f, have);
    J.AppendReads(f, rows);
  }

  /** An append that fails behind its first row and is tried again by the next save: the row stands
      in the journal twice, and memory knows of one. */
  lemma RetriedAppendDuplicates(s: Store, one: Message, two: Message, history: seq<Message>, sid: SessionId,
                                now: Stamp, later: Stamp)
    requires Agree(s) && s.current.Some? && Visible(history) == s.messages + [one, two]
    ensures var failed := AppendTried(s, [one, two], sid, now, J.Torn(1, J.Clean));
            var saved := SavedStore(failed, history, sid, later);
            && J.Read(FileOf(saved.files, s.current.value)) ==
               RowsOf(s.messages, s.stamps) + NewRows([one], now) + NewRows([one, two], later)
            && saved.messages == s.messages + [one, two] && !Agree(saved)
  {
    var f, have, rows := FileOf(s.files, s.current.value), RowsOf(s.messages, s.stamps), NewRows([one, two], now);
    FailedBehindFirst(f, have, rows);
    FirstRow([one, two], now);
    assert [one, two][..1] == [one];
    AppendsBehind(J.Written(f, rows, J.Torn(1, J.Clean)), have + rows[..1], NewRows([one, two], later));
    assert (s.messages + [one, two])[|s.messages|..] == [one, two];
  }

  /** Timestamps of messages that stay in place are kept by either branch. */
  lemma SaveKeepsStamps(s: Store, history: seq<Message>, sid: SessionId, now: Stamp, n: nat)
    requires |s.messages| == |s.stamps| && n <= |s.messages| && s.messages[..n] <= Visible(history)
    ensures var t := SavedStore(s, history, sid, now);
            |t.stamps| == |t.messages| && n <= |t.stamps| && t.stamps[..n] == s.stamps[..n]
  {
    var ms := Visible(history);
    if !(s.messages <= ms) {
      forall i | 0 <= i < n ensures RewriteStamps(s.messages, s.stamps, ms, now)[i] == s.stamps[i] {
        assert s.messages[..n][i] == ms[..n][i];
        CopiesAgree(s.messages, ms, i, ms[i]);
        CounterpartsShareStamps(s.messages, s.stamps, ms, now, i, i);
      }
    }
  }

  lemma {:induction false} CopiesAgree(one: seq<Message>, two: seq<Message>, n: nat, m: Message)
    requires n <= |one| && n <= |two| && forall i :: 0 <= i < n ==> one[i] == two[i]
    ensures Copies(one, n, m) == Copies(two, n, m)
    decreases n
  {
    if n > 0 {
      CopiesAgree(one, two, n - 1, m);
    }
  }

  /** Behind a torn line the first message of the next append cannot be read again. */
  lemma TornTailLosesMessage(s: Store, m: Message, sid: SessionId, now: Stamp)
    requires s.current.Some? && |s.messages| == |s.stamps|
    requires var f := FileOf(s.files, s.current.value);
             f.tail == J.Fragment && J.Read(f) == RowsOf(s.messages, s.stamps)
    ensures var t := Appended(s, [m], sid, now);
            && J.Read(FileOf(t.files, s.current.value)) == RowsOf(s.messages, s.stamps)
            && t.messages == s.messages + [m] && !Agree(t)
  {
    AppendedReads(s, [m], sid, now);
  }

  // ----- loading -----

  /** The timestamps of the messages that are not orphan results. */
  function KeptStamps(ds: seq<Dated>): (ts: seq<Stamp>)
    ensures |ts| == |WithoutOrphans(Messages(ds))|
  {
    if ds == [] then []
    else
      var front, last := ds[..|ds| - 1], ds[|ds| - 1];
      assert Messages(ds)[..|ds| - 1] == Messages(front);
      if Answers(last.message) <= Open(WithoutOrphans(Messages(front))) then KeptStamps(front) + [last.stamp]
      else KeptStamps(front)
  }

  /** `n` messages of the repaired history; the synthetic results have no timestamp. */
  function RepairedStamps(ds: seq<Dated>, n: nat): (ts: seq<Stamp>)
    ensures |ts| == n
  {
    var kept := KeptStamps(ds);
    if n <= |kept| then kept[..n] else kept + SameStamp(n - |kept|, NO_STAMP)
  }

  lemma RepairedStampsAre(ds: seq<Dated>, n: nat)
    ensures forall i :: 0 <= i < n ==>
              RepairedStamps(ds, n)[i] == if i < |KeptStamps(ds)| then KeptStamps(ds)[i] else NO_STAMP
  {
  }

  function RepairDated(ds: seq<Dated>): Option<seq<Dated>> {
    var r := Repaired(Messages(ds));
    if r.None? then None else Some(DateAll(r.value, RepairedStamps(ds, |r.value|)))
  }

  /** `load`; `hours` renders pauses. */
  function LoadedStore(s: Store, sid: SessionId, hours: int -> string): (Store, LoadResult) {
    if sid !in s.files then (s, Missing)
    else
      var ds := RepairDated(Sanitize(J.Read(s.files[sid])));
      if ds.None? then (s, Raised)
      else
        (Store(Some(sid), Messages(ds.value), Stamps(ds.value), s.files),
         Loaded(Select(WithReminders(ds.value, hours), Shown)))
  }

  /** Every row is one the program writes, and the conversation needs no repair. */
  ghost predicate LoadsWhole(f: Journal) {
    var ds := Sanitize(J.Read(f));
    f.tail == J.Clean && Encoded(ds) == J.Read(f) && Paired(Messages(ds)) && AllGood(Messages(ds))
  }

  ghost predicate CanonicalAll(ms: seq<Message>) {
    forall m :: m in ms ==> Canonical(m)
  }

  lemma {:induction false} FilterIsCanonical(h: seq<Message>)
    requires CanonicalAll(h)
    ensures CanonicalAll(WithoutOrphans(h))
  {
    if h != [] {
      assert h == h[..|h| - 1] + [h[|h| - 1]];
      FilterIsCanonical(h[..|h| - 1]);
    }
  }

  lemma {:induction false} ToolRecoveriesCanonical(opens: seq<Entry>)
    requires AllNamed(opens)
    ensures CanonicalAll(ToolRecoveries(opens))
  {
    if opens != [] {
      assert opens == opens[..|opens| - 1] + [opens[|opens| - 1]];
      ToolRecoveriesCanonical(opens[..|opens| - 1]);
    }
  }

  lemma RepairIsCanonical(h: seq<Message>)
    requires CanonicalAll(h) && Repaired(h).Some?
    ensures CanonicalAll(Repaired(h).value)
  {
    FilterIsCanonical(h);
    ScanIsFilter(h);
    ScanKeeps(h);
    var s := Scan(h);
    forall x | x in s.opens ensures x.id != NO_CALL {
      assert IsLastOpening(x, s.cleaned);
    }
    ToolRecoveriesCanonical(s.opens);
  }

  lemma {:induction false} KeptStampsSnoc(ds: seq<Dated>, d: Dated)
    ensures Messages(ds + [d]) == Messages(ds) + [d.message] && Stamps(ds + [d]) == Stamps(ds) + [d.stamp]
    ensures KeptStamps(ds + [d]) ==
            if Answers(d.message) <= Open(WithoutOrphans(Messages(ds)))
            then KeptStamps(ds) + [d.stamp] else KeptStamps(ds)
    ensures WithoutOrphans(Messages(ds + [d])) ==
            var kept := WithoutOrphans(Messages(ds));
            if Answers(d.message) <= Open(kept) then kept + [d.message] else kept
  {
    assert (ds + [d])[..|ds|] == ds;
    assert Messages(ds + [d]) == Messages(ds) + [d.message];
    assert Messages(ds + [d])[..|ds|] == Messages(ds);
  }

  lemma {:induction false} AllKeptStamps(ds: seq<Dated>)
    requires |WithoutOrphans(Messages(ds))| == |ds|
    ensures KeptStamps(ds) == Stamps(ds)
  {
    if ds != [] {
      var front, last := ds[..|ds| - 1], ds[|ds| - 1];
      assert ds == front + [last];
      KeptStampsSnoc(front, last);
      FilterShortens(Messages(front));
      AllKeptStamps(front);
    }
  }

  /** Which rows survive a repair unchanged. */
  lemma RepairDatedUnchanged(ds: seq<Dated>)
    ensures RepairDated(ds) == Some(ds) <==> Paired(Messages(ds)) && AllGood(Messages(ds))
  {
    var ms := Messages(ds);
    FixedPoints(ms);
    if Repaired(ms) == Some(ms) {
      NothingFiltered(ms);
      AllKeptStamps(ds);
      assert DateAll(ms, Stamps(ds)) == ds;
      assert Stamps(ds)[..|ms|] == Stamps(ds);
    }
    assert RepairDated(ds) == Some(ds) ==> Messages(RepairDated(ds).value) == Repaired(ms).value;
  }

  lemma RepairDatedCanonical(ds: seq<Dated>)
    requires AllCanonical(ds) && RepairDated(ds).Some?
    ensures AllCanonical(RepairDated(ds).value)
  {
    forall m | m in Messages(ds) ensures Canonical(m) {
      var i :| 0 <= i < |ds| && Messages(ds)[i] == m;
      assert ds[i] in ds;
    }
    RepairIsCanonical(Messages(ds));
  }

  lemma DateAllSplits(ds: seq<Dated>)
    ensures DateAll(Messages(ds), Stamps(ds)) == ds
  {
  }

  /** A load restores agreement exactly when the journal needed no repair at all. */
  lemma LoadAgreesExactly(s: Store, sid: SessionId, hours: int -> string)
    requires LoadedStore(s, sid, hours).1.Loaded?
    ensures Agree(LoadedStore(s, sid, hours).0) <==> LoadsWhole(s.files[sid])
  {
    var f := s.files[sid];
    var ds := Sanitize(J.Read(f));
    var rd := RepairDated(ds).value;
    DateAllSplits(rd);
    RepairDatedUnchanged(ds);
    SanitizedIsCanonical(J.Read(f));
    RepairDatedCanonical(ds);
    SanitizeInverts(rd);
  }

  // ----- saving, loading and saving again -----

  predicate Lasting(m: Message) {
    Shown(m) && Saved(m)
  }

  /** What a loaded history would write, were it saved at once. */
  lemma {:induction false} ReloadedVisible(ds: seq<Dated>, hours: int -> string)
    ensures Visible(Select(WithReminders(ds, hours), Shown)) == Select(Messages(ds), Lasting)
  {
    SelectTwice(WithReminders(ds, hours), Shown, Saved, Lasting);
    RemindersVanish(ds, hours, Lasting);
  }

  /** Saving a loaded history at once writes no row exactly when every loaded message is shown
      and saved: no unmarked system message, no empty user text, no stored reminder. */
  lemma ResaveExactly(s: Store, sid: SessionId, hours: int -> string, other: SessionId, now: Stamp)
    requires LoadedStore(s, sid, hours).1.Loaded?
    ensures var (t, r) := LoadedStore(s, sid, hours);
            && Visible(r.history) == Select(t.messages, Lasting)
            && (SavedStore(t, r.history, other, now) == t <==> forall m :: m in t.messages ==> Lasting(m))
  {
    var (t, r) := LoadedStore(s, sid, hours);
    var ds := RepairDated(Sanitize(J.Read(s.files[sid]))).value;
    ReloadedVisible(ds, hours);
    SelectShortens(t.messages, Lasting);
    var ms := Select(t.messages, Lasting);
    if ms == t.messages {
      assert ms[|t.messages|..] == [];
    }
  }

  /** The messages of a conversation: no system messages, no empty user text. */
  ghost predicate Conversation(ms: seq<Message>) {
    forall m :: m in ms ==> Canonical(m) && m.role != System && !(m.role == User && m.content == Text(""))
  }

  lemma ConversationLasts(ms: seq<Message>)
    requires Conversation(ms)
    ensures CanonicalAll(ms) && Visible(ms) == ms && forall m :: m in ms ==> Lasting(m)
  {
    SelectShortens(ms, Saved);
  }

  /** An agreeing journal of a paired conversation loads as what was saved. */
  lemma AgreeingLoads(s: Store, sid: SessionId, hours: int -> string)
    requires Agree(s) && s.current == Some(sid) && sid in s.files
    requires CanonicalAll(s.messages) && Paired(s.messages) && AllGood(s.messages)
    ensures var (t, r) := LoadedStore(Store(None, [], [], s.files), sid, hours);
            t == s && r.Loaded? && Agree(t)
  {
    var ds := DateAll(s.messages, s.stamps);
    assert Messages(ds) == s.messages && Stamps(ds) == s.stamps;
    assert AllCanonical(ds) by {
      forall d | d in ds ensures Canonical(d.message) {
        assert d.message in s.messages;
      }
    }
    SanitizeInverts(ds);
    RepairDatedUnchanged(ds);
  }

  lemma SavedFileExists(s: Store, history: seq<Message>, sid: SessionId, now: Stamp)
    requires Agree(s) && NameIsFree(s, sid) && Visible(history) != []
    ensures var t := SavedStore(s, history, sid, now);
            t.current.Some? && t.current.value in t.files
  {
    SaveAgrees(s, history, sid, now);
    var t := SavedStore(s, history, sid, now);
    assert |RowsOf(t.messages, t.stamps)| == |t.messages|;
    assert J.Read(EMPTY) == [];
  }

  /** Save, load in a new process, save again: the conversation comes back with nothing but
      reminders added, and the second save writes no row. */
  lemma SaveLoadSave(s: Store, history: seq<Message>, sid: SessionId, now: Stamp, hours: int -> string,
                     other: SessionId, later: Stamp)
    requires Agree(s) && NameIsFree(s, sid)
    requires Conversation(history) && Paired(history) && AllGood(history)
    ensures var saved := SavedStore(s, history, sid, now);
            && saved.current.Some? && (history != [] ==> saved.current.value in saved.files)
            && (saved.current.value in saved.files ==>
                  var (t, r) := LoadedStore(Store(None, [], [], saved.files), saved.current.value, hours);
                  && r.Loaded? && t == saved && t.messages == history
                  && Visible(r.history) == history
                  && SavedStore(t, r.history, other, later) == t)
  {
    ConversationLasts(history);
    SaveAgrees(s, history, sid, now);
    var saved := SavedStore(s, history, sid, now);
    if history != [] {
      SavedFileExists(s, history, sid, now);
    }
    if saved.current.value in saved.files {
      AgreeingLoads(saved, saved.current.value, hours);
      ResaveExactly(Store(None, [], [], saved.files), saved.current.value, hours, other, later);
      SelectShortens(history, Lasting);
    }
  }

  // ----- what comes back -----

  /** A message that a load finds is in the history exactly if it is one of those that are shown. */
  lemma LoadShows(s: Store, sid: SessionId, hours: int -> string, m: Message)
    requires LoadedStore(s, sid, hours).1.Loaded?
    ensures var (t, r) := LoadedStore(s, sid, hours);
            && (m in t.messages ==> (m in r.history <==> Shown(m)))
            && (m in r.history ==> m in t.messages || IsGap(m))
  {
    var ds := RepairDated(Sanitize(J.Read(s.files[sid]))).value;
    RemindersHold(ds, hours, m);
    SelectHolds(WithReminders(ds, hours), Shown, m);
  }

  lemma SummaryLasts(text: string)
    ensures Lasting(Summarizer.SummaryMessage(text)) && Canonical(Summarizer.SummaryMessage(text))
  {
    var all := Summarizer.SUMMARY_PREFIX + text;
    assert SUMMARY_MARKER <= Summarizer.SUMMARY_PREFIX <= all;
    assert OccursAt(SUMMARY_MARKER, all, 0);
    assert all[1] == '结' && GAP_MARKER[1] == '时';
  }

  /** Every summary that a load finds is in the loaded history. */
  lemma SummaryIsLoaded(s: Store, sid: SessionId, hours: int -> string, text: string)
    requires LoadedStore(s, sid, hours).1.Loaded?
    requires Summarizer.SummaryMessage(text) in LoadedStore(s, sid, hours).0.messages
    ensures Summarizer.SummaryMessage(text) in LoadedStore(s, sid, hours).1.history
  {
    SummaryLasts(text);
    LoadShows(s, sid, hours, Summarizer.SummaryMessage(text));
  }

  /** What is not written makes no call and answers none. */
  lemma {:induction false} VisiblePairs(h: seq<Message>)
    requires CanonicalAll(h)
    ensures Open(Visible(h)) == Open(h) && (OrphanFree(Visible(h)) <==> OrphanFree(h))
    ensures CanonicalAll(Visible(h)) && (AllGood(h) ==> AllGood(Visible(h)))
  {
    if h != [] {
      var front, last := h[..|h| - 1], h[|h| - 1];
      assert h == front + [last] && last in h;
      VisiblePairs(front);
      OpenSnoc({}, front, last);
      if Saved(last) {
        OpenSnoc({}, Visible(front), last);
      } else {
        assert CallIdsOf(last) == {} && ResultIdsOf(last) == {};
      }
    }
  }

  lemma LastingIsSaved(h: seq<Message>)
    ensures Select(Visible(h), Lasting) == Select(h, Lasting)
  {
    SelectTwice(h, Saved, Lasting, Lasting);
  }

  /** Any paired history that is saved and loaded in a new process comes back as the messages that are
      both written and shown, in order, with nothing but reminders added. */
  lemma SavedComesBack(s: Store, h: seq<Message>, sid: SessionId, now: Stamp, hours: int -> string)
    requires Agree(s) && NameIsFree(s, sid) && Visible(h) != []
    requires CanonicalAll(h) && Paired(h) && AllGood(h)
    ensures var saved := SavedStore(s, h, sid, now);
            && saved.current.Some? && saved.current.value in saved.files
            && var (t, r) := LoadedStore(Store(None, [], [], saved.files), saved.current.value, hours);
               && r.Loaded? && t == saved && t.messages == Visible(h)
               && Visible(r.history) == Select(h, Lasting)
  {
    VisiblePairs(h);
    SaveAgrees(s, h, sid, now);
    SavedFileExists(s, h, sid, now);
    var saved := SavedStore(s, h, sid, now);
    AgreeingLoads(saved, saved.current.value, hours);
    ResaveExactly(Store(None, [], [], saved.files), saved.current.value, hours, sid, now);
    LastingIsSaved(h);
  }

  lemma BoundaryIsCanonical()
    ensures Canonical(Summarizer.BoundaryMessage()) && !Lasting(Summarizer.BoundaryMessage())
  {
    BoundaryIsHidden();
  }

  /** The messages a compression leaves, behind the pair it puts in front. */
  lemma PairFacts(text: string, rest: seq<Message>)
    requires CanonicalAll(rest) && AllGood(rest) && Paired(rest)
    ensures var h := [Summarizer.SummaryMessage(text), Summarizer.BoundaryMessage()] + rest;
            CanonicalAll(h) && AllGood(h) && Paired(h) && Visible(h) != []
  {
    var one, two := Summarizer.SummaryMessage(text), Summarizer.BoundaryMessage();
    Summarizer.PairOpens(text, rest);
    PairIsCanonical(text);
    AppendCanonical([one, two], rest);
    assert Saved(one) && one in [one, two] + rest by { SummaryLasts(text); }
    SelectHolds([one, two] + rest, Saved, one);
  }

  lemma PairIsCanonical(text: string)
    ensures CanonicalAll([Summarizer.SummaryMessage(text), Summarizer.BoundaryMessage()])
    ensures AllGood([Summarizer.SummaryMessage(text), Summarizer.BoundaryMessage()])
  {
    SummaryLasts(text);
    BoundaryIsCanonical();
  }

  lemma AppendCanonical(left: seq<Message>, right: seq<Message>)
    requires CanonicalAll(left) && CanonicalAll(right) && AllGood(left) && AllGood(right)
    ensures CanonicalAll(left + right) && AllGood(left + right)
  {
  }

  /** Of the pair only the summary lasts. */
  lemma PairLasts(text: string, rest: seq<Message>)
    ensures Select([Summarizer.SummaryMessage(text), Summarizer.BoundaryMessage()] + rest, Lasting)
            == [Summarizer.SummaryMessage(text)] + Select(rest, Lasting)
  {
    SummaryLasts(text);
    BoundaryIsCanonical();
    FirstOfTwo(Summarizer.SummaryMessage(text), Summarizer.BoundaryMessage(), rest, Lasting);
  }

  lemma FirstOfTwo(one: Message, two: Message, rest: seq<Message>, keep: Message -> bool)
    requires keep(one) && !keep(two)
    ensures Select([one, two] + rest, keep) == [one] + Select(rest, keep)
  {
    SelectAppend([one, two], rest, keep);
    SelectAppend([one], [two], keep);
    SelectOne(one, keep);
    SelectOne(two, keep);
    assert [one] + [two] == [one, two];
  }

  /** A history that is compressed, saved and loaded comes back as the summary, followed by what the
      compression kept, as far as that is shown. */
  lemma SummarizedComesBack(s: Store, h: seq<Message>, reply: Summarizer.Reply, sid: SessionId, now: Stamp,
                            hours: int -> string)
    requires Agree(s) && NameIsFree(s, sid) && Summarizer.Attempt(h, reply).Compressed?
    requires CanonicalAll(h) && Paired(h) && AllGood(h)
    ensures var saved := SavedStore(s, Summarizer.Summarized(h, reply), sid, now);
            && saved.current.Some? && saved.current.value in saved.files
            && var (t, r) := LoadedStore(Store(None, [], [], saved.files), saved.current.value, hours);
               && r.Loaded?
               && Visible(r.history) == [Summarizer.SummaryMessage(reply.text)]
                                        + Select(h[Summarizer.Attempt(h, reply).count..], Lasting)
  {
    var split := Summarizer.Attempt(h, reply).count;
    Summarizer.AttemptIsSafe(h, reply);
    CutWhereClosed(h, split);
    PairFacts(reply.text, h[split..]);
    PairLasts(reply.text, h[split..]);
    SavedComesBack(s, Summarizer.Summarized(h, reply), sid, now, hours);
  }

  // ----- what is lost -----

  /** The message that marks a compression is not shown again after a load, so the next save
      rewrites the journal without it. */
  lemma BoundaryIsLost(s: Store, sid: SessionId, hours: int -> string, other: SessionId, now: Stamp)
    requires LoadedStore(s, sid, hours).1.Loaded?
    requires Summarizer.BoundaryMessage() in LoadedStore(s, sid, hours).0.messages
    ensures var (t, r) := LoadedStore(s, sid, hours);
            && !Shown(Summarizer.BoundaryMessage())
            && Summarizer.BoundaryMessage() !in Visible(r.history)
            && SavedStore(t, r.history, other, now) != t
  {
    BoundaryIsHidden();
    ResaveExactly(s, sid, hours, other, now);
    SelectedIsKept(LoadedStore(s, sid, hours).0.messages, Lasting);
  }

  lemma OneBracket(front: string, back: string)
    requires |front| > 0 && '[' !in front[1..] && '[' !in back
    ensures forall i :: 0 < i < |front + back| ==> (front + back)[i] != '['
  {
    forall i | 0 < i < |front + back| ensures (front + back)[i] != '[' {
      if i < |front| {
        assert front[1..][i - 1] == (front + back)[i];
      } else {
        assert back[i - |front|] == (front + back)[i];
      }
    }
  }

  lemma HintsHaveNoBracket()
    ensures '[' !in Summarizer.HINT_ONE && '[' !in Summarizer.HINT_THREE
  {
  }

  lemma LongHintHasNoBracket()
    ensures '[' !in Summarizer.HINT_TWO
  {
  }

  lemma BoundaryHasOneBracket()
    ensures forall i :: 0 < i < |Summarizer.BOUNDARY_TEXT| ==> Summarizer.BOUNDARY_TEXT[i] != '['
  {
    var prefix := Summarizer.BOUNDARY_PREFIX;
    assert '[' !in prefix[1..] by {
      assert prefix[1..] == "对话上下文已压缩]";
    }
    HintsHaveNoBracket();
    LongHintHasNoBracket();
    OneBracket(prefix, Summarizer.HINT_ONE + Summarizer.HINT_TWO + Summarizer.HINT_THREE);
  }

  lemma MarkerStartsHere(marker: string, text: string, i: int)
    requires OccursAt(marker, text, i) && |marker| > 1
    ensures text[i] == marker[0] && text[i + 1] == marker[1]
  {
    assert text[i..i + |marker|][0] == text[i] && text[i..i + |marker|][1] == text[i + 1];
  }

  lemma MarkerIsMissing(marker: string, text: string)
    requires |marker| > 1 && |text| > 1 && marker[0] == '[' && marker[1] != text[1]
    requires forall i :: 0 < i < |text| ==> text[i] != '['
    ensures !Occurs(marker, text)
  {
    forall i | 0 <= i <= |text| ensures !OccursAt(marker, text, i) {
      if OccursAt(marker, text, i) {
        MarkerStartsHere(marker, text, i);
      }
    }
  }

  lemma BoundaryStarts()
    ensures |Summarizer.BOUNDARY_TEXT| > 1 && Summarizer.BOUNDARY_TEXT[1] == '对'
  {
    assert Summarizer.BOUNDARY_PREFIX[1] == '对';
  }

  lemma BoundaryIsHidden()
    ensures !Shown(Summarizer.BoundaryMessage())
  {
    BoundaryHasOneBracket();
    BoundaryStarts();
    MarkerIsMissing(LEGACY_MARKER, Summarizer.BOUNDARY_TEXT);
    MarkerIsMissing(SUMMARY_MARKER, Summarizer.BOUNDARY_TEXT);
    MarkerIsMissing(GAP_MARKER, Summarizer.BOUNDARY_TEXT);
  }

  // ----- every run -----

  datatype Op =
    | New(sid: SessionId)
    | Append(ms: seq<Message>, sid: SessionId, now: Stamp, write: J.Write<Row>)
    | Save(history: seq<Message>, sid: SessionId, now: Stamp, write: J.Write<Row>)
    | Load(sid: SessionId)
    | Restart

  function Do(s: Store, op: Op, hours: int -> string): (t: Store)
    requires |s.messages| == |s.stamps|
    ensures |t.messages| == |t.stamps|
  {
    match op
    case New(sid) => Opened(s, sid)
    case Append(ms, sid, now, write) => AppendTried(s, ms, sid, now, write)
    case Save(history, sid, now, write) => SaveTried(s, history, sid, now, write)
    case Load(sid) => LoadedStore(s, sid, hours).0
    case Restart => Store(None, [], [], s.files)
  }

  function RunOps(s: Store, ops: seq<Op>, hours: int -> string): (t: Store)
    requires |s.messages| == |s.stamps|
    ensures |t.messages| == |t.stamps|
  {
    if ops == [] then s else Do(RunOps(s, ops[..|ops| - 1], hours), ops[|ops| - 1], hours)
  }

  /** Everything was written, or nothing at all. */
  predicate AllOrNothing(write: J.Write<Row>) {
    write.Whole? || (write.whole == 0 && write.tail == J.Clean)
  }

  /** What has to be written is written whole or not at all, a save under a new name finds a
      journal that fits, and a load finds one without damage. */
  ghost predicate Careful(s: Store, op: Op, hours: int -> string)
    requires |s.messages| == |s.stamps|
  {
    match op
    case New(_) => true
    case Append(ms, _, _, write) => ms == [] || AllOrNothing(write)
    case Save(history, sid, now, write) =>
      if s.current.None? then SaveFits(s, history, sid, now, write)
      else s.messages < Visible(history) ==> AllOrNothing(write)
    case Load(sid) => LoadedStore(s, sid, hours).1.Loaded? ==> LoadsWhole(s.files[sid])
    case Restart => true
  }

  ghost predicate AllCareful(s: Store, ops: seq<Op>, hours: int -> string)
    requires |s.messages| == |s.stamps|
  {
    ops == [] ||
    (var front := ops[..|ops| - 1];
     AllCareful(s, front, hours) && Careful(RunOps(s, front, hours), ops[|ops| - 1], hours))
  }

  /** Journal and memory agree after every operation. */
  ghost predicate AlwaysAgree(s: Store, ops: seq<Op>, hours: int -> string)
    requires |s.messages| == |s.stamps|
  {
    Agree(RunOps(s, ops, hours)) && (ops == [] || AlwaysAgree(s, ops[..|ops| - 1], hours))
  }

  lemma AppendStep(s: Store, ms: seq<Message>, sid: SessionId, now: Stamp, write: J.Write<Row>)
    requires Agree(s)
    ensures Agree(AppendTried(s, ms, sid, now, write)) <==> ms == [] || AllOrNothing(write)
  {
    if ms != [] {
      if s.current.None? {
        OpenedAgrees(s, sid);
      }
      var t := if s.current.None? then Opened(s, sid) else s;
      AppendTriedExactly(t, ms, sid, now, write);
      FitsExactly(FileOf(t.files, t.current.value), RowsOf(t.messages, t.stamps), NewRows(ms, now), write);
    }
  }

  lemma SaveStep(s: Store, history: seq<Message>, sid: SessionId, now: Stamp, write: J.Write<Row>)
    requires Agree(s) && s.current.Some?
    ensures Agree(SaveTried(s, history, sid, now, write)) <==> (s.messages < Visible(history) ==> AllOrNothing(write))
  {
    SaveTriedExactly(s, history, sid, now, write);
    var ms := Visible(history);
    if s.messages < ms {
      var have, more := RowsOf(s.messages, s.stamps), NewRows(ms[|s.messages|..], now);
      FitsExactly(FileOf(s.files, s.current.value), have, more, write);
    }
  }

  lemma StepAgreesExactly(s: Store, op: Op, hours: int -> string)
    requires Agree(s)
    ensures Agree(Do(s, op, hours)) <==> Careful(s, op, hours)
  {
    match op
    case New(sid) => OpenedAgrees(s, sid);
    case Append(ms, sid, now, write) => AppendStep(s, ms, sid, now, write);
    case Save(history, sid, now, write) =>
      if s.current.None? {
        SaveTriedExactly(s, history, sid, now, write);
      } else {
        SaveStep(s, history, sid, now, write);
      }
    case Load(sid) =>
      if LoadedStore(s, sid, hours).1.Loaded? {
        LoadAgreesExactly(s, sid, hours);
      }
    case Restart =>
  }

  /** Through a sequence of operations, of which any may fail half-way and any restart may come
      between, the journal equals what is held in memory exactly if every operation was careful;
      after a save that did not fail both equal the saved history. */
  lemma {:induction false} RunAgrees(s: Store, ops: seq<Op>, hours: int -> string)
    requires Agree(s)
    ensures AlwaysAgree(s, ops, hours) <==> AllCareful(s, ops, hours)
    ensures ops != [] && ops[|ops| - 1].Save? && ops[|ops| - 1].write.Whole? ==>
              RunOps(s, ops, hours).messages == Visible(ops[|ops| - 1].history)
  {
    if ops != [] {
      var before, op := RunOps(s, ops[..|ops| - 1], hours), ops[|ops| - 1];
      RunAgrees(s, ops[..|ops| - 1], hours);
      if op.Save? && op.write.Whole? {
        SavedMessages(before, op.history, op.sid, op.now);
      }
      if AlwaysAgree(s, ops[..|ops| - 1], hours) {
        StepAgreesExactly(before, op, hours);
      }
    }
  }

  // ----- the program -----

  class SessionStore {
    var currentId: Option<SessionId>
    var persistedMessages: seq<Message>
    var persistedTimestamps: seq<Stamp>
    /** The journal files of the sessions directory. */
    var journals: map<SessionId, Journal>

    ghost predicate Valid()
      reads this
    {
      |persistedMessages| == |persistedTimestamps|
    }

    ghost function State(): Store
      reads this
    {
      Store(currentId, persistedMessages, persistedTimestamps, journals)
    }

    constructor (files: map<SessionId, Journal>)
      ensures Valid() && State() == Store(None, [], [], files)
    {
      currentId, persistedMessages, persistedTimestamps, journals := None, [], [], files;
    }

    method NewSession(sid: SessionId)
      requires Valid()
      modifies this
      ensures Valid() && State() == Opened(old(State()), sid)
    {
      currentId := Some(sid);
      persistedMessages := [];
      persistedTimestamps := [];
      journals := journals[sid := EMPTY];
    }

    /** `uuid` is the id a new session would get, `write` what comes of the append; an exception is
        reported by `ok`. */
    method AppendMessage(message: Message, uuid: SessionId, now: Stamp, write: J.Write<Row>) returns (ok: bool)
      requires Valid()
      modifies this
      ensures Valid() && State() == AppendTried(old(State()), [message], uuid, now, write) && ok == write.Whole?
    {
      if currentId.None? {
        NewSession(uuid);
      }
      var sid, row := currentId.value, Encode(Dated(message, now));
      assert SameStamp(1, now) == [now] && RowsOf([message], SameStamp(1, now)) == [row];
      if !write.Whole? {
        journals := journals[sid := J.Written(FileOf(journals, sid), [row], write)];
        return false;
      }
      journals := journals[sid := J.Append(FileOf(journals, sid), [row])];
      persistedMessages := persistedMessages + [message];
      persistedTimestamps := persistedTimestamps + [now];
      return true;
    }

    method AppendMessages(messages: seq<Message>, uuid: SessionId, now: Stamp, write: J.Write<Row>) returns (ok: bool)
      requires Valid()
      modifies this
      ensures Valid() && State() == AppendTried(old(State()), messages, uuid, now, write)
      ensures ok == (messages == [] || write.Whole?)
    {
      if messages == [] {
        return true;
      }
      if currentId.None? {
        NewSession(uuid);
      }
      var sid, stamps := currentId.value, SameStamp(|messages|, now);
      if !write.Whole? {
        journals := journals[sid := J.Written(FileOf(journals, sid), RowsOf(messages, stamps), write)];
        return false;
      }
      journals := journals[sid := J.Append(FileOf(journals, sid), RowsOf(messages, stamps))];
      persistedMessages := persistedMessages + messages;
      persistedTimestamps := persistedTimestamps + stamps;
      return true;
    }

    method VisibleMessages(history: seq<Message>) returns (ms: seq<Message>)
      ensures ms == Visible(history)
    {
      ms := [];
      for n := 0 to |history|
        invariant ms == Visible(history[..n])
      {
        assert history[..n + 1][..n] == history[..n];
        if Saved(history[n]) {
          ms := ms + [history[n]];
        }
      }
      assert history[..|history|] == history;
    }

    /** `named` is the session name the caller asks for. */
    method Save(history: seq<Message>, named: Option<SessionId>, uuid: SessionId, now: Stamp, write: J.Write<Row>)
      returns (ok: bool)
      requires Valid()
      modifies this
      ensures Valid()
      ensures State() == SaveTried(old(State()), history, if named.Some? then named.value else uuid, now, write)
      ensures ok <==> write.Whole? || old(persistedMessages) == Visible(history)
    {
      if currentId.None? {
        currentId := if named.Some? then named else Some(uuid);
      }
      var sid := currentId.value;
      var ms := VisibleMessages(history);
      if |ms| >= |persistedMessages| && ms[..|persistedMessages|] == persistedMessages {
        ok := AppendMessages(ms[|persistedMessages|..], uuid, now, write);
      } else {
        var stamps := TimestampsForRewrite(persistedMessages, persistedTimestamps, ms, now);
        if !write.Whole? {
          return false;
        }
        journals := journals[sid := J.Replace(RowsOf(ms, stamps))];
        persistedMessages := ms;
        persistedTimestamps := stamps;
        ok := true;
      }
    }

    method ShownMessages(ms: seq<Message>) returns (history: seq<Message>)
      ensures history == Select(ms, Shown)
    {
      history := [];
      for n := 0 to |ms|
        invariant history == Select(ms[..n], Shown)
      {
        assert ms[..n + 1][..n] == ms[..n];
        if Shown(ms[n]) {
          history := history + [ms[n]];
        }
      }
      assert ms[..|ms|] == ms;
    }

    /** `hours` renders the length of a pause. */
    method Load(sid: SessionId, hours: int -> string) returns (r: LoadResult)
      requires Valid()
      modifies this
      ensures Valid() && (State(), r) == LoadedStore(old(State()), sid, hours)
    {
      if sid !in journals {
        return Missing;
      }
      var rows := SanitizeLoadedMessages(J.Read(journals[sid]));
      var repaired := TruncateUnpaired(Messages(rows));
      if repaired.None? {
        return Raised;
      }
      var ds := DateAll(repaired.value, RepairedStamps(rows, |repaired.value|));
      var shown := InsertTimeGaps(ds, hours);
      var history := ShownMessages(shown);
      currentId, persistedMessages, persistedTimestamps := Some(sid), Messages(ds), Stamps(ds);
      return Loaded(history);
    }
  }
}
