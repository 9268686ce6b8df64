/** Reminders of long pauses, shown when a session is loaded and never written back, and the
    messages a loaded session shows at all. */
module TimeGaps {
  import opened Wrappers
  import opened Filters
  import opened Protocol
  import opened SessionRows

  const GAP_MARKER := "[时间跨度提醒]"
  const LEGACY_MARKER := "[Prior conversation summary]"
  const SUMMARY_MARKER := "[结构化摘要]"

  /** Thirty minutes in microseconds. */
  const TIME_GAP := 30 * 60 * 1000000

  /** `hours` renders a duration; it is fixed by the caller. */
  function Reminder(hours: string): Message {
    Plain(System, Text(GAP_MARKER + " 距上次活跃约 " + hours + " 小时，以下是新消息。"))
  }

  predicate IsGap(m: Message) {
    m.role == System && m.content.Text? && GAP_MARKER <= m.content.text
  }

  function Messages(ds: seq<Dated>): (ms: seq<Message>)
    ensures |ms| == |ds| && forall i :: 0 <= i < |ds| ==> ms[i] == ds[i].message
  {
    seq(|ds|, i requires 0 <= i < |ds| => ds[i].message)
  }

  function Stamps(ds: seq<Dated>): (ts: seq<Stamp>)
    ensures |ts| == |ds| && forall i :: 0 <= i < |ds| ==> ts[i] == ds[i].stamp
  {
    seq(|ds|, i requires 0 <= i < |ds| => ds[i].stamp)
  }

  // ----- reminders -----

  /** The last readable time. */
  function LastTime(ds: seq<Dated>): Option<int> {
    if ds == [] then None
    else if ds[|ds| - 1].stamp.time.Some? then ds[|ds| - 1].stamp.time
    else LastTime(ds[..|ds| - 1])
  }

  predicate AfterPause(last: Option<int>, d: Dated) {
    last.Some? && d.stamp.time.Some? && d.stamp.time.value - last.value > TIME_GAP
  }

  /** More than thirty minutes, in microseconds, after the last readable time. */
  lemma AfterPauseExactly(last: Option<int>, d: Dated)
    ensures AfterPause(last, d) <==>
            last.Some? && d.stamp.time.Some? && d.stamp.time.value > last.value + 1_800_000_000
  {
  }

  function ReminderFor(last: Option<int>, d: Dated, hours: int -> string): seq<Message> {
    if AfterPause(last, d) then [Reminder(hours(d.stamp.time.value - last.value))] else []
  }

  function WithReminders(ds: seq<Dated>, hours: int -> string): seq<Message> {
    if ds == [] then []
    else
      var front, d := ds[..|ds| - 1], ds[|ds| - 1];
      WithReminders(front, hours) + (ReminderFor(LastTime(front), d, hours) + [d.message])
  }

  lemma RemindersSnoc(ds: seq<Dated>, hours: int -> string, n: nat)
    requires n < |ds|
    ensures WithReminders(ds[..n + 1], hours) ==
            WithReminders(ds[..n], hours) + (ReminderFor(LastTime(ds[..n]), ds[n], hours) + [ds[n].message])
    ensures LastTime(ds[..n + 1]) == if ds[n].stamp.time.Some? then ds[n].stamp.time else LastTime(ds[..n])
  {
    assert ds[..n + 1][..n] == ds[..n];
  }

  lemma Extended(shown: seq<Message>, reminder: seq<Message>, m: Message)
    ensures shown + (reminder + [m]) == (shown + reminder) + [m]
    ensures reminder == [] ==> shown + reminder == shown
  {
  }

  method InsertTimeGaps(ds: seq<Dated>, hours: int -> string) returns (r: seq<Message>)
    ensures r == WithReminders(ds, hours)
  {
    r := [];
    var last: Option<int> := None;
    for n := 0 to |ds|
      invariant r == WithReminders(ds[..n], hours) && last == LastTime(ds[..n])
    {
      RemindersSnoc(ds, hours, n);
      var d := ds[n];
      ghost var shown := r;
      if d.stamp.time.None? {
        Extended(shown, [], d.message);
        r := r + [d.message];
        continue;
      }
      ghost var reminder := ReminderFor(last, d, hours);
      if last.Some? && d.stamp.time.value - last.value > TIME_GAP {
        r := r + [Reminder(hours(d.stamp.time.value - last.value))];
      }
      assert r == shown + reminder;
      Extended(shown, reminder, d.message);
      r := r + [d.message];
      last := d.stamp.time;
    }
    assert ds[..|ds|] == ds;
  }

  lemma ReminderForIsGap(last: Option<int>, d: Dated, hours: int -> string, keep: Message -> bool)
    requires forall m :: IsGap(m) ==> !keep(m)
    ensures Select(ReminderFor(last, d, hours), keep) == []
  {
    if AfterPause(last, d) {
      var text := hours(d.stamp.time.value - last.value);
      ReminderIsGap(text);
      SelectOne(Reminder(text), keep);
    }
  }

  lemma {:induction false} VanishStep(shown: seq<Message>, reminder: seq<Message>, ms: seq<Message>, m: Message,
                                      keep: Message -> bool)
    requires Select(shown, keep) == Select(ms, keep) && Select(reminder, keep) == []
    ensures Select(shown + (reminder + [m]), keep) == Select(ms + [m], keep)
  {
    SelectAppend(shown, reminder + [m], keep);
    SelectAppend(reminder, [m], keep);
    SelectAppend(ms, [m], keep);
  }

  /** Reminders come and go without a trace: a selection that ignores them sees the session. */
  lemma {:induction false} RemindersVanish(ds: seq<Dated>, hours: int -> string, keep: Message -> bool)
    requires forall m :: IsGap(m) ==> !keep(m)
    ensures Select(WithReminders(ds, hours), keep) == Select(Messages(ds), keep)
  {
    if ds != [] {
      var front, d := ds[..|ds| - 1], ds[|ds| - 1];
      RemindersVanish(front, hours, keep);
      var reminder := ReminderFor(LastTime(front), d, hours);
      ReminderForIsGap(LastTime(front), d, hours, keep);
      VanishStep(WithReminders(front, hours), reminder, Messages(front), d.message, keep);
      assert Messages(ds) == Messages(front) + [d.message];
    }
  }

  lemma ReminderIsGap(hours: string)
    ensures IsGap(Reminder(hours))
  {
    var rest := " 距上次活跃约 " + hours + " 小时，以下是新消息。";
    assert Reminder(hours).content.text == GAP_MARKER + rest;
  }

  /** A reminder names the length of the pause. */
  lemma ReminderNames(hours: string)
    ensures Reminder(hours).role == System && Reminder(hours).content.Text?
    ensures Contains(Reminder(hours).content.text, hours)
  {
    var head, rest := GAP_MARKER + " 距上次活跃约 ", " 小时，以下是新消息。";
    assert Reminder(hours).content.text == head + hours + rest;
  }

  /** `r` continues `before` with a reminder, if there is a pause, and then the message. */
  ghost predicate Continues(before: seq<Message>, r: seq<Message>, pause: bool, m: Message) {
    var n := |before|;
    && before <= r
    && if pause then n + 1 < |r| && IsGap(r[n]) && r[n + 1] == m else n < |r| && r[n] == m
  }

  lemma ContinuesLonger(before: seq<Message>, r: seq<Message>, longer: seq<Message>, pause: bool, m: Message)
    requires Continues(before, r, pause, m) && r <= longer
    ensures Continues(before, longer, pause, m)
  {
  }

  lemma {:induction false} RemindersGrow(ds: seq<Dated>, hours: int -> string, i: nat, n: nat)
    requires i <= n <= |ds|
    ensures WithReminders(ds[..i], hours) <= WithReminders(ds[..n], hours)
    decreases n
  {
    if i < n {
      RemindersGrow(ds, hours, i, n - 1);
      RemindersSnoc(ds, hours, n - 1);
    }
  }

  lemma ContinuesNow(before: seq<Message>, last: Option<int>, d: Dated, hours: int -> string)
    ensures Continues(before, before + (ReminderFor(last, d, hours) + [d.message]), AfterPause(last, d), d.message)
  {
    if AfterPause(last, d) {
      ReminderIsGap(hours(d.stamp.time.value - last.value));
    }
  }

  /** Message i comes directly behind a reminder exactly after a pause, and the messages before
      it do not depend on it. */
  lemma ReminderExactlyAfterPause(ds: seq<Dated>, hours: int -> string, i: nat, n: nat)
    requires i < n <= |ds|
    ensures Continues(WithReminders(ds[..i], hours), WithReminders(ds[..n], hours),
                      AfterPause(LastTime(ds[..i]), ds[i]), ds[i].message)
  {
    var before, last := WithReminders(ds[..i], hours), LastTime(ds[..i]);
    ContinuesNow(before, last, ds[i], hours);
    RemindersSnoc(ds, hours, i);
    RemindersGrow(ds, hours, i + 1, n);
    ContinuesLonger(before, WithReminders(ds[..i + 1], hours), WithReminders(ds[..n], hours),
                    AfterPause(last, ds[i]), ds[i].message);
  }

  // ----- the messages a loaded session shows -----

  predicate OccursAt(marker: string, text: string, i: int) {
    0 <= i <= |text| - |marker| && text[i..i + |marker|] == marker
  }

  predicate Occurs(marker: string, text: string) {
    exists i :: 0 <= i <= |text| && OccursAt(marker, text, i)
  }

  /** Whether `load` puts the message into the history. */
  predicate Shown(m: Message) {
    match m.role
    case System =>
      && m.content.Text?
      && var text := m.content.text;
         Occurs(LEGACY_MARKER, text) || Occurs(SUMMARY_MARKER, text) || Occurs(GAP_MARKER, text)
    case User => m.content != Text("")
    case Assistant => !Hollow(m)
    case Tool => true
  }

  /** Whether `save` writes the message. */
  predicate Saved(m: Message) {
    !IsGap(m) && !Hollow(m)
  }

  ghost predicate Contains(text: string, part: string) {
    exists left, right :: text == left + part + right
  }

  lemma OccursIsContains(marker: string, text: string)
    ensures Occurs(marker, text) <==> Contains(text, marker)
  {
    if Occurs(marker, text) {
      var i :| 0 <= i <= |text| && OccursAt(marker, text, i);
      assert text == text[..i] + marker + text[i + |marker|..];
    }
    if Contains(text, marker) {
      var left, right :| text == left + marker + right;
      assert OccursAt(marker, text, |left|);
    }
  }

  /** Of the system messages those are shown that contain one of the three markers, of the others all
      but empty user texts and hollow assistant messages. */
  lemma ShownExactly(m: Message)
    ensures Shown(m) <==>
            match m.role
            case System =>
              && m.content.Text?
              && (|| Contains(m.content.text, "[Prior conversation summary]")
                  || Contains(m.content.text, "[结构化摘要]") || Contains(m.content.text, "[时间跨度提醒]"))
            case User => m.content != Text("")
            case Assistant =>
              m.calls != [] || (m.content != NoContent && m.content != Text("") && m.content != Blocks([]))
            case Tool => true
  {
    if m.role == System && m.content.Text? {
      OccursIsContains(LEGACY_MARKER, m.content.text);
      OccursIsContains(SUMMARY_MARKER, m.content.text);
      OccursIsContains(GAP_MARKER, m.content.text);
    }
  }

  /** All messages are written but reminders and hollow assistant messages. */
  lemma SavedExactly(m: Message)
    ensures !Saved(m) <==>
            || (m.role == System && m.content.Text? && "[时间跨度提醒]" <= m.content.text)
            || (m.role == Assistant && m.calls == []
                && (m.content == NoContent || m.content == Text("") || m.content == Blocks([])))
  {
  }

  /** Reminders come on top of the session: nothing else is added, and nothing is lost. */
  lemma {:induction false} RemindersHold(ds: seq<Dated>, hours: int -> string, m: Message)
    ensures m in Messages(ds) ==> m in WithReminders(ds, hours)
    ensures m in WithReminders(ds, hours) ==> m in Messages(ds) || IsGap(m)
  {
    if ds != [] {
      var front, d := ds[..|ds| - 1], ds[|ds| - 1];
      RemindersHold(front, hours, m);
      assert Messages(ds) == Messages(front) + [d.message];
      if AfterPause(LastTime(front), d) {
        ReminderIsGap(hours(d.stamp.time.value - LastTime(front).value));
      }
    }
  }
}
