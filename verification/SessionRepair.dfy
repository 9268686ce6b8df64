/** Recovery of a loaded session: orphan results are removed, and the calls of an interrupted
    batch are either answered by synthetic results or cut off. */
module SessionRepair {
  import opened Wrappers
  import opened CallIds
  import opened Filters
  import opened Protocol

  const RECOVERY_TEXT := "[会话恢复] 上次运行在该工具返回结果前中断；该操作状态未知，请先检查再决定是否重试。"

  datatype Style = OpenAI | Anthropic

  /** An entry of the insertion-ordered table of open calls. */
  datatype Entry = Entry(id: CallId, index: nat, style: Style, name: string)

  // ----- the table of open calls -----

  function Ids(opens: seq<Entry>): set<CallId> {
    set e | e in opens :: e.id
  }

  ghost predicate DistinctIds(opens: seq<Entry>) {
    forall i, j :: 0 <= i < j < |opens| ==> opens[i].id != opens[j].id
  }

  /** A dictionary assignment: an existing key keeps its place. */
  function Put(opens: seq<Entry>, e: Entry): seq<Entry> {
    if e.id in Ids(opens) then
      seq(|opens|, i requires 0 <= i < |opens| => if opens[i].id == e.id then e else opens[i])
    else opens + [e]
  }

  function Del(opens: seq<Entry>, id: CallId): seq<Entry> {
    if opens == [] then []
    else
      var front, last := Del(opens[..|opens| - 1], id), opens[|opens| - 1];
      if last.id == id then front else front + [last]
  }

  lemma PutEntries(opens: seq<Entry>, e: Entry)
    requires DistinctIds(opens)
    ensures DistinctIds(Put(opens, e))
    ensures forall x :: x in Put(opens, e) <==> x == e || (x in opens && x.id != e.id)
  {
    var after := Put(opens, e);
    if e.id in Ids(opens) {
      var k :| 0 <= k < |opens| && opens[k].id == e.id;
      assert after[k] == e;
      forall x | x in opens && x.id != e.id ensures x in after {
        var i :| 0 <= i < |opens| && opens[i] == x;
        assert after[i] == x;
      }
    }
  }

  lemma {:induction false} DelEntries(opens: seq<Entry>, id: CallId)
    requires DistinctIds(opens)
    ensures DistinctIds(Del(opens, id))
    ensures forall x :: x in Del(opens, id) <==> x in opens && x.id != id
  {
    if opens != [] {
      var front, last := opens[..|opens| - 1], opens[|opens| - 1];
      DelEntries(front, id);
      assert opens == front + [last];
    }
  }

  /** A key that is assigned again keeps its place, a new one comes last. */
  lemma PutKeepsPlaces(opens: seq<Entry>, e: Entry)
    ensures if e.id in Ids(opens) then
              && |Put(opens, e)| == |opens|
              && forall i :: 0 <= i < |opens| ==> Put(opens, e)[i] == if opens[i].id == e.id then e else opens[i]
            else Put(opens, e) == opens + [e]
  {
  }

  /** Deleting keeps the order of the others. */
  lemma {:induction false} DelKeepsOrder(opens: seq<Entry>, id: CallId, keep: Entry -> bool)
    requires forall e :: keep(e) <==> e.id != id
    ensures Del(opens, id) == Select(opens, keep)
  {
    if opens != [] {
      DelKeepsOrder(opens[..|opens| - 1], id, keep);
    }
  }

  function PutUses(opens: seq<Entry>, blocks: seq<Block>, index: nat): seq<Entry> {
    if blocks == [] then opens
    else
      var front, last := PutUses(opens, blocks[..|blocks| - 1], index), blocks[|blocks| - 1];
      if last.ToolUse? && last.id != NO_CALL then Put(front, Entry(last.id, index, Anthropic, last.name)) else front
  }

  function PutCalls(opens: seq<Entry>, calls: seq<Call>, index: nat): seq<Entry> {
    if calls == [] then opens
    else
      var front, last := PutCalls(opens, calls[..|calls| - 1], index), calls[|calls| - 1];
      if last.id != NO_CALL then Put(front, Entry(last.id, index, OpenAI, last.name)) else front
  }

  /** What an assistant message at `index` adds to the table. */
  function PutAll(opens: seq<Entry>, m: Message, index: nat): seq<Entry> {
    PutCalls(if m.content.Blocks? then PutUses(opens, m.content.blocks, index) else opens, m.calls, index)
  }

  /** The entries after recording `ids` at `index`: the new ones point there, others are kept. */
  ghost predicate Extends(before: seq<Entry>, after: seq<Entry>, ids: set<CallId>, index: nat) {
    && DistinctIds(after)
    && Ids(after) == Ids(before) + ids
    && forall e :: e in after ==> if e.id in ids then e.index == index else e in before
  }

  lemma PutExtends(before: seq<Entry>, mid: seq<Entry>, ids: set<CallId>, e: Entry, index: nat)
    requires Extends(before, mid, ids, index) && e.index == index
    ensures Extends(before, Put(mid, e), ids + {e.id}, index)
  {
    PutEntries(mid, e);
    var after := Put(mid, e);
    forall id ensures id in Ids(after) <==> id in Ids(before) + (ids + {e.id}) {
      if id in Ids(mid) && id != e.id {
        var x :| x in mid && x.id == id;
        assert x in after;
      }
      assert e in after;
    }
  }

  lemma {:induction false} PutUsesExtends(opens: seq<Entry>, blocks: seq<Block>, index: nat)
    requires DistinctIds(opens)
    ensures Extends(opens, PutUses(opens, blocks, index), UseIds(blocks), index)
  {
    if blocks != [] {
      var front, last := blocks[..|blocks| - 1], blocks[|blocks| - 1];
      PutUsesExtends(opens, front, index);
      if last.ToolUse? && last.id != NO_CALL {
        var e := Entry(last.id, index, Anthropic, last.name);
        PutExtends(opens, PutUses(opens, front, index), UseIds(front), e, index);
      }
    }
  }

  lemma {:induction false} PutCallsExtends(opens: seq<Entry>, mid: seq<Entry>, ids: set<CallId>, calls: seq<Call>,
                                           index: nat)
    requires Extends(opens, mid, ids, index)
    ensures Extends(opens, PutCalls(mid, calls, index), ids + IdsOfCalls(calls), index)
  {
    if calls != [] {
      var front, last := calls[..|calls| - 1], calls[|calls| - 1];
      PutCallsExtends(opens, mid, ids, front, index);
      if last.id != NO_CALL {
        var e := Entry(last.id, index, OpenAI, last.name);
        PutExtends(opens, PutCalls(mid, front, index), ids + IdsOfCalls(front), e, index);
        assert ids + IdsOfCalls(front) + {last.id} == ids + IdsOfCalls(calls);
      }
    } else {
      assert ids + {} == ids;
    }
  }

  lemma PutAllExtends(opens: seq<Entry>, m: Message, index: nat)
    requires DistinctIds(opens) && m.role == Assistant
    ensures Extends(opens, PutAll(opens, m, index), CallIdsOf(m), index)
  {
    if m.content.Blocks? {
      PutUsesExtends(opens, m.content.blocks, index);
      PutCallsExtends(opens, PutUses(opens, m.content.blocks, index), UseIds(m.content.blocks), m.calls, index);
      assert UseIds(m.content.blocks) + IdsOfCalls(m.calls) == CallIdsOf(m);
    } else {
      assert Extends(opens, opens, {}, index);
      PutCallsExtends(opens, opens, {}, m.calls, index);
      assert {} + IdsOfCalls(m.calls) == CallIdsOf(m);
    }
  }

  // ----- the scan -----

  /** The ids of all result blocks, in order, empty ids included. */
  function ResultList(blocks: seq<Block>): seq<CallId> {
    if blocks == [] then []
    else
      var front, last := ResultList(blocks[..|blocks| - 1]), blocks[|blocks| - 1];
      if last.ToolResult? then front + [last.id] else front
  }

  /** Deleting the ids one by one; a repeated id raises `KeyError`. */
  function DelList(opens: seq<Entry>, ids: seq<CallId>): Option<seq<Entry>> {
    if ids == [] then Some(opens)
    else
      var front, last := DelList(opens, ids[..|ids| - 1]), ids[|ids| - 1];
      if front == None || last !in Ids(front.value) then None else Some(Del(front.value, last))
  }

  datatype State = State(cleaned: seq<Message>, opens: seq<Entry>) | KeyError

  function Scan1(s: State, m: Message): State {
    if s.KeyError? then KeyError
    else
      match m.role
      case Assistant => State(s.cleaned + [m], PutAll(s.opens, m, |s.cleaned|))
      case Tool =>
        if m.callId !in Ids(s.opens) then s else State(s.cleaned + [m], Del(s.opens, m.callId))
      case User =>
        if !m.content.Blocks? then State(s.cleaned + [m], s.opens)
        else
          var ids := ResultList(m.content.blocks);
          if exists id :: id in ids && id !in Ids(s.opens) then s
          else
            var opens := DelList(s.opens, ids);
            if opens == None then KeyError else State(s.cleaned + [m], opens.value)
      case System => State(s.cleaned + [m], s.opens)
  }

  function Scan(h: seq<Message>): State {
    if h == [] then State([], []) else Scan1(Scan(h[..|h| - 1]), h[|h| - 1])
  }

  /** The table describes the open calls of the kept messages, each at its last opening. */
  ghost predicate Tracks(opens: seq<Entry>, cleaned: seq<Message>) {
    && DistinctIds(opens)
    && Ids(opens) == Open(cleaned)
    && forall e :: e in opens ==> IsLastOpening(e, cleaned)
  }

  ghost predicate IsLastOpening(e: Entry, cleaned: seq<Message>) {
    && e.id != NO_CALL
    && e.index < |cleaned| && cleaned[e.index].role == Assistant && e.id in CallIdsOf(cleaned[e.index])
    && forall j :: e.index < j < |cleaned| ==> e.id !in CallIdsOf(cleaned[j])
  }

  /** A kept message has no repeated or empty result id. */
  predicate GoodResults(m: Message) {
    && (m.role == Tool ==> m.callId != NO_CALL)
    && (m.role == User && m.content.Blocks? ==>
          var ids := ResultList(m.content.blocks);
          NO_CALL !in ids && forall i, j :: 0 <= i < j < |ids| ==> ids[i] != ids[j])
  }

  lemma {:induction false} IdsNonEmpty(calls: seq<Call>)
    ensures NO_CALL !in IdsOfCalls(calls)
  {
    if calls != [] { IdsNonEmpty(calls[..|calls| - 1]); }
  }

  lemma {:induction false} UsesNonEmpty(blocks: seq<Block>)
    ensures NO_CALL !in UseIds(blocks)
  {
    if blocks != [] { UsesNonEmpty(blocks[..|blocks| - 1]); }
  }

  lemma {:induction false} ResultListIds(blocks: seq<Block>)
    ensures ResultBlockIds(blocks) == (set id | id in ResultList(blocks)) - {NO_CALL}
  {
    if blocks != [] {
      var front, last := blocks[..|blocks| - 1], blocks[|blocks| - 1];
      ResultListIds(front);
      if last.ToolResult? {
        assert forall id :: id in ResultList(blocks) <==> id in ResultList(front) || id == last.id;
      }
    }
  }

  predicate AllIn(ids: seq<CallId>, opens: seq<Entry>) {
    forall id :: id in ids ==> id in Ids(opens)
  }

  predicate NoneTwice(ids: seq<CallId>) {
    forall i, j :: 0 <= i < j < |ids| ==> ids[i] != ids[j]
  }

  lemma NoneTwiceSnoc(front: seq<CallId>, last: CallId)
    ensures NoneTwice(front + [last]) <==> NoneTwice(front) && last !in front
  {
    var ids := front + [last];
    assert forall i :: 0 <= i < |front| ==> ids[i] == front[i];
    assert ids[|front|] == last;
    if NoneTwice(ids) {
      forall i | 0 <= i < |front| ensures front[i] != last {
        assert ids[i] != ids[|front|];
      }
    }
  }

  /** What is left after the ids are gone. */
  ghost predicate Remains(opens: seq<Entry>, ids: seq<CallId>, rest: seq<Entry>) {
    DistinctIds(rest) && forall x :: x in rest <==> x in opens && x.id !in ids
  }

  lemma {:induction false} DelNext(opens: seq<Entry>, front: seq<CallId>, mid: seq<Entry>, last: CallId)
    requires Remains(opens, front, mid)
    ensures last in Ids(mid) <==> last in Ids(opens) && last !in front
    ensures Remains(opens, front + [last], Del(mid, last))
  {
    DelEntries(mid, last);
    if last in Ids(opens) && last !in front {
      var x :| x in opens && x.id == last;
      assert x in mid;
    }
  }

  /** Sequential deletion succeeds exactly for distinct open ids, and removes just them. */
  lemma {:induction false} DelListEntries(opens: seq<Entry>, ids: seq<CallId>)
    requires DistinctIds(opens)
    ensures DelList(opens, ids).Some? <==> AllIn(ids, opens) && NoneTwice(ids)
    ensures DelList(opens, ids).Some? ==> Remains(opens, ids, DelList(opens, ids).value)
  {
    if ids != [] {
      var front, last := ids[..|ids| - 1], ids[|ids| - 1];
      assert ids == front + [last];
      DelListEntries(opens, front);
      NoneTwiceSnoc(front, last);
      if DelList(opens, front).Some? {
        DelNext(opens, front, DelList(opens, front).value, last);
      }
    }
  }

  /** One kept message and its effect on the table. */
  lemma TracksSnoc(opens: seq<Entry>, cleaned: seq<Message>, after: seq<Entry>, m: Message)
    requires Tracks(opens, cleaned) && DistinctIds(after)
    requires Ids(after) == Ids(opens) + CallIdsOf(m) - ResultIdsOf(m)
    requires forall e :: e in after ==>
               if e.id in CallIdsOf(m) then m.role == Assistant && e.index == |cleaned| else e in opens
    ensures Tracks(after, cleaned + [m])
  {
    var more := cleaned + [m];
    OpenSnoc({}, cleaned, m);
    forall e | e in after ensures IsLastOpening(e, more) {
      if e.id in CallIdsOf(m) {
        assert more[e.index] == m;
        if m.content.Blocks? { UsesNonEmpty(m.content.blocks); }
        IdsNonEmpty(m.calls);
      } else {
        assert IsLastOpening(e, cleaned);
        assert more[e.index] == cleaned[e.index];
      }
    }
  }

  ghost predicate Kept(s: State) {
    s.State? ==>
      && Tracks(s.opens, s.cleaned) && OrphanFree(s.cleaned)
      && forall x :: x in s.cleaned ==> GoodResults(x)
  }

  /** A kept message closes only open calls. */
  lemma ResultsKeep(opens: seq<Entry>, cleaned: seq<Message>, after: seq<Entry>, m: Message)
    requires Kept(State(cleaned, opens)) && CallIdsOf(m) == {} && GoodResults(m)
    requires DistinctIds(after) && ResultIdsOf(m) <= Ids(opens)
    requires forall e :: e in after <==> e in opens && e.id !in ResultIdsOf(m)
    ensures Kept(State(cleaned + [m], after))
  {
    DelIds(opens, after, ResultIdsOf(m));
    OpenSnoc({}, cleaned, m);
    TracksSnoc(opens, cleaned, after, m);
  }

  lemma BlockResultsKeep(opens: seq<Entry>, cleaned: seq<Message>, m: Message)
    requires Kept(State(cleaned, opens)) && m.role == User && m.content.Blocks?
    ensures Kept(Scan1(State(cleaned, opens), m))
  {
    var ids := ResultList(m.content.blocks);
    DelListEntries(opens, ids);
    ResultListIds(m.content.blocks);
    if DelList(opens, ids).Some? {
      if NO_CALL in ids { ToolIsNamed(opens, cleaned, NO_CALL); }
      ResultsKeep(opens, cleaned, DelList(opens, ids).value, m);
    }
  }

  lemma Scan1Keeps(s: State, m: Message)
    requires s.State? && Kept(s)
    ensures Kept(Scan1(s, m))
  {
    match m.role
    case Assistant =>
      PutAllExtends(s.opens, m, |s.cleaned|);
      OpenSnoc({}, s.cleaned, m);
      TracksSnoc(s.opens, s.cleaned, PutAll(s.opens, m, |s.cleaned|), m);
    case Tool =>
      if m.callId in Ids(s.opens) {
        DelEntries(s.opens, m.callId);
        ToolIsNamed(s.opens, s.cleaned, m.callId);
        ResultsKeep(s.opens, s.cleaned, Del(s.opens, m.callId), m);
      }
    case User =>
      if m.content.Blocks? {
        BlockResultsKeep(s.opens, s.cleaned, m);
      } else {
        ResultsKeep(s.opens, s.cleaned, s.opens, m);
      }
    case System =>
      ResultsKeep(s.opens, s.cleaned, s.opens, m);
  }

  lemma ToolIsNamed(opens: seq<Entry>, cleaned: seq<Message>, id: CallId)
    requires Tracks(opens, cleaned) && id in Ids(opens)
    ensures id != NO_CALL
  {
    var e :| e in opens && e.id == id;
    assert IsLastOpening(e, cleaned);
  }

  lemma DelIds(before: seq<Entry>, after: seq<Entry>, gone: set<CallId>)
    requires forall x :: x in after <==> x in before && x.id !in gone
    ensures Ids(after) == Ids(before) - gone
  {
    forall id | id in Ids(before) - gone ensures id in Ids(after) {
      var x :| x in before && x.id == id;
      assert x in after;
    }
  }

  /** What the scan keeps never has an orphan result, and the table is exact. */
  lemma {:induction false} ScanKeeps(h: seq<Message>)
    requires Scan(h).State?
    ensures Kept(Scan(h))
  {
    if h == [] {
      assert Tracks([], []);
    } else {
      ScanKeeps(h[..|h| - 1]);
      Scan1Keeps(Scan(h[..|h| - 1]), h[|h| - 1]);
    }
  }

  // ----- where the entries come from -----

  /** The message makes a call with this id and name, in this form. */
  ghost predicate CallsAs(m: Message, id: CallId, name: string, style: Style) {
    match style
    case OpenAI => exists c :: c in m.calls && c.id == id && c.name == name
    case Anthropic =>
      m.content.Blocks? && exists b :: b in m.content.blocks && b.ToolUse? && b.id == id && b.name == name
  }

  ghost predicate FromCalls(e: Entry, calls: seq<Call>, index: nat) {
    e.style == OpenAI && e.index == index && exists c :: c in calls && c.id == e.id && c.name == e.name
  }

  ghost predicate FromUses(e: Entry, blocks: seq<Block>, index: nat) {
    && e.style == Anthropic && e.index == index
    && exists b :: b in blocks && b.ToolUse? && b.id == e.id && b.name == e.name
  }

  lemma {:induction false} PutCallsFrom(opens: seq<Entry>, calls: seq<Call>, index: nat)
    requires DistinctIds(opens)
    ensures DistinctIds(PutCalls(opens, calls, index))
    ensures forall e :: e in PutCalls(opens, calls, index) ==>
              FromCalls(e, calls, index) || (e in opens && e.id !in IdsOfCalls(calls))
  {
    if calls != [] {
      var front, last := calls[..|calls| - 1], calls[|calls| - 1];
      PutCallsFrom(opens, front, index);
      assert calls == front + [last] && last in calls;
      if last.id != NO_CALL {
        PutEntries(PutCalls(opens, front, index), Entry(last.id, index, OpenAI, last.name));
      }
      forall e | e in PutCalls(opens, front, index) && FromCalls(e, front, index) ensures FromCalls(e, calls, index) {
        var c :| c in front && c.id == e.id && c.name == e.name;
        assert c in calls;
      }
    }
  }

  lemma {:induction false} PutUsesFrom(opens: seq<Entry>, blocks: seq<Block>, index: nat)
    requires DistinctIds(opens)
    ensures DistinctIds(PutUses(opens, blocks, index))
    ensures forall e :: e in PutUses(opens, blocks, index) ==>
              FromUses(e, blocks, index) || (e in opens && e.id !in UseIds(blocks))
  {
    if blocks != [] {
      var front, last := blocks[..|blocks| - 1], blocks[|blocks| - 1];
      PutUsesFrom(opens, front, index);
      assert blocks == front + [last] && last in blocks;
      if last.ToolUse? && last.id != NO_CALL {
        PutEntries(PutUses(opens, front, index), Entry(last.id, index, Anthropic, last.name));
      }
      forall e | e in PutUses(opens, front, index) && FromUses(e, front, index) ensures FromUses(e, blocks, index) {
        var b :| b in front && b.ToolUse? && b.id == e.id && b.name == e.name;
        assert b in blocks;
      }
    }
  }

  /** Every entry names a call that its message makes, in the form it was made. */
  ghost predicate Sourced(opens: seq<Entry>, cleaned: seq<Message>) {
    forall e :: e in opens ==> e.index < |cleaned| && CallsAs(cleaned[e.index], e.id, e.name, e.style)
  }

  lemma PutAllSourced(opens: seq<Entry>, cleaned: seq<Message>, m: Message)
    requires Sourced(opens, cleaned) && DistinctIds(opens)
    ensures Sourced(PutAll(opens, m, |cleaned|), cleaned + [m])
  {
    var mid := if m.content.Blocks? then PutUses(opens, m.content.blocks, |cleaned|) else opens;
    if m.content.Blocks? {
      PutUsesFrom(opens, m.content.blocks, |cleaned|);
    }
    PutCallsFrom(mid, m.calls, |cleaned|);
    assert (cleaned + [m])[|cleaned|] == m;
    forall e | e in PutAll(opens, m, |cleaned|)
      ensures e.index <= |cleaned| && CallsAs((cleaned + [m])[e.index], e.id, e.name, e.style)
    {
      if e in opens {
        assert (cleaned + [m])[e.index] == cleaned[e.index];
      }
    }
  }

  lemma FewerSourced(opens: seq<Entry>, rest: seq<Entry>, cleaned: seq<Message>, m: Message)
    requires Sourced(opens, cleaned) && forall e :: e in rest ==> e in opens
    ensures Sourced(rest, cleaned + [m]) && Sourced(rest, cleaned)
  {
  }

  lemma Scan1Sourced(s: State, m: Message)
    requires s.State? && Kept(s) && Sourced(s.opens, s.cleaned) && Scan1(s, m).State?
    ensures Sourced(Scan1(s, m).opens, Scan1(s, m).cleaned)
  {
    match m.role
    case Assistant =>
      PutAllSourced(s.opens, s.cleaned, m);
    case Tool =>
      DelEntries(s.opens, m.callId);
      FewerSourced(s.opens, Del(s.opens, m.callId), s.cleaned, m);
    case User =>
      FewerSourced(s.opens, s.opens, s.cleaned, m);
      if m.content.Blocks? {
        DelListEntries(s.opens, ResultList(m.content.blocks));
        if DelList(s.opens, ResultList(m.content.blocks)).Some? {
          FewerSourced(s.opens, DelList(s.opens, ResultList(m.content.blocks)).value, s.cleaned, m);
        }
      }
    case System =>
      FewerSourced(s.opens, s.opens, s.cleaned, m);
  }

  lemma {:induction false} ScanSourced(h: seq<Message>)
    requires Scan(h).State?
    ensures Sourced(Scan(h).opens, Scan(h).cleaned)
  {
    if h != [] {
      ScanKeeps(h[..|h| - 1]);
      ScanSourced(h[..|h| - 1]);
      Scan1Sourced(Scan(h[..|h| - 1]), h[|h| - 1]);
    }
  }

  // ----- the end of the repair -----

  /** The smallest index in the table. */
  function FirstUnpaired(opens: seq<Entry>): (i: nat)
    requires opens != []
    ensures exists e :: e in opens && e.index == i
    ensures forall e :: e in opens ==> i <= e.index
  {
    if |opens| == 1 then opens[0].index
    else
      var front, last := opens[..|opens| - 1], opens[|opens| - 1];
      var i := FirstUnpaired(front);
      assert opens == front + [last];
      var e :| e in front && e.index == i;
      assert e in opens;
      if last.index < i then last.index else i
  }

  lemma {:induction false} FirstEntry(opens: seq<Entry>) returns (e: Entry)
    requires opens != []
    ensures e in opens && e.index == FirstUnpaired(opens)
  {
    if |opens| == 1 {
      e := opens[0];
    } else {
      var front, last := opens[..|opens| - 1], opens[|opens| - 1];
      assert opens == front + [last];
      e := FirstEntry(front);
      if last.index < e.index {
        e := last;
      }
    }
  }

  predicate OnlyResults(m: Message) {
    m.role == Tool ||
    (m.role == User && m.content.Blocks? && forall b :: b in m.content.blocks ==> b.ToolResult?)
  }

  function RecoveryResult(e: Entry): Message {
    Message(Tool, Text(RECOVERY_TEXT), [], e.id, e.name)
  }

  function ToolRecoveries(opens: seq<Entry>): seq<Message> {
    if opens == [] then []
    else
      var front, last := ToolRecoveries(opens[..|opens| - 1]), opens[|opens| - 1];
      if last.style == OpenAI then front + [RecoveryResult(last)] else front
  }

  function BlockRecoveries(opens: seq<Entry>): seq<Block> {
    if opens == [] then []
    else
      var front, last := BlockRecoveries(opens[..|opens| - 1]), opens[|opens| - 1];
      if last.style == Anthropic then front + [ToolResult(last.id, RECOVERY_TEXT, true)] else front
  }

  /** One synthetic result per open call: tool messages, then one user message with blocks. */
  function Recoveries(opens: seq<Entry>): seq<Message> {
    var blocks := BlockRecoveries(opens);
    ToolRecoveries(opens) + (if blocks == [] then [] else [Plain(User, Blocks(blocks))])
  }

  /** A synthetic result says that the state is unknown, under the id and name of the call it answers. */
  ghost predicate ToolSays(m: Message, cleaned: seq<Message>) {
    && m.role == Tool && m.content == Text(RECOVERY_TEXT) && m.calls == []
    && exists k :: 0 <= k < |cleaned| && CallsAs(cleaned[k], m.callId, m.name, OpenAI)
  }

  ghost predicate BlockSays(b: Block, cleaned: seq<Message>) {
    && b.ToolResult? && b.content == RECOVERY_TEXT && b.isError
    && exists k, name :: 0 <= k < |cleaned| && CallsAs(cleaned[k], b.id, name, Anthropic)
  }

  lemma {:induction false} ToolRecoveriesSay(opens: seq<Entry>, cleaned: seq<Message>)
    requires Sourced(opens, cleaned)
    ensures forall m :: m in ToolRecoveries(opens) ==> ToolSays(m, cleaned)
  {
    if opens != [] {
      var front, last := opens[..|opens| - 1], opens[|opens| - 1];
      assert opens == front + [last] && last in opens;
      ToolRecoveriesSay(front, cleaned);
      assert last.style == OpenAI ==> CallsAs(cleaned[last.index], last.id, last.name, OpenAI);
    }
  }

  lemma {:induction false} BlockRecoveriesSay(opens: seq<Entry>, cleaned: seq<Message>)
    requires Sourced(opens, cleaned)
    ensures forall b :: b in BlockRecoveries(opens) ==> BlockSays(b, cleaned)
  {
    if opens != [] {
      var front, last := opens[..|opens| - 1], opens[|opens| - 1];
      assert opens == front + [last] && last in opens;
      BlockRecoveriesSay(front, cleaned);
      assert last.style == Anthropic ==> CallsAs(cleaned[last.index], last.id, last.name, Anthropic);
    }
  }

  /** They come in the order of the table. */
  lemma {:induction false} RecoveriesInOrder(opens: seq<Entry>, tools: Entry -> bool, uses: Entry -> bool)
    requires forall e :: (tools(e) <==> e.style == OpenAI) && (uses(e) <==> e.style == Anthropic)
    ensures |ToolRecoveries(opens)| == |Select(opens, tools)| && |BlockRecoveries(opens)| == |Select(opens, uses)|
    ensures forall k :: 0 <= k < |Select(opens, tools)| ==>
              ToolRecoveries(opens)[k].callId == Select(opens, tools)[k].id
    ensures forall k :: 0 <= k < |Select(opens, uses)| ==>
              && BlockRecoveries(opens)[k].ToolResult?
              && BlockRecoveries(opens)[k].id == Select(opens, uses)[k].id
  {
    if opens != [] {
      RecoveriesInOrder(opens[..|opens| - 1], tools, uses);
    }
  }

  /** What the synthetic results of a repair say: tool messages for calls made as such, and at most one
      user message with blocks for those made in blocks. */
  lemma RecoveriesSay(h: seq<Message>)
    requires Scan(h).State?
    ensures var cleaned, more := Scan(h).cleaned, Recoveries(Scan(h).opens);
            forall i :: 0 <= i < |more| ==>
              || ToolSays(more[i], cleaned)
              || (i == |more| - 1 && more[i].role == User && more[i].content.Blocks? && more[i].calls == []
                  && forall b :: b in more[i].content.blocks ==> BlockSays(b, cleaned))
  {
    ScanSourced(h);
    ToolRecoveriesSay(Scan(h).opens, Scan(h).cleaned);
    BlockRecoveriesSay(Scan(h).opens, Scan(h).cleaned);
    var tools := ToolRecoveries(Scan(h).opens);
    forall i | 0 <= i < |tools| ensures ToolSays(tools[i], Scan(h).cleaned) {
      assert tools[i] in tools;
    }
  }

  function Finish(cleaned: seq<Message>, opens: seq<Entry>): seq<Message> {
    if opens == [] then cleaned
    else
      var i := FirstUnpaired(opens);
      if forall k :: i < k < |cleaned| ==> OnlyResults(cleaned[k]) then cleaned + Recoveries(opens)
      else if i <= |cleaned| then cleaned[..i] else cleaned
  }

  /** The whole repair; no value when a repeated result id raises `KeyError`. */
  function Repaired(h: seq<Message>): Option<seq<Message>> {
    var s := Scan(h);
    if s.KeyError? then None else Some(Finish(s.cleaned, s.opens))
  }

  method TruncateUnpaired(messages: seq<Message>) returns (r: Option<seq<Message>>)
    ensures r == Repaired(messages)
  {
    var opens: seq<Entry> := [];
    var cleaned: seq<Message> := [];
    for n := 0 to |messages|
      invariant Scan(messages[..n]) == State(cleaned, opens)
    {
      assert messages[..n + 1][..n] == messages[..n];
      ScanStuck(messages, n + 1);
      var m := messages[n];
      match m.role
      case Assistant =>
        opens := PutAll(opens, m, |cleaned|);
        cleaned := cleaned + [m];
      case Tool =>
        if m.callId !in Ids(opens) {
          continue;
        }
        opens := Del(opens, m.callId);
        cleaned := cleaned + [m];
      case User =>
        if m.content.Blocks? {
          var ids := ResultList(m.content.blocks);
          if exists id :: id in ids && id !in Ids(opens) {
            continue;
          }
          var rest := DelList(opens, ids);
          if rest == None {
            return None;
          }
          opens := rest.value;
        }
        cleaned := cleaned + [m];
      case System =>
        cleaned := cleaned + [m];
    }
    assert messages[..|messages|] == messages;
    return Some(Finish(cleaned, opens));
  }

  lemma {:induction false} ScanStuck(h: seq<Message>, n: nat)
    requires n <= |h|
    ensures Scan(h[..n]).KeyError? ==> Scan(h).KeyError?
    decreases |h|
  {
    if n == |h| {
      assert h[..n] == h;
    } else {
      ScanStuck(h[..|h| - 1], n);
      assert h[..|h| - 1][..n] == h[..n];
    }
  }

  // ----- what the repair achieves -----

  function StyleIds(opens: seq<Entry>, style: Style): set<CallId> {
    set e | e in opens && e.style == style :: e.id
  }

  lemma StyleIdsSnoc(opens: seq<Entry>, e: Entry, style: Style)
    ensures StyleIds(opens + [e], style) == StyleIds(opens, style) + (if e.style == style then {e.id} else {})
  {
    var more := opens + [e];
    forall id ensures id in StyleIds(more, style) <==>
                      id in StyleIds(opens, style) + (if e.style == style then {e.id} else {})
    {
      if id in StyleIds(opens, style) {
        var x :| x in opens && x.style == style && x.id == id;
        assert x in more;
      }
      assert e in more;
    }
  }

  ghost predicate AllNamed(opens: seq<Entry>) {
    forall e :: e in opens ==> e.id != NO_CALL
  }

  lemma IdsSnoc(opens: seq<Entry>, e: Entry)
    requires DistinctIds(opens + [e])
    ensures DistinctIds(opens)
    ensures Ids(opens + [e]) == Ids(opens) + {e.id} && e.id !in Ids(opens)
  {
    var more := opens + [e];
    forall i, j | 0 <= i < j < |opens| ensures opens[i].id != opens[j].id {
      assert more[i].id != more[j].id;
    }
    forall x | x in opens ensures x.id != e.id {
      var i :| 0 <= i < |opens| && opens[i] == x;
      assert more[i].id != more[|opens|].id;
    }
    forall id ensures id in Ids(more) <==> id in Ids(opens) + {e.id} {
      if id in Ids(opens) {
        var x :| x in opens && x.id == id;
        assert x in more;
      }
      assert e in more;
    }
  }

  lemma StyleIdsAreIds(opens: seq<Entry>, style: Style)
    ensures StyleIds(opens, style) <= Ids(opens)
  {
  }

  lemma {:induction false} RecoveryCloses(open: set<CallId>, results: seq<Message>, closed: set<CallId>, e: Entry)
    requires OpenFrom(open, results) == open - closed && OrphanFreeFrom(open, results)
    requires e.id != NO_CALL && e.id in open && e.id !in closed
    ensures OpenFrom(open, results + [RecoveryResult(e)]) == open - (closed + {e.id})
    ensures OrphanFreeFrom(open, results + [RecoveryResult(e)])
  {
    var m := RecoveryResult(e);
    assert CallIdsOf(m) == {} && ResultIdsOf(m) == {e.id};
    OpenSnoc(open, results, m);
  }

  ghost predicate ToolsClose(open: set<CallId>, opens: seq<Entry>) {
    && OpenFrom(open, ToolRecoveries(opens)) == open - StyleIds(opens, OpenAI)
    && OrphanFreeFrom(open, ToolRecoveries(opens))
  }

  lemma ToolsCloseSnoc(open: set<CallId>, opens: seq<Entry>, e: Entry)
    requires ToolsClose(open, opens) && e.id != NO_CALL && e.id in open && e.id !in Ids(opens)
    ensures ToolsClose(open, opens + [e])
  {
    assert (opens + [e])[..|opens|] == opens;
    StyleIdsSnoc(opens, e, OpenAI);
    StyleIdsAreIds(opens, OpenAI);
    if e.style == OpenAI {
      RecoveryCloses(open, ToolRecoveries(opens), StyleIds(opens, OpenAI), e);
    }
  }

  lemma {:induction false} ToolRecoveriesClose(open: set<CallId>, opens: seq<Entry>)
    requires DistinctIds(opens) && NO_CALL !in Ids(opens) && Ids(opens) <= open
    ensures ToolsClose(open, opens)
  {
    if opens != [] {
      var front, last := opens[..|opens| - 1], opens[|opens| - 1];
      assert opens == front + [last];
      IdsSnoc(front, last);
      ToolRecoveriesClose(open, front);
      ToolsCloseSnoc(open, front, last);
    }
  }

  lemma {:induction false} BlockRecoveriesIds(opens: seq<Entry>)
    requires AllNamed(opens)
    ensures ResultBlockIds(BlockRecoveries(opens)) == StyleIds(opens, Anthropic)
    ensures BlockRecoveries(opens) == [] ==> StyleIds(opens, Anthropic) == {}
  {
    if opens != [] {
      var front, last := opens[..|opens| - 1], opens[|opens| - 1];
      assert opens == front + [last] && last in opens;
      BlockRecoveriesIds(front);
      StyleIdsSnoc(front, last, Anthropic);
    }
  }

  /** The synthetic results answer exactly the open calls. */
  lemma {:induction false} RecoveriesClose(open: set<CallId>, opens: seq<Entry>)
    requires DistinctIds(opens) && AllNamed(opens) && Ids(opens) == open
    ensures OpenFrom(open, Recoveries(opens)) == {} && OrphanFreeFrom(open, Recoveries(opens))
  {
    var tools, blocks := ToolRecoveries(opens), BlockRecoveries(opens);
    ToolRecoveriesClose(open, opens);
    BlockRecoveriesIds(opens);
    StylesPartition(opens);
    if blocks == [] {
      assert tools + [] == tools;
    } else {
      var m := Plain(User, Blocks(blocks));
      assert CallIdsOf(m) == {} && ResultIdsOf(m) == StyleIds(opens, Anthropic);
      OpenSnoc(open, tools, m);
    }
  }

  lemma StylesPartition(opens: seq<Entry>)
    requires DistinctIds(opens)
    ensures Ids(opens) == StyleIds(opens, OpenAI) + StyleIds(opens, Anthropic)
    ensures StyleIds(opens, OpenAI) !! StyleIds(opens, Anthropic)
  {
    forall id | id in Ids(opens) ensures id in StyleIds(opens, OpenAI) + StyleIds(opens, Anthropic) {
      var e :| e in opens && e.id == id;
      assert e.style == OpenAI || e.style == Anthropic;
    }
  }

  /** On every input: no orphan result, and the output is a prefix of what the scan kept or all
      of it followed by one synthetic result per open call, which then leaves nothing open. */
  lemma {:induction false} RepairShape(h: seq<Message>)
    requires Scan(h).State?
    ensures
      var s := Scan(h);
      var r := Repaired(h).value;
      && OrphanFree(r)
      && (|| (r == s.cleaned && s.opens == [])
          || (r == s.cleaned + Recoveries(s.opens) && Open(r) == {})
          || (s.opens != [] && FirstUnpaired(s.opens) < |s.cleaned| && r == s.cleaned[..FirstUnpaired(s.opens)]))
  {
    ScanKeeps(h);
    var s := Scan(h);
    if s.opens != [] {
      var i := FirstUnpaired(s.opens);
      var e := FirstEntry(s.opens);
      assert IsLastOpening(e, s.cleaned);
      OrphanFreePrefix(s.cleaned, i);
      forall x | x in s.opens ensures x.id != NO_CALL { assert IsLastOpening(x, s.cleaned); }
      RecoveriesClose(Open(s.cleaned), s.opens);
      OpenAppend({}, s.cleaned, Recoveries(s.opens));
    }
  }

  // ----- what the scan keeps, and when it fails -----

  /** All ids a message answers, the empty id included. */
  function Answers(m: Message): set<CallId> {
    if m.role == Tool then {m.callId}
    else if m.role == User && m.content.Blocks? then set id | id in ResultList(m.content.blocks)
    else {}
  }

  /** The history without the messages that answer a call which is not open. */
  function WithoutOrphans(h: seq<Message>): seq<Message> {
    if h == [] then []
    else
      var kept, last := WithoutOrphans(h[..|h| - 1]), h[|h| - 1];
      if Answers(last) <= Open(kept) then kept + [last] else kept
  }

  predicate RepeatsAResult(m: Message) {
    && m.role == User && m.content.Blocks?
    && var ids := ResultList(m.content.blocks);
       exists i, j :: 0 <= i < j < |ids| && ids[i] == ids[j]
  }

  /** The message that raises `KeyError`: all its results are open and one is repeated. */
  predicate Trips(kept: seq<Message>, m: Message) {
    RepeatsAResult(m) && Answers(m) <= Open(kept)
  }

  predicate Fails(h: seq<Message>) {
    h != [] &&
    (var front, last := h[..|h| - 1], h[|h| - 1];
     Fails(front) || Trips(WithoutOrphans(front), last))
  }

  /** The scan removes just the messages with an orphan result, or fails. */
  lemma {:induction false} ScanIsFilter(h: seq<Message>)
    ensures Scan(h).KeyError? <==> Fails(h)
    ensures Scan(h).State? ==> Scan(h).cleaned == WithoutOrphans(h)
  {
    if h != [] {
      ScanIsFilter(h[..|h| - 1]);
      if Scan(h[..|h| - 1]).State? {
        ScanKeeps(h[..|h| - 1]);
        Scan1Filters(Scan(h[..|h| - 1]), h[|h| - 1]);
      }
    }
  }

  lemma Scan1Filters(s: State, m: Message)
    requires s.State? && Kept(s)
    ensures Scan1(s, m).KeyError? <==> Trips(s.cleaned, m)
    ensures Scan1(s, m).State? ==>
              Scan1(s, m).cleaned == if Answers(m) <= Open(s.cleaned) then s.cleaned + [m] else s.cleaned
  {
    if m.role == User && m.content.Blocks? {
      DelListEntries(s.opens, ResultList(m.content.blocks));
    }
  }

  // ----- the repair leaves valid histories alone -----

  ghost predicate AllGood(h: seq<Message>) {
    forall m :: m in h ==> GoodResults(m)
  }

  lemma AnswersOpen(m: Message)
    requires GoodResults(m)
    ensures Answers(m) == ResultIdsOf(m) && !RepeatsAResult(m)
  {
    if m.role == User && m.content.Blocks? {
      ResultListIds(m.content.blocks);
    }
  }

  lemma {:induction false} NothingFiltered(h: seq<Message>)
    requires OrphanFree(h) && AllGood(h)
    ensures Scan(h).State? && WithoutOrphans(h) == h
  {
    if h != [] {
      var front, last := h[..|h| - 1], h[|h| - 1];
      assert h == front + [last];
      assert AllGood(front) by {
        forall m | m in front ensures GoodResults(m) { assert m in h; }
      }
      NothingFiltered(front);
      AnswersOpen(last);
      ScanIsFilter(front);
      ScanKeeps(front);
      Scan1Filters(Scan(front), last);
    }
  }

  lemma NothingOpen(opens: seq<Entry>)
    requires Ids(opens) == {}
    ensures opens == []
  {
    assert opens != [] ==> opens[0].id in Ids(opens);
  }

  lemma PairedIsUnchanged(h: seq<Message>)
    requires Paired(h) && AllGood(h)
    ensures Repaired(h) == Some(h)
  {
    NothingFiltered(h);
    ScanIsFilter(h);
    ScanKeeps(h);
    NothingOpen(Scan(h).opens);
  }

  lemma {:induction false} BlockRecoveriesList(opens: seq<Entry>)
    requires DistinctIds(opens)
    ensures var ids := ResultList(BlockRecoveries(opens));
            && (forall id :: id in ids ==> id in Ids(opens))
            && forall i, j :: 0 <= i < j < |ids| ==> ids[i] != ids[j]
  {
    if opens != [] {
      var front, last := opens[..|opens| - 1], opens[|opens| - 1];
      assert opens == front + [last];
      IdsSnoc(front, last);
      BlockRecoveriesList(front);
      var b := ToolResult(last.id, RECOVERY_TEXT, true);
      assert (BlockRecoveries(front) + [b])[..|BlockRecoveries(front)|] == BlockRecoveries(front);
    }
  }

  lemma {:induction false} ToolRecoveriesGood(opens: seq<Entry>)
    requires AllNamed(opens)
    ensures AllGood(ToolRecoveries(opens))
  {
    if opens != [] {
      assert opens == opens[..|opens| - 1] + [opens[|opens| - 1]];
      ToolRecoveriesGood(opens[..|opens| - 1]);
    }
  }

  lemma RecoveriesGood(opens: seq<Entry>)
    requires DistinctIds(opens) && AllNamed(opens)
    ensures AllGood(Recoveries(opens))
  {
    ToolRecoveriesGood(opens);
    BlockRecoveriesList(opens);
    var blocks := BlockRecoveries(opens);
    if blocks != [] {
      assert NO_CALL !in Ids(opens);
      var ids := ResultList(blocks);
      assert forall id :: id in ids ==> id in Ids(opens);
      assert GoodResults(Plain(User, Blocks(blocks)));
    }
  }

  lemma RepairIsGood(h: seq<Message>)
    requires Repaired(h).Some?
    ensures AllGood(Repaired(h).value)
  {
    ScanKeeps(h);
    var s := Scan(h);
    forall x | x in s.opens ensures x.id != NO_CALL { assert IsLastOpening(x, s.cleaned); }
    RecoveriesGood(s.opens);
  }

  /** The histories the repair returns as they are: exactly those a provider accepts in which no
      user message repeats a result. */
  lemma FixedPoints(h: seq<Message>)
    ensures Repaired(h) == Some(h) <==> Paired(h) && AllGood(h)
  {
    if Paired(h) && AllGood(h) {
      PairedIsUnchanged(h);
    } else if Repaired(h) == Some(h) {
      RepairShape(h);
      RepairIsGood(h);
      ScanKeeps(h);
      FilterShortens(h);
      ScanIsFilter(h);
    }
  }

  lemma {:induction false} FilterShortens(h: seq<Message>)
    ensures |WithoutOrphans(h)| <= |h|
  {
    if h != [] {
      FilterShortens(h[..|h| - 1]);
    }
  }

  // ----- histories in order -----

  /** The calls of the latest assistant message. */
  function LatestIds(h: seq<Message>): set<CallId> {
    if h == [] then {}
    else if h[|h| - 1].role == Assistant then CallIdsOf(h[|h| - 1])
    else LatestIds(h[..|h| - 1])
  }

  /** Every result answers a call of the latest assistant message. */
  predicate AnswersLatest(h: seq<Message>) {
    h == [] || (AnswersLatest(h[..|h| - 1]) && ResultIdsOf(h[|h| - 1]) <= LatestIds(h[..|h| - 1]))
  }

  /** The conditions under which the repair closes everything. */
  ghost predicate InOrder(h: seq<Message>) {
    DistinctCalls(h) && AnswersLatest(h) && forall m :: m in h ==> !RepeatsAResult(m)
  }

  /** Two histories that agree on what was called, both in order. */
  ghost predicate SameCalls(kept: seq<Message>, h: seq<Message>) {
    && DistinctCalls(kept) && AnswersLatest(kept)
    && CalledIds(kept) == CalledIds(h) && LatestIds(kept) == LatestIds(h)
  }

  lemma {:induction false} SameCallsSnoc(kept: seq<Message>, h: seq<Message>, m: Message)
    requires SameCalls(kept, h) && DistinctCalls(h + [m]) && AnswersLatest(h + [m])
    ensures SameCalls(kept + [m], h + [m])
    ensures m.role != Assistant ==> SameCalls(kept, h + [m])
  {
    assert (kept + [m])[..|kept|] == kept && (h + [m])[..|h|] == h;
  }

  lemma {:induction false} InOrderFilters(h: seq<Message>)
    requires DistinctCalls(h) && AnswersLatest(h)
    ensures SameCalls(WithoutOrphans(h), h)
  {
    if h != [] {
      var front, last := h[..|h| - 1], h[|h| - 1];
      InOrderFilters(front);
      assert h == front + [last];
      SameCallsSnoc(WithoutOrphans(front), front, last);
    }
  }

  lemma {:induction false} InOrderScans(h: seq<Message>)
    requires forall m :: m in h ==> !RepeatsAResult(m)
    ensures !Fails(h)
  {
    if h != [] {
      assert h == h[..|h| - 1] + [h[|h| - 1]];
      InOrderScans(h[..|h| - 1]);
    }
  }

  /** From message i on, nothing is called under an id used before it. */
  lemma {:induction false} CalledAnew(h: seq<Message>, i: nat, n: nat)
    requires i <= n <= |h| && DistinctCalls(h[..n])
    ensures CalledIds(h[..i]) <= CalledIds(h[..n])
    ensures forall j :: i <= j < n ==> CallIdsOf(h[j]) !! CalledIds(h[..i])
    decreases n
  {
    if i < n {
      assert h[..n][..n - 1] == h[..n - 1];
      CalledAnew(h, i, n - 1);
    }
  }

  /** So the calls open before an assistant message can no longer be answered after it. */
  lemma {:induction false} OpenBeforeStays(h: seq<Message>, i: nat, n: nat)
    requires i < n <= |h| && h[i].role == Assistant
    requires DistinctCalls(h[..n]) && AnswersLatest(h[..n])
    ensures Open(h[..i]) <= Open(h[..n]) && LatestIds(h[..n]) !! CalledIds(h[..i])
    decreases n
  {
    assert h[..n][..n - 1] == h[..n - 1];
    CalledAnew(h, i, n);
    OpenIsCalled(h[..i]);
    if i < n - 1 {
      OpenBeforeStays(h, i, n - 1);
    }
  }

  // ----- exactly when the repair closes everything -----

  /** Some call that ends up open was last made by message i. */
  ghost predicate LeavesOpen(h: seq<Message>, i: nat)
    requires i < |h|
  {
    exists id :: id in CallIdsOf(h[i]) && id in Open(h) && forall j :: i < j < |h| ==> id !in CallIdsOf(h[j])
  }

  /** Message i is the first that leaves a call open. */
  ghost predicate FirstUnpairedAt(h: seq<Message>, i: nat) {
    i < |h| && LeavesOpen(h, i) && forall j :: 0 <= j < i ==> !LeavesOpen(h, j)
  }

  predicate OnlyResultsBehind(h: seq<Message>, i: nat) {
    forall k :: i < k < |h| ==> OnlyResults(h[k])
  }

  /** No call that is open when message i comes is answered or made again from there on. */
  ghost predicate NothingCrosses(h: seq<Message>, i: nat)
    requires i <= |h|
  {
    forall j, id :: i <= j < |h| && id in Open(h[..i]) ==> id !in ResultIdsOf(h[j]) && id !in CallIdsOf(h[j])
  }

  /** The guards under which the repair closes everything: nothing is open, or only results follow
      the first unpaired message, or nothing crosses it. */
  ghost predicate Closes(kept: seq<Message>) {
    || Open(kept) == {}
    || exists i :: FirstUnpairedAt(kept, i) && (OnlyResultsBehind(kept, i) || NothingCrosses(kept, i))
  }

  lemma EntryLeavesOpen(kept: seq<Message>, opens: seq<Entry>, e: Entry)
    requires Tracks(opens, kept) && e in opens
    ensures e.index < |kept| && LeavesOpen(kept, e.index)
  {
    assert IsLastOpening(e, kept);
    assert e.id in Ids(opens);
  }

  lemma {:induction false} LeavesOpenIsEntry(kept: seq<Message>, opens: seq<Entry>, i: nat)
    requires Tracks(opens, kept) && i < |kept| && LeavesOpen(kept, i)
    ensures opens != [] && FirstUnpaired(opens) <= i
  {
    var id :| id in CallIdsOf(kept[i]) && id in Open(kept) && forall j :: i < j < |kept| ==> id !in CallIdsOf(kept[j]);
    var e :| e in opens && e.id == id;
    assert IsLastOpening(e, kept);
  }

  /** The table's smallest index is the first unpaired message. */
  lemma {:induction false} FirstUnpairedIs(kept: seq<Message>, opens: seq<Entry>, i: nat)
    requires Tracks(opens, kept) && opens != []
    ensures FirstUnpairedAt(kept, i) <==> i == FirstUnpaired(opens)
  {
    var first := FirstUnpaired(opens);
    var e := FirstEntry(opens);
    EntryLeavesOpen(kept, opens, e);
    forall j | 0 <= j < first ensures !LeavesOpen(kept, j) {
      if LeavesOpen(kept, j) {
        LeavesOpenIsEntry(kept, opens, j);
      }
    }
    if FirstUnpairedAt(kept, i) {
      LeavesOpenIsEntry(kept, opens, i);
    }
  }

  /** A call that nothing touches stays open. */
  lemma {:induction false} UntouchedStaysOpen(h: seq<Message>, i: nat, n: nat, id: CallId)
    requires i <= n <= |h| && id in Open(h[..i])
    requires forall j :: i <= j < n ==> id !in ResultIdsOf(h[j])
    ensures id in Open(h[..n])
    decreases n
  {
    if i < n {
      assert h[..n][..n - 1] == h[..n - 1];
      UntouchedStaysOpen(h, i, n - 1, id);
    }
  }

  /** A call open at the first unpaired message is answered or made again behind it. */
  lemma {:induction false} OpenCrosses(kept: seq<Message>, opens: seq<Entry>, id: CallId)
    requires Tracks(opens, kept) && opens != []
    requires var i := FirstUnpaired(opens); i <= |kept| && id in Open(kept[..i])
    ensures exists j :: FirstUnpaired(opens) <= j < |kept| && (id in ResultIdsOf(kept[j]) || id in CallIdsOf(kept[j]))
  {
    var i := FirstUnpaired(opens);
    if forall j :: i <= j < |kept| ==> id !in ResultIdsOf(kept[j]) {
      UntouchedStaysOpen(kept, i, |kept|, id);
      assert kept[..|kept|] == kept;
      var x :| x in opens && x.id == id;
      assert IsLastOpening(x, kept);
    }
  }

  /** Cutting at the first unpaired message leaves nothing open exactly if nothing crosses it. */
  lemma {:induction false} CutClosesExactly(kept: seq<Message>, opens: seq<Entry>)
    requires Tracks(opens, kept) && opens != []
    ensures var i := FirstUnpaired(opens);
            i < |kept| && (Open(kept[..i]) == {} <==> NothingCrosses(kept, i))
  {
    var i := FirstUnpaired(opens);
    assert i < |kept| by {
      var e := FirstEntry(opens);
      assert IsLastOpening(e, kept);
    }
    forall id | id in Open(kept[..i]) ensures !NothingCrosses(kept, i) {
      OpenCrosses(kept, opens, id);
    }
  }

  lemma OpensAreOpen(kept: seq<Message>, opens: seq<Entry>)
    requires Tracks(opens, kept)
    ensures Open(kept) == {} <==> opens == []
  {
    if opens == [] {
      assert Ids(opens) == {};
    } else {
      assert opens[0].id in Ids(opens);
    }
  }

  /** The guards at the table's smallest index. */
  lemma {:induction false} ClosesAt(kept: seq<Message>, opens: seq<Entry>)
    requires Tracks(opens, kept) && opens != [] && FirstUnpaired(opens) <= |kept|
    ensures var i := FirstUnpaired(opens);
            Closes(kept) <==> OnlyResultsBehind(kept, i) || NothingCrosses(kept, i)
  {
    var i := FirstUnpaired(opens);
    OpensAreOpen(kept, opens);
    FirstUnpairedIs(kept, opens, i);
    forall j: nat | FirstUnpairedAt(kept, j) ensures j == i {
      FirstUnpairedIs(kept, opens, j);
    }
  }

  /** What the repair does with the kept messages and the table. */
  lemma FinishPairsExactly(kept: seq<Message>, opens: seq<Entry>)
    requires Tracks(opens, kept) && OrphanFree(kept)
    ensures Paired(Finish(kept, opens)) <==> Closes(kept)
  {
    OpensAreOpen(kept, opens);
    if opens != [] {
      var i := FirstUnpaired(opens);
      CutClosesExactly(kept, opens);
      ClosesAt(kept, opens);
      if OnlyResultsBehind(kept, i) {
        CompletedIsPaired(kept, opens);
      } else {
        OrphanFreePrefix(kept, i);
      }
    }
  }

  /** The repair ends paired exactly if it does not fail and one of the guards holds for the
      messages it keeps. */
  lemma {:induction false} RepairPairsExactly(h: seq<Message>)
    ensures Repaired(h).Some? && Paired(Repaired(h).value) <==> !Fails(h) && Closes(WithoutOrphans(h))
  {
    ScanIsFilter(h);
    if Scan(h).State? {
      ScanKeeps(h);
      FinishPairsExactly(Scan(h).cleaned, Scan(h).opens);
    }
  }

  lemma CompletedIsPaired(kept: seq<Message>, opens: seq<Entry>)
    requires Tracks(opens, kept) && OrphanFree(kept)
    ensures Paired(kept + Recoveries(opens))
  {
    forall x | x in opens ensures x.id != NO_CALL { assert IsLastOpening(x, kept); }
    RecoveriesClose(Open(kept), opens);
    OpenAppend({}, kept, Recoveries(opens));
  }

  /** Messages from an assistant message on neither answer nor repeat calls made before it. */
  lemma {:induction false} InOrderLeavesEarlier(kept: seq<Message>, i: nat, j: nat)
    requires DistinctCalls(kept) && AnswersLatest(kept) && i <= j < |kept| && kept[i].role == Assistant
    ensures CallIdsOf(kept[j]) !! CalledIds(kept[..i]) && ResultIdsOf(kept[j]) !! CalledIds(kept[..i])
  {
    CalledLater(kept, i, j);
    AnswersLatestAt(kept, j);
    if i < j {
      InOrderPrefix(kept, j);
      OpenBeforeStays(kept, i, j);
    }
  }

  lemma {:induction false} CalledLater(h: seq<Message>, i: nat, j: nat)
    requires DistinctCalls(h) && i <= j < |h|
    ensures CallIdsOf(h[j]) !! CalledIds(h[..i])
  {
    assert h[..|h|] == h;
    CalledAnew(h, i, |h|);
  }

  lemma {:induction false} AnswersLatestAt(h: seq<Message>, j: nat)
    requires AnswersLatest(h) && j < |h|
    ensures ResultIdsOf(h[j]) <= LatestIds(h[..j])
    decreases |h|
  {
    if j < |h| - 1 {
      var front := h[..|h| - 1];
      AnswersLatestAt(front, j);
      assert front[..j] == h[..j];
    }
  }

  /** When no id is called twice and every result answers the latest assistant message, nothing
      crosses an assistant message. */
  lemma {:induction false} InOrderNothingCrosses(kept: seq<Message>, i: nat)
    requires DistinctCalls(kept) && AnswersLatest(kept) && i < |kept| && kept[i].role == Assistant
    ensures NothingCrosses(kept, i)
  {
    OpenIsCalled(kept[..i]);
    forall j, id | i <= j < |kept| && id in Open(kept[..i])
      ensures id !in ResultIdsOf(kept[j]) && id !in CallIdsOf(kept[j])
    {
      InOrderLeavesEarlier(kept, i, j);
    }
  }

  lemma {:induction false} InOrderPrefix(h: seq<Message>, n: nat)
    requires DistinctCalls(h) && AnswersLatest(h) && n <= |h|
    ensures DistinctCalls(h[..n]) && AnswersLatest(h[..n])
    decreases |h|
  {
    if n == |h| {
      assert h[..n] == h;
    } else {
      InOrderPrefix(h[..|h| - 1], n);
      assert h[..|h| - 1][..n] == h[..n];
    }
  }

  /** In particular when no id is called twice, every result answers the latest assistant message
      and no user message repeats a result. */
  lemma RepairCloses(h: seq<Message>)
    requires InOrder(h)
    ensures Repaired(h).Some? && Paired(Repaired(h).value)
  {
    InOrderFilters(h);
    InOrderScans(h);
    ScanIsFilter(h);
    ScanKeeps(h);
    RepairPairsExactly(h);
    var s := Scan(h);
    if s.opens == [] {
      assert Ids(s.opens) == {};
    } else {
      var i := FirstUnpaired(s.opens);
      var e := FirstEntry(s.opens);
      assert IsLastOpening(e, s.cleaned);
      FirstUnpairedIs(s.cleaned, s.opens, i);
      InOrderNothingCrosses(s.cleaned, i);
    }
  }

  /** A second repair changes nothing exactly if the first one ended paired. */
  lemma {:induction false} IdempotentExactly(h: seq<Message>)
    requires Repaired(h).Some?
    ensures Repaired(Repaired(h).value) == Repaired(h) <==> Paired(Repaired(h).value)
    ensures Repaired(Repaired(h).value) == Repaired(h) <==> Closes(WithoutOrphans(h))
  {
    FixedPoints(Repaired(h).value);
    RepairIsGood(h);
    RepairPairsExactly(h);
    ScanIsFilter(h);
  }

  /** Where the repair closes everything it is idempotent. */
  lemma RepairIsIdempotent(h: seq<Message>)
    requires InOrder(h)
    ensures Repaired(h).Some? && Repaired(Repaired(h).value) == Repaired(h)
  {
    RepairCloses(h);
    IdempotentExactly(h);
  }

  // ----- each condition is needed -----

  function Calling(id: CallId): Message {
    Message(Assistant, NoContent, [Call(id, "read", "{}")], NO_CALL, "")
  }

  function Answering(id: CallId): Message {
    Message(Tool, Text("done"), [], id, "read")
  }

  lemma {:induction false} ScanSnoc(h: seq<Message>, m: Message)
    ensures Scan(h + [m]) == Scan1(Scan(h), m)
  {
    assert (h + [m])[..|h|] == h;
  }

  lemma CallingOpens(opens: seq<Entry>, id: CallId, index: nat)
    requires id != NO_CALL
    ensures PutAll(opens, Calling(id), index) == Put(opens, Entry(id, index, OpenAI, "read"))
    ensures CallIdsOf(Calling(id)) == {id}
  {
    var c := Call(id, "read", "{}");
    assert [c][..0] == [];
    assert PutCalls(opens, [], index) == opens;
    assert IdsOfCalls([]) == {};
  }

  lemma {:induction false} CutBeforeText(h: seq<Message>, e: Entry, u: Message)
    requires Scan(h) == State(h, [e]) && e.index < |h|
    requires u.role == User && u.content.Text?
    ensures Repaired(h + [u]) == Some(h[..e.index])
  {
    ScanSnoc(h, u);
    var more := h + [u];
    assert FirstUnpaired([e]) == e.index;
    assert !OnlyResults(more[|h|]);
    assert more[..e.index] == h[..e.index];
  }

  lemma FirstCall(id: CallId)
    requires id != NO_CALL
    ensures Scan([Calling(id)]) == State([Calling(id)], [Entry(id, 0, OpenAI, "read")])
    ensures Open([Calling(id)]) == {id}
  {
    CallingOpens([], id, 0);
    ScanSnoc([], Calling(id));
    OpenSnoc({}, [], Calling(id));
    assert Ids([]) == {};
    assert [] + [Calling(id)] == [Calling(id)];
  }

  /** A call id used twice: the repair cuts at the second use and leaves the first one open. */
  lemma ReusedIdStaysOpen(id: CallId, text: string)
    requires id != NO_CALL
    ensures var h := [Calling(id), Calling(id), Plain(User, Text(text))];
            Repaired(h) == Some([Calling(id)]) && Open([Calling(id)]) == {id}
  {
    var a, u := Calling(id), Plain(User, Text(text));
    FirstCall(id);
    CalledAgain(id);
    assert [a, a] + [u] == [a, a, u] && [a, a][..1] == [a];
    CutBeforeText([a, a], Entry(id, 1, OpenAI, "read"), u);
  }

  lemma CalledAgain(id: CallId)
    requires id != NO_CALL
    ensures var a := Calling(id);
            Scan([a, a]) == State([a, a], [Entry(id, 1, OpenAI, "read")])
  {
    var a, e0, e1 := Calling(id), Entry(id, 0, OpenAI, "read"), Entry(id, 1, OpenAI, "read");
    FirstCall(id);
    ScanCall([a], [e0], id);
    PutAgain(e0, e1);
    assert [a] + [a] == [a, a];
  }

  lemma PutAgain(e0: Entry, e1: Entry)
    requires e0.id == e1.id
    ensures Put([e0], e1) == [e1]
  {
    assert e0 in [e0] && e1.id in Ids([e0]);
  }

  /** One more call at the end of a scanned history. */
  lemma {:induction false} ScanCall(h: seq<Message>, opens: seq<Entry>, id: CallId)
    requires id != NO_CALL && Scan(h) == State(h, opens)
    ensures Scan(h + [Calling(id)]) == State(h + [Calling(id)], Put(opens, Entry(id, |h|, OpenAI, "read")))
  {
    CallingOpens(opens, id, |h|);
    ScanSnoc(h, Calling(id));
  }

  lemma TwoEntries(e0: Entry, e1: Entry)
    requires e0.id != e1.id
    ensures Put([e0], e1) == [e0, e1]
    ensures e0.id in Ids([e0, e1]) && Del([e0, e1], e0.id) == [e1]
  {
    assert e1.id !in Ids([e0]);
    assert e0 in [e0, e1];
    assert [e0, e1][..1] == [e0] && [e0][..0] == [];
    assert Del([e0], e0.id) == [];
  }

  lemma TwoCalls(first: CallId, second: CallId)
    requires first != NO_CALL && second != NO_CALL && first != second
    ensures var e0, e1 := Entry(first, 0, OpenAI, "read"), Entry(second, 1, OpenAI, "read");
            Scan([Calling(first), Calling(second)]) == State([Calling(first), Calling(second)], [e0, e1])
  {
    var e0, e1 := Entry(first, 0, OpenAI, "read"), Entry(second, 1, OpenAI, "read");
    FirstCall(first);
    ScanCall([Calling(first)], [e0], second);
    TwoEntries(e0, e1);
    assert [Calling(first)] + [Calling(second)] == [Calling(first), Calling(second)];
  }

  lemma SecondCallAnswersFirst(first: CallId, second: CallId)
    requires first != NO_CALL && second != NO_CALL && first != second
    ensures var h := [Calling(first), Calling(second), Answering(first)];
            Scan(h) == State(h, [Entry(second, 1, OpenAI, "read")])
  {
    var a, b, r := Calling(first), Calling(second), Answering(first);
    var e0, e1 := Entry(first, 0, OpenAI, "read"), Entry(second, 1, OpenAI, "read");
    TwoCalls(first, second);
    TwoEntries(e0, e1);
    ScanAnswer([a, b], [e0, e1], first);
    assert [a, b] + [r] == [a, b, r];
  }

  lemma {:induction false} ScanAnswer(h: seq<Message>, opens: seq<Entry>, id: CallId)
    requires Scan(h) == State(h, opens) && id in Ids(opens)
    ensures Scan(h + [Answering(id)]) == State(h + [Answering(id)], Del(opens, id))
  {
    ScanSnoc(h, Answering(id));
  }

  /** A result that comes after the next assistant message. */
  lemma LateResultStaysOpen(first: CallId, second: CallId, text: string)
    requires first != NO_CALL && second != NO_CALL && first != second
    ensures var h := [Calling(first), Calling(second), Answering(first), Plain(User, Text(text))];
            Repaired(h) == Some([Calling(first)]) && Open([Calling(first)]) == {first}
  {
    var a, b, r, u := Calling(first), Calling(second), Answering(first), Plain(User, Text(text));
    FirstCall(first);
    SecondCallAnswersFirst(first, second);
    assert [a, b, r] + [u] == [a, b, r, u] && [a, b, r][..1] == [a];
    CutBeforeText([a, b, r], Entry(second, 1, OpenAI, "read"), u);
  }

  /** A user message that answers one call twice makes the repair fail. */
  lemma RepeatedResultFails(id: CallId, text: string)
    requires id != NO_CALL
    ensures var b := ToolResult(id, text, false);
            Repaired([Calling(id), Plain(User, Blocks([b, b]))]) == None
  {
    var a, b := Calling(id), ToolResult(id, text, false);
    var m := Plain(User, Blocks([b, b]));
    FirstCall(id);
    LoneCallKept(id);
    ResultTwice(id, text);
    assert Trips([a], m);
    assert [a, m][..1] == [a];
    ScanIsFilter([a, m]);
  }

  lemma LoneCallKept(id: CallId)
    ensures WithoutOrphans([Calling(id)]) == [Calling(id)]
  {
    assert [Calling(id)][..0] == [];
    assert WithoutOrphans([]) == [];
  }

  lemma ResultTwice(id: CallId, text: string)
    ensures var b := ToolResult(id, text, false);
            var m := Plain(User, Blocks([b, b]));
            RepeatsAResult(m) && Answers(m) == {id}
  {
    var b := ToolResult(id, text, false);
    assert [b, b][..1] == [b] && [b][..0] == [];
    assert ResultList([b]) == [id];
    var ids := ResultList([b, b]);
    assert ids == [id, id] && ids[0] == ids[1];
  }
}
