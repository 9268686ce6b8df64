/** Rows of a session journal: messages as JSON objects with a timestamp, and the filter that
    keeps only the rows a provider could accept. */
module SessionRows {
  import opened Wrappers
  import opened CallIds
  import opened Filters
  import opened Protocol

  /** A timestamp text together with the instant it denotes, if it is an ISO date. */
  datatype Stamp = Stamp(text: string, time: Option<int>)

  const NO_STAMP := Stamp("", None)

  /** A JSON value where a string is expected. */
  datatype Scalar = Absent | Null | Str(text: string) | NotString

  datatype Item = Object(block: Block) | NotObject

  datatype JsonContent = NoField | NullContent | StrContent(text: string) | ListContent(items: seq<Item>) | OtherContent

  datatype JsonFunction = NoFunction | Function(name: Scalar, arguments: Scalar)

  datatype JsonCall = NotACall | CallObject(id: Scalar, callee: JsonFunction)

  datatype JsonCalls = NoCalls | NullCalls | ListCalls(items: seq<JsonCall>) | OtherCalls

  /** One journal row; a timestamp that is not a string counts as missing. */
  datatype Row = Row(role: Scalar, content: JsonContent, calls: JsonCalls, callId: Scalar, name: Scalar,
                     stamp: Option<Stamp>)

  datatype Dated = Dated(message: Message, stamp: Stamp)

  // ----- writing -----

  function RoleText(role: Role): string {
    match role
    case System => "system"
    case User => "user"
    case Assistant => "assistant"
    case Tool => "tool"
  }

  function EncodeBlocks(blocks: seq<Block>): seq<Item> {
    seq(|blocks|, i requires 0 <= i < |blocks| => Object(blocks[i]))
  }

  function EncodeCall(c: Call): JsonCall {
    CallObject(Str(c.id.text), Function(Str(c.name), Str(c.arguments)))
  }

  function EncodeCalls(calls: seq<Call>): seq<JsonCall> {
    if calls == [] then [] else EncodeCalls(calls[..|calls| - 1]) + [EncodeCall(calls[|calls| - 1])]
  }

  function EncodeContent(c: Content): JsonContent {
    match c
    case NoContent => NullContent
    case Text(text) => StrContent(text)
    case Blocks(blocks) => ListContent(EncodeBlocks(blocks))
  }

  /** `{**message, "timestamp": stamp}`. */
  function Encode(d: Dated): Row {
    var m := d.message;
    Row(Str(RoleText(m.role)), EncodeContent(m.content),
        if m.calls == [] then NoCalls else ListCalls(EncodeCalls(m.calls)),
        if m.role == Tool then Str(m.callId.text) else Absent,
        if m.role == Tool && m.name != "" then Str(m.name) else Absent,
        Some(d.stamp))
  }

  // ----- reading -----

  function DecodeBlocks(items: seq<Item>): Option<seq<Block>> {
    if exists i :: 0 <= i < |items| && items[i].NotObject? then None
    else Some(seq(|items|, i requires 0 <= i < |items| => if items[i].Object? then items[i].block else TextBlock("")))
  }

  /** System messages carry text, user messages text or blocks, assistants may carry nothing. */
  function DecodeContent(role: Role, c: JsonContent): Option<Content> {
    match c
    case StrContent(text) => Some(Text(text))
    case ListContent(items) =>
      if role == System || role == Tool then None
      else
        var blocks := DecodeBlocks(items);
        if blocks.None? then None else Some(Blocks(blocks.value))
    case OtherContent => None
    case _ => if role == Assistant then Some(NoContent) else None
  }

  predicate NonEmpty(s: Scalar) {
    s.Str? && s.text != ""
  }

  predicate ValidCall(c: JsonCall) {
    && c.CallObject? && NonEmpty(c.id)
    && c.callee.Function? && NonEmpty(c.callee.name) && c.callee.arguments.Str?
  }

  function DecodeCalls(items: seq<JsonCall>): seq<Call> {
    if items == [] then []
    else
      var front, last := DecodeCalls(items[..|items| - 1]), items[|items| - 1];
      if ValidCall(last) then front + [Call(CallId(last.id.text), last.callee.name.text, last.callee.arguments.text)]
      else front
  }

  function DecodeRole(s: Scalar): Option<Role> {
    if s == Str("system") then Some(System)
    else if s == Str("user") then Some(User)
    else if s == Str("assistant") then Some(Assistant)
    else if s == Str("tool") then Some(Tool)
    else None
  }

  function DecodeMessage(row: Row): Option<Message> {
    var role := DecodeRole(row.role);
    if role.None? then None
    else
      var content := DecodeContent(role.value, row.content);
      if content.None? then None
      else
        match role.value
        case Assistant =>
          if row.calls.OtherCalls? then None
          else
            var calls := if row.calls.ListCalls? then DecodeCalls(row.calls.items) else [];
            if Empty(content.value) && calls == [] then None
            else Some(Message(Assistant, content.value, calls, NO_CALL, ""))
        case Tool =>
          if !NonEmpty(row.callId) then None
          else
            Some(Message(Tool, content.value, [], CallId(row.callId.text), if row.name.Str? then row.name.text else ""))
        case _ => Some(Plain(role.value, content.value))
  }

  function Decode(row: Row): Option<Dated> {
    var m := DecodeMessage(row);
    if m.None? then None else Some(Dated(m.value, if row.stamp.Some? then row.stamp.value else NO_STAMP))
  }

  /** `_sanitize_loaded_messages`. */
  function Sanitize(rows: seq<Row>): seq<Dated> {
    if rows == [] then []
    else
      var front, d := Sanitize(rows[..|rows| - 1]), Decode(rows[|rows| - 1]);
      if d.Some? then front + [d.value] else front
  }

  method SanitizeLoadedMessages(rows: seq<Row>) returns (sanitized: seq<Dated>)
    ensures sanitized == Sanitize(rows)
  {
    sanitized := [];
    for n := 0 to |rows|
      invariant sanitized == Sanitize(rows[..n])
    {
      assert rows[..n + 1][..n] == rows[..n];
      var clean := Decode(rows[n]);
      if clean.None? {
        continue;
      }
      sanitized := sanitized + [clean.value];
    }
    assert rows[..|rows|] == rows;
  }

  /** Which rows are read: the role is known, the content fits the role, an assistant has content or a
      valid call, and a tool message names its call. */
  lemma DecodableExactly(row: Row)
    ensures Decode(row).Some? <==>
            var blocks := && row.content.ListContent?
                          && forall i :: 0 <= i < |row.content.items| ==> row.content.items[i].Object?;
            || (row.role == Str("system") && row.content.StrContent?)
            || (row.role == Str("user") && (row.content.StrContent? || blocks))
            || (row.role == Str("tool") && row.content.StrContent? && row.callId.Str? && row.callId.text != "")
            || (&& row.role == Str("assistant") && !row.calls.OtherCalls?
                && (row.content.StrContent? || row.content.NoField? || row.content.NullContent? || blocks)
                && (|| (row.content.StrContent? && row.content.text != "")
                    || (row.content.ListContent? && row.content.items != [])
                    || (row.calls.ListCalls? && exists c :: c in row.calls.items && ValidCall(c))))
  {
    RolesDiffer();
    if row.calls.ListCalls? {
      AnyCall(row.calls.items);
    }
  }

  lemma RolesDiffer()
    ensures "system" != "user" && "system" != "assistant" && "system" != "tool"
    ensures "user" != "assistant" && "user" != "tool" && "assistant" != "tool"
  {
    assert |"system"| == 6 && |"user"| == 4 && |"assistant"| == 9 && |"tool"| == 4;
    assert "tool"[0] != "user"[0];
  }

  lemma {:induction false} AnyCall(items: seq<JsonCall>)
    ensures DecodeCalls(items) != [] <==> exists c :: c in items && ValidCall(c)
  {
    if items != [] {
      AnyCall(items[..|items| - 1]);
      assert items == items[..|items| - 1] + [items[|items| - 1]];
    }
  }

  /** Of the calls of a row the valid ones are read, in order. */
  lemma {:induction false} DecodedCallsAre(items: seq<JsonCall>, valid: JsonCall -> bool)
    requires forall c :: valid(c) <==> ValidCall(c)
    ensures var kept := Select(items, valid);
            && |DecodeCalls(items)| == |kept|
            && forall k :: 0 <= k < |kept| ==> ValidCall(kept[k]) && kept[k] == EncodeCall(DecodeCalls(items)[k])
  {
    if items != [] {
      DecodedCallsAre(items[..|items| - 1], valid);
    }
  }

  // ----- the messages that survive -----

  /** The messages the program builds itself. */
  predicate Canonical(m: Message) {
    match m.role
    case System => m == Plain(System, m.content) && m.content.Text?
    case User => m == Plain(User, m.content) && !m.content.NoContent?
    case Assistant =>
      && m.callId == NO_CALL && m.name == ""
      && (forall c :: c in m.calls ==> c.id != NO_CALL && c.name != "")
      && !Hollow(m)
    case Tool => m.content.Text? && m.calls == [] && m.callId != NO_CALL
  }

  function Encoded(ds: seq<Dated>): (rows: seq<Row>)
    ensures |rows| == |ds| && forall i :: 0 <= i < |ds| ==> rows[i] == Encode(ds[i])
  {
    seq(|ds|, i requires 0 <= i < |ds| => Encode(ds[i]))
  }

  lemma {:induction false} DecodeCallsInverts(calls: seq<Call>)
    requires forall c :: c in calls ==> c.id != NO_CALL && c.name != ""
    ensures DecodeCalls(EncodeCalls(calls)) == calls
    ensures calls != [] ==> EncodeCalls(calls) != []
  {
    if calls != [] {
      var front, last := calls[..|calls| - 1], calls[|calls| - 1];
      assert calls == front + [last];
      DecodeCallsInverts(front);
      assert last.id.text != "" by {
        assert last.id == CallId(last.id.text);
      }
      assert (EncodeCalls(front) + [EncodeCall(last)])[..|EncodeCalls(front)|] == EncodeCalls(front);
    }
  }

  lemma DecodeContentInverts(role: Role, c: Content)
    requires c.NoContent? ==> role == Assistant
    requires c.Blocks? ==> role == User || role == Assistant
    ensures DecodeContent(role, EncodeContent(c)) == Some(c)
  {
    if c.Blocks? {
      assert DecodeBlocks(EncodeBlocks(c.blocks)).value == c.blocks;
    }
  }

  lemma DecodeRoleInverts(role: Role)
    ensures DecodeRole(Str(RoleText(role))) == Some(role)
  {
    assert |"system"| == 6 && |"user"| == 4 && |"assistant"| == 9 && |"tool"| == 4;
    assert "tool"[0] != "user"[0];
  }

  /** What a message the program built looks like after a round trip through the journal. */
  lemma DecodeInverts(d: Dated)
    requires Canonical(d.message)
    ensures Decode(Encode(d)) == Some(d)
  {
    var m := d.message;
    DecodeRoleInverts(m.role);
    DecodeContentInverts(m.role, m.content);
    if m.role == Assistant {
      DecodeCallsInverts(m.calls);
    }
    if m.role == Tool {
      assert m.callId == CallId(m.callId.text);
    }
  }

  lemma {:induction false} DecodedCallsAreValid(items: seq<JsonCall>)
    ensures forall c :: c in DecodeCalls(items) ==> c.id != NO_CALL && c.name != ""
  {
    if items != [] {
      DecodedCallsAreValid(items[..|items| - 1]);
    }
  }

  /** Whatever the rows were, what is read is canonical. */
  lemma DecodedIsCanonical(row: Row)
    requires Decode(row).Some?
    ensures Canonical(Decode(row).value.message)
  {
    if row.calls.ListCalls? {
      DecodedCallsAreValid(row.calls.items);
    }
  }

  ghost predicate AllCanonical(ds: seq<Dated>) {
    forall d :: d in ds ==> Canonical(d.message)
  }

  lemma {:induction false} SanitizedIsCanonical(rows: seq<Row>)
    ensures AllCanonical(Sanitize(rows))
  {
    if rows != [] {
      SanitizedIsCanonical(rows[..|rows| - 1]);
      if Decode(rows[|rows| - 1]).Some? {
        DecodedIsCanonical(rows[|rows| - 1]);
      }
    }
  }

  lemma {:induction false} SanitizeInverts(ds: seq<Dated>)
    requires AllCanonical(ds)
    ensures Sanitize(Encoded(ds)) == ds
  {
    if ds != [] {
      var front, last := ds[..|ds| - 1], ds[|ds| - 1];
      assert ds == front + [last];
      SanitizeInverts(front);
      DecodeInverts(last);
      assert Encoded(ds)[..|ds| - 1] == Encoded(front);
    }
  }

  /** Exactly the rows of canonical messages are read back as they were written. */
  lemma ReadBackExactly(ds: seq<Dated>)
    ensures Sanitize(Encoded(ds)) == ds <==> AllCanonical(ds)
  {
    SanitizedIsCanonical(Encoded(ds));
    if AllCanonical(ds) {
      SanitizeInverts(ds);
    }
  }
}
