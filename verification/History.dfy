/** The message list of a conversation, with two queues of user input that enter it only where
    no tool exchange is under way. */
module History {
  import opened Filters
  import opened Protocol

  function UserText(text: string): Message {
    Plain(User, Text(text))
  }

  function Context(text: string): Message {
    Plain(System, Text(text))
  }

  function Digits(n: nat): string {
    if n < 10 then ['0' + n as char] else Digits(n / 10) + ['0' + (n % 10) as char]
  }

  /** Instruction n with its number, and a blank line before all but the first. */
  function Numbered(n: nat, text: string): string {
    (if n == 1 then "" else "\n\n") + "[追加指令 " + Digits(n) + "]\n" + text
  }

  /** Several queued instructions become one numbered text. */
  function Combined(pending: seq<string>): string {
    if pending == [] then ""
    else Combined(pending[..|pending| - 1]) + Numbered(|pending|, pending[|pending| - 1])
  }

  /** The number that decimal digits denote. */
  function Number(digits: string): int {
    if digits == "" then 0
    else 10 * Number(digits[..|digits| - 1]) + (digits[|digits| - 1] as int - '0' as int)
  }

  lemma {:induction false} DigitsDenote(n: nat)
    ensures Number(Digits(n)) == n && Digits(n) != ""
    ensures forall c :: c in Digits(n) ==> '0' <= c <= '9'
  {
    if n < 10 {
      assert Digits(n)[..0] == "";
    } else {
      DigitsDenote(n / 10);
      var front := Digits(n / 10);
      assert Digits(n)[..|front|] == front;
    }
  }

  /** A numbered instruction ends with its text, in full. */
  lemma NumberedEnds(n: nat, text: string)
    ensures |text| < |Numbered(n, text)| && Numbered(n, text)[|Numbered(n, text)| - |text|..] == text
  {
    var head := (if n == 1 then "" else "\n\n") + "[追加指令 " + Digits(n) + "]\n";
    assert Numbered(n, text) == head + text;
  }

  /** Instruction n stands behind the ones before it, under its number. */
  lemma {:induction false} CombinedHolds(pending: seq<string>, n: nat)
    requires n < |pending|
    ensures Combined(pending[..n]) + Numbered(n + 1, pending[n]) <= Combined(pending)
    decreases |pending|
  {
    var front := pending[..|pending| - 1];
    if n < |front| {
      CombinedHolds(front, n);
      assert front[..n] == pending[..n];
    }
  }

  function SteeringMessages(pending: seq<string>): seq<Message> {
    if pending == [] then []
    else if |pending| == 1 then [UserText(pending[0])]
    else [UserText(Combined(pending))]
  }

  function UserTexts(texts: seq<string>): (ms: seq<Message>)
    ensures |ms| == |texts| && forall i :: 0 <= i < |texts| ==> ms[i] == UserText(texts[i])
  {
    seq(|texts|, i requires 0 <= i < |texts| => UserText(texts[i]))
  }

  /** Each text becomes a user message of its own, in full. */
  lemma UserTextsAre(texts: seq<string>, i: nat)
    requires i < |texts|
    ensures |UserTexts(texts)| == |texts| && UserTexts(texts)[i] == Message(User, Text(texts[i]), [], NO_CALL, "")
  {
  }

  /** Queued steering becomes one user message: its text if there is one, else all of them in turn,
      each under its number. */
  lemma SteeringCarries(pending: seq<string>)
    ensures pending == [] ==> SteeringMessages(pending) == []
    ensures pending != [] ==>
              && |SteeringMessages(pending)| == 1
              && var m := SteeringMessages(pending)[0];
                 && m.role == User && m.content.Text?
                 && (|pending| == 1 ==> m.content.text == pending[0])
                 && (|pending| > 1 ==> forall n :: 0 <= n < |pending| ==> HoldsInstruction(m.content.text, pending, n))
  {
    if |pending| > 1 {
      forall n | 0 <= n < |pending| ensures HoldsInstruction(Combined(pending), pending, n) {
        CombinedHolds(pending, n);
        DigitsDenote(n + 1);
        NumberedEnds(n + 1, pending[n]);
      }
    }
  }

  /** Instruction n follows the ones before it, and ends with its text. */
  ghost predicate HoldsInstruction(text: string, pending: seq<string>, n: nat)
    requires n < |pending|
  {
    var part := Numbered(n + 1, pending[n]);
    && Combined(pending[..n]) + part <= text
    && Number(Digits(n + 1)) == n + 1
    && |pending[n]| <= |part| && part[|part| - |pending[n]|..] == pending[n]
  }

  predicate Sendable(m: Message) {
    !Hollow(m)
  }

  class ConversationHistory {
    var messages: seq<Message>
    var deferred: seq<string>
    var steering: seq<string>

    /** Queued texts are never empty. */
    ghost predicate Valid()
      reads this
    {
      "" !in deferred && "" !in steering
    }

    constructor ()
      ensures Valid() && messages == [] && deferred == [] && steering == []
    {
      messages, deferred, steering := [], [], [];
    }

    /** Text or a list of blocks. */
    method AddUserMessage(content: Content)
      modifies this`messages
      ensures messages == old(messages)
                          + (if content == NoContent || content == Text("") || content == Blocks([]) then []
                             else [Message(User, content, [], NO_CALL, "")])
    {
      if Empty(content) {
        return;
      }
      messages := messages + [Plain(User, content)];
    }

    method DeferUserMessage(text: string)
      requires Valid()
      modifies this`deferred
      ensures Valid() && deferred == old(deferred) + (if text == "" then [] else [text])
    {
      if text != "" {
        deferred := deferred + [text];
      }
    }

    method QueueSteeringMessage(text: string)
      requires Valid()
      modifies this`steering
      ensures Valid() && steering == old(steering) + (if text == "" then [] else [text])
    {
      if text != "" {
        steering := steering + [text];
      }
    }

    /** Queued steering enters the history as one message; deferred context stays queued. */
    method FlushSteering() returns (count: nat)
      requires Valid()
      modifies this`messages, this`steering
      ensures Valid() && steering == []
      ensures count == |old(steering)| && messages == old(messages) + SteeringMessages(old(steering))
    {
      var pending := steering;
      steering := [];
      if |pending| == 1 {
        AddUserMessage(Text(pending[0]));
      } else if pending != [] {
        AddUserMessage(Text(Combined(pending)));
      }
      count := |pending|;
    }

    /** Both queues enter the history, one message each, deferred context first. */
    method FlushDeferred() returns (count: nat)
      requires Valid()
      modifies this
      ensures Valid() && deferred == [] && steering == []
      ensures count == |old(deferred)| + |old(steering)|
      ensures messages == old(messages) + UserTexts(old(deferred) + old(steering))
    {
      var pending := deferred + steering;
      deferred, steering := [], [];
      for n := 0 to |pending|
        invariant deferred == [] && steering == []
        invariant messages == old(messages) + UserTexts(pending)[..n]
      {
        assert pending[n] != "";
        AddUserMessage(Text(pending[n]));
      }
      count := |pending|;
    }

    method AddAssistantMessage(text: string)
      modifies this`messages
      ensures messages == old(messages) + (if text == "" then []
                                           else [Message(Assistant, Text(text), [], NO_CALL, "")])
    {
      if text != "" {
        messages := messages + [Plain(Assistant, Text(text))];
      }
    }

    method AddRawMessage(message: Message)
      modifies this`messages
      ensures messages == old(messages) + (if Hollow(message) then [] else [message])
    {
      if Hollow(message) {
        return;
      }
      messages := messages + [message];
    }

    method AddContextMessage(text: string)
      modifies this`messages
      ensures messages == old(messages) + [Message(System, Text(text), [], NO_CALL, "")]
    {
      messages := messages + [Context(text)];
    }

    method ReplaceMessages(replacement: seq<Message>)
      modifies this`messages
      ensures messages == replacement
    {
      messages := replacement;
    }

    /** The messages as they are sent: in order, without hollow ones. */
    method GetMessages() returns (result: seq<Message>)
      ensures result == Select(messages, Sendable)
    {
      result := [];
      for n := 0 to |messages|
        invariant result == Select(messages[..n], Sendable)
      {
        assert messages[..n + 1][..n] == messages[..n];
        if !Hollow(messages[n]) {
          result := result + [messages[n]];
        }
      }
      assert messages[..|messages|] == messages;
    }
  }
}
