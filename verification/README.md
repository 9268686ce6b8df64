# A verified model of the TinyCode agent runtime

TinyCode drives a language model in a loop: the model answers or calls tools, the results go back
into the conversation, and the conversation, its plans and its tool log survive crashes.  This
project models five parts of it in Dafny 4.11 and proves what they promise.

* **The tool-call protocol.**  A provider accepts a conversation only if every tool call has a
  result and every result answers a call.  `Protocol` defines the open calls of a history once;
  the agent's tool round (`Batches`, `ToolRound`, `AgentTurn`), the repair of a failed turn
  (`TurnRepair`), rolling compression (`Summarizer`), session recovery (`SessionRepair`), turns that
  start on a loaded session (`ResumedTurn`) and the fork snapshot (`Fork`) are each proved against it.
* **Two dependency schedulers.**  The team lead hands tasks to idle members until nothing is left
  (`TeamTasks`, `TeamSchedule`, `TeamLead`); the durable plan starts nodes as dependencies complete
  and orders writers of overlapping paths (`PlanScopes`, `PlanGraph`, `PlanRun`, `PlanExclusion`,
  `PlanNodes`, `PlanProgress`).
* **Durability.**  `JournalFile` models an append-only file with torn appends.  On it rest the
  session journal (`SessionRows`, `SessionStamps`, `TimeGaps`, `SessionStore`) and the tool
  write-ahead log (`ToolWal`, `RecoveryStore`).
* **Streaming and budgets.**  The DeepSeek marker splitter, the greedy tool-result truncator and
  the JPEG size scanner (`DsmlSplitter`, `Truncator`, `JpegScanner`).
* **The round budget** of one turn (`RoundBudget`, and `AgentTurn` for whole turns).

Objects whose methods change fields are classes; loops are methods with invariants.  Each is tied
to a function or a state machine on values, and the properties are proved about that.  What the
environment decides (the model's reply, which member ends first and how, where a crash or a torn
write happens, what users queue) is a parameter, and every theorem holds for all of them.

## What the proofs found

Promises that hold under a condition.  Each comes with the exact condition and with a lemma giving
an input that breaks it:

* A session repair ends with every call answered exactly if no kept user message repeats a result and,
  on the messages it keeps, nothing is open, or only results follow the first unpaired message, or no
  call open before that message is answered or made again behind it (`RepairPairsExactly`); exactly then
  a second repair changes nothing (`IdempotentExactly`).  Distinct ids and timely results suffice
  (`RepairCloses`).  Inputs: `ReusedIdStaysOpen`, `LateResultStaysOpen`, `RepeatedResultFails`, the
  last with an unhandled `KeyError`.
* The repair of a failed turn completes the interrupted batch exactly if its calls were made at the
  turn's start index or later (`RepairClosesExactly`, `RaisedBatchIsRepairedExactly`, and `Run` for
  whole turns).  The index counts messages before a compression; when the history is compressed in
  the same turn the calls can stand before it, and then stay open (`CompressedTurnEndsOpen`).  No repair
  runs when the consumer of the events closes the stream: exactly the unanswered calls stay open (`Run`).
* A turn is cancelled between two writes exactly if the cancellation is seen before a write; the
  remaining writes stay open, and the next plain message keeps the history whole exactly if nothing
  is open (`CancelLeavesWrites`, `CancelBreaksNextTurn`).
* A loaded session starts with whole batches exactly if no result comes directly after a pause of more
  than thirty minutes: the reminder of the pause is put between the call and its result
  (`LoadedTurnExactly`, `SavedTurnResumesExactly`; `LongToolRunSplitsBatch`).
* Behind a line without a final newline the next append joins that line, and the first new row cannot
  be read again (`AppendReads`; `TornTailLosesMessage`).
* The tool log shows the started writes without a readable result, and those that may start next, at
  every point of a run exactly if no intent that is not yet visible is written behind a torn line and no
  readable result of one execution bears the call id of another one at risk (`RunsShowExactly`;
  `TornLineHidesNextWrite`, `ReusedIdResolvesOlderWrite`).
* A fork snapshot's stripped history has neither open calls nor orphan results exactly if the parent has
  no orphan and no call it leaves open was ever answered (`StripPairsExactly`; `ReusedIdOrphansResult`).
* Plan events keep dependencies complete below started nodes exactly if none of them completes a
  node early, which `update_task` accepts (`StepOrdered`, `RunIsOrderedExactly`).  A valid plan keeps
  overlapping writers apart in every run exactly if any two of them are linked by a direct
  dependency; validation asks only for a transitive one (`EveryRunIsExclusiveExactly`;
  `PrematureCompletionBreaksExclusion`, `UnlinkedWritersMeet`).
* A valid plan can be completed in order exactly if it has no dependency cycle (`CompletableExactly`).
  Validation accepts cycles, which never start (`CyclicPlanNeverStarts`); only the parser of the model's
  nodes excludes them, and then the plan always moves on (`BackwardPlanCompletes`).
* Memory and journal of a session agree after every operation exactly if each write was whole or left
  nothing, each first save under a chosen name found a journal that fits, and each load found one that
  needs no repair (`RunAgrees`, `SaveTriedExactly`, `LoadAgreesExactly`).  Once they have come apart, the
  next save restores agreement when it rewrites the journal and as a rule not when it appends: after an
  append that failed half-way the retry writes messages twice (`SaveRestoresExactly`,
  `RetriedAppendDuplicates`).  The boundary message of a compression never comes back, so the next save
  rewrites the journal without it (`ResaveExactly`, `BoundaryIsLost`).
* The JPEG scanner treats the TEM marker (FF 01) as the start of a length-prefixed segment, while
  section B.1.1.4 of ITU-T T.81 makes it stand alone.  A standard stream shorter than 65280 bytes is
  measured exactly if no TEM marker precedes the frame (`StandardMeasuredExactly`; `TemHidesSize`).
  The model follows the scanner.

## Model

| member | source | states |
|---|---|---|
| Protocol.OpenAppend | tinyCode/conversation/summarizer.py:436-479 | the open calls and the absence of orphan results of a history compose from those of its parts |
| Protocol.CutWhereClosed | tinyCode/conversation/summarizer.py:482-508 | cutting a history where nothing is open changes neither its open calls nor which results are orphans |
| Protocol.OpenIsCalled | tinyCode/conversation/summarizer.py:436-458 | only calls that were made can be open |
| History.ConversationHistory.AddUserMessage | tinyCode/conversation/history.py:33-36 | appends one user message with the given text or blocks, nothing for empty content |
| History.ConversationHistory.DeferUserMessage | tinyCode/conversation/history.py:38-41 | queues a non-empty text without touching the messages |
| History.ConversationHistory.QueueSteeringMessage | tinyCode/conversation/history.py:48-51 | queues non-empty steering apart from deferred context |
| History.ConversationHistory.FlushSteering | tinyCode/conversation/history.py:72-84 | the queued steering enters as one message and is gone from the queue; deferred context stays queued |
| History.SteeringCarries | tinyCode/conversation/history.py:72-84 | a single queued instruction is sent as it is; of several each stands in full, under its number, behind the ones before it |
| History.ConversationHistory.FlushDeferred | tinyCode/conversation/history.py:86-92 | both queues enter in order, one message each, and are empty afterwards |
| History.UserTextsAre | tinyCode/conversation/history.py:86-92 | each text is the content of a user message of its own |
| History.ConversationHistory.AddRawMessage | tinyCode/conversation/history.py:99-105 | stores every message except an assistant message without content and calls |
| History.ConversationHistory.GetMessages | tinyCode/conversation/history.py:121-131 | the messages in order without hollow assistant messages |
| Batches.BatchedIsOpen | tinyCode/agent/loop.py:866-1014 | a history of whole batches is paired, and the calls still waiting are exactly its open ones |
| Batches.CallsMessageOpens | tinyCode/providers/openai.py:229-246 | in either protocol form the assistant message opens exactly the ids of its calls |
| Batches.ResultMessageCloses | tinyCode/providers/anthropic.py:319-331 | in either protocol form a result message answers one call, makes none and carries nothing else |
| Batches.BatchCarries | tinyCode/providers/openai.py:229-256 | in either protocol form the calls message carries its text and every call with its name and arguments, and the k-th message behind it the text of the k-th answer under the id of that call |
| Batches.ResultsClose | tinyCode/agent/loop.py:2122-2128 | results of distinct waiting calls close them one by one and leave the others waiting |
| Batches.CarriedResultsClose | tinyCode/storage/sessions.py:565-586 | messages that carry only results, one or several each, keep the batch whole and close what they answer |
| Batches.BatchStartIs | tinyCode/agent/loop.py:866-1011 | a waiting batch began at one message, before which all is whole and behind which there are only results |
| Batches.OrderPermutes | tinyCode/agent/loop.py:876-1011 | answering refused reads, then reads, then writes loses no call and repeats none |
| ToolRound.PartitionTools | tinyCode/agent/loop.py:1785-1796 | reads and writes are split by category and keep their call order |
| ToolRound.AnswerReads | tinyCode/agent/loop.py:880-942 | refused reads are answered first, the other reads after all of them were checked; an exception comes about exactly if fewer results than reads precede it, and leaves just those |
| ToolRound.AnswerWrites | tinyCode/agent/loop.py:944-1011 | writes are answered one after the other; the loop is cancelled exactly if the cancellation is seen before a write, raised exactly if the exception comes no later than the last result, and answers just what precedes that |
| ToolRound.ExecuteBatch | tinyCode/agent/loop.py:866-1011 | the history grows by the calls message, with every name and argument, and one result per answered call in execution order, with the text of its answer; how the batch ends and which calls are answered is fixed by the interruption |
| ToolRound.BatchLeavesOpen | tinyCode/agent/loop.py:866-1011 | exactly the unanswered calls are open behind a batch, none exactly if all were answered, and the waiting batch began right behind the old history |
| ToolRound.CancelLeavesWrites | tinyCode/agent/loop.py:945-952 | a cancelled batch leaves exactly the writes from the stop on open, and at least one |
| TurnRepair.PendingIsOpen | tinyCode/agent/loop.py:1842-1869 | the scan of the repair finds exactly the open calls of the scanned part |
| TurnRepair.RepairUnpairedToolCalls | tinyCode/agent/loop.py:1836-1882 | appends one recovery result per pending call since the start index, in table order |
| TurnRepair.RepairSubtracts | tinyCode/agent/loop.py:1836-1882 | the repair closes exactly the calls left open since the start index |
| TurnRepair.RepairSays | tinyCode/agent/loop.py:1836-1882 | each appended message says that the state is unknown, under the id of an open call and the name it was last called by |
| TurnRepair.RepairClosesExactly | tinyCode/agent/loop.py:1836-1882 | after any interruption the repair leaves whole batches if and only if no call was waiting or the waiting batch began at the start index or later; otherwise every waiting call stays open |
| TurnRepair.FreshTurnIsRepaired | tinyCode/agent/loop.py:395-418 | in particular a turn that began with no open call and an unshortened history ends well-batched after the repair |
| TurnRepair.RepairIsIdempotent | tinyCode/agent/loop.py:1836-1882 | repairing twice adds nothing |
| TurnRepair.ShrunkHistoryIsNotRepaired | tinyCode/agent/loop.py:1843 | a history shorter than the start index is left as it is |
| TurnRepair.CompressionKeepsBatches | tinyCode/conversation/summarizer.py:187-288 | compressing a history splits no batch and leaves the same calls waiting |
| RoundBudget.RaisedTo | tinyCode/agent/loop.py:1131-1134 | the soft limit becomes what is requested, but is never lowered and never above the hard limit |
| RoundBudget.SettleAnswer | tinyCode/agent/loop.py:803-864 | an answer ends the turn unless new input arrived below the hard limit; then the next round is inside the budget |
| RoundBudget.SettleTools | tinyCode/agent/loop.py:1013-1210 | after a tool round: when the turn ends and why, and otherwise the exact new limit, inside which the next round lies |
| RoundBudget.ToolsEndExactly | tinyCode/agent/loop.py:1013-1210 | new input ends no turn below the hard limit; without it a stall that must not or shall not be overcome does, and the soft limit unless it is extended |
| RoundBudget.StallRoundsAre | tinyCode/agent/loop.py:1092-1134 | how many rounds a stall that is overcome is given |
| AgentTurn.AgentLoop.ApplyBackground | tinyCode/agent/loop.py:1273-1298 | every non-blank report becomes one context message, in order |
| AgentTurn.ContextsAre | tinyCode/agent/loop.py:1273-1298 | a report is left out exactly if stripping leaves nothing of it; the others become system messages in order |
| AgentTurn.AgentLoop.ApplyPending | tinyCode/agent/loop.py:1013-1015 | at a safe point the reports and the queued steering enter the history, all of it plain, and deferred texts stay queued |
| AgentTurn.AgentLoop.PrepareRequest | tinyCode/agent/loop.py:471-588 | injections are appended and then the request history may be compressed; both keep whole batches, and without a compression of the shared history that only grows |
| AgentTurn.PreparedIs | tinyCode/agent/loop.py:471-588 | injected texts become system messages behind the history, and then the whole of it may be compressed |
| AgentTurn.AgentLoop.Send | tinyCode/agent/context.py:42-112 | a request is the pinned texts as user messages, then the history verbatim and in order, then the text of a hook if there is one; it keeps every batch whole |
| AgentTurn.AgentLoop.CheckCalls | tinyCode/agent/loop.py:686-754 | a response is executed exactly if tools are enabled, its ids are non-empty and distinct, its names are non-empty, and it has at most 128 calls |
| AgentTurn.AgentLoop.AnswerRound | tinyCode/agent/loop.py:803-864 | an answer, empty or not, keeps both histories whole and either ends the turn with one terminal event or starts a round inside the budget |
| AgentTurn.AgentLoop.RunBatch | tinyCode/agent/loop.py:866-1011 | the history grows by the batch; how it ends and which calls wait, and since where, is fixed by the interruption |
| AgentTurn.AgentLoop.SettleRound | tinyCode/agent/loop.py:1013-1210 | after a complete batch new input and the budget decide between the next round and one terminal event |
| AgentTurn.AgentLoop.OpenRound | tinyCode/agent/loop.py:446-656 | a round begins with its start event and exactly one request, or ends before it: cancelled, failed, or by an exception, which may come between the start event and the request |
| AgentTurn.AgentLoop.ToolsRound | tinyCode/agent/loop.py:866-1210 | a tool round ends cancelled with the remaining writes open, raised with the unanswered calls open, or whole, exactly as the interruption says |
| AgentTurn.AgentLoop.HandleReply | tinyCode/agent/loop.py:645-802 | an accepted reply enters the history, as an answer or as a batch; any other reply, also one without text parts and calls, ends the turn and leaves the history alone |
| AgentTurn.AgentLoop.Round | tinyCode/agent/loop.py:446-1210 | each round sends nothing, or the one request made of the prepared history, and keeps histories, budget and events as the contract says |
| AgentTurn.AgentLoop.RunRounds | tinyCode/agent/loop.py:423-1210 | the loop ends within the hard limit and never leaves without a terminal event or an exception; request k holds the history of round k |
| AgentTurn.KthRequest | tinyCode/agent/loop.py:446-656 | every request of a turn holds the pinned texts, the history and the hook text of its round |
| AgentTurn.ChainHolds | tinyCode/agent/loop.py:446-1210 | the histories that a turn sends, as long as nothing is compressed, each hold what the turn began with and all of the earlier ones |
| AgentTurn.AgentLoop.IsolateRequest | tinyCode/agent/loop.py:1212-1237 | a turn without tools sees the trailing user messages alone, and these contain no result |
| AgentTurn.TrailingUsersAre | tinyCode/agent/loop.py:1212-1237 | these are all messages behind the last one of another role, as far as they have text |
| AgentTurn.AgentLoop.Run | tinyCode/agent/loop.py:380-421 | for every environment: each request has whole batches only and holds the history of its round, which extends the earlier ones where nothing was compressed; one terminal event, at the end, unless the run is aborted from outside or its event stream is closed; the history ends well-batched after a terminal event other than a cancellation between writes, and after an exception if and only if no call was left, or the stream was not closed and the interrupted batch began no earlier than the turn, as it always does when the history was not compressed; otherwise exactly the calls left stay open |
| AgentTurn.RaisedBatchIsRepairedExactly | tinyCode/agent/loop.py:395-418 | a batch interrupted by an exception is completed by the repair if and only if all calls were answered or it began at the start index or later |
| AgentTurn.CompressedTurnEndsOpen | tinyCode/agent/loop.py:380-421 | a turn that is compressed and then raises inside a batch keeps an open call |
| AgentTurn.CancelBreaksNextTurn | tinyCode/agent/loop.py:946-952 | the next plain message keeps whole batches if and only if no call is open; after a cancellation between writes it makes the history invalid |
| Summarizer.FindSafeSplit | tinyCode/conversation/summarizer.py:482-508 | finds the last split at or below the wanted one that breaks neither the summary pair nor an exchange, or 0 |
| Summarizer.LastSafe | tinyCode/conversation/summarizer.py:482-508 | the result is safe and no later candidate is |
| Summarizer.FirstImage | tinyCode/conversation/summarizer.py:511-523 | the first message with an image, or none |
| Summarizer.AttemptExactly | tinyCode/conversation/summarizer.py:187-288 | a history is compressed exactly if the summary came, there is something new, and a safe place lies before every image and far enough from the end; then at the last such place |
| Summarizer.RecentSurvive | tinyCode/conversation/summarizer.py:201-204 | the last messages, half of them but one at least and four at most, survive every compression verbatim |
| Summarizer.StructuredSummarizer.Summarize | tinyCode/conversation/summarizer.py:187-288 | the new history, the outcome and the failure count of one compression; the breaker opens at the failure limit |
| Summarizer.CompressRolls | tinyCode/conversation/summarizer.py:187-288 | compressing a rolled history gives one summary pair followed by a verbatim suffix of the transcript that starts no earlier than before |
| Summarizer.RunRolls | tinyCode/conversation/summarizer.py:187-288 | after any compressions and appends: one pair at the head, then a verbatim suffix that starts a turn, with no image before the cut |
| Summarizer.RollingIsSound | tinyCode/conversation/summarizer.py:187-288 | rolling compression keeps the open calls, adds no orphan result and keeps every image message |
| SessionRepair.TruncateUnpaired | tinyCode/storage/sessions.py:487-587 | the repair loop computes the repair on values, including its failure |
| SessionRepair.ScanIsFilter | tinyCode/storage/sessions.py:497-550 | the scan keeps exactly the messages without orphan results, and fails exactly at a message that repeats an open result |
| SessionRepair.ScanKeeps | tinyCode/storage/sessions.py:490-550 | the table of open calls describes the kept messages exactly, which have no orphan result |
| SessionRepair.RecoveriesClose | tinyCode/storage/sessions.py:565-586 | the synthetic results answer every open call exactly once |
| SessionRepair.RecoveriesSay | tinyCode/storage/sessions.py:565-586 | each synthetic result says that the state is unknown, in the form of the call it answers and, as a tool message, under its name |
| SessionRepair.RecoveriesInOrder | tinyCode/storage/sessions.py:565-586 | they come in the order of the table |
| SessionRepair.RepairShape | tinyCode/storage/sessions.py:552-587 | the output has no orphan result and is a prefix of what was kept, or all of it with the synthetic results |
| SessionRepair.RepairPairsExactly | tinyCode/storage/sessions.py:487-587 | the repaired history is paired if and only if the repair does not fail and, on the kept messages, nothing is open, or only results follow the first unpaired message, or no call open before it is touched behind it |
| SessionRepair.RepairCloses | tinyCode/storage/sessions.py:487-587 | with distinct ids, timely results and no repeated result the repaired history is paired |
| SessionRepair.FixedPoints | tinyCode/storage/sessions.py:487-587 | a history is returned unchanged if and only if it is paired and no user message repeats a result |
| SessionRepair.IdempotentExactly | tinyCode/storage/sessions.py:487-587 | a second repair changes nothing if and only if the first one ended paired |
| SessionRepair.RepairIsIdempotent | tinyCode/storage/sessions.py:487-587 | under the conditions of RepairCloses a second repair changes nothing |
| SessionRepair.ReusedIdStaysOpen | tinyCode/storage/sessions.py:552-563 | a reused id: the output keeps an open call |
| SessionRepair.LateResultStaysOpen | tinyCode/storage/sessions.py:552-563 | a late result: the output keeps an open call |
| SessionRepair.RepeatedResultFails | tinyCode/storage/sessions.py:539-546 | a repeated result: the repair fails |
| Fork.UnpairedToolCallIds | tinyCode/subagent/runner.py:517-556 | the worklist set is exactly the open calls |
| Fork.StripRemoves | tinyCode/subagent/runner.py:393-430 | removing any set of calls takes exactly them out of the open ones; no result is an orphan afterwards if and only if none was before and none answered a removed call |
| Fork.KeepsOthers | tinyCode/subagent/runner.py:400-425 | nothing but the calls is taken out of a message, and the rest stays in order |
| Fork.StripPairsExactly | tinyCode/subagent/runner.py:393-430 | after removing the unanswered calls nothing is open, and no result is an orphan if and only if the parent had no orphan and no call it leaves open was ever answered |
| Fork.TruncateForkPayloads | tinyCode/subagent/runner.py:466-508 | at most six shortening passes, stopping at the first that fits |
| Fork.PassesSame | tinyCode/subagent/runner.py:466-508 | shortening keeps the number of messages, their roles and all ids |
| Fork.PreviewIs | tinyCode/subagent/runner.py:500-508 | a text that is too long keeps its beginning and its end around a mark, together no longer than the limit |
| Fork.ShortStays | tinyCode/subagent/runner.py:470-498 | a message with nothing too long stays as it is |
| Fork.SearchSplits | tinyCode/subagent/runner.py:441-458 | skipping splits already looked at changes nothing: the first candidate that fits is found, or the first short one is the fallback |
| Fork.CompactForkMessages | tinyCode/subagent/runner.py:432-464 | each of the three exits: a history that fits is kept, else the first suffix that fits, else the fallback with exactly as many passes as needed, at most six |
| Fork.CutIsShort | tinyCode/subagent/runner.py:441-464 | the snapshot has at most 24 messages whenever some safe cut leaves so few |
| Fork.CutIsVerbatim | tinyCode/subagent/runner.py:432-458 | a history of at most 24 messages and 40000 characters is kept, and a suffix behind a safe split that fits is kept verbatim if there is one |
| Fork.CutIsCompaction | tinyCode/subagent/runner.py:432-464 | whichever exit is taken, the snapshot is the history from a safe cut on, possibly shortened |
| Fork.CompactedIsPaired | tinyCode/subagent/runner.py:432-464 | every compaction of a paired history is paired |
| Fork.CompactedExactly | tinyCode/subagent/runner.py:432-464 | a compaction of a history without open calls is paired if and only if the kept part has no orphan result |
| Fork.ForkHistory | tinyCode/subagent/runner.py:393-430 | the fork never has an unanswered call; it has no orphan result if the parent has none and no call left open was ever answered, for a history that fits exactly then |
| Fork.ReusedIdOrphansResult | tinyCode/subagent/runner.py:517-556 | with a reused id the fork keeps an orphan result, whatever the sizes |
| JournalFile.AppendReads | tinyCode/storage/journal.py:47-57 | appended rows are read back behind the old ones if the file ended with a newline; otherwise the first is lost |
| JournalFile.ReplaceReads | tinyCode/storage/journal.py:59-80 | a replaced journal reads back as the rows written |
| JournalFile.WrittenHoldsExactly | tinyCode/storage/journal.py:47-57 | after an append, whole or torn, the file holds given rows and ends cleanly if and only if these are the old rows and the new ones that survive |
| SessionRows.SanitizeLoadedMessages | tinyCode/storage/sessions.py:412-485 | the loop keeps exactly the decodable rows |
| SessionRows.DecodableExactly | tinyCode/storage/sessions.py:412-485 | which rows are decodable: known role, content that fits it, an assistant with content or a valid call, a tool message that names its call |
| SessionRows.DecodedCallsAre | tinyCode/storage/sessions.py:440-470 | of the calls of a row exactly the valid ones are read, in order |
| SessionRows.DecodeInverts | tinyCode/storage/sessions.py:412-485 | a canonical message is read back as it was written |
| SessionRows.SanitizedIsCanonical | tinyCode/storage/sessions.py:412-485 | whatever the rows were, what is read is canonical |
| SessionRows.ReadBackExactly | tinyCode/storage/sessions.py:412-485 | rows are read back unchanged if and only if all their messages are canonical |
| SessionStamps.TimestampsForRewrite | tinyCode/storage/sessions.py:630-642 | the queue loops compute one timestamp per message |
| SessionStamps.CounterpartsShareStamps | tinyCode/storage/sessions.py:630-642 | the k-th copy of a message gets the timestamp of its k-th old copy |
| SessionStamps.WithoutCounterpart | tinyCode/storage/sessions.py:630-642 | a message has no old counterpart if and only if the old copies have run out, and then gets the current time |
| SessionStamps.CounterpartsAreUnique | tinyCode/storage/sessions.py:630-642 | no old timestamp is used twice, and copies keep their order |
| SessionStamps.UnchangedKeepsStamps | tinyCode/storage/sessions.py:630-642 | rewriting unchanged messages changes no timestamp |
| TimeGaps.InsertTimeGaps | tinyCode/storage/sessions.py:589-616 | the loop inserts the reminders |
| TimeGaps.AfterPauseExactly | tinyCode/storage/sessions.py:600-612 | a pause is more than thirty minutes between a message and the last readable time |
| TimeGaps.ReminderExactlyAfterPause | tinyCode/storage/sessions.py:589-616 | a message is preceded by a reminder exactly if it comes more than 30 minutes after the last readable time |
| TimeGaps.RemindersVanish | tinyCode/storage/sessions.py:102-106 | filtering reminders out again gives back the session |
| TimeGaps.ShownExactly | tinyCode/storage/sessions.py:158-182 | of the system messages exactly those with one of the three markers are shown, of the others all but empty user texts and hollow assistant messages |
| TimeGaps.SavedExactly | tinyCode/storage/sessions.py:102-106 | all messages are written but reminders and hollow assistant messages |
| SessionStore.SessionStore.NewSession | tinyCode/storage/sessions.py:41-48 | a new session has an empty journal and empty lists |
| SessionStore.SessionStore.AppendMessage | tinyCode/storage/sessions.py:56-66 | file and lists grow by the same message and timestamp; a failed append changes at most the file and is reported |
| SessionStore.SessionStore.AppendMessages | tinyCode/storage/sessions.py:68-82 | file and lists grow by the same messages under one timestamp; a failed append changes at most the file and is reported |
| SessionStore.SessionStore.Save | tinyCode/storage/sessions.py:86-125 | appends the new part or rewrites, as the prefix test decides; a failed append changes at most the file, a failed rewrite nothing |
| SessionStore.SessionStore.Load | tinyCode/storage/sessions.py:129-193 | sanitising, repair, reminders and reconstruction in this order, with the persisted lists set to the repaired messages |
| SessionStore.AppendAgrees | tinyCode/storage/sessions.py:56-82 | appending keeps the journal equal to the persisted messages and timestamps |
| SessionStore.SaveTriedExactly | tinyCode/storage/sessions.py:86-125 | whichever branch a save takes, and whether its write succeeds or not, journal and memory agree afterwards if and only if the journal fits what was written; after a whole rewrite always |
| SessionStore.FitsExactly | tinyCode/storage/sessions.py:56-82 | where they agreed before, they agree after an append if and only if it was whole or left nothing in the file; else if and only if a torn line swallows the first new row while the same row stands behind those of memory |
| SessionStore.SaveRestoresExactly | tinyCode/storage/sessions.py:86-125 | once journal and memory differ, a save restores agreement if and only if it rewrites, or appends behind a torn line that swallows the row which memory lacks |
| SessionStore.RetriedAppendDuplicates | tinyCode/storage/sessions.py:68-125 | an append that fails behind its first row and is retried by the next save leaves that row in the journal twice |
| SessionStore.SaveKeepsStamps | tinyCode/storage/sessions.py:107-122 | messages that stay in place keep their timestamps |
| SessionStore.RunAgrees | tinyCode/storage/sessions.py:29-193 | through operations of which any may fail half-way, with restarts between them, journal and memory agree throughout if and only if every operation was careful; after a save that did not fail memory equals the saved history |
| SessionStore.StepAgreesExactly | tinyCode/storage/sessions.py:41-193 | one operation, whole or failed half-way, keeps journal and memory in agreement if and only if it is careful |
| SessionStore.LoadAgreesExactly | tinyCode/storage/sessions.py:147-155 | a load restores agreement if and only if the journal is clean, canonical and needs no repair |
| SessionStore.ResaveExactly | tinyCode/storage/sessions.py:158-182 | saving a loaded history writes nothing if and only if every loaded message is shown and saved |
| SessionStore.SaveLoadSave | tinyCode/storage/sessions.py:86-193 | a paired conversation that is saved and loaded comes back with only reminders added, and saving it again writes nothing |
| SessionStore.LoadShows | tinyCode/storage/sessions.py:129-182 | a message that a load finds is in the loaded history exactly if it is one of those shown; nothing but reminders is added |
| SessionStore.SummaryIsLoaded | tinyCode/storage/sessions.py:166-167 | every stored summary that a load finds is in the loaded history |
| SessionStore.SavedComesBack | tinyCode/storage/sessions.py:86-193 | any paired history that is saved and loaded comes back as the messages that are both written and shown, in order, up to reminders |
| SessionStore.SummarizedComesBack | tinyCode/storage/sessions.py:86-193 | a history that is compressed, saved and loaded comes back as the summary followed by what the compression kept, up to reminders and the boundary |
| ResumedTurn.RepairCompletesBatch | tinyCode/storage/sessions.py:552-587 | whatever batch a crash interrupted, with any number of open calls in either protocol, the repaired history consists of whole batches, and a turn can start on it |
| ResumedTurn.RemindersKeepBatchesExactly | tinyCode/storage/sessions.py:589-616 | what a loaded session shows consists of the same batches if and only if no result comes directly after a pause, and is broken otherwise |
| ResumedTurn.LoadedTurnExactly | tinyCode/storage/sessions.py:129-193 | a journal of whole batches, the last one perhaps interrupted, loads as a history a turn can start on if and only if no result comes directly after a pause |
| ResumedTurn.SavedTurnResumesExactly | tinyCode/storage/sessions.py:86-193 | the same for a history that is saved and loaded by the next process, in terms of the saved timestamps |
| ResumedTurn.LongToolRunSplitsBatch | tinyCode/storage/sessions.py:605-613 | a call and its result written more than 30 minutes apart are split by the reminder |
| SessionStore.BoundaryIsLost | tinyCode/storage/sessions.py:163-170 | the boundary message of a compression is not shown after a load and disappears from the journal with the next save |
| SessionStore.TornTailLosesMessage | tinyCode/storage/journal.py:54 | behind a torn line the first message of an append cannot be read again |
| ToolWal.FoldIsUnresolved | tinyCode/storage/recovery.py:216-226 | the fold keeps exactly the calls whose last row is an intent |
| ToolWal.IntentSecures | tinyCode/storage/recovery.py:169-193 | an intent is visible in the log if and only if the log ended with a newline |
| ToolWal.StepKeepsSafe | tinyCode/agent/loop.py:1904-1961 | a step keeps every write at risk (started or about to start) secured in the log if and only if it neither hides an intent behind a torn line nor lets a readable result resolve another execution |
| ToolWal.RunsAreSafeExactly | tinyCode/agent/loop.py:1904-1961 | a run keeps the writes at risk secured at every point if and only if it takes neither of the two dangerous steps |
| ToolWal.StepShowsExactly | tinyCode/agent/loop.py:1904-1961 | a step keeps the started writes, and those that may start next, among the unresolved calls if and only if it takes neither dangerous step |
| ToolWal.RunsShowExactly | tinyCode/agent/loop.py:1904-1961 | the started writes without a readable result, and those that may start next, are among the unresolved calls at every point of a run if and only if it takes neither dangerous step |
| ToolWal.StartedWritesStayVisible | tinyCode/agent/loop.py:1904-1961 | at every crash point of every interleaving the started writes without a durable result are among the unresolved calls |
| ToolWal.OrdinaryRunsAreCareful | tinyCode/storage/recovery.py:169-214 | whole appends and own call ids exclude both dangers |
| ToolWal.TornLineHidesNextWrite | tinyCode/storage/journal.py:54 | a torn line hides the next write |
| ToolWal.ReusedIdResolvesOlderWrite | tinyCode/storage/recovery.py:216-226 | a reused call id resolves an older write |
| RecoveryStore.TaskRecoveryStore.UnresolvedTools | tinyCode/storage/recovery.py:216-226 | the loop computes the fold over the readable rows |
| RecoveryStore.TaskRecoveryStore.RecordToolIntent | tinyCode/storage/recovery.py:169-193 | log first, then manifest; the manifest changes only if both succeed |
| RecoveryStore.TaskRecoveryStore.RecordToolResult | tinyCode/storage/recovery.py:195-214 | log first, then manifest; the in-flight set is recomputed from the log |
| RecoveryStore.TaskRecoveryStore.Finish | tinyCode/storage/recovery.py:136-150 | while a call is unresolved only `interrupted` or `abandoned` is recorded |
| RecoveryStore.TaskRecoveryStore.PrepareRecovery | tinyCode/storage/recovery.py:262-279 | the in-flight set of a recovery comes from the log |
| RecoveryStore.TaskRecoveryStore.ExecuteToolWithHooks | tinyCode/agent/loop.py:1889-1961 | one execution is a legal run of the log machine however it ends (blocked, refused by a hook, an exception or cancellation before or after the start, a result); a write starts only behind a recorded intent and is then owed exactly unless its result can be read |
| RecoveryStore.TaskRecoveryStore.BeginTool | tinyCode/agent/loop.py:1904-1935 | a write whose intent or manifest could not be recorded is blocked; otherwise the call starts unless a hook or an exception is in the way |
| TeamTasks.SharedTaskList.Create | tinyCode/teams/tasks.py:34-60 | a task is added behind all others under a fresh id after pruning, or refused with the limit it breaks |
| TeamTasks.SharedTaskList.Update | tinyCode/teams/tasks.py:74-101 | each field is as the change says or as it was, and the return value says whether the task exists; a result that is too long goes to a file and the task keeps its first 100000 characters and the path |
| TeamTasks.SharedTaskList.Assign | tinyCode/teams/tasks.py:103-105 | marks a known task as assigned and in progress |
| TeamTasks.SharedTaskList.ReadyTasks | tinyCode/teams/tasks.py:110-124 | lists exactly the pending unassigned tasks whose dependencies are complete, in insertion order |
| TeamTasks.SharedTaskList.PruneTerminalTasks | tinyCode/teams/tasks.py:175-189 | the table after pruning |
| TeamTasks.PrunedKeeps | tinyCode/teams/tasks.py:175-189 | pruning never removes a task of the active run or an unfinished one |
| TeamTasks.PrunedRemovesOldest | tinyCode/teams/tasks.py:175-189 | what is pruned is older than what could have been pruned and was not, or as old and inserted before it |
| TeamSchedule.StartConsistent | tinyCode/teams/lead.py:258-282 | starting a ready task on an idle member, the preferred one if it has one, keeps the schedule consistent |
| TeamSchedule.EndConsistent | tinyCode/teams/lead.py:314-338 | the end of a member run keeps the schedule consistent |
| TeamSchedule.GrowConsistent | tinyCode/teams/tasks.py:34-60 | tasks created meanwhile keep the schedule consistent |
| TeamSchedule.GrowMeasure | tinyCode/teams/lead.py:253-312 | creating tasks cannot increase twice the room left plus pending plus running |
| TeamSchedule.ReapMeasure | tinyCode/teams/lead.py:300-311 | collecting an ended member run decreases that measure |
| TeamLead.ParsePlan | tinyCode/teams/lead.py:196-233 | a raw plan is accepted as a whole exactly if every item is valid; each plan item says what the raw one does, and every dependency points backwards |
| TeamLead.LeadAgent.Decompose | tinyCode/teams/lead.py:125-145 | one pending task per plan item with the dependencies of the plan |
| TeamLead.LeadAgent.Assign | tinyCode/teams/lead.py:258-282 | a task is assigned at most once, and a member runs at most one task |
| TeamLead.LeadAgent.Dispatch | tinyCode/teams/lead.py:258-282 | ready tasks go to idle members in turn; nothing started means nothing could be |
| TeamLead.LeadAgent.Offer | tinyCode/teams/lead.py:264-276 | a task with a preferred member is given to it exactly if it is idle, one without to the first idle member |
| TeamLead.FirstIdle | tinyCode/teams/lead.py:259-262 | the first idle member is the first of the team that does not run |
| TeamLead.LeadAgent.RunMemberTask | tinyCode/teams/lead.py:314-338 | the end of a member run sets the status it earned and its result, and nothing else |
| TeamLead.LeadAgent.ReapEnded | tinyCode/teams/lead.py:300-311 | ended runs free their members and the measure decreases |
| TeamLead.LeadAgent.FailPending | tinyCode/teams/lead.py:284-298 | the deadlock branch fails exactly the pending tasks of the run |
| TeamLead.LeadAgent.DispatchLoop | tinyCode/teams/lead.py:253-312 | the loop ends for every behaviour of the members, assigns no task twice, and every started task ends with the member that ran it, the preferred one if it has one, and the status it earned |
| TeamLead.DeadlockFinishes | tinyCode/teams/lead.py:284-298 | the deadlock branch fails only tasks that are blocked or that no member may run |
| TeamLead.FailureSpreadsExactly | tinyCode/teams/lead.py:253-338 | a plan task ends failed exactly if its run failed or it depends on one that did, and was run by its planned member exactly if everything it depends on succeeded |
| TeamLead.DoomedIsTransitive | tinyCode/teams/lead.py:196-233 | the recursive notion of doom is transitive dependency on a failing item |
| TeamLead.PlanEnds | tinyCode/teams/lead.py:253-338 | every task of a finished plan is completed or failed, and was run by its planned member or by nobody, as the plan and the outcomes say |
| TeamLead.LeadAgent.Execute | tinyCode/teams/lead.py:67-123 | for every plan, interleaving and outcome exactly the doomed tasks fail and all others are completed; exactly those whose dependencies succeed were run, each by its planned member; no member run is left |
| PlanScopes.Components | tinyCode/tasking/planner.py:469-476 | a path splits into parts, none of which holds a separator |
| PlanScopes.JoinComponents | tinyCode/tasking/planner.py:469-476 | joined with separators the parts give the path again |
| PlanScopes.PrefixIsComponentPrefix | tinyCode/tasking/planner.py:469-476 | string prefix up to a slash is prefix by path components |
| PlanScopes.WriteScopesOverlap | tinyCode/tasking/planner.py:469-476 | true exactly if some path of one scope is a component prefix of some path of the other |
| PlanScopes.StripIs | tinyCode/tasking/planner.py:469-476 | before the comparison exactly the slashes at both ends are taken off a path |
| PlanGraph.DependsOn | tinyCode/tasking/planner.py:452-466 | the worklist search is transitive dependency, and it ends on cyclic graphs too |
| PlanGraph.UniqueIsCount | tinyCode/tasking/planner.py:430-432 | the length test on the id set is uniqueness |
| PlanGraph.ValidatePlan | tinyCode/tasking/planner.py:426-443 | accepts exactly the valid plans, and each error names its cause |
| PlanNodes.ParseNodes | tinyCode/tasking/planner.py:354-392 | the model's nodes are accepted as a whole exactly if each is in order and names only earlier ones; an accepted node has the id, the dependencies and the write scopes of the raw one and no others |
| PlanNodes.ValidNodesExactly | tinyCode/tasking/planner.py:354-392 | the checks in turn, against the ids known so far, are conditions on the raw list alone |
| PlanNodes.ParsedIsValidExactly | tinyCode/tasking/planner.py:426-443 | an accepted list becomes a valid plan exactly if it has at most eight nodes and of two that may write the same file the later depends on the earlier, directly or through nodes in between |
| PlanNodes.SamePathIsRefused | tinyCode/tasking/planner.py:385-390 | two nodes that write the same path are refused unless one depends on the other |
| PlanNodes.FallbackIsValid | tinyCode/tasking/planner.py:394-411 | the fallback plan is valid and points backwards |
| PlanNodes.WriteAdvancesFallback | tinyCode/tasking/planner.py:293-317 | the first write after approval ends the scope node of an automatic fallback and starts the execution |
| PlanNodes.CreatePlan | tinyCode/tasking/planner.py:179-223 | every created plan is valid, points backwards and is either an untouched draft or started; the fallback is used exactly when parsing fails and never refused, and writes advance it only if it was not asked for by hand; in terms of the raw list a plan is refused exactly if it is too long or has two unordered writers that may meet |
| PlanNodes.BackwardPlanCompletes | tinyCode/tasking/planner.py:258-291 | completing whatever is in progress, one node after the other, completes a plan that points backwards, with exactly one node in progress until then |
| PlanNodes.CyclicPlanNeverStarts | tinyCode/tasking/planner.py:426-443 | validation accepts a cycle, and a cycle never starts |
| PlanProgress.RunRests | tinyCode/tasking/planner.py:258-317 | through every careful run a node on a dependency cycle is neither started nor completed |
| PlanProgress.AcyclicPlanCompletes | tinyCode/tasking/planner.py:258-291 | without a cycle, completing what is in progress always starts another node until all are complete |
| PlanProgress.CompletableExactly | tinyCode/tasking/planner.py:426-443 | a valid plan can be completed in order if and only if it has no dependency cycle |
| PlanRun.TaskPlan.StartNextReady | tinyCode/tasking/planner.py:413-424 | starts the first pending node whose dependencies are complete |
| PlanRun.TaskPlanningService.ApproveDraft | tinyCode/tasking/planner.py:148-161 | activates a draft and starts its first ready node |
| PlanRun.TaskPlanningService.UpdateTask | tinyCode/tasking/planner.py:258-291 | applies an accepted status change, refuses the others with their reason, and starts the next ready node after a completion |
| PlanRun.ApproveExactly | tinyCode/tasking/planner.py:148-161 | an approval activates drafts only, and starts a node exactly if one is ready |
| PlanRun.UpdateExactly | tinyCode/tasking/planner.py:258-291 | when an update is accepted; then the node gets just this status, and only a completion starts one more |
| PlanRun.TerminalStays | tinyCode/tasking/planner.py:258-317 | a completed or skipped node stays as it is through every run |
| PlanRun.TaskPlanningService.ObserveSuccessfulWorkspaceWrite | tinyCode/tasking/planner.py:293-317 | a write ends the scope node of a fallback plan |
| PlanRun.WriteExactly | tinyCode/tasking/planner.py:293-317 | a write counts as completing the scope node of a fallback plan while that is in progress, and as nothing else |
| PlanRun.StepOrdered | tinyCode/tasking/planner.py:258-317 | an event keeps dependencies complete below started nodes if and only if it is not a premature completion |
| PlanRun.RunIsOrderedExactly | tinyCode/tasking/planner.py:258-317 | a run keeps dependencies complete below started nodes throughout if and only if no event of it is a premature completion |
| PlanRun.OrderedIsExclusive | tinyCode/tasking/planner.py:426-443 | in a valid plan with ordered statuses no two overlapping writers are in progress |
| PlanRun.RunIsExclusive | tinyCode/tasking/planner.py:258-317 | through every careful run overlapping writers are never in progress together |
| PlanRun.FromInProgressIsCareful | tinyCode/tasking/planner.py:273-280 | completing a node that is in progress is never premature |
| PlanRun.PrematureCompletionBreaksExclusion | tinyCode/tasking/planner.py:273-280 | completing a pending node early lets two overlapping writers run together |
| PlanExclusion.EveryRunIsExclusiveExactly | tinyCode/tasking/planner.py:426-443 | a valid plan keeps overlapping writers apart in every run if and only if any two of them are linked by a direct dependency |
| PlanExclusion.RunGrounded | tinyCode/tasking/planner.py:258-317 | in every run, careful or not, what is in progress has its direct dependencies complete |
| PlanExclusion.UnlinkedWritersMeet | tinyCode/tasking/planner.py:426-443 | two overlapping writers ordered only through other nodes are brought into progress together by some run |
| DsmlSplitter.SplitContent | tinyCode/providers/deepseek.py:269-304 | however the text is cut into chunks, what is shown is the text before the first marker and what is held is the rest |
| DsmlSplitter.FindInSuffix | tinyCode/providers/deepseek.py:280-301 | keeping marker-length-minus-one characters never misses a marker |
| DsmlSplitter.OverflowIsFinal | tinyCode/providers/deepseek.py:272-292 | once the held text is too long no later chunk changes the result |
| DsmlSplitter.SplitIsExact | tinyCode/providers/deepseek.py:194-204 | shown and held text make up the whole, and the shown text contains no marker |
| Truncator.SelectForTruncation | tinyCode/conversation/truncator.py:88-126 | the fewest further results are replaced that bring the total within the limit, the projected total is exact, and it stays over the limit only if nothing left would shrink |
| Truncator.GreedyPass | tinyCode/conversation/truncator.py:119-126 | the loop stops when the total fits or every result has been looked at, with the projected total exact |
| Truncator.FirstSaveMost | tinyCode/conversation/truncator.py:119-126 | no equally large choice saves more than the largest results |
| Truncator.SortIsSorted | tinyCode/conversation/truncator.py:120 | the sort is descending and has the same entries |
| Truncator.SortIsStable | tinyCode/conversation/truncator.py:120 | of equally large results the earlier comes first |
| Truncator.TotalSnoc | tinyCode/conversation/truncator.py:88-126 | each result counts with its size, a replaced one with that of its preview if that is shorter |
| Truncator.OverLimitIsUnavoidable | tinyCode/conversation/truncator.py:119-126 | ending over the limit means that no choice at all would fit |
| JpegScanner.JpegDimensions | tinyCode/multimodal.py:415-448 | the nested loops compute the scan with every index in bounds |
| JpegScanner.FrameMarkers | tinyCode/multimodal.py:423-440 | which markers are frame headers and which have no length |
| JpegScanner.StreamIsMeasured | tinyCode/multimodal.py:415-448 | a stream of fill bytes, segments and then a frame header has exactly the encoded size, whatever the segments contain |
| JpegScanner.MeasuredIsStream | tinyCode/multimodal.py:415-448 | whatever the scanner measures is such a stream |
| JpegScanner.MeasuredExactly | tinyCode/multimodal.py:415-448 | the scanner returns a size if and only if the data is such a stream with that size |
| JpegScanner.StandardIsScanned | tinyCode/multimodal.py:415-448 | what is found in any stream of the standard, standalone TEM markers included |
| JpegScanner.StandardMeasuredExactly | tinyCode/multimodal.py:415-448 | a standard stream without a TEM marker before the frame is measured; one shorter than 65280 bytes is measured only then |
| JpegScanner.TemHidesSize | tinyCode/multimodal.py:427-440 | a TEM marker in front of the frame hides the size |

## Left out

- Input and output: network, processes, git, terminal and configuration carry no invariant of this kind; what they deliver is a parameter.
- Message and JSON text: blocks are text, image, tool use or tool result with well-formed fields; extra keys of blocks, calls and messages are not modelled, and JSON sizes and digests are parameters or compared as values.
- Timestamps are a text with the instant it denotes, if any; `hours` texts are a parameter.
- Concurrency inside one call: member runs and tool executions are atomic at their end, and their order is free.
- Team tasks are values in a table, so that several references to one task object are not modelled; the saved task file is left out.
- Arbitrary status edits by members, the run lease, the mailbox and merging of worktrees.
- Finding the JSON array in a model's answer, titles, descriptions and executors of plan nodes, and the revision of drafts.
- Session listing, deletion, id resolution, meta files and the migration of old sessions, which sets the current id without the persisted list.
- The second pass of the truncator, which rewrites the chosen messages and caches them on disk.
- Compression thresholds, circuit gating of the compressor and the text of summaries; the model asks for a compression whenever the environment says so.
- Round limits edited during a turn, the progress watchdog (its verdict is a parameter), hooks and traces.
- The conversion of system messages to user messages for one provider, and pinned context texts beyond being plain messages.
- AgentTurn.AgentLoop.Run: does not promise a well-batched history when the turn fails inside a batch that began before the turn's start index, which only a compression in the same turn makes possible, nor when the event stream is closed inside a batch; the contract says exactly when, as the code keeps the old index and repairs nothing on closing.
- TeamLead.LeadAgent.Execute: says nothing when creating the tasks of the plan fails, as the source then stops with that error.
