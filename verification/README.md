# Verified models of the gateway's hand-written protocols

The gateway drives LLM agents for many browser clients at once. Around the
model calls it has a number of small stateful protocols written by hand with
locks, queues, counters and cursors, and one text parser. This project models
them in Dafny, one module per component, and proves what they promise over
every run, every interleaving of their lock sections, or every input.

`dafny verify dfyconfig.toml` checks the whole project.

| module | component |
|---|---|
| `PyText` | the Python string operations the text cores use: `strip`, `split`, `join`, `splitlines` |
| `Arithmetic` | facts about products shared by the counting arguments |
| `Artifacts` | the multi-file artifact protocol: markers, path cleaning, parser, printer |
| `ArtifactPaths` | which segments path cleaning keeps, and which spellings are the same |
| `ArtifactGrammar` | the parser against a grammar of replies |
| `ArtifactStability` | artifact replies cut off anywhere, and printing parsed files again |
| `AgentTranscript` | the event log of an agent session, thinking merges, polling |
| `EventFanout` | live streaming to subscribers, one step per lock section and queue operation |
| `FanoutDelivery` | when a live queue refuses an event, and that everything owed can be delivered |
| `EventPersistence` | how emitted events reach the chat table |
| `AgentSession` | breakpoints, the smart message queue, injection by recursion, the turn loop |
| `SessionBreakpoints` | when a waiting message is injected, told from the transcript |
| `MessageFlow` | user messages, the queue's lock and the turn loop across threads |
| `MessageDelivery` | that every submitted message can still be started |
| `SessionPool` | the bounded pool of sessions with eviction |
| `SessionReuse` | model names, reuse and model switches in the pool |
| `DbSync` | the throttled database mirror |
| `Blackboard` | versioned entries with racing writers, latest-per-key query, delta polling |
| `BlackboardDelivery` | what a polling client is sent, and which posts get in |
| `Proposals` | proposals and commits on the blackboard |
| `BrainLog` | the rotating event log with its id cache |
| `CostCeiling` | the ceiling checked before and charged after a run |
| `OAuthState` | the signed OAuth state and its packed payloads |
| `BoundedServer` | the HTTP server with a worker cap |
| `ChatStore` | chat event persistence |
| `AuthToken` | rotating token windows |

A protocol is a `State`, a total `Step` (an action that is not enabled changes
nothing) and a `Run` over any sequence of actions, so a theorem about `Run` holds
for every interleaving. Where the source updates an object in place there is a
class with the same fields; its methods are the lock sections, and each ensures
that the abstract value after the call is the specification applied to the value
before it.

## What is not as documented

The model follows the code. Where the code does not do what its comments or its
name promise, a lemma gives the exact condition under which it does:

- A client that reconnects with the next index it expects is replayed the whole
  transcript, not nothing (`EventFanout.ReplayHonoursCursorIff`).
- The first event of a session is never stored in the chat table, and a thinking
  event is stored with its first chunk only
  (`EventPersistence.StoredInFullIff`). With several emitters an event is let
  through exactly when its index is above the counter last assigned before its
  comparison (`EventPersistence.LetThroughIff`), so an event overtaken by a later
  one is never stored (`EventPersistence.OvertakenIff`).
- The counter is compared and assigned in two steps, so an index can also be
  stored twice: when a thought and its next chunk are compared together, or when
  a slow emitter moves the counter back
  (`EventPersistence.ComparedTogetherIsStoredTwice`,
  `EventPersistence.CounterGoesBack`). It is not exactly when no comparison finds
  the counter below an index that has passed (`EventPersistence.LetThroughIff`);
  comparing only while no other emitter is about to assign is enough
  (`EventPersistence.StoredAtMostOnce`).
- A file's content comes back verbatim, up to leading and trailing newlines,
  exactly when its only line break is the newline
  (`Artifacts.PrintedVerbatimIff`, `Artifacts.OtherBreaksAreLost`).
- Two messages injected by one emit reach the inbox in reverse order; the queue's
  order is kept exactly when that does not happen with two different texts
  (`AgentSession.InjectionKeepsOrderIff`).
- `submit` emits while it holds the queue's non-reentrant lock. It never returns
  exactly when the last event was a thought or a tool result
  (`AgentSession.AgentSession.Submit`, `MessageFlow.StuckIff`), and from then on
  the turn loop never comes back from idle (`MessageFlow.StuckForGood`).
- A commit whose section name the on-disk mirror refuses, or whose mirror write
  fails, raises after the entry was inserted, and a retry inserts it again
  (`Proposals.FailedCommitLeavesEntryIff`, `Proposals.RetryDuplicatesEntry`).
- A client that polls for blackboard deltas holds an exact copy after every poll
  exactly when every new latest row is stamped above the cursor at every poll
  (`Blackboard.EveryPollIsExactIff`).
- The newer `append_chat_events` skips nothing (`ChatStore.AppendIsIdempotentIff`).
- A log file that exists but is empty starts numbering at 0
  (`BrainLog.FirstIdIsOneIff`).
- A worker thread that fails to start leaks its permit
  (`BoundedServer.QuiescentIsCleanIff`).
- With a window of zero or less the rotation countdown is wrong
  (`AuthToken.CountdownIsExactIff`).

## Model

| member | source | states |
|---|---|---|
| `PyText.SplitLinesAppend` | lib/artifacts.py:72 | the lines of a text, a newline and more text are the lines of both parts with at most one blank line between, although a carriage return and the newline may join into one break |
| `PyText.CharacterLists` | lib/artifacts.py:55-72 | the characters that end a line and those that count as white space, one by one |
| `PyText.SplitLinesVsSplit` | lib/artifacts.py:72-85 | for text whose only break is the newline, `splitlines` is `split` without the final empty part |
| `PyText.SplitJoin` | lib/artifacts.py:59-62 | splitting a join of separator-free parts returns the parts |
| `PyText.TrimOf` | lib/artifacts.py:55 | `strip` of a character set removes exactly the characters of the set at both ends |
| `Artifacts.MatchBeginIsLazyMatch` | lib/artifacts.py:25-28 | the recogniser returns a group if and only if the line belongs to the pattern's language with that group and with no shorter one: the lazy quantifier |
| `Artifacts.MatchEndIff` | lib/artifacts.py:31-32 | the END test accepts exactly the language of its pattern, nonce included; anything may follow |
| `Artifacts.BeginMarkerRecovered` | lib/artifacts.py:25-28 | the printed BEGIN line gives back its path, whatever `=` signs it holds, exactly when the path has no trailing space or is one character |
| `Artifacts.EndMarkerRecognised` | lib/artifacts.py:31-43 | every printed END line is recognised as an END and never as a BEGIN |
| `Artifacts.SafePathConfines` | lib/artifacts.py:53-63 | a cleaned path is relative, has no empty, `.` or `..` segment and no backslash |
| `Artifacts.SafePathFixesCanonical` | lib/artifacts.py:53-63 | the paths that cleaning returns unchanged are exactly the canonical ones |
| `ArtifactPaths.RefusedIff` | lib/artifacts.py:53-63 | a path is refused exactly when one of its segments is `..` or none but empty and `.` ones is left |
| `ArtifactPaths.CleanedSegments` | lib/artifacts.py:53-63 | the segments of a cleaned path are all the other segments, in order: each empty or `.` segment can be left out, each other one stays between what is kept before and after it |
| `ArtifactPaths.DropEmptyAppend` | lib/artifacts.py:59 | filtering segments distributes over concatenation |
| `ArtifactPaths.DropEmptyAt` | lib/artifacts.py:59 | each segment is dropped or kept on its own, whatever stands around it |
| `ArtifactPaths.ExtraSegmentIsDropped` | lib/artifacts.py:55-62 | a further slash or a `.` segment changes nothing, wherever it stands in whatever path |
| `ArtifactPaths.BackslashIsSlash` | lib/artifacts.py:55 | a backslash separates segments as a slash does |
| `ArtifactPaths.UnquoteOf` | lib/artifacts.py:55 | spaces outside double quotes outside single quotes are stripped, and nothing else |
| `ArtifactPaths.SpellingsOfCanonical` | lib/artifacts.py:53-63 | a canonical path is what its quoted, rooted, `./`-prefixed and slash-terminated spellings are cleaned to |
| `Artifacts.ParseArtifacts` | lib/artifacts.py:66-109 | the parser's loop computes the fold of the line machine, with the final flush and the lossless fallback |
| `Artifacts.FlushBlock` | lib/artifacts.py:77-88 | closing a block records it only if its path is safe, and resets the block in any case |
| `Artifacts.ScanMonotone` | lib/artifacts.py:77-103 | further lines never change a recorded file, and an open block with a safe path becomes the next file |
| `Artifacts.OpenBlock` | lib/artifacts.py:90-103 | while a block stays open its line buffer only grows |
| `Artifacts.CutOffParseIsStable` | lib/artifacts.py:66-109 | parsing a prefix of the lines yields the files of the full parse at the same positions, except that the last may be truncated, and then its buffer is a prefix |
| `ArtifactGrammar.ParseIsGrammar` | lib/artifacts.py:66-109 | every reply is prose followed by blocks of a grammar, and parses to the files of its blocks (truncated exactly when the END line is missing), or to itself as `output.md` when there is none |
| `ArtifactGrammar.ParseOfBlocks` | lib/artifacts.py:66-104 | whatever prose and blocks a reply consists of, the parser returns the files of those blocks |
| `ArtifactGrammar.Decompose` | lib/artifacts.py:90-104 | every list of lines is prose and blocks |
| `ArtifactGrammar.TakenWholeIff` | lib/artifacts.py:69-108 | a reply is taken whole exactly when there is no nonce or no BEGIN line of it has a usable path |
| `ArtifactStability.CutAnywhere` | lib/artifacts.py:66-109 | for a text cut after any character: every file the cut parse closed is at its place in the full parse; a last truncated file has its final path and lines, up to a cut last line or the beginning of a marker, unless the cut is inside a BEGIN line, when it is empty |
| `ArtifactStability.CutLines` | lib/artifacts.py:72 | the lines of a cut text are the first lines of the text and possibly a beginning of the next |
| `ArtifactStability.MarkerExtends` | lib/artifacts.py:25-32 | once the beginning of a line is a BEGIN or END marker, so is the line |
| `Artifacts.PrintThenParse` | lib/artifacts.py:38-109 | printing any non-empty list of files with canonical paths and marker-free contents and parsing it returns them in order, none truncated, contents normalised |
| `Artifacts.ProseThenPrintThenParse` | lib/artifacts.py:38-109 | the same with a prose note before the first file |
| `Artifacts.VerbatimIff` | lib/artifacts.py:85 | normalising a content only trims leading and trailing newlines exactly when its only line break is the newline |
| `Artifacts.PrintedVerbatimIff` | lib/artifacts.py:7-109 | printed files come back with verbatim contents, up to those newlines, exactly when no content has another line break |
| `Artifacts.OtherBreaksAreLost` | lib/artifacts.py:72-85 | any other break between two non-empty lines comes back as a newline |
| `Artifacts.RenderIsPrintable` | lib/artifacts.py:85-102 | a recorded content is its own normal form and holds no marker line |
| `ArtifactStability.ParsedIsMarkerFree` | lib/artifacts.py:66-109 | in every parse no recorded content holds a marker line, each is its own normal form, and each path is one line |
| `ArtifactStability.ReparseIsFixedPointIff` | lib/artifacts.py:53-109 | printing parsed files and parsing the print changes only the truncated flags exactly when every parsed path is canonical |
| `ArtifactStability.SamePathIff` | lib/artifacts.py:25-63 | one printed file comes back under its own path exactly when that path is canonical |
| `AgentTranscript.EmitKeepsTranscript` | lib/agent_sessions.py:2129-2192 | one emit keeps index k at position k and no two adjacent thinking events, changes at most the last event, only extends its text, and streams the event now last |
| `AgentTranscript.MergeConcatenatesIff` | lib/agent_sessions.py:2154-2183 | a chunk is concatenated exactly when neither text is a prefix of the other (or one is empty) |
| `AgentTranscript.AccumulatedThinking` | lib/agent_sessions.py:2133-2183 | when every chunk is a non-empty prefix of one growing text, in any order, the merged text is the longest chunk, never a repetition |
| `AgentTranscript.PollingSeesEachIndexOnce` | lib/agent_sessions.py:2379-2391 | in every run a client polling with the returned `next` holds every index exactly once, non-thinking events final, thinking texts a prefix of the log's |
| `AgentTranscript.PolledEventsAreFinal` | lib/agent_sessions.py:2379-2391 | nothing that was polled is ever corrected |
| `AgentTranscript.StaleThinkingAfterPoll` | lib/agent_sessions.py:2379-2391 | a polled thinking text goes stale for good unless the next chunk adds nothing |
| `EventFanout.StreamsAreExactlyOnce` | lib/agent_sessions.py:2129-2337 | in every interleaving of emitters, subscribers and readers, each reader's range has exactly one copy of every non-thinking event across replay, pushes, queue, received and refused, and a current copy of every thinking one |
| `EventFanout.DrainedReaderHasEverything` | lib/agent_sessions.py:2278-2326 | a reader that never overflowed and has drained everything has received its range exactly once |
| `FanoutDelivery.PutOutcome` | lib/agent_sessions.py:2193-2325 | every step: a put into a queue with room arrives behind everything that arrived before, a put into a full one is refused, and nothing else arrives or is refused |
| `FanoutDelivery.RefusedIffPutWhenFull` | lib/agent_sessions.py:2193-2325 | in every run a reader has lost events if and only if some put found its queue full |
| `FanoutDelivery.NeverFullHasEverything` | lib/agent_sessions.py:2193-2325 | a reader whose queue was never full in a run has received its range exactly once when it is drained |
| `FanoutDelivery.CanDrain` | lib/agent_sessions.py:2193-2326 | from every reachable state puts, replays and takes alone can drain a reader without refusing it anything more |
| `FanoutDelivery.CanReceiveEverything` | lib/agent_sessions.py:2193-2326 | so a registered reader that has lost nothing can still receive all of its range |
| `EventFanout.MovesKeepCopies` | lib/agent_sessions.py:2193-2209 | putting, replaying, taking and ending a stream only move copies |
| `EventFanout.EmitCopies` | lib/agent_sessions.py:2184-2192 | the lock section of emit adds one copy for each registered queue and none for others |
| `EventFanout.NewSubscriberIsOwed` | lib/agent_sessions.py:2312-2320 | a new subscriber starts with exactly its range in the replay and nothing pending |
| `EventFanout.UnsubscribeKeepsInv` | lib/agent_sessions.py:2271-2334 | leaving removes exactly one registration and keeps every reader's count, also for emits that hold an older queue list |
| `EventFanout.ReplayHonoursCursorIff` | lib/agent_sessions.py:2318-2320 | replay starts at the cursor exactly when the cursor is not past the last event |
| `EventPersistence.PersistenceIsSound` | lib/agent_sessions.py:2210-2221 | in every interleaving of emits, comparisons, assignments and appends, some of which may raise, what was let through is, as a multiset, between comparison and assignment, on its way to the table, stored, or dropped by a failing append; and the table reads back what was stored |
| `EventPersistence.StoredAreCopies` | lib/agent_sessions.py:2210-2221 | in every interleaving what is read back are copies of logged events, never of index 0 |
| `EventPersistence.LetThroughIff` | lib/agent_sessions.py:2214-2216 | in every interleaving an event is let through exactly when its index is above the counter last assigned before its comparison; an index is missing exactly when all its comparisons found the counter at or above it; and none passes twice exactly when no later comparison finds the counter below an index that passed |
| `EventPersistence.FailedAppendIsNotRetried` | lib/agent_sessions.py:2214-2221 | an append that raises loses its event: no later event of that index passes as long as the counter stays |
| `EventPersistence.StoredAtMostOnce` | lib/agent_sessions.py:2210-2221 | in runs where nothing is compared while another emitter stands between comparing and assigning, the table has every index at most once |
| `EventPersistence.OvertakenIff` | lib/agent_sessions.py:2214-2216 | in such runs a compared index from 1 on is missing exactly when a larger one was let through before its first comparison |
| `EventPersistence.ComparedTogetherIsStoredTwice` | lib/agent_sessions.py:2214-2219 | a thought and its next chunk that are both compared before either assigns are both stored under one index |
| `EventPersistence.CounterGoesBack` | lib/agent_sessions.py:2214-2216 | an emitter that assigns late moves the counter back, and the next chunk of a thought already let through passes again |
| `EventPersistence.OvertakenEventIsLost` | lib/agent_sessions.py:2214-2219 | a run, from any settled state, in which the earlier of two events is neither stored nor under way |
| `EventPersistence.SerialStoresAllButFirst` | lib/agent_sessions.py:2210-2221 | with one emitter the table reads back exactly the log's events after the first, as they were when their index was handed out |
| `EventPersistence.FirstVersionsAreCopies` | lib/agent_sessions.py:2129-2192 | those versions are one per log event, each an earlier copy of it |
| `EventPersistence.StoredInFullIff` | lib/agent_sessions.py:1986-2216 | with one emitter, event k of the log is stored exactly when it is not the first, and stored as logged exactly when besides every later chunk merged into it is a prefix of its first text |
| `EventPersistence.UnchangedIff` | lib/agent_sessions.py:2162-2183 | a logged event still has its first text exactly when every later chunk merged into it is a prefix of that text |
| `AgentSession.EmitInjectsAtMostTwo` | lib/agent_sessions.py:2235-2377 | one emit, through its recursion, appends its event and moves at most two messages, from the front of the queue to the end of the inbox, announcing each |
| `AgentSession.TwoInjectionsIff` | lib/agent_sessions.py:2240-2263 | exactly which previous and new event types inject twice |
| `AgentSession.TwoInjectionsReverse` | lib/agent_sessions.py:2364-2376 | two injected messages reach the inbox in reverse order |
| `AgentSession.InjectionKeepsOrderIff` | lib/agent_sessions.py:2340-2377 | the inbox keeps the queue's order exactly unless two messages are popped, both delivered, and different |
| `AgentSession.AnnouncementIsBreakpointIff` | lib/agent_sessions.py:2240-2263 | the announcement of a queued message is a breakpoint exactly after a thought or a tool result |
| `AgentSession.EmitConserves` | lib/agent_sessions.py:2340-2377 | no emit loses or duplicates a waiting message |
| `AgentSession.EmitAllConserves` | lib/agent_sessions.py:2340-2377 | nor does any sequence of emits, and the queue never grows |
| `AgentSession.TurnConserves` | lib/agent_sessions.py:2471-2528 | a turn takes one message from the inbox and keeps every other, whatever the adapter emits and however it ends |
| `AgentSession.IdleAlwaysDrains` | lib/agent_sessions.py:2240-2263 | going idle always takes a queued message; going to error takes one exactly after a thought or a tool result |
| `SessionBreakpoints.EmitTakesMessageIff` | lib/agent_sessions.py:2235-2263 | from the transcript alone, exactly when one emit takes a message from a non-empty queue: a thought or a tool result ends, a tool is called, a reply reaches its first blank line, or the session goes idle |
| `SessionBreakpoints.EmitTracks` | lib/agent_sessions.py:2240-2261 | what the session remembers stays the last non-delta event type and the last assistant text of the transcript, through every injection |
| `SessionBreakpoints.BlankLineIff` | lib/agent_sessions.py:2253-2255 | the text test is the occurrence of two newlines in a row |
| `SessionBreakpoints.TurnTakesMessageIff` | lib/agent_sessions.py:2471-2592 | in every turn, each emit takes a waiting message exactly in those cases of the turn's own transcript |
| `SessionBreakpoints.EmitShowsInjections` | lib/agent_sessions.py:2364-2376 | behind its event an emit shows one `injected` event for each delivered message, in queue order, with its first 200 characters |
| `SessionBreakpoints.TurnOpens` | lib/agent_sessions.py:2479-2486 | a turn opens the transcript with the running status and the user's message, before any injection |
| `SessionBreakpoints.TurnShowsEnding` | lib/agent_sessions.py:2487-2529 | every turn shows its end in the transcript: an idle status, or an error status followed by an error event |
| `SessionBreakpoints.EventStays` | lib/agent_sessions.py:2129-2265 | an emitted event that is no thought stays in the transcript at its index, through any injections and later emits |
| `SessionBreakpoints.FinishedTurnDrains` | lib/agent_sessions.py:2487-2519 | a turn that completes or is refused takes at least one waiting message |
| `SessionBreakpoints.FailedTurnKeepsQueue` | lib/agent_sessions.py:2520-2529 | a turn that fails before the adapter emits leaves the queue as it was |
| `AgentSession.AgentSession.EmitLocked` | lib/agent_sessions.py:2130-2192 | the lock section merges or appends as specified and hands out the stream event and the queue list |
| `AgentSession.AgentSession.DetectBreakpoint` | lib/agent_sessions.py:2236-2261 | the branches compute the breakpoint and the new tracker |
| `AgentSession.AgentSession.Emit` | lib/agent_sessions.py:2129-2265 | emit terminates and leaves the log, queue, inbox and tracker of the specification |
| `AgentSession.AgentSession.DrainQueuedMessage` | lib/agent_sessions.py:2340-2346 | pops the front of the queue |
| `AgentSession.AgentSession.InjectQueuedAtBreakpoint` | lib/agent_sessions.py:2348-2377 | injects the front message, or drops an empty one, with the nested emit before the inbox put |
| `AgentSession.AgentSession.SetStatus` | lib/agent_sessions.py:2336-2338 | sets the status, emits it, keeps the session valid and conserves messages |
| `AgentSession.AgentSession.Submit` | lib/agent_sessions.py:2394-2418 | a message goes to the bounded queue while a turn runs and there is room, else to the inbox, and is conserved; announced with the queue's lock held, so the call blocks for good exactly after a thought or a tool result |
| `AgentSession.AgentSession.RunTurn` | lib/agent_sessions.py:2471-2592 | one pass of the turn loop takes the oldest inbox message, performs all its emits, conserves the rest and ends in the right status |
| `AgentSession.AgentSession.SubscribeLocked` | lib/agent_sessions.py:2308-2320 | registers the queue and selects exactly the suffix of the log from the effective cursor |
| `AgentSession.AgentSession.UnregisterStreamQueue` | lib/agent_sessions.py:2271-2276 | removes exactly one registration |
| `AgentSession.AgentSession.Snapshot` | lib/agent_sessions.py:2379-2391 | returns the suffix from the cursor and the next cursor |
| `MessageFlow.MessagesAreConserved` | lib/agent_sessions.py:2340-2418 | in every interleaving of submitters, emitters and the turn loop, the non-empty messages submitted are, as a multiset, those queued, in hand, in the inbox or started, and the queue respects its cap |
| `MessageFlow.StepConserves` | lib/agent_sessions.py:2340-2528 | every single step keeps that |
| `MessageFlow.StuckIff` | lib/agent_sessions.py:2343-2412 | in every interleaving some submitter waits for the lock it holds exactly when an announcement found a thought or a tool result to be the last event |
| `MessageFlow.StuckForGood` | lib/agent_sessions.py:2343-2519 | from then on no queued message is ever delivered, no submitter that saw a running turn gets past the lock, the turn loop blocks at its next breakpoint, never comes back from idle, and takes at most one turn more than there are turns that end in error |
| `MessageFlow.IdleNeedsTheLock` | lib/agent_sessions.py:2257-2346 | a turn that goes idle always has to take the queue's lock before the next one |
| `MessageDelivery.AllCanBeStarted` | lib/agent_sessions.py:2340-2519 | after every run in which no submitter waits for itself, the threads can go on so that every non-empty message submitted so far is started |
| `MessageDelivery.CanFinish` | lib/agent_sessions.py:2340-2519 | from every such state they can empty all places, free the lock and return the loop to the inbox |
| `MessageDelivery.SubmitOutcome` | lib/agent_sessions.py:2394-2418 | the complete outcome of an undisturbed submit, by status, room in the queue and last event |
| `MessageDelivery.TurnStarts` | lib/agent_sessions.py:2471-2483 | a turn takes the front of the inbox, and a breakpoint inside it the front of the queue |
| `MessageDelivery.TurnEnds` | lib/agent_sessions.py:2517-2529 | a turn that goes idle comes back through the lock, one that fails does so exactly after a thought or a tool result |
| `SessionPool.ProviderPrefixIsIgnored` | lib/agent_sessions.py:2733-2746 | a model name compares equal to itself under any provider prefix |
| `SessionReuse.ModelsCompareIff` | lib/agent_sessions.py:2733-2746 | any two model names compare equal exactly when both are blank or their last segments agree up to case |
| `SessionReuse.NamesCompareIff` | lib/agent_sessions.py:2733-2746 | bare names compare equal exactly when they agree in every letter up to case, with or without providers in front |
| `SessionPool.ObtainKeepsOk` | lib/agent_sessions.py:2776-2836 | one call keeps the maximum, distinct ids and at most one session per chat |
| `SessionPool.PoolStaysBounded` | lib/agent_sessions.py:2713-2836 | so does every run of calls interleaved with sessions changing their own state |
| `SessionPool.CapacityErrorIff` | lib/agent_sessions.py:2805-2816 | the error is raised exactly when nothing matches, the swept pool is full and every session is running or starting |
| `SessionPool.OnlyOldestIdleIsEvicted` | lib/agent_sessions.py:2717-2816 | a session disappears only by expiry, by its own chat's model switch, or by eviction from a full pool as the least recently updated idle one |
| `SessionPool.ResultIsPooled` | lib/agent_sessions.py:2776-2836 | the returned session is in the pool, unexpired, and is the requested id or of the requested chat and model |
| `SessionReuse.ReuseIff` | lib/agent_sessions.py:2776-2802 | a pooled session answers exactly when the request names it, or names no live one and it is the chat's session with a fitting model |
| `SessionReuse.SwitchReplaces` | lib/agent_sessions.py:2785-2836 | a chat that asks for another model gets a new session, its only one, and the old one is gone, however full the pool is |
| `SessionReuse.SweepAt` | lib/agent_sessions.py:2713-2724 | sweeping decides on each session alone: it stays exactly when it is open and was updated within the time to live |
| `SessionPool.Pool.SweepLocked` | lib/agent_sessions.py:2717-2724 | drops exactly the expired and closed sessions, keeping order |
| `SessionPool.Pool.FindOldestIdle` | lib/agent_sessions.py:2806-2811 | the loop finds the first idle session with the smallest update time |
| `SessionPool.Pool.GetOrCreate` | lib/agent_sessions.py:2776-2836 | the method's branches compute the specified pool and outcome |
| `DbSync.NoRequestIsLost` | lib/db.py:1185-1251 | in every run each decided request has been followed by a granted upload that read the file after it, or one is in flight, or it is pending and the worker will look again before it blocks |
| `DbSync.PendingGetsFlushed` | lib/db.py:1221-1251 | from any such state at most four steps of the worker alone flush a pending request once the window is over |
| `DbSync.GrantsAreSpaced` | lib/db.py:1190-1202 | without forced requests consecutive recorded timestamps are an interval apart, in every run, whatever the clocks returned |
| `DbSync.UploadRateIsBounded` | lib/db.py:1173-1251 | any span of length L then holds at most L / interval + 1 of them |
| `DbSync.ForcedRequestsEvadeTheThrottle` | lib/db.py:1182-1202 | forced requests are outside the bound |
| `DbSync.DecisionIff` | lib/db.py:1191-1202 | at any point of any run a request uploads at once exactly when it is forced or the last recorded upload is an interval ago |
| `DbSync.RequestOutcome` | lib/db.py:1190-1219 | a request that no thread interrupts ends with the present file uploaded, or pending with the worker alive and woken, and the lock free |
| `DbSync.CheckOutcome` | lib/db.py:1235-1251 | the worker flushes exactly what is pending when the window is over |
| `DbSync.LockExcludes` | lib/db.py:1191-1202 | while a caller holds the lock nobody else changes the throttle or records an upload |
| `DbSync.LockIsReleased` | lib/db.py:1191-1197 | and its own next steps release it |
| `DbSync.IdleWorkerRests` | lib/db.py:1229-1237 | with nothing pending a woken worker clears the event and blocks |
| `DbSync.EveryGrantUploadsOnce` | lib/db.py:1198-1251 | in every run each recorded timestamp belongs to exactly one upload that has read the file or is about to, and uploaded versions never go back |
| `DbSync.Mirror.RequestLocked` | lib/db.py:1191-1202 | the lock section grants and stamps, or marks pending, sets the event and starts the worker |
| `DbSync.Mirror.CheckLocked` | lib/db.py:1235-1243 | the worker's lock section blocks, waits, or takes the pending flag and stamps |
| `Blackboard.VersionsAreGapless` | lib/conscious_db.py:254-269 | however version reads and inserts interleave, every key's versions are exactly 1..n in order |
| `Blackboard.InsertIsNext` | lib/db.py:327 | given the unique constraint, a version that was read is refused exactly when it is stale, and an accepted one is the next |
| `Blackboard.LatestIsLastOfHistory` | lib/conscious_db.py:294-306 | the latest-per-key query returns exactly one row per key, the last of its full history |
| `Blackboard.PollIsExactIff` | lib/conscious_db.py:720-744 | a delta poll brings a current copy up to date exactly when every new latest row in scope is stamped after the cursor |
| `Blackboard.EveryPollIsExactIff` | lib/conscious_db.py:720-803 | over any run of posts and polls, every poll leaves an exact copy exactly when at every poll each new latest row in scope is stamped above the cursor; and then the copy is always the blackboard as of the last poll |
| `Blackboard.TimelyIsEnough` | lib/conscious_db.py:720-803 | that holds in particular when every row that gets in is stamped after the last poll's cursor |
| `Blackboard.ClientHoldsLatest` | lib/conscious_db.py:720-803 | after the last of such polls the copy is exactly the latest-per-key blackboard of its sections |
| `BlackboardDelivery.CursorIsHighestSent` | lib/conscious_db.py:725-803 | the cursor of a reply is the highest stamp among the rows it sends, or the cursor that came in |
| `BlackboardDelivery.DeltaIff` | lib/conscious_db.py:727-736 | a row is sent exactly when it is no event, its section was asked for and it is stamped after the cursor, if there is one |
| `BlackboardDelivery.CursorTracksSent` | lib/conscious_db.py:720-803 | after any run the client's cursor is the highest stamp it was ever sent |
| `BlackboardDelivery.NextPollSendsIff` | lib/conscious_db.py:720-803 | after any run the next poll sends exactly the latest rows in scope stamped later than everything sent before |
| `BlackboardDelivery.RepeatedPollIsEmpty` | lib/conscious_db.py:720-803 | polling again with nothing posted in between sends nothing once a stamped row was sent |
| `BlackboardDelivery.PostReachesClient` | lib/conscious_db.py:248-803 | after any run, an uninterrupted post in scope with a later stamp is what the client holds at its key after the next poll |
| `BlackboardDelivery.LatestIff` | lib/conscious_db.py:294-306 | a row is in the latest-per-key result exactly when no row of its key has a higher version |
| `BlackboardDelivery.PostGetsInIff` | lib/conscious_db.py:254-269 | a post gets in exactly when no other post of its key got in since it read its version, whatever happened in between |
| `Blackboard.Table.NextVersion` | lib/conscious_db.py:254-259 | one above the highest version of the key |
| `Blackboard.Table.InsertEntry` | lib/conscious_db.py:261-269 | given a version read from the table, the insert is refused exactly when it is stale, and otherwise appends the next version and keeps every key gapless |
| `Blackboard.Table.PostBlackboard` | lib/conscious_db.py:248-271 | an uninterrupted post always gets in, as the last row of its key's history, numbered by its length |
| `Blackboard.Table.ContextDelta` | lib/conscious_db.py:723-744 | the loop returns exactly the in-scope rows above the cursor, and the new cursor |
| `Proposals.OneEntryPerProposal` | lib/conscious_db.py:313-406 | in runs where no two commits of the same proposal overlap, each proposal whose commits never raised at the mirror has at most one entry ever, with its section, key, value and author and its commit's committer; a committed one has exactly one, by the agent it names |
| `Proposals.ResolvedStaysResolved` | lib/conscious_db.py:360-406 | a resolved proposal never becomes pending again, whatever overlaps |
| `Proposals.FailedCommitLeavesEntryIff` | lib/conscious_db.py:360-386 | the complete outcome of an undisturbed commit: unchanged if not pending, committed with its entry, or still pending with its entry when the mirror refuses the section or its write fails |
| `Proposals.RetryDuplicatesEntry` | lib/brain.py:265-269 | repeating such a commit inserts the entry again |
| `Proposals.OverlappingCommitsDuplicate` | lib/conscious_db.py:363-380 | two overlapping commits of the same pending proposal insert two entries |
| `Proposals.OvertakenCommitIsRefused` | lib/conscious_db.py:254-380 | a commit that another post of its key overtakes raises at its insert and can be repeated |
| `Proposals.RejectionAfterCommit` | lib/conscious_db.py:389-402 | a rejection overrules a commit, whose entry stays |
| `Proposals.MirrorableIff` | lib/brain.py:39-48 | the mirror accepts exactly one component of plain characters, maybe with a newline, without `..` |
| `Proposals.Store.CreateProposal` | lib/conscious_db.py:313-335 | adds a pending proposal with its fields |
| `Proposals.Store.CommitProposal` | lib/conscious_db.py:360-386 | every outcome of a commit and the tables it leaves, equal to the steps taken without interference |
| `Proposals.Store.RejectProposal` | lib/conscious_db.py:389-406 | marks any existing proposal rejected by the given agent, also a committed one |
| `BrainLog.LogIsComplete` | lib/brain.py:309-374 | in every run from an absent log, archives then live file hold exactly the bodies of its appends, in order, with ids 1..n, archives have exactly the cap, the live file at most the cap, and the cache agrees with a cold scan |
| `BrainLog.AppendKeepsDisk` | lib/brain.py:324-374 | one append, with or without rotation, keeps that |
| `BrainLog.KnownMaxIsCount` | lib/brain.py:331-349 | the maximum an append finds, cached or scanned, is the number of appended events |
| `BrainLog.PollIsCompleteIff` | lib/conscious_db.py:746-754 | a poll misses nothing exactly when its cursor is not behind the last rotation |
| `BrainLog.PollerSeesEveryEvent` | lib/conscious_db.py:746-754 | a poller that is never behind a rotation receives every event exactly once, in order |
| `BrainLog.FirstIdIsOneIff` | lib/brain.py:333-350 | with no event in the file the first id is 1 exactly when the file is absent; an empty one starts at 0 |
| `BrainLog.RotatesIff` | lib/brain.py:361-372 | an append rotates exactly at a positive multiple of the cap with a live file, and adds its line behind what is left |
| `BrainLog.MaxIdIsHighest` | lib/brain.py:335-346 | the scan's result is the highest id of the file |
| `BrainLog.RestartRescans` | lib/brain.py:331-350 | after a restart the next id is one above the highest in the file, with a warm cache one above the cached |
| `BrainLog.EventLog.AppendEvent` | lib/brain.py:324-374 | the method's branches append, rotate and cache as specified and return the new id |
| `BrainLog.EventLog.ScanMax` | lib/brain.py:335-346 | the cold scan finds the highest id |
| `BrainLog.EventLog.ReadEvents` | lib/brain.py:226-242 | returns exactly the live events above the cursor, in order |
| `CostCeiling.OvershootIsBounded` | lib/conscious_tools.py:154-218 | in every run spend plus charges in flight stays below the ceiling plus the charges of the most runs ever in flight together |
| `CostCeiling.StepKeepsBound` | lib/conscious_tools.py:609-634 | starting, finishing and aborting each keep that |
| `CostCeiling.NothingStartsAtCeiling` | lib/conscious_tools.py:166-168 | once spend reaches the ceiling nothing starts, and spend grows only by what was in flight |
| `CostCeiling.SpendIsAtMost` | lib/conscious_tools.py:154-218 | in every run, for every positive charge, spend is at most the largest multiple of the charge below the ceiling plus the charges of the peak |
| `CostCeiling.BoundIsTight` | lib/conscious_tools.py:154-218 | that value is reached: for every positive charge, ceiling and peak some run spends exactly it |
| `CostCeiling.StartsIff` | lib/conscious_tools.py:609-623 | a run starts exactly when there is no ceiling or the spend is below it |
| `CostCeiling.RunsAreAccounted` | lib/conscious_tools.py:154-218 | in every run each started run is charged once, given up once or still in flight, and the spend is what was charged |
| `CostCeiling.PeakIsReached` | lib/conscious_tools.py:154-218 | the peak is the most runs that were in flight at one moment |
| `CostCeiling.Ledger.MayStart` | lib/conscious_tools.py:619-623 | takes the start step of the model: a refusal means that the spend has reached a positive ceiling, and a start keeps the bound |
| `CostCeiling.Ledger.BumpCost` | lib/conscious_tools.py:626-634 | takes the finish step of the model, after which the overshoot is still bounded by the peak |
| `OAuthState.Utf8RoundTrip` | lib/critique_service.py:922-947 | strict UTF-8 decoding undoes encoding for every string |
| `OAuthState.Utf8DecodeIsStrict` | lib/critique_service.py:947 | decoding succeeds on nothing but the encoding of its result: no overlong forms, surrogates or stray bytes |
| `OAuthState.Base64RoundTrip` | lib/critique_service.py:922-947 | base64url decoding undoes encoding for every byte string (RFC 4648, section 5) |
| `OAuthState.DecodedAlphabet` | lib/critique_service.py:947 | only whole groups of alphabet digits decode, with at most two `=` at the end |
| `OAuthState.DigitIsUrlSafe` | lib/critique_service.py:922 | the digits are the URL-safe alphabet of RFC 4648, section 5 |
| `OAuthState.SextetsAreBits` | lib/critique_service.py:922 | a group of three bytes and its four digits are the same 24-bit number |
| `OAuthState.Base64Vectors` | lib/critique_service.py:922 | the examples of RFC 4648, section 10, and one with the two changed digits |
| `OAuthState.Utf8OfAscii` | lib/critique_service.py:922 | ASCII text is its own encoding |
| `OAuthState.Utf8Vector` | lib/critique_service.py:922 | the example of RFC 3629, section 7 |
| `OAuthState.RepadUnpad` | lib/critique_service.py:922-946 | restoring the stripped padding from the length is exact (RFC 4648, section 3.2) |
| `OAuthState.DecimalRoundTrip` | lib/critique_service.py:921-936 | the timestamp field parses back and holds no dot |
| `OAuthState.ParsesIff` | lib/critique_service.py:936 | exactly the non-empty digit strings parse as a timestamp |
| `OAuthState.DecimalShape` | lib/critique_service.py:921 | a timestamp is written without a leading zero |
| `OAuthState.StateRoundTripIff` | lib/critique_service.py:915-949 | a state verifies and returns its redirect, for any redirect and dot-free nonce, exactly when the two clocks are within 600 seconds |
| `OAuthState.VerifiesIff` | lib/critique_service.py:928-949 | exactly the texts of the layout nonce, timestamp, redirect field and signature verify, with both time bounds, and give the redirect of their field |
| `OAuthState.AcceptedIsSigned` | lib/critique_service.py:938-942 | whatever is accepted carries the signature of everything before its last dot |
| `OAuthState.GitHubRoundTripIff` | lib/critique_service.py:4153-4180 | the GitHub payload unpacks to its fields exactly when the redirect is pipe-free |
| `OAuthState.HfRoundTripIff` | lib/critique_service.py:4319-4346 | the Hugging Face payload does exactly when its first two fields are |
| `OAuthState.GitHubFlowIff` | lib/critique_service.py:4153-4180 | what the callback recovers through state, signature and payload is what the login packed, under exactly both conditions |
| `OAuthState.HfFlowIff` | lib/critique_service.py:4319-4346 | likewise for the Hugging Face flow |
| `BoundedServer.PermitsAreConserved` | lib/critique_service.py:5620-5658 | in every run the semaphore is never over-released, free, held and leaked permits add up, and the busy count is never negative nor above the permits not free |
| `BoundedServer.StepKeepsInv` | lib/critique_service.py:5631-5658 | every step of the accept thread and of a worker keeps that |
| `BoundedServer.QuiescentIsCleanIff` | lib/critique_service.py:5631-5658 | a quiescent server has all permits and nothing busy exactly when every worker thread started |
| `BoundedServer.RejectsOnlyWhenFull` | lib/critique_service.py:5631-5647 | a connection gets the 503 exactly when every permit is held or leaked |
| `BoundedServer.ConnectionOutcome` | lib/critique_service.py:5631-5650 | what one connection leaves: a 503, a serving worker, or a leaked permit |
| `BoundedServer.ReleaseRaisesIff` | lib/critique_service.py:5652-5658 | a release raises exactly when no permit is out, which no sound state allows |
| `BoundedServer.Server.constructor` | lib/critique_service.py:5620-5625 | starts as the model does, with at least one permit, all free |
| `BoundedServer.Server.ProcessRequest` | lib/critique_service.py:5631-5650 | the accept thread's steps of the model: a connection is accepted exactly when a permit is neither with a worker nor leaked |
| `BoundedServer.Server.FinishRequest` | lib/critique_service.py:5652-5658 | a worker's last two steps of the model: it is gone, its permit is back, and the release never raises |
| `ChatStore.AppendKeepsEverything` | lib/chat_routes.py:290-338 | for every table, reading back after the newer append gives what was read before followed by the whole batch in order; strictly increasing numbers stay so |
| `ChatStore.AppendIsIdempotentIff` | lib/chat_routes.py:290-324 | sending a batch twice stores it twice unless it is empty |
| `ChatStore.NumberIff` | lib/chat_routes.py:305-321 | an event keeps its own index exactly when it is one and above every number stored before it, else it gets the next number |
| `ChatStore.IncreasingKeepsNumbers` | lib/chat_routes.py:305-321 | increasing indices above everything stored are all kept |
| `ChatStore.SortedIsSorted` | lib/chat_routes.py:327-338 | reading returns the same rows sorted by number |
| `ChatStore.OldAppendIsIdempotent` | lib/db.py:771-792 | the older append is idempotent for every batch and every table |
| `ChatStore.ResendsStoreOnce` | lib/db.py:771-799 | overlapping gap-free resends of one numbered stream store each event exactly once, in order |
| `ChatStore.SortedAscending` | lib/chat_routes.py:327-338 | reading in sequence order changes nothing when numbers are increasing |
| `ChatStore.ChatTable.Append` | lib/chat_routes.py:296-324 | the loop with its running maximum stores the specified rows, replaces none, and returns the batch length |
| `ChatStore.ChatTable.AppendSkipping` | lib/db.py:773-792 | the loop stores exactly the events above the maximum found at the start |
| `AuthToken.TokenMatches` | lib/authtoken.py:62-71 | the loop without early exit decides membership among the valid tokens, and raises exactly when a secret is set and the presented text is not ASCII |
| `AuthToken.BoundariesBetween` | lib/authtoken.py:35-36 | the window index counts the window boundaries up to a time |
| `AuthToken.AcceptedIff` | lib/authtoken.py:39-59 | a token is accepted exactly when a secret is set, at most `grace` boundaries lie between minting and use, and the clock has not gone back a window |
| `AuthToken.Lifetime` | lib/authtoken.py:39-71 | hence for at least `grace` windows and never from one more on |
| `AuthToken.CountdownIsExactIff` | lib/authtoken.py:74-76 | for whole seconds the countdown is the exact distance to the next change if and only if the window is at least one second |

## Left out

Contracts whose statement carries a condition or an abstraction:

- EventPersistence.StoredAtMostOnce: only for runs in which no comparison falls between another one and its assignment; `ComparedTogetherIsStoredTwice` and `CounterGoesBack` show what happens otherwise, and `LetThroughIff` says exactly when.
- EventFanout.StreamsAreExactlyOnce: counts copies, not their order, because replay is put after the lock is released; event dictionaries are copied at the lock section, so the aliasing that lets a queued event's text grow further is captured only as "a prefix of the current text".
- EventPersistence.PersistenceIsSound: the table starts empty; a chat that already has rows gets the batch renumbered, as `ChatStore.AppendKeepsEverything` describes.
- SessionPool.PoolStaysBounded: a new session's id is assumed to differ from the pooled ones.
- SessionReuse.ModelsCompareIff: lower-casing is that of ASCII letters, here and in `SessionPool.ProviderPrefixIsIgnored`.
- MessageDelivery.AllCanBeStarted: states that a continuation exists, not that the scheduler takes it; the same holds for `FanoutDelivery.CanReceiveEverything`.
- DbSync.UploadRateIsBounded: about recorded timestamps, not about the moments of the uploads, because a caller reads the clock before it takes the lock.
- DbSync.NoRequestIsLost: a granted upload is assumed to read the file; network failures and the worker being killed by an exception are not modelled.
- Blackboard.ClientHoldsLatest: only for runs whose polls are timely; timestamps have a resolution of one second, and `EveryPollIsExactIff` shows that the condition is exact.
- Proposals.OneEntryPerProposal: not for a proposal whose commit raised at the mirror, nor for overlapping commits of one proposal; `RetryDuplicatesEntry` and `OverlappingCommitsDuplicate` show what happens then. Whether a mirror write fails (a full disk, a section name beyond the file system's limit) is an arbitrary input. The workspace of the conscious is assumed to exist, and an event append that fails after the proposal was marked is not modelled.
- BrainLog.LogIsComplete: the rename of a rotation succeeds, its target name is new, and no crash falls inside an append.
- CostCeiling.OvershootIsBounded: costs are whole units and every run costs the same, as the fixed stub cost does; floating-point rounding is not modelled.
- OAuthState.StateRoundTripIff: the signature is any function that yields no dot; strings are sequences of Unicode scalar values, so a lone surrogate (which cannot be encoded) does not occur.
- AuthToken.TokenMatches: the tokens themselves are assumed to be ASCII, as base64 text is.
- AuthToken.AcceptedIff: the keyed hash is assumed to tell windows apart.
- Artifacts.MatchBeginIsLazyMatch: describes the pattern on one line, as the parser uses it; a string with a newline inside is not a line.

Not modelled:

- Timestamps and further fields of events; `breakpoint` and `remaining_queued` of an injected event.
- The `None` that `close` puts into the inbox, the idle timeout of the turn loop, and `interrupt`.
- SDK adapters, model resolution, title generation and tool wiring: what a turn emits is an arbitrary sequence.
- The removal of a queue whose put raises `ValueError`.
- Closing and deleting the workspaces of sessions that leave the pool, and the tier and workspace arguments of a new one.
- The ids of several consciouses: each module describes the rows of one.
- Ordering by section and key in the latest-per-key query, and grouping of the reply by section.
- Messages, tasks, drawer, pings and subscriptions in the context reply.
- JSON text, blank and corrupt lines in the event log, and `_lock_for`'s registry.
- The timestamp spellings that `float` accepts beyond decimal digits, and base64 input with characters outside the alphabet.
- HMAC, AES-GCM and Fernet, the regex engine beyond the two marker patterns, and the IP address library.
- HTTP routing and handlers, GitHub and Hugging Face clients, database restore, and SQLite itself.
- `lib/chat_session.py`, `lib/chat_jobs.py`, `lib/jobstore.py`, `lib/debug_log.py` and `lib/oplog.py`: they would add only simpler copies or facts about one loop.
