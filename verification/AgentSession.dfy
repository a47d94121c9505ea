/** The session object: its event log, the smart queue of messages submitted
    while a turn runs, the breakpoints at which they are injected, and the inbox
    of the turn loop. */
module AgentSession {
  import opened PyText
  import opened AgentTranscript
  import EventFanout

  const QUEUED_MSGS_MAX := 16

  // ----- breakpoints -----

  /** What the session remembers between two emits to detect a breakpoint. */
  datatype Tracker = Tracker(lastType: Option<string>, lastText: string)

  predicate HasBlankLine(s: string) {
    exists i :: 0 <= i < |s| - 1 && s[i] == '\n' && s[i + 1] == '\n'
  }

  function Breakpoint(tr: Tracker, p: Payload): Option<string> {
    if p.kind == "" then None
    else if tr.lastType == Some("thinking") && p.kind != "thinking" && p.kind != "thinking_delta" then
      Some("thinking_end")
    else if p.kind == "tool_use" then Some("tool_use_start")
    else if tr.lastType == Some("tool_result") && p.kind != "tool_result" then Some("tool_result_end")
    else if p.kind == "assistant" then
      if tr.lastText != "" && HasBlankLine(p.text) && !HasBlankLine(tr.lastText)
      then Some("paragraph_break") else None
    else if p.kind == "status" && (p.state == "idle" || p.state == "done") then Some("status_idle")
    else None
  }

  function Tracked(tr: Tracker, p: Payload): Tracker {
    if p.kind == "" then tr
    else
      Tracker(
        if p.kind == "thinking_delta" || p.kind == "assistant_delta" then tr.lastType else Some(p.kind),
        if p.kind == "assistant" && tr.lastType != Some("thinking") && tr.lastType != Some("tool_result")
        then p.text else tr.lastText)
  }

  // ----- one emit, with the injections it triggers -----

  datatype Core = Core(events: seq<Event>, queued: seq<string>, inbox: seq<string>, tracker: Tracker)

  function Clip(s: string): string {
    if |s| <= 200 then s else s[..200]
  }

  function Injected(msg: string): Payload {
    Payload("injected", Clip(msg), "")
  }

  function EmitSpec(c: Core, p: Payload): (r: Core)
    ensures |r.queued| <= |c.queued|
    decreases |c.queued|, 1
  {
    var c1 := c.(events := Appended(c.events, p), tracker := Tracked(c.tracker, p));
    if Breakpoint(c.tracker, p).None? then c1 else InjectSpec(c1)
  }

  function InjectSpec(c: Core): (r: Core)
    ensures |r.queued| <= |c.queued|
    decreases |c.queued|, 0
  {
    if c.queued == [] then c
    else
      var msg, rest := c.queued[0], c.(queued := c.queued[1..]);
      if msg == "" then rest
      else
        var r := EmitSpec(rest, Injected(msg));
        r.(inbox := r.inbox + [msg])
  }

  function EmitAll(c: Core, ps: seq<Payload>): Core {
    if ps == [] then c else EmitSpec(EmitAll(c, ps[..|ps| - 1]), ps[|ps| - 1])
  }

  // ----- what an emit does, without the recursion -----

  /** How many queued messages one emit may move: the recursion through the
      "injected" event goes at most one level deeper. */
  function Depth(tr: Tracker, p: Payload): nat {
    if Breakpoint(tr, p).None? then 0
    else if Tracked(tr, p).lastType == Some("thinking") || Tracked(tr, p).lastType == Some("tool_result") then 2
    else 1
  }

  /** Number of messages popped: an empty one is popped, dropped, and stops. */
  function Popped(queued: seq<string>, depth: nat): (n: nat)
    ensures n <= |queued| && n <= depth
  {
    if depth == 0 || queued == [] then 0
    else if queued[0] == "" then 1
    else 1 + Popped(queued[1..], depth - 1)
  }

  /** The inbox receives what was popped, innermost first. */
  function Delivered(popped: seq<string>): seq<string> {
    if popped == [] then []
    else if popped[0] == "" then Delivered(popped[1..])
    else Delivered(popped[1..]) + [popped[0]]
  }

  function InjectedEvents(events: seq<Event>, popped: seq<string>): seq<Event>
    decreases |popped|
  {
    if popped == [] then events
    else if popped[0] == "" then InjectedEvents(events, popped[1..])
    else InjectedEvents(Appended(events, Injected(popped[0])), popped[1..])
  }

  lemma InjectDoes(c: Core, depth: nat)
    requires depth == 1 || depth == 2
    requires (depth == 2) <==> (c.tracker.lastType == Some("thinking") || c.tracker.lastType == Some("tool_result"))
    ensures var n := Popped(c.queued, depth);
            var r := InjectSpec(c);
            && r.queued == c.queued[n..]
            && r.inbox == c.inbox + Delivered(c.queued[..n])
            && r.events == InjectedEvents(c.events, c.queued[..n])
    decreases depth
  {
    hide Appended;
    var n := Popped(c.queued, depth);
    var popped := c.queued[..n];
    if c.queued != [] {
      assert popped[0] == c.queued[0] && popped[1..] == c.queued[1..n];
      var msg, rest := c.queued[0], c.(queued := c.queued[1..]);
      if msg == "" {
        assert popped[1..] == [];
      } else if depth == 2 {
        var inner := rest.(events := Appended(c.events, Injected(msg)), tracker := Tracked(c.tracker, Injected(msg)));
        assert EmitSpec(rest, Injected(msg)) == InjectSpec(inner);
        InjectDoes(inner, 1);
        assert inner.queued[..n - 1] == popped[1..];
      } else {
        assert popped[1..] == [];
        assert EmitSpec(rest, Injected(msg)).queued == rest.queued;
      }
    }
  }

  /** One emit appends its event, then moves at most two messages from the front
      of the queue to the inbox, whatever the event and the one before it. */
  lemma EmitInjectsAtMostTwo(c: Core, p: Payload)
    ensures var n := Popped(c.queued, Depth(c.tracker, p));
            var r := EmitSpec(c, p);
            && n <= 2
            && r.queued == c.queued[n..]
            && r.inbox == c.inbox + Delivered(c.queued[..n])
            && r.events == InjectedEvents(Appended(c.events, p), c.queued[..n])
  {
    var depth := Depth(c.tracker, p);
    if depth > 0 {
      InjectDoes(c.(events := Appended(c.events, p), tracker := Tracked(c.tracker, p)), depth);
    } else {
      assert c.queued[0..] == c.queued;
    }
  }

  /** Exactly these transitions inject twice. */
  lemma TwoInjectionsIff(tr: Tracker, p: Payload)
    ensures Depth(tr, p) == 2 <==>
              || (tr.lastType == Some("thinking") && (p.kind == "tool_result" || p.kind == "assistant_delta"))
              || (tr.lastType == Some("tool_result")
                  && (p.kind == "thinking" || p.kind == "thinking_delta" || p.kind == "assistant_delta"))
  {
  }

  /** When two messages are injected they reach the inbox in reverse order. */
  lemma TwoInjectionsReverse(c: Core, p: Payload)
    requires Depth(c.tracker, p) == 2 && |c.queued| >= 2 && c.queued[0] != "" && c.queued[1] != ""
    ensures EmitSpec(c, p).inbox == c.inbox + [c.queued[1], c.queued[0]]
  {
    EmitInjectsAtMostTwo(c, p);
    assert Popped(c.queued[1..], 1) == 1 + Popped(c.queued[1..][1..], 0);
    var popped := c.queued[..2];
    assert popped[1..] == [c.queued[1]] && popped[1..][1..] == [];
    assert Delivered(popped[1..]) == Delivered([]) + [c.queued[1]];
  }

  /** The non-empty messages in the order they were submitted. */
  function InOrder(msgs: seq<string>): seq<string> {
    if msgs == [] then []
    else (if msgs[0] == "" then [] else [msgs[0]]) + InOrder(msgs[1..])
  }

  /** So the order of the queue is kept exactly when not both of two popped
      messages are delivered, or they are the same text. */
  lemma InjectionKeepsOrderIff(c: Core, p: Payload)
    ensures var n := Popped(c.queued, Depth(c.tracker, p));
            EmitSpec(c, p).inbox == c.inbox + InOrder(c.queued[..n])
            <==> !(n == 2 && c.queued[1] != "" && c.queued[0] != c.queued[1])
  {
    EmitInjectsAtMostTwo(c, p);
    var n := Popped(c.queued, Depth(c.tracker, p));
    var popped := c.queued[..n];
    hide EmitSpec, Depth;
    SameAfter(c.inbox, Delivered(popped), InOrder(popped));
    if n == 2 {
      PoppedTwo(c.queued, Depth(c.tracker, p));
      assert popped == [c.queued[0], c.queued[1]];
      OfTwo(c.queued[0], c.queued[1]);
    } else if n == 1 {
      assert popped == [c.queued[0]];
      OfOne(c.queued[0]);
    } else {
      assert popped == [];
    }
    hide Popped, Delivered, InOrder;
  }

  lemma PoppedTwo(queued: seq<string>, depth: nat)
    requires Popped(queued, depth) >= 2
    ensures queued[0] != ""
  {
  }

  lemma OfOne(a: string)
    ensures Delivered([a]) == InOrder([a]) == if a == "" then [] else [a]
  {
    assert [a][1..] == [];
    assert [] + [a] == [a] == [a] + [];
  }

  lemma OfTwo(a: string, b: string)
    requires a != ""
    ensures Delivered([a, b]) == if b == "" then [a] else [b, a]
    ensures InOrder([a, b]) == if b == "" then [a] else [a, b]
    ensures Delivered([a, b]) == InOrder([a, b]) <==> b == "" || a == b
  {
    assert [a, b][1..] == [b];
    OfOne(b);
    if b != "" { assert [b, a][0] == b && [a, b][0] == a; }
  }

  lemma SameAfter(a: seq<string>, b: seq<string>, c: seq<string>)
    ensures a + b == a + c <==> b == c
  {
    if a + b == a + c {
      assert b == (a + b)[|a|..] == (a + c)[|a|..] == c;
    }
  }

  /** The announcement of a queued message is a breakpoint exactly when the last
      event was a thought or a tool result. */
  lemma AnnouncementIsBreakpointIff(tr: Tracker, text: string)
    ensures Breakpoint(tr, Payload("queued", text, "")).Some?
       <==> (tr.lastType == Some("thinking") || tr.lastType == Some("tool_result"))
  {
  }

  // ----- conservation -----

  ghost function NonEmpty(msgs: seq<string>): multiset<string> {
    multiset(msgs)["" := 0]
  }

  ghost function Waiting(c: Core): multiset<string> {
    NonEmpty(c.queued) + NonEmpty(c.inbox)
  }

  lemma NonEmptyConcat(a: seq<string>, b: seq<string>)
    ensures NonEmpty(a + b) == NonEmpty(a) + NonEmpty(b)
  {
  }

  lemma OneMoreWaits(c: Core, m: string)
    ensures Waiting(c.(queued := c.queued + [m])) == Waiting(c) + NonEmpty([m])
    ensures Waiting(c.(inbox := c.inbox + [m])) == Waiting(c) + NonEmpty([m])
  {
    NonEmptyConcat(c.queued, [m]);
    NonEmptyConcat(c.inbox, [m]);
    hide NonEmpty;
  }

  lemma WaitingIgnoresEvents(a: Core, b: Core)
    requires a.queued == b.queued && a.inbox == b.inbox
    ensures Waiting(a) == Waiting(b)
  {
  }

  lemma NonEmptyOne(m: string)
    ensures NonEmpty([m]) == if m == "" then multiset{} else multiset{m}
  {
  }

  lemma {:induction false} DeliveredAll(popped: seq<string>)
    ensures NonEmpty(Delivered(popped)) == NonEmpty(popped)
  {
    if popped != [] {
      DeliveredAll(popped[1..]);
      assert popped == [popped[0]] + popped[1..];
      NonEmptyConcat([popped[0]], popped[1..]);
      NonEmptyOne(popped[0]);
      hide NonEmpty;
      if popped[0] != "" {
        NonEmptyConcat(Delivered(popped[1..]), [popped[0]]);
      }
    }
  }

  /** No emit loses or duplicates a waiting message. */
  lemma EmitConserves(c: Core, p: Payload)
    ensures Waiting(EmitSpec(c, p)) == Waiting(c)
  {
    hide NonEmpty, EmitSpec, Popped, Depth, Delivered, InjectedEvents;
    EmitInjectsAtMostTwo(c, p);
    var n := Popped(c.queued, Depth(c.tracker, p));
    DeliveredAll(c.queued[..n]);
    NonEmptyConcat(c.queued[..n], c.queued[n..]);
    NonEmptyConcat(c.inbox, Delivered(c.queued[..n]));
    assert c.queued == c.queued[..n] + c.queued[n..];
  }

  lemma {:induction false} EmitAllConserves(c: Core, ps: seq<Payload>)
    ensures Waiting(EmitAll(c, ps)) == Waiting(c) && |EmitAll(c, ps).queued| <= |c.queued|
  {
    hide Waiting;
    if ps != [] {
      EmitAllConserves(c, ps[..|ps| - 1]);
      EmitConserves(EmitAll(c, ps[..|ps| - 1]), ps[|ps| - 1]);
    }
  }

  function Status(state: string): Payload {
    Payload("status", "", state)
  }

  /** How a turn ends: the adapter returns (or was interrupted), it raises, or
      the cost ceiling refuses the turn before it starts. */
  datatype Ending = Completed | Failed | Refused

  /** Everything one turn emits.  What the adapter emits is arbitrary, and so is
      what follows the status: a placeholder reply, a title, or nothing. */
  function TurnEmits(msg: string, transcript: seq<Payload>, ending: Ending, trailing: seq<Payload>): seq<Payload> {
    [Status("running"), Payload("user", msg, "")]
    + match ending
      case Completed => transcript + [Status("idle")] + trailing
      case Failed => transcript + [Status("error"), Payload("error", "", "")] + trailing
      case Refused => [Status("idle"), Status("idle")]
  }

  function TurnSpec(c: Core, transcript: seq<Payload>, ending: Ending, trailing: seq<Payload>): Core
    requires c.inbox != []
  {
    EmitAll(c.(inbox := c.inbox[1..], tracker := Tracker(None, "")),
            TurnEmits(c.inbox[0], transcript, ending, trailing))
  }

  /** A turn takes one message from the inbox; every other one is still waiting. */
  lemma TurnConserves(c: Core, transcript: seq<Payload>, ending: Ending, trailing: seq<Payload>)
    requires c.inbox != []
    ensures Waiting(TurnSpec(c, transcript, ending, trailing)) + NonEmpty([c.inbox[0]]) == Waiting(c)
  {
    assert c.inbox == [c.inbox[0]] + c.inbox[1..];
    NonEmptyConcat([c.inbox[0]], c.inbox[1..]);
    EmitAllConserves(c.(inbox := c.inbox[1..], tracker := Tracker(None, "")),
                     TurnEmits(c.inbox[0], transcript, ending, trailing));
    hide NonEmpty, EmitAll, TurnEmits;
  }

  /** Going idle is a breakpoint after every event; going to error is one only
      after a thought or a tool result. */
  lemma IdleAlwaysDrains(c: Core)
    ensures c.queued != [] ==> |EmitSpec(c, Status("idle")).queued| < |c.queued|
    ensures |EmitSpec(c, Status("error")).queued| < |c.queued|
       <==> c.queued != [] && (c.tracker.lastType == Some("thinking") || c.tracker.lastType == Some("tool_result"))
  {
  }

  // ----- the object -----

  class AgentSession {
    var events: seq<Event>
    var streamQueues: seq<nat>
    var queuedMsgs: seq<string>
    var queueLocked: bool                   // _queued_msgs_lock, which is not reentrant
    var inbox: seq<string>
    var lastEventType: Option<string>
    var lastAssistantText: string
    var status: string
    ghost var submitted: multiset<string>   // non-empty messages ever submitted
    ghost var started: seq<string>          // messages taken as turns

    ghost function Abs(): Core
      reads this
    {
      Core(events, queuedMsgs, inbox, Tracker(lastEventType, lastAssistantText))
    }

    ghost predicate Valid()
      reads this
    {
      && WellFormed(events)
      && |queuedMsgs| <= QUEUED_MSGS_MAX
      && submitted == Waiting(Abs()) + NonEmpty(started)
    }

    constructor ()
      ensures Valid()
      ensures Abs() == Core([], [], [], Tracker(None, "")) && status == "starting"
      ensures submitted == multiset{} && started == [] && streamQueues == [] && !queueLocked
    {
      events, streamQueues, queuedMsgs, inbox := [], [], [], [];
      lastEventType, lastAssistantText, status, queueLocked := None, "", "starting", false;
      submitted, started := multiset{}, [];
    }

    /** The lock section of emit: merge or append, and take the queue list. */
    method EmitLocked(p: Payload) returns (streamEv: Event, queues: seq<nat>)
      modifies this`events
      ensures events == Appended(old(events), p)
      ensures streamEv == StreamEvent(old(events), p) && queues == streamQueues
    {
      if p.kind == "thinking" && events != [] && events[|events| - 1].kind == "thinking" {
        var last := events[|events| - 1];
        var oldText, newText := last.text, p.text;
        var text;
        if oldText != "" && newText != "" && oldText <= newText && |newText| > |oldText| {
          text := newText;
        } else if oldText != "" && newText != "" && newText <= oldText && |newText| < |oldText| {
          text := oldText;
        } else if oldText != "" && newText != "" && newText == oldText {
          text := oldText;
        } else {
          text := oldText + newText;
        }
        events := events[|events| - 1 := last.(text := text)];
        streamEv := Event(last.i, p.kind, text, p.state);
      } else {
        streamEv := Event(|events|, p.kind, p.text, p.state);
        events := events + [streamEv];
      }
      queues := streamQueues;
    }

    method DetectBreakpoint(p: Payload) returns (kind: Option<string>)
      modifies this`lastEventType, this`lastAssistantText
      ensures kind == Breakpoint(old(Abs().tracker), p)
      ensures Abs().tracker == Tracked(old(Abs().tracker), p)
    {
      kind := None;
      if p.kind == "" { return; }
      var prev := lastEventType;
      if prev == Some("thinking") && p.kind != "thinking" && p.kind != "thinking_delta" {
        kind := Some("thinking_end");
      } else if p.kind == "tool_use" {
        kind := Some("tool_use_start");
      } else if prev == Some("tool_result") && p.kind != "tool_result" {
        kind := Some("tool_result_end");
      } else if p.kind == "assistant" {
        if lastAssistantText != "" && HasBlankLine(p.text) && !HasBlankLine(lastAssistantText) {
          kind := Some("paragraph_break");
        }
        lastAssistantText := p.text;
      } else if p.kind == "status" && (p.state == "idle" || p.state == "done") {
        kind := Some("status_idle");
      }
      if p.kind != "thinking_delta" && p.kind != "assistant_delta" {
        lastEventType := Some(p.kind);
      }
    }

    /** At a breakpoint the queue's lock is taken, so it must not be held. */
    method Emit(p: Payload)
      requires Breakpoint(Abs().tracker, p).None? || !queueLocked
      modifies this`events, this`queuedMsgs, this`inbox, this`lastEventType, this`lastAssistantText
      ensures Abs() == EmitSpec(old(Abs()), p)
      decreases |queuedMsgs|, 1
    {
      var _, _ := EmitLocked(p);
      var kind := DetectBreakpoint(p);
      if kind.Some? {
        var _ := InjectQueuedAtBreakpoint();
      }
    }

    method DrainQueuedMessage() returns (msg: Option<string>)
      requires !queueLocked
      modifies this`queuedMsgs
      ensures old(queuedMsgs) == [] ==> msg == None && queuedMsgs == []
      ensures old(queuedMsgs) != [] ==> msg == Some(old(queuedMsgs)[0]) && queuedMsgs == old(queuedMsgs)[1..]
    {
      if queuedMsgs == [] {
        msg := None;
      } else {
        msg, queuedMsgs := Some(queuedMsgs[0]), queuedMsgs[1..];
      }
    }

    method InjectQueuedAtBreakpoint() returns (injected: bool)
      requires !queueLocked
      modifies this`events, this`queuedMsgs, this`inbox, this`lastEventType, this`lastAssistantText
      ensures Abs() == InjectSpec(old(Abs()))
      ensures injected == (old(queuedMsgs) != [] && old(queuedMsgs)[0] != "")
      decreases |queuedMsgs|, 0
    {
      var msg := DrainQueuedMessage();
      if msg.None? || msg.value == "" {
        return false;
      }
      Emit(Injected(msg.value));
      inbox := inbox + [msg.value];
      return true;
    }

    lemma EmitKeepsValid(p: Payload, c: Core)
      requires WellFormed(c.events)
      ensures WellFormed(EmitSpec(c, p).events) && Waiting(EmitSpec(c, p)) == Waiting(c)
    {
      EmitConserves(c, p);
      EmitKeepsWellFormed(c, p);
    }

    method SetStatus(state: string)
      requires Valid() && (Breakpoint(Abs().tracker, Status(state)).None? || !queueLocked)
      modifies this
      ensures Valid() && status == state
      ensures Abs() == EmitSpec(old(Abs()), Status(state))
      ensures submitted == old(submitted) && started == old(started) && streamQueues == old(streamQueues)
      ensures queueLocked == old(queueLocked)
    {
      hide EmitSpec, NonEmpty, WellFormed, Breakpoint;
      EmitKeepsValid(Status(state), Abs());
      status := state;
      Emit(Status(state));
    }

    /** A message submitted while a turn runs waits in the bounded queue; any
        other, and one that finds the queue full, goes straight to the inbox.
        The announcement of a queued message is emitted with the queue's lock
        held: the call blocks for good exactly when the last event was a thought
        or a tool result. */
    method Submit(message: string) returns (blocked: bool)
      requires Valid() && !queueLocked
      modifies this
      ensures Valid() && queueLocked == blocked
      ensures blocked <==>
                old(status) == "running" && |old(queuedMsgs)| < QUEUED_MSGS_MAX
                && (old(lastEventType) == Some("thinking") || old(lastEventType) == Some("tool_result"))
      ensures submitted == old(submitted) + NonEmpty([message])
      ensures started == old(started) && status == old(status) && streamQueues == old(streamQueues)
      ensures if old(status) == "running" && |old(queuedMsgs)| < QUEUED_MSGS_MAX then
                var p := Payload("queued", Clip(message), "");
                Abs() == Core(Appended(old(events), p), old(queuedMsgs) + [message], old(inbox),
                              Tracked(old(Abs().tracker), p))
              else Abs() == old(Abs()).(inbox := old(inbox) + [message])
    {
      hide Waiting, NonEmpty, WellFormed, Appended, Tracked, Breakpoint, Clip;
      OneMoreWaits(Abs(), message);
      submitted := submitted + NonEmpty([message]);
      blocked := false;
      if status == "running" && |queuedMsgs| < QUEUED_MSGS_MAX {
        AnnouncementIsBreakpointIff(Abs().tracker, Clip(message));
        EmitKeepsTranscript(events, Payload("queued", Clip(message), ""));
        queueLocked := true;
        queuedMsgs := queuedMsgs + [message];
        blocked := Announce(Payload("queued", Clip(message), ""));
        queueLocked := blocked;
        WaitingIgnoresEvents(Abs(), old(Abs()).(queued := old(queuedMsgs) + [message]));
      } else {
        inbox := inbox + [message];
      }
    }

    /** An emit with the queue's lock held; at a breakpoint it waits for it. */
    method Announce(p: Payload) returns (blocked: bool)
      requires queueLocked
      modifies this`events, this`lastEventType, this`lastAssistantText
      ensures events == Appended(old(events), p) && Abs().tracker == Tracked(old(Abs().tracker), p)
      ensures blocked <==> Breakpoint(old(Abs().tracker), p).Some?
    {
      var _, _ := EmitLocked(p);
      var kind := DetectBreakpoint(p);
      blocked := kind.Some?;
    }

    /** One pass of the turn loop, with the adapter's emits as a parameter. */
    method RunTurn(transcript: seq<Payload>, ending: Ending, trailing: seq<Payload>) returns (msg: string)
      requires Valid() && inbox != [] && !queueLocked
      modifies this
      ensures Valid() && !queueLocked
      ensures msg == old(inbox)[0] && started == old(started) + [msg]
      ensures submitted == old(submitted) && streamQueues == old(streamQueues)
      ensures Abs() == TurnSpec(old(Abs()), transcript, ending, trailing)
      ensures status == if ending.Failed? then "error" else "idle"
    {
      hide EmitSpec, NonEmpty, WellFormed, TurnEmits, Waiting;
      TurnConserves(Abs(), transcript, ending, trailing);
      NonEmptyConcat(started, [inbox[0]]);
      msg := inbox[0];
      inbox, started := inbox[1..], started + [msg];
      lastEventType, lastAssistantText := None, "";
      ghost var c := Abs();
      var emits := TurnEmits(msg, transcript, ending, trailing);
      status := "running";
      for k := 0 to |emits|
        invariant Abs() == EmitAll(c, emits[..k]) && WellFormed(events) && |queuedMsgs| <= QUEUED_MSGS_MAX
        invariant submitted == old(submitted) && streamQueues == old(streamQueues)
        invariant started == old(started) + [msg] && !queueLocked
      {
        assert emits[..k + 1][..k] == emits[..k];
        EmitKeepsWellFormed(Abs(), emits[k]);
        Emit(emits[k]);
      }
      status := if ending.Failed? then "error" else "idle";
      assert emits[..|emits|] == emits;
    }

    // ----- live subscribers -----

    /** The lock section of subscribe: register, then pick the replay. */
    method SubscribeLocked(q: nat, since: int) returns (replay: seq<Event>)
      requires WellFormed(events)
      modifies this`streamQueues
      ensures streamQueues == old(streamQueues) + [q]
      ensures replay == events[EventFanout.EffectiveSince(events, since)..]
    {
      streamQueues := streamQueues + [q];
      var maxSeq := if events != [] then events[|events| - 1].i as int else -1;
      var effectiveSince := if since <= maxSeq then since else 0;
      ghost var from := EventFanout.EffectiveSince(events, since);
      replay := [];
      for k := 0 to |events|
        invariant replay == if k <= from then [] else events[from..k]
      {
        if events[k].i >= effectiveSince {
          replay := replay + [events[k]];
        }
      }
    }

    method UnregisterStreamQueue(q: nat)
      modifies this`streamQueues
      ensures streamQueues == EventFanout.RemoveFirst(old(streamQueues), q)
      ensures multiset(streamQueues) == multiset(old(streamQueues)) - multiset{q}
    {
      EventFanout.RemoveFirstCounts(streamQueues, q);
      streamQueues := EventFanout.RemoveFirst(streamQueues, q);
    }

    method Snapshot(since: int) returns (part: seq<Event>, next: nat)
      ensures part == AgentTranscript.Snapshot(events, since) && next == |events|
    {
      var from := if since < 0 then 0 else since;
      part := if from > |events| then [] else events[from..];
      next := |events|;
    }
  }

  lemma {:induction false} InjectedWellFormed(events: seq<Event>, popped: seq<string>)
    requires WellFormed(events)
    ensures WellFormed(InjectedEvents(events, popped))
    decreases |popped|
  {
    hide WellFormed;
    if popped != [] {
      EmitKeepsTranscript(events, Injected(popped[0]));
      InjectedWellFormed(if popped[0] == "" then events else Appended(events, Injected(popped[0])), popped[1..]);
    }
  }

  lemma EmitKeepsWellFormed(c: Core, p: Payload)
    requires WellFormed(c.events)
    ensures WellFormed(EmitSpec(c, p).events)
  {
    EmitInjectsAtMostTwo(c, p);
    EmitKeepsTranscript(c.events, p);
    InjectedWellFormed(Appended(c.events, p), c.queued[..Popped(c.queued, Depth(c.tracker, p))]);
  }
}
