/** User messages when submitting threads, emitting threads and the turn loop
    interleave.  `submit` reads the status before it takes the queue's lock, and
    announces the message while it holds the lock; a breakpoint pops a message
    under the lock and puts it into the inbox later; any thread that emits may
    stand at a breakpoint. */
module MessageFlow {
  import opened PyText
  import opened AgentTranscript
  import opened AgentSession

  /** The queue's lock: free, held by a submitter that has yet to read the last
      event type for its announcement, held by one that will release it, or held
      by one that waits for it. */
  datatype QueueLock = Free | Announcing | Leaving | Stuck

  /** The thread of the turn loop.  At a breakpoint of its own emits it stands
      `AtLock`, inside a turn, after going idle, or after going to error. */
  datatype Loop = Opening | Waiting | InTurn | AtLock(after: Loop)

  datatype State = State(
    status: string,
    lastType: Option<string>,     // _last_event_type
    lock: QueueLock,
    loop: Loop,
    idled: nat,                   // how often the loop went idle and came back to the inbox
    queue: seq<string>,           // _queued_msgs
    deciding: multiset<string>,   // saw "running", about to take the lock
    direct: multiset<string>,     // about to be put into the inbox by submit
    hands: multiset<string>,      // popped at a breakpoint, not yet in the inbox
    inbox: seq<string>,
    started: seq<string>,
    submitted: multiset<string>)

  datatype Action =
    | Submit(msg: string)
    | EnqueueLocked(msg: string)
    | AnnounceReads               // the announcing emit looks at the last event type
    | ReleaseLock
    | PutDirect(msg: string)
    | DrainLocked
    | PutInjected(msg: string)
    | TakeTurn
    | LoopBreakpoint              // an emit of the loop inside a turn
    | GoIdle
    | GoError
    | LoopDrains                  // the loop gets the lock at its breakpoint
    | Track(lastType: Option<string>)   // any emit, or the reset of a new turn

  const INIT := State("starting", None, Free, Opening, 0, [], multiset{}, multiset{}, multiset{}, [], [], multiset{})

  /** The pop under the queue's lock; an empty message is dropped. */
  function Drained(st: State): State {
    if st.queue == [] then st
    else
      var st1 := st.(queue := st.queue[1..]);
      if st.queue[0] == "" then st1 else st1.(hands := st.hands + multiset{st.queue[0]})
  }

  /** The loop emits a status; at a breakpoint it has to take the lock first. */
  function Announced(st: State, state: string): State {
    var st1 := st.(status := state, lastType := Some("status"));
    if Breakpoint(Tracker(st.lastType, ""), Status(state)).Some? then st1.(loop := AtLock(Waiting))
    else st1.(loop := Waiting)
  }

  function Step(st: State, a: Action): State {
    match a
    case Submit(msg) =>
      var st1 := st.(submitted := st.submitted + multiset{msg});
      if st.status == "running" then st1.(deciding := st.deciding + multiset{msg})
      else st1.(direct := st.direct + multiset{msg})
    case EnqueueLocked(msg) =>
      if msg !in st.deciding || st.lock != Free then st
      else
        var st1 := st.(deciding := st.deciding - multiset{msg});
        if |st.queue| < QUEUED_MSGS_MAX then st1.(queue := st.queue + [msg], lock := Announcing)
        else st1.(direct := st.direct + multiset{msg})
    case AnnounceReads =>
      if st.lock != Announcing then st
      else if Breakpoint(Tracker(st.lastType, ""), Payload("queued", "", "")).Some? then st.(lock := Stuck)
      else st.(lock := Leaving)
    case ReleaseLock => if st.lock == Leaving then st.(lock := Free) else st
    case PutDirect(msg) =>
      if msg !in st.direct then st
      else st.(direct := st.direct - multiset{msg}, inbox := st.inbox + [msg])
    case DrainLocked => if st.lock == Free then Drained(st) else st
    case PutInjected(msg) =>
      if msg !in st.hands then st
      else st.(hands := st.hands - multiset{msg}, inbox := st.inbox + [msg])
    case TakeTurn =>
      if st.inbox == [] || st.loop != Waiting then st
      else
        st.(inbox := st.inbox[1..], started := st.started + [st.inbox[0]], status := "running", lastType := None,
            loop := InTurn)
    case LoopBreakpoint => if st.loop == InTurn then st.(loop := AtLock(InTurn)) else st
    case GoIdle => if st.loop == InTurn || st.loop == Opening then Announced(st, "idle") else st
    case GoError => if st.loop == InTurn then Announced(st, "error") else st
    case LoopDrains =>
      if st.lock != Free || !st.loop.AtLock? then st
      else
        Drained(st).(loop := st.loop.after,
                     idled := if st.loop.after == Waiting && st.status == "idle" then st.idled + 1 else st.idled)
    case Track(lastType) => st.(lastType := lastType)
  }

  function Run(st: State, acts: seq<Action>): State {
    if acts == [] then st else Step(Run(st, acts[..|acts| - 1]), acts[|acts| - 1])
  }

  ghost function Everywhere(st: State): multiset<string> {
    multiset(st.queue) + st.deciding + st.direct + st.hands + multiset(st.inbox) + multiset(st.started)
  }

  /** Every submitted non-empty message is in exactly one place, and the queue
      respects its cap. */
  ghost predicate Conserved(st: State) {
    && st.submitted["" := 0] == Everywhere(st)["" := 0]
    && |st.queue| <= QUEUED_MSGS_MAX
  }

  lemma Moves(a: multiset<string>, b: multiset<string>, c: multiset<string>, m: string)
    requires m in b
    ensures a + multiset{m} + (b - multiset{m}) == a + b
    ensures a + (b - multiset{m}) + (c + multiset{m}) == a + b + c
  {
  }

  lemma EnqueueKeepsMessages(st: State, msg: string)
    ensures Everywhere(Step(st, EnqueueLocked(msg))) == Everywhere(st)
  {
    var now := Step(st, EnqueueLocked(msg));
    if now != st {
      Moves(multiset(st.queue), st.deciding, st.direct, msg);
      if now.lock == Announcing {
        assert multiset(now.queue) == multiset(st.queue) + multiset{msg};
        assert multiset(now.queue) + now.deciding == multiset(st.queue) + st.deciding;
      } else {
        assert multiset(now.queue) + now.deciding + now.direct == multiset(st.queue) + st.deciding + st.direct;
      }
      assert now.hands == st.hands && now.inbox == st.inbox && now.started == st.started;
      hide Step;
    }
  }

  lemma DirectKeepsMessages(st: State, msg: string)
    ensures Everywhere(Step(st, PutDirect(msg))) == Everywhere(st)
  {
  }

  lemma InjectedKeepsMessages(st: State, msg: string)
    ensures Everywhere(Step(st, PutInjected(msg))) == Everywhere(st)
  {
  }

  lemma TakeKeepsMessages(st: State)
    ensures Everywhere(Step(st, TakeTurn)) == Everywhere(st)
  {
    if st.inbox != [] {
      assert st.inbox == [st.inbox[0]] + st.inbox[1..];
    }
  }

  lemma DrainKeepsMessages(st: State)
    ensures Everywhere(st) == Everywhere(Drained(st))
                              + (if st.queue != [] && st.queue[0] == "" then multiset{""} else multiset{})
  {
    if st.queue != [] {
      assert st.queue == [st.queue[0]] + st.queue[1..];
      Along(multiset(st.queue[1..]), st.deciding, st.direct, st.hands, st.queue[0]);
      if st.queue[0] == "" {
        Aside(multiset(st.queue[1..]) + st.deciding + st.direct + st.hands, multiset(st.inbox), multiset(st.started), "");
      }
    }
  }

  lemma Along(a: multiset<string>, b: multiset<string>, c: multiset<string>, d: multiset<string>, m: string)
    ensures a + multiset{m} + b + c + d == a + b + c + (d + multiset{m})
    ensures a + multiset{m} + b + c + d == a + b + c + d + multiset{m}
  {
  }

  lemma Aside(a: multiset<string>, b: multiset<string>, c: multiset<string>, m: string)
    ensures a + multiset{m} + b + c == a + b + c + multiset{m}
  {
  }

  lemma SubmitAddsMessage(st: State, msg: string)
    ensures Everywhere(Step(st, Submit(msg))) == Everywhere(st) + multiset{msg}
  {
  }

  lemma StepConserves(st: State, a: Action)
    requires Conserved(st)
    ensures Conserved(Step(st, a))
  {
    hide Everywhere;
    match a
    case Submit(msg) =>
      SubmitAddsMessage(st, msg);
      SameNonEmpty(st.submitted, Everywhere(st), multiset{msg});
    case DrainLocked => DrainConserves(st, a);
    case LoopDrains => DrainConserves(st, a);
    case TakeTurn => TakeKeepsMessages(st);
    case EnqueueLocked(msg) => EnqueueKeepsMessages(st, msg);
    case PutDirect(msg) => DirectKeepsMessages(st, msg);
    case PutInjected(msg) => InjectedKeepsMessages(st, msg);
    case _ =>
      FlagsAreNoPlace(st, a);
      SamePlacesConserve(st, Step(st, a));
  }

  lemma SameNonEmpty(a: multiset<string>, b: multiset<string>, c: multiset<string>)
    requires a["" := 0] == b["" := 0]
    ensures (a + c)["" := 0] == (b + c)["" := 0]
  {
    assert (a + c)["" := 0] == a["" := 0] + c["" := 0];
    assert (b + c)["" := 0] == b["" := 0] + c["" := 0];
  }

  predicate SamePlaces(a: State, b: State) {
    && a.queue == b.queue && a.deciding == b.deciding && a.direct == b.direct && a.hands == b.hands
    && a.inbox == b.inbox && a.started == b.started && a.submitted == b.submitted
  }

  lemma SamePlacesConserve(a: State, b: State)
    requires Conserved(a) && SamePlaces(a, b)
    ensures Conserved(b)
  {
    assert Everywhere(a) == Everywhere(b);
    hide Everywhere;
  }

  lemma FlagsAreNoPlace(st: State, a: Action)
    requires a.Track? || a.AnnounceReads? || a.ReleaseLock? || a.LoopBreakpoint? || a.GoIdle? || a.GoError?
    ensures SamePlaces(st, Step(st, a))
  {
    hide Breakpoint;
  }

  lemma DropEmpty(a: multiset<string>, b: multiset<string>, dropped: bool)
    requires a == b + (if dropped then multiset{""} else multiset{})
    ensures a["" := 0] == b["" := 0]
  {
  }

  lemma DrainedConserves(st: State)
    requires Conserved(st)
    ensures Conserved(Drained(st))
  {
    DrainKeepsMessages(st);
    assert |Drained(st).queue| <= |st.queue| && Drained(st).submitted == st.submitted;
    hide Everywhere, Drained;
    DropEmpty(Everywhere(st), Everywhere(Drained(st)), st.queue != [] && st.queue[0] == "");
  }

  lemma DrainConserves(st: State, a: Action)
    requires Conserved(st) && (a.DrainLocked? || a.LoopDrains?)
    ensures Conserved(Step(st, a))
  {
    DrainedConserves(st);
    var now := Step(st, a);
    assert now == st || SamePlaces(Drained(st), now);
    hide Step, Drained, SamePlaces, Conserved;
    if now != st {
      SamePlacesConserve(Drained(st), now);
    }
  }

  lemma {:induction false} MessagesAreConserved(acts: seq<Action>)
    ensures Conserved(Run(INIT, acts))
  {
    if acts != [] {
      MessagesAreConserved(acts[..|acts| - 1]);
      StepConserves(Run(INIT, acts[..|acts| - 1]), acts[|acts| - 1]);
    }
  }

  // ----- the submitter that waits for itself -----

  /** Step `n` is an announcement right after a thought or a tool result. */
  ghost predicate AnnouncesAtBreakpoint(acts: seq<Action>, n: int) {
    && 0 <= n < |acts| && acts[n] == AnnounceReads
    && var st := Run(INIT, acts[..n]);
       st.lock == Announcing && (st.lastType == Some("thinking") || st.lastType == Some("tool_result"))
  }

  /** In every run, some submitter waits for the lock it holds exactly when an
      announcement found a thought or a tool result to be the last event. */
  lemma {:induction false} StuckIff(acts: seq<Action>)
    ensures Run(INIT, acts).lock == Stuck <==> exists n :: AnnouncesAtBreakpoint(acts, n)
  {
    if acts != [] {
      var before, last := acts[..|acts| - 1], |acts| - 1;
      StuckIff(before);
      assert Run(INIT, acts) == Step(Run(INIT, before), acts[last]);
      hide Run, Step, AnnouncesAtBreakpoint;
      StepStuckIff(Run(INIT, before), acts[last]);
      LastAnnouncement(acts);
      if exists n :: AnnouncesAtBreakpoint(before, n) {
        var n :| AnnouncesAtBreakpoint(before, n);
        EarlierAnnouncement(acts, n);
      }
      if exists n :: AnnouncesAtBreakpoint(acts, n) {
        var n :| AnnouncesAtBreakpoint(acts, n);
        if n != last { EarlierAnnouncement(acts, n); }
      }
    }
  }

  lemma EarlierAnnouncement(acts: seq<Action>, n: int)
    requires acts != [] && n != |acts| - 1
    ensures AnnouncesAtBreakpoint(acts, n) <==> AnnouncesAtBreakpoint(acts[..|acts| - 1], n)
  {
    hide Run;
    if 0 <= n < |acts| - 1 {
      assert acts[..|acts| - 1][..n] == acts[..n];
    }
  }

  lemma LastAnnouncement(acts: seq<Action>)
    requires acts != []
    ensures var st := Run(INIT, acts[..|acts| - 1]);
            AnnouncesAtBreakpoint(acts, |acts| - 1)
            <==> acts[|acts| - 1] == AnnounceReads && st.lock == Announcing
                 && (st.lastType == Some("thinking") || st.lastType == Some("tool_result"))
  {
    hide Run;
  }

  lemma StepStuckIff(st: State, a: Action)
    ensures Step(st, a).lock == Stuck
       <==> st.lock == Stuck
            || (a == AnnounceReads && st.lock == Announcing
                && (st.lastType == Some("thinking") || st.lastType == Some("tool_result")))
  {
  }

  function Errors(acts: seq<Action>): nat {
    if acts == [] then 0 else Errors(acts[..|acts| - 1]) + (if acts[|acts| - 1] == GoError then 1 else 0)
  }

  /** Turns taken, and the one that could be taken now. */
  function Turns(st: State): nat {
    |st.started| + if st.loop == Waiting then 1 else 0
  }

  ghost predicate StillStuck(was: State, now: State) {
    && now.lock == Stuck && now.queue == was.queue && was.deciding <= now.deciding
    && now.idled == was.idled
    && (was.loop.AtLock? ==> now.loop == was.loop && now.started == was.started)
  }

  predicate OfLoop(a: Action) {
    a.TakeTurn? || a.LoopBreakpoint? || a.GoIdle? || a.GoError? || a.LoopDrains?
  }

  lemma StuckLoopStep(st: State, a: Action)
    requires st.lock == Stuck && OfLoop(a)
    ensures var now := Step(st, a);
            && now.lock == Stuck && now.queue == st.queue && now.deciding == st.deciding && now.idled == st.idled
            && (st.loop.AtLock? ==> now == st)
            && Turns(now) <= Turns(st) + (if a == GoError then 1 else 0)
  {
    IdleIsBreakpoint(Tracker(st.lastType, ""));
    hide Breakpoint, Drained;
  }

  lemma StuckOtherStep(st: State, a: Action)
    requires st.lock == Stuck && !OfLoop(a)
    ensures var now := Step(st, a);
            && now.lock == Stuck && now.queue == st.queue && now.idled == st.idled
            && now.loop == st.loop && now.started == st.started
            && (now.deciding == st.deciding || (a.Submit? && now.deciding == st.deciding + multiset{a.msg}))
  {
    hide Breakpoint, Drained, Announced;
  }

  lemma StuckStep(st: State, a: Action)
    requires st.lock == Stuck
    ensures StillStuck(st, Step(st, a))
    ensures Turns(Step(st, a)) <= Turns(st) + (if a == GoError then 1 else 0)
  {
    if OfLoop(a) { StuckLoopStep(st, a); } else { StuckOtherStep(st, a); }
    hide Step;
  }

  lemma IdleIsBreakpoint(tr: Tracker)
    ensures Breakpoint(tr, Status("idle")).Some?
  {
  }

  /** From then on no queued message is ever delivered, no submit that saw a
      running turn gets past the lock, and the loop never comes back from idle:
      it blocks at its next breakpoint, and takes at most one turn more than there
      are turns that end in error. */
  lemma {:induction false} StuckForGood(st: State, acts: seq<Action>)
    requires st.lock == Stuck
    ensures var end := Run(st, acts);
            && StillStuck(st, end)
            && |end.started| <= Turns(end) <= |st.started| + 1 + Errors(acts)
  {
    TurnsAfter(st, acts);
    hide Run, Errors;
  }

  lemma {:induction false} TurnsAfter(st: State, acts: seq<Action>)
    requires st.lock == Stuck
    ensures var end := Run(st, acts);
            && StillStuck(st, end)
            && Turns(end) <= Turns(st) + Errors(acts)
  {
    if acts != [] {
      TurnsAfter(st, acts[..|acts| - 1]);
      hide Step, Turns;
      StuckStep(Run(st, acts[..|acts| - 1]), acts[|acts| - 1]);
    }
  }

  /** The loop comes back from a turn that went idle only through the lock. */
  lemma IdleNeedsTheLock(st: State)
    requires st.loop == InTurn
    ensures Step(st, GoIdle).loop == AtLock(Waiting)
  {
    IdleIsBreakpoint(Tracker(st.lastType, ""));
    hide Breakpoint;
  }
}
