/** Submitted messages get through: what one undisturbed submit leaves, how a turn
    comes back to the inbox, and that from every state in which no submitter waits
    for itself all waiting messages can still be started. */
module MessageDelivery {
  import opened PyText
  import opened AgentTranscript
  import opened AgentSession
  import opened MessageFlow

  ghost predicate AfterThought(st: State) {
    st.lastType == Some("thinking") || st.lastType == Some("tool_result")
  }

  // ----- one submit, one end of a turn -----

  lemma AnnouncementIff(st: State)
    ensures Breakpoint(Tracker(st.lastType, ""), Payload("queued", "", "")).Some? <==> AfterThought(st)
  {
  }

  /** A submit that nothing interrupts: outside a turn, or with the queue full, the
      message is on its way to the inbox; else it is the last one queued, and the
      lock is free again exactly unless a thought or a tool result came last. */
  lemma SubmitOutcome(st: State, msg: string)
    requires st.lock == Free
    ensures var told := st.(submitted := st.submitted + multiset{msg});
            var entered := Step(Step(st, Submit(msg)), EnqueueLocked(msg));
            var left := Step(Step(entered, AnnounceReads), ReleaseLock);
            if st.status != "running" then
              Step(st, Submit(msg)) == told.(direct := st.direct + multiset{msg})
            else if |st.queue| >= QUEUED_MSGS_MAX then
              entered == told.(direct := st.direct + multiset{msg})
            else
              left == told.(queue := st.queue + [msg], lock := if AfterThought(st) then Stuck else Free)
  {
    assert st.deciding + multiset{msg} - multiset{msg} == st.deciding;
    if st.status == "running" {
      var deciding := Step(st, Submit(msg));
      assert deciding == st.(submitted := st.submitted + multiset{msg}, deciding := st.deciding + multiset{msg});
      var entered := Step(deciding, EnqueueLocked(msg));
      if |st.queue| < QUEUED_MSGS_MAX {
        assert entered == st.(submitted := st.submitted + multiset{msg}, queue := st.queue + [msg], lock := Announcing);
        hide Step;
        AnnouncementLeaves(entered);
      }
    }
  }

  lemma AnnouncementLeaves(st: State)
    requires st.lock == Announcing
    ensures Step(Step(st, AnnounceReads), ReleaseLock) == st.(lock := if AfterThought(st) then Stuck else Free)
  {
    AnnouncementIff(st);
    hide Breakpoint;
  }

  /** A turn starts with the message at the front of the inbox and forgets what
      the last one emitted; at a breakpoint inside it the front of the queue is
      taken in hand (dropped when empty) and the turn goes on. */
  lemma TurnStarts(st: State)
    requires st.loop == Waiting && st.inbox != []
    ensures var turn := Step(st, TakeTurn);
            && turn.started == st.started + [st.inbox[0]] && turn.inbox == st.inbox[1..]
            && turn.status == "running" && !AfterThought(turn) && turn.loop == InTurn
    ensures var turn := Step(st, TakeTurn);
            var after := Step(Step(turn, LoopBreakpoint), LoopDrains);
            st.lock == Free ==>
              && after.loop == InTurn && after.idled == st.idled
              && after.queue == (if st.queue == [] then [] else st.queue[1..])
              && after.hands == (if st.queue == [] || st.queue[0] == "" then st.hands
                                 else st.hands + multiset{st.queue[0]})
  {
    var turn := Step(st, TakeTurn);
    var at := Step(turn, LoopBreakpoint);
    assert at == turn.(loop := AtLock(InTurn));
  }

  /** A turn that goes idle comes back to the inbox through the lock, and one that
      fails does so at once unless a thought or a tool result came last; either
      takes the front of the queue along when it passes the lock. */
  lemma TurnEnds(st: State)
    requires st.loop == InTurn && st.lock == Free
    ensures var idle := Step(Step(st, GoIdle), LoopDrains);
            && idle.loop == Waiting && idle.status == "idle" && idle.idled == st.idled + 1
            && idle.queue == (if st.queue == [] then [] else st.queue[1..])
    ensures var failed := Step(st, GoError);
            && failed.loop == (if AfterThought(st) then AtLock(Waiting) else Waiting)
            && failed.status == "error" && failed.lastType == Some("status") && failed.queue == st.queue
            && Step(failed, LoopDrains).loop == Waiting && Step(failed, LoopDrains).idled == st.idled
  {
    IdleIsBreakpoint(Tracker(st.lastType, ""));
    ErrorIff(st);
    var idle, failed := Step(st, GoIdle), Step(st, GoError);
    assert idle == st.(status := "idle", lastType := Some("status"), loop := AtLock(Waiting));
    assert failed == st.(status := "error", lastType := Some("status"),
                         loop := if AfterThought(st) then AtLock(Waiting) else Waiting);
    hide Breakpoint, Announced, AfterThought;
  }

  lemma ErrorIff(st: State)
    ensures Breakpoint(Tracker(st.lastType, ""), Status("error")).Some? <==> AfterThought(st)
  {
  }

  // ----- everything can be started -----

  ghost function LoopWork(loop: Loop): nat {
    match loop
    case Waiting => 0
    case InTurn => 2
    case Opening => 2
    case AtLock(after) => 1 + LoopWork(after)
  }

  ghost function LockWork(st: State): nat {
    match st.lock
    case Announcing => if AfterThought(st) then 3 else 2
    case Leaving => 1
    case _ => 0
  }

  ghost function Work(st: State): nat {
    20 * |st.deciding| + 10 * |st.queue| + 5 * |st.direct| + 5 * |st.hands| + 3 * |st.inbox|
    + LockWork(st) + LoopWork(st.loop)
  }

  ghost predicate Finished(st: State) {
    && st.queue == [] && st.inbox == [] && st.lock == Free && st.loop == Waiting
    && st.deciding == multiset{} && st.direct == multiset{} && st.hands == multiset{}
  }

  lemma NextForLock(st: State) returns (a: Action)
    requires st.lock == Announcing || st.lock == Leaving
    ensures !a.Submit? && Step(st, a).lock != Stuck && Work(Step(st, a)) < Work(st)
  {
    AnnouncementIff(st);
    hide Breakpoint;
    a := if st.lock == Leaving then ReleaseLock else if AfterThought(st) then Track(None) else AnnounceReads;
  }

  lemma NextForMessages(st: State) returns (a: Action)
    requires st.lock == Free
    requires st.deciding != multiset{} || st.queue != [] || st.direct != multiset{} || st.hands != multiset{}
    ensures !a.Submit? && Step(st, a).lock != Stuck && Work(Step(st, a)) < Work(st)
  {
    if st.deciding != multiset{} {
      var m :| m in st.deciding;
      a := EnqueueLocked(m);
      EnqueueWorks(st, m);
    } else if st.queue != [] {
      a := DrainLocked;
      DrainWorks(st);
    } else {
      var m :| m in st.direct || m in st.hands;
      a := if m in st.direct then PutDirect(m) else PutInjected(m);
      PutWorks(st, m);
    }
    hide Step, Work;
  }

  lemma EnqueueWorks(st: State, m: string)
    requires st.lock == Free && m in st.deciding
    ensures var now := Step(st, EnqueueLocked(m)); now.lock != Stuck && Work(now) < Work(st)
  {
    var now := Step(st, EnqueueLocked(m));
    assert |now.deciding| == |st.deciding| - 1;
    hide LoopWork;
  }

  lemma DrainWorks(st: State)
    requires st.lock == Free && st.queue != []
    ensures var now := Step(st, DrainLocked); now.lock != Stuck && Work(now) < Work(st)
  {
    var now := Step(st, DrainLocked);
    assert |now.hands| <= |st.hands| + 1 && |now.queue| == |st.queue| - 1;
    hide LoopWork;
  }

  lemma PutWorks(st: State, m: string)
    requires st.lock == Free && (m in st.direct || m in st.hands)
    ensures var now := Step(st, if m in st.direct then PutDirect(m) else PutInjected(m));
            now.lock != Stuck && Work(now) < Work(st)
  {
    hide LoopWork;
  }

  lemma NextForLoop(st: State) returns (a: Action)
    requires st.lock == Free && st.queue == [] && (st.inbox != [] || st.loop != Waiting)
    ensures !a.Submit? && Step(st, a).lock != Stuck && Work(Step(st, a)) < Work(st)
  {
    match st.loop
    case Waiting =>
      a := TakeTurn;
    case AtLock(after) =>
      a := LoopDrains;
    case _ =>
      a := GoIdle;
      IdleIsBreakpoint(Tracker(st.lastType, ""));
      assert Step(st, a) == st.(status := "idle", lastType := Some("status"), loop := AtLock(Waiting));
      hide Step, Breakpoint;
  }

  lemma RunSnoc(st: State, a: Action, more: seq<Action>)
    ensures Run(st, [a] + more) == Run(Step(st, a), more)
    decreases |more|
  {
    hide Step;
    if more == [] {
      assert [a] + more == [a] && [a][..0] == [];
    } else {
      RunSnoc(st, a, more[..|more| - 1]);
      assert ([a] + more)[..|more|] == [a] + more[..|more| - 1];
    }
  }

  lemma {:induction false} CanFinish(st: State) returns (acts: seq<Action>)
    requires st.lock != Stuck
    ensures forall a :: a in acts ==> !a.Submit?
    ensures Finished(Run(st, acts))
    decreases Work(st)
  {
    hide Step, Run, Work;
    if Finished(st) {
      acts := [];
      RunNothing(st);
    } else {
      var a;
      if st.lock != Free {
        a := NextForLock(st);
      } else if st.deciding != multiset{} || st.queue != [] || st.direct != multiset{} || st.hands != multiset{} {
        a := NextForMessages(st);
      } else {
        a := NextForLoop(st);
      }
      var more := CanFinish(Step(st, a));
      RunSnoc(st, a, more);
      acts := [a] + more;
    }
  }

  lemma RunNothing(st: State)
    ensures Run(st, []) == st
  {
  }

  lemma {:induction false} RunConserves(st: State, acts: seq<Action>)
    requires Conserved(st)
    ensures Conserved(Run(st, acts))
    ensures (forall a :: a in acts ==> !a.Submit?) ==> Run(st, acts).submitted == st.submitted
  {
    hide Conserved;
    if acts != [] {
      var before, last := acts[..|acts| - 1], acts[|acts| - 1];
      RunConserves(st, before);
      assert forall a :: a in before ==> a in acts;
      assert last in acts;
      StepConserves(Run(st, before), last);
      OnlySubmitsSubmit(Run(st, before), last);
      hide Step;
    }
  }

  lemma OnlySubmitsSubmit(st: State, a: Action)
    ensures !a.Submit? ==> Step(st, a).submitted == st.submitted
  {
    hide Breakpoint;
  }

  /** After any run in which no submitter waits for itself, the threads can go on
      so that every non-empty message submitted so far is started as a turn. */
  lemma {:induction false} AllCanBeStarted(acts: seq<Action>) returns (more: seq<Action>)
    requires Run(INIT, acts).lock != Stuck
    ensures forall a :: a in more ==> !a.Submit?
    ensures var end := Run(Run(INIT, acts), more);
            && Finished(end)
            && multiset(end.started)["" := 0] == Run(INIT, acts).submitted["" := 0]
  {
    MessagesAreConserved(acts);
    more := CanFinish(Run(INIT, acts));
    RunConserves(Run(INIT, acts), more);
    hide Run;
    var end := Run(Run(INIT, acts), more);
    assert Everywhere(end) == multiset(end.started);
  }
}
