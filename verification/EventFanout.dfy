/** Live streaming of an agent session under every interleaving of emitting and
    subscribing threads.  Each section under the session lock is one step, and
    so is each queue operation outside it. */
module EventFanout {
  import opened AgentTranscript

  const QUEUE_SIZE := 512

  datatype Item = Live(ev: Event) | EndOfStream

  /** A subscriber's bounded queue, its reader, and the replay that the
      subscribing thread has yet to put.  `dropped` records what a full queue
      refused; `until` is the log length at the time of unsubscribing. */
  datatype Sub = Sub(since: nat, replay: seq<Event>, queue: seq<Item>, received: seq<Item>,
                     dropped: seq<Event>, registered: bool, until: nat)

  /** The part of one `emit` that runs after the lock is released. */
  datatype Push = Push(ev: Event, targets: seq<nat>)

  datatype State = State(events: seq<Event>, streamQueues: seq<nat>, subs: seq<Sub>, pushes: seq<Push>)

  const INIT := State([], [], [], [])

  datatype Action =
    | Emit(p: Payload)          // lock section of emit
    | PushNext(t: nat)          // one put_nowait of emit's loop
    | Subscribe(cursor: int)    // lock section of subscribe
    | ReplayNext(s: nat)        // one put_nowait of subscribe's loop
    | Unsubscribe(s: nat)       // lock section of unregister_stream_queue
    | PutEnd(s: nat)            // the sentinel of unsubscribe
    | Take(s: nat)              // the reader takes one item

  /** A cursor beyond the log is stale and falls back to a full replay. */
  function EffectiveSince(events: seq<Event>, cursor: int): nat {
    if cursor < |events| && cursor >= 0 then cursor else 0
  }

  function Offer(sub: Sub, ev: Event): Sub {
    if |sub.queue| < QUEUE_SIZE then sub.(queue := sub.queue + [Live(ev)])
    else sub.(dropped := sub.dropped + [ev])
  }

  function AfterPut(push: Push): Push
    requires push.targets != []
  {
    push.(targets := push.targets[1..])
  }

  function RemoveFirst(queues: seq<nat>, s: nat): seq<nat> {
    if queues == [] then []
    else if queues[0] == s then queues[1..]
    else [queues[0]] + RemoveFirst(queues[1..], s)
  }

  function Step(st: State, a: Action): State {
    match a
    case Emit(p) =>
      st.(events := Appended(st.events, p),
          pushes := st.pushes + [Push(StreamEvent(st.events, p), st.streamQueues)])
    case PushNext(t) =>
      if t < |st.pushes| && st.pushes[t].targets != [] && st.pushes[t].targets[0] < |st.subs| then
        var push := st.pushes[t];
        var s := push.targets[0];
        st.(subs := st.subs[s := Offer(st.subs[s], push.ev)],
            pushes := st.pushes[t := AfterPut(push)])
      else st
    case Subscribe(cursor) =>
      var since := EffectiveSince(st.events, cursor);
      st.(streamQueues := st.streamQueues + [|st.subs|],
          subs := st.subs + [Sub(since, st.events[since..], [], [], [], true, 0)])
    case ReplayNext(s) =>
      if s < |st.subs| && st.subs[s].replay != [] then
        var sub := st.subs[s];
        st.(subs := st.subs[s := Offer(sub.(replay := sub.replay[1..]), sub.replay[0])])
      else st
    case Unsubscribe(s) =>
      if s < |st.subs| && st.subs[s].registered then
        st.(streamQueues := RemoveFirst(st.streamQueues, s),
            subs := st.subs[s := st.subs[s].(registered := false, until := |st.events|)])
      else st
    case PutEnd(s) =>
      if s < |st.subs| && !st.subs[s].registered && |st.subs[s].queue| < QUEUE_SIZE then
        st.(subs := st.subs[s := st.subs[s].(queue := st.subs[s].queue + [EndOfStream])])
      else st
    case Take(s) =>
      if s < |st.subs| && st.subs[s].queue != [] then
        var sub := st.subs[s];
        st.(subs := st.subs[s := sub.(queue := sub.queue[1..], received := sub.received + [sub.queue[0]])])
      else st
  }

  function Run(acts: seq<Action>): State {
    if acts == [] then INIT else Step(Run(acts[..|acts| - 1]), acts[|acts| - 1])
  }

  // ----- copies of events -----

  function Events(items: seq<Item>): multiset<Event> {
    if items == [] then multiset{}
    else
      var rest := Events(items[..|items| - 1]);
      match items[|items| - 1]
      case Live(ev) => rest + multiset{ev}
      case EndOfStream => rest
  }

  function Times(ev: Event, n: nat): multiset<Event> {
    multiset{}[ev := n]
  }

  /** What running emits still have to put into queue `s`. */
  function Pending(pushes: seq<Push>, s: nat): multiset<Event> {
    if pushes == [] then multiset{}
    else
      var push := pushes[|pushes| - 1];
      Pending(pushes[..|pushes| - 1], s) + Times(push.ev, multiset(push.targets)[s])
  }

  function Held(sub: Sub): multiset<Event> {
    multiset(sub.replay) + Events(sub.queue) + Events(sub.received) + multiset(sub.dropped)
  }

  /** Every copy of an event that is somewhere on its way to reader `s`: to be
      replayed, queued, received, refused by the full queue, or still in the
      hands of a running emit. */
  function Copies(st: State, s: nat): multiset<Event>
    requires s < |st.subs|
  {
    Held(st.subs[s]) + Pending(st.pushes, s)
  }

  /** A reader is owed exactly the events of its range: one copy of each
      non-thinking event, copies of the thinking ones that are prefixes of the
      current text, and (while subscribed) one copy with the current text. */
  ghost predicate ExactlyOnce(events: seq<Event>, since: nat, registered: bool, until: nat,
                              copies: multiset<Event>) {
    var end := if registered then |events| else until;
    && end <= |events|
    && (forall e :: e in copies ==> since <= e.i < end && EarlierCopy(e, events[e.i]))
    && (forall k :: since <= k < end && !Thinking(events[k].kind) ==> copies[events[k]] == 1)
    && (registered ==> forall k :: since <= k < end ==> Current(events[k], copies))
  }

  ghost predicate Current(ev: Event, copies: multiset<Event>) {
    exists e :: e in copies && e.i == ev.i && e.text == ev.text
  }

  ghost predicate Owed(st: State, s: nat)
    requires s < |st.subs|
  {
    var sub := st.subs[s];
    ExactlyOnce(st.events, sub.since, sub.registered, sub.until, Copies(st, s))
  }

  ghost predicate Registration(st: State) {
    && (forall s :: s in st.streamQueues ==> s < |st.subs|)
    && (forall t :: 0 <= t < |st.pushes| ==> TargetsKnown(st.pushes[t], |st.subs|))
    && forall s :: 0 <= s < |st.subs| ==> Registered(st, s)
  }

  ghost predicate TargetsKnown(push: Push, n: nat) {
    forall s :: s in push.targets ==> s < n
  }

  ghost predicate Registered(st: State, s: nat)
    requires s < |st.subs|
  {
    && multiset(st.streamQueues)[s] == (if st.subs[s].registered then 1 else 0)
    && (st.subs[s].since == 0 || st.subs[s].since < |st.events|)
    && |st.subs[s].queue| <= QUEUE_SIZE
  }

  ghost predicate Inv(st: State) {
    && WellFormed(st.events)
    && Registration(st)
    && forall s :: 0 <= s < |st.subs| ==> Owed(st, s)
  }

  // ----- moving a copy changes no count -----

  lemma {:induction false} EventsConcat(a: seq<Item>, b: seq<Item>)
    ensures Events(a + b) == Events(a) + Events(b)
    decreases |b|
  {
    if b == [] {
      assert a + b == a;
    } else {
      EventsConcat(a, b[..|b| - 1]);
      assert (a + b)[..|a + b| - 1] == a + b[..|b| - 1];
    }
  }

  lemma EventsOne(x: Item)
    ensures Events([x]) == match x case Live(ev) => multiset{ev} case EndOfStream => multiset{}
  {
    assert [x][..0] == [];
  }

  lemma OfferHolds(sub: Sub, ev: Event)
    ensures Held(Offer(sub, ev)) == Held(sub) + multiset{ev}
  {
    EventsConcat(sub.queue, [Live(ev)]);
    EventsOne(Live(ev));
  }

  lemma TimesSplit(ev: Event, n: nat, m: nat)
    ensures Times(ev, n + m) == Times(ev, n) + Times(ev, m)
  {
  }

  lemma PendingSnoc(pushes: seq<Push>, push: Push, s: nat)
    ensures Pending(pushes + [push], s) == Pending(pushes, s) + Times(push.ev, multiset(push.targets)[s])
  {
    assert (pushes + [push])[..|pushes|] == pushes;
  }

  lemma TargetsAfterPut(push: Push, s: nat)
    requires push.targets != []
    ensures Times(push.ev, multiset(push.targets)[s])
         == Times(push.ev, multiset(AfterPut(push).targets)[s])
            + Times(push.ev, if push.targets[0] == s then 1 else 0)
  {
    var rest: seq<nat> := AfterPut(push).targets;
    assert push.targets == [push.targets[0]] + rest;
    TimesSplit(push.ev, multiset(rest)[s], if push.targets[0] == s then 1 else 0);
  }

  lemma {:induction false} PendingConcat(a: seq<Push>, b: seq<Push>, s: nat)
    ensures Pending(a + b, s) == Pending(a, s) + Pending(b, s)
    decreases |b|
  {
    hide Times;
    if b == [] {
      assert a + b == a;
    } else {
      PendingConcat(a, b[..|b| - 1], s);
      assert (a + b)[..|a + b| - 1] == a + b[..|b| - 1];
    }
  }

  /** One push of several contributes its own copies. */
  lemma PendingAround(a: seq<Push>, push: Push, b: seq<Push>, s: nat)
    ensures Pending(a + [push] + b, s)
         == Pending(a, s) + Pending(b, s) + Times(push.ev, multiset(push.targets)[s])
  {
    PendingConcat(a + [push], b, s);
    PendingSnoc(a, push, s);
    hide Pending, Times;
  }

  lemma PendingAfterPut(pushes: seq<Push>, t: nat, s: nat)
    requires t < |pushes| && pushes[t].targets != []
    ensures Pending(pushes, s)
         == Pending(pushes[t := AfterPut(pushes[t])], s)
            + Times(pushes[t].ev, if pushes[t].targets[0] == s then 1 else 0)
  {
    var a, push, b := pushes[..t], pushes[t], pushes[t + 1..];
    var put := AfterPut(push);
    TargetsAfterPut(push, s);
    PendingAround(a, push, b, s);
    PendingAround(a, put, b, s);
    CutAt(pushes, t, push);
    CutAt(pushes, t, put);
    hide Pending, Times, AfterPut;
    assert pushes[t := push] == pushes;
    OneApart(Pending(a, s) + Pending(b, s), Times(put.ev, multiset(put.targets)[s]),
             Times(push.ev, if push.targets[0] == s then 1 else 0));
  }

  lemma CutAt(pushes: seq<Push>, t: nat, push: Push)
    requires t < |pushes|
    ensures pushes[t := push] == pushes[..t] + [push] + pushes[t + 1..]
  {
  }

  lemma OneApart(rest: multiset<Event>, now: multiset<Event>, one: multiset<Event>)
    ensures rest + (now + one) == rest + now + one
  {
  }

  lemma {:induction false} NothingPendingFor(pushes: seq<Push>, s: nat)
    requires forall t :: 0 <= t < |pushes| ==> TargetsKnown(pushes[t], s)
    ensures Pending(pushes, s) == multiset{}
  {
    if pushes != [] {
      NothingPendingFor(pushes[..|pushes| - 1], s);
      assert TargetsKnown(pushes[|pushes| - 1], s);
      assert s !in pushes[|pushes| - 1].targets;
    }
  }

  ghost predicate SameRange(a: Sub, b: Sub) {
    a.since == b.since && a.registered == b.registered && a.until == b.until
  }

  lemma PushKeepsCopies(st: State, t: nat, s: nat)
    requires s < |st.subs| && Step(st, PushNext(t)) != st
    ensures Copies(Step(st, PushNext(t)), s) == Copies(st, s)
  {
    hide Held, Pending, Offer;
    PendingAfterPut(st.pushes, t, s);
    OfferHolds(st.subs[s], st.pushes[t].ev);
  }

  lemma ReplayHeld(sub: Sub)
    requires sub.replay != []
    ensures Held(sub) == Held(sub.(replay := sub.replay[1..])) + multiset{sub.replay[0]}
  {
    assert sub.replay == [sub.replay[0]] + sub.replay[1..];
  }

  lemma ReplayKeepsCopies(st: State, s: nat)
    requires s < |st.subs| && st.subs[s].replay != []
    ensures Copies(Step(st, ReplayNext(s)), s) == Copies(st, s)
  {
    var sub, now := st.subs[s], Step(st, ReplayNext(s));
    var cut := sub.(replay := sub.replay[1..]);
    assert now.pushes == st.pushes && now.subs[s] == Offer(cut, sub.replay[0]);
    ReplayHeld(sub);
    hide Held, Pending, Offer, Step;
    OfferHolds(cut, sub.replay[0]);
  }

  lemma TakeKeepsHeld(sub: Sub)
    requires sub.queue != []
    ensures Held(sub.(queue := sub.queue[1..], received := sub.received + [sub.queue[0]])) == Held(sub)
  {
    hide Events;
    assert sub.queue == [sub.queue[0]] + sub.queue[1..];
    EventsConcat([sub.queue[0]], sub.queue[1..]);
    EventsConcat(sub.received, [sub.queue[0]]);
  }

  lemma EndKeepsHeld(sub: Sub)
    ensures Held(sub.(queue := sub.queue + [EndOfStream])) == Held(sub)
  {
    EventsConcat(sub.queue, [EndOfStream]);
    EventsOne(EndOfStream);
  }

  /** Putting, replaying, taking and ending the stream only move copies. */
  lemma MovesKeepCopies(st: State, a: Action, s: nat)
    requires a.PushNext? || a.ReplayNext? || a.PutEnd? || a.Take?
    requires s < |st.subs|
    ensures |Step(st, a).subs| == |st.subs| && Copies(Step(st, a), s) == Copies(st, s)
  {
    if Step(st, a) != st {
      match a
      case PushNext(t) => PushKeepsCopies(st, t, s);
      case ReplayNext(r) =>
        if r == s { ReplayKeepsCopies(st, r); }
      case PutEnd(r) => EndKeepsHeld(st.subs[r]);
      case Take(r) => TakeKeepsHeld(st.subs[r]);
    }
  }

  lemma MovesKeepRange(st: State, a: Action, s: nat)
    requires a.PushNext? || a.ReplayNext? || a.PutEnd? || a.Take?
    requires s < |st.subs|
    ensures var now := Step(st, a);
            |now.subs| == |st.subs| && now.events == st.events && SameRange(now.subs[s], st.subs[s])
  {
  }

  /** The lock section of emit adds one copy for every registered queue. */
  lemma EmitCopies(st: State, p: Payload, s: nat)
    requires s < |st.subs| && Registration(st)
    ensures Copies(Step(st, Emit(p)), s)
         == Copies(st, s) + Times(StreamEvent(st.events, p), if st.subs[s].registered then 1 else 0)
  {
    EmitFrame(st, p);
    hide Step, Held, Times, Pending, StreamEvent, Appended;
    PendingSnoc(st.pushes, Push(StreamEvent(st.events, p), st.streamQueues), s);
    assert Registered(st, s);
  }

  lemma TimesOnce(ev: Event)
    ensures Times(ev, 1) == multiset{ev} && Times(ev, 0) == multiset{}
  {
  }

  // ----- every step keeps the invariant -----

  lemma MovesKeepInv(st: State, a: Action)
    requires Inv(st) && (a.PushNext? || a.ReplayNext? || a.PutEnd? || a.Take?)
    ensures Inv(Step(st, a))
  {
    var now := Step(st, a);
    assert |now.subs| == |st.subs| && now.events == st.events;
    MovesKeepRegistration(st, a);
    hide Step, Copies, WellFormed, ExactlyOnce, Registration;
    forall s | 0 <= s < |st.subs| ensures Owed(now, s) {
      MovesKeepCopies(st, a, s);
      MovesKeepRange(st, a, s);
      assert Owed(st, s);
    }
  }

  lemma MovesKeepRegistration(st: State, a: Action)
    requires Registration(st) && (a.PushNext? || a.ReplayNext? || a.PutEnd? || a.Take?)
    ensures Registration(Step(st, a))
  {
    var now := Step(st, a);
    hide TargetsKnown;
    forall s | 0 <= s < |now.subs| ensures Registered(now, s) {
      assert Registered(st, s);
    }
    if a.PushNext? && now != st {
      FewerTargets(st.pushes[a.t], |st.subs|);
    }
  }

  lemma FewerTargets(push: Push, n: nat)
    requires push.targets != [] && TargetsKnown(push, n)
    ensures TargetsKnown(AfterPut(push), n)
  {
    assert forall s :: s in push.targets[1..] ==> s in push.targets;
  }

  /** What one emit does to the log, as EmitKeepsTranscript states it. */
  ghost predicate Grown(events: seq<Event>, now: seq<Event>, stream: Event) {
    && 0 < |now| && |events| <= |now| <= |events| + 1
    && (|now| == |events| ==> Thinking(now[|now| - 1].kind))
    && (forall k :: 0 <= k < |events| ==> EarlierCopy(events[k], now[k]))
    && (forall k :: 0 <= k < |now| - 1 ==> events[k] == now[k])
    && (forall k :: 0 <= k < |now| ==> now[k].i == k)
    && EarlierCopy(stream, now[|now| - 1]) && stream.text == now[|now| - 1].text
  }

  lemma EmitGrows(events: seq<Event>, p: Payload)
    requires WellFormed(events)
    ensures Grown(events, Appended(events, p), StreamEvent(events, p))
  {
    EmitKeepsTranscript(events, p);
  }

  lemma CopiesStayEarlier(events: seq<Event>, now: seq<Event>, stream: Event, since: nat, end: nat,
                          copies: multiset<Event>)
    requires Grown(events, now, stream) && end <= |events|
    requires forall e :: e in copies ==> since <= e.i < end && EarlierCopy(e, events[e.i])
    ensures forall e :: e in copies ==> since <= e.i < end && EarlierCopy(e, now[e.i])
  {
    forall e | e in copies ensures EarlierCopy(e, now[e.i]) {
      assert EarlierCopy(events[e.i], now[e.i]);
    }
  }

  /** Adding the streamed event to the copies of a subscribed reader pays for
      what the log has gained. */
  lemma EmitPays(events: seq<Event>, now: seq<Event>, stream: Event, since: nat, until: nat,
                 copies: multiset<Event>)
    requires Grown(events, now, stream) && ExactlyOnce(events, since, true, until, copies)
    requires since == 0 || since < |events|
    ensures ExactlyOnce(now, since, true, until, copies + multiset{stream})
  {
    var more := copies + multiset{stream};
    CopiesInRange(events, now, stream, since, until, copies);
    forall k | since <= k < |now| && !Thinking(now[k].kind) ensures more[now[k]] == 1 {
      OneCopyEach(events, now, stream, since, until, copies, k);
    }
    forall k | since <= k < |now| ensures Current(now[k], more) {
      CurrentCopyEach(events, now, stream, since, until, copies, k);
    }
    hide Grown, Current, EarlierCopy;
  }

  lemma CopiesInRange(events: seq<Event>, now: seq<Event>, stream: Event, since: nat, until: nat,
                      copies: multiset<Event>)
    requires Grown(events, now, stream) && ExactlyOnce(events, since, true, until, copies)
    requires since == 0 || since < |events|
    ensures forall e :: e in copies + multiset{stream} ==> since <= e.i < |now| && EarlierCopy(e, now[e.i])
  {
    CopiesStayEarlier(events, now, stream, since, |events|, copies);
    assert forall e :: e in copies + multiset{stream} ==> e in copies || e == stream;
  }

  lemma OneCopyEach(events: seq<Event>, now: seq<Event>, stream: Event, since: nat, until: nat,
                    copies: multiset<Event>, k: nat)
    requires Grown(events, now, stream) && ExactlyOnce(events, since, true, until, copies)
    requires since <= k < |now| && !Thinking(now[k].kind)
    ensures (copies + multiset{stream})[now[k]] == 1
  {
    if k < |events| {
      assert EarlierCopy(events[k], now[k]) && now[k] == events[k];
      assert stream != now[k];
    } else {
      assert now[k] == stream && stream.i == |events|;
      assert forall e :: e in copies ==> e.i < |events|;
    }
  }

  lemma CurrentCopyEach(events: seq<Event>, now: seq<Event>, stream: Event, since: nat, until: nat,
                        copies: multiset<Event>, k: nat)
    requires Grown(events, now, stream) && ExactlyOnce(events, since, true, until, copies)
    requires since <= k < |now|
    ensures Current(now[k], copies + multiset{stream})
  {
    var more := copies + multiset{stream};
    if k < |now| - 1 {
      assert Current(events[k], copies) && now[k] == events[k];
      var e :| e in copies && e.i == k && e.text == events[k].text;
      assert e in more;
    } else {
      assert stream in more;
    }
  }

  /** For a reader that has left, the log may grow without further copies. */
  lemma LogGrowth(events: seq<Event>, now: seq<Event>, stream: Event, since: nat, until: nat,
                  copies: multiset<Event>)
    requires Grown(events, now, stream) && ExactlyOnce(events, since, false, until, copies)
    ensures ExactlyOnce(now, since, false, until, copies)
  {
    CopiesStayEarlier(events, now, stream, since, until, copies);
    forall k | since <= k < until && !Thinking(now[k].kind) ensures copies[now[k]] == 1 {
      assert EarlierCopy(events[k], now[k]);
    }
  }

  lemma EmitFrame(st: State, p: Payload)
    ensures var now := Step(st, Emit(p));
            && now.subs == st.subs && now.events == Appended(st.events, p)
            && now.streamQueues == st.streamQueues
            && now.pushes == st.pushes + [Push(StreamEvent(st.events, p), st.streamQueues)]
  {
  }

  lemma EmitKeepsOne(st: State, p: Payload, s: nat)
    requires WellFormed(st.events) && Registration(st) && s < |st.subs| && Owed(st, s)
    ensures s < |Step(st, Emit(p)).subs| && Owed(Step(st, Emit(p)), s)
  {
    var sub, now, stream := st.subs[s], Appended(st.events, p), StreamEvent(st.events, p);
    assert Registered(st, s);
    EmitFrame(st, p);
    hide Step, Copies, Appended, StreamEvent, ExactlyOnce, Registration, WellFormed, Times;
    EmitCopies(st, p, s);
    EmitGrows(st.events, p);
    TimesOnce(stream);
    hide Grown;
    var copies := Copies(st, s);
    if sub.registered {
      EmitPays(st.events, now, stream, sub.since, sub.until, copies);
    } else {
      assert copies + multiset{} == copies;
      LogGrowth(st.events, now, stream, sub.since, sub.until, copies);
    }
  }

  lemma EmitKeepsInv(st: State, p: Payload)
    requires Inv(st)
    ensures Inv(Step(st, Emit(p)))
  {
    var now := Step(st, Emit(p));
    EmitFrame(st, p);
    EmitKeepsTranscript(st.events, p);
    hide Step, Appended, StreamEvent, ExactlyOnce, Copies, WellFormed, Owed;
    forall s | 0 <= s < |now.subs| ensures Owed(now, s) && Registered(now, s) {
      assert Owed(st, s) && Registered(st, s);
      EmitKeepsOne(st, p, s);
    }
    assert TargetsKnown(now.pushes[|st.pushes|], |st.subs|);
  }

  lemma {:induction false} DistinctReplay(events: seq<Event>, since: nat, k: nat)
    requires WellFormed(events) && since <= k < |events|
    ensures multiset(events[since..])[events[k]] == 1
  {
    assert events[since..] == events[since..k] + [events[k]] + events[k + 1..];
    assert events[k] !in events[since..k] && events[k] !in events[k + 1..];
  }

  /** The events replayed to a new subscriber are exactly its range. */
  lemma ReplayIsOwed(events: seq<Event>, since: nat)
    requires WellFormed(events) && since <= |events|
    ensures ExactlyOnce(events, since, true, 0, multiset(events[since..]))
  {
    var replay := events[since..];
    forall k | since <= k < |events|
      ensures multiset(replay)[events[k]] == 1 && Current(events[k], multiset(replay))
    {
      DistinctReplay(events, since, k);
      assert events[k] in multiset(replay);
    }
    forall e: Event | e in multiset(replay) ensures since <= e.i < |events| && EarlierCopy(e, events[e.i]) {
      assert e in replay;
    }
  }

  lemma SubscribeKeepsRegistration(st: State, cursor: int)
    requires Registration(st)
    ensures Registration(Step(st, Subscribe(cursor)))
  {
    var now := Step(st, Subscribe(cursor));
    assert |st.subs| !in st.streamQueues;
    forall s | 0 <= s < |now.subs| ensures Registered(now, s) {
      if s < |st.subs| { assert Registered(st, s); }
    }
  }

  lemma NewSubscriberIsOwed(st: State, cursor: int)
    requires Inv(st)
    ensures var now := Step(st, Subscribe(cursor));
            |now.subs| == |st.subs| + 1 && Owed(now, |st.subs|)
  {
    var now := Step(st, Subscribe(cursor));
    var added, since := |st.subs|, EffectiveSince(st.events, cursor);
    ReplayIsOwed(st.events, since);
    NothingPendingFor(st.pushes, added);
    hide ExactlyOnce, WellFormed, Pending, EffectiveSince;
    assert Copies(now, added) == multiset(st.events[since..]);
  }

  lemma SubscribeKeepsOne(st: State, cursor: int, s: nat)
    requires s < |st.subs| && Owed(st, s)
    ensures Owed(Step(st, Subscribe(cursor)), s)
  {
    hide ExactlyOnce, Held, Pending, EffectiveSince;
  }

  ghost predicate AllOwed(st: State, n: nat) {
    n <= |st.subs| && forall s :: 0 <= s < n ==> Owed(st, s)
  }

  lemma OneMoreOwed(st: State, n: nat)
    requires AllOwed(st, n) && n < |st.subs| && Owed(st, n)
    ensures AllOwed(st, n + 1)
  {
    hide Owed;
  }

  lemma SubscribeKeepsOld(st: State, cursor: int)
    requires Inv(st)
    ensures AllOwed(Step(st, Subscribe(cursor)), |st.subs|)
  {
    var now := Step(st, Subscribe(cursor));
    assert |now.subs| == |st.subs| + 1;
    hide Step, Owed;
    forall s | 0 <= s < |st.subs| ensures Owed(now, s) {
      SubscribeKeepsOne(st, cursor, s);
    }
  }

  lemma SubscribeKeepsInv(st: State, cursor: int)
    requires Inv(st)
    ensures Inv(Step(st, Subscribe(cursor)))
  {
    var now := Step(st, Subscribe(cursor));
    assert WellFormed(now.events);
    SubscribeKeepsRegistration(st, cursor);
    NewSubscriberIsOwed(st, cursor);
    SubscribeKeepsOld(st, cursor);
    OneMoreOwed(now, |st.subs|);
    hide Step, WellFormed, Owed, Registration;
  }

  lemma {:induction false} RemoveFirstCounts(queues: seq<nat>, s: nat)
    ensures multiset(RemoveFirst(queues, s)) == multiset(queues) - multiset{s}
  {
    if queues != [] {
      var head, rest := queues[0], queues[1..];
      RemoveFirstCounts(rest, s);
      assert queues == [head] + rest;
      CountsSplit(head, rest);
      if head != s {
        CountsSplit(head, RemoveFirst(rest, s));
        TakeOther(multiset(rest), head, s);
      } else {
        assert RemoveFirst(queues, s) == rest;
      }
    }
  }

  lemma TakeOther(counts: multiset<nat>, head: nat, s: nat)
    requires head != s
    ensures multiset{head} + (counts - multiset{s}) == multiset{head} + counts - multiset{s}
  {
  }

  lemma CountsSplit(head: nat, rest: seq<nat>)
    ensures multiset([head] + rest) == multiset{head} + multiset(rest)
  {
  }

  lemma UnsubscribeKeepsRegistration(st: State, u: nat)
    requires Registration(st)
    ensures Registration(Step(st, Unsubscribe(u)))
  {
    var now := Step(st, Unsubscribe(u));
    if now != st {
      UnsubscribeFrame(st, u);
      hide Step, RemoveFirst, TargetsKnown;
      forall s | s in now.streamQueues ensures s < |now.subs| {
        assert s in multiset(now.streamQueues);
        assert s in multiset(st.streamQueues);
        assert s in st.streamQueues;
      }
      forall s | 0 <= s < |now.subs| ensures Registered(now, s) {
        assert Registered(st, s);
      }
    }
  }

  lemma UnsubscribeFrame(st: State, u: nat)
    requires Step(st, Unsubscribe(u)) != st
    ensures var now := Step(st, Unsubscribe(u));
            && u < |st.subs| && st.subs[u].registered
            && now.events == st.events && now.pushes == st.pushes
            && now.subs == st.subs[u := st.subs[u].(registered := false, until := |st.events|)]
            && multiset(now.streamQueues) == multiset(st.streamQueues) - multiset{u}
  {
    RemoveFirstCounts(st.streamQueues, u);
    hide RemoveFirst;
  }

  /** For the copies themselves it does not matter who is still subscribed. */
  lemma LeavingKeepsOwed(events: seq<Event>, since: nat, until: nat, copies: multiset<Event>)
    requires ExactlyOnce(events, since, true, until, copies)
    ensures ExactlyOnce(events, since, false, |events|, copies)
  {
    hide Current, EarlierCopy;
  }

  lemma UnsubscribeKeepsOne(st: State, u: nat, s: nat)
    requires s < |st.subs| && Owed(st, s)
    ensures s < |Step(st, Unsubscribe(u)).subs| && Owed(Step(st, Unsubscribe(u)), s)
  {
    var sub := st.subs[s];
    HeldIgnoresFlags(sub, |st.events|);
    hide ExactlyOnce, Held, Pending, RemoveFirst;
    if s == u && sub.registered {
      LeavingKeepsOwed(st.events, sub.since, sub.until, Copies(st, s));
    }
  }

  lemma UnsubscribeKeepsInv(st: State, u: nat)
    requires Inv(st)
    ensures Inv(Step(st, Unsubscribe(u)))
  {
    var now := Step(st, Unsubscribe(u));
    assert now.events == st.events && |now.subs| == |st.subs|;
    UnsubscribeKeepsRegistration(st, u);
    hide Step, WellFormed, Owed, Registration;
    forall s | 0 <= s < |now.subs| ensures Owed(now, s) {
      UnsubscribeKeepsOne(st, u, s);
    }
  }

  lemma HeldIgnoresFlags(sub: Sub, n: nat)
    ensures Held(sub.(registered := false, until := n)) == Held(sub)
  {
  }

  /** No duplicates and no missing events, in every run of any number of
      emitters, subscribers and readers. */
  lemma {:induction false} StreamsAreExactlyOnce(acts: seq<Action>)
    ensures Inv(Run(acts))
  {
    if acts != [] {
      StreamsAreExactlyOnce(acts[..|acts| - 1]);
      var st := Run(acts[..|acts| - 1]);
      match acts[|acts| - 1]
      case Emit(p) => EmitKeepsInv(st, p);
      case Subscribe(cursor) => SubscribeKeepsInv(st, cursor);
      case Unsubscribe(s) => UnsubscribeKeepsInv(st, s);
      case _ => MovesKeepInv(st, acts[|acts| - 1]);
    }
  }

  /** Once the threads serving it are done and it has drained its queue, a
      reader that never overflowed has received its range exactly once. */
  lemma DrainedReaderHasEverything(acts: seq<Action>, s: nat, k: nat)
    requires var st := Run(acts);
             && s < |st.subs| && st.subs[s].registered
             && st.subs[s].replay == [] && st.subs[s].queue == [] && st.subs[s].dropped == []
             && Pending(st.pushes, s) == multiset{}
             && st.subs[s].since <= k < |st.events|
    ensures var st := Run(acts);
            var received := Events(st.subs[s].received);
            && Current(st.events[k], received)
            && (!Thinking(st.events[k].kind) ==> received[st.events[k]] == 1)
  {
    var st := Run(acts);
    StreamsAreExactlyOnce(acts);
    assert Owed(st, s);
    assert Copies(st, s) == Events(st.subs[s].received);
  }

  /** Replay honours the client's cursor exactly when the cursor is not past
      the last event.  In particular a client that has seen everything and
      reconnects with the next index is sent the whole transcript again. */
  lemma ReplayHonoursCursorIff(st: State, cursor: int)
    requires WellFormed(st.events)
    ensures var replay := Step(st, Subscribe(cursor)).subs[|st.subs|].replay;
            (forall e :: e in replay ==> e.i >= cursor)
            <==> cursor < |st.events| || cursor <= 0 || st.events == []
  {
    var replay := Step(st, Subscribe(cursor)).subs[|st.subs|].replay;
    var since := EffectiveSince(st.events, cursor);
    assert forall k :: since <= k < |st.events| ==> replay[k - since] == st.events[k];
    if cursor >= |st.events| && cursor > 0 && st.events != [] {
      assert replay[0] == st.events[0] && st.events[0] in replay;
    }
  }
}
