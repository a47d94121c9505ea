/** What reaches a reader of a live stream: when its queue refuses an event, in
    which order items arrive, and that everything it is owed can be delivered. */
module FanoutDelivery {
  import opened PyText
  import opened AgentTranscript
  import opened EventFanout

  // ----- one put -----

  /** The event that a step tries to put into the queue of reader `s`, by a
      running emit or by the replay. */
  ghost function PutBy(st: State, a: Action, s: nat): Option<Event>
    requires s < |st.subs|
  {
    match a
    case PushNext(t) =>
      if t < |st.pushes| && st.pushes[t].targets != [] && st.pushes[t].targets[0] == s
      then Some(st.pushes[t].ev) else None
    case ReplayNext(r) =>
      if r == s && st.subs[s].replay != [] then Some(st.subs[s].replay[0]) else None
    case _ => None
  }

  ghost predicate EndsStream(st: State, a: Action, s: nat)
    requires s < |st.subs|
  {
    a == PutEnd(s) && !st.subs[s].registered
  }

  ghost predicate Full(st: State, s: nat) {
    s < |st.subs| && |st.subs[s].queue| >= QUEUE_SIZE
  }

  /** Everything that ever got into a reader's queue, in order. */
  ghost function Arrived(sub: Sub): seq<Item> {
    sub.received + sub.queue
  }

  /** A put into a queue with room arrives behind everything that arrived
      before; a put into a full queue is refused.  Nothing else arrives or is
      refused, and what has arrived stays, in its order. */
  lemma {:induction false} PutOutcome(st: State, a: Action, s: nat)
    requires s < |st.subs|
    ensures var now := Step(st, a);
            var put := PutBy(st, a, s);
            && s < |now.subs|
            && Arrived(now.subs[s]) == Arrived(st.subs[s]) +
                 (if Full(st, s) then [] else if put.Some? then [Live(put.value)]
                  else if EndsStream(st, a, s) then [EndOfStream] else [])
            && now.subs[s].dropped == st.subs[s].dropped +
                 (if Full(st, s) && put.Some? then [put.value] else [])
  {
    var sub, now := st.subs[s], Step(st, a);
    assert Arrived(sub) + [] == Arrived(sub) && sub.dropped + [] == sub.dropped;
    match a
    case PushNext(t) =>
      if t < |st.pushes| && st.pushes[t].targets != [] && st.pushes[t].targets[0] < |st.subs| {
        OfferArrives(st.subs[st.pushes[t].targets[0]], st.pushes[t].ev);
      }
    case ReplayNext(r) =>
      if r == s && sub.replay != [] {
        OfferArrives(sub.(replay := sub.replay[1..]), sub.replay[0]);
      }
    case Take(r) =>
      if r == s && sub.queue != [] {
        assert sub.queue == [sub.queue[0]] + sub.queue[1..];
        assert sub.received + sub.queue == (sub.received + [sub.queue[0]]) + sub.queue[1..];
      }
    case PutEnd(r) =>
      assert sub.received + (sub.queue + [EndOfStream]) == Arrived(sub) + [EndOfStream];
    case _ =>
  }

  lemma OfferArrives(sub: Sub, ev: Event)
    ensures var put := Offer(sub, ev);
            && Arrived(put) == Arrived(sub) + (if |sub.queue| < QUEUE_SIZE then [Live(ev)] else [])
            && put.dropped == sub.dropped + (if |sub.queue| < QUEUE_SIZE then [] else [ev])
            && put.received == sub.received && put.registered == sub.registered
  {
    assert sub.received + (sub.queue + [Live(ev)]) == sub.received + sub.queue + [Live(ev)];
  }

  // ----- over whole runs -----

  /** Did step `n` of the run put an event into the full queue of reader `s`? */
  ghost predicate RefusedAt(acts: seq<Action>, s: nat, n: nat) {
    && n < |acts|
    && Full(Run(acts[..n]), s)
    && PutBy(Run(acts[..n]), acts[n], s).Some?
  }

  lemma SubsOnlyGrow(st: State, a: Action)
    ensures |st.subs| <= |Step(st, a).subs| <= |st.subs| + 1
    ensures |Step(st, a).subs| > |st.subs| ==> Step(st, a).subs[|st.subs|].dropped == []
  {
  }

  lemma SameRefusals(acts: seq<Action>, s: nat, n: nat)
    requires acts != [] && n < |acts| - 1
    ensures RefusedAt(acts, s, n) <==> RefusedAt(acts[..|acts| - 1], s, n)
  {
    assert acts[..|acts| - 1][..n] == acts[..n];
  }

  /** In every run a reader has lost events if and only if some put found its
      queue full. */
  lemma {:induction false} RefusedIffPutWhenFull(acts: seq<Action>, s: nat)
    requires s < |Run(acts).subs|
    ensures Run(acts).subs[s].dropped != [] <==> exists n: nat :: RefusedAt(acts, s, n)
  {
    hide Step, PutBy, RefusedAt;
    if acts == [] {
    } else {
      var n := |acts| - 1;
      var before := acts[..n];
      var st := Run(before);
      SubsOnlyGrow(st, acts[n]);
      LastRefusal(acts, s);
      forall k: nat | k < n ensures RefusedAt(acts, s, k) <==> RefusedAt(before, s, k) {
        SameRefusals(acts, s, k);
      }
      RefusalIsEarlier(acts, s);
      RefusalIsEarlier(before, s);
      if s < |st.subs| {
        RefusedIffPutWhenFull(before, s);
      } else {
        NoRefusalYet(before, s);
      }
    }
  }

  lemma RefusalIsEarlier(acts: seq<Action>, s: nat)
    ensures forall n: nat :: RefusedAt(acts, s, n) ==> n < |acts|
  {
  }

  lemma LastRefusal(acts: seq<Action>, s: nat)
    requires acts != []
    ensures var st := Run(acts[..|acts| - 1]);
            && Run(acts) == Step(st, acts[|acts| - 1])
            && (RefusedAt(acts, s, |acts| - 1) ==> s < |st.subs|)
            && (s < |st.subs| ==>
                  && s < |Run(acts).subs|
                  && (Run(acts).subs[s].dropped != []
                      <==> st.subs[s].dropped != [] || RefusedAt(acts, s, |acts| - 1)))
  {
    var st := Run(acts[..|acts| - 1]);
    hide Step;
    if s < |st.subs| {
      PutOutcome(st, acts[|acts| - 1], s);
    }
  }

  lemma {:induction false} NoRefusalYet(acts: seq<Action>, s: nat)
    requires |Run(acts).subs| <= s
    ensures forall n: nat :: !RefusedAt(acts, s, n)
  {
    forall n: nat | n < |acts| ensures !RefusedAt(acts, s, n) {
      EarlierHasFewer(acts, n);
    }
  }

  lemma {:induction false} EarlierHasFewer(acts: seq<Action>, n: nat)
    requires n <= |acts|
    ensures |Run(acts[..n]).subs| <= |Run(acts).subs|
  {
    hide Step;
    if n == |acts| {
      assert acts[..n] == acts;
    } else {
      EarlierHasFewer(acts[..|acts| - 1], n);
      assert acts[..|acts| - 1][..n] == acts[..n];
      SubsOnlyGrow(Run(acts[..|acts| - 1]), acts[|acts| - 1]);
    }
  }

  /** A reader whose queue was never full has received its range exactly once,
      as soon as its threads are done and its queue is drained. */
  lemma {:induction false} NeverFullHasEverything(acts: seq<Action>, s: nat, k: nat)
    requires var st := Run(acts);
             && s < |st.subs| && st.subs[s].registered
             && st.subs[s].replay == [] && st.subs[s].queue == []
             && Pending(st.pushes, s) == multiset{}
             && st.subs[s].since <= k < |st.events|
    requires forall n :: 0 <= n < |acts| ==> !Full(Run(acts[..n]), s)
    ensures Run(acts).subs[s].dropped == []
    ensures var st := Run(acts);
            var received := Events(st.subs[s].received);
            && Current(st.events[k], received)
            && (!Thinking(st.events[k].kind) ==> received[st.events[k]] == 1)
  {
    hide Step, PutBy, Full, Run;
    RefusedIffPutWhenFull(acts, s);
    DrainedReaderHasEverything(acts, s, k);
  }

  // ----- delivery -----

  ghost function TargetsLeft(pushes: seq<Push>): nat {
    if pushes == [] then 0
    else TargetsLeft(pushes[..|pushes| - 1]) + |pushes[|pushes| - 1].targets|
  }

  ghost function WorkLeft(st: State, s: nat): nat
    requires s < |st.subs|
  {
    |st.subs[s].queue| + 2 * |st.subs[s].replay| + 2 * TargetsLeft(st.pushes)
  }

  lemma {:induction false} OneTargetLess(pushes: seq<Push>, t: nat)
    requires t < |pushes| && pushes[t].targets != []
    ensures TargetsLeft(pushes[t := AfterPut(pushes[t])]) == TargetsLeft(pushes) - 1
  {
    var n := |pushes| - 1;
    var now := pushes[t := AfterPut(pushes[t])];
    if t == n {
      assert now[..n] == pushes[..n];
    } else {
      OneTargetLess(pushes[..n], t);
      assert now[..n] == pushes[..n][t := AfterPut(pushes[t])];
    }
  }

  lemma {:induction false} TargetsLeftIff(pushes: seq<Push>)
    ensures TargetsLeft(pushes) == 0 <==> forall t :: 0 <= t < |pushes| ==> pushes[t].targets == []
  {
    if pushes != [] {
      TargetsLeftIff(pushes[..|pushes| - 1]);
      assert pushes == pushes[..|pushes| - 1] + [pushes[|pushes| - 1]];
    }
  }

  lemma {:induction false} NothingPending(pushes: seq<Push>, s: nat)
    requires forall t :: 0 <= t < |pushes| ==> pushes[t].targets == []
    ensures Pending(pushes, s) == multiset{}
  {
    if pushes != [] {
      NothingPending(pushes[..|pushes| - 1], s);
    }
  }

  ghost predicate IsDelivery(a: Action) {
    a.PushNext? || a.ReplayNext? || a.Take?
  }

  /** One of the steps that bring the reader closer to having everything. */
  lemma NextDelivery(st: State, s: nat) returns (a: Action)
    requires s < |st.subs| && Registration(st)
    requires st.subs[s].queue != [] || st.subs[s].replay != [] || TargetsLeft(st.pushes) > 0
    ensures IsDelivery(a)
    ensures var now := Step(st, a);
            && s < |now.subs| && now.events == st.events && SameRange(now.subs[s], st.subs[s])
            && WorkLeft(now, s) < WorkLeft(st, s)
            && now.subs[s].dropped == st.subs[s].dropped
  {
    var sub := st.subs[s];
    if sub.queue != [] {
      a := Take(s);
    } else if sub.replay != [] {
      a := ReplayNext(s);
      assert Offer(sub.(replay := sub.replay[1..]), sub.replay[0]).queue == [Live(sub.replay[0])];
    } else {
      TargetsLeftIff(st.pushes);
      var t :| 0 <= t < |st.pushes| && st.pushes[t].targets != [];
      a := PushNext(t);
      OneTargetLess(st.pushes, t);
      assert TargetsKnown(st.pushes[t], |st.subs|);
      assert st.pushes[t].targets[0] in st.pushes[t].targets;
      assert |Offer(sub, st.pushes[t].ev).queue| <= |sub.queue| + 1;
    }
  }

  lemma RunSnoc(acts: seq<Action>, a: Action)
    ensures Run(acts + [a]) == Step(Run(acts), a)
  {
    assert (acts + [a])[..|acts|] == acts;
  }

  /** From every reachable state the threads and the reader can finish without
      another refusal: the reader's queue, replay and pending puts all empty. */
  lemma {:induction false} CanDrain(acts: seq<Action>, s: nat) returns (more: seq<Action>)
    requires s < |Run(acts).subs|
    ensures forall a :: a in more ==> IsDelivery(a)
    ensures var was, now := Run(acts), Run(acts + more);
            && s < |now.subs| && now.events == was.events && SameRange(now.subs[s], was.subs[s])
            && now.subs[s].replay == [] && now.subs[s].queue == []
            && Pending(now.pushes, s) == multiset{}
            && now.subs[s].dropped == was.subs[s].dropped
    decreases WorkLeft(Run(acts), s)
  {
    hide Step, Run, Registration;
    var st := Run(acts);
    if st.subs[s].queue == [] && st.subs[s].replay == [] && TargetsLeft(st.pushes) == 0 {
      more := [];
      assert acts + more == acts;
      TargetsLeftIff(st.pushes);
      NothingPending(st.pushes, s);
    } else {
      StreamsAreExactlyOnce(acts);
      var a := NextDelivery(st, s);
      RunSnoc(acts, a);
      more := CanDrain(acts + [a], s);
      assert acts + ([a] + more) == acts + [a] + more;
      more := [a] + more;
    }
  }

  /** So a reader that has lost nothing so far can still receive all of its
      range, each event that is not a thinking one exactly once. */
  lemma {:induction false} CanReceiveEverything(acts: seq<Action>, s: nat) returns (more: seq<Action>)
    requires s < |Run(acts).subs| && Run(acts).subs[s].registered && Run(acts).subs[s].dropped == []
    ensures forall a :: a in more ==> IsDelivery(a)
    ensures var now := Run(acts + more);
            && s < |now.subs| && now.events == Run(acts).events
            && forall k :: Run(acts).subs[s].since <= k < |now.events| ==>
                 && Current(now.events[k], Events(now.subs[s].received))
                 && (!Thinking(now.events[k].kind) ==> Events(now.subs[s].received)[now.events[k]] == 1)
  {
    hide Run, Events, Pending, Current;
    more := CanDrain(acts, s);
    var now := Run(acts + more);
    forall k | Run(acts).subs[s].since <= k < |now.events|
      ensures Current(now.events[k], Events(now.subs[s].received))
      ensures !Thinking(now.events[k].kind) ==> Events(now.subs[s].received)[now.events[k]] == 1
    {
      DrainedReaderHasEverything(acts + more, s, k);
    }
  }
}
