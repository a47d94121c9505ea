/** When a waiting message is injected, told from the transcript of the turn
    alone: what the session remembers between two emits is a function of it. */
module SessionBreakpoints {
  import opened PyText
  import opened AgentTranscript
  import opened AgentSession

  // ----- what the transcript says -----

  predicate IsDelta(kind: string) {
    kind == "" || kind == "thinking_delta" || kind == "assistant_delta"
  }

  /** The kind of the last event that is no delta. */
  ghost function LastKind(events: seq<Event>): Option<string> {
    if events == [] then None
    else
      var last := events[|events| - 1];
      if IsDelta(last.kind) then LastKind(events[..|events| - 1]) else Some(last.kind)
  }

  /** Did a thought or a tool result come last? */
  ghost predicate AfterThoughtOrResult(events: seq<Event>) {
    LastKind(events) == Some("thinking") || LastKind(events) == Some("tool_result")
  }

  /** The text of the last assistant event that did not itself end a thought or
      a tool result. */
  ghost function LastText(events: seq<Event>): string {
    if events == [] then ""
    else
      var before, last := events[..|events| - 1], events[|events| - 1];
      if last.kind == "assistant" && !AfterThoughtOrResult(before) then last.text else LastText(before)
  }

  /** The tracker holds what the events from `b` on say. */
  ghost predicate Tracks(c: Core, b: nat) {
    && b <= |c.events|
    && c.tracker == Tracker(LastKind(c.events[b..]), LastText(c.events[b..]))
  }

  ghost predicate MergesIntoEarlier(c: Core, p: Payload, b: nat) {
    |c.events| == b && Merges(c.events, p)
  }

  lemma SuffixSnoc(events: seq<Event>, b: nat, e: Event)
    requires b <= |events|
    ensures (events + [e])[b..] == events[b..] + [e]
    ensures (events[b..] + [e])[..|events| - b] == events[b..]
  {
  }

  lemma LastOfSnoc(events: seq<Event>, e: Event)
    ensures LastKind(events + [e]) == if IsDelta(e.kind) then LastKind(events) else Some(e.kind)
    ensures LastText(events + [e])
         == if e.kind == "assistant" && !AfterThoughtOrResult(events) then e.text else LastText(events)
  {
    assert (events + [e])[..|events|] == events;
  }

  /** A thought whose text grows changes neither. */
  lemma LastOfMerged(events: seq<Event>, b: nat, text: string)
    requires b < |events| && events[|events| - 1].kind == "thinking"
    ensures var last := |events| - 1;
            var now := events[last := events[last].(text := text)];
            && LastKind(now[b..]) == LastKind(events[b..]) == Some("thinking")
            && LastText(now[b..]) == LastText(events[b..])
  {
    var n := |events| - 1;
    var front, was, merged := events[..n], events[n], events[n].(text := text);
    LastReplaced(events, merged);
    LastReplaced(events, was);
    SuffixSnoc(front, b, was);
    SuffixSnoc(front, b, merged);
    LastOfSnoc(front[b..], was);
    LastOfSnoc(front[b..], merged);
    hide LastKind, LastText;
  }

  lemma LastReplaced(events: seq<Event>, e: Event)
    requires events != []
    ensures events[|events| - 1 := e] == events[..|events| - 1] + [e]
    ensures events[|events| - 1 := events[|events| - 1]] == events
  {
  }

  /** Appending the event and updating the tracker belong together. */
  lemma AppendTracks(c: Core, p: Payload, b: nat)
    requires Tracks(c, b) && !MergesIntoEarlier(c, p, b)
    ensures Tracks(c.(events := Appended(c.events, p), tracker := Tracked(c.tracker, p)), b)
  {
    hide LastKind, LastText;
    var n := |c.events|;
    if Merges(c.events, p) {
      LastOfMerged(c.events, b, MergeText(c.events[n - 1].text, p.text));
      hide MergeText;
    } else {
      var e := StreamEvent(c.events, p);
      assert Appended(c.events, p) == c.events + [e] && e.kind == p.kind && e.text == p.text;
      hide Appended, StreamEvent;
      SuffixSnoc(c.events, b, e);
      LastOfSnoc(c.events[b..], e);
    }
  }

  lemma InjectedIsNoThought(c: Core, msg: string)
    ensures !Merges(c.events, Injected(msg))
  {
  }

  /** An emit keeps the tracker in step with the transcript, whatever it injects. */
  lemma {:induction false} EmitTracks(c: Core, p: Payload, b: nat)
    requires Tracks(c, b) && !MergesIntoEarlier(c, p, b)
    ensures Tracks(EmitSpec(c, p), b)
    decreases |c.queued|, 1
  {
    hide Tracks, Tracked, Appended, Breakpoint;
    AppendTracks(c, p, b);
    if Breakpoint(c.tracker, p).Some? {
      InjectTracks(c.(events := Appended(c.events, p), tracker := Tracked(c.tracker, p)), b);
    }
  }

  lemma {:induction false} InjectTracks(c: Core, b: nat)
    requires Tracks(c, b)
    ensures Tracks(InjectSpec(c), b)
    decreases |c.queued|, 0
  {
    hide LastKind, LastText, EmitSpec;
    if c.queued != [] && c.queued[0] != "" {
      var rest := c.(queued := c.queued[1..]);
      InjectedIsNoThought(rest, c.queued[0]);
      EmitTracks(rest, Injected(c.queued[0]), b);
    }
  }

  // ----- exactly when -----

  lemma BlankLineIff(s: string)
    ensures HasBlankLine(s) <==> exists a, b :: s == a + "\n\n" + b
  {
    if HasBlankLine(s) {
      var i :| 0 <= i < |s| - 1 && s[i] == '\n' && s[i + 1] == '\n';
      assert s == s[..i] + "\n\n" + s[i + 2..];
    }
    if a, b :| s == a + "\n\n" + b {
      assert s[|a|] == '\n' && s[|a| + 1] == '\n';
    }
  }

  /** A thought ends, a tool is about to be called, a tool result ends, a reply
      reaches its first blank line, or the session goes idle. */
  ghost predicate BreaksHere(events: seq<Event>, p: Payload) {
    && p.kind != ""
    && (|| (LastKind(events) == Some("thinking") && p.kind != "thinking" && p.kind != "thinking_delta")
        || p.kind == "tool_use"
        || (LastKind(events) == Some("tool_result") && p.kind != "tool_result")
        || (p.kind == "assistant" && LastText(events) != ""
            && HasBlankLine(p.text) && !HasBlankLine(LastText(events)))
        || (p.kind == "status" && (p.state == "idle" || p.state == "done")))
  }

  /** One emit takes a message from a non-empty queue in exactly these cases. */
  lemma {:induction false} EmitTakesMessageIff(c: Core, p: Payload, b: nat)
    requires Tracks(c, b)
    ensures |EmitSpec(c, p).queued| < |c.queued| <==> c.queued != [] && BreaksHere(c.events[b..], p)
  {
    hide LastKind, LastText, HasBlankLine;
    TakesIffBreakpoint(c, p);
    hide EmitSpec;
  }

  lemma TakesIffBreakpoint(c: Core, p: Payload)
    ensures |EmitSpec(c, p).queued| < |c.queued| <==> c.queued != [] && Breakpoint(c.tracker, p).Some?
  {
    EmitInjectsAtMostTwo(c, p);
    hide EmitSpec, Breakpoint, Tracked;
  }

  // ----- a whole turn -----

  lemma {:induction false} EmitAllTracks(c: Core, ps: seq<Payload>, b: nat)
    requires Tracks(c, b)
    requires |c.events| > b || (ps != [] ==> !Thinking(ps[0].kind))
    ensures Tracks(EmitAll(c, ps), b)
    ensures |EmitAll(c, ps).events| >= |c.events|
    ensures ps != [] && (|c.events| > b || !Thinking(ps[0].kind)) ==> |EmitAll(c, ps).events| > b
  {
    assert b <= |c.events|;
    hide Tracks, EmitSpec;
    if ps != [] {
      var before, p := ps[..|ps| - 1], ps[|ps| - 1];
      EmitAllTracks(c, before, b);
      if before == [] {
        assert EmitAll(c, before) == c && ps[0] == p;
      } else {
        assert ps[0] == before[0];
      }
      EmitTracks(EmitAll(c, before), p, b);
      EmitGrowsLog(EmitAll(c, before), p);
    }
  }

  /** The event that shows an injection, with the first 200 characters of the
      message. */
  ghost predicate Shows(e: Event, i: nat, msg: string) {
    e.i == i && e.kind == "injected" && e.text <= msg && |e.text| == if |msg| < 200 then |msg| else 200
  }

  lemma InjectedShows(events: seq<Event>, msg: string)
    ensures var now := Appended(events, Injected(msg));
            |now| == |events| + 1 && now[..|events|] == events && Shows(now[|events|], |events|, msg)
  {
  }

  lemma {:induction false} InjectedEventsGrow(events: seq<Event>, popped: seq<string>)
    ensures var now, shown := InjectedEvents(events, popped), InOrder(popped);
            && events <= now && |now| == |events| + |shown|
            && forall k :: 0 <= k < |shown| ==> Shows(now[|events| + k], |events| + k, shown[k])
    decreases |popped|
  {
    hide Appended, Shows;
    if popped != [] && popped[0] == "" {
      InjectedEventsGrow(events, popped[1..]);
      assert InOrder(popped) == InOrder(popped[1..]);
    } else if popped != [] {
      var next := Appended(events, Injected(popped[0]));
      InjectedShows(events, popped[0]);
      InjectedEventsGrow(next, popped[1..]);
      var now, shown := InjectedEvents(events, popped), InOrder(popped);
      assert shown == [popped[0]] + InOrder(popped[1..]);
      assert next <= now && now[..|events|] == next[..|events|] == events;
      forall k | 0 <= k < |shown| ensures Shows(now[|events| + k], |events| + k, shown[k]) {
        if k > 0 {
          assert Shows(now[|next| + (k - 1)], |next| + (k - 1), InOrder(popped[1..])[k - 1]);
        } else {
          assert now[|events|] == next[|events|];
        }
      }
    }
  }

  /** An emit adds its event (or merges it into the open thought) and behind it
      one "injected" event for each message it delivers, in queue order. */
  lemma {:induction false} EmitShowsInjections(c: Core, p: Payload) returns (n: nat)
    ensures n <= |c.queued|
    ensures var r, base, taken := EmitSpec(c, p), Appended(c.events, p), InOrder(c.queued[..n]);
            && r.queued == c.queued[n..]
            && base <= r.events && |r.events| == |base| + |taken|
            && forall k :: 0 <= k < |taken| ==> Shows(r.events[|base| + k], |base| + k, taken[k])
  {
    hide EmitSpec, Appended, InOrder, Depth, Shows, InjectedEvents;
    EmitInjectsAtMostTwo(c, p);
    n := Popped(c.queued, Depth(c.tracker, p));
    InjectedEventsGrow(Appended(c.events, p), c.queued[..n]);
  }

  lemma EmitGrowsLog(c: Core, p: Payload)
    ensures |EmitSpec(c, p).events| >= |c.events|
    ensures !Merges(c.events, p) ==>
              |EmitSpec(c, p).events| > |c.events| && c.events < EmitSpec(c, p).events
    ensures forall k :: 0 <= k < |c.events| && !Thinking(c.events[k].kind) ==>
              EmitSpec(c, p).events[k] == c.events[k]
  {
    var n := EmitShowsInjections(c, p);
    AppendedKeeps(c.events, p);
    hide EmitSpec, Appended, Merges, InOrder, Shows;
    assert Appended(c.events, p) <= EmitSpec(c, p).events;
  }

  lemma AppendedKeeps(events: seq<Event>, p: Payload)
    ensures var now := Appended(events, p);
            && |now| >= |events|
            && (!Merges(events, p) ==> events < now)
            && forall k :: 0 <= k < |events| && !Thinking(events[k].kind) ==> now[k] == events[k]
  {
  }

  lemma {:induction false} EmitAllGrowsLog(c: Core, ps: seq<Payload>)
    ensures |EmitAll(c, ps).events| >= |c.events|
    ensures forall k :: 0 <= k < |c.events| && !Thinking(c.events[k].kind) ==>
              EmitAll(c, ps).events[k] == c.events[k]
  {
    hide EmitSpec;
    if ps != [] {
      EmitAllGrowsLog(c, ps[..|ps| - 1]);
      EmitGrowsLog(EmitAll(c, ps[..|ps| - 1]), ps[|ps| - 1]);
    }
  }

  lemma {:induction false} EmitAllConcat(c: Core, a: seq<Payload>, b: seq<Payload>)
    ensures EmitAll(c, a + b) == EmitAll(EmitAll(c, a), b)
    decreases |b|
  {
    hide EmitSpec;
    if b == [] {
      assert a + b == a;
    } else {
      EmitAllConcat(c, a, b[..|b| - 1]);
      assert (a + b)[..|a + b| - 1] == a + b[..|b| - 1];
    }
  }

  /** The session as a turn finds it, with its message taken and the tracker reset. */
  ghost function TurnStart(c: Core): Core
    requires c.inbox != []
  {
    c.(inbox := c.inbox[1..], tracker := Tracker(None, ""))
  }

  /** So in every turn the k-th emit takes a waiting message exactly in the cases
      that the turn's own part of the transcript shows. */
  lemma {:induction false} TurnTakesMessageIff(c: Core, transcript: seq<Payload>, ending: Ending,
                                               trailing: seq<Payload>, k: nat)
    requires c.inbox != [] && k < |TurnEmits(c.inbox[0], transcript, ending, trailing)|
    ensures var ps := TurnEmits(c.inbox[0], transcript, ending, trailing);
            var was, now := EmitAll(TurnStart(c), ps[..k]), EmitAll(TurnStart(c), ps[..k + 1]);
            && |c.events| <= |was.events|
            && TurnSpec(c, transcript, ending, trailing) == EmitAll(TurnStart(c), ps)
            && (|now.queued| < |was.queued|
                <==> was.queued != [] && BreaksHere(was.events[|c.events|..], ps[k]))
  {
    var ps := TurnEmits(c.inbox[0], transcript, ending, trailing);
    assert ps[0] == Status("running");
    hide EmitSpec, TurnEmits, EmitAll;
    StartTracks(c);
    EmitAllTracks(TurnStart(c), ps[..k], |c.events|);
    assert ps[..k + 1] == ps[..k] + [ps[k]];
    EmitAllOne(TurnStart(c), ps[..k], ps[k]);
    hide BreaksHere;
    EmitTakesMessageIff(EmitAll(TurnStart(c), ps[..k]), ps[k], |c.events|);
  }

  lemma StartTracks(c: Core)
    requires c.inbox != []
    ensures Tracks(TurnStart(c), |c.events|)
  {
    assert c.events[|c.events|..] == [];
  }

  lemma EmitAllOne(c: Core, ps: seq<Payload>, p: Payload)
    ensures EmitAll(c, ps + [p]) == EmitSpec(EmitAll(c, ps), p)
  {
    hide EmitSpec;
    assert (ps + [p])[..|ps|] == ps;
  }

  lemma TurnOpening(msg: string, transcript: seq<Payload>, ending: Ending, trailing: seq<Payload>)
    returns (more: seq<Payload>)
    ensures TurnEmits(msg, transcript, ending, trailing) == [Status("running"), Payload("user", msg, "")] + more
  {
    more := match ending
      case Completed => transcript + [Status("idle")] + trailing
      case Failed => transcript + [Status("error"), Payload("error", "", "")] + trailing
      case Refused => [Status("idle"), Status("idle")];
  }

  lemma OpeningEmits(c: Core, msg: string)
    requires c.tracker == Tracker(None, "")
    ensures var r := EmitAll(c, [Status("running"), Payload("user", msg, "")]);
            && r.events == c.events + [Event(|c.events|, "status", "", "running"),
                                       Event(|c.events| + 1, "user", msg, "")]
            && r.queued == c.queued && r.inbox == c.inbox && r.tracker == Tracker(Some("user"), "")
  {
    var p, q := Status("running"), Payload("user", msg, "");
    var first := Event(|c.events|, "status", "", "running");
    var c1 := c.(events := c.events + [first], tracker := Tracker(Some("status"), ""));
    QuietEmit(c, p);
    QuietEmit(c1, q);
    EmitAllOne(c, [], p);
    EmitAllOne(c, [p], q);
    assert [] + [p] == [p] && [p] + [q] == [p, q];
    assert EmitSpec(c, p) == c1;
    hide EmitSpec;
    assert c.events + [first] + [Event(|c.events| + 1, "user", msg, "")]
        == c.events + [first, Event(|c.events| + 1, "user", msg, "")];
  }

  /** An emit that is no breakpoint only adds its event. */
  lemma QuietEmit(c: Core, p: Payload)
    requires Breakpoint(c.tracker, p).None? && !Thinking(p.kind)
    ensures EmitSpec(c, p) == c.(events := c.events + [Event(|c.events|, p.kind, p.text, p.state)],
                                 tracker := Tracked(c.tracker, p))
  {
  }

  /** Every turn opens the transcript with the running status and the user's
      message, before any injection, whatever follows. */
  lemma {:induction false} TurnOpens(c: Core, transcript: seq<Payload>, ending: Ending, trailing: seq<Payload>)
    requires c.inbox != []
    ensures var r, n := TurnSpec(c, transcript, ending, trailing), |c.events|;
            && |r.events| >= n + 2
            && r.events[n] == Event(n, "status", "", "running")
            && r.events[n + 1] == Event(n + 1, "user", c.inbox[0], "")
  {
    hide EmitAll, TurnEmits;
    var more := TurnOpening(c.inbox[0], transcript, ending, trailing);
    var opening := [Status("running"), Payload("user", c.inbox[0], "")];
    EmitAllConcat(TurnStart(c), opening, more);
    OpeningEmits(TurnStart(c), c.inbox[0]);
    EmitAllGrowsLog(EmitAll(TurnStart(c), opening), more);
  }

  lemma {:induction false} EmitAllShrinks(c: Core, ps: seq<Payload>)
    ensures |EmitAll(c, ps).queued| <= |c.queued|
  {
    hide EmitSpec;
    if ps != [] {
      EmitAllShrinks(c, ps[..|ps| - 1]);
    }
  }

  /** A turn that completes or is refused takes at least one waiting message. */
  lemma {:induction false} FinishedTurnDrains(c: Core, transcript: seq<Payload>, ending: Ending, trailing: seq<Payload>)
    requires c.inbox != [] && !ending.Failed? && c.queued != []
    ensures |TurnSpec(c, transcript, ending, trailing).queued| < |c.queued|
  {
    var ps := TurnEmits(c.inbox[0], transcript, ending, trailing);
    var k := if ending.Completed? then 2 + |transcript| else 2;
    assert ps[k] == Status("idle");
    hide EmitAll, TurnEmits, EmitSpec;
    var c0 := TurnStart(c);
    assert ps == (ps[..k] + [ps[k]]) + ps[k + 1..];
    EmitAllConcat(c0, ps[..k] + [ps[k]], ps[k + 1..]);
    EmitAllOne(c0, ps[..k], ps[k]);
    EmitAllShrinks(c0, ps[..k]);
    IdleAlwaysDrains(EmitAll(c0, ps[..k]));
    EmitAllShrinks(EmitSpec(EmitAll(c0, ps[..k]), ps[k]), ps[k + 1..]);
  }

  /** A turn that fails before the adapter has emitted anything leaves the queue
      as it was: what waits there waits for another turn. */
  lemma {:induction false} FailedTurnKeepsQueue(c: Core)
    requires c.inbox != []
    ensures TurnSpec(c, [], Failed, []).queued == c.queued
  {
    var msg := c.inbox[0];
    var opening := [Status("running"), Payload("user", msg, "")];
    var error, report := Status("error"), Payload("error", "", "");
    assert TurnEmits(msg, [], Failed, []) == opening + [error] + [report];
    hide EmitAll, TurnEmits;
    OpeningEmits(TurnStart(c), msg);
    EmitAllOne(TurnStart(c), opening + [error], report);
    EmitAllOne(TurnStart(c), opening, error);
    var c1 := EmitAll(TurnStart(c), opening);
    var c2 := EmitSpec(c1, error);
    assert c2.queued == c1.queued && c2.tracker == Tracker(Some("status"), "");
    assert EmitSpec(c2, report).queued == c2.queued;
  }

  // ----- how a turn shows in the transcript -----

  /** An emitted event that is no thought stays in the transcript, at its index. */
  lemma {:induction false} EventStays(c: Core, p: Payload, more: seq<Payload>)
    requires !Thinking(p.kind)
    ensures var n, r := |c.events|, EmitAll(EmitSpec(c, p), more);
            n < |r.events| && r.events[n] == Event(n, p.kind, p.text, p.state)
  {
    var taken := EmitShowsInjections(c, p);
    assert Appended(c.events, p) == c.events + [Event(|c.events|, p.kind, p.text, p.state)];
    EmitAllGrowsLog(EmitSpec(c, p), more);
    hide EmitSpec, EmitAll, Appended, Shows, InOrder;
    assert Appended(c.events, p) <= EmitSpec(c, p).events;
  }

  lemma {:induction false} PayloadShows(c: Core, ps: seq<Payload>, k: nat)
    requires k < |ps| && !Thinking(ps[k].kind)
    ensures var n, r := |EmitAll(c, ps[..k]).events|, EmitAll(c, ps);
            n < |r.events| && r.events[n] == Event(n, ps[k].kind, ps[k].text, ps[k].state)
    ensures |c.events| <= |EmitAll(c, ps[..k]).events| < |EmitAll(c, ps[..k + 1]).events|
  {
    hide EmitAll, EmitSpec;
    assert ps == (ps[..k] + [ps[k]]) + ps[k + 1..] && ps[..k + 1] == ps[..k] + [ps[k]];
    EmitAllConcat(c, ps[..k] + [ps[k]], ps[k + 1..]);
    EmitAllOne(c, ps[..k], ps[k]);
    EmitAllGrowsLog(c, ps[..k]);
    EventStays(EmitAll(c, ps[..k]), ps[k], ps[k + 1..]);
    EmitGrowsLog(EmitAll(c, ps[..k]), ps[k]);
  }

  ghost predicate ShowsStatus(events: seq<Event>, k: nat, state: string) {
    k < |events| && events[k] == Event(k, "status", "", state)
  }

  /** Every turn shows how it ended: a completed or refused one an idle status, a
      failed one an error status and behind it an error event. */
  lemma {:induction false} TurnShowsEnding(c: Core, transcript: seq<Payload>, ending: Ending, trailing: seq<Payload>)
    returns (k: nat, j: nat)
    requires c.inbox != []
    ensures var events := TurnSpec(c, transcript, ending, trailing).events;
            if ending.Failed? then
              |c.events| <= k < j < |events| && ShowsStatus(events, k, "error")
              && events[j] == Event(j, "error", "", "")
            else |c.events| <= k && ShowsStatus(events, k, "idle")
  {
    var ps := TurnEmits(c.inbox[0], transcript, ending, trailing);
    var m := if ending.Refused? then 2 else 2 + |transcript|;
    assert ps[m] == Status(if ending.Failed? then "error" else "idle");
    assert ending.Failed? ==> ps[m + 1] == Payload("error", "", "");
    hide EmitAll, TurnEmits;
    var c0 := TurnStart(c);
    PayloadShows(c0, ps, m);
    k, j := |EmitAll(c0, ps[..m]).events|, 0;
    if ending.Failed? {
      PayloadShows(c0, ps, m + 1);
      j := |EmitAll(c0, ps[..m + 1]).events|;
    }
  }
}
