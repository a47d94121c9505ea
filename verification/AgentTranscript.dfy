/** The event log of an agent session: what one `emit` does to it under the
    session lock, and what a client that polls `snapshot` holds. */
module AgentTranscript {

  /** The part of an emitted dictionary that the session looks at. */
  datatype Payload = Payload(kind: string, text: string, state: string)

  datatype Event = Event(i: nat, kind: string, text: string, state: string)

  predicate Thinking(kind: string) { kind == "thinking" }

  /** How the text of a new thinking event is combined with the open one:
      an accumulated text replaces, a stale prefix is skipped, and only an
      unrelated fragment is appended. */
  function MergeText(oldText: string, newText: string): string {
    if oldText != "" && newText != "" && oldText <= newText && |newText| > |oldText| then newText
    else if oldText != "" && newText != "" && newText <= oldText && |newText| < |oldText| then oldText
    else if oldText != "" && newText != "" && newText == oldText then oldText
    else oldText + newText
  }

  predicate Merges(events: seq<Event>, p: Payload) {
    Thinking(p.kind) && events != [] && Thinking(events[|events| - 1].kind)
  }

  /** The event that `emit` hands to the stream queues. */
  function StreamEvent(events: seq<Event>, p: Payload): Event {
    if Merges(events, p) then
      var last := events[|events| - 1];
      Event(last.i, p.kind, MergeText(last.text, p.text), p.state)
    else Event(|events|, p.kind, p.text, p.state)
  }

  /** The log after one `emit`. */
  function Appended(events: seq<Event>, p: Payload): seq<Event> {
    if Merges(events, p) then
      var last := events[|events| - 1];
      events[|events| - 1 := last.(text := MergeText(last.text, p.text))]
    else events + [StreamEvent(events, p)]
  }

  /** Event k carries index k, and thinking events are never adjacent. */
  ghost predicate WellFormed(events: seq<Event>) {
    && (forall k :: 0 <= k < |events| ==> events[k].i == k)
    && forall k :: 0 < k < |events| ==> !(Thinking(events[k - 1].kind) && Thinking(events[k].kind))
  }

  /** `e` is a copy of an event as it was at some earlier time. */
  ghost predicate EarlierCopy(e: Event, now: Event) {
    && e.i == now.i && e.kind == now.kind && e.text <= now.text
    && (!Thinking(now.kind) ==> e == now)
  }

  lemma MergeOnlyExtends(oldText: string, newText: string)
    ensures oldText <= MergeText(oldText, newText)
  {
  }

  /** A fragment is appended unless it stands in a prefix relation to what is
      already there, in which case it (or the overlap) is not repeated. */
  lemma MergeConcatenatesIff(oldText: string, newText: string)
    ensures MergeText(oldText, newText) == oldText + newText
       <==> oldText == "" || newText == "" || (!(oldText <= newText) && !(newText <= oldText))
  {
    if oldText != "" && newText != "" {
      assert |oldText + newText| > |oldText| && |oldText + newText| > |newText|;
    }
  }

  function MergeAll(texts: seq<string>): string {
    if texts == [] then ""
    else MergeText(MergeAll(texts[..|texts| - 1]), texts[|texts| - 1])
  }

  /** Accumulated reasoning: when every callback sends some non-empty prefix of
      the same growing text, in any order and with any repetition, the bubble
      shows the longest one sent, and never a text concatenated with itself. */
  lemma {:induction false} AccumulatedThinking(texts: seq<string>, full: string)
    requires texts != []
    requires forall t :: t in texts ==> t != "" && t <= full
    ensures MergeAll(texts) in texts
    ensures forall t :: t in texts ==> t <= MergeAll(texts)
  {
    hide MergeText, MergeAll;
    var before, last := texts[..|texts| - 1], texts[|texts| - 1];
    assert texts == before + [last] && last in texts;
    assert forall t :: t in before ==> t in texts;
    MergeLast(texts);
    if before != [] {
      AccumulatedThinking(before, full);
      var m := MergeAll(before);
      assert m in before;
      MergePrefixes(m, last, full);
      forall t | t in texts ensures t <= MergeText(m, last) {
        if t in before { assert t <= m <= MergeText(m, last); }
      }
    }
  }

  lemma MergeLast(texts: seq<string>)
    requires texts != []
    ensures MergeAll(texts) == MergeText(MergeAll(texts[..|texts| - 1]), texts[|texts| - 1])
    ensures |texts| == 1 ==> MergeAll(texts) == texts[0]
  {
    if |texts| == 1 {
      assert MergeAll([]) == "" && MergeText("", texts[0]) == texts[0];
    }
    hide MergeText;
  }

  /** Two prefixes of one text merge to the longer one. */
  lemma MergePrefixes(a: string, b: string, full: string)
    requires a != "" && b != "" && a <= full && b <= full
    ensures MergeText(a, b) == a || MergeText(a, b) == b
    ensures a <= MergeText(a, b) && b <= MergeText(a, b)
  {
    PrefixesCompare(a, b, full);
  }

  lemma PrefixesCompare(a: string, b: string, full: string)
    requires a <= full && b <= full
    ensures a <= b || b <= a
    ensures |a| == |b| ==> a == b
  {
    assert a == full[..|a|] && b == full[..|b|];
  }

  /** One `emit` keeps the log well formed; every event that was there is an
      earlier copy of the event now at its place; and the event handed to the
      stream queues is the last one of the new log, with its current text. */
  lemma EmitKeepsTranscript(events: seq<Event>, p: Payload)
    requires WellFormed(events)
    ensures var now := Appended(events, p);
            && WellFormed(now) && now != []
            && |events| <= |now| <= |events| + 1
            && (|now| == |events| <==> Merges(events, p))
            && (forall k :: 0 <= k < |events| ==> EarlierCopy(events[k], now[k]))
            && (forall k :: 0 <= k < |now| - 1 ==> events[k] == now[k])
            && var s := StreamEvent(events, p);
               s.i == |now| - 1 && EarlierCopy(s, now[s.i]) && s.text == now[s.i].text
  {
    if Merges(events, p) {
      MergeOnlyExtends(events[|events| - 1].text, p.text);
    }
  }

  // ----- polling -----

  datatype Poller = Poller(events: seq<Event>, received: seq<Event>, next: nat)

  datatype PollAction = Append(p: Payload) | Poll

  function Snapshot(events: seq<Event>, since: int): (part: seq<Event>)
  {
    var from := if since < 0 then 0 else since;
    if from <= |events| then events[from..] else []
  }

  function PollStep(st: Poller, a: PollAction): Poller {
    match a
    case Append(p) => st.(events := Appended(st.events, p))
    case Poll => Poller(st.events, st.received + Snapshot(st.events, st.next), |st.events|)
  }

  function PollRun(st: Poller, acts: seq<PollAction>): Poller {
    if acts == [] then st else PollStep(PollRun(st, acts[..|acts| - 1]), acts[|acts| - 1])
  }

  ghost predicate PollInv(st: Poller) {
    && WellFormed(st.events)
    && |st.received| == st.next <= |st.events|
    && forall k :: 0 <= k < st.next ==> EarlierCopy(st.received[k], st.events[k])
  }

  /** A client that always polls with the returned `next` has received index k
      in position k and nothing else: every index exactly once, non-thinking
      events as they are in the log, thinking texts a prefix of the log's. */
  lemma {:induction false} PollingSeesEachIndexOnce(acts: seq<PollAction>)
    ensures PollInv(PollRun(Poller([], [], 0), acts))
  {
    if acts != [] {
      PollingSeesEachIndexOnce(acts[..|acts| - 1]);
      var st := PollRun(Poller([], [], 0), acts[..|acts| - 1]);
      match acts[|acts| - 1]
      case Append(p) =>
        EmitKeepsTranscript(st.events, p);
        forall k | 0 <= k < st.next ensures EarlierCopy(st.received[k], Appended(st.events, p)[k]) {
          var now := Appended(st.events, p)[k];
          assert EarlierCopy(st.received[k], st.events[k]) && EarlierCopy(st.events[k], now);
        }
      case Poll =>
    }
  }

  /** What was received is never sent again, so a thinking text that grows after
      it was polled stays stale at that client for good. */
  lemma {:induction false} PolledEventsAreFinal(st: Poller, acts: seq<PollAction>)
    ensures st.received <= PollRun(st, acts).received
  {
    if acts != [] {
      PolledEventsAreFinal(st, acts[..|acts| - 1]);
    }
  }

  /** The exact case: the copy a client has just polled goes stale unless the
      next chunk adds nothing to the text. */
  lemma StaleThinkingAfterPoll(st: Poller, p: Payload, acts: seq<PollAction>)
    requires PollInv(st) && Merges(st.events, p)
    ensures var polled := PollStep(st, Poll);
            var k := |st.events| - 1;
            var end := PollRun(PollStep(polled, Append(p)), acts);
            k < |end.received| && end.received[k] == polled.received[k]
    ensures var polled := PollStep(st, Poll);
            var k := |st.events| - 1;
            (polled.received[k].text == st.events[k].text ==>
              ((polled.received[k].text == Appended(st.events, p)[k].text)
                 <==> (p.text == "" || (st.events[k].text != "" && p.text <= st.events[k].text))))
  {
    PolledEventsAreFinal(PollStep(PollStep(st, Poll), Append(p)), acts);
  }
}
