/** How the events of a session reach the chat table.  After `emit` has released
    the session lock it compares the event's index with a counter, then moves the
    counter up to that index, then appends the event to the table.  None of the
    three is under a lock, so those of different emitters may interleave. */
module EventPersistence {
  import opened AgentTranscript
  import ChatStore

  /** What the emitters did to the counter, in order. */
  datatype Note = Compared(ev: Event, larger: bool) | Advanced(i: nat)

  /** An event is `waiting` until it is compared; one that was larger is
      `compared` until the counter is assigned, then `storing` until it is
      appended, or dropped because the append raised.  `stored`, `dropped` and
      `history` record what happened, in order. */
  datatype State = State(events: seq<Event>, waiting: seq<Event>, compared: seq<Event>, persistedSeq: nat,
                         storing: seq<Event>, rows: seq<ChatStore.Row>, stored: seq<Event>, dropped: seq<Event>,
                         history: seq<Note>)

  datatype Action = Emit(p: Payload) | Compare(k: nat) | Advance(k: nat) | Store(k: nat) | StoreFails(k: nat)

  const INIT := State([], [], [], 0, [], [], [], [], [])

  function Without(s: seq<Event>, k: nat): seq<Event>
    requires k < |s|
  {
    s[..k] + s[k + 1..]
  }

  /** The row content: the index and the event as JSON text. */
  function Content(ev: Event, json: Event -> string): ChatStore.Event {
    ChatStore.Event(ev.i, json(ev))
  }

  function Contents(evs: seq<Event>, json: Event -> string): seq<ChatStore.Event> {
    seq(|evs|, k requires 0 <= k < |evs| => Content(evs[k], json))
  }

  function Step(st: State, a: Action, json: Event -> string): State {
    match a
    case Emit(p) => st.(events := Appended(st.events, p), waiting := st.waiting + [StreamEvent(st.events, p)])
    case Compare(k) =>
      if k >= |st.waiting| then st
      else
        var ev := st.waiting[k];
        var larger := ev.i > st.persistedSeq;
        st.(waiting := Without(st.waiting, k),
            compared := if larger then st.compared + [ev] else st.compared,
            history := st.history + [Compared(ev, larger)])
    case Advance(k) =>
      if k >= |st.compared| then st
      else
        var ev := st.compared[k];
        st.(compared := Without(st.compared, k), persistedSeq := ev.i, storing := st.storing + [ev],
            history := st.history + [Advanced(ev.i)])
    case Store(k) =>
      if k >= |st.storing| then st
      else
        var ev := st.storing[k];
        st.(storing := Without(st.storing, k), stored := st.stored + [ev],
            rows := ChatStore.AppendAll(st.rows, [Content(ev, json)]))
    case StoreFails(k) =>
      if k >= |st.storing| then st
      else st.(storing := Without(st.storing, k), dropped := st.dropped + [st.storing[k]])
  }

  function Run(st: State, acts: seq<Action>, json: Event -> string): State {
    if acts == [] then st else Step(Run(st, acts[..|acts| - 1], json), acts[|acts| - 1], json)
  }

  /** An append that raises loses its event: nothing is stored, and as long as the
      counter stays where it is, no event of that index passes again. */
  lemma FailedAppendIsNotRetried(st: State, k: nat, w: nat, json: Event -> string)
    requires k < |st.storing| && st.persistedSeq >= st.storing[k].i
    requires w < |st.waiting| && st.waiting[w].i == st.storing[k].i
    ensures var failed := Step(st, StoreFails(k), json);
            && failed.rows == st.rows && failed.stored == st.stored
            && failed.dropped == st.dropped + [st.storing[k]]
            && |failed.storing| == |st.storing| - 1
            && Step(failed, Compare(w), json).compared == st.compared
  {
  }

  // ----- what a history says -----

  /** The events that were let through, in the order of their comparisons. */
  function Passed(h: seq<Note>): seq<Event> {
    if h == [] then []
    else
      var last := h[|h| - 1];
      Passed(h[..|h| - 1]) + (if last.Compared? && last.larger then [last.ev] else [])
  }

  /** The index that was assigned last, 0 at the start. */
  function Counter(h: seq<Note>): nat {
    if h == [] then 0
    else if h[|h| - 1].Advanced? then h[|h| - 1].i
    else Counter(h[..|h| - 1])
  }

  predicate ComparedAt(h: seq<Note>, n: int, i: nat) {
    0 <= n < |h| && h[n].Compared? && h[n].ev.i == i
  }

  /** An event was let through if and only if its index was above the counter
      last assigned before its comparison. */
  ghost predicate Justified(h: seq<Note>) {
    forall n :: 0 <= n < |h| && h[n].Compared? ==> (h[n].larger <==> h[n].ev.i > Counter(h[..n]))
  }

  ghost predicate HasIndex(evs: seq<Event>, i: nat) {
    exists e :: e in evs && e.i == i
  }

  lemma NoteSnoc(h: seq<Note>, note: Note)
    ensures Passed(h + [note]) == Passed(h) + (if note.Compared? && note.larger then [note.ev] else [])
    ensures Counter(h + [note]) == if note.Advanced? then note.i else Counter(h)
  {
    assert (h + [note])[..|h|] == h;
  }

  lemma JustifiedSnoc(h: seq<Note>, note: Note)
    requires Justified(h) && (note.Compared? ==> (note.larger <==> note.ev.i > Counter(h)))
    ensures Justified(h + [note])
  {
    var now := h + [note];
    hide Counter;
    forall n | 0 <= n < |now| && now[n].Compared? ensures now[n].larger <==> now[n].ev.i > Counter(now[..n]) {
      assert now[..n] == if n < |h| then h[..n] else h;
    }
  }

  lemma {:induction false} PassedMembers(h: seq<Note>, e: Event)
    ensures e in Passed(h) <==> exists n :: 0 <= n < |h| && h[n] == Compared(e, true)
  {
    if h != [] {
      var before, last := h[..|h| - 1], h[|h| - 1];
      PassedMembers(before, e);
      assert forall n :: 0 <= n < |before| ==> h[n] == before[n];
      if e in Passed(h) && e !in Passed(before) {
        assert h[|h| - 1] == Compared(e, true);
      }
    }
  }

  lemma {:induction false} PassedPrefix(h: seq<Note>, n: nat)
    requires n <= |h|
    ensures Passed(h[..n]) <= Passed(h)
    decreases |h|
  {
    if n < |h| {
      PassedPrefix(h[..|h| - 1], n);
      assert h[..|h| - 1][..n] == h[..n];
    } else {
      assert h[..n] == h;
    }
  }

  /** An index is never let through exactly when every comparison of it found the
      counter at or above it. */
  lemma MissingIff(h: seq<Note>, i: nat)
    requires Justified(h)
    ensures !HasIndex(Passed(h), i) <==> forall n :: ComparedAt(h, n, i) ==> Counter(h[..n]) >= i
  {
    hide Passed, Counter;
    forall n | ComparedAt(h, n, i) && Counter(h[..n]) < i ensures HasIndex(Passed(h), i) {
      PassedMembers(h, h[n].ev);
      assert h[n] == Compared(h[n].ev, true);
    }
    if HasIndex(Passed(h), i) {
      var e :| e in Passed(h) && e.i == i;
      PassedMembers(h, e);
      var n :| 0 <= n < |h| && h[n] == Compared(e, true);
      assert ComparedAt(h, n, i);
    }
  }

  ghost predicate DistinctIndices(evs: seq<Event>) {
    forall j, k :: 0 <= j < k < |evs| ==> evs[j].i != evs[k].i
  }

  /** The `n`-th note is a comparison that found the counter below the index. */
  predicate PassesAt(h: seq<Note>, n: int, i: nat) {
    ComparedAt(h, n, i) && Counter(h[..n]) < i
  }

  /** After an index was let through, no later comparison of it finds the counter
      below it. */
  ghost predicate NeverTwice(h: seq<Note>) {
    forall n, m, i :: PassesAt(h, n, i) && PassesAt(h, m, i) ==> n == m
  }

  lemma DistinctSnoc(evs: seq<Event>, ev: Event)
    ensures DistinctIndices(evs + [ev]) <==> DistinctIndices(evs) && !HasIndex(evs, ev.i)
  {
    var now := evs + [ev];
    assert forall j :: 0 <= j < |evs| ==> now[j] == evs[j] && evs[j] in evs;
    assert now[|evs|] == ev;
    if DistinctIndices(now) {
      forall j | 0 <= j < |evs| ensures evs[j].i != ev.i {
        assert now[j].i != now[|evs|].i;
      }
      forall j, k | 0 <= j < k < |evs| ensures evs[j].i != evs[k].i {
        assert now[j].i != now[k].i;
      }
    }
  }

  lemma PassesSnoc(h: seq<Note>, note: Note)
    ensures forall n, i :: n != |h| ==> (PassesAt(h + [note], n, i) <==> PassesAt(h, n, i))
    ensures forall i :: PassesAt(h + [note], |h|, i) <==> note.Compared? && note.ev.i == i && Counter(h) < i
  {
    hide Counter;
    var now := h + [note];
    assert now[..|h|] == h;
    forall n, i | n != |h| ensures PassesAt(now, n, i) <==> PassesAt(h, n, i) {
      if 0 <= n < |h| { assert now[..n] == h[..n]; }
    }
  }

  lemma PassedIff(h: seq<Note>, i: nat)
    requires Justified(h)
    ensures HasIndex(Passed(h), i) <==> exists n :: PassesAt(h, n, i)
  {
    MissingIff(h, i);
    hide Passed, Counter, Justified, HasIndex, ComparedAt;
    assert forall n :: PassesAt(h, n, i) <==> ComparedAt(h, n, i) && Counter(h[..n]) < i;
  }

  lemma NeverTwiceSnoc(h: seq<Note>, note: Note)
    requires Justified(h)
    ensures NeverTwice(h + [note]) <==>
              NeverTwice(h) && (note.Compared? && Counter(h) < note.ev.i ==> !HasIndex(Passed(h), note.ev.i))
  {
    var now := h + [note];
    PassesSnoc(h, note);
    assert forall n, i :: PassesAt(h, n, i) ==> n < |h|;
    if note.Compared? { PassedIff(h, note.ev.i); }
    hide PassesAt, Passed, Counter, Justified, HasIndex;
    if NeverTwice(now) {
      forall n, m, i | PassesAt(h, n, i) && PassesAt(h, m, i) ensures n == m {
        assert PassesAt(now, n, i) && PassesAt(now, m, i);
      }
      if note.Compared? && Counter(h) < note.ev.i {
        assert PassesAt(now, |h|, note.ev.i);
      }
    }
  }

  /** In every run an index is let through at most once exactly when no later
      comparison of it finds the counter below it again. */
  lemma {:induction false} AtMostOnceIff(h: seq<Note>)
    requires Justified(h)
    ensures DistinctIndices(Passed(h)) <==> NeverTwice(h)
  {
    if h != [] {
      var before, last := h[..|h| - 1], h[|h| - 1];
      assert last.Compared? ==> (last.larger <==> last.ev.i > Counter(before));
      JustifiedPrefix(h, |h| - 1);
      AtMostOnceIff(before);
      hide NeverTwice, Passed, Counter, DistinctIndices, HasIndex, Justified;
      NeverTwiceSnoc(before, last);
      NoteSnoc(before, last);
      assert h == before + [last];
      if last.Compared? && last.larger {
        DistinctSnoc(Passed(before), last.ev);
      } else {
        assert Passed(before) + [] == Passed(before);
      }
    }
  }

  lemma JustifiedPrefix(h: seq<Note>, n: nat)
    requires Justified(h) && n <= |h|
    ensures Justified(h[..n])
  {
    hide Counter;
    forall m | 0 <= m < n && h[m].Compared? ensures h[..n][..m] == h[..m] {}
  }

  // ----- every interleaving -----

  ghost predicate CopyOf(e: Event, events: seq<Event>) {
    e.i < |events| && EarlierCopy(e, events[e.i])
  }

  ghost predicate Copies(evs: seq<Event>, events: seq<Event>) {
    forall e :: e in evs ==> CopyOf(e, events)
  }

  ghost predicate LogOk(st: State) {
    var passed := Passed(st.history);
    && WellFormed(st.events)
    && Copies(st.waiting, st.events) && Copies(passed, st.events)
    && forall e :: e in passed ==> e.i >= 1
  }

  /** Whatever was let through and where it is now. */
  ghost predicate FlowOk(st: State) {
    multiset(st.compared) + multiset(st.storing) + (multiset(st.stored) + multiset(st.dropped))
      == multiset(Passed(st.history))
  }

  ghost predicate CounterOk(st: State) {
    st.persistedSeq == Counter(st.history) && Justified(st.history)
  }

  ghost predicate TableOk(st: State, json: Event -> string) {
    ChatStore.Read(st.rows) == Contents(st.stored, json)
  }

  ghost predicate Inv(st: State, json: Event -> string) {
    LogOk(st) && FlowOk(st) && CounterOk(st) && TableOk(st, json)
  }

  lemma CopiesGrow(evs: seq<Event>, events: seq<Event>, p: Payload)
    requires WellFormed(events) && Copies(evs, events)
    ensures Copies(evs, Appended(events, p))
  {
    EmitKeepsTranscript(events, p);
    forall e | e in evs ensures CopyOf(e, Appended(events, p)) {
      assert EarlierCopy(e, events[e.i]) && EarlierCopy(events[e.i], Appended(events, p)[e.i]);
    }
  }

  lemma TakeOut(s: seq<Event>, k: nat)
    requires k < |s|
    ensures multiset(s) == multiset(Without(s, k)) + multiset{s[k]}
    ensures forall e :: e in Without(s, k) ==> e in s
  {
    assert s == s[..k] + [s[k]] + s[k + 1..];
  }

  lemma EmitKeepsInv(st: State, p: Payload, json: Event -> string)
    requires Inv(st, json)
    ensures Inv(Step(st, Emit(p), json), json)
  {
    EmitKeepsTranscript(st.events, p);
    CopiesGrow(st.waiting, st.events, p);
    CopiesGrow(Passed(st.history), st.events, p);
    hide WellFormed, EarlierCopy, Appended, StreamEvent, Passed, Counter, Justified, Contents;
  }

  lemma CompareFrame(st: State, k: nat, json: Event -> string)
    requires k < |st.waiting|
    ensures var ev := st.waiting[k];
            var larger := ev.i > st.persistedSeq;
            Step(st, Compare(k), json)
              == st.(waiting := Without(st.waiting, k), history := st.history + [Compared(ev, larger)],
                     compared := if larger then st.compared + [ev] else st.compared)
  {
  }

  lemma CompareKeepsLog(st: State, k: nat, json: Event -> string)
    requires LogOk(st) && k < |st.waiting|
    ensures LogOk(Step(st, Compare(k), json))
  {
    var ev := st.waiting[k];
    CompareFrame(st, k, json);
    NoteSnoc(st.history, Compared(ev, ev.i > st.persistedSeq));
    TakeOut(st.waiting, k);
    assert ev in st.waiting;
    hide Step, Without, Passed, WellFormed, CopyOf;
  }

  lemma CompareKeepsFlow(st: State, k: nat, json: Event -> string)
    requires FlowOk(st) && k < |st.waiting|
    ensures FlowOk(Step(st, Compare(k), json))
  {
    var ev := st.waiting[k];
    CompareFrame(st, k, json);
    NoteSnoc(st.history, Compared(ev, ev.i > st.persistedSeq));
    hide Step, Without, Passed;
    MoreCompared(multiset(st.compared), multiset(st.storing), multiset(st.stored) + multiset(st.dropped), ev);
    assert multiset(st.compared + [ev]) == multiset(st.compared) + multiset{ev};
    assert Passed(st.history) + [] == Passed(st.history);
  }

  lemma CompareKeepsCounter(st: State, k: nat, json: Event -> string)
    requires CounterOk(st) && k < |st.waiting|
    ensures CounterOk(Step(st, Compare(k), json))
  {
    var note := Compared(st.waiting[k], st.waiting[k].i > st.persistedSeq);
    CompareFrame(st, k, json);
    NoteSnoc(st.history, note);
    hide Step, Without, Passed, Counter, Justified;
    JustifiedSnoc(st.history, note);
  }

  lemma CompareKeepsInv(st: State, k: nat, json: Event -> string)
    requires Inv(st, json)
    ensures Inv(Step(st, Compare(k), json), json)
  {
    if k < |st.waiting| {
      CompareKeepsLog(st, k, json);
      CompareKeepsFlow(st, k, json);
      CompareKeepsCounter(st, k, json);
      CompareFrame(st, k, json);
      hide Step, LogOk, FlowOk, CounterOk, Contents;
    }
  }

  lemma MoreCompared(a: multiset<Event>, b: multiset<Event>, c: multiset<Event>, ev: Event)
    ensures a + multiset{ev} + b + c == a + b + c + multiset{ev}
    ensures a + (b + multiset{ev}) + c == a + multiset{ev} + b + c
    ensures a + b + (c + multiset{ev}) == a + (b + multiset{ev}) + c
  {
  }

  lemma AdvanceFrame(st: State, k: nat, json: Event -> string)
    requires k < |st.compared|
    ensures var ev := st.compared[k];
            Step(st, Advance(k), json)
              == st.(compared := Without(st.compared, k), persistedSeq := ev.i, storing := st.storing + [ev],
                     history := st.history + [Advanced(ev.i)])
  {
  }

  lemma AdvanceKeepsFlow(st: State, k: nat, json: Event -> string)
    requires FlowOk(st) && k < |st.compared|
    ensures FlowOk(Step(st, Advance(k), json))
  {
    var ev := st.compared[k];
    AdvanceFrame(st, k, json);
    NoteSnoc(st.history, Advanced(ev.i));
    TakeOut(st.compared, k);
    hide Step, Without, Passed;
    MoreCompared(multiset(Without(st.compared, k)), multiset(st.storing), multiset(st.stored) + multiset(st.dropped), ev);
    assert multiset(st.storing + [ev]) == multiset(st.storing) + multiset{ev};
    assert Passed(st.history) + [] == Passed(st.history);
  }

  lemma AdvanceKeepsCounter(st: State, k: nat, json: Event -> string)
    requires CounterOk(st) && k < |st.compared|
    ensures CounterOk(Step(st, Advance(k), json))
  {
    var note := Advanced(st.compared[k].i);
    AdvanceFrame(st, k, json);
    hide Step, Without, Passed, Counter, Justified;
    NoteSnoc(st.history, note);
    JustifiedSnoc(st.history, note);
  }

  lemma AdvanceKeepsLog(st: State, k: nat, json: Event -> string)
    requires LogOk(st) && k < |st.compared|
    ensures LogOk(Step(st, Advance(k), json))
  {
    AdvanceFrame(st, k, json);
    hide Step, LogOk, Without, Passed;
    NoteSnoc(st.history, Advanced(st.compared[k].i));
    assert Passed(st.history) + [] == Passed(st.history);
    SameLog(st, Step(st, Advance(k), json));
  }

  lemma AdvanceKeepsInv(st: State, k: nat, json: Event -> string)
    requires Inv(st, json)
    ensures Inv(Step(st, Advance(k), json), json)
  {
    if k < |st.compared| {
      AdvanceKeepsLog(st, k, json);
      AdvanceKeepsFlow(st, k, json);
      AdvanceKeepsCounter(st, k, json);
      AdvanceFrame(st, k, json);
      hide Step, LogOk, FlowOk, CounterOk, Contents;
    }
  }

  lemma SameLog(st: State, now: State)
    requires LogOk(st) && now.events == st.events && now.waiting == st.waiting
    requires Passed(now.history) == Passed(st.history)
    ensures LogOk(now)
  {
    hide Passed, WellFormed, Copies;
  }

  lemma StoreKeepsInv(st: State, k: nat, json: Event -> string)
    requires Inv(st, json)
    ensures Inv(Step(st, Store(k), json), json)
  {
    hide WellFormed, Copies, Passed, Counter, Justified;
    if k < |st.storing| {
      var ev := st.storing[k];
      TakeOut(st.storing, k);
      ChatStore.AppendKeepsEverything(st.rows, [Content(ev, json)]);
      assert Contents(st.stored + [ev], json) == Contents(st.stored, json) + [Content(ev, json)];
      MoreCompared(multiset(st.compared), multiset(Without(st.storing, k)), multiset(st.stored) + multiset(st.dropped), ev);
      OneMore(multiset(st.stored), multiset(st.dropped), ev);
      hide Without, Contents;
    }
  }

  lemma OneMore(a: multiset<Event>, b: multiset<Event>, ev: Event)
    ensures a + multiset{ev} + b == a + b + multiset{ev} == a + (b + multiset{ev})
  {
  }

  lemma StoreFailsKeepsInv(st: State, k: nat, json: Event -> string)
    requires Inv(st, json)
    ensures Inv(Step(st, StoreFails(k), json), json)
  {
    hide WellFormed, Copies, Passed, Counter, Justified, Contents;
    if k < |st.storing| {
      var ev := st.storing[k];
      TakeOut(st.storing, k);
      MoreCompared(multiset(st.compared), multiset(Without(st.storing, k)), multiset(st.stored) + multiset(st.dropped), ev);
      OneMore(multiset(st.stored), multiset(st.dropped), ev);
      hide Without;
    }
  }

  /** In every run the table reads back what was stored, everything let through
      is on its way, stored, or dropped by a failing append, and every decision is
      explained by the history. */
  lemma {:induction false} PersistenceIsSound(acts: seq<Action>, json: Event -> string)
    ensures Inv(Run(INIT, acts, json), json)
  {
    hide Inv, Step;
    if acts != [] {
      PersistenceIsSound(acts[..|acts| - 1], json);
      var st := Run(INIT, acts[..|acts| - 1], json);
      match acts[|acts| - 1]
      case Emit(p) => EmitKeepsInv(st, p, json);
      case Compare(k) => CompareKeepsInv(st, k, json);
      case Advance(k) => AdvanceKeepsInv(st, k, json);
      case Store(k) => StoreKeepsInv(st, k, json);
      case StoreFails(k) => StoreFailsKeepsInv(st, k, json);
    } else {
      NothingYet(json);
    }
  }

  lemma NothingYet(json: Event -> string)
    ensures Inv(INIT, json)
  {
  }

  /** What is read back are copies of logged events, never of the first one. */
  lemma StoredAreCopies(acts: seq<Action>, json: Event -> string)
    ensures var st := Run(INIT, acts, json);
            && ChatStore.Read(st.rows) == Contents(st.stored, json)
            && forall e :: e in st.stored ==> e.i >= 1 && CopyOf(e, st.events)
  {
    var st := Run(INIT, acts, json);
    PersistenceIsSound(acts, json);
    hide Run, WellFormed, CopyOf, Passed, Counter, Justified;
    forall e | e in st.stored ensures e in Passed(st.history) {
      assert e in multiset(st.stored) && e in multiset(Passed(st.history));
    }
  }

  /** In every run, an index from 1 on that was compared is missing from what was
      let through exactly when each of its comparisons found the counter at or
      above it; and nothing is let through twice exactly when no comparison finds
      the counter below an index that had already passed. */
  lemma LetThroughIff(acts: seq<Action>, json: Event -> string, i: nat)
    ensures var h := Run(INIT, acts, json).history;
            && Justified(h)
            && (!HasIndex(Passed(h), i) <==> forall n :: ComparedAt(h, n, i) ==> Counter(h[..n]) >= i)
            && (DistinctIndices(Passed(h)) <==> NeverTwice(h))
  {
    PersistenceIsSound(acts, json);
    var h := Run(INIT, acts, json).history;
    MissingIff(h, i);
    AtMostOnceIff(h);
  }

  // ----- runs in which no comparison falls between another one and its assignment -----

  ghost predicate Undisturbed(acts: seq<Action>, json: Event -> string) {
    forall n :: 0 <= n < |acts| && acts[n].Compare? ==> Run(INIT, acts[..n], json).compared == []
  }

  ghost predicate Increasing(evs: seq<Event>) {
    forall j, k :: 0 <= j < k < |evs| ==> evs[j].i < evs[k].i
  }

  function LastIndex(evs: seq<Event>): nat {
    if evs == [] then 0 else evs[|evs| - 1].i
  }

  /** Every comparison found the counter at the index let through last. */
  ghost predicate Orderly(h: seq<Note>) {
    forall n :: 0 <= n < |h| && h[n].Compared? ==> Counter(h[..n]) == LastIndex(Passed(h[..n]))
  }

  /** At most one event is between comparison and assignment, the last that passed. */
  ghost predicate Alone(compared: seq<Event>, h: seq<Note>) {
    var passed := Passed(h);
    && Increasing(passed) && Orderly(h)
    && if compared == [] then Counter(h) == LastIndex(passed)
       else |compared| == 1 && passed != [] && passed[|passed| - 1] == compared[0]
  }

  ghost predicate OneAtATime(st: State) {
    Alone(st.compared, st.history)
  }

  lemma OrderlySnoc(h: seq<Note>, note: Note)
    requires Orderly(h) && (note.Compared? ==> Counter(h) == LastIndex(Passed(h)))
    ensures Orderly(h + [note])
  {
    var now := h + [note];
    hide Counter, Passed, LastIndex;
    forall n | 0 <= n < |now| && now[n].Compared? ensures Counter(now[..n]) == LastIndex(Passed(now[..n])) {
      assert now[..n] == if n < |h| then h[..n] else h;
    }
  }

  lemma IncreasingSnoc(evs: seq<Event>, ev: Event)
    requires Increasing(evs) && ev.i > LastIndex(evs)
    ensures Increasing(evs + [ev])
  {
    var now := evs + [ev];
    forall j, k | 0 <= j < k < |now| ensures now[j].i < now[k].i {
      assert evs != [] ==> evs[j].i <= evs[|evs| - 1].i;
    }
  }

  lemma ComparisonAlone(h: seq<Note>, ev: Event)
    requires Alone([], h)
    ensures var larger := ev.i > Counter(h);
            Alone(if larger then [ev] else [], h + [Compared(ev, larger)])
  {
    hide Passed, Counter, Orderly, Increasing, LastIndex;
    var larger := ev.i > Counter(h);
    NoteSnoc(h, Compared(ev, larger));
    OrderlySnoc(h, Compared(ev, larger));
    if larger {
      IncreasingSnoc(Passed(h), ev);
      assert (Passed(h) + [ev])[|Passed(h)|] == ev;
    } else {
      assert Passed(h) + [] == Passed(h);
    }
  }

  lemma AssignmentAlone(h: seq<Note>, ev: Event)
    requires Alone([ev], h)
    ensures Alone([], h + [Advanced(ev.i)])
  {
    hide Passed, Counter, Orderly, Increasing;
    NoteSnoc(h, Advanced(ev.i));
    OrderlySnoc(h, Advanced(ev.i));
    assert Passed(h) + [] == Passed(h);
  }

  lemma CompareAlone(st: State, k: nat, json: Event -> string)
    requires CounterOk(st) && OneAtATime(st) && st.compared == []
    ensures OneAtATime(Step(st, Compare(k), json))
  {
    if k < |st.waiting| {
      var ev := st.waiting[k];
      CompareFrame(st, k, json);
      ComparisonAlone(st.history, ev);
      assert [] + [ev] == [ev];
    }
    hide Step, Alone, Counter, Justified;
  }

  lemma AdvanceAlone(st: State, k: nat, json: Event -> string)
    requires OneAtATime(st)
    ensures OneAtATime(Step(st, Advance(k), json))
  {
    if k < |st.compared| {
      assert k == 0 && st.compared == [st.compared[0]] && Without(st.compared, 0) == [];
      AssignmentAlone(st.history, st.compared[0]);
      AdvanceFrame(st, k, json);
    }
    hide Step, Alone, Without;
  }

  lemma UndisturbedStep(st: State, a: Action, json: Event -> string)
    requires Inv(st, json) && OneAtATime(st) && (a.Compare? ==> st.compared == [])
    ensures OneAtATime(Step(st, a, json))
  {
    hide OneAtATime;
    match a
    case Compare(k) => CompareAlone(st, k, json);
    case Advance(k) => AdvanceAlone(st, k, json);
    case _ => OthersLeaveCounter(st, a, json);
  }

  lemma OthersLeaveCounter(st: State, a: Action, json: Event -> string)
    requires OneAtATime(st) && (a.Emit? || a.Store? || a.StoreFails?)
    ensures OneAtATime(Step(st, a, json))
  {
    hide Passed, Counter, Orderly, Increasing, Appended, StreamEvent, Content;
    var now := Step(st, a, json);
    assert now.history == st.history && now.compared == st.compared;
  }

  lemma {:induction false} UndisturbedIsOrderly(acts: seq<Action>, json: Event -> string)
    requires Undisturbed(acts, json)
    ensures OneAtATime(Run(INIT, acts, json))
  {
    hide OneAtATime, Step;
    if acts != [] {
      var before := acts[..|acts| - 1];
      forall n | 0 <= n < |before| ensures before[n] == acts[n] && before[..n] == acts[..n] {}
      UndisturbedIsOrderly(before, json);
      PersistenceIsSound(before, json);
      UndisturbedStep(Run(INIT, before, json), acts[|acts| - 1], json);
    } else {
      NothingCompared();
    }
  }

  lemma NothingCompared()
    ensures OneAtATime(INIT)
  {
  }

  lemma OnceIn(whole: seq<Event>, a: nat)
    requires Increasing(whole) && a < |whole|
    ensures multiset(whole)[whole[a]] == 1
  {
    assert whole == whole[..a] + [whole[a]] + whole[a + 1..];
    assert whole[a] !in whole[..a] && whole[a] !in whole[a + 1..];
  }

  lemma TwiceIn(part: seq<Event>, j: nat, k: nat)
    requires j < k < |part| && part[j] == part[k]
    ensures multiset(part)[part[j]] >= 2
  {
    assert part == part[..k] + part[k..];
    assert part[j] in part[..k] && part[j] in part[k..];
  }

  lemma DistinctPart(part: seq<Event>, whole: seq<Event>, j: nat, k: nat)
    requires Increasing(whole) && multiset(part) <= multiset(whole) && j < k < |part|
    ensures part[j].i != part[k].i
  {
    assert part[j] in multiset(whole) && part[k] in multiset(whole);
    var a :| 0 <= a < |whole| && whole[a] == part[j];
    var b :| 0 <= b < |whole| && whole[b] == part[k];
    if a == b {
      OnceIn(whole, a);
      TwiceIn(part, j, k);
      assert false;
    }
  }

  /** In such a run the table has every index at most once. */
  lemma StoredAtMostOnce(acts: seq<Action>, json: Event -> string)
    requires Undisturbed(acts, json)
    ensures var st := Run(INIT, acts, json);
            ChatStore.Read(st.rows) == Contents(st.stored, json) && DistinctIndices(st.stored)
  {
    var st := Run(INIT, acts, json);
    PersistenceIsSound(acts, json);
    UndisturbedIsOrderly(acts, json);
    hide Run, WellFormed, Copies, Passed, Counter, Justified, Orderly;
    assert multiset(st.stored) <= multiset(Passed(st.history));
    forall j, k | 0 <= j < k < |st.stored| ensures st.stored[j].i != st.stored[k].i {
      DistinctPart(st.stored, Passed(st.history), j, k);
    }
  }

  /** `n` is the first comparison of index `i`. */
  ghost predicate FirstComparison(h: seq<Note>, n: nat, i: nat) {
    ComparedAt(h, n, i) && forall m :: 0 <= m < n ==> !ComparedAt(h, m, i)
  }

  lemma IncreasingBound(evs: seq<Event>)
    requires Increasing(evs)
    ensures forall e :: e in evs ==> e.i <= LastIndex(evs)
  {
  }

  /** And there an index from 1 on is missing exactly when a larger one was let
      through before its first comparison. */
  lemma OvertakenIff(acts: seq<Action>, json: Event -> string, i: nat, n: nat)
    requires Undisturbed(acts, json) && i >= 1
    requires FirstComparison(Run(INIT, acts, json).history, n, i)
    ensures var h := Run(INIT, acts, json).history;
            !HasIndex(Passed(h), i) <==> exists e :: e in Passed(h[..n]) && e.i > i
  {
    var h := Run(INIT, acts, json).history;
    PersistenceIsSound(acts, json);
    UndisturbedIsOrderly(acts, json);
    hide Run, Undisturbed, Passed, Counter, HasIndex, Orderly, Justified, Increasing;
    if HasIndex(Passed(h), i) {
      NotOvertaken(h, n, i);
    } else {
      Overtaken(h, n, i);
    }
  }

  lemma Overtaken(h: seq<Note>, n: nat, i: nat)
    requires Justified(h) && Orderly(h) && Increasing(Passed(h))
    requires FirstComparison(h, n, i) && i >= 1 && !HasIndex(Passed(h), i)
    ensures exists e :: e in Passed(h[..n]) && e.i > i
  {
    MissingIff(h, i);
    FirstIsNotBefore(h, n, i);
    hide Passed, Counter, Justified;
    var before := Passed(h[..n]);
    assert LastIndex(before) >= i;
    var last := before[|before| - 1];
    assert last in before && last.i > i;
  }

  lemma NotOvertaken(h: seq<Note>, n: nat, i: nat)
    requires Justified(h) && Orderly(h) && Increasing(Passed(h))
    requires FirstComparison(h, n, i) && HasIndex(Passed(h), i)
    ensures forall e :: e in Passed(h[..n]) ==> e.i <= i
  {
    hide Passed, Counter, Justified, HasIndex, Increasing, LastIndex;
    PassedIff(h, i);
    var m :| PassesAt(h, m, i);
    assert m >= n;
    PassedPrefix(h, m);
    PassedPrefix(h[..m], n);
    assert h[..m][..n] == h[..n];
    IncreasingPrefix(Passed(h[..m]), Passed(h));
    IncreasingBound(Passed(h[..m]));
    assert LastIndex(Passed(h[..m])) < i;
    PartOf(Passed(h[..n]), Passed(h[..m]));
  }

  lemma IncreasingPrefix(a: seq<Event>, b: seq<Event>)
    requires a <= b && Increasing(b)
    ensures Increasing(a)
  {
  }

  lemma PartOf(a: seq<Event>, b: seq<Event>)
    requires a <= b
    ensures forall e :: e in a ==> e in b
  {
  }

  /** Before its first comparison an index has not been let through. */
  lemma FirstIsNotBefore(h: seq<Note>, n: nat, i: nat)
    requires FirstComparison(h, n, i)
    ensures !HasIndex(Passed(h[..n]), i)
  {
    hide Passed;
    forall e | e in Passed(h[..n]) ensures e.i != i {
      PassedMembers(h[..n], e);
      var m :| 0 <= m < n && h[..n][m] == Compared(e, true);
      assert ComparedAt(h, m, e.i);
    }
  }

  // ----- the runs that lose or repeat an event -----

  lemma {:induction false} RunConcat(st: State, a: seq<Action>, b: seq<Action>, json: Event -> string)
    ensures Run(st, a + b, json) == Run(Run(st, a, json), b, json)
    decreases |b|
  {
    hide Step;
    if b == [] {
      assert a + b == a;
    } else {
      RunConcat(st, a, b[..|b| - 1], json);
      assert (a + b)[..|a + b| - 1] == a + b[..|b| - 1];
    }
  }

  lemma RunTwo(st: State, a: Action, b: Action, json: Event -> string)
    ensures Run(st, [a, b], json) == Step(Step(st, a, json), b, json)
  {
    hide Step;
    assert [a, b][..1] == [a] && [a][..0] == [];
    assert Run(st, [a], json) == Step(st, a, json);
  }

  lemma RunFour(st: State, a: Action, b: Action, c: Action, d: Action, json: Event -> string)
    ensures Run(st, [a, b, c, d], json) == Step(Step(Step(Step(st, a, json), b, json), c, json), d, json)
  {
    assert [a, b, c, d] == [a, b] + [c, d];
    RunConcat(st, [a, b], [c, d], json);
    RunTwo(st, a, b, json);
    RunTwo(Step(Step(st, a, json), b, json), c, d, json);
    hide Step, Run;
  }

  // What each step leaves, apart from the rows and the history.

  lemma ComparesLarger(st: State, k: nat, json: Event -> string)
    requires k < |st.waiting| && st.waiting[k].i > st.persistedSeq
    ensures var now := Step(st, Compare(k), json);
            && now.events == st.events && now.persistedSeq == st.persistedSeq
            && now.waiting == Without(st.waiting, k) && now.compared == st.compared + [st.waiting[k]]
            && now.storing == st.storing && now.stored == st.stored
  {
  }

  lemma ComparesSmaller(st: State, k: nat, json: Event -> string)
    requires k < |st.waiting| && st.waiting[k].i <= st.persistedSeq
    ensures var now := Step(st, Compare(k), json);
            && now.events == st.events && now.persistedSeq == st.persistedSeq
            && now.waiting == Without(st.waiting, k) && now.compared == st.compared
            && now.storing == st.storing && now.stored == st.stored
  {
  }

  lemma Advances(st: State, k: nat, json: Event -> string)
    requires k < |st.compared|
    ensures var now := Step(st, Advance(k), json);
            && now.events == st.events && now.persistedSeq == st.compared[k].i
            && now.waiting == st.waiting && now.compared == Without(st.compared, k)
            && now.storing == st.storing + [st.compared[k]] && now.stored == st.stored
  {
  }

  lemma Stores(st: State, k: nat, json: Event -> string)
    requires k < |st.storing|
    ensures var now := Step(st, Store(k), json);
            && now.events == st.events && now.persistedSeq == st.persistedSeq
            && now.waiting == st.waiting && now.compared == st.compared
            && now.storing == Without(st.storing, k) && now.stored == st.stored + [st.storing[k]]
  {
  }

  lemma SmallLists(a: Event, b: Event, c: Event)
    ensures Without([a], 0) == [] && Without([a, b], 0) == [b] && Without([a, b], 1) == [a]
    ensures Without([a, b, c], 0) == [b, c]
  {
  }

  /** Nothing of an earlier emit is under way, and the next event is new. */
  ghost predicate Settled(st: State) {
    && st.waiting == [] && st.compared == [] && st.storing == []
    && 1 <= |st.events| && st.persistedSeq < |st.events|
    && !Thinking(st.events[|st.events| - 1].kind)
  }

  /** Two emitters that compare in the opposite order lose the earlier event: it
      is neither let through nor waiting any more. */
  lemma OvertakenEventIsLost(st: State, p: Payload, q: Payload, json: Event -> string)
    requires Settled(st) && !Thinking(p.kind) && !Thinking(q.kind)
    ensures var n := |st.events|;
            var end := Run(st, [Emit(p), Emit(q)] + [Compare(1), Advance(0)] + [Compare(0), Store(0)], json);
            && end.events == st.events + [Event(n, p.kind, p.text, p.state), Event(n + 1, q.kind, q.text, q.state)]
            && end.waiting == [] && end.compared == [] && end.storing == []
            && end.stored == st.stored + [end.events[n + 1]]
  {
    var n := |st.events|;
    var first, second := Event(n, p.kind, p.text, p.state), Event(n + 1, q.kind, q.text, q.state);
    SmallLists(first, second, second);
    SmallLists(second, second, second);
    RunConcat(st, [Emit(p), Emit(q)] + [Compare(1), Advance(0)], [Compare(0), Store(0)], json);
    RunConcat(st, [Emit(p), Emit(q)], [Compare(1), Advance(0)], json);
    var st2 := TwoEmits(st, p, q, json);
    RunTwo(st, Emit(p), Emit(q), json);
    RunTwo(st2, Compare(1), Advance(0), json);
    ComparesLarger(st2, 1, json);
    var st3 := Step(st2, Compare(1), json);
    Advances(st3, 0, json);
    var st4 := Step(st3, Advance(0), json);
    RunTwo(st4, Compare(0), Store(0), json);
    ComparesSmaller(st4, 0, json);
    Stores(Step(st4, Compare(0), json), 0, json);
    hide Run, Step, Without;
  }

  lemma TwoEmits(st: State, p: Payload, q: Payload, json: Event -> string) returns (end: State)
    requires Settled(st) && !Thinking(p.kind)
    ensures end == Step(Step(st, Emit(p), json), Emit(q), json)
    ensures var n := |st.events|;
            var first, second := Event(n, p.kind, p.text, p.state), Event(n + 1, q.kind, q.text, q.state);
            end == st.(events := st.events + [first, second], waiting := [first, second])
  {
    end := Step(Step(st, Emit(p), json), Emit(q), json);
  }

  /** A thought and its next chunk that are both compared before either moves the
      counter are both stored, under one index. */
  lemma ComparedTogetherIsStoredTwice(st: State, p: Payload, q: Payload, json: Event -> string)
    requires Settled(st) && Thinking(p.kind) && Thinking(q.kind)
    ensures var n := |st.events|;
            var end := Run(st, [Emit(p), Emit(q), Compare(0), Compare(0)]
                               + [Advance(0), Advance(0), Store(0), Store(0)], json);
            && |end.stored| == |st.stored| + 2 && !DistinctIndices(end.stored)
            && end.stored[|st.stored|].i == n == end.stored[|st.stored| + 1].i
  {
    var n := |st.events|;
    var st2 := ThoughtInTwoChunks(st, p, q, json);
    var first, merged := st2.waiting[0], st2.waiting[1];
    assert st2.waiting == [first, merged];
    SmallLists(first, merged, merged);
    SmallLists(merged, merged, merged);
    RunConcat(st, [Emit(p), Emit(q), Compare(0), Compare(0)], [Advance(0), Advance(0), Store(0), Store(0)], json);
    RunFour(st, Emit(p), Emit(q), Compare(0), Compare(0), json);
    ComparesLarger(st2, 0, json);
    var st3 := Step(st2, Compare(0), json);
    ComparesLarger(st3, 0, json);
    var st4 := Step(st3, Compare(0), json);
    RunFour(st4, Advance(0), Advance(0), Store(0), Store(0), json);
    Advances(st4, 0, json);
    var st5 := Step(st4, Advance(0), json);
    Advances(st5, 0, json);
    var st6 := Step(st5, Advance(0), json);
    Stores(st6, 0, json);
    Stores(Step(st6, Store(0), json), 0, json);
    hide Run, Step, Without;
    RepeatsIndex(st.stored, first, merged);
  }

  lemma RepeatsIndex(evs: seq<Event>, a: Event, b: Event)
    requires a.i == b.i
    ensures !DistinctIndices(evs + [a] + [b])
  {
    var now := evs + [a] + [b];
    assert now[|evs|] == a && now[|evs| + 1] == b;
  }

  lemma ThoughtInTwoChunks(st: State, p: Payload, q: Payload, json: Event -> string) returns (end: State)
    requires Settled(st) && Thinking(p.kind) && Thinking(q.kind)
    ensures end == Step(Step(st, Emit(p), json), Emit(q), json)
    ensures end == st.(events := end.events, waiting := end.waiting)
    ensures |end.waiting| == 2 && end.waiting[0].i == end.waiting[1].i == |st.events|
  {
    var one := Step(st, Emit(p), json);
    assert one.events[|st.events|] == Event(|st.events|, p.kind, p.text, p.state);
    end := Step(one, Emit(q), json);
  }

  /** And an emitter that is slow to assign moves the counter back, so the next
      chunk of a thought that was let through passes again. */
  lemma CounterGoesBack(st: State, p: Payload, q: Payload, chunk: Payload, json: Event -> string)
    requires Settled(st) && !Thinking(p.kind) && Thinking(q.kind) && Thinking(chunk.kind)
    ensures var n := |st.events|;
            var end := Run(st, [Emit(p), Emit(q), Compare(0), Compare(0)]
                               + [Advance(1), Advance(0), Emit(chunk), Compare(0)], json);
            && end.persistedSeq == n && |end.storing| == 2 && |end.compared| == 1
            && end.storing[0].i == n + 1 == end.compared[0].i
  {
    var n := |st.events|;
    var st2 := TwoEmits(st, p, q, json);
    var first, second := st2.waiting[0], st2.waiting[1];
    SmallLists(first, second, second);
    SmallLists(second, second, second);
    RunConcat(st, [Emit(p), Emit(q), Compare(0), Compare(0)], [Advance(1), Advance(0), Emit(chunk), Compare(0)], json);
    RunFour(st, Emit(p), Emit(q), Compare(0), Compare(0), json);
    ComparesLarger(st2, 0, json);
    var st3 := Step(st2, Compare(0), json);
    ComparesLarger(st3, 0, json);
    var st4 := Step(st3, Compare(0), json);
    RunFour(st4, Advance(1), Advance(0), Emit(chunk), Compare(0), json);
    Advances(st4, 1, json);
    var st5 := Step(st4, Advance(1), json);
    Advances(st5, 0, json);
    var st6 := Step(st5, Advance(0), json);
    var st7 := NextChunk(st6, second, chunk, json);
    ComparesLarger(st7, 0, json);
    hide Run, Step, Without;
  }

  lemma NextChunk(st: State, last: Event, chunk: Payload, json: Event -> string) returns (now: State)
    requires st.events != [] && st.events[|st.events| - 1] == last && Thinking(last.kind) && Thinking(chunk.kind)
    requires st.waiting == []
    ensures now == Step(st, Emit(chunk), json)
    ensures |now.waiting| == 1 && now.waiting[0].i == last.i
    ensures now.compared == st.compared && now.storing == st.storing && now.persistedSeq == st.persistedSeq
  {
    now := Step(st, Emit(chunk), json);
  }

  // ----- one emitter -----

  /** Emit, compare, assign and append, one event after the other. */
  function PersistOne(st: State, p: Payload, json: Event -> string): State {
    Step(Step(Step(Step(st, Emit(p), json), Compare(0), json), Advance(0), json), Store(0), json)
  }

  function Serial(ps: seq<Payload>, json: Event -> string): State {
    if ps == [] then INIT else PersistOne(Serial(ps[..|ps| - 1], json), ps[|ps| - 1], json)
  }

  function Log(ps: seq<Payload>): seq<Event> {
    if ps == [] then [] else Appended(Log(ps[..|ps| - 1]), ps[|ps| - 1])
  }

  /** Every event of the log as it was when its index was handed out. */
  function FirstVersions(ps: seq<Payload>): seq<Event> {
    if ps == [] then []
    else
      var log, p := Log(ps[..|ps| - 1]), ps[|ps| - 1];
      FirstVersions(ps[..|ps| - 1]) + (if Merges(log, p) then [] else [StreamEvent(log, p)])
  }

  function Tail(s: seq<Event>): seq<Event> {
    if s == [] then [] else s[1..]
  }

  lemma {:induction false} FirstVersionsAreCopies(ps: seq<Payload>)
    ensures WellFormed(Log(ps)) && |FirstVersions(ps)| == |Log(ps)|
    ensures forall k :: 0 <= k < |Log(ps)| ==> EarlierCopy(FirstVersions(ps)[k], Log(ps)[k])
  {
    if ps != [] {
      var before, p := ps[..|ps| - 1], ps[|ps| - 1];
      FirstVersionsAreCopies(before);
      EmitKeepsTranscript(Log(before), p);
      forall k | 0 <= k < |Log(ps)| ensures EarlierCopy(FirstVersions(ps)[k], Log(ps)[k]) {
        if k < |Log(before)| {
          assert EarlierCopy(FirstVersions(before)[k], Log(before)[k]) && EarlierCopy(Log(before)[k], Log(ps)[k]);
        }
      }
    }
  }

  ghost predicate UpToDate(st: State, ps: seq<Payload>) {
    && st.events == Log(ps) && st.waiting == [] && st.compared == [] && st.storing == []
    && st.persistedSeq == (if Log(ps) == [] then 0 else |Log(ps)| - 1)
    && st.stored == Tail(FirstVersions(ps))
  }

  /** The only event under way, followed to the end. */
  lemma FollowOne(st: State, ev: Event, json: Event -> string)
    requires st.waiting == [ev] && st.compared == [] && st.storing == []
    ensures var end := Step(Step(Step(st, Compare(0), json), Advance(0), json), Store(0), json);
            && end.events == st.events && end.waiting == [] && end.compared == [] && end.storing == []
            && end.persistedSeq == (if ev.i > st.persistedSeq then ev.i else st.persistedSeq)
            && end.stored == (if ev.i > st.persistedSeq then st.stored + [ev] else st.stored)
  {
    SmallLists(ev, ev, ev);
    hide Without;
    var st1 := Step(st, Compare(0), json);
    if ev.i > st.persistedSeq {
      assert st1.compared == [ev];
      assert Step(st1, Advance(0), json).storing == [ev];
    } else {
      assert Step(st1, Advance(0), json) == st1 && Step(st1, Store(0), json) == st1;
    }
  }

  lemma OneMoreIsStored(st: State, ps: seq<Payload>, p: Payload, json: Event -> string)
    requires UpToDate(st, ps) && WellFormed(Log(ps)) && |FirstVersions(ps)| == |Log(ps)|
    ensures UpToDate(PersistOne(st, p, json), ps + [p])
  {
    var log, ev := Log(ps), StreamEvent(Log(ps), p);
    LogSnoc(ps, p);
    hide ChatStore.AppendAll, Contents, Log, FirstVersions;
    var st1 := Step(st, Emit(p), json);
    assert st1 == st.(events := Appended(log, p), waiting := [ev]);
    FollowOne(st1, ev, json);
    hide Step;
    if Merges(log, p) || log == [] {
      assert log == [] ==> FirstVersions(ps) == [];
    } else {
      assert Tail(FirstVersions(ps) + [ev]) == Tail(FirstVersions(ps)) + [ev];
    }
  }

  lemma LogSnoc(ps: seq<Payload>, p: Payload)
    ensures Log(ps + [p]) == Appended(Log(ps), p)
    ensures FirstVersions(ps + [p])
         == FirstVersions(ps) + (if Merges(Log(ps), p) then [] else [StreamEvent(Log(ps), p)])
  {
    hide Appended, StreamEvent, Merges;
    assert (ps + [p])[..|ps|] == ps;
  }

  /** With a single emitter the table reads back as the log without its first
      event, each thinking event with the text of its first chunk: the counter
      starts at 0, so index 0 is never larger, and a merged chunk reuses its
      index. */
  lemma {:induction false} SerialStoresAllButFirst(ps: seq<Payload>, json: Event -> string)
    ensures UpToDate(Serial(ps, json), ps) && Inv(Serial(ps, json), json)
    ensures ChatStore.Read(Serial(ps, json).rows) == Contents(Tail(FirstVersions(ps)), json)
  {
    hide Inv, UpToDate, Log, FirstVersions, Step;
    if ps == [] {
      NothingYet(json);
      EmptyIsUpToDate();
    } else {
      var before, p := ps[..|ps| - 1], ps[|ps| - 1];
      var st := Serial(before, json);
      SerialStoresAllButFirst(before, json);
      FirstVersionsAreCopies(before);
      OneMoreIsStored(st, before, p, json);
      assert before + [p] == ps;
      EmitKeepsInv(st, p, json);
      var st1 := Step(st, Emit(p), json);
      CompareKeepsInv(st1, 0, json);
      var st2 := Step(st1, Compare(0), json);
      AdvanceKeepsInv(st2, 0, json);
      StoreKeepsInv(Step(st2, Advance(0), json), 0, json);
    }
    ReadsStored(Serial(ps, json), ps, json);
  }

  lemma EmptyIsUpToDate()
    ensures UpToDate(INIT, [])
  {
  }

  lemma ReadsStored(st: State, ps: seq<Payload>, json: Event -> string)
    requires UpToDate(st, ps) && Inv(st, json)
    ensures ChatStore.Read(st.rows) == Contents(Tail(FirstVersions(ps)), json)
  {
  }

  /** The `j`-th emit is a chunk merged into the event with index `k`. */
  predicate ChunkOf(ps: seq<Payload>, j: int, k: nat) {
    0 <= j < |ps| && Merges(Log(ps[..j]), ps[j]) && |Log(ps[..j])| == k + 1
  }

  /** Every later chunk merged into event `k` is a prefix of its first text. */
  ghost predicate NothingNew(ps: seq<Payload>, k: nat)
    requires k < |FirstVersions(ps)|
  {
    forall j :: ChunkOf(ps, j, k) ==> ps[j].text <= FirstVersions(ps)[k].text
  }

  lemma MergeUnchangedIff(oldText: string, newText: string)
    ensures MergeText(oldText, newText) == oldText <==> newText <= oldText
  {
    if oldText + newText == oldText { assert |newText| == 0; }
    if newText == "" { assert oldText + newText == oldText; }
  }

  lemma {:induction false} OnlyTextGrows(ps: seq<Payload>, k: nat)
    requires k < |Log(ps)|
    ensures |FirstVersions(ps)| == |Log(ps)|
    ensures var first, now := FirstVersions(ps)[k], Log(ps)[k];
            now == first.(text := now.text) && first.text <= now.text
  {
    FirstVersionsAreCopies(ps);
    var before, p := ps[..|ps| - 1], ps[|ps| - 1];
    FirstVersionsAreCopies(before);
    if k < |Log(before)| {
      OnlyTextGrows(before, k);
    }
    hide FirstVersions, MergeText;
  }

  lemma ChunkEarlier(ps: seq<Payload>, j: int, k: nat)
    requires ps != [] && j != |ps| - 1
    ensures ChunkOf(ps, j, k) <==> ChunkOf(ps[..|ps| - 1], j, k)
  {
    hide Log;
    if 0 <= j < |ps| - 1 { assert ps[..|ps| - 1][..j] == ps[..j]; }
  }

  /** The first version of a logged event is its current one exactly when no later
      chunk has brought more than a prefix of its text. */
  lemma {:induction false} UnchangedIff(ps: seq<Payload>, k: nat)
    requires k < |Log(ps)|
    ensures |FirstVersions(ps)| == |Log(ps)|
    ensures FirstVersions(ps)[k] == Log(ps)[k] <==> NothingNew(ps, k)
  {
    FirstVersionsAreCopies(ps);
    var before, p := ps[..|ps| - 1], ps[|ps| - 1];
    FirstVersionsAreCopies(before);
    LogSnoc(before, p);
    assert before + [p] == ps;
    hide Log, FirstVersions, NothingNew, MergeText;
    if k < |Log(before)| {
      UnchangedIff(before, k);
      ChunkChangesIff(ps, k);
    } else {
      NoChunkYet(ps, k);
    }
  }

  lemma ChunkChangesIff(ps: seq<Payload>, k: nat)
    requires ps != [] && |FirstVersions(ps)| == |Log(ps)|
    requires var before, p := ps[..|ps| - 1], ps[|ps| - 1];
             k < |Log(before)| == |FirstVersions(before)| && Log(ps) == Appended(Log(before), p)
             && (FirstVersions(before)[k] == Log(before)[k] <==> NothingNew(before, k))
    ensures k < |Log(ps)| && (FirstVersions(ps)[k] == Log(ps)[k] <==> NothingNew(ps, k))
  {
    var before, p := ps[..|ps| - 1], ps[|ps| - 1];
    var log := Log(before);
    OnlyTextGrows(before, k);
    NothingNewSnoc(ps, k);
    MergeUnchangedIff(log[k].text, p.text);
    MergeOnlyExtends(log[k].text, p.text);
    hide Log, FirstVersions, NothingNew, MergeText;
    if Merges(log, p) && k == |log| - 1 {
      assert Log(ps)[k] == log[k].(text := MergeText(log[k].text, p.text));
      SamePrefixes(FirstVersions(before)[k].text, log[k].text, Log(ps)[k].text);
    } else {
      assert Log(ps)[k] == log[k];
    }
  }

  lemma SamePrefixes(a: string, b: string, c: string)
    requires a <= b <= c
    ensures a == c <==> a == b && b == c
  {
  }

  lemma NothingNewSnoc(ps: seq<Payload>, k: nat)
    requires ps != [] && k < |FirstVersions(ps[..|ps| - 1])|
    ensures var before, p := ps[..|ps| - 1], ps[|ps| - 1];
            && k < |FirstVersions(ps)| && FirstVersions(ps)[k] == FirstVersions(before)[k]
            && (NothingNew(ps, k) <==>
                  NothingNew(before, k)
                  && (Merges(Log(before), p) && |Log(before)| == k + 1 ==> p.text <= FirstVersions(before)[k].text))
  {
    var before := ps[..|ps| - 1];
    assert FirstVersions(ps)[k] == FirstVersions(before)[k];
    hide Log, FirstVersions;
    forall j | j != |ps| - 1 ensures ChunkOf(ps, j, k) <==> ChunkOf(before, j, k) {
      ChunkEarlier(ps, j, k);
    }
    if NothingNew(ps, k) {
      forall j | ChunkOf(before, j, k) ensures before[j].text <= FirstVersions(before)[k].text {
        assert ChunkOf(ps, j, k);
      }
      assert Merges(Log(before), ps[|ps| - 1]) && |Log(before)| == k + 1 ==> ChunkOf(ps, |ps| - 1, k);
    }
  }

  lemma {:induction false} LogGrows(ps: seq<Payload>, j: nat)
    requires j <= |ps|
    ensures |Log(ps[..j])| <= |Log(ps)|
    decreases |ps|
  {
    if j < |ps| {
      FirstVersionsAreCopies(ps[..|ps| - 1]);
      EmitKeepsTranscript(Log(ps[..|ps| - 1]), ps[|ps| - 1]);
      LogGrows(ps[..|ps| - 1], j);
      assert ps[..|ps| - 1][..j] == ps[..j];
    } else {
      assert ps[..j] == ps;
    }
  }

  /** An event that has just got its index has no later chunk. */
  lemma NoChunkYet(ps: seq<Payload>, k: nat)
    requires ps != [] && k == |Log(ps[..|ps| - 1])| < |Log(ps)| == |FirstVersions(ps)|
    ensures NothingNew(ps, k) && FirstVersions(ps)[k] == Log(ps)[k]
  {
    var before, p := ps[..|ps| - 1], ps[|ps| - 1];
    FirstVersionsAreCopies(before);
    EmitKeepsTranscript(Log(before), p);
    assert FirstVersions(ps)[k] == Log(ps)[k];
    hide FirstVersions, Log;
    forall j ensures !ChunkOf(ps, j, k) {
      if 0 <= j < |before| {
        LogGrows(before, j);
        assert before[..j] == ps[..j];
      }
    }
  }

  /** Index by index: the log's event `k` is stored exactly when it is not the
      first, and it is stored as it is in the log exactly when, besides, every
      later chunk of it was a prefix of the first. */
  lemma StoredInFullIff(ps: seq<Payload>, json: Event -> string, k: nat)
    requires k < |Log(ps)|
    ensures |FirstVersions(ps)| == |Log(ps)|
    ensures var stored := Serial(ps, json).stored;
            && (HasIndex(stored, k) <==> k > 0)
            && (Log(ps)[k] in stored <==> k > 0 && NothingNew(ps, k))
  {
    SerialStoresAllButFirst(ps, json);
    FirstVersionsAreCopies(ps);
    UnchangedIff(ps, k);
    hide Serial, Log, FirstVersions, Inv, NothingNew;
    WithoutFirst(Log(ps), FirstVersions(ps), k);
  }

  lemma WithoutFirst(log: seq<Event>, firsts: seq<Event>, k: nat)
    requires WellFormed(log) && |firsts| == |log| && k < |log|
    requires forall j :: 0 <= j < |log| ==> EarlierCopy(firsts[j], log[j])
    ensures HasIndex(firsts[1..], k) <==> k > 0
    ensures log[k] in firsts[1..] <==> k > 0 && firsts[k] == log[k]
  {
    var stored := firsts[1..];
    forall j | 0 <= j < |log| ensures firsts[j].i == j {
      assert EarlierCopy(firsts[j], log[j]);
    }
    if k > 0 { assert stored[k - 1] in stored && stored[k - 1] == firsts[k]; }
    forall e | e in stored ensures 1 <= e.i < |log| && e == firsts[e.i] {
      var j :| 0 <= j < |stored| && stored[j] == e;
      assert firsts[j + 1] == e;
    }
    hide EarlierCopy;
  }
}
