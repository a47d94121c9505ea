/** The HTTP server with a hard cap on worker threads: a bounded semaphore is
    acquired by the accept thread and released by the worker it spawns. */
module BoundedServer {
  import opened PyText

  datatype AcceptPc = Listening | Acquired | Counted

  datatype WorkerPc = Serving | Uncounted

  /** `leaked` counts permits whose worker thread failed to start. */
  datatype State = State(free: nat, busy: int, accept: AcceptPc, workers: seq<WorkerPc>,
                         rejected: nat, leaked: nat)

  datatype Action =
    | Accept              // non-blocking acquire, or an immediate 503
    | CountBusy
    | Spawn
    | SpawnFails
    | UncountBusy(w: nat) // the worker's finally block
    | Release(w: nat)

  function Init(max: nat): State {
    State(max, 0, Listening, [], 0, 0)
  }

  /** `BoundedSemaphore.release` raises above the initial value. */
  function Step(st: State, a: Action, max: nat): Option<State> {
    match a
    case Accept =>
      if st.accept != Listening then Some(st)
      else if st.free == 0 then Some(st.(rejected := st.rejected + 1))
      else Some(st.(free := st.free - 1, accept := Acquired))
    case CountBusy => Some(if st.accept == Acquired then st.(busy := st.busy + 1, accept := Counted) else st)
    case Spawn =>
      Some(if st.accept == Counted then st.(accept := Listening, workers := st.workers + [Serving]) else st)
    case SpawnFails =>
      Some(if st.accept == Counted then st.(accept := Listening, leaked := st.leaked + 1) else st)
    case UncountBusy(w) =>
      Some(if w < |st.workers| && st.workers[w] == Serving
           then st.(busy := st.busy - 1, workers := st.workers[w := Uncounted]) else st)
    case Release(w) =>
      if w < |st.workers| && st.workers[w] == Uncounted then
        if st.free >= max then None
        else Some(st.(free := st.free + 1, workers := st.workers[..w] + st.workers[w + 1..]))
      else Some(st)
  }

  function RunFrom(st: State, acts: seq<Action>, max: nat): Option<State> {
    if acts == [] then Some(st)
    else
      var before := RunFrom(st, acts[..|acts| - 1], max);
      if before.None? then None else Step(before.value, acts[|acts| - 1], max)
  }

  function Run(acts: seq<Action>, max: nat): Option<State> {
    RunFrom(Init(max), acts, max)
  }

  lemma RunTwo(st: State, a: Action, b: Action, max: nat)
    ensures RunFrom(st, [a, b], max)
         == (var one := Step(st, a, max); if one.None? then None else Step(one.value, b, max))
  {
    hide Step;
    assert [a, b][..1] == [a] && [a][..0] == [];
    assert RunFrom(st, [a], max) == Step(st, a, max);
  }

  lemma RunThree(st: State, a: Action, b: Action, c: Action, max: nat)
    ensures RunFrom(st, [a, b, c], max)
         == (var two := RunFrom(st, [a, b], max); if two.None? then None else Step(two.value, c, max))
    ensures RunFrom(st, [a, b], max)
         == (var one := Step(st, a, max); if one.None? then None else Step(one.value, b, max))
  {
    RunTwo(st, a, b, max);
    assert [a, b, c][..2] == [a, b];
    hide Step;
  }

  function ServingCount(ws: seq<WorkerPc>): nat {
    if ws == [] then 0 else ServingCount(ws[..|ws| - 1]) + (if ws[|ws| - 1] == Serving then 1 else 0)
  }

  function Held(st: State): nat {
    |st.workers| + if st.accept == Listening then 0 else 1
  }

  ghost predicate Inv(st: State, max: nat) {
    && st.free + Held(st) + st.leaked == max
    && st.busy == ServingCount(st.workers) + (if st.accept == Counted then 1 else 0) + st.leaked
  }

  lemma {:induction false} ServingConcat(a: seq<WorkerPc>, b: seq<WorkerPc>)
    ensures ServingCount(a + b) == ServingCount(a) + ServingCount(b)
    decreases |b|
  {
    if b == [] {
      assert a + b == a;
    } else {
      ServingConcat(a, b[..|b| - 1]);
      assert (a + b)[..|a + b| - 1] == a + b[..|b| - 1];
    }
  }

  lemma ServingOne(w: WorkerPc)
    ensures ServingCount([w]) == if w == Serving then 1 else 0
  {
    assert [w][..0] == [];
  }

  lemma {:induction false} ServingBound(ws: seq<WorkerPc>)
    ensures ServingCount(ws) <= |ws|
  {
    if ws != [] { ServingBound(ws[..|ws| - 1]); }
  }

  lemma SpawnKeepsInv(st: State, max: nat)
    requires Inv(st, max)
    ensures Step(st, Spawn, max).Some? && Inv(Step(st, Spawn, max).value, max)
  {
    ServingConcat(st.workers, [Serving]);
    ServingOne(Serving);
    hide ServingCount;
  }

  lemma UncountKeepsInv(st: State, w: nat, max: nat)
    requires Inv(st, max)
    ensures Step(st, UncountBusy(w), max).Some? && Inv(Step(st, UncountBusy(w), max).value, max)
  {
    Around(st.workers, w, Uncounted);
    hide ServingCount;
  }

  lemma ReleaseKeepsInv(st: State, w: nat, max: nat)
    requires Inv(st, max)
    ensures Step(st, Release(w), max).Some? && Inv(Step(st, Release(w), max).value, max)
  {
    Around(st.workers, w, Uncounted);
    hide ServingCount;
    if w < |st.workers| {
      assert |st.workers[..w] + st.workers[w + 1..]| == |st.workers| - 1;
    }
  }

  lemma StepKeepsInv(st: State, a: Action, max: nat)
    requires Inv(st, max)
    ensures Step(st, a, max).Some? && Inv(Step(st, a, max).value, max)
  {
    match a
    case Spawn => SpawnKeepsInv(st, max);
    case UncountBusy(w) => UncountKeepsInv(st, w, max);
    case Release(w) => ReleaseKeepsInv(st, w, max);
    case _ => hide ServingCount;
  }

  /** Replacing or removing one worker changes the count by that worker. */
  lemma Around(ws: seq<WorkerPc>, w: nat, pc: WorkerPc)
    ensures w < |ws| ==>
              && ServingCount(ws) + (if pc == Serving then 1 else 0)
                   == ServingCount(ws[w := pc]) + (if ws[w] == Serving then 1 else 0)
              && ServingCount(ws) == ServingCount(ws[..w] + ws[w + 1..]) + (if ws[w] == Serving then 1 else 0)
  {
    if w < |ws| {
      assert ws == ws[..w] + ([ws[w]] + ws[w + 1..]) && ws[w := pc] == ws[..w] + ([pc] + ws[w + 1..]);
      ServingConcat(ws[..w], [ws[w]] + ws[w + 1..]);
      ServingConcat([ws[w]], ws[w + 1..]);
      ServingConcat(ws[..w], [pc] + ws[w + 1..]);
      ServingConcat([pc], ws[w + 1..]);
      ServingConcat(ws[..w], ws[w + 1..]);
      ServingOne(ws[w]);
      ServingOne(pc);
    }
  }

  /** In every run the semaphore is never over-released; free, held and leaked
      permits add up to the maximum; and the busy count is never negative and
      never above the permits that are not free. */
  lemma {:induction false} PermitsAreConserved(acts: seq<Action>, max: nat)
    ensures Run(acts, max).Some?
    ensures var st := Run(acts, max).value;
            Inv(st, max) && 0 <= st.busy <= Held(st) + st.leaked
  {
    if acts != [] {
      PermitsAreConserved(acts[..|acts| - 1], max);
      StepKeepsInv(Run(acts[..|acts| - 1], max).value, acts[|acts| - 1], max);
    }
    ServingBound(Run(acts, max).value.workers);
  }

  /** A quiescent server has all its permits back and reports nothing busy
      exactly when every worker thread that was asked for did start. */
  lemma QuiescentIsCleanIff(acts: seq<Action>, max: nat)
    requires Run(acts, max).Some? && Run(acts, max).value.workers == [] && Run(acts, max).value.accept == Listening
    ensures var st := Run(acts, max).value;
            (st.free == max && st.busy == 0) <==> st.leaked == 0
  {
    PermitsAreConserved(acts, max);
  }

  /** A connection is turned away only when every permit is held or leaked. */
  lemma RejectsOnlyWhenFull(acts: seq<Action>, max: nat)
    requires Run(acts, max).Some? && Run(acts, max).value.accept == Listening
    ensures var st := Run(acts, max).value;
            Step(st, Accept, max).value.rejected > st.rejected <==> |st.workers| + st.leaked == max
  {
    PermitsAreConserved(acts, max);
  }

  /** What one connection does to a sound server, step by step to the end of the
      accept thread's part: a 503, a serving worker, or a leaked permit. */
  lemma ConnectionOutcome(st: State, max: nat, starts: bool)
    requires Inv(st, max) && st.accept == Listening
    ensures RunFrom(st, [Accept, CountBusy, if starts then Spawn else SpawnFails], max)
         == Some(if |st.workers| + st.leaked == max then st.(rejected := st.rejected + 1)
                 else if starts then st.(free := st.free - 1, busy := st.busy + 1, workers := st.workers + [Serving])
                 else st.(free := st.free - 1, busy := st.busy + 1, leaked := st.leaked + 1))
  {
    RunThree(st, Accept, CountBusy, if starts then Spawn else SpawnFails, max);
    hide RunFrom, ServingCount;
  }

  /** Releasing raises exactly when no permit is out, which no sound state allows. */
  lemma ReleaseRaisesIff(st: State, w: nat, max: nat)
    requires w < |st.workers| && st.workers[w] == Uncounted
    ensures Step(st, Release(w), max).None? <==> st.free >= max
    ensures Inv(st, max) ==> st.free < max
  {
    hide ServingCount;
  }

  /** What the finally block of a serving worker does to a sound state. */
  lemma LastSteps(st: State, w: nat, max: nat) returns (end: State)
    requires Inv(st, max) && w < |st.workers| && st.workers[w] == Serving
    ensures Inv(end, max) && st.free < max
    ensures Some(end) == RunFrom(st, [UncountBusy(w), Release(w)], max)
    ensures end == st.(free := st.free + 1, busy := st.busy - 1, workers := st.workers[..w] + st.workers[w + 1..])
  {
    StepKeepsInv(st, UncountBusy(w), max);
    var mid := Step(st, UncountBusy(w), max).value;
    StepKeepsInv(mid, Release(w), max);
    RunTwo(st, UncountBusy(w), Release(w), max);
    hide RunFrom, ServingCount, Inv;
    assert mid.workers[w] == Uncounted;
    end := Step(mid, Release(w), max).value;
    assert mid.workers[..w] == st.workers[..w] && mid.workers[w + 1..] == st.workers[w + 1..];
  }

  /** The semaphore, the counter and, as ghost fields, where the accept thread
      and the workers stand. */
  class Server {
    const maxWorkers: nat
    var free: nat
    var busy: int
    ghost var accept: AcceptPc
    ghost var workers: seq<WorkerPc>
    ghost var rejected: nat
    ghost var leaked: nat

    ghost function Abs(): State
      reads this
    {
      State(free, busy, accept, workers, rejected, leaked)
    }

    ghost predicate Valid()
      reads this
    {
      Inv(Abs(), maxWorkers)
    }

    constructor (maxWorkers: int)
      ensures this.maxWorkers == (if maxWorkers > 1 then maxWorkers else 1)
      ensures Valid() && Abs() == Init(this.maxWorkers)
    {
      this.maxWorkers := if maxWorkers > 1 then maxWorkers else 1;
      free := if maxWorkers > 1 then maxWorkers else 1;
      busy := 0;
      accept, workers, rejected, leaked := Listening, [], 0, 0;
    }

    /** The accept thread's whole part of one request.  A connection is turned
        away exactly when every permit is with a worker or leaked; a thread that
        does not start takes its permit with it. */
    method ProcessRequest(threadStarts: bool) returns (accepted: bool)
      requires Valid() && accept == Listening
      modifies this
      ensures Valid() && accept == Listening
      ensures accepted <==> |old(workers)| + old(leaked) < maxWorkers
      ensures Some(Abs()) == RunFrom(old(Abs()), [Accept, CountBusy, if threadStarts then Spawn else SpawnFails], maxWorkers)
      ensures workers == if accepted && threadStarts then old(workers) + [Serving] else old(workers)
    {
      ghost var st := Abs();
      ServingConcat(workers, [Serving]);
      ServingOne(Serving);
      RunThree(st, Accept, CountBusy, if threadStarts then Spawn else SpawnFails, maxWorkers);
      hide RunFrom, ServingCount;
      if free == 0 {
        rejected := rejected + 1;
        return false;
      }
      free := free - 1;
      busy := busy + 1;
      if threadStarts {
        workers := workers + [Serving];
      } else {
        leaked := leaked + 1;
      }
      return true;
    }

    /** A worker's finally block.  Releasing above the maximum would raise, but
        no worker of a valid server can do that. */
    method FinishRequest(ghost w: nat) returns (raised: bool)
      requires Valid() && w < |workers| && workers[w] == Serving
      modifies this
      ensures Valid() && !raised
      ensures Some(Abs()) == RunFrom(old(Abs()), [UncountBusy(w), Release(w)], maxWorkers)
      ensures workers == old(workers)[..w] + old(workers)[w + 1..]
    {
      ghost var end := LastSteps(Abs(), w, maxWorkers);
      hide RunFrom, ServingCount, Inv;
      busy := busy - 1;
      if free >= maxWorkers {
        return true;
      }
      free := free + 1;
      workers := workers[..w] + workers[w + 1..];
      assert Abs() == end;
      return false;
    }
  }
}
