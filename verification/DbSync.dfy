/** The throttled database mirror: callers that request an upload, and one
    worker that flushes the pending request when the throttle window is over.
    Times are whole clock units; the interval is positive. */
module DbSync {
  import opened Arithmetic
  import opened PyText

  // ----- the decisions taken under the lock -----

  datatype Throttle = Throttle(pending: bool, lastUpload: int)

  datatype Verdict = Idle | Wait | Upload

  predicate Granted(t: Throttle, interval: nat, now: int, force: bool) {
    force || now - t.lastUpload >= interval
  }

  function AfterRequest(t: Throttle, interval: nat, now: int, force: bool): Throttle {
    if Granted(t, interval, now, force) then Throttle(false, now) else t.(pending := true)
  }

  function WorkerVerdict(t: Throttle, interval: nat, now: int): Verdict {
    if !t.pending then Idle
    else if t.lastUpload + interval - now <= 0 then Upload
    else Wait
  }

  class Mirror {
    const interval: nat
    var pending: bool
    var lastUpload: int
    var wakeup: bool
    var workerAlive: bool

    ghost function Abs(): Throttle
      reads this
    {
      Throttle(pending, lastUpload)
    }

    constructor (interval: nat)
      ensures this.interval == interval && Abs() == Throttle(false, 0) && !wakeup && !workerAlive
    {
      this.interval := interval;
      pending, lastUpload, wakeup, workerAlive := false, 0, false, false;
    }

    /** The lock section of a request; the caller uploads iff it was granted. */
    method RequestLocked(now: int, force: bool) returns (granted: bool)
      modifies this
      ensures Abs() == AfterRequest(old(Abs()), interval, now, force)
      ensures granted == Granted(old(Abs()), interval, now, force)
      ensures if granted then wakeup == old(wakeup) && workerAlive == old(workerAlive)
              else wakeup && workerAlive
    {
      if !force && now - lastUpload < interval {
        pending := true;
        wakeup := true;
        workerAlive := true;
        return false;
      }
      pending := false;
      lastUpload := now;
      return true;
    }

    /** The worker's lock section. */
    method CheckLocked(now: int) returns (v: Verdict)
      modifies this`pending, this`lastUpload
      ensures v == WorkerVerdict(old(Abs()), interval, now)
      ensures Abs() == if v == Upload then Throttle(false, now) else old(Abs())
    {
      if !pending {
        return Idle;
      }
      var wait := lastUpload + interval - now;
      if wait <= 0 {
        pending := false;
        lastUpload := now;
        return Upload;
      }
      return Wait;
    }
  }

  // ----- callers and worker, interleaved -----

  /** Where a call of `sync_db_to_dataset` stands.  A throttled caller keeps the
      lock while it sets the flag, the event, and starts the worker. */
  datatype Phase = Called(now: int, force: bool) | Marked | Signalled | Uploading | Returned

  /** `version` is that of the database file when the call was made, `after` the
      number of uploads that had read the file by then. */
  datatype Caller = Caller(version: nat, after: nat, phase: Phase)

  datatype Worker = NotStarted | Blocked | Woken | Checking | Sleeping | Flushing

  datatype State = State(
    fileVersion: nat,
    throttle: Throttle,
    wakeup: bool,
    lock: Option<nat>,       // the caller that holds the lock
    worker: Worker,
    callers: seq<Caller>,
    uploads: seq<nat>,       // file versions read by granted uploads
    grants: seq<int>)        // timestamps recorded by granted uploads

  datatype Action =
    | WriteFile
    | Call(now: int, force: bool)
    | Decide(c: nat)
    | SetWakeup(c: nat)
    | EnsureWorker(c: nat)
    | ReadFile(c: nat)
    | WorkerWakes(timeout: bool)
    | WorkerClears
    | WorkerChecks(now: int)
    | WorkerSlept
    | WorkerReads

  const INIT := State(0, Throttle(false, 0), false, None, NotStarted, [], [], [])

  predicate At(st: State, c: nat, phase: Phase) {
    c < |st.callers| && st.callers[c].phase == phase
  }

  function Move(st: State, c: nat, phase: Phase): State
    requires c < |st.callers|
  {
    st.(callers := st.callers[c := st.callers[c].(phase := phase)])
  }

  function Step(st: State, a: Action, interval: nat): State {
    match a
    case WriteFile => st.(fileVersion := st.fileVersion + 1)
    case Call(now, force) => st.(callers := st.callers + [Caller(st.fileVersion, |st.uploads|, Called(now, force))])
    case Decide(c) =>
      if c < |st.callers| && st.callers[c].phase.Called? && st.lock.None? then
        var call := st.callers[c].phase;
        var st1 := st.(throttle := AfterRequest(st.throttle, interval, call.now, call.force));
        if Granted(st.throttle, interval, call.now, call.force)
        then Move(st1, c, Uploading).(grants := st.grants + [call.now])
        else Move(st1, c, Marked).(lock := Some(c))
      else st
    case SetWakeup(c) =>
      if At(st, c, Marked) then Move(st, c, Signalled).(wakeup := true) else st
    case EnsureWorker(c) =>
      if At(st, c, Signalled)
      then Move(st, c, Returned).(lock := None, worker := if st.worker.NotStarted? then Blocked else st.worker)
      else st
    case ReadFile(c) =>
      if At(st, c, Uploading) then Move(st, c, Returned).(uploads := st.uploads + [st.fileVersion]) else st
    case WorkerWakes(timeout) =>
      if st.worker.Blocked? && (st.wakeup || timeout) then st.(worker := Woken) else st
    case WorkerClears =>
      if st.worker.Woken? then st.(wakeup := false, worker := Checking) else st
    case WorkerChecks(now) =>
      if st.worker.Checking? && st.lock.None? then
        match WorkerVerdict(st.throttle, interval, now)
        case Idle => st.(worker := Blocked)
        case Wait => st.(worker := Sleeping)
        case Upload => st.(throttle := Throttle(false, now), worker := Flushing, grants := st.grants + [now])
      else st
    case WorkerSlept => if st.worker.Sleeping? then st.(worker := Checking) else st
    case WorkerReads =>
      if st.worker.Flushing? then st.(worker := Checking, uploads := st.uploads + [st.fileVersion]) else st
  }

  function RunFrom(st: State, acts: seq<Action>, interval: nat): State {
    if acts == [] then st
    else Step(RunFrom(st, acts[..|acts| - 1], interval), acts[|acts| - 1], interval)
  }

  // ----- no request is lost -----

  /** Some granted upload has yet to read the file. */
  ghost predicate InFlight(st: State) {
    st.worker.Flushing? || exists c :: At(st, c, Uploading)
  }

  /** A granted upload read the file after the call. */
  ghost predicate Served(st: State, caller: Caller) {
    exists k :: caller.after <= k < |st.uploads| && st.uploads[k] >= caller.version
  }

  predicate WillRecheck(w: Worker) {
    w.Woken? || w.Checking? || w.Sleeping? || w.Flushing?
  }

  ghost predicate HolderAt(st: State, phase: Phase) {
    st.lock.Some? && At(st, st.lock.value, phase)
  }

  /** A pending request reaches the worker: the event is set, or the worker
      looks at the flag again before it blocks, or the marking caller is about
      to set the event; and the worker exists or is about to be started. */
  ghost predicate Noticed(st: State) {
    && (st.wakeup || WillRecheck(st.worker) || HolderAt(st, Marked))
    && (!st.worker.NotStarted? || HolderAt(st, Marked) || HolderAt(st, Signalled))
  }

  ghost predicate Covered(st: State, c: nat)
    requires c < |st.callers|
  {
    st.callers[c].phase.Called? || st.throttle.pending || InFlight(st) || Served(st, st.callers[c])
  }

  ghost predicate LockOk(st: State, c: nat)
    requires c < |st.callers|
  {
    && st.callers[c].version <= st.fileVersion && st.callers[c].after <= |st.uploads|
    && (st.callers[c].phase.Marked? || st.callers[c].phase.Signalled? <==> st.lock == Some(c))
  }

  ghost predicate Inv(st: State) {
    && (st.lock.Some? ==> st.lock.value < |st.callers|)
    && (forall c :: 0 <= c < |st.callers| ==> LockOk(st, c))
    && (forall c :: 0 <= c < |st.callers| ==> Covered(st, c))
    && (st.throttle.pending ==> Noticed(st))
  }

  lemma LockStep(st: State, a: Action, interval: nat)
    requires Inv(st)
    ensures var now := Step(st, a, interval);
            && (now.lock.Some? ==> now.lock.value < |now.callers|)
            && forall c :: 0 <= c < |now.callers| ==> LockOk(now, c)
  {
    hide Covered, Noticed;
    var now := Step(st, a, interval);
    if st.lock.Some? { assert LockOk(st, st.lock.value); }
    if a.EnsureWorker? && At(st, a.c, Signalled) { assert LockOk(st, a.c); }
    if a.SetWakeup? && At(st, a.c, Marked) { assert LockOk(st, a.c); }
    forall c | 0 <= c < |now.callers| ensures LockOk(now, c) {
      if c < |st.callers| { assert LockOk(st, c); }
    }
  }

  lemma NoticedStep(st: State, a: Action, interval: nat)
    requires Inv(st)
    ensures var now := Step(st, a, interval); now.throttle.pending ==> Noticed(now)
  {
    hide Covered;
    if st.lock.Some? { assert LockOk(st, st.lock.value); }
    if a.SetWakeup? && At(st, a.c, Marked) { assert LockOk(st, a.c); }
    if a.EnsureWorker? && At(st, a.c, Signalled) { assert LockOk(st, a.c); }
  }

  lemma ServedByRead(st: State, now: State, c: nat)
    requires c < |st.callers| && LockOk(st, c)
    requires c < |now.callers| && now.callers[c].version == st.callers[c].version
    requires now.callers[c].after == st.callers[c].after && now.uploads == st.uploads + [st.fileVersion]
    ensures Covered(now, c)
  {
    assert now.uploads[|st.uploads|] >= now.callers[c].version;
  }

  /** A step other than a decision or a read keeps what is in flight. */
  lemma InFlightStays(st: State, a: Action, interval: nat)
    requires !a.ReadFile? && !a.WorkerReads? && InFlight(st)
    ensures InFlight(Step(st, a, interval))
  {
    var now := Step(st, a, interval);
    if !st.worker.Flushing? {
      var u :| At(st, u, Uploading);
      assert At(now, u, Uploading);
    }
  }

  lemma CoveredStep(st: State, a: Action, interval: nat, c: nat)
    requires Inv(st) && c < |Step(st, a, interval).callers|
    ensures Covered(Step(st, a, interval), c)
  {
    var now := Step(st, a, interval);
    LockStep(st, a, interval);
    if c < |st.callers| && now != st {
      assert Covered(st, c) && LockOk(st, c) && LockOk(now, c);
      if a.ReadFile? || a.WorkerReads? {
        ServedByRead(st, now, c);
      } else {
        if InFlight(st) { InFlightStays(st, a, interval); }
        CoveredFrame(st, a, interval, c);
      }
    }
  }

  lemma CoveredFrame(st: State, a: Action, interval: nat, c: nat)
    requires c < |st.callers| && Covered(st, c) && !a.ReadFile? && !a.WorkerReads?
    requires InFlight(st) ==> InFlight(Step(st, a, interval))
    ensures c < |Step(st, a, interval).callers| && Covered(Step(st, a, interval), c)
  {
    var now := Step(st, a, interval);
    hide InFlight, LockOk;
    assert now.uploads == st.uploads;
    if a.Decide? && now != st { DecisionCovers(st, a.c, interval); }
    if a.WorkerChecks? && now.worker.Flushing? { FlushCovers(now); }
  }

  lemma DecisionCovers(st: State, d: nat, interval: nat)
    requires Step(st, Decide(d), interval) != st
    ensures var now := Step(st, Decide(d), interval); now.throttle.pending || InFlight(now)
  {
    var now := Step(st, Decide(d), interval);
    assert now.throttle.pending || At(now, d, Uploading);
  }

  lemma FlushCovers(st: State)
    requires st.worker.Flushing?
    ensures InFlight(st)
  {
  }

  /** In every run, each request that was decided has been followed by a granted
      upload that read the file after it, or will be by one that is in flight,
      or it is pending and the worker is bound to notice. */
  lemma {:induction false} NoRequestIsLost(acts: seq<Action>, interval: nat)
    ensures Inv(RunFrom(INIT, acts, interval))
  {
    if acts != [] {
      NoRequestIsLost(acts[..|acts| - 1], interval);
      var st, a := RunFrom(INIT, acts[..|acts| - 1], interval), acts[|acts| - 1];
      LockStep(st, a, interval);
      NoticedStep(st, a, interval);
      forall c | 0 <= c < |Step(st, a, interval).callers| ensures Covered(Step(st, a, interval), c) {
        CoveredStep(st, a, interval, c);
      }
    }
  }

  /** The worker's own steps that flush a pending request. */
  function FlushSchedule(w: Worker, now: int): seq<Action> {
    var flush := [WorkerChecks(now), WorkerReads];
    match w
    case NotStarted => []
    case Blocked => [WorkerWakes(false)] + ([WorkerClears] + flush)
    case Woken => [WorkerClears] + flush
    case Checking => flush
    case Sleeping => [WorkerSlept] + flush
    case Flushing => [WorkerReads] + flush
  }

  lemma {:induction false} RunConcat(st: State, a: Action, more: seq<Action>, interval: nat)
    ensures RunFrom(st, [a] + more, interval) == RunFrom(Step(st, a, interval), more, interval)
    decreases |more|
  {
    hide Step;
    if more == [] {
      assert [a] + more == [a] && [a][..0] == [];
    } else {
      RunConcat(st, a, more[..|more| - 1], interval);
      assert ([a] + more)[..|more|] == [a] + more[..|more| - 1];
    }
  }

  /** The worker is never stuck: once no caller holds the lock and the window
      has passed, at most four of its own steps flush the pending request. */
  lemma PendingGetsFlushed(st: State, now: int, interval: nat)
    requires Inv(st) && st.throttle.pending && st.lock.None?
    requires now >= st.throttle.lastUpload + interval
    ensures var end := RunFrom(st, FlushSchedule(st.worker, now), interval);
            && !end.throttle.pending && end.grants == st.grants + [now]
            && |FlushSchedule(st.worker, now)| <= 4
            && |end.uploads| > |st.uploads| && end.uploads[|end.uploads| - 1] == st.fileVersion
  {
    var flush := [WorkerChecks(now), WorkerReads];
    match st.worker
    case Blocked =>
      var st1 := Step(st, WorkerWakes(false), interval);
      RunConcat(st, WorkerWakes(false), [WorkerClears] + flush, interval);
      RunConcat(st1, WorkerClears, flush, interval);
      CheckAndRead(Step(st1, WorkerClears, interval), now, interval);
    case Woken =>
      RunConcat(st, WorkerClears, flush, interval);
      CheckAndRead(Step(st, WorkerClears, interval), now, interval);
    case Checking =>
      CheckAndRead(st, now, interval);
    case Sleeping =>
      RunConcat(st, WorkerSlept, flush, interval);
      CheckAndRead(Step(st, WorkerSlept, interval), now, interval);
    case Flushing =>
      RunConcat(st, WorkerReads, flush, interval);
      CheckAndRead(Step(st, WorkerReads, interval), now, interval);
  }

  lemma CheckAndRead(st: State, now: int, interval: nat)
    requires st.worker.Checking? && st.throttle.pending && st.lock.None?
    requires now >= st.throttle.lastUpload + interval
    ensures var end := RunFrom(st, [WorkerChecks(now), WorkerReads], interval);
            && !end.throttle.pending && end.grants == st.grants + [now]
            && end.uploads == st.uploads + [st.fileVersion]
  {
    var acts := [WorkerChecks(now), WorkerReads];
    assert acts[..1] == [WorkerChecks(now)] && acts[..1][..0] == [];
    assert RunFrom(st, acts[..1], interval) == Step(st, WorkerChecks(now), interval);
  }

  // ----- which requests upload at once -----

  /** At any point of any run, the decision on a request lets it upload exactly
      when it is forced or the last recorded upload is an interval ago; any
      other one becomes pending and changes no timestamp. */
  lemma DecisionIff(st: State, c: nat, now: int, force: bool, interval: nat)
    requires At(st, c, Called(now, force)) && st.lock.None?
    ensures var end := Step(st, Decide(c), interval);
            && (At(end, c, Uploading) <==> force || now - st.throttle.lastUpload >= interval)
            && (At(end, c, Uploading) ==>
                  end.grants == st.grants + [now] && end.throttle == Throttle(false, now) && end.lock.None?)
            && (!At(end, c, Uploading) ==>
                  At(end, c, Marked) && end.lock == Some(c) && end.grants == st.grants
                  && end.throttle == Throttle(true, st.throttle.lastUpload))
  {
  }

  /** A request that no other thread interrupts ends with the file as it is now
      uploaded, or pending with the worker alive and woken; the lock is free. */
  lemma RequestOutcome(st: State, now: int, force: bool, interval: nat)
    requires st.lock.None?
    ensures var c := |st.callers|;
            var decided := Step(Step(st, Call(now, force), interval), Decide(c), interval);
            if force || now - st.throttle.lastUpload >= interval then
              var end := Step(decided, ReadFile(c), interval);
              && end.uploads == st.uploads + [st.fileVersion] && end.grants == st.grants + [now]
              && !end.throttle.pending && end.lock.None? && At(end, c, Returned)
            else
              var end := Step(Step(decided, SetWakeup(c), interval), EnsureWorker(c), interval);
              && end.uploads == st.uploads && end.grants == st.grants
              && end.throttle.pending && end.throttle.lastUpload == st.throttle.lastUpload
              && end.wakeup && !end.worker.NotStarted? && end.lock.None? && At(end, c, Returned)
  {
    var c := |st.callers|;
    var called := Step(st, Call(now, force), interval);
    assert At(called, c, Called(now, force));
    DecisionIff(called, c, now, force, interval);
  }

  /** Whoever holds the lock releases it with at most two steps of its own. */
  lemma LockIsReleased(st: State, interval: nat)
    requires Inv(st) && st.lock.Some?
    ensures var c := st.lock.value;
            var st1 := Step(st, SetWakeup(c), interval);
            && Step(st1, EnsureWorker(c), interval).lock.None?
            && Step(st1, EnsureWorker(c), interval).throttle == st.throttle
  {
    assert LockOk(st, st.lock.value);
  }

  /** What the worker does with what it finds under the lock. */
  lemma CheckOutcome(st: State, now: int, interval: nat)
    requires st.worker.Checking? && st.lock.None?
    ensures var end := Step(st, WorkerChecks(now), interval);
            && (end.worker.Blocked? <==> !st.throttle.pending)
            && (end.worker.Flushing? <==> st.throttle.pending && now - st.throttle.lastUpload >= interval)
            && (end.worker.Sleeping? <==> st.throttle.pending && now - st.throttle.lastUpload < interval)
            && end.grants == st.grants + (if end.worker.Flushing? then [now] else [])
            && end.throttle == if end.worker.Flushing? then Throttle(false, now) else st.throttle
  {
    assert st.grants + [] == st.grants;
  }

  /** While a caller holds the lock, only that caller's own steps change the
      throttle or record an upload. */
  lemma LockExcludes(st: State, a: Action, interval: nat)
    requires st.lock.Some? && Inv(st)
    ensures Step(st, a, interval).throttle == st.throttle && Step(st, a, interval).grants == st.grants
    ensures a != EnsureWorker(st.lock.value) ==> Step(st, a, interval).lock == st.lock
  {
    assert LockOk(st, st.lock.value);
    if a.EnsureWorker? && At(st, a.c, Signalled) { assert LockOk(st, a.c); }
  }

  /** With nothing pending, a woken worker clears the event and blocks; until the
      next request or timeout it does not run again. */
  lemma IdleWorkerRests(st: State, now: int, interval: nat)
    requires st.worker.Woken? && !st.throttle.pending && st.lock.None?
    ensures var end := Step(Step(st, WorkerClears, interval), WorkerChecks(now), interval);
            && end == st.(worker := Blocked, wakeup := false)
            && Step(end, WorkerWakes(false), interval) == end
  {
  }

  // ----- one upload for each grant -----

  function UploadingCount(callers: seq<Caller>): nat {
    if callers == [] then 0
    else UploadingCount(callers[..|callers| - 1]) + (if callers[|callers| - 1].phase.Uploading? then 1 else 0)
  }

  lemma {:induction false} OneCallerMoves(callers: seq<Caller>, c: nat, now: Caller)
    requires c < |callers|
    ensures UploadingCount(callers[c := now]) + (if callers[c].phase.Uploading? then 1 else 0)
         == UploadingCount(callers) + (if now.phase.Uploading? then 1 else 0)
  {
    var n := |callers| - 1;
    if c == n {
      assert callers[c := now][..n] == callers[..n];
    } else {
      OneCallerMoves(callers[..n], c, now);
      assert callers[c := now][..n] == callers[..n][c := now];
    }
  }

  lemma OneMoreCaller(callers: seq<Caller>, now: Caller)
    ensures UploadingCount(callers + [now]) == UploadingCount(callers) + (if now.phase.Uploading? then 1 else 0)
  {
    assert (callers + [now])[..|callers|] == callers;
  }

  /** Every recorded timestamp belongs to one upload that has read the file or is
      about to, and no upload has read a version that was not written yet, nor
      an older one than an upload before it. */
  ghost predicate OneUploadEach(st: State) {
    && |st.grants| == |st.uploads| + UploadingCount(st.callers) + (if st.worker.Flushing? then 1 else 0)
    && (forall k :: 0 <= k < |st.uploads| ==> st.uploads[k] <= st.fileVersion)
    && forall k :: 0 < k < |st.uploads| ==> st.uploads[k - 1] <= st.uploads[k]
  }

  lemma UploadStep(st: State, a: Action, interval: nat)
    requires OneUploadEach(st)
    ensures OneUploadEach(Step(st, a, interval))
    ensures a.WriteFile? ==> Step(st, a, interval).fileVersion > st.fileVersion
  {
    if a.Decide? || a.SetWakeup? || a.EnsureWorker? || a.ReadFile? {
      CallerUploadStep(st, a, a.c, interval);
    } else {
      OtherUploadStep(st, a, interval);
    }
  }

  lemma CallerUploadStep(st: State, a: Action, c: nat, interval: nat)
    requires OneUploadEach(st)
    requires a == Decide(c) || a == SetWakeup(c) || a == EnsureWorker(c) || a == ReadFile(c)
    ensures OneUploadEach(Step(st, a, interval))
  {
    CallerMoves(st, a, c, interval);
    CallerFrame(st, a, c, interval);
    hide UploadingCount, Step;
  }

  lemma CallerFrame(st: State, a: Action, c: nat, interval: nat)
    requires a == Decide(c) || a == SetWakeup(c) || a == EnsureWorker(c) || a == ReadFile(c)
    ensures var now := Step(st, a, interval);
            && now.fileVersion == st.fileVersion && (now.worker.Flushing? <==> st.worker.Flushing?)
            && (c >= |st.callers| ==> now == st)
            && (c < |st.callers| && st.callers[c].phase.Uploading? && now != st ==>
                  c < |now.callers| && !now.callers[c].phase.Uploading?
                  && now.grants == st.grants && now.uploads == st.uploads + [st.fileVersion])
            && (c < |st.callers| && !st.callers[c].phase.Uploading? ==>
                  && c < |now.callers| && now.uploads == st.uploads
                  && |now.grants| == |st.grants| + if now.callers[c].phase.Uploading? then 1 else 0)
  {
  }

  lemma OtherUploadStep(st: State, a: Action, interval: nat)
    requires OneUploadEach(st)
    requires !(a.Decide? || a.SetWakeup? || a.EnsureWorker? || a.ReadFile?)
    ensures OneUploadEach(Step(st, a, interval))
    ensures a.WriteFile? ==> Step(st, a, interval).fileVersion > st.fileVersion
  {
    OtherFrame(st, a, interval);
    hide UploadingCount, Step;
  }

  lemma OtherFrame(st: State, a: Action, interval: nat)
    requires !(a.Decide? || a.SetWakeup? || a.EnsureWorker? || a.ReadFile?)
    ensures var now := Step(st, a, interval);
            && (if a.WriteFile? then now.fileVersion > st.fileVersion else now.fileVersion == st.fileVersion)
            && (now.uploads == st.uploads || now.uploads == st.uploads + [st.fileVersion])
            && UploadingCount(now.callers) == UploadingCount(st.callers)
            && |now.grants| + |st.uploads| + (if st.worker.Flushing? then 1 else 0)
                 == |st.grants| + |now.uploads| + (if now.worker.Flushing? then 1 else 0)
  {
    if a.Call? { OneMoreCaller(st.callers, Caller(st.fileVersion, |st.uploads|, Called(a.now, a.force))); }
    hide UploadingCount;
  }

  lemma CallerMoves(st: State, a: Action, c: nat, interval: nat)
    requires a == Decide(c) || a == SetWakeup(c) || a == EnsureWorker(c) || a == ReadFile(c)
    ensures var now := Step(st, a, interval);
            c < |st.callers| ==>
              && c < |now.callers|
              && UploadingCount(now.callers) + (if st.callers[c].phase.Uploading? then 1 else 0)
                   == UploadingCount(st.callers) + (if now.callers[c].phase.Uploading? then 1 else 0)
  {
    hide UploadingCount;
    var now := Step(st, a, interval);
    if c < |st.callers| && now != st {
      OneCallerMoves(st.callers, c, now.callers[c]);
      assert now.callers == st.callers[c := now.callers[c]];
    }
  }

  lemma {:induction false} EveryGrantUploadsOnce(acts: seq<Action>, interval: nat)
    ensures OneUploadEach(RunFrom(INIT, acts, interval))
  {
    hide Step, OneUploadEach;
    if acts != [] {
      EveryGrantUploadsOnce(acts[..|acts| - 1], interval);
      UploadStep(RunFrom(INIT, acts[..|acts| - 1], interval), acts[|acts| - 1], interval);
    } else {
      NothingUploaded();
    }
  }

  lemma NothingUploaded()
    ensures OneUploadEach(INIT)
  {
  }

  // ----- the rate bound -----

  ghost predicate Spaced(ts: seq<int>, interval: nat) {
    forall k :: 0 < k < |ts| ==> ts[k] - ts[k - 1] >= interval
  }

  ghost predicate Unforced(acts: seq<Action>) {
    forall a :: a in acts && a.Call? ==> !a.force
  }

  ghost predicate SpacedSoFar(st: State, interval: nat) {
    && Spaced(st.grants, interval)
    && (st.grants != [] ==> st.throttle.lastUpload == st.grants[|st.grants| - 1])
    && forall c :: 0 <= c < |st.callers| && st.callers[c].phase.Called? ==> !st.callers[c].phase.force
  }

  lemma SpacedStep(st: State, a: Action, interval: nat)
    requires SpacedSoFar(st, interval) && (a.Call? ==> !a.force)
    ensures SpacedSoFar(Step(st, a, interval), interval)
  {
    var now := Step(st, a, interval);
    if |now.grants| > |st.grants| {
      NewGrant(st, a, interval);
    } else {
      assert now.grants == st.grants && now.throttle.lastUpload == st.throttle.lastUpload;
    }
  }

  lemma NewGrant(st: State, a: Action, interval: nat)
    requires SpacedSoFar(st, interval) && |Step(st, a, interval).grants| > |st.grants|
    ensures var now := Step(st, a, interval);
            && now.grants == st.grants + [now.throttle.lastUpload]
            && now.throttle.lastUpload - st.throttle.lastUpload >= interval
  {
    hide Spaced;
  }

  lemma {:induction false} GrantsAreSpaced(acts: seq<Action>, interval: nat)
    requires Unforced(acts)
    ensures SpacedSoFar(RunFrom(INIT, acts, interval), interval)
  {
    hide SpacedSoFar;
    if acts != [] {
      var before := acts[..|acts| - 1];
      assert forall a :: a in before ==> a in acts;
      assert acts[|acts| - 1] in acts;
      GrantsAreSpaced(before, interval);
      SpacedStep(RunFrom(INIT, before, interval), acts[|acts| - 1], interval);
    } else {
      SpacedInit(interval);
    }
  }

  lemma SpacedInit(interval: nat)
    ensures SpacedSoFar(INIT, interval)
  {
  }

  /** Number of timestamps in the closed span from `lo` to `hi`. */
  function CountIn(ts: seq<int>, lo: int, hi: int): nat {
    if ts == [] then 0
    else CountIn(ts[..|ts| - 1], lo, hi) + (if lo <= ts[|ts| - 1] <= hi then 1 else 0)
  }

  lemma {:induction false} SpacedCount(ts: seq<int>, interval: nat, lo: int, hi: int)
    requires interval > 0 && Spaced(ts, interval)
    ensures CountIn(ts, lo, hi) > 0 ==> ts != [] && lo + (CountIn(ts, lo, hi) - 1) * interval <= hi
    ensures CountIn(ts, lo, hi) > 0 ==> lo + (CountIn(ts, lo, hi) - 1) * interval <= ts[|ts| - 1]
  {
    if ts != [] {
      var before, last := ts[..|ts| - 1], ts[|ts| - 1];
      SpacedCount(before, interval, lo, hi);
      var n := CountIn(before, lo, hi);
      if n > 0 {
        assert before[|before| - 1] + interval <= last;
        assert (n - 1) * interval + interval == n * interval;
      }
    }
  }

  /** Without forced requests, a span of length `length` holds the timestamps of
      at most `length / interval + 1` grants, whatever the clocks returned. */
  lemma UploadRateIsBounded(acts: seq<Action>, interval: nat, lo: int, length: nat)
    requires interval > 0 && Unforced(acts)
    ensures CountIn(RunFrom(INIT, acts, interval).grants, lo, lo + length) <= length / interval + 1
  {
    var grants := RunFrom(INIT, acts, interval).grants;
    GrantsAreSpaced(acts, interval);
    SpacedCount(grants, interval, lo, lo + length);
    hide RunFrom, CountIn, Spaced;
    var n := CountIn(grants, lo, lo + length);
    if n > 0 {
      QuotientBound(n - 1, interval, length);
    } else {
      QuotientBound(0, interval, length);
    }
  }

  lemma QuotientBound(n: nat, d: nat, m: nat)
    requires d > 0 && n * d <= m
    ensures n <= m / d
  {
    assert m < (m / d + 1) * d;
    LessByFactor(n, m / d + 1, d);
  }

  /** Forced requests are outside the bound: each is granted at once. */
  lemma {:induction false} ForcedRequestsEvadeTheThrottle(st: State, now: int, interval: nat)
    requires interval > 0 && st.lock.None?
    ensures var c := |st.callers|;
            var once := Step(Step(st, Call(now, true), interval), Decide(c), interval);
            var twice := Step(Step(once, Call(now, true), interval), Decide(c + 1), interval);
            CountIn(twice.grants, now, now) == CountIn(st.grants, now, now) + 2
  {
    ForcedIsGranted(st, now, interval);
    var c := |st.callers|;
    var once := Step(Step(st, Call(now, true), interval), Decide(c), interval);
    ForcedIsGranted(once, now, interval);
    hide Step;
    CountSnoc(st.grants, now, now);
    CountSnoc(once.grants, now, now);
  }

  lemma ForcedIsGranted(st: State, now: int, interval: nat)
    requires st.lock.None?
    ensures var end := Step(Step(st, Call(now, true), interval), Decide(|st.callers|), interval);
            end.grants == st.grants + [now] && |end.callers| == |st.callers| + 1 && end.lock.None?
  {
  }

  lemma CountSnoc(ts: seq<int>, t: int, at: int)
    ensures CountIn(ts + [t], at, at) == CountIn(ts, at, at) + (if t == at then 1 else 0)
  {
    assert (ts + [t])[..|ts|] == ts;
  }
}
