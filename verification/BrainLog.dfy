/** The rotating event log on disk with its in-memory id cache, over appends and
    process restarts, and a poller that reads events past its cursor. */
module BrainLog {
  import opened PyText

  datatype Line = Line(id: int, body: string)

  /** `live` is absent until the first append; `cache` is the process's entry of
      the id cache; `archives` are the rotated files, oldest first. */
  datatype Disk = Disk(archives: seq<seq<Line>>, live: Option<seq<Line>>, cache: Option<int>)

  function MaxId(lines: seq<Line>): int {
    if lines == [] then -1
    else
      var m, last := MaxId(lines[..|lines| - 1]), lines[|lines| - 1].id;
      if last > m then last else m
  }

  lemma {:induction false} MaxIdIsHighest(lines: seq<Line>)
    ensures forall k :: 0 <= k < |lines| ==> lines[k].id <= MaxId(lines)
    ensures MaxId(lines) == -1 || exists k :: 0 <= k < |lines| && lines[k].id == MaxId(lines)
    ensures MaxId(lines) >= -1
  {
    if lines != [] {
      var before := lines[..|lines| - 1];
      MaxIdIsHighest(before);
      assert forall k :: 0 <= k < |before| ==> before[k] == lines[k];
      if MaxId(lines) != -1 && MaxId(before) == MaxId(lines) {
        var k :| 0 <= k < |before| && before[k].id == MaxId(before);
        assert lines[k].id == MaxId(lines);
      }
    }
  }

  /** The highest id as an append finds it: cached, or by a cold scan. */
  function KnownMax(d: Disk): int {
    if d.cache.Some? && d.cache.value >= 0 then d.cache.value
    else if d.live.Some? then MaxId(d.live.value)
    else 0
  }

  function Rotate(d: Disk, max: int, cap: nat): Disk
    requires cap > 0
  {
    if max > 0 && max % cap == 0 && d.live.Some?
    then d.(archives := d.archives + [d.live.value], live := None) else d
  }

  function AppendLine(d: Disk, body: string, cap: nat): Disk
    requires cap > 0
  {
    var max := KnownMax(d);
    var r := Rotate(d, max, cap);
    var kept := if r.live.Some? then r.live.value else [];
    Disk(r.archives, Some(kept + [Line(max + 1, body)]), Some(max + 1))
  }

  function EventsAfter(lines: seq<Line>, since: int): seq<Line> {
    if lines == [] then []
    else
      EventsAfter(lines[..|lines| - 1], since)
      + (if lines[|lines| - 1].id > since then [lines[|lines| - 1]] else [])
  }

  class EventLog {
    const cap: nat
    var archives: seq<seq<Line>>
    var live: Option<seq<Line>>
    var cache: Option<int>

    ghost function Abs(): Disk
      reads this
    {
      Disk(archives, live, cache)
    }

    constructor (cap: nat)
      requires cap > 0
      ensures this.cap == cap && Abs() == Disk([], None, None)
    {
      this.cap := cap;
      archives, live, cache := [], None, None;
    }

    /** The scan of the live file on a cold cache. */
    method ScanMax(lines: seq<Line>) returns (max: int)
      ensures max == MaxId(lines)
    {
      max := -1;
      for k := 0 to |lines|
        invariant max == MaxId(lines[..k])
      {
        assert lines[..k + 1][..k] == lines[..k];
        if lines[k].id > max { max := lines[k].id; }
      }
      assert lines[..|lines|] == lines;
    }

    method AppendEvent(body: string) returns (newId: int)
      requires cap > 0
      modifies this
      ensures Abs() == AppendLine(old(Abs()), body, cap)
      ensures newId == KnownMax(old(Abs())) + 1
    {
      var max := if cache.Some? then cache.value else -1;
      if max < 0 {
        if live.Some? {
          max := ScanMax(live.value);
        } else {
          max := 0;
        }
      }
      newId := max + 1;
      if max > 0 && max % cap == 0 && live.Some? {
        archives, live := archives + [live.value], None;
      }
      live := Some((if live.Some? then live.value else []) + [Line(newId, body)]);
      cache := Some(newId);
    }

    method ReadEvents(since: int) returns (part: seq<Line>)
      ensures part == if live.Some? then EventsAfter(live.value, since) else []
    {
      part := [];
      if live.None? { return; }
      for k := 0 to |live.value|
        invariant part == EventsAfter(live.value[..k], since)
      {
        assert live.value[..k + 1][..k] == live.value[..k];
        if live.value[k].id > since { part := part + [live.value[k]]; }
      }
      assert live.value[..|live.value|] == live.value;
    }
  }

  // ----- runs of appends, restarts and polls -----

  datatype Action = Append(body: string) | Restart | Poll

  /** `bodies` records what was appended; the poller has its cursor and what it
      has received. */
  datatype State = State(disk: Disk, bodies: seq<string>, cursor: int, received: seq<Line>)

  function Live(d: Disk): seq<Line> {
    if d.live.Some? then d.live.value else []
  }

  function NextCursor(part: seq<Line>, since: int): int {
    if part == [] then since else MaxId(part)
  }

  function Step(st: State, a: Action, cap: nat): State
    requires cap > 0
  {
    match a
    case Append(body) => st.(disk := AppendLine(st.disk, body, cap), bodies := st.bodies + [body])
    case Restart => st.(disk := st.disk.(cache := None))
    case Poll =>
      var part := EventsAfter(Live(st.disk), st.cursor);
      st.(cursor := NextCursor(part, st.cursor), received := st.received + part)
  }

  const INIT := State(Disk([], None, None), [], 0, [])

  function Run(acts: seq<Action>, cap: nat): State
    requires cap > 0
  {
    if acts == [] then INIT else Step(Run(acts[..|acts| - 1], cap), acts[|acts| - 1], cap)
  }

  /** The bodies of the appends among some actions, in order. */
  ghost function Appends(acts: seq<Action>): seq<string> {
    if acts == [] then []
    else
      Appends(acts[..|acts| - 1])
      + (match acts[|acts| - 1] case Append(body) => [body] case _ => [])
  }

  /** The lines numbered `lo + 1` to `hi` of everything that was appended. */
  function Lines(bodies: seq<string>, lo: nat, hi: nat): seq<Line>
    requires lo <= hi <= |bodies|
  {
    seq(hi - lo, k requires 0 <= k < hi - lo => Line(lo + k + 1, bodies[lo + k]))
  }

  function Flatten(files: seq<seq<Line>>): seq<Line> {
    if files == [] then [] else Flatten(files[..|files| - 1]) + files[|files| - 1]
  }

  /** Number of lines that have left the live file: whole archives of `cap`. */
  function Base(n: nat, cap: nat): nat
    requires cap > 0
  {
    if n == 0 then 0 else ((n - 1) / cap) * cap
  }

  ghost predicate DiskInv(d: Disk, bodies: seq<string>, cap: nat)
    requires cap > 0
  {
    var n := |bodies|;
    && n - cap <= Base(n, cap) <= n
    && Flatten(d.archives) == Lines(bodies, 0, Base(n, cap))
    && |d.archives| * cap == Base(n, cap)
    && (forall k :: 0 <= k < |d.archives| ==> |d.archives[k]| == cap)
    && (d.live.None? <==> n == 0)
    && Live(d) == Lines(bodies, Base(n, cap), n)
    && (d.cache.Some? ==> d.cache.value == n > 0)
  }

  lemma LinesSplit(bodies: seq<string>, lo: nat, mid: nat, hi: nat)
    requires lo <= mid <= hi <= |bodies|
    ensures Lines(bodies, lo, mid) + Lines(bodies, mid, hi) == Lines(bodies, lo, hi)
  {
  }

  lemma LinesExtend(bodies: seq<string>, body: string, lo: nat, hi: nat)
    requires lo <= hi <= |bodies|
    ensures Lines(bodies + [body], lo, hi) == Lines(bodies, lo, hi)
    ensures lo <= |bodies| && Lines(bodies + [body], lo, |bodies| + 1)
         == Lines(bodies, lo, |bodies|) + [Line(|bodies| + 1, body)]
  {
  }

  lemma {:induction false} MaxOfLines(bodies: seq<string>, lo: nat, hi: nat)
    requires lo < hi <= |bodies|
    ensures MaxId(Lines(bodies, lo, hi)) == hi
    decreases hi
  {
    var all := Lines(bodies, lo, hi);
    if hi - 1 > lo {
      MaxOfLines(bodies, lo, hi - 1);
    }
    assert all[..|all| - 1] == Lines(bodies, lo, hi - 1);
  }

  /** Rotation happens exactly when the base moves. */
  lemma BaseStep(n: nat, cap: nat)
    requires cap > 0
    ensures n - cap <= Base(n, cap) <= n
    ensures n > 0 ==> Base(n, cap) < n
    ensures n > 0 && n % cap == 0 ==> Base(n + 1, cap) == n && Base(n, cap) == n - cap
    ensures n == 0 || n % cap != 0 ==> Base(n + 1, cap) == Base(n, cap)
  {
    if n > 0 {
      var q, r := n / cap, n % cap;
      assert n == q * cap + r;
      if r == 0 {
        PreviousQuotient(n, cap, q - 1, cap - 1);
        assert (q - 1) * cap == n - cap;
      } else {
        PreviousQuotient(n, cap, q, r - 1);
      }
    } else {
      assert 0 / cap == 0;
    }
  }

  lemma PreviousQuotient(n: nat, cap: nat, q: int, r: int)
    requires cap > 0 && n > 0 && n - 1 == q * cap + r && 0 <= r < cap
    ensures (n - 1) / cap == q
  {
    var d := (n - 1) / cap - q;
    assert d * cap == r - (n - 1) % cap;
    SmallMultiple(d, cap);
  }

  lemma SmallMultiple(d: int, cap: nat)
    requires cap > 0 && 0 - cap as int < d * cap < cap
    ensures d == 0
  {
  }

  lemma LinesSnoc(bodies: seq<string>, lo: nat, hi: nat)
    requires lo < hi <= |bodies|
    ensures Lines(bodies, lo, hi) == Lines(bodies, lo, hi - 1) + [Line(hi, bodies[hi - 1])]
    ensures Lines(bodies, lo, hi)[..hi - lo - 1] == Lines(bodies, lo, hi - 1)
  {
  }

  lemma LinesLength(bodies: seq<string>, lo: nat, hi: nat)
    requires lo <= hi <= |bodies|
    ensures |Lines(bodies, lo, hi)| == hi - lo
  {
  }

  /** A present cache equals the scanned maximum: both are the count. */
  lemma KnownMaxIsCount(d: Disk, bodies: seq<string>, cap: nat)
    requires cap > 0 && DiskInv(d, bodies, cap)
    ensures KnownMax(d) == |bodies|
  {
    var n := |bodies|;
    BaseStep(n, cap);
    if n > 0 { MaxOfLines(bodies, Base(n, cap), n); }
    hide Base, Lines, Flatten, MaxId;
  }

  lemma AppendInPlace(d: Disk, bodies: seq<string>, body: string, cap: nat)
    requires cap > 0 && DiskInv(d, bodies, cap) && (|bodies| == 0 || |bodies| % cap != 0)
    ensures DiskInv(AppendLine(d, body, cap), bodies + [body], cap)
  {
    var n := |bodies|;
    KnownMaxIsCount(d, bodies, cap);
    BaseStep(n, cap);
    BaseStep(n + 1, cap);
    hide Base, Lines, KnownMax, Flatten;
    LinesExtend(bodies, body, 0, Base(n, cap));
    LinesExtend(bodies, body, Base(n, cap), n);
    assert n == 0 ==> Live(d) == [];
  }

  lemma AppendAfterRotation(d: Disk, bodies: seq<string>, body: string, cap: nat)
    requires cap > 0 && DiskInv(d, bodies, cap) && |bodies| > 0 && |bodies| % cap == 0
    ensures DiskInv(AppendLine(d, body, cap), bodies + [body], cap)
  {
    var n := |bodies|;
    KnownMaxIsCount(d, bodies, cap);
    BaseStep(n, cap);
    BaseStep(n + 1, cap);
    LinesLength(bodies, Base(n, cap), n);
    AppendRotates(d, body, cap);
    ArchiveAll(d.archives, bodies, body, Base(n, cap));
    FirstAfterRotation(bodies, body);
    OneMoreArchive(|d.archives|, cap);
    hide Base, Lines, Flatten, AppendLine, KnownMax;
  }

  lemma AppendRotates(d: Disk, body: string, cap: nat)
    requires cap > 0 && KnownMax(d) > 0 && KnownMax(d) % cap == 0 && d.live.Some?
    ensures var id := KnownMax(d) + 1;
            AppendLine(d, body, cap) == Disk(d.archives + [Live(d)], Some([Line(id, body)]), Some(id))
  {
    hide KnownMax;
    var id := KnownMax(d) + 1;
    assert [] + [Line(id, body)] == [Line(id, body)];
  }

  lemma OneMoreArchive(count: nat, cap: nat)
    ensures (count + 1) * cap == count * cap + cap
  {
  }

  /** The rotated file completes the archived prefix. */
  lemma ArchiveAll(archives: seq<seq<Line>>, bodies: seq<string>, body: string, base: nat)
    requires base <= |bodies| && Flatten(archives) == Lines(bodies, 0, base)
    ensures Flatten(archives + [Lines(bodies, base, |bodies|)]) == Lines(bodies + [body], 0, |bodies|)
  {
    var n := |bodies|;
    var files := archives + [Lines(bodies, base, n)];
    assert files[..|archives|] == archives;
    LinesSplit(bodies, 0, base, n);
    LinesExtend(bodies, body, 0, n);
    hide Lines;
  }

  lemma FirstAfterRotation(bodies: seq<string>, body: string)
    ensures Lines(bodies + [body], |bodies|, |bodies| + 1) == [Line(|bodies| + 1, body)]
  {
  }

  lemma {:induction false} AppendKeepsDisk(d: Disk, bodies: seq<string>, body: string, cap: nat)
    requires cap > 0 && DiskInv(d, bodies, cap)
    ensures DiskInv(AppendLine(d, body, cap), bodies + [body], cap)
  {
    if |bodies| > 0 && |bodies| % cap == 0 {
      AppendAfterRotation(d, bodies, body, cap);
    } else {
      AppendInPlace(d, bodies, body, cap);
    }
  }

  /** Over any run from an absent log, ids are 1, 2, 3, ...: the archives and
      then the live file hold exactly what was appended, in order; every archive
      has exactly `cap` lines and the live file at most `cap`; and a warm cache
      agrees with a cold scan. */
  lemma LogIsComplete(acts: seq<Action>, cap: nat)
    requires cap > 0
    ensures var st := Run(acts, cap);
            && st.bodies == Appends(acts)
            && DiskInv(st.disk, st.bodies, cap)
            && Flatten(st.disk.archives) + Live(st.disk) == Lines(st.bodies, 0, |st.bodies|)
            && |Live(st.disk)| <= cap
            && KnownMax(st.disk) == |st.bodies| == KnownMax(st.disk.(cache := None))
  {
    DiskStaysGood(acts, cap);
    BodiesAreAppends(acts, cap);
    var st := Run(acts, cap);
    var n := |st.bodies|;
    hide Run, KnownMax;
    KnownMaxIsCount(st.disk, st.bodies, cap);
    KnownMaxIsCount(st.disk.(cache := None), st.bodies, cap);
    hide Base, Flatten;
    LinesSplit(st.bodies, 0, Base(n, cap), n);
    LinesLength(st.bodies, Base(n, cap), n);
  }

  lemma {:induction false} BodiesAreAppends(acts: seq<Action>, cap: nat)
    requires cap > 0
    ensures Run(acts, cap).bodies == Appends(acts)
  {
    hide AppendLine, EventsAfter, NextCursor;
    if acts != [] {
      BodiesAreAppends(acts[..|acts| - 1], cap);
      assert Appends(acts[..|acts| - 1]) + [] == Appends(acts[..|acts| - 1]);
    }
  }

  /** One append moves the live file away exactly when the highest id is a positive
      multiple of the cap; either way the new line is the last of the live file. */
  lemma RotatesIff(d: Disk, body: string, cap: nat)
    requires cap > 0
    ensures var now, max := AppendLine(d, body, cap), KnownMax(d);
            var rotates := max > 0 && max % cap == 0 && d.live.Some?;
            && now.archives == d.archives + (if rotates then [Live(d)] else [])
            && Live(now) == (if rotates then [] else Live(d)) + [Line(max + 1, body)]
  {
    hide KnownMax;
    assert d.archives + [] == d.archives;
  }

  /** A warm cache is trusted whatever the file holds; after a restart the next
      id is one above the highest in the file. */
  lemma RestartRescans(st: State, body: string, cap: nat)
    requires cap > 0 && st.disk.live.Some?
    ensures var live := st.disk.live.value;
            && AppendLine(Step(st, Restart, cap).disk, body, cap).cache == Some(MaxId(live) + 1)
            && (st.disk.cache.Some? ==>
                  AppendLine(st.disk, body, cap).cache
                    == Some((if st.disk.cache.value >= 0 then st.disk.cache.value else MaxId(live)) + 1))
  {
  }

  lemma {:induction false} DiskStaysGood(acts: seq<Action>, cap: nat)
    requires cap > 0
    ensures DiskInv(Run(acts, cap).disk, Run(acts, cap).bodies, cap)
  {
    hide DiskInv, AppendLine;
    if acts != [] {
      var st := Run(acts[..|acts| - 1], cap);
      DiskStaysGood(acts[..|acts| - 1], cap);
      match acts[|acts| - 1]
      case Append(body) => AppendKeepsDisk(st.disk, st.bodies, body, cap);
      case Restart => RestartKeepsDisk(st.disk, st.bodies, cap);
      case Poll =>
    } else {
      AbsentLog(cap);
    }
  }

  lemma AbsentLog(cap: nat)
    requires cap > 0
    ensures DiskInv(Disk([], None, None), [], cap)
  {
  }

  lemma RestartKeepsDisk(d: Disk, bodies: seq<string>, cap: nat)
    requires cap > 0 && DiskInv(d, bodies, cap)
    ensures DiskInv(d.(cache := None), bodies, cap)
  {
  }

  lemma {:induction false} EventsAfterLines(bodies: seq<string>, lo: nat, hi: nat, since: int)
    requires lo <= hi <= |bodies|
    ensures var from := if since < lo then lo else if since > hi then hi else since;
            EventsAfter(Lines(bodies, lo, hi), since) == Lines(bodies, from, hi)
    decreases hi
  {
    LinesLength(bodies, lo, hi);
    if lo < hi {
      EventsAfterLines(bodies, lo, hi - 1, since);
      LinesSnoc(bodies, lo, hi);
      var from := if since < lo then lo else if since > hi then hi else since;
      if from < hi { LinesSnoc(bodies, from, hi); }
      LinesLength(bodies, hi, hi);
      hide Lines;
    }
  }

  ghost predicate UpToDate(st: State) {
    0 <= st.cursor <= |st.bodies| && st.received == Lines(st.bodies, 0, st.cursor)
  }

  /** A poll by a client that has missed nothing leaves it complete exactly when
      its cursor is not behind the last rotation: archived events are not read. */
  lemma {:induction false} PollIsCompleteIff(acts: seq<Action>, cap: nat)
    requires cap > 0 && UpToDate(Run(acts, cap))
    ensures var st := Run(acts, cap);
            var now := Step(st, Poll, cap);
            && now.cursor == |st.bodies|
            && (UpToDate(now) <==> st.cursor >= Base(|st.bodies|, cap))
  {
    LogIsComplete(acts, cap);
    var st := Run(acts, cap);
    var now := Step(st, Poll, cap);
    var n := |st.bodies|;
    BaseStep(n, cap);
    hide Run, Base;
    EventsAfterLines(st.bodies, Base(n, cap), n, st.cursor);
    var from := if st.cursor < Base(n, cap) then Base(n, cap) else st.cursor;
    if from < n { MaxOfLines(st.bodies, from, n); }
    LinesSplit(st.bodies, 0, from, n);
    if st.cursor < Base(n, cap) {
      LinesLength(st.bodies, 0, st.cursor);
      LinesLength(st.bodies, from, n);
      LinesLength(st.bodies, 0, n);
      assert |now.received| == st.cursor + (n - from);
    }
  }

  /** Every poll of the run comes before the next rotation leaves it behind. */
  ghost predicate NeverBehind(acts: seq<Action>, cap: nat)
    requires cap > 0
  {
    forall n :: 0 <= n < |acts| && acts[n].Poll? ==>
      var st := Run(acts[..n], cap); st.cursor >= Base(|st.bodies|, cap)
  }

  /** Such a poller receives every event exactly once, in order. */
  lemma {:induction false} PollerSeesEveryEvent(acts: seq<Action>, cap: nat)
    requires cap > 0 && NeverBehind(acts, cap)
    ensures UpToDate(Run(acts, cap))
  {
    if acts != [] {
      var before := acts[..|acts| - 1];
      forall n | 0 <= n < |before| ensures before[n] == acts[n] && before[..n] == acts[..n] {}
      PollerSeesEveryEvent(before, cap);
      var st := Run(before, cap);
      match acts[|acts| - 1]
      case Append(body) => LinesExtend(st.bodies, body, 0, st.cursor);
      case Restart =>
      case Poll => PollIsCompleteIff(before, cap);
    }
  }

  /** Starting from a file that exists but is empty, numbering starts at 0: the
      promise of ids from 1 needs an absent file. */
  lemma FirstIdIsOneIff(live: Option<seq<Line>>, body: string, cap: nat)
    requires cap > 0 && (live.None? || live.value == [])
    ensures Live(AppendLine(Disk([], live, None), body, cap)) == [Line(1, body)] <==> live.None?
  {
    var id := if live.None? then 1 else 0;
    assert [] + [Line(id, body)] == [Line(id, body)];
    assert Live(AppendLine(Disk([], live, None), body, cap)) == [Line(id, body)];
  }
}
