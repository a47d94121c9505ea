/** Persistence of chat events: the two `append_chat_events`, which number a
    batch against what is stored, and reading back in sequence order. */
module ChatStore {
  /** `i` is the event's own index, -1 when it carries none. */
  datatype Event = Event(i: int, body: string)

  /** One stored row. */
  datatype Row = Row(number: int, ev: Event)

  function MaxSeq(rows: seq<Row>): (m: int)
    ensures m >= -1
  {
    if rows == [] then -1
    else
      var m, last := MaxSeq(rows[..|rows| - 1]), rows[|rows| - 1];
      if last.number > m then last.number else m
  }

  lemma {:induction false} MaxSeqIsMax(rows: seq<Row>)
    ensures var m := MaxSeq(rows);
            && (forall k :: 0 <= k < |rows| ==> rows[k].number <= m)
            && (m > -1 ==> exists k :: 0 <= k < |rows| && rows[k].number == m)
  {
    if rows != [] {
      var before := rows[..|rows| - 1];
      MaxSeqIsMax(before);
      assert forall k :: 0 <= k < |before| ==> before[k] == rows[k];
      if MaxSeq(rows) > -1 && rows[|rows| - 1].number != MaxSeq(rows) {
        var k :| 0 <= k < |before| && before[k].number == MaxSeq(before);
        assert rows[k].number == MaxSeq(rows);
      }
    }
  }

  lemma MaxSeqSnoc(rows: seq<Row>, r: Row)
    ensures MaxSeq(rows + [r]) == if r.number > MaxSeq(rows) then r.number else MaxSeq(rows)
  {
    assert (rows + [r])[..|rows|] == rows;
  }

  /** `ORDER BY seq ASC`: stable insertion by sequence number. */
  function InsertSorted(sorted: seq<Row>, r: Row): seq<Row> {
    if sorted == [] then [r]
    else
      var last := sorted[|sorted| - 1];
      if last.number <= r.number then sorted + [r] else InsertSorted(sorted[..|sorted| - 1], r) + [last]
  }

  function Sorted(rows: seq<Row>): seq<Row> {
    if rows == [] then [] else InsertSorted(Sorted(rows[..|rows| - 1]), rows[|rows| - 1])
  }

  function EventsOf(rows: seq<Row>): seq<Event> {
    seq(|rows|, k requires 0 <= k < |rows| => rows[k].ev)
  }

  /** `get_chat_events`. */
  function Read(rows: seq<Row>): seq<Event> {
    EventsOf(Sorted(rows))
  }

  // ----- the newer append: chat_routes -----

  /** `INSERT OR REPLACE` under the primary key (session, seq). */
  function Replace(rows: seq<Row>, r: Row): seq<Row> {
    DropNumber(rows, r.number) + [r]
  }

  function DropNumber(rows: seq<Row>, n: int): seq<Row> {
    if rows == [] then []
    else if rows[0].number == n then DropNumber(rows[1..], n) else [rows[0]] + DropNumber(rows[1..], n)
  }

  /** Replacing keeps the rows of other numbers and leaves one of this number. */
  lemma {:induction false} ReplaceIff(rows: seq<Row>, r: Row, x: Row)
    ensures x in Replace(rows, r) <==> x == r || (x in rows && x.number != r.number)
  {
    if rows != [] {
      ReplaceIff(rows[1..], r, x);
      assert rows == [rows[0]] + rows[1..];
    }
  }

  function Numbered(ev: Event, max: int): int {
    if ev.i == -1 || ev.i <= max then max + 1 else ev.i
  }

  function AppendAll(rows: seq<Row>, batch: seq<Event>): seq<Row>
    decreases |batch|
  {
    if batch == [] then rows
    else
      var before := AppendAll(rows, batch[..|batch| - 1]);
      var ev := batch[|batch| - 1];
      before + [Row(Numbered(ev, MaxSeq(before)), ev)]
  }

  ghost predicate Ascending(rows: seq<Row>) {
    forall k :: 0 < k < |rows| ==> rows[k - 1].number < rows[k].number
  }

  lemma NothingToReplace(rows: seq<Row>, n: int)
    requires n > MaxSeq(rows)
    ensures DropNumber(rows, n) == rows
  {
    MaxSeqIsMax(rows);
    DropAbsent(rows, n);
  }

  lemma {:induction false} DropAbsent(rows: seq<Row>, n: int)
    requires forall k :: 0 <= k < |rows| ==> rows[k].number != n
    ensures DropNumber(rows, n) == rows
  {
    if rows != [] {
      DropAbsent(rows[1..], n);
      assert rows == [rows[0]] + rows[1..];
    }
  }

  lemma {:induction false} SortedAscending(rows: seq<Row>)
    requires Ascending(rows)
    ensures Sorted(rows) == rows
  {
    if rows != [] {
      SortedAscending(rows[..|rows| - 1]);
      assert rows == rows[..|rows| - 1] + [rows[|rows| - 1]];
    }
  }

  lemma NumberIsNew(rows: seq<Row>, ev: Event)
    ensures forall k :: 0 <= k < |rows| ==> rows[k].number < Numbered(ev, MaxSeq(rows))
  {
    MaxSeqIsMax(rows);
    assert Numbered(ev, MaxSeq(rows)) > MaxSeq(rows);
  }

  lemma {:induction false} InsertedMembers(sorted: seq<Row>, r: Row)
    ensures forall x :: x in InsertSorted(sorted, r) <==> x in sorted || x == r
  {
    if sorted != [] && sorted[|sorted| - 1].number > r.number {
      var before, last := sorted[..|sorted| - 1], sorted[|sorted| - 1];
      InsertedMembers(before, r);
      assert sorted == before + [last];
    }
  }

  lemma {:induction false} SortedMembers(rows: seq<Row>)
    ensures forall x :: x in Sorted(rows) <==> x in rows
  {
    if rows != [] {
      var before, last := rows[..|rows| - 1], rows[|rows| - 1];
      SortedMembers(before);
      InsertedMembers(Sorted(before), last);
      assert rows == before + [last];
      hide InsertSorted;
    }
  }

  /** A row numbered above all others is read last. */
  lemma ReadSnoc(rows: seq<Row>, r: Row)
    requires forall k :: 0 <= k < |rows| ==> rows[k].number < r.number
    ensures Read(rows + [r]) == Read(rows) + [r.ev]
  {
    var sorted := Sorted(rows);
    SortedMembers(rows);
    assert sorted != [] ==> sorted[|sorted| - 1] in rows;
    assert (rows + [r])[..|rows|] == rows;
    assert Sorted(rows + [r]) == sorted + [r];
    hide Sorted, InsertSorted;
    assert EventsOf(sorted + [r]) == EventsOf(sorted) + [r.ev];
  }

  lemma AscendingSnoc(rows: seq<Row>, r: Row)
    requires Ascending(rows) && forall k :: 0 <= k < |rows| ==> rows[k].number < r.number
    ensures Ascending(rows + [r])
  {
  }

  /** Every event of every batch is stored with a number above all others, so
      reading back gives what was read before followed by the batch, in order:
      for every table, also one the older append left out of order. */
  lemma {:induction false} AppendKeepsEverything(rows: seq<Row>, batch: seq<Event>)
    ensures Read(AppendAll(rows, batch)) == Read(rows) + batch
    ensures Ascending(rows) ==> Ascending(AppendAll(rows, batch))
    decreases |batch|
  {
    hide Ascending, Read, MaxSeq, Numbered;
    if batch != [] {
      var n := |batch| - 1;
      var before := AppendAll(rows, batch[..n]);
      AppendKeepsEverything(rows, batch[..n]);
      NumberIsNew(before, batch[n]);
      ReadSnoc(before, Row(Numbered(batch[n], MaxSeq(before)), batch[n]));
      if Ascending(before) {
        AscendingSnoc(before, Row(Numbered(batch[n], MaxSeq(before)), batch[n]));
      }
      assert batch == batch[..n] + [batch[n]];
    } else {
      assert Read(rows) + batch == Read(rows);
    }
  }

  /** `n` is the number that an event is stored under after the rows `before`: its
      own index exactly when that is one and exceeds every number there, else
      the number after the highest. */
  ghost predicate RightNumber(before: seq<Row>, ev: Event, n: int) {
    && (n == ev.i <==> ev.i >= 0 && forall j :: 0 <= j < |before| ==> before[j].number < ev.i)
    && (n != ev.i ==>
          && (forall j :: 0 <= j < |before| ==> before[j].number < n)
          && (n == 0 || exists j :: 0 <= j < |before| && before[j].number == n - 1))
  }

  lemma AppendOne(rows: seq<Row>, batch: seq<Event>)
    requires batch != []
    ensures var before, ev := AppendAll(rows, batch[..|batch| - 1]), batch[|batch| - 1];
            AppendAll(rows, batch) == before + [Row(Numbered(ev, MaxSeq(before)), ev)]
  {
  }

  /** Every event of a batch gets the right number for what is stored before it. */
  lemma {:induction false} NumberIff(rows: seq<Row>, batch: seq<Event>, k: nat)
    requires k < |batch|
    ensures var now, at := AppendAll(rows, batch), |rows| + k;
            && |now| == |rows| + |batch| && rows <= now
            && now[at].ev == batch[k] && RightNumber(now[..at], batch[k], now[at].number)
    decreases |batch|
  {
    hide AppendAll, RightNumber, MaxSeq, Numbered;
    var n := |batch| - 1;
    var before, now := AppendAll(rows, batch[..n]), AppendAll(rows, batch);
    AppendOne(rows, batch);
    if n > 0 {
      NumberIff(rows, batch[..n], if k < n then k else 0);
    } else {
      assert batch[..n] == [];
      AppendNothing(rows);
    }
    NumberChosen(before, batch[n]);
    assert now[..|before|] == before;
    if k < n {
      assert now[..|rows| + k] == before[..|rows| + k];
    }
  }

  lemma AppendNothing(rows: seq<Row>)
    ensures AppendAll(rows, []) == rows
  {
  }

  lemma NumberChosen(before: seq<Row>, ev: Event)
    ensures RightNumber(before, ev, Numbered(ev, MaxSeq(before)))
  {
    MaxSeqIsMax(before);
    hide MaxSeq;
  }

  /** The rows of a batch under its own indices. */
  ghost function OwnNumbers(batch: seq<Event>): seq<Row> {
    if batch == [] then []
    else OwnNumbers(batch[..|batch| - 1]) + [Row(batch[|batch| - 1].i, batch[|batch| - 1])]
  }

  ghost predicate AllBelow(rows: seq<Row>, n: int) {
    forall j :: 0 <= j < |rows| ==> rows[j].number < n
  }

  /** So a batch of increasing indices above everything stored keeps them all. */
  lemma {:induction false} IncreasingKeepsNumbers(rows: seq<Row>, batch: seq<Event>)
    requires forall k :: 0 <= k < |batch| ==> batch[k].i >= 0 && (k > 0 ==> batch[k - 1].i < batch[k].i)
    requires batch != [] ==> AllBelow(rows, batch[0].i)
    ensures AppendAll(rows, batch) == rows + OwnNumbers(batch)
    ensures batch != [] ==> AllBelow(AppendAll(rows, batch), batch[|batch| - 1].i + 1)
    decreases |batch|
  {
    hide AppendAll, OwnNumbers, MaxSeq, Numbered, AllBelow;
    AppendNothing(rows);
    OwnNumbersStep(batch);
    if batch != [] {
      var n := |batch| - 1;
      var init, ev := batch[..n], batch[n];
      IncreasingKeepsNumbers(rows, init);
      AppendOne(rows, batch);
      if n > 0 { BelowMore(AppendAll(rows, init), init[n - 1].i + 1, ev.i); }
      NumberIsKept(AppendAll(rows, init), ev);
      Reassociate(rows, OwnNumbers(init), [Row(ev.i, ev)]);
    }
  }

  lemma OwnNumbersStep(batch: seq<Event>)
    ensures batch == [] ==> OwnNumbers(batch) == []
    ensures batch != [] ==>
              var init, ev := batch[..|batch| - 1], batch[|batch| - 1];
              OwnNumbers(batch) == OwnNumbers(init) + [Row(ev.i, ev)]
  {
  }

  lemma Reassociate(a: seq<Row>, b: seq<Row>, c: seq<Row>)
    ensures a + (b + c) == (a + b) + c
  {
  }

  lemma BelowMore(rows: seq<Row>, m: int, n: int)
    requires AllBelow(rows, m) && m <= n
    ensures AllBelow(rows, n)
  {
  }

  lemma NumberIsKept(before: seq<Row>, ev: Event)
    requires ev.i >= 0 && AllBelow(before, ev.i)
    ensures Numbered(ev, MaxSeq(before)) == ev.i && AllBelow(before + [Row(ev.i, ev)], ev.i + 1)
  {
    NumberChosen(before, ev);
    hide MaxSeq, Numbered;
  }

  ghost predicate InOrder(rows: seq<Row>) {
    forall k :: 0 < k < |rows| ==> rows[k - 1].number <= rows[k].number
  }

  lemma {:induction false} InsertKeepsOrder(sorted: seq<Row>, r: Row)
    requires InOrder(sorted)
    ensures var now := InsertSorted(sorted, r);
            && InOrder(now) && now != []
            && now[|now| - 1].number
                 == if sorted != [] && sorted[|sorted| - 1].number > r.number
                    then sorted[|sorted| - 1].number else r.number
  {
    if sorted != [] && sorted[|sorted| - 1].number > r.number {
      InsertKeepsOrder(sorted[..|sorted| - 1], r);
    }
  }

  lemma CountSnoc(rows: seq<Row>, r: Row)
    ensures multiset(rows + [r]) == multiset(rows) + multiset{r}
  {
  }

  lemma {:induction false} InsertAddsOne(sorted: seq<Row>, r: Row)
    ensures multiset(InsertSorted(sorted, r)) == multiset(sorted) + multiset{r}
  {
    if sorted != [] && sorted[|sorted| - 1].number > r.number {
      var before, last := sorted[..|sorted| - 1], sorted[|sorted| - 1];
      InsertAddsOne(before, r);
      CountSnoc(before, last);
      CountSnoc(InsertSorted(before, r), last);
      assert sorted == before + [last];
    } else {
      CountSnoc(sorted, r);
    }
  }

  /** Reading sorts: the same rows, by sequence number. */
  lemma {:induction false} SortedIsSorted(rows: seq<Row>)
    ensures InOrder(Sorted(rows)) && multiset(Sorted(rows)) == multiset(rows)
  {
    if rows != [] {
      var before, last := rows[..|rows| - 1], rows[|rows| - 1];
      SortedIsSorted(before);
      var sorted := Sorted(before);
      assert Sorted(rows) == InsertSorted(sorted, last);
      assert rows == before + [last];
      hide Sorted, InsertSorted, InOrder;
      InsertKeepsOrder(sorted, last);
      InsertAddsOne(sorted, last);
      CountSnoc(before, last);
    } else {
      assert rows == [] && Sorted(rows) == [];
    }
  }

  /** So a batch sent twice is stored twice: nothing is skipped, unless the batch
      is empty. */
  lemma AppendIsIdempotentIff(rows: seq<Row>, batch: seq<Event>)
    ensures AppendAll(AppendAll(rows, batch), batch) == AppendAll(rows, batch) <==> batch == []
  {
    AppendKeepsEverything(rows, batch);
    AppendKeepsEverything(AppendAll(rows, batch), batch);
    hide Read;
    var once, twice := AppendAll(rows, batch), AppendAll(AppendAll(rows, batch), batch);
    assert |Read(twice)| == |Read(once)| + |batch|;
  }

  // ----- the older append: db -----

  function SkipStored(rows: seq<Row>, batch: seq<Event>, max: int): seq<Row>
    decreases |batch|
  {
    if batch == [] then rows
    else
      var before, ev := SkipStored(rows, batch[..|batch| - 1], max), batch[|batch| - 1];
      if ev.i <= max then before else before + [Row(ev.i, ev)]
  }

  function AppendOld(rows: seq<Row>, batch: seq<Event>): seq<Row> {
    SkipStored(rows, batch, MaxSeq(rows))
  }

  lemma {:induction false} SkipCovers(rows: seq<Row>, batch: seq<Event>, max: int)
    ensures forall ev :: ev in batch ==>
              ev.i <= max || exists k :: 0 <= k < |SkipStored(rows, batch, max)|
                                         && SkipStored(rows, batch, max)[k].number == ev.i
    ensures rows <= SkipStored(rows, batch, max)
    decreases |batch|
  {
    if batch != [] {
      var before, last := batch[..|batch| - 1], batch[|batch| - 1];
      SkipCovers(rows, before, max);
      var now := SkipStored(rows, batch, max);
      forall ev | ev in batch ensures ev.i <= max || exists k :: 0 <= k < |now| && now[k].number == ev.i {
        if ev in before && ev.i > max {
          var was := SkipStored(rows, before, max);
          var k :| 0 <= k < |was| && was[k].number == ev.i;
          assert now[k] == was[k];
        } else if ev.i > max {
          assert ev == last && now[|now| - 1].number == ev.i;
        }
      }
    }
  }

  lemma {:induction false} SkipAll(rows: seq<Row>, batch: seq<Event>, max: int)
    requires forall ev :: ev in batch ==> ev.i <= max
    ensures SkipStored(rows, batch, max) == rows
    decreases |batch|
  {
    if batch != [] {
      assert forall ev :: ev in batch[..|batch| - 1] ==> ev in batch;
      assert batch[|batch| - 1] in batch;
      SkipAll(rows, batch[..|batch| - 1], max);
    }
  }

  /** The older append is idempotent, for every batch. */
  lemma OldAppendIsIdempotent(rows: seq<Row>, batch: seq<Event>)
    ensures AppendOld(AppendOld(rows, batch), batch) == AppendOld(rows, batch)
  {
    var max := MaxSeq(rows);
    var once := AppendOld(rows, batch);
    SkipCovers(rows, batch, max);
    MaxSeqIsMax(rows);
    MaxSeqIsMax(once);
    forall ev | ev in batch ensures ev.i <= MaxSeq(once) {
      if ev.i <= max && max > -1 {
        var k :| 0 <= k < |rows| && rows[k].number == max;
        assert once[k] == rows[k];
      }
    }
    SkipAll(once, batch, MaxSeq(once));
  }

  // ----- resending one numbered stream -----

  ghost predicate Stream(stream: seq<Event>) {
    forall k :: 0 <= k < |stream| ==> stream[k].i == k
  }

  function Stored(stream: seq<Event>, n: nat): seq<Row>
    requires n <= |stream|
  {
    seq(n, k requires 0 <= k < n => Row(k, stream[k]))
  }

  /** Batches are slices `[lo, hi)` of the stream; a gap-free sender never starts
      beyond what is stored. */
  datatype Slice = Slice(lo: nat, hi: nat)

  function Extent(slices: seq<Slice>): nat {
    if slices == [] then 0
    else
      var n, hi := Extent(slices[..|slices| - 1]), slices[|slices| - 1].hi;
      if hi > n then hi else n
  }

  ghost predicate GapFree(slices: seq<Slice>, stream: seq<Event>) {
    forall k :: 0 <= k < |slices| ==>
      slices[k].lo <= slices[k].hi <= |stream| && slices[k].lo <= Extent(slices[..k])
  }

  function SendAll(slices: seq<Slice>, stream: seq<Event>): seq<Row>
  {
    if slices == [] then []
    else
      var s := slices[|slices| - 1];
      var before := SendAll(slices[..|slices| - 1], stream);
      if s.lo <= s.hi <= |stream| then AppendOld(before, stream[s.lo..s.hi]) else before
  }

  lemma MaxOfStored(stream: seq<Event>, n: nat)
    requires n <= |stream|
    ensures MaxSeq(Stored(stream, n)) == n - 1
  {
    var rows := Stored(stream, n);
    MaxSeqIsMax(rows);
    if n > 0 { assert rows[n - 1].number == n - 1; }
  }

  lemma {:induction false} SkipSlice(stream: seq<Event>, n: nat, lo: nat, hi: nat)
    requires Stream(stream) && lo <= hi <= |stream| && lo <= n <= |stream|
    ensures SkipStored(Stored(stream, n), stream[lo..hi], n - 1) == Stored(stream, if hi > n then hi else n)
    decreases hi
  {
    if lo < hi {
      assert stream[lo..hi][..hi - lo - 1] == stream[lo..hi - 1];
      SkipSlice(stream, n, lo, hi - 1);
    }
  }

  /** Overlapping, gap-free resends of one numbered stream store each event
      exactly once, in order. */
  lemma {:induction false} ResendsStoreOnce(slices: seq<Slice>, stream: seq<Event>)
    requires Stream(stream) && GapFree(slices, stream)
    ensures Extent(slices) <= |stream|
    ensures SendAll(slices, stream) == Stored(stream, Extent(slices))
    ensures Read(SendAll(slices, stream)) == stream[..Extent(slices)]
  {
    if slices != [] {
      var before, s := slices[..|slices| - 1], slices[|slices| - 1];
      forall k | 0 <= k < |before| ensures before[k] == slices[k] && before[..k] == slices[..k] {}
      ResendsStoreOnce(before, stream);
      MaxOfStored(stream, Extent(before));
      SkipSlice(stream, Extent(before), s.lo, s.hi);
      hide MaxSeq, SkipStored, Stored, Read;
    }
    ReadStored(stream, Extent(slices));
  }

  lemma ReadStored(stream: seq<Event>, n: nat)
    requires n <= |stream|
    ensures Read(Stored(stream, n)) == stream[..n]
  {
    SortedAscending(Stored(stream, n));
    hide Sorted;
    assert EventsOf(Stored(stream, n)) == stream[..n];
  }

  // ----- the stored events of one session as an object -----

  class ChatTable {
    var rows: seq<Row>

    constructor ()
      ensures rows == []
    {
      rows := [];
    }

    /** The newer append; the result is the number of rows inserted. */
    method Append(batch: seq<Event>) returns (inserted: nat)
      modifies this
      ensures rows == AppendAll(old(rows), batch) && inserted == |batch|
    {
      inserted := 0;
      if batch == [] { return; }
      var persistedMax := MaxSeq(rows);
      for k := 0 to |batch|
        invariant rows == AppendAll(old(rows), batch[..k]) && inserted == k
        invariant persistedMax == MaxSeq(rows)
      {
        assert batch[..k + 1][..k] == batch[..k];
        var ev := batch[k];
        var i := ev.i;
        if i == -1 || i <= persistedMax {
          i := persistedMax + 1;
        }
        if i <= persistedMax { continue; }
        NothingToReplace(rows, i);
        MaxSeqSnoc(rows, Row(i, ev));
        rows := Replace(rows, Row(i, ev));
        persistedMax := i;
        inserted := inserted + 1;
      }
      assert batch[..|batch|] == batch;
    }

    /** The older append. */
    method AppendSkipping(batch: seq<Event>)
      modifies this
      ensures rows == AppendOld(old(rows), batch)
    {
      if batch == [] { return; }
      var persistedMax := MaxSeq(rows);
      for k := 0 to |batch|
        invariant rows == SkipStored(old(rows), batch[..k], persistedMax)
      {
        assert batch[..k + 1][..k] == batch[..k];
        if batch[k].i <= persistedMax { continue; }
        rows := rows + [Row(batch[k].i, batch[k])];
      }
      assert batch[..|batch|] == batch;
    }
  }
}
