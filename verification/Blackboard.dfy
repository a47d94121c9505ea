/** The versioned blackboard of one conscious: racing writers that read the
    highest version before they take the write lock, the latest-per-key query,
    and a client that keeps a copy by polling for deltas. */
module Blackboard {
  import opened PyText

  /** `createdAt` stands for the ISO timestamp, in order; 0 is the empty string. */
  datatype Row = Row(section: string, key: string, value: string, author: string, committer: string,
                     proposal: Option<nat>, version: nat, createdAt: nat)

  predicate IsFor(r: Row, section: string, key: string) {
    r.section == section && r.key == key
  }

  /** All versions of one key, in the order they were inserted. */
  function History(rows: seq<Row>, section: string, key: string): seq<Row> {
    if rows == [] then []
    else
      var last := rows[|rows| - 1];
      History(rows[..|rows| - 1], section, key) + (if IsFor(last, section, key) then [last] else [])
  }

  /** `SELECT MAX(version)`, with 0 for no row. */
  function MaxVersion(rows: seq<Row>, section: string, key: string): nat {
    if rows == [] then 0
    else
      var m, last := MaxVersion(rows[..|rows| - 1], section, key), rows[|rows| - 1];
      if IsFor(last, section, key) && last.version > m then last.version else m
  }

  /** The UNIQUE constraint on (section, key, version). */
  predicate Duplicates(rows: seq<Row>, r: Row) {
    exists k :: 0 <= k < |rows| && IsFor(rows[k], r.section, r.key) && rows[k].version == r.version
  }

  function Insert(rows: seq<Row>, r: Row): Option<seq<Row>> {
    if Duplicates(rows, r) then None else Some(rows + [r])
  }

  /** Every key's versions are exactly 1, 2, ..., n in insertion order. */
  ghost predicate NumberedKey(rows: seq<Row>, section: string, key: string) {
    var h := History(rows, section, key);
    && MaxVersion(rows, section, key) == |h|
    && forall k :: 0 <= k < |h| ==> h[k].version == k + 1
  }

  ghost predicate Numbered(rows: seq<Row>) {
    forall section, key :: NumberedKey(rows, section, key)
  }

  // ----- racing writers -----

  /** A post between reading the highest version and inserting. */
  datatype Post = Post(row: Row, finished: bool)

  datatype Board = Board(rows: seq<Row>, posts: seq<Post>)

  datatype BoardAction = ReadMax(draft: Row) | InsertRow(p: nat)

  function BoardStep(b: Board, a: BoardAction): Board {
    match a
    case ReadMax(draft) =>
      var row := draft.(version := MaxVersion(b.rows, draft.section, draft.key) + 1);
      b.(posts := b.posts + [Post(row, false)])
    case InsertRow(p) =>
      if p < |b.posts| && !b.posts[p].finished then
        var b1 := b.(posts := b.posts[p := b.posts[p].(finished := true)]);
        match Insert(b.rows, b.posts[p].row)
        case Some(rows) => b1.(rows := rows)
        case None => b1
      else b
  }

  function BoardRun(acts: seq<BoardAction>): Board {
    if acts == [] then Board([], []) else BoardStep(BoardRun(acts[..|acts| - 1]), acts[|acts| - 1])
  }

  /** A version that was read is at most one above what the table now holds. */
  ghost predicate Proposable(rows: seq<Row>, r: Row) {
    1 <= r.version <= MaxVersion(rows, r.section, r.key) + 1
  }

  ghost predicate BoardInv(b: Board) {
    Numbered(b.rows) && forall p :: 0 <= p < |b.posts| ==> Proposable(b.rows, b.posts[p].row)
  }

  lemma HistorySnoc(rows: seq<Row>, r: Row, section: string, key: string)
    ensures History(rows + [r], section, key)
         == History(rows, section, key) + (if IsFor(r, section, key) then [r] else [])
    ensures MaxVersion(rows + [r], section, key)
         == if IsFor(r, section, key) && r.version > MaxVersion(rows, section, key) then r.version
            else MaxVersion(rows, section, key)
  {
    assert (rows + [r])[..|rows|] == rows;
  }

  lemma {:induction false} HistoryMembers(rows: seq<Row>, section: string, key: string)
    ensures forall x :: x in History(rows, section, key) <==> x in rows && IsFor(x, section, key)
  {
    if rows != [] {
      HistoryMembers(rows[..|rows| - 1], section, key);
      assert rows == rows[..|rows| - 1] + [rows[|rows| - 1]];
    }
  }

  /** A stale version is always a duplicate, so what gets in is the next one. */
  lemma InsertIsNext(rows: seq<Row>, r: Row)
    requires Numbered(rows) && Proposable(rows, r)
    ensures Duplicates(rows, r) <==> r.version <= MaxVersion(rows, r.section, r.key)
    ensures Insert(rows, r).Some? ==> Numbered(rows + [r])
  {
    StaleIsDuplicate(rows, r);
    hide Duplicates;
    if !Duplicates(rows, r) {
      hide History, MaxVersion;
      forall section, key ensures NumberedKey(rows + [r], section, key) {
        assert NumberedKey(rows, section, key);
        HistorySnoc(rows, r, section, key);
      }
    }
  }

  lemma StaleIsDuplicate(rows: seq<Row>, r: Row)
    requires Numbered(rows) && r.version >= 1
    ensures Duplicates(rows, r) <==> r.version <= MaxVersion(rows, r.section, r.key)
  {
    assert NumberedKey(rows, r.section, r.key);
    var h := History(rows, r.section, r.key);
    HistoryMembers(rows, r.section, r.key);
    hide History, MaxVersion, Numbered;
    if r.version <= |h| {
      assert h[r.version - 1] in rows;
      var k :| 0 <= k < |rows| && rows[k] == h[r.version - 1];
      assert IsFor(rows[k], r.section, r.key);
    }
    if Duplicates(rows, r) {
      var k :| 0 <= k < |rows| && IsFor(rows[k], r.section, r.key) && rows[k].version == r.version;
      assert rows[k] in h;
    }
  }

  lemma StaysProposable(rows: seq<Row>, added: Row, r: Row)
    requires Proposable(rows, r)
    ensures Proposable(rows + [added], r)
  {
    HistorySnoc(rows, added, r.section, r.key);
  }

  lemma BoardStepKeepsInv(b: Board, a: BoardAction)
    requires BoardInv(b)
    ensures BoardInv(BoardStep(b, a))
  {
    hide Numbered, MaxVersion, Duplicates;
    var now := BoardStep(b, a);
    match a
    case ReadMax(draft) =>
    case InsertRow(p) =>
      if now.rows != b.rows {
        var r := b.posts[p].row;
        InsertIsNext(b.rows, r);
        forall q | 0 <= q < |now.posts| ensures Proposable(now.rows, now.posts[q].row) {
          StaysProposable(b.rows, r, b.posts[q].row);
        }
      }
  }

  /** However the reads and inserts of any number of posts interleave, the
      versions of every key are exactly 1..n, in order. */
  lemma {:induction false} VersionsAreGapless(acts: seq<BoardAction>)
    ensures BoardInv(BoardRun(acts))
  {
    if acts == [] {
      forall section, key ensures NumberedKey([], section, key) {}
    } else {
      VersionsAreGapless(acts[..|acts| - 1]);
      BoardStepKeepsInv(BoardRun(acts[..|acts| - 1]), acts[|acts| - 1]);
    }
  }

  // ----- the latest-per-key query -----

  /** The rows of `part` whose version is the highest of their key in `rows`. */
  function SelectLatest(part: seq<Row>, rows: seq<Row>): seq<Row> {
    if part == [] then []
    else
      var last := part[|part| - 1];
      SelectLatest(part[..|part| - 1], rows)
      + (if last.version == MaxVersion(rows, last.section, last.key) then [last] else [])
  }

  function LatestRows(rows: seq<Row>): seq<Row> {
    SelectLatest(rows, rows)
  }

  lemma {:induction false} HistoryConcat(a: seq<Row>, b: seq<Row>, section: string, key: string)
    ensures History(a + b, section, key) == History(a, section, key) + History(b, section, key)
    decreases |b|
  {
    if b == [] {
      assert a + b == a;
    } else {
      HistoryConcat(a, b[..|b| - 1], section, key);
      assert (a + b)[..|a + b| - 1] == a + b[..|b| - 1];
    }
  }

  function LastIf(h: seq<Row>, kept: bool): seq<Row>
    requires kept ==> h != []
  {
    if kept then [h[|h| - 1]] else []
  }

  /** The last row of `part` has the highest version of its key exactly when
      no later row is of that key. */
  lemma LatestIffNoneLater(part: seq<Row>, rest: seq<Row>)
    requires Numbered(part + rest) && part != []
    ensures var last := part[|part| - 1];
            last.version == MaxVersion(part + rest, last.section, last.key)
            <==> History(rest, last.section, last.key) == []
  {
    var last := part[|part| - 1];
    var h, newer := History(part, last.section, last.key), History(rest, last.section, last.key);
    assert h[|h| - 1] == last;
    HistoryConcat(part, rest, last.section, last.key);
    assert NumberedKey(part + rest, last.section, last.key);
    hide Numbered, MaxVersion, History;
    assert (h + newer)[|h| - 1] == last;
  }

  function OneIf(r: Row, kept: bool): seq<Row> {
    if kept then [r] else []
  }

  /** How picking one more row, or none, fits the history of one key. */
  lemma PickOne(hb: seq<Row>, last: Row, same: bool, newer: seq<Row>, ph: seq<Row>, chosen: bool)
    requires ph == LastIf(hb, hb != [] && OneIf(last, same) + newer == [])
    requires same ==> (chosen <==> newer == [])
    ensures var h := hb + OneIf(last, same);
            ph + OneIf(last, same && chosen) == LastIf(h, h != [] && newer == [])
  {
    if same {
      assert ([last] + newer)[0] == last;
      assert ph == [] && ph + [last] == [last] && ph + [] == [];
    } else {
      assert [] + newer == newer && hb + [] == hb && ph + [] == ph;
    }
  }

  lemma HistoryStep(part: seq<Row>, section: string, key: string)
    requires part != []
    ensures var last := part[|part| - 1];
            History(part, section, key)
              == History(part[..|part| - 1], section, key) + OneIf(last, IsFor(last, section, key))
  {
  }

  lemma HistoryHead(r: Row, rest: seq<Row>, section: string, key: string)
    ensures History([r] + rest, section, key) == OneIf(r, IsFor(r, section, key)) + History(rest, section, key)
  {
    HistoryConcat([r], rest, section, key);
    OneRow(r, section, key);
    hide History;
  }

  lemma SelectedHistory(part: seq<Row>, rows: seq<Row>, section: string, key: string)
    requires part != []
    ensures var picked, last := SelectLatest(part[..|part| - 1], rows), part[|part| - 1];
            var chosen := last.version == MaxVersion(rows, last.section, last.key);
            History(SelectLatest(part, rows), section, key)
              == History(picked, section, key) + OneIf(last, IsFor(last, section, key) && chosen)
  {
    var picked, last := SelectLatest(part[..|part| - 1], rows), part[|part| - 1];
    SelectStep(part, rows);
    HistorySnoc(picked, last, section, key);
    hide History, SelectLatest, MaxVersion;
    assert History(picked, section, key) + [] == History(picked, section, key);
  }

  lemma {:induction false} LatestOfPart(part: seq<Row>, rest: seq<Row>, section: string, key: string)
    requires Numbered(part + rest)
    ensures var h := History(part, section, key);
            var last := h != [] && History(rest, section, key) == [];
            History(SelectLatest(part, part + rest), section, key) == LastIf(h, last)
    decreases |part|
  {
    if part != [] {
      hide Numbered, History, SelectLatest, MaxVersion, LastIf, OneIf;
      var before, last := part[..|part| - 1], part[|part| - 1];
      var rows := part + rest;
      assert before + ([last] + rest) == rows;
      LatestOfPart(before, [last] + rest, section, key);
      HistoryHead(last, rest, section, key);
      HistoryStep(part, section, key);
      SelectedHistory(part, rows, section, key);
      LatestIffNoneLater(part, rest);
      PickOne(History(before, section, key), last, IsFor(last, section, key), History(rest, section, key),
              History(SelectLatest(before, rows), section, key),
              last.version == MaxVersion(rows, last.section, last.key));
    }
  }

  lemma SelectStep(part: seq<Row>, rows: seq<Row>)
    requires part != []
    ensures var picked, last := SelectLatest(part[..|part| - 1], rows), part[|part| - 1];
            SelectLatest(part, rows)
              == if last.version == MaxVersion(rows, last.section, last.key) then picked + [last] else picked
  {
    var picked := SelectLatest(part[..|part| - 1], rows);
    assert picked + [] == picked;
  }

  lemma OneRow(r: Row, section: string, key: string)
    ensures History([r], section, key) == if IsFor(r, section, key) then [r] else []
  {
    assert [r][..0] == [];
  }

  /** The query returns exactly one row for every key that has any, and that row
      is the last one of the key's full history. */
  lemma LatestIsLastOfHistory(rows: seq<Row>, section: string, key: string)
    requires Numbered(rows)
    ensures var h := History(rows, section, key);
            History(LatestRows(rows), section, key) == LastIf(h, h != [])
  {
    assert rows + [] == rows;
    LatestOfPart(rows, [], section, key);
  }

  // ----- keeping a copy by deltas -----

  type View = map<(string, string), Row>

  function At(r: Row): (string, string) {
    (r.section, r.key)
  }

  predicate InScope(r: Row, sections: seq<string>) {
    (sections == [] || r.section in sections) && r.section != "event"
  }

  predicate Sent(r: Row, sections: seq<string>, since: nat) {
    InScope(r, sections) && (since == 0 || r.createdAt > since)
  }

  /** The blackboard part of a context reply, and its new cursor. */
  function Delta(latest: seq<Row>, sections: seq<string>, since: nat): seq<Row> {
    if latest == [] then []
    else
      var last := latest[|latest| - 1];
      Delta(latest[..|latest| - 1], sections, since) + (if Sent(last, sections, since) then [last] else [])
  }

  function Cursor(latest: seq<Row>, sections: seq<string>, since: nat): nat {
    if latest == [] then since
    else
      var c, last := Cursor(latest[..|latest| - 1], sections, since), latest[|latest| - 1];
      if Sent(last, sections, since) && last.createdAt > c then last.createdAt else c
  }

  function Apply(view: View, delta: seq<Row>): View {
    if delta == [] then view
    else Apply(view, delta[..|delta| - 1])[At(delta[|delta| - 1]) := delta[|delta| - 1]]
  }

  /** The reference: the full history in order, the last row of a key winning. */
  function Replay(rows: seq<Row>, sections: seq<string>): View {
    if rows == [] then map[]
    else
      var v, last := Replay(rows[..|rows| - 1], sections), rows[|rows| - 1];
      if InScope(last, sections) then v[At(last) := last] else v
  }

  lemma {:induction false} ReplayIsLast(rows: seq<Row>, sections: seq<string>, at: (string, string))
    ensures var h := History(rows, at.0, at.1);
            if h != [] && InScope(h[|h| - 1], sections)
            then at in Replay(rows, sections) && Replay(rows, sections)[at] == h[|h| - 1]
            else at !in Replay(rows, sections)
  {
    if rows != [] {
      ReplayIsLast(rows[..|rows| - 1], sections, at);
      HistoryMembers(rows[..|rows| - 1], at.0, at.1);
      var h := History(rows[..|rows| - 1], at.0, at.1);
      assert h != [] ==> h[|h| - 1] in h;
    }
  }

  lemma {:induction false} ApplyAt(view: View, delta: seq<Row>, at: (string, string))
    ensures var h := History(delta, at.0, at.1);
            if h != [] then at in Apply(view, delta) && Apply(view, delta)[at] == h[|h| - 1]
            else (at in Apply(view, delta) <==> at in view)
                 && (at in view ==> Apply(view, delta)[at] == view[at])
  {
    if delta != [] {
      ApplyAt(view, delta[..|delta| - 1], at);
    }
  }

  lemma {:induction false} DeltaAt(latest: seq<Row>, sections: seq<string>, since: nat,
                                   section: string, key: string)
    requires |History(latest, section, key)| <= 1
    ensures var h := History(latest, section, key);
            History(Delta(latest, sections, since), section, key)
              == LastIf(h, h != [] && Sent(h[0], sections, since))
  {
    if latest != [] {
      var before, last := latest[..|latest| - 1], latest[|latest| - 1];
      assert History(before, section, key) <= History(latest, section, key);
      DeltaAt(before, sections, since, section, key);
      var sent := Delta(before, sections, since);
      assert sent + [] == sent;
      HistorySnoc(sent, last, section, key);
    }
  }

  /** What one poll leaves at one key of the client's copy. */
  lemma PolledAt(view: View, rows: seq<Row>, sections: seq<string>, since: nat, at: (string, string))
    requires Numbered(rows)
    ensures var h := History(rows, at.0, at.1);
            var now := Apply(view, Delta(LatestRows(rows), sections, since));
            if h != [] && Sent(h[|h| - 1], sections, since) then at in now && now[at] == h[|h| - 1]
            else (at in now <==> at in view) && (at in view ==> now[at] == view[at])
  {
    hide Numbered, LatestRows, Delta, Apply;
    LatestIsLastOfHistory(rows, at.0, at.1);
    DeltaAt(LatestRows(rows), sections, since, at.0, at.1);
    ApplyAt(view, Delta(LatestRows(rows), sections, since), at);
  }

  /** Row `rows[j]` is the newest of its key, in scope, and was posted after the
      client's copy was taken. */
  ghost predicate NewLatest(rows: seq<Row>, seen: nat, sections: seq<string>, j: int) {
    && seen <= j < |rows| && InScope(rows[j], sections)
    && rows[j].version == MaxVersion(rows, rows[j].section, rows[j].key)
  }

  /** Everything posted since the copy, newest of its key, is above the cursor. */
  ghost predicate AllNewer(rows: seq<Row>, seen: nat, sections: seq<string>, since: nat) {
    forall j :: NewLatest(rows, seen, sections, j) ==> since == 0 || rows[j].createdAt > since
  }

  /** A delta poll brings a current copy up to date exactly when every new
      latest row is stamped later than the cursor the client sent. */
  lemma PollIsExactIff(rows: seq<Row>, seen: nat, sections: seq<string>, since: nat)
    requires Numbered(rows) && seen <= |rows|
    ensures Apply(Replay(rows[..seen], sections), Delta(LatestRows(rows), sections, since))
              == Replay(rows, sections)
            <==> AllNewer(rows, seen, sections, since)
  {
    var view := Replay(rows[..seen], sections);
    var now := Apply(view, Delta(LatestRows(rows), sections, since));
    var full := Replay(rows, sections);
    hide Numbered, LatestRows, Delta, Apply, Replay;
    if AllNewer(rows, seen, sections, since) {
      forall at ensures at in now <==> at in full
                ensures at in full ==> now[at] == full[at]
      {
        PollAtIsExact(rows, seen, sections, since, at);
      }
    } else {
      var j :| NewLatest(rows, seen, sections, j) && !(since == 0 || rows[j].createdAt > since);
      MissedRow(rows, seen, sections, since, j);
    }
  }

  lemma {:induction false} PollAtIsExact(rows: seq<Row>, seen: nat, sections: seq<string>, since: nat, at: (string, string))
    requires Numbered(rows) && seen <= |rows| && AllNewer(rows, seen, sections, since)
    ensures var now := Apply(Replay(rows[..seen], sections), Delta(LatestRows(rows), sections, since));
            var full := Replay(rows, sections);
            (at in now <==> at in full) && (at in full ==> now[at] == full[at])
  {
    hide History, Replay, LatestRows, Delta, Apply, Numbered, MaxVersion, AllNewer;
    if History(rows[seen..], at.0, at.1) != [] {
      PollAtNewer(rows, seen, sections, since, at);
    } else {
      PollAtSame(rows, seen, sections, since, at);
    }
  }

  /** A key with a row that was posted since the copy. */
  lemma PollAtNewer(rows: seq<Row>, seen: nat, sections: seq<string>, since: nat, at: (string, string))
    requires Numbered(rows) && seen <= |rows| && AllNewer(rows, seen, sections, since)
    requires History(rows[seen..], at.0, at.1) != []
    ensures var now := Apply(Replay(rows[..seen], sections), Delta(LatestRows(rows), sections, since));
            var full := Replay(rows, sections);
            (at in now <==> at in full) && (at in full ==> now[at] == full[at])
  {
    hide History, Replay, LatestRows, Delta, Apply, Numbered, MaxVersion, NewLatest;
    PolledAt(Replay(rows[..seen], sections), rows, sections, since, at);
    ReplayIsLast(rows, sections, at);
    ReplayIsLast(rows[..seen], sections, at);
    var j := LastIsNew(rows, seen, sections, at);
    LastOfKey(rows[..seen], at);
    LastOfKey(rows, at);
    assert InScope(rows[j], sections) ==> Sent(rows[j], sections, since);
  }

  /** A key whose rows the copy has all seen. */
  lemma PollAtSame(rows: seq<Row>, seen: nat, sections: seq<string>, since: nat, at: (string, string))
    requires Numbered(rows) && seen <= |rows| && History(rows[seen..], at.0, at.1) == []
    ensures var now := Apply(Replay(rows[..seen], sections), Delta(LatestRows(rows), sections, since));
            var full := Replay(rows, sections);
            (at in now <==> at in full) && (at in full ==> now[at] == full[at])
  {
    hide History, Replay, LatestRows, Delta, Apply, Numbered, InScope;
    PolledAt(Replay(rows[..seen], sections), rows, sections, since, at);
    ReplayIsLast(rows, sections, at);
    ReplayIsLast(rows[..seen], sections, at);
    assert rows[..seen] + rows[seen..] == rows;
    HistoryConcat(rows[..seen], rows[seen..], at.0, at.1);
    assert History(rows[..seen], at.0, at.1) + [] == History(rows[..seen], at.0, at.1);
  }

  lemma LastOfKey(rows: seq<Row>, at: (string, string))
    ensures var h := History(rows, at.0, at.1); h != [] ==> At(h[|h| - 1]) == at
  {
    HistoryMembers(rows, at.0, at.1);
    var h := History(rows, at.0, at.1);
    assert h != [] ==> h[|h| - 1] in h;
  }

  lemma LastOfConcat(a: seq<Row>, b: seq<Row>)
    requires b != []
    ensures (a + b)[|a + b| - 1] == b[|b| - 1]
  {
  }

  /** The newest row of a key that was posted since the copy. */
  lemma LastIsNew(rows: seq<Row>, seen: nat, sections: seq<string>, at: (string, string)) returns (j: nat)
    requires Numbered(rows) && seen <= |rows| && History(rows[seen..], at.0, at.1) != []
    ensures var h := History(rows, at.0, at.1);
            && h != [] && j < |rows| && rows[j] == h[|h| - 1]
            && (InScope(rows[j], sections) ==> NewLatest(rows, seen, sections, j))
  {
    var newer := History(rows[seen..], at.0, at.1);
    assert rows[..seen] + rows[seen..] == rows;
    HistoryConcat(rows[..seen], rows[seen..], at.0, at.1);
    LastOfConcat(History(rows[..seen], at.0, at.1), newer);
    LastIsTop(rows, at);
    j := FoundAfter(rows, seen, at, newer[|newer| - 1]);
    hide History, MaxVersion, Numbered, InScope;
  }

  /** The last row of a key has its highest version. */
  lemma LastIsTop(rows: seq<Row>, at: (string, string))
    requires Numbered(rows)
    ensures var h := History(rows, at.0, at.1);
            h != [] ==> At(h[|h| - 1]) == at && h[|h| - 1].version == MaxVersion(rows, at.0, at.1)
  {
    assert NumberedKey(rows, at.0, at.1);
    LastOfKey(rows, at);
    hide History, MaxVersion, Numbered;
  }

  lemma FoundAfter(rows: seq<Row>, seen: nat, at: (string, string), r: Row) returns (k: nat)
    requires seen <= |rows| && r in History(rows[seen..], at.0, at.1)
    ensures seen <= k < |rows| && rows[k] == r
  {
    HistoryMembers(rows[seen..], at.0, at.1);
    hide History;
    var m :| 0 <= m < |rows| - seen && rows[seen..][m] == r;
    k := seen + m;
  }

  lemma MissedRow(rows: seq<Row>, seen: nat, sections: seq<string>, since: nat, j: nat)
    requires Numbered(rows) && seen <= |rows|
    requires NewLatest(rows, seen, sections, j) && since != 0 && rows[j].createdAt <= since
    ensures Apply(Replay(rows[..seen], sections), Delta(LatestRows(rows), sections, since))
         != Replay(rows, sections)
  {
    var at := At(rows[j]);
    var view := Replay(rows[..seen], sections);
    PolledAt(view, rows, sections, since, at);
    ReplayIsLast(rows, sections, at);
    ReplayIsLast(rows[..seen], sections, at);
    RowIsLast(rows, seen, j);
  }

  /** A latest row is the last of its key's history, and not part of the copy. */
  lemma RowIsLast(rows: seq<Row>, seen: nat, j: nat)
    requires Numbered(rows) && seen <= j < |rows|
    requires rows[j].version == MaxVersion(rows, rows[j].section, rows[j].key)
    ensures var at := At(rows[j]);
            var h, before := History(rows, at.0, at.1), History(rows[..seen], at.0, at.1);
            && h != [] && h[|h| - 1] == rows[j]
            && (before != [] ==> before[|before| - 1] != rows[j])
  {
    var at := At(rows[j]);
    var h, before := History(rows, at.0, at.1), History(rows[..seen], at.0, at.1);
    var k := RowAfterCopy(rows, seen, j);
    assert NumberedKey(rows, at.0, at.1);
    hide History, MaxVersion, Numbered;
    assert k == |h| - 1;
    if before != [] { assert before[|before| - 1] == h[|before| - 1]; }
  }

  /** A row posted since the copy stands after the copied part of its history. */
  lemma RowAfterCopy(rows: seq<Row>, seen: nat, j: nat) returns (k: nat)
    requires seen <= j < |rows|
    ensures var at := At(rows[j]);
            var h, before := History(rows, at.0, at.1), History(rows[..seen], at.0, at.1);
            before <= h && |before| <= k < |h| && h[k] == rows[j]
  {
    var at := At(rows[j]);
    var before, newer := History(rows[..seen], at.0, at.1), History(rows[seen..], at.0, at.1);
    assert rows[..seen] + rows[seen..] == rows && rows[j] == rows[seen..][j - seen];
    HistoryConcat(rows[..seen], rows[seen..], at.0, at.1);
    HistoryMembers(rows[seen..], at.0, at.1);
    hide History;
    assert rows[j] in newer;
    var m :| 0 <= m < |newer| && newer[m] == rows[j];
    k := |before| + m;
  }

  // ----- a client over a whole run -----

  datatype Synced = Synced(board: Board, view: View, cursor: nat, seen: nat)

  datatype SyncAction = OnBoard(a: BoardAction) | Poll

  function SyncStep(st: Synced, a: SyncAction, sections: seq<string>): Synced {
    match a
    case OnBoard(b) => st.(board := BoardStep(st.board, b))
    case Poll =>
      var latest := LatestRows(st.board.rows);
      Synced(st.board, Apply(st.view, Delta(latest, sections, st.cursor)),
             Cursor(latest, sections, st.cursor), |st.board.rows|)
  }

  function SyncRun(acts: seq<SyncAction>, sections: seq<string>): Synced {
    if acts == [] then Synced(Board([], []), map[], 0, 0)
    else SyncStep(SyncRun(acts[..|acts| - 1], sections), acts[|acts| - 1], sections)
  }

  /** At each poll of the run, everything new and latest is above the cursor. */
  ghost predicate PollsTimely(acts: seq<SyncAction>, sections: seq<string>) {
    forall n :: 0 <= n < |acts| && acts[n] == Poll ==>
      var st := SyncRun(acts[..n], sections); AllNewer(st.board.rows, st.seen, sections, st.cursor)
  }

  /** After each poll of the run the client holds the latest-per-key blackboard. */
  ghost predicate PollsExact(acts: seq<SyncAction>, sections: seq<string>) {
    forall n :: 0 <= n < |acts| && acts[n] == Poll ==>
      var st := SyncRun(acts[..n + 1], sections); st.view == Replay(st.board.rows, sections)
  }

  ghost predicate SyncInv(st: Synced) {
    BoardInv(st.board) && st.seen <= |st.board.rows|
  }

  /** The copy is the blackboard as of the last poll. */
  ghost predicate InSync(st: Synced, sections: seq<string>)
    requires st.seen <= |st.board.rows|
  {
    st.view == Replay(st.board.rows[..st.seen], sections)
  }

  lemma SyncStepKeepsInv(st: Synced, a: SyncAction, sections: seq<string>)
    requires SyncInv(st)
    ensures SyncInv(SyncStep(st, a, sections))
  {
    if a.OnBoard? {
      BoardStepKeepsInv(st.board, a.a);
      RowsGrow(st.board, a.a);
    }
    hide BoardInv, BoardStep, LatestRows, Delta, Apply, Cursor;
  }

  lemma RowsGrow(b: Board, a: BoardAction)
    ensures b.rows <= BoardStep(b, a).rows
  {
    hide Duplicates, MaxVersion;
  }

  lemma {:induction false} SyncRunKeepsInv(acts: seq<SyncAction>, sections: seq<string>)
    ensures SyncInv(SyncRun(acts, sections))
  {
    hide SyncStep;
    if acts == [] {
      VersionsAreGapless([]);
    } else {
      SyncRunKeepsInv(acts[..|acts| - 1], sections);
      hide SyncInv;
      SyncStepKeepsInv(SyncRun(acts[..|acts| - 1], sections), acts[|acts| - 1], sections);
    }
  }

  /** A post does not change what the copy is measured against. */
  lemma PostLeavesSync(st: Synced, b: BoardAction, sections: seq<string>)
    requires SyncInv(st)
    ensures var now := SyncStep(st, OnBoard(b), sections);
            now.seen <= |now.board.rows| && (InSync(now, sections) <==> InSync(st, sections))
  {
    RowsGrow(st.board, b);
    var now := SyncStep(st, OnBoard(b), sections);
    assert now.board.rows[..st.seen] == st.board.rows[..st.seen];
    hide Replay, BoardStep, BoardInv;
  }

  /** A poll of an exact copy is exact exactly when everything new is timely. */
  lemma PollIsTimelyIff(st: Synced, sections: seq<string>)
    requires SyncInv(st) && InSync(st, sections)
    ensures var now := SyncStep(st, Poll, sections);
            && now.seen == |now.board.rows| && now.board == st.board
            && (InSync(now, sections) <==> AllNewer(st.board.rows, st.seen, sections, st.cursor))
            && (InSync(now, sections) <==> now.view == Replay(now.board.rows, sections))
  {
    PollIsExactIff(st.board.rows, st.seen, sections, st.cursor);
    hide Replay, LatestRows, Delta, Apply, Cursor, AllNewer, Numbered;
    assert st.board.rows[..|st.board.rows|] == st.board.rows;
  }

  /** In every run the polls are all exact exactly when they are all timely; and
      then the copy is always the blackboard as of the last poll. */
  lemma {:induction false} EveryPollIsExactIff(acts: seq<SyncAction>, sections: seq<string>)
    ensures PollsExact(acts, sections) <==> PollsTimely(acts, sections)
    ensures SyncRun(acts, sections).seen <= |SyncRun(acts, sections).board.rows|
    ensures PollsTimely(acts, sections) ==> InSync(SyncRun(acts, sections), sections)
  {
    SyncRunKeepsInv(acts, sections);
    if acts == [] {
      var none: seq<Row> := [];
      assert none[..0] == none;
      ReplayNothing(sections);
    } else {
      var before, a := acts[..|acts| - 1], acts[|acts| - 1];
      var st := SyncRun(before, sections);
      EveryPollIsExactIff(before, sections);
      SyncRunKeepsInv(before, sections);
      assert SyncRun(acts, sections) == SyncStep(st, a, sections);
      TimelySnoc(acts, sections);
      ExactSnoc(acts, sections);
      hide SyncRun, PollsTimely, PollsExact;
      if a.OnBoard? {
        PostLeavesSync(st, a.a, sections);
      } else if InSync(st, sections) {
        PollIsTimelyIff(st, sections);
      }
      hide SyncStep, InSync, SyncInv;
    }
  }

  lemma Prefixes(acts: seq<SyncAction>)
    requires acts != []
    ensures var before := acts[..|acts| - 1];
            && acts[..|acts|] == acts
            && forall n {:trigger before[n]} {:trigger acts[n]} :: 0 <= n < |before| ==>
                 before[n] == acts[n] && before[..n] == acts[..n] && before[..n + 1] == acts[..n + 1]
  {
  }

  lemma TimelySnoc(acts: seq<SyncAction>, sections: seq<string>)
    requires acts != []
    ensures var before, st := acts[..|acts| - 1], SyncRun(acts[..|acts| - 1], sections);
            && (PollsTimely(acts, sections) <==>
                  PollsTimely(before, sections)
                  && (acts[|acts| - 1] == Poll ==> AllNewer(st.board.rows, st.seen, sections, st.cursor)))
  {
    hide SyncRun, AllNewer;
    Prefixes(acts);
  }

  lemma ExactSnoc(acts: seq<SyncAction>, sections: seq<string>)
    requires acts != []
    ensures var before, now := acts[..|acts| - 1], SyncRun(acts, sections);
            && (PollsExact(acts, sections) <==>
                  PollsExact(before, sections)
                  && (acts[|acts| - 1] == Poll ==> now.view == Replay(now.board.rows, sections)))
  {
    hide SyncRun, Replay;
    Prefixes(acts);
  }

  lemma ReplayNothing(sections: seq<string>)
    ensures Replay([], sections) == map[]
  {
  }

  /** After the last poll of a run whose polls are timely, the client holds
      exactly the latest-per-key blackboard of its sections. */
  lemma ClientHoldsLatest(acts: seq<SyncAction>, sections: seq<string>)
    requires acts != [] && acts[|acts| - 1] == Poll && PollsTimely(acts, sections)
    ensures var st := SyncRun(acts, sections); st.view == Replay(st.board.rows, sections)
  {
    EveryPollIsExactIff(acts, sections);
    hide SyncRun, Replay;
    assert acts[..|acts| - 1 + 1] == acts;
  }

  // A condition on posts alone that is enough.

  /** The step inserts a row: it is neither finished already nor refused. */
  predicate Adds(b: Board, a: BoardAction) {
    a.InsertRow? && a.p < |b.posts| && !b.posts[a.p].finished && Insert(b.rows, b.posts[a.p].row).Some?
  }

  ghost predicate Fresh(r: Row, sections: seq<string>, cursor: nat) {
    InScope(r, sections) ==> cursor == 0 || r.createdAt > cursor
  }

  /** Every row that gets in is stamped later than the cursor of the last poll. */
  ghost predicate Timely(acts: seq<SyncAction>, sections: seq<string>) {
    forall n :: 0 <= n < |acts| ==>
      var st := SyncRun(acts[..n], sections);
      acts[n].OnBoard? && Adds(st.board, acts[n].a) ==>
        Fresh(st.board.posts[acts[n].a.p].row, sections, st.cursor)
  }

  ghost predicate AllFresh(st: Synced, sections: seq<string>) {
    st.seen <= |st.board.rows| && forall j :: st.seen <= j < |st.board.rows| ==> Fresh(st.board.rows[j], sections, st.cursor)
  }

  lemma FreshStep(st: Synced, a: SyncAction, sections: seq<string>)
    requires AllFresh(st, sections)
    requires a.OnBoard? && Adds(st.board, a.a) ==> Fresh(st.board.posts[a.a.p].row, sections, st.cursor)
    ensures AllFresh(SyncStep(st, a, sections), sections)
  {
    hide Fresh, Duplicates, MaxVersion, LatestRows, Delta, Apply, Cursor;
  }

  lemma {:induction false} TimelyIsEnough(acts: seq<SyncAction>, sections: seq<string>)
    requires Timely(acts, sections)
    ensures PollsTimely(acts, sections) && AllFresh(SyncRun(acts, sections), sections)
  {
    hide AllFresh, SyncStep, PollsTimely;
    if acts == [] {
      NothingIsStale(sections);
    } else {
      var before, a := acts[..|acts| - 1], acts[|acts| - 1];
      forall n | 0 <= n < |before| ensures before[n] == acts[n] && before[..n] == acts[..n] {}
      TimelyIsEnough(before, sections);
      TimelySnoc(acts, sections);
      FreshStep(SyncRun(before, sections), a, sections);
      FreshIsNewer(SyncRun(before, sections), sections);
      hide SyncRun, Timely;
    }
  }

  lemma NothingIsStale(sections: seq<string>)
    ensures PollsTimely([], sections) && AllFresh(SyncRun([], sections), sections)
  {
  }

  lemma FreshIsNewer(st: Synced, sections: seq<string>)
    requires AllFresh(st, sections)
    ensures AllNewer(st.board.rows, st.seen, sections, st.cursor)
  {
    forall j | NewLatest(st.board.rows, st.seen, sections, j)
      ensures st.cursor == 0 || st.board.rows[j].createdAt > st.cursor
    {
      assert Fresh(st.board.rows[j], sections, st.cursor);
    }
  }

  // ----- the table as an object -----

  class Table {
    var rows: seq<Row>

    constructor ()
      ensures rows == []
    {
      rows := [];
    }

    method NextVersion(section: string, key: string) returns (v: nat)
      ensures v == MaxVersion(rows, section, key) + 1
    {
      v := 0;
      for k := 0 to |rows|
        invariant v == MaxVersion(rows[..k], section, key)
      {
        assert rows[..k + 1][..k] == rows[..k];
        if IsFor(rows[k], section, key) && rows[k].version > v {
          v := rows[k].version;
        }
      }
      assert rows[..|rows|] == rows;
      v := v + 1;
    }

    /** The insert under the write lock; a duplicate version raises.  With
        versions that were read from this table, exactly the stale ones do, and
        the numbering of every key stays gapless. */
    method InsertEntry(r: Row) returns (ok: bool)
      modifies this
      ensures rows == if ok then old(rows) + [r] else old(rows)
      ensures ok == Insert(old(rows), r).Some?
      ensures Numbered(old(rows)) && Proposable(old(rows), r) ==>
                Numbered(rows) && (ok <==> r.version == MaxVersion(old(rows), r.section, r.key) + 1)
    {
      ok := !Duplicates(rows, r);
      if Numbered(rows) && Proposable(rows, r) {
        InsertIsNext(rows, r);
      }
      hide Numbered, Duplicates, MaxVersion;
      if ok {
        rows := rows + [r];
      }
    }

    /** A post that no other post interrupts always gets in, as the next version
        of its key and the last row of its history. */
    method PostBlackboard(draft: Row) returns (r: Row)
      requires Numbered(rows)
      modifies this
      ensures Numbered(rows) && rows == old(rows) + [r] && r == draft.(version := r.version)
      ensures History(rows, r.section, r.key) == History(old(rows), r.section, r.key) + [r]
      ensures r.version == |History(rows, r.section, r.key)|
    {
      assert NumberedKey(rows, draft.section, draft.key);
      HistorySnoc(rows, draft, draft.section, draft.key);
      var v := NextVersion(draft.section, draft.key);
      r := draft.(version := v);
      HistorySnoc(rows, r, r.section, r.key);
      InsertIsNext(rows, r);
      hide History, MaxVersion, Numbered, NumberedKey, Duplicates, Insert;
      var ok := InsertEntry(r);
    }

    /** The blackboard loop of the context reply. */
    method ContextDelta(latest: seq<Row>, sections: seq<string>, since: nat)
      returns (delta: seq<Row>, cursor: nat)
      ensures delta == Delta(latest, sections, since) && cursor == Cursor(latest, sections, since)
    {
      delta, cursor := [], since;
      for k := 0 to |latest|
        invariant delta == Delta(latest[..k], sections, since)
        invariant cursor == Cursor(latest[..k], sections, since)
      {
        assert latest[..k + 1][..k] == latest[..k];
        var r := latest[k];
        if sections != [] && r.section !in sections && r.section != "event" { continue; }
        if r.section == "event" { continue; }
        if since != 0 && r.createdAt <= since { continue; }
        if r.createdAt > cursor {
          cursor := r.createdAt;
        }
        delta := delta + [r];
      }
      assert latest[..|latest|] == latest;
    }
  }
}
