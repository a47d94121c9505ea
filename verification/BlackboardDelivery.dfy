/** What a polling client is sent and which posts get in, without the table's own
    loops: the rows of a delta, the cursor over a whole run, and racing posts. */
module BlackboardDelivery {
  import opened PyText
  import opened Blackboard

  // ----- the rows of one reply -----

  lemma {:induction false} MaxVersionIsMax(rows: seq<Row>, section: string, key: string)
    ensures forall r :: r in rows && IsFor(r, section, key) ==> r.version <= MaxVersion(rows, section, key)
    ensures MaxVersion(rows, section, key) == 0
         || exists r :: r in rows && IsFor(r, section, key) && r.version == MaxVersion(rows, section, key)
  {
    if rows != [] {
      var before, last := rows[..|rows| - 1], rows[|rows| - 1];
      MaxVersionIsMax(before, section, key);
      assert forall r :: r in rows <==> r in before || r == last;
    }
  }

  lemma {:induction false} SelectedIff(part: seq<Row>, rows: seq<Row>, r: Row)
    ensures r in SelectLatest(part, rows) <==> r in part && r.version == MaxVersion(rows, r.section, r.key)
  {
    if part != [] {
      SelectedIff(part[..|part| - 1], rows, r);
      assert forall x :: x in part <==> x in part[..|part| - 1] || x == part[|part| - 1];
    }
  }

  /** A row is in the latest-per-key result exactly when no row of its key has a
      higher version. */
  lemma LatestIff(rows: seq<Row>, r: Row)
    ensures r in LatestRows(rows)
       <==> r in rows && forall q :: q in rows && IsFor(q, r.section, r.key) ==> q.version <= r.version
  {
    SelectedIff(rows, rows, r);
    MaxVersionIsMax(rows, r.section, r.key);
    hide SelectLatest, MaxVersion;
  }

  /** A row is sent exactly when it is no event, its section was asked for, and,
      with a cursor, it is stamped later. */
  lemma {:induction false} DeltaIff(latest: seq<Row>, sections: seq<string>, since: nat, r: Row)
    ensures r in Delta(latest, sections, since)
       <==> r in latest && r.section != "event" && (sections == [] || r.section in sections)
            && (since == 0 || r.createdAt > since)
  {
    if latest != [] {
      DeltaIff(latest[..|latest| - 1], sections, since, r);
      assert forall x :: x in latest <==> x in latest[..|latest| - 1] || x == latest[|latest| - 1];
    }
  }

  lemma {:induction false} DeltaConcat(a: seq<Row>, b: seq<Row>, sections: seq<string>, since: nat)
    ensures Delta(a + b, sections, since) == Delta(a, sections, since) + Delta(b, sections, since)
    decreases |b|
  {
    if b == [] {
      assert a + b == a;
    } else {
      DeltaConcat(a, b[..|b| - 1], sections, since);
      assert (a + b)[..|a + b| - 1] == a + b[..|b| - 1];
    }
  }

  /** The cursor of a reply is the highest stamp among the rows it sends, or the
      cursor that came in when that is not lower. */
  lemma {:induction false} CursorIsHighestSent(latest: seq<Row>, sections: seq<string>, since: nat)
    ensures var c, sent := Cursor(latest, sections, since), Delta(latest, sections, since);
            && since <= c
            && (forall r :: r in sent ==> r.createdAt <= c)
            && (c == since || exists r :: r in sent && r.createdAt == c)
  {
    if latest != [] {
      var before := latest[..|latest| - 1];
      CursorIsHighestSent(before, sections, since);
      var sent := Delta(latest, sections, since);
      assert forall r :: r in Delta(before, sections, since) ==> r in sent;
      assert forall r :: r in sent ==> r in Delta(before, sections, since) || r == latest[|latest| - 1];
      assert Sent(latest[|latest| - 1], sections, since) ==> latest[|latest| - 1] in sent;
    }
  }

  // ----- the client over a run -----

  /** All rows that the polls of a run have sent, in order. */
  ghost function SentSoFar(acts: seq<SyncAction>, sections: seq<string>): seq<Row> {
    if acts == [] then []
    else
      var st := SyncRun(acts[..|acts| - 1], sections);
      SentSoFar(acts[..|acts| - 1], sections)
      + (if acts[|acts| - 1] == Poll then Delta(LatestRows(st.board.rows), sections, st.cursor) else [])
  }

  /** The cursor after any run is the highest stamp that was ever sent. */
  lemma {:induction false} CursorTracksSent(acts: seq<SyncAction>, sections: seq<string>)
    ensures var st, sent := SyncRun(acts, sections), SentSoFar(acts, sections);
            && (forall r :: r in sent ==> r.createdAt <= st.cursor)
            && (st.cursor == 0 || exists r :: r in sent && r.createdAt == st.cursor)
  {
    hide Delta, Cursor, LatestRows, BoardStep, Apply;
    if acts != [] {
      var before := acts[..|acts| - 1];
      CursorTracksSent(before, sections);
      var st := SyncRun(before, sections);
      var latest := LatestRows(st.board.rows);
      CursorIsHighestSent(latest, sections, st.cursor);
      SentSnoc(SentSoFar(before, sections), Delta(latest, sections, st.cursor));
      assert SentSoFar(before, sections) + [] == SentSoFar(before, sections);
    }
  }

  lemma SentSnoc(a: seq<Row>, b: seq<Row>)
    ensures forall r :: r in a + b <==> r in a || r in b
  {
  }

  /** Which of the latest rows the next poll of a run sends: those in scope that
      are stamped later than everything sent so far (all of them as long as
      nothing with a stamp was sent). */
  lemma {:induction false} NextPollSendsIff(acts: seq<SyncAction>, sections: seq<string>, r: Row)
    ensures var st, sent := SyncRun(acts, sections), SentSoFar(acts, sections);
            r in Delta(LatestRows(st.board.rows), sections, st.cursor)
            <==> r in LatestRows(st.board.rows)
                 && r.section != "event" && (sections == [] || r.section in sections)
                 && ((forall q :: q in sent ==> q.createdAt == 0)
                     || forall q :: q in sent ==> q.createdAt < r.createdAt)
  {
    hide SyncRun, SentSoFar, Delta, LatestRows;
    CursorTracksSent(acts, sections);
    DeltaIff(LatestRows(SyncRun(acts, sections).board.rows), sections, SyncRun(acts, sections).cursor, r);
  }

  /** Polling again with nothing posted in between sends nothing, unless no row
      with a stamp was ever sent. */
  lemma {:induction false} RepeatedPollIsEmpty(latest: seq<Row>, sections: seq<string>, since: nat)
    ensures var c := Cursor(latest, sections, since);
            && (c != 0 ==> Delta(latest, sections, c) == [] && Cursor(latest, sections, c) == c)
            && (c == 0 ==> Delta(latest, sections, c) == Delta(latest, sections, since))
  {
    var c := Cursor(latest, sections, since);
    var again := Delta(latest, sections, c);
    CursorIsHighestSent(latest, sections, since);
    CursorIsHighestSent(latest, sections, c);
    forall r ensures r in again <==> r in latest && InScope(r, sections) && (c == 0 || r.createdAt > c) {
      DeltaIff(latest, sections, c, r);
    }
    forall r ensures r in Delta(latest, sections, since)
                <==> r in latest && InScope(r, sections) && (since == 0 || r.createdAt > since) {
      DeltaIff(latest, sections, since, r);
    }
    hide Delta, Cursor;
    assert again != [] ==> again[0] in again;
  }

  // ----- racing posts -----

  lemma {:induction false} PostIsKept(acts: seq<BoardAction>, more: seq<BoardAction>, p: nat)
    requires p < |BoardRun(acts).posts|
    ensures var now := BoardRun(acts + more);
            p < |now.posts| && now.posts[p].row == BoardRun(acts).posts[p].row
    ensures BoardRun(acts).rows <= BoardRun(acts + more).rows
    decreases |more|
  {
    hide Duplicates, MaxVersion;
    if more == [] {
      assert acts + more == acts;
    } else {
      var before := more[..|more| - 1];
      PostIsKept(acts, before, p);
      assert (acts + more)[..|acts + more| - 1] == acts + before;
      RowsGrow(BoardRun(acts + before), more[|more| - 1]);
    }
  }

  /** A post that read its version gets in if and only if no other post of its
      key got in since, whatever else happened in between; it is then the next
      version and the last row of its key's history. */
  lemma {:induction false} PostGetsInIff(acts: seq<BoardAction>, draft: Row, more: seq<BoardAction>)
    requires var p := |BoardRun(acts).posts|;
             var now := BoardRun(acts + [ReadMax(draft)] + more);
             p < |now.posts| && !now.posts[p].finished
    ensures var was, now := BoardRun(acts), BoardRun(acts + [ReadMax(draft)] + more);
            var h := History(now.rows, draft.section, draft.key);
            BoardStep(now, InsertRow(|was.posts|)).rows
              == if h == History(was.rows, draft.section, draft.key)
                 then now.rows + [draft.(version := |h| + 1)] else now.rows
  {
    var was := BoardRun(acts);
    var p := |was.posts|;
    var read := acts + [ReadMax(draft)];
    var now := BoardRun(read + more);
    VersionsAreGapless(acts);
    VersionsAreGapless(read + more);
    assert read[..|acts|] == acts;
    assert BoardRun(read) == BoardStep(was, ReadMax(draft));
    PostIsKept(read, more, p);
    hide BoardRun, Numbered, BoardStep, MaxVersion, History;
    ReadMaxRow(was, draft);
    PostOutcome(was.rows, now, p, draft);
  }

  lemma PostOutcome(rows: seq<Row>, b: Board, p: nat, draft: Row)
    requires Numbered(rows) && BoardInv(b) && rows <= b.rows
    requires p < |b.posts| && !b.posts[p].finished
    requires b.posts[p].row == draft.(version := |History(rows, draft.section, draft.key)| + 1)
    ensures var h := History(b.rows, draft.section, draft.key);
            BoardStep(b, InsertRow(p)).rows
              == if h == History(rows, draft.section, draft.key)
                 then b.rows + [draft.(version := |h| + 1)] else b.rows
  {
    var r := b.posts[p].row;
    assert Proposable(b.rows, r) && Numbered(b.rows);
    hide BoardInv, Insert;
    InsertOutcome(b, p);
    InsertIsNext(b.rows, r);
    assert NumberedKey(b.rows, draft.section, draft.key);
    HistoryOfPrefix(rows, b.rows, draft.section, draft.key);
    hide BoardStep, MaxVersion, History, Duplicates, Numbered, NumberedKey;
    assert Duplicates(b.rows, r) <==> r.version <= |History(b.rows, draft.section, draft.key)|;
  }

  /** From post to client: after any run, a post in scope that no other post
      interrupts, stamped later than everything the client was sent, is what the
      client holds at its key after the next poll. */
  lemma {:induction false} PostReachesClient(acts: seq<SyncAction>, sections: seq<string>, draft: Row)
    requires draft.section != "event" && (sections == [] || draft.section in sections)
    requires forall q :: q in SentSoFar(acts, sections) ==> q.createdAt < draft.createdAt
    ensures var st := SyncRun(acts, sections);
            var row := draft.(version := |History(st.board.rows, draft.section, draft.key)| + 1);
            var post := [OnBoard(ReadMax(draft)), OnBoard(InsertRow(|st.board.posts|)), Poll];
            var view := SyncRun(acts + post, sections).view;
            (draft.section, draft.key) in view && view[(draft.section, draft.key)] == row
  {
    hide SyncRun, SyncStep, BoardStep, BoardInv, SentSoFar, History, Apply;
    var st := SyncRun(acts, sections);
    var p := |st.board.posts|;
    SyncRunKeepsInv(acts, sections);
    RunThree(acts, OnBoard(ReadMax(draft)), OnBoard(InsertRow(p)), Poll, sections);
    PostedBoard(st.board, draft);
    var read := BoardStep(st.board, ReadMax(draft));
    PostThenPoll(st, ReadMax(draft), InsertRow(p), sections);
    CursorTracksSent(acts, sections);
    var row := draft.(version := |History(st.board.rows, draft.section, draft.key)| + 1);
    LatestIsPolled(st.view, st.board.rows + [row], row, sections, st.cursor);
  }

  lemma PostedBoard(b: Board, draft: Row)
    requires BoardInv(b)
    ensures var row := draft.(version := |History(b.rows, draft.section, draft.key)| + 1);
            var rows := b.rows + [row];
            var h := History(rows, draft.section, draft.key);
            && BoardStep(BoardStep(b, ReadMax(draft)), InsertRow(|b.posts|)).rows == rows
            && Numbered(rows) && h != [] && h[|h| - 1] == row
  {
    var p, read := |b.posts|, BoardStep(b, ReadMax(draft));
    var row := draft.(version := |History(b.rows, draft.section, draft.key)| + 1);
    BoardStepKeepsInv(b, ReadMax(draft));
    BoardStepKeepsInv(read, InsertRow(p));
    ReadMaxRow(b, draft);
    HistorySnoc(b.rows, row, draft.section, draft.key);
    hide BoardStep, History, MaxVersion, Numbered;
    PostOutcome(b.rows, read, p, draft);
  }

  lemma PostThenPoll(st: Synced, a: BoardAction, b: BoardAction, sections: seq<string>)
    ensures var board := BoardStep(BoardStep(st.board, a), b);
            SyncStep(SyncStep(SyncStep(st, OnBoard(a), sections), OnBoard(b), sections), Poll, sections).view
              == Apply(st.view, Delta(LatestRows(board.rows), sections, st.cursor))
  {
    hide BoardStep, LatestRows, Delta, Apply, Cursor;
  }

  /** A poll brings the last row of a key, if it is sent at all. */
  lemma LatestIsPolled(view: View, rows: seq<Row>, row: Row, sections: seq<string>, since: nat)
    requires Numbered(rows) && Sent(row, sections, since)
    requires var h := History(rows, row.section, row.key); h != [] && h[|h| - 1] == row
    ensures var now := Apply(view, Delta(LatestRows(rows), sections, since));
            At(row) in now && now[At(row)] == row
  {
    hide Numbered, LatestRows, Delta, Apply, History;
    PolledAt(view, rows, sections, since, At(row));
  }

  lemma RunThree(acts: seq<SyncAction>, a: SyncAction, b: SyncAction, c: SyncAction, sections: seq<string>)
    ensures SyncRun(acts + [a, b, c], sections)
         == SyncStep(SyncStep(SyncStep(SyncRun(acts, sections), a, sections), b, sections), c, sections)
  {
    hide SyncStep, SyncRun;
    RunOne(acts, a, sections);
    RunOne(acts + [a], b, sections);
    RunOne(acts + [a] + [b], c, sections);
    assert acts + [a, b, c] == acts + [a] + [b] + [c];
  }

  lemma RunOne(acts: seq<SyncAction>, a: SyncAction, sections: seq<string>)
    ensures SyncRun(acts + [a], sections) == SyncStep(SyncRun(acts, sections), a, sections)
  {
    hide SyncStep;
    assert (acts + [a])[..|acts|] == acts;
  }

  lemma ReadMaxRow(b: Board, draft: Row)
    requires Numbered(b.rows)
    ensures var now := BoardStep(b, ReadMax(draft));
            && |now.posts| == |b.posts| + 1 && now.rows == b.rows
            && now.posts[|b.posts|] == Post(draft.(version := |History(b.rows, draft.section, draft.key)| + 1), false)
  {
    assert NumberedKey(b.rows, draft.section, draft.key);
  }

  lemma InsertOutcome(b: Board, p: nat)
    requires p < |b.posts| && !b.posts[p].finished
    ensures var r := b.posts[p].row;
            BoardStep(b, InsertRow(p)).rows == if Duplicates(b.rows, r) then b.rows else b.rows + [r]
    ensures BoardStep(b, InsertRow(p)).posts[p].finished
  {
  }

  lemma HistoryOfPrefix(a: seq<Row>, b: seq<Row>, section: string, key: string)
    requires a <= b
    ensures History(a, section, key) <= History(b, section, key)
    ensures |History(a, section, key)| == |History(b, section, key)| ==>
              History(a, section, key) == History(b, section, key)
  {
    assert b == a + b[|a|..];
    HistoryConcat(a, b[|a|..], section, key);
    hide History;
    assert History(a, section, key) + [] == History(a, section, key);
  }
}
