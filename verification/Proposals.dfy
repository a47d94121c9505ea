/** Proposals and their commits on the blackboard.  A commit checks the status,
    posts an entry (read the version, insert, mirror to disk) and then marks the
    proposal; other posts and rejections may fall between its steps. */
module Proposals {
  import opened PyText
  import opened Blackboard

  datatype Status = Pending | Committed | Rejected

  /** `resolver` is the agent that committed or rejected it. */
  datatype Proposal = Proposal(proposer: string, section: string, key: string, value: string,
                               status: Status, resolver: Option<string>)

  datatype Stage = Checked | HasVersion(row: Row) | Inserted

  datatype Commit = Commit(pid: nat, committer: string, stage: Stage)

  /** `commits` are under way; `unmirrored` are the proposals of which a commit
      raised at the mirror, after its insert. */
  datatype State = State(rows: seq<Row>, proposals: seq<Proposal>, commits: seq<Commit>, unmirrored: set<nat>)

  datatype Action =
    | Create(proposer: string, section: string, key: string, value: string)
    | OtherPost(row: Row)                 // an insert that belongs to no proposal
    | Reject(pid: nat, committer: string)
    | Begin(pid: nat, committer: string)  // the status check of a commit
    | ReadVersion(c: nat, now: nat)
    | InsertEntry(c: nat)
    | MirrorAndMark(c: nat, written: bool)  // `written`: the file system accepts the mirror's writes

  // ----- the mirror's path check -----

  predicate ComponentChar(c: char) {
    'A' <= c <= 'Z' || 'a' <= c <= 'z' || '0' <= c <= '9' || c == '.' || c == '_' || c == '-'
  }

  lemma ComponentChars(c: char)
    ensures ComponentChar(c)
       <==> c in "ABCDEFGHIJKLMNOPQRSTUVWXYZ" || c in "abcdefghijklmnopqrstuvwxyz" || c in "0123456789._-"
  {
  }

  predicate Component(s: string) {
    s != "" && forall i :: 0 <= i < |s| ==> ComponentChar(s[i])
  }

  /** A section the on-disk mirror accepts as a file name.  The pattern's final
      `$` also lets one trailing newline through. */
  predicate Mirrorable(section: string) {
    && (Component(section)
        || (|section| > 1 && section[|section| - 1] == '\n' && Component(section[..|section| - 1])))
    && forall i :: 0 <= i < |section| - 1 ==> !(section[i] == '.' && section[i + 1] == '.')
  }

  lemma DotDotIff(s: string)
    ensures (exists i :: 0 <= i < |s| - 1 && s[i] == '.' && s[i + 1] == '.')
       <==> exists a: string, b: string :: s == a + (".." + b)
  {
    if i :| 0 <= i < |s| - 1 && s[i] == '.' && s[i + 1] == '.' {
      assert s == s[..i] + (".." + s[i + 2..]);
    }
    if a: string, b: string :| s == a + (".." + b) {
      assert s[|a|] == '.' && s[|a| + 1] == '.';
    }
  }

  lemma MaybeNewline(s: string)
    ensures |s| > 1 && s[|s| - 1] == '\n' && Component(s[..|s| - 1])
       <==> exists t :: Component(t) && s == t + "\n"
  {
    hide Component;
    if |s| > 1 && s[|s| - 1] == '\n' && Component(s[..|s| - 1]) {
      assert s == s[..|s| - 1] + "\n";
    }
    if t :| Component(t) && s == t + "\n" {
      assert s[..|s| - 1] == t;
      assert t != "" by { ComponentIsText(t); }
    }
  }

  lemma ComponentIsText(t: string)
    requires Component(t)
    ensures t != ""
  {
  }

  /** The same as a language: one component of plain characters, maybe a newline,
      and no ".." anywhere in it. */
  lemma MirrorableIff(section: string)
    ensures Mirrorable(section)
       <==> (Component(section) || exists t :: Component(t) && section == t + "\n")
            && !exists a: string, b: string :: section == a + (".." + b)
  {
    DotDotIff(section);
    MaybeNewline(section);
    hide Component;
  }

  // ----- steps -----

  function EntryOf(p: Proposal, pid: nat, committer: string, rows: seq<Row>, now: nat): Row {
    Row(p.section, p.key, p.value, p.proposer, committer, Some(pid), MaxVersion(rows, p.section, p.key) + 1, now)
  }

  function Resolved(p: Proposal, status: Status, resolver: string): Proposal {
    p.(status := status, resolver := Some(resolver))
  }

  function Drop(commits: seq<Commit>, c: nat): seq<Commit>
    requires c < |commits|
  {
    commits[..c] + commits[c + 1..]
  }

  function Step(st: State, a: Action): State {
    match a
    case Create(proposer, section, key, value) =>
      st.(proposals := st.proposals + [Proposal(proposer, section, key, value, Pending, None)])
    case OtherPost(row) =>
      (match Insert(st.rows, row.(proposal := None))
       case Some(rows) => st.(rows := rows)
       case None => st)
    case Reject(pid, committer) =>
      if pid < |st.proposals|
      then st.(proposals := st.proposals[pid := Resolved(st.proposals[pid], Rejected, committer)]) else st
    case Begin(pid, committer) =>
      if pid < |st.proposals| && st.proposals[pid].status == Pending
      then st.(commits := st.commits + [Commit(pid, committer, Checked)]) else st
    case ReadVersion(c, now) =>
      if c < |st.commits| && st.commits[c].stage.Checked? && st.commits[c].pid < |st.proposals| then
        var cm := st.commits[c];
        var row := EntryOf(st.proposals[cm.pid], cm.pid, cm.committer, st.rows, now);
        st.(commits := st.commits[c := cm.(stage := HasVersion(row))])
      else st
    case InsertEntry(c) =>
      if c < |st.commits| && st.commits[c].stage.HasVersion? then
        match Insert(st.rows, st.commits[c].stage.row)
        case Some(rows) => st.(rows := rows, commits := st.commits[c := st.commits[c].(stage := Inserted)])
        case None => st.(commits := Drop(st.commits, c))
      else st
    case MirrorAndMark(c, written) =>
      if c < |st.commits| && st.commits[c].stage.Inserted? && st.commits[c].pid < |st.proposals| then
        var pid := st.commits[c].pid;
        var st1 := st.(commits := Drop(st.commits, c));
        // a section the mirror refuses, or a failing write, makes the commit raise here
        if Mirrorable(st.proposals[pid].section) && written
        then st1.(proposals := st.proposals[pid := Resolved(st.proposals[pid], Committed, st.commits[c].committer)])
        else st1.(unmirrored := st.unmirrored + {pid})
      else st
  }

  const INIT := State([], [], [], {})

  function Run(acts: seq<Action>): State {
    if acts == [] then INIT else Step(Run(acts[..|acts| - 1]), acts[|acts| - 1])
  }

  // ----- at most one entry per proposal -----

  function Entries(rows: seq<Row>, pid: nat): seq<Row> {
    if rows == [] then []
    else
      Entries(rows[..|rows| - 1], pid)
      + (if rows[|rows| - 1].proposal == Some(pid) then [rows[|rows| - 1]] else [])
  }

  predicate EntryMatches(r: Row, p: Proposal) {
    r.section == p.section && r.key == p.key && r.value == p.value && r.author == p.proposer
  }

  ghost predicate Underway(commits: seq<Commit>, pid: nat) {
    exists cm :: cm in commits && cm.pid == pid
  }

  predicate StageOk(cm: Commit, p: Proposal, es: seq<Row>) {
    match cm.stage
    case Checked => es == []
    case HasVersion(row) =>
      es == [] && EntryMatches(row, p) && row.committer == cm.committer && row.proposal == Some(cm.pid)
    case Inserted => |es| == 1 && es[0].committer == cm.committer
  }

  /** Where a proposal stands whose commits never raised at the mirror. */
  ghost predicate Settled(p: Proposal, pid: nat, es: seq<Row>, commits: seq<Commit>) {
    && |es| <= 1
    && (forall k :: 0 <= k < |es| ==> EntryMatches(es[k], p))
    && (p.status == Committed ==> |es| == 1 && p.resolver == Some(es[0].committer) && !Underway(commits, pid))
    && (p.status == Pending && !Underway(commits, pid) ==> es == [])
    && forall cm :: cm in commits && cm.pid == pid ==> StageOk(cm, p, es)
  }

  ghost predicate ProposalOk(st: State, pid: nat)
    requires pid < |st.proposals|
  {
    pid !in st.unmirrored ==> Settled(st.proposals[pid], pid, Entries(st.rows, pid), st.commits)
  }

  ghost predicate DistinctPids(commits: seq<Commit>) {
    forall c, d :: 0 <= c < d < |commits| ==> commits[c].pid != commits[d].pid
  }

  ghost predicate CommitsOk(st: State) {
    && DistinctPids(st.commits)
    && forall cm :: cm in st.commits ==>
         cm.pid < |st.proposals| && (cm.stage.HasVersion? ==> cm.stage.row.proposal == Some(cm.pid))
  }

  ghost predicate Inv(st: State) {
    && CommitsOk(st)
    && (forall r :: r in st.rows && r.proposal.Some? ==> r.proposal.value < |st.proposals|)
    && forall pid :: 0 <= pid < |st.proposals| ==> ProposalOk(st, pid)
  }

  lemma EntriesSnoc(rows: seq<Row>, r: Row, pid: nat)
    ensures Entries(rows + [r], pid) == Entries(rows, pid) + (if r.proposal == Some(pid) then [r] else [])
  {
    assert (rows + [r])[..|rows|] == rows;
  }

  lemma {:induction false} NoEntries(rows: seq<Row>, pid: nat)
    requires forall r :: r in rows ==> r.proposal != Some(pid)
    ensures Entries(rows, pid) == []
  {
    if rows != [] {
      assert forall r :: r in rows[..|rows| - 1] ==> r in rows;
      assert rows[|rows| - 1] in rows;
      NoEntries(rows[..|rows| - 1], pid);
    }
  }

  /** In this run a commit of a proposal only begins when no other one of the same
      proposal is under way. */
  ghost predicate NoOverlap(acts: seq<Action>) {
    forall n :: 0 <= n < |acts| && acts[n].Begin? ==> !Underway(Run(acts[..n]).commits, acts[n].pid)
  }

  // ----- one commit among several -----

  lemma DropMembers(commits: seq<Commit>, c: nat)
    requires c < |commits| && DistinctPids(commits)
    ensures DistinctPids(Drop(commits, c))
    ensures forall cm :: cm in Drop(commits, c) <==> cm in commits && cm.pid != commits[c].pid
  {
    var now := Drop(commits, c);
    assert forall d :: 0 <= d < |now| ==> now[d] == commits[if d < c then d else d + 1];
    forall cm | cm in commits && cm.pid != commits[c].pid ensures cm in now {
      var d :| 0 <= d < |commits| && commits[d] == cm;
      assert cm == now[if d < c then d else d - 1];
    }
  }

  lemma ChangeMembers(commits: seq<Commit>, c: nat, cm: Commit)
    requires c < |commits| && DistinctPids(commits) && cm.pid == commits[c].pid
    ensures DistinctPids(commits[c := cm])
    ensures forall x :: x in commits[c := cm] <==> x == cm || (x in commits && x.pid != cm.pid)
  {
    var now := commits[c := cm];
    forall x | x in commits && x.pid != cm.pid ensures x in now {
      var d :| 0 <= d < |commits| && commits[d] == x;
      assert x == now[d];
    }
    assert now[c] == cm;
  }

  lemma AddMember(commits: seq<Commit>, cm: Commit)
    requires DistinctPids(commits) && !Underway(commits, cm.pid)
    ensures DistinctPids(commits + [cm])
    ensures forall x :: x in commits + [cm] <==> x == cm || x in commits
  {
    assert forall c :: 0 <= c < |commits| ==> commits[c] in commits;
  }

  /** The commits of one proposal are what its state depends on. */
  lemma SameCommits(p: Proposal, pid: nat, es: seq<Row>, was: seq<Commit>, now: seq<Commit>)
    requires Settled(p, pid, es, was)
    requires forall cm :: cm in now && cm.pid == pid <==> cm in was && cm.pid == pid
    ensures Settled(p, pid, es, now)
  {
    hide StageOk, EntryMatches;
    assert Underway(was, pid) <==> Underway(now, pid);
  }

  /** One commit of the proposal moves to another stage. */
  lemma NextStage(p: Proposal, pid: nat, es: seq<Row>, now: seq<Commit>, cm: Commit)
    requires cm in now && cm.pid == pid && forall x :: x in now && x.pid == pid ==> x == cm
    requires |es| <= 1 && (forall k :: 0 <= k < |es| ==> EntryMatches(es[k], p))
    requires p.status != Committed && StageOk(cm, p, es)
    ensures Settled(p, pid, es, now)
  {
    hide StageOk, EntryMatches;
  }

  lemma BeginKeepsOne(st: State, pid: nat, committer: string, q: nat)
    requires Inv(st) && q < |st.proposals| && !Underway(st.commits, pid)
    ensures ProposalOk(Step(st, Begin(pid, committer)), q)
  {
    assert ProposalOk(st, q);
    var now, cm := Step(st, Begin(pid, committer)), Commit(pid, committer, Checked);
    if now != st && q !in st.unmirrored {
      AddMember(st.commits, cm);
      var es := Entries(st.rows, q);
      hide Entries, Settled, StageOk;
      if q == pid {
        PendingHasNone(st.proposals[q], q, es, st.commits);
        assert StageOk(cm, st.proposals[q], es) by { CheckedFits(cm, st.proposals[q]); }
        NextStage(st.proposals[q], q, es, now.commits, cm);
      } else {
        SameCommits(st.proposals[q], q, es, st.commits, now.commits);
      }
    }
  }

  lemma PendingHasNone(p: Proposal, pid: nat, es: seq<Row>, commits: seq<Commit>)
    requires Settled(p, pid, es, commits) && p.status == Pending && !Underway(commits, pid)
    ensures es == []
  {
  }

  lemma CheckedFits(cm: Commit, p: Proposal)
    requires cm.stage.Checked?
    ensures StageOk(cm, p, [])
  {
  }

  lemma ReadKeepsOne(st: State, c: nat, time: nat, q: nat)
    requires Inv(st) && q < |st.proposals|
    ensures ProposalOk(Step(st, ReadVersion(c, time)), q)
  {
    hide Mirrorable, MaxVersion;
    assert ProposalOk(st, q);
    var now := Step(st, ReadVersion(c, time));
    if now != st && q !in st.unmirrored {
      var p, es, was := st.proposals[q], Entries(st.rows, q), st.commits[c];
      assert was in st.commits;
      ChangeMembers(st.commits, c, now.commits[c]);
      hide Entries;
      if was.pid == q {
        var row := now.commits[c].stage.row;
        assert EntryMatches(row, p) && row.proposal == Some(q) && StageOk(was, p, es);
        NextStage(p, q, es, now.commits, now.commits[c]);
      } else {
        SameCommits(p, q, es, st.commits, now.commits);
      }
    }
  }

  lemma AcceptedKeepsOne(st: State, c: nat, q: nat)
    requires Inv(st) && q < |st.proposals| && c < |st.commits| && st.commits[c].stage.HasVersion?
    requires !Duplicates(st.rows, st.commits[c].stage.row)
    ensures ProposalOk(Step(st, InsertEntry(c)), q)
  {
    hide Duplicates;
    assert ProposalOk(st, q);
    var was := st.commits[c];
    var row, cm := was.stage.row, was.(stage := Inserted);
    var now := Step(st, InsertEntry(c));
    assert was in st.commits;
    assert now == st.(rows := st.rows + [row], commits := st.commits[c := cm]);
    if q !in st.unmirrored {
      var p, es := st.proposals[q], Entries(st.rows, q);
      ChangeMembers(st.commits, c, cm);
      EntriesSnoc(st.rows, row, q);
      hide Entries, Step;
      if was.pid == q {
        assert StageOk(was, p, es) && es == [];
        assert [] + [row] == [row];
        NextStage(p, q, [row], now.commits, cm);
      } else {
        assert row.proposal == Some(was.pid) && es + [] == es;
        SameCommits(p, q, es, st.commits, now.commits);
      }
    }
  }

  lemma RefusedKeepsOne(st: State, c: nat, q: nat)
    requires Inv(st) && q < |st.proposals| && c < |st.commits| && st.commits[c].stage.HasVersion?
    requires Duplicates(st.rows, st.commits[c].stage.row)
    ensures ProposalOk(Step(st, InsertEntry(c)), q)
  {
    hide Duplicates;
    assert ProposalOk(st, q);
    var was, now := st.commits[c], Step(st, InsertEntry(c));
    assert was in st.commits;
    assert now == st.(commits := Drop(st.commits, c));
    if q !in st.unmirrored {
      var p, es := st.proposals[q], Entries(st.rows, q);
      DropMembers(st.commits, c);
      hide Entries, Step, Drop;
      if was.pid == q {
        assert StageOk(was, p, es) && es == [] && Underway(st.commits, q);
        NoneLeft(p, q, now.commits);
      } else {
        SameCommits(p, q, es, st.commits, now.commits);
      }
    }
  }

  lemma NoneLeft(p: Proposal, pid: nat, now: seq<Commit>)
    requires p.status != Committed && forall x :: x in now ==> x.pid != pid
    ensures Settled(p, pid, [], now)
  {
  }

  lemma InsertKeepsOne(st: State, c: nat, q: nat)
    requires Inv(st) && q < |st.proposals|
    ensures ProposalOk(Step(st, InsertEntry(c)), q)
  {
    if c < |st.commits| && st.commits[c].stage.HasVersion? {
      if Duplicates(st.rows, st.commits[c].stage.row) {
        RefusedKeepsOne(st, c, q);
      } else {
        AcceptedKeepsOne(st, c, q);
      }
      hide Step, ProposalOk, Inv, Duplicates;
    } else {
      assert Step(st, InsertEntry(c)) == st;
    }
  }

  lemma MarkKeepsOne(st: State, c: nat, written: bool, q: nat)
    requires Inv(st) && q < |st.proposals|
    ensures ProposalOk(Step(st, MirrorAndMark(c, written)), q)
  {
    hide Mirrorable;
    assert ProposalOk(st, q);
    var now := Step(st, MirrorAndMark(c, written));
    if now != st && q !in now.unmirrored {
      var p, es, was := st.proposals[q], Entries(st.rows, q), st.commits[c];
      assert was in st.commits && now.commits == Drop(st.commits, c) && now.rows == st.rows;
      DropMembers(st.commits, c);
      hide Entries, Drop;
      if was.pid == q {
        assert now.proposals[q] == Resolved(p, Committed, was.committer) && StageOk(was, p, es);
        hide Step;
        MarkedFits(p, q, es, was.committer, now.commits);
      } else {
        assert now.proposals[q] == p;
        hide Step;
        SameCommits(p, q, es, st.commits, now.commits);
      }
    }
  }

  lemma MarkedFits(p: Proposal, pid: nat, es: seq<Row>, committer: string, now: seq<Commit>)
    requires |es| == 1 && EntryMatches(es[0], p) && es[0].committer == committer
    requires forall x :: x in now ==> x.pid != pid
    ensures Settled(Resolved(p, Committed, committer), pid, es, now)
  {
  }

  lemma OtherPostKeepsOne(st: State, row: Row, q: nat)
    requires Inv(st) && q < |st.proposals|
    ensures ProposalOk(Step(st, OtherPost(row)), q)
  {
    hide Duplicates;
    assert ProposalOk(st, q);
    var now, r := Step(st, OtherPost(row)), row.(proposal := None);
    assert now == st || now == st.(rows := st.rows + [r]);
    EntriesSnoc(st.rows, r, q);
    hide Step, Entries, Settled;
    assert Entries(st.rows, q) + [] == Entries(st.rows, q);
  }

  lemma RejectKeepsOne(st: State, pid: nat, committer: string, q: nat)
    requires Inv(st) && q < |st.proposals|
    ensures ProposalOk(Step(st, Reject(pid, committer)), q)
  {
    assert ProposalOk(st, q);
    hide Entries;
    var now := Step(st, Reject(pid, committer));
    if q == pid && q !in st.unmirrored {
      RejectedFits(st.proposals[q], q, committer, Entries(st.rows, q), st.commits);
    }
  }

  lemma RejectedFits(p: Proposal, pid: nat, committer: string, es: seq<Row>, commits: seq<Commit>)
    requires Settled(p, pid, es, commits)
    ensures Settled(Resolved(p, Rejected, committer), pid, es, commits)
  {
    var now := Resolved(p, Rejected, committer);
    forall cm | cm in commits && cm.pid == pid ensures StageOk(cm, now, es) {
      assert StageOk(cm, p, es);
    }
  }

  lemma CreateKeepsOne(st: State, proposer: string, section: string, key: string, value: string, q: nat)
    requires Inv(st) && q <= |st.proposals|
    ensures var now := Step(st, Create(proposer, section, key, value));
            |now.proposals| == |st.proposals| + 1 && ProposalOk(now, q)
  {
    if q < |st.proposals| {
      assert ProposalOk(st, q);
    } else {
      NoEntries(st.rows, q);
    }
    hide Entries;
  }

  lemma StepKeepsOne(st: State, a: Action, q: nat)
    requires Inv(st) && (a.Begin? ==> !Underway(st.commits, a.pid))
    requires q < |Step(st, a).proposals|
    ensures ProposalOk(Step(st, a), q)
  {
    ProposalsGrow(st, a);
    hide Step, Inv, ProposalOk;
    match a
    case Create(proposer, section, key, value) => CreateKeepsOne(st, proposer, section, key, value, q);
    case OtherPost(row) => OtherPostKeepsOne(st, row, q);
    case Reject(pid, committer) => RejectKeepsOne(st, pid, committer, q);
    case Begin(pid, committer) => BeginKeepsOne(st, pid, committer, q);
    case ReadVersion(c, time) => ReadKeepsOne(st, c, time, q);
    case InsertEntry(c) => InsertKeepsOne(st, c, q);
    case MirrorAndMark(c, written) => MarkKeepsOne(st, c, written, q);
  }

  lemma ProposalsGrow(st: State, a: Action)
    ensures |Step(st, a).proposals| == if a.Create? then |st.proposals| + 1 else |st.proposals|
  {
    hide Mirrorable, Insert, EntryOf, Drop;
  }

  lemma StepKeepsCommits(st: State, a: Action)
    requires CommitsOk(st) && (a.Begin? ==> !Underway(st.commits, a.pid))
    ensures CommitsOk(Step(st, a))
  {
    hide Mirrorable, Insert, MaxVersion;
    var now := Step(st, a);
    match a
    case Begin(pid, committer) =>
      AddMember(st.commits, Commit(pid, committer, Checked));
    case ReadVersion(c, _) =>
      if now != st {
        assert st.commits[c] in st.commits;
        ChangeMembers(st.commits, c, now.commits[c]);
      }
    case InsertEntry(c) =>
      if now != st {
        assert st.commits[c] in st.commits;
        DropMembers(st.commits, c);
        ChangeMembers(st.commits, c, st.commits[c].(stage := Inserted));
      }
    case MirrorAndMark(c, _) =>
      if now != st {
        DropMembers(st.commits, c);
      }
    case _ =>
  }

  lemma StepKeepsRows(st: State, a: Action)
    requires CommitsOk(st) && forall r :: r in st.rows && r.proposal.Some? ==> r.proposal.value < |st.proposals|
    ensures var now := Step(st, a);
            forall r :: r in now.rows && r.proposal.Some? ==> r.proposal.value < |now.proposals|
  {
    hide Mirrorable, Duplicates, EntryOf, Drop;
    ProposalsGrow(st, a);
    if a.InsertEntry? && a.c < |st.commits| { assert st.commits[a.c] in st.commits; }
  }

  lemma StepKeepsInv(st: State, a: Action)
    requires Inv(st) && (a.Begin? ==> !Underway(st.commits, a.pid))
    ensures Inv(Step(st, a))
  {
    var now := Step(st, a);
    StepKeepsCommits(st, a);
    StepKeepsRows(st, a);
    forall q | 0 <= q < |now.proposals| ensures ProposalOk(now, q) {
      StepKeepsOne(st, a, q);
    }
    hide Step, ProposalOk, CommitsOk;
  }

  /** In every run in which no two commits of one proposal overlap, each proposal
      whose commits never raised at the mirror has at most one entry ever,
      carrying its own section, key, value and author and the committer of its
      commit; a committed one has exactly one, by the agent it names.  Commits of different proposals may overlap at will. */
  lemma {:induction false} OneEntryPerProposal(acts: seq<Action>)
    requires NoOverlap(acts)
    ensures Inv(Run(acts))
  {
    hide Inv, Step;
    if acts != [] {
      var before := acts[..|acts| - 1];
      forall n | 0 <= n < |before| ensures before[n] == acts[n] && before[..n] == acts[..n] {}
      OneEntryPerProposal(before);
      StepKeepsInv(Run(before), acts[|acts| - 1]);
    } else {
      NothingProposed();
    }
  }

  lemma NothingProposed()
    ensures Inv(INIT)
  {
  }

  /** A resolved proposal never becomes pending again, whatever overlaps. */
  lemma ResolvedStaysResolved(st: State, a: Action, pid: nat)
    requires pid < |st.proposals| && st.proposals[pid].status != Pending
    ensures pid < |Step(st, a).proposals| && Step(st, a).proposals[pid].status != Pending
    ensures var now := Step(st, a).proposals[pid];
            now == st.proposals[pid].(status := now.status, resolver := now.resolver)
  {
    hide Mirrorable, Insert, EntryOf;
  }

  // ----- one commit with nothing in between -----

  function CommitAlone(st: State, pid: nat, committer: string, now: nat, written: bool): State {
    var c := |st.commits|;
    Step(Step(Step(Step(st, Begin(pid, committer)), ReadVersion(c, now)), InsertEntry(c)), MirrorAndMark(c, written))
  }

  /** An undisturbed commit that does not end in `Committed` has changed nothing
      exactly when the proposal was not pending; when it was, the entry is in
      the table although the commit raised, because the mirror refuses the
      section, or a write fails, only after the insert. */
  lemma FailedCommitLeavesEntryIff(st: State, pid: nat, committer: string, now: nat, written: bool)
    requires Numbered(st.rows) && pid < |st.proposals| && st.commits == []
    ensures var p, end := st.proposals[pid], CommitAlone(st, pid, committer, now, written);
            var version := |History(st.rows, p.section, p.key)| + 1;
            var entry := Row(p.section, p.key, p.value, p.proposer, committer, Some(pid), version, now);
            && entry == EntryOf(p, pid, committer, st.rows, now)
            && (p.status != Pending ==> end == st)
            && (p.status == Pending && Mirrorable(p.section) && written ==>
                  end == st.(rows := st.rows + [entry],
                             proposals := st.proposals[pid := p.(status := Committed, resolver := Some(committer))]))
            && (p.status == Pending && !(Mirrorable(p.section) && written) ==>
                  end == st.(rows := st.rows + [entry], unmirrored := st.unmirrored + {pid}))
  {
    var p := st.proposals[pid];
    assert NumberedKey(st.rows, p.section, p.key);
    if p.status == Pending {
      var entry := EntryOf(p, pid, committer, st.rows, now);
      InsertIsNext(st.rows, entry);
      hide Mirrorable, Numbered, MaxVersion, Duplicates, History;
      var cm := Commit(pid, committer, Checked);
      var st1 := Step(st, Begin(pid, committer));
      assert st1 == st.(commits := [cm]);
      var st2 := Step(st1, ReadVersion(0, now));
      assert st2 == st.(commits := [cm.(stage := HasVersion(entry))]);
      var st3 := Step(st2, InsertEntry(0));
      assert st3 == st.(rows := st.rows + [entry], commits := [cm.(stage := Inserted)]);
      assert Drop(st3.commits, 0) == [];
    }
  }

  /** Repeating such a commit duplicates the entry. */
  lemma {:induction false} RetryDuplicatesEntry(st: State, pid: nat, committer: string, now: nat, written: bool)
    requires Numbered(st.rows) && pid < |st.proposals| && st.commits == []
    requires st.proposals[pid].status == Pending && !(Mirrorable(st.proposals[pid].section) && written)
    ensures var once := CommitAlone(st, pid, committer, now, written);
            && once.rows == st.rows + [EntryOf(st.proposals[pid], pid, committer, st.rows, now)]
            && once.proposals == st.proposals
            && |Entries(CommitAlone(once, pid, committer, now, written).rows, pid)| == |Entries(st.rows, pid)| + 2
  {
    var p := st.proposals[pid];
    var first := EntryOf(p, pid, committer, st.rows, now);
    FailedCommitLeavesEntryIff(st, pid, committer, now, written);
    InsertIsNext(st.rows, first);
    hide CommitAlone, Mirrorable, Numbered, Entries;
    var once := CommitAlone(st, pid, committer, now, written);
    FailedCommitLeavesEntryIff(once, pid, committer, now, written);
    EntriesSnoc(st.rows, first, pid);
    EntriesSnoc(once.rows, EntryOf(p, pid, committer, once.rows, now), pid);
  }

  /** A commit that another post of its key overtakes, between its reading of the
      version and its insert, raises there: only the other post has got in, and
      the proposal can be committed again. */
  lemma {:induction false} OvertakenCommitIsRefused(st: State, pid: nat, committer: string, now: nat, other: Row)
    requires Numbered(st.rows) && pid < |st.proposals| && st.commits == []
    requires st.proposals[pid].status == Pending
    requires other.section == st.proposals[pid].section && other.key == st.proposals[pid].key
    requires other.version == |History(st.rows, other.section, other.key)| + 1
    ensures var read := Step(Step(st, Begin(pid, committer)), ReadVersion(0, now));
            Step(Step(read, OtherPost(other)), InsertEntry(0))
              == st.(rows := st.rows + [other.(proposal := None)])
  {
    var p, r := st.proposals[pid], other.(proposal := None);
    assert NumberedKey(st.rows, other.section, other.key);
    var entry := EntryOf(p, pid, committer, st.rows, now);
    InsertIsNext(st.rows, r);
    assert Insert(st.rows, r) == Some(st.rows + [r]);
    assert Duplicates(st.rows + [r], entry) by { assert (st.rows + [r])[|st.rows|] == r; }
    hide Mirrorable, MaxVersion, Duplicates, History, Numbered;
    var cm := Commit(pid, committer, Checked);
    var begun := Step(st, Begin(pid, committer));
    assert begun == st.(commits := [cm]);
    var read := Step(begun, ReadVersion(0, now));
    assert read == st.(commits := [cm.(stage := HasVersion(entry))]);
    var posted := Step(read, OtherPost(other));
    assert posted == read.(rows := st.rows + [r]);
    assert Drop(read.commits, 0) == [];
  }

  /** A rejection does not ask whether the proposal is still pending: it overrules
      a commit, whose entry nevertheless stays, and rules out another one. */
  lemma {:induction false} RejectionAfterCommit(st: State, pid: nat, committer: string, rejecter: string, now: nat)
    requires Numbered(st.rows) && pid < |st.proposals| && st.commits == []
    requires st.proposals[pid].status == Pending && Mirrorable(st.proposals[pid].section)
    ensures var done := CommitAlone(st, pid, committer, now, true);
            var end := Step(done, Reject(pid, rejecter));
            && end.rows == done.rows && |Entries(end.rows, pid)| == |Entries(st.rows, pid)| + 1
            && end.proposals == st.proposals[pid := st.proposals[pid].(status := Rejected, resolver := Some(rejecter))]
            && CommitAlone(end, pid, committer, now, true) == end
  {
    var p := st.proposals[pid];
    FailedCommitLeavesEntryIff(st, pid, committer, now, true);
    hide CommitAlone, Mirrorable, Numbered, Entries;
    var done := CommitAlone(st, pid, committer, now, true);
    var end := Step(done, Reject(pid, rejecter));
    var entry := EntryOf(p, pid, committer, st.rows, now);
    EntriesSnoc(st.rows, entry, pid);
    InsertIsNext(st.rows, entry);
    FailedCommitLeavesEntryIff(end, pid, committer, now, true);
  }

  /** Two overlapping commits of one proposal both succeed: the status check of
      the second falls before the mark of the first. */
  lemma OverlappingCommitsDuplicate(st: State, pid: nat, committer: string, now: nat)
    requires Numbered(st.rows) && pid < |st.proposals| && st.commits == []
    requires st.proposals[pid].status == Pending
    ensures var both := Step(Step(st, Begin(pid, committer)), Begin(pid, committer));
            var one := Step(Step(both, ReadVersion(0, now)), InsertEntry(0));
            var two := Step(Step(one, ReadVersion(1, now)), InsertEntry(1));
            |Entries(two.rows, pid)| == |Entries(st.rows, pid)| + 2
  {
    hide Mirrorable, MaxVersion, Duplicates;
    var p := st.proposals[pid];
    var cm := Commit(pid, committer, Checked);
    var first := EntryOf(p, pid, committer, st.rows, now);
    InsertIsNext(st.rows, first);
    var both := Step(Step(st, Begin(pid, committer)), Begin(pid, committer));
    assert both == st.(commits := [cm, cm]);
    var one := Step(Step(both, ReadVersion(0, now)), InsertEntry(0));
    assert one == st.(rows := st.rows + [first], commits := [cm.(stage := Inserted), cm]);
    var second := EntryOf(p, pid, committer, one.rows, now);
    InsertIsNext(one.rows, second);
    var two := Step(Step(one, ReadVersion(1, now)), InsertEntry(1));
    assert two.rows == one.rows + [second];
    EntriesSnoc(st.rows, first, pid);
    EntriesSnoc(one.rows, second, pid);
  }

  // ----- the tables as an object -----

  /** A refused mirror raises after the entry has been inserted. */
  datatype Outcome = Done(entry: Row) | NotFound | NotPending(status: Status) | MirrorRefused(entry: Row)

  class Store {
    var rows: seq<Row>
    var proposals: seq<Proposal>
    ghost var unmirrored: set<nat>

    ghost function Abs(): State
      reads this
    {
      State(rows, proposals, [], unmirrored)
    }

    ghost predicate Valid()
      reads this
    {
      Numbered(rows)
    }

    constructor ()
      ensures Valid() && Abs() == INIT
    {
      rows, proposals, unmirrored := [], [], {};
      new;
      forall section, key ensures NumberedKey([], section, key) {}
    }

    method CreateProposal(proposer: string, section: string, key: string, value: string) returns (pid: nat)
      requires Valid()
      modifies this
      ensures Valid() && Abs() == Step(old(Abs()), Create(proposer, section, key, value))
      ensures pid < |proposals| && proposals[pid] == Proposal(proposer, section, key, value, Pending, None)
    {
      pid := |proposals|;
      proposals := proposals + [Proposal(proposer, section, key, value, Pending, None)];
    }

    /** `written` tells whether the file system accepts the mirror's writes. */
    method CommitProposal(pid: nat, committer: string, now: nat, written: bool) returns (r: Outcome)
      requires Valid()
      modifies this
      ensures Valid() && Abs() == CommitAlone(old(Abs()), pid, committer, now, written)
      ensures r.NotFound? <==> pid >= |old(proposals)|
      ensures r.NotPending? <==> pid < |old(proposals)| && old(proposals)[pid].status != Pending
      ensures r.MirrorRefused? <==>
                pid < |old(proposals)| && old(proposals)[pid].status == Pending
                && !(Mirrorable(old(proposals)[pid].section) && written)
      ensures r.Done? ==> proposals[pid].status == Committed && proposals[pid].resolver == Some(committer)
      ensures r.Done? || r.MirrorRefused? ==>
                var p := old(proposals)[pid];
                r.entry == Row(p.section, p.key, p.value, p.proposer, committer, Some(pid),
                               |History(old(rows), p.section, p.key)| + 1, now)
      ensures rows == if r.Done? || r.MirrorRefused? then old(rows) + [r.entry] else old(rows)
    {
      if pid >= |proposals| {
        return NotFound;
      }
      FailedCommitLeavesEntryIff(Abs(), pid, committer, now, written);
      hide CommitAlone, Mirrorable, Numbered, MaxVersion, Duplicates;
      var p := proposals[pid];
      if p.status != Pending {
        return NotPending(p.status);
      }
      var entry := EntryOf(p, pid, committer, rows, now);
      InsertIsNext(rows, entry);
      rows := rows + [entry];
      if !(Mirrorable(p.section) && written) {
        unmirrored := unmirrored + {pid};
        return MirrorRefused(entry);
      }
      proposals := proposals[pid := p.(status := Committed, resolver := Some(committer))];
      return Done(entry);
    }

    /** There is no check that the proposal is still pending. */
    method RejectProposal(pid: nat, committer: string) returns (found: bool)
      requires Valid()
      modifies this`proposals
      ensures Valid() && Abs() == Step(old(Abs()), Reject(pid, committer))
      ensures found == (pid < |proposals|)
      ensures found ==> proposals[pid].status == Rejected && proposals[pid].resolver == Some(committer)
    {
      if pid >= |proposals| {
        return false;
      }
      proposals := proposals[pid := proposals[pid].(status := Rejected, resolver := Some(committer))];
      return true;
    }
  }
}
