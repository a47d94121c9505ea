/** The bounded pool of agent sessions: sweeping, reuse, replacement on a model
    change, and eviction of the least recently updated idle session. */
module SessionPool {
  import opened PyText

  /** `chat` is empty for a session without a chat session; `model` is empty for none. */
  datatype Session = Session(id: nat, chat: string, model: string, status: string, updated: int, closed: bool)

  datatype Request = Request(sessionId: Option<nat>, chat: string, model: string)

  datatype Outcome = Existing(id: nat) | Created(id: nat) | CapacityError

  // ----- comparing model names -----

  function LowerChar(c: char): char {
    if 'A' <= c <= 'Z' then (c as int + 32) as char else c
  }

  function Lower(s: string): string {
    seq(|s|, i requires 0 <= i < |s| => LowerChar(s[i]))
  }

  function NormalizeModel(model: string): Option<string> {
    var m := Trim(model, IsSpace);
    if m == "" then None
    else
      var parts := Split(m, '/');
      Some(Lower(parts[|parts| - 1]))
  }

  /** Provider prefixes do not matter: a bare name and any qualified form of it
      compare equal. */
  lemma ProviderPrefixIsIgnored(prefix: string, name: string)
    requires name != "" && Without(name, '/') && Trimmed(name, IsSpace)
    requires prefix != "" && !IsSpace(prefix[0])
    ensures NormalizeModel(prefix + "/" + name) == NormalizeModel(name) == Some(Lower(name))
  {
    var full := prefix + "/" + name;
    TrimFixes(full, IsSpace);
    TrimFixes(name, IsSpace);
    SplitOfWithout(name, '/');
    SplitJoined(prefix, name, '/');
  }

  // ----- one call of get_or_create -----

  predicate Expired(s: Session, now: int, ttl: int) {
    now - s.updated > ttl || s.closed
  }

  function Sweep(pool: seq<Session>, now: int, ttl: int): seq<Session> {
    if pool == [] then []
    else
      var rest, last := Sweep(pool[..|pool| - 1], now, ttl), pool[|pool| - 1];
      if Expired(last, now, ttl) then rest else rest + [last]
  }

  predicate Evictable(s: Session) {
    s.status != "running" && s.status != "starting" && !s.closed
  }

  function FindId(pool: seq<Session>, id: nat): (k: nat)
    ensures k <= |pool|
    ensures k < |pool| ==> pool[k].id == id
    ensures forall j :: 0 <= j < k ==> pool[j].id != id
  {
    if pool == [] || pool[0].id == id then 0 else 1 + FindId(pool[1..], id)
  }

  function FindChat(pool: seq<Session>, chat: string): (k: nat)
    ensures k <= |pool|
    ensures k < |pool| ==> pool[k].chat == chat
    ensures forall j :: 0 <= j < k ==> pool[j].chat != chat
  {
    if pool == [] || pool[0].chat == chat then 0 else 1 + FindChat(pool[1..], chat)
  }

  /** Index of the first evictable session with the smallest update time, or
      the length of the pool when there is none. */
  function OldestIdle(pool: seq<Session>): (k: nat)
    ensures k <= |pool|
    ensures k < |pool| ==> Evictable(pool[k])
    ensures forall j :: 0 <= j < |pool| && Evictable(pool[j]) ==>
              k < |pool| && pool[k].updated <= pool[j].updated
                         && (pool[k].updated == pool[j].updated ==> k <= j)
    decreases |pool|
  {
    if pool == [] then 0
    else
      var n, last := |pool| - 1, pool[|pool| - 1];
      var k := OldestIdle(pool[..n]);
      assert forall j :: 0 <= j < n ==> pool[..n][j] == pool[j];
      if k < n && !(Evictable(last) && last.updated < pool[k].updated) then k
      else if Evictable(last) then n
      else n + 1
  }

  function RemoveAt(pool: seq<Session>, k: nat): seq<Session>
    requires k < |pool|
  {
    pool[..k] + pool[k + 1..]
  }

  function NewSession(req: Request, id: nat, now: int): Session {
    Session(id, req.chat, req.model, "starting", now, false)
  }

  predicate SameModel(existing: string, wanted: string) {
    NormalizeModel(wanted).None? || NormalizeModel(existing) == NormalizeModel(wanted)
  }

  /** Room for one more, evicting when full; `None` when nothing can go. */
  function MakeRoom(pool: seq<Session>, max: nat): Option<seq<Session>> {
    if |pool| < max then Some(pool)
    else
      var k := OldestIdle(pool);
      if k < |pool| then Some(RemoveAt(pool, k)) else None
  }

  function Create(pool: seq<Session>, req: Request, newId: nat, now: int, max: nat): (seq<Session>, Outcome) {
    match MakeRoom(pool, max)
    case None => (pool, CapacityError)
    case Some(room) => (room + [NewSession(req, newId, now)], Created(newId))
  }

  function Obtain(pool: seq<Session>, req: Request, newId: nat, now: int, ttl: int, max: nat)
    : (seq<Session>, Outcome)
  {
    var swept := Sweep(pool, now, ttl);
    if req.sessionId.Some? && FindId(swept, req.sessionId.value) < |swept| then
      (swept, Existing(req.sessionId.value))
    else
      var k := FindChat(swept, req.chat);
      if req.chat != "" && k < |swept| then
        if SameModel(swept[k].model, req.model) then (swept, Existing(swept[k].id))
        else Create(RemoveAt(swept, k), req, newId, now, max)
      else Create(swept, req, newId, now, max)
  }

  // ----- what the pool keeps -----

  ghost predicate PoolOk(pool: seq<Session>, max: nat) {
    && |pool| <= max
    && (forall i, j :: 0 <= i < j < |pool| ==> pool[i].id != pool[j].id)
    && (forall i, j :: 0 <= i < j < |pool| && pool[i].chat != "" ==> pool[i].chat != pool[j].chat)
  }

  lemma RemoveKeepsOk(pool: seq<Session>, k: nat, max: nat)
    requires PoolOk(pool, max) && k < |pool|
    ensures PoolOk(RemoveAt(pool, k), max) && |RemoveAt(pool, k)| == |pool| - 1
    ensures forall s :: s in RemoveAt(pool, k) <==> s in pool && s != pool[k]
  {
    var r := RemoveAt(pool, k);
    assert forall j :: 0 <= j < |r| ==> r[j] == pool[if j < k then j else j + 1];
    forall s | s in pool && s != pool[k] ensures s in r {
      var j :| 0 <= j < |pool| && pool[j] == s;
      assert s == r[if j < k then j else j - 1];
    }
  }

  lemma {:induction false} SweepKeeps(pool: seq<Session>, now: int, ttl: int, max: nat)
    requires PoolOk(pool, max)
    ensures PoolOk(Sweep(pool, now, ttl), max)
    ensures forall s :: s in Sweep(pool, now, ttl) <==> s in pool && !Expired(s, now, ttl)
  {
    if pool != [] {
      var before, last := pool[..|pool| - 1], pool[|pool| - 1];
      SweepKeeps(before, now, ttl, max);
      assert pool == before + [last];
      var rest := Sweep(before, now, ttl);
      assert |rest| <= |before| by { SweepShortens(before, now, ttl); }
      forall j | 0 <= j < |rest| ensures rest[j].id != last.id && (rest[j].chat != "" ==> rest[j].chat != last.chat) {
        assert rest[j] in before;
      }
    }
  }

  lemma {:induction false} SweepShortens(pool: seq<Session>, now: int, ttl: int)
    ensures |Sweep(pool, now, ttl)| <= |pool|
  {
    if pool != [] { SweepShortens(pool[..|pool| - 1], now, ttl); }
  }

  ghost predicate NewId(pool: seq<Session>, id: nat) {
    forall s :: s in pool ==> s.id != id
  }

  ghost predicate NoChat(pool: seq<Session>, chat: string) {
    forall s :: s in pool ==> s.chat != chat
  }

  lemma CreateKeepsOk(pool: seq<Session>, req: Request, newId: nat, now: int, max: nat)
    requires PoolOk(pool, max) && NewId(pool, newId) && (req.chat == "" || NoChat(pool, req.chat))
    ensures PoolOk(Create(pool, req, newId, now, max).0, max)
    ensures Create(pool, req, newId, now, max).1 == CapacityError
       <==> |pool| >= max && forall s :: s in pool ==> !Evictable(s)
  {
    hide Evictable, PoolOk;
    NoneIdle(pool);
    var room := MakeRoom(pool, max);
    if room.Some? {
      RoomKeepsOk(pool, max);
      AddKeepsOk(room.value, NewSession(req, newId, now), max);
    }
  }

  lemma NoneIdle(pool: seq<Session>)
    ensures OldestIdle(pool) == |pool| <==> forall s :: s in pool ==> !Evictable(s)
  {
    if forall s :: s in pool ==> !Evictable(s) {
      assert forall j :: 0 <= j < |pool| ==> pool[j] in pool;
    }
  }

  lemma RoomKeepsOk(pool: seq<Session>, max: nat)
    requires PoolOk(pool, max) && MakeRoom(pool, max).Some?
    ensures var room := MakeRoom(pool, max).value;
            PoolOk(room, max) && |room| < max && forall s :: s in room ==> s in pool
  {
    if |pool| >= max { RemoveKeepsOk(pool, OldestIdle(pool), max); }
    hide Evictable;
  }

  lemma AddKeepsOk(pool: seq<Session>, added: Session, max: nat)
    requires PoolOk(pool, max) && |pool| < max
    requires NewId(pool, added.id) && (added.chat == "" || NoChat(pool, added.chat))
    ensures PoolOk(pool + [added], max)
  {
    forall j | 0 <= j < |pool|
      ensures pool[j].id != added.id && (added.chat != "" ==> pool[j].chat != added.chat)
    {
      assert pool[j] in pool;
    }
  }

  /** One call keeps the pool within its maximum, with distinct ids and at most
      one session per chat session. */
  lemma ObtainKeepsOk(pool: seq<Session>, req: Request, newId: nat, now: int, ttl: int, max: nat)
    requires PoolOk(pool, max) && NewId(pool, newId)
    ensures PoolOk(Obtain(pool, req, newId, now, ttl, max).0, max)
  {
    var swept := Sweep(pool, now, ttl);
    SweepKeeps(pool, now, ttl, max);
    hide Sweep, SameModel, Expired;
    var k := FindChat(swept, req.chat);
    if req.chat != "" && k < |swept| {
      RemoveKeepsOk(swept, k, max);
      ChatIsGone(swept, k, max);
      CreateKeepsOk(RemoveAt(swept, k), req, newId, now, max);
    } else {
      CreateKeepsOk(swept, req, newId, now, max);
    }
  }

  lemma ChatIsGone(pool: seq<Session>, k: nat, max: nat)
    requires PoolOk(pool, max) && k < |pool| && pool[k].chat != ""
    ensures NoChat(RemoveAt(pool, k), pool[k].chat)
  {
    RemoveKeepsOk(pool, k, max);
    forall s | s in RemoveAt(pool, k) ensures s.chat != pool[k].chat {
      var j :| 0 <= j < |pool| && pool[j] == s;
      assert j < k || j > k;
    }
  }

  /** The session that a call replaces because its chat switched models. */
  ghost predicate Replaced(pool: seq<Session>, req: Request, s: Session) {
    s in pool && req.chat != "" && s.chat == req.chat && !SameModel(s.model, req.model)
  }

  /** `CapacityError` is raised exactly when the request matches no session, the
      swept pool is full, and every session in it is running or starting.  In
      particular a model switch never fails for lack of room. */
  lemma {:induction false} CapacityErrorIff(pool: seq<Session>, req: Request, newId: nat, now: int, ttl: int, max: nat)
    requires PoolOk(pool, max) && NewId(pool, newId)
    ensures var swept := Sweep(pool, now, ttl);
            Obtain(pool, req, newId, now, ttl, max).1 == CapacityError
            <==> && |swept| == max
                 && (forall s :: s in swept ==> s.status == "running" || s.status == "starting")
                 && (req.sessionId.Some? ==> NewId(swept, req.sessionId.value))
                 && (req.chat != "" ==> NoChat(swept, req.chat))
  {
    var swept := Sweep(pool, now, ttl);
    SweepKeeps(pool, now, ttl, max);
    BusyOnly(swept);
    if req.sessionId.Some? { FoundId(swept, req.sessionId.value); }
    FoundChat(swept, req.chat);
    hide Sweep, SameModel, Expired, Evictable, NewId, NoChat, FindId, FindChat;
    var k := FindChat(swept, req.chat);
    if req.chat != "" && k < |swept| {
      RoomAfterRemoval(swept, k, req, newId, now, max);
    } else {
      SweptStaysNew(pool, newId, now, ttl, max);
      CreateKeepsOk(swept, req, newId, now, max);
    }
  }

  lemma FoundId(pool: seq<Session>, id: nat)
    ensures FindId(pool, id) < |pool| <==> !NewId(pool, id)
  {
    if FindId(pool, id) < |pool| { assert pool[FindId(pool, id)] in pool; }
  }

  lemma FoundChat(pool: seq<Session>, chat: string)
    ensures FindChat(pool, chat) < |pool| <==> !NoChat(pool, chat)
  {
    if FindChat(pool, chat) < |pool| { assert pool[FindChat(pool, chat)] in pool; }
  }

  lemma BusyOnly(pool: seq<Session>)
    requires forall s :: s in pool ==> !s.closed
    ensures (forall s :: s in pool ==> !Evictable(s))
       <==> forall s :: s in pool ==> s.status == "running" || s.status == "starting"
  {
  }

  lemma SweptStaysNew(pool: seq<Session>, id: nat, now: int, ttl: int, max: nat)
    requires PoolOk(pool, max) && NewId(pool, id)
    ensures NewId(Sweep(pool, now, ttl), id)
  {
    SweepKeeps(pool, now, ttl, max);
    hide Sweep;
  }

  lemma RoomAfterRemoval(pool: seq<Session>, k: nat, req: Request, newId: nat, now: int, max: nat)
    requires |pool| <= max && k < |pool|
    ensures Create(RemoveAt(pool, k), req, newId, now, max).1 == Created(newId)
  {
  }

  /** A session leaves the pool during a call only because it is expired or
      closed, because its chat switched models, or by capacity eviction; and
      eviction happens only in a full pool and takes an idle session with the
      smallest update time among the idle ones. */
  lemma {:induction false} OnlyOldestIdleIsEvicted(pool: seq<Session>, req: Request, newId: nat, now: int, ttl: int, max: nat,
                                s: Session)
    requires PoolOk(pool, max) && NewId(pool, newId)
    requires s in pool && s !in Obtain(pool, req, newId, now, ttl, max).0
    ensures var swept := Sweep(pool, now, ttl);
            || Expired(s, now, ttl)
            || Replaced(swept, req, s)
            || (&& |swept| == max && Evictable(s)
                && forall t :: t in swept && Evictable(t) ==> s.updated <= t.updated)
  {
    var swept := Sweep(pool, now, ttl);
    SweepKeeps(pool, now, ttl, max);
    var k := FindChat(swept, req.chat);
    if s in swept {
      if req.chat != "" && k < |swept| && !SameModel(swept[k].model, req.model) {
        RemoveKeepsOk(swept, k, max);
      } else if |swept| == max && OldestIdle(swept) < |swept| {
        RemoveKeepsOk(swept, OldestIdle(swept), max);
        assert forall t :: t in swept && Evictable(t) ==> swept[OldestIdle(swept)].updated <= t.updated;
      }
    }
  }

  /** A successful call returns a pooled session; for a chat it is one of that
      chat whose model fits, unless the request named another session by id. */
  lemma ResultIsPooled(pool: seq<Session>, req: Request, newId: nat, now: int, ttl: int, max: nat)
    requires PoolOk(pool, max) && NewId(pool, newId)
    ensures var r := Obtain(pool, req, newId, now, ttl, max);
            match r.1
            case CapacityError => true
            case Created(id) => NewSession(req, newId, now) in r.0 && id == newId
            case Existing(id) => exists s :: s in r.0 && s.id == id && !Expired(s, now, ttl)
                                   && (req.sessionId == Some(id)
                                       || (s.chat == req.chat && SameModel(s.model, req.model)))
  {
    var swept := Sweep(pool, now, ttl);
    SweepKeeps(pool, now, ttl, max);
    var r := Obtain(pool, req, newId, now, ttl, max);
    if req.sessionId.Some? && FindId(swept, req.sessionId.value) < |swept| {
      assert swept[FindId(swept, req.sessionId.value)] in r.0;
    } else if r.1.Existing? {
      assert swept[FindChat(swept, req.chat)] in r.0;
    } else if r.1.Created? {
      assert r.0[|r.0| - 1] == NewSession(req, newId, now);
    }
  }

  // ----- runs -----

  /** Sessions change their own status, time and closed flag at any moment. */
  datatype Action =
    | Call(req: Request, newId: nat, now: int)
    | Touch(k: nat, status: string, updated: int, closed: bool)

  function Step(pool: seq<Session>, a: Action, ttl: int, max: nat): seq<Session> {
    match a
    case Call(req, newId, now) => Obtain(pool, req, newId, now, ttl, max).0
    case Touch(k, status, updated, closed) =>
      if k < |pool| then pool[k := pool[k].(status := status, updated := updated, closed := closed)] else pool
  }

  function Run(acts: seq<Action>, ttl: int, max: nat): seq<Session> {
    if acts == [] then [] else Step(Run(acts[..|acts| - 1], ttl, max), acts[|acts| - 1], ttl, max)
  }

  /** Session ids are drawn fresh. */
  ghost predicate FreshIds(acts: seq<Action>, ttl: int, max: nat) {
    forall n :: 0 <= n < |acts| && acts[n].Call? ==> NewId(Run(acts[..n], ttl, max), acts[n].newId)
  }

  lemma {:induction false} PoolStaysBounded(acts: seq<Action>, ttl: int, max: nat)
    requires FreshIds(acts, ttl, max)
    ensures PoolOk(Run(acts, ttl, max), max)
  {
    if acts != [] {
      var before := acts[..|acts| - 1];
      forall n | 0 <= n < |before| ensures before[n] == acts[n] && before[..n] == acts[..n] {}
      PoolStaysBounded(before, ttl, max);
      match acts[|acts| - 1]
      case Call(req, newId, now) => ObtainKeepsOk(Run(before, ttl, max), req, newId, now, ttl, max);
      case Touch(k, status, updated, closed) =>
    }
  }

  // ----- the pool as an object -----

  class Pool {
    const ttl: int
    const max: nat
    var sessions: seq<Session>   // in insertion order, keyed by id

    constructor (ttl: int, max: nat)
      ensures this.ttl == ttl && this.max == max && sessions == []
    {
      this.ttl, this.max, sessions := ttl, max, [];
    }

    /** Sessions found expired are dropped together. */
    method SweepLocked(now: int)
      modifies this`sessions
      ensures sessions == Sweep(old(sessions), now, ttl)
    {
      var kept: seq<Session> := [];
      for k := 0 to |sessions|
        invariant kept == Sweep(sessions[..k], now, ttl) && sessions == old(sessions)
      {
        assert sessions[..k + 1][..k] == sessions[..k];
        if !(now - sessions[k].updated > ttl || sessions[k].closed) {
          kept := kept + [sessions[k]];
        }
      }
      assert sessions[..|sessions|] == sessions;
      sessions := kept;
    }

    method FindOldestIdle() returns (oldest: Option<nat>)
      ensures oldest == if OldestIdle(sessions) < |sessions| then Some(OldestIdle(sessions)) else None
    {
      oldest := None;
      for k := 0 to |sessions|
        invariant oldest.Some? ==> oldest.value < k && oldest.value == OldestIdle(sessions[..k])
        invariant oldest.None? ==> OldestIdle(sessions[..k]) == k
      {
        assert sessions[..k + 1][..k] == sessions[..k];
        var s := sessions[k];
        if s.status != "running" && s.status != "starting" && !s.closed {
          if oldest.None? || s.updated < sessions[oldest.value].updated {
            oldest := Some(k);
          }
        }
      }
      assert sessions[..|sessions|] == sessions;
    }

    method GetOrCreate(req: Request, newId: nat, now: int) returns (r: Outcome)
      modifies this`sessions
      ensures (sessions, r) == Obtain(old(sessions), req, newId, now, ttl, max)
    {
      hide Sweep, NormalizeModel;
      SweepLocked(now);
      if req.sessionId.Some? && FindId(sessions, req.sessionId.value) < |sessions| {
        return Existing(req.sessionId.value);
      }
      if req.chat != "" {
        var k := FindChat(sessions, req.chat);
        if k < |sessions| {
          var wanted := NormalizeModel(req.model);
          if wanted.None? || NormalizeModel(sessions[k].model) == wanted {
            return Existing(sessions[k].id);
          }
          sessions := RemoveAt(sessions, k);
        }
      }
      if |sessions| >= max {
        var oldest := FindOldestIdle();
        if oldest.None? {
          return CapacityError;
        }
        sessions := RemoveAt(sessions, oldest.value);
      }
      sessions := sessions + [NewSession(req, newId, now)];
      return Created(newId);
    }
  }
}
