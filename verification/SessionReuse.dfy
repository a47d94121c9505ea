/** Which pooled session answers a request: when two model names are the same,
    when a session is reused, and what a model switch leaves in the pool. */
module SessionReuse {
  import opened PyText
  import opened SessionPool

  // ----- model names -----

  /** Equal up to the case of an ASCII letter. */
  predicate SameLetter(a: char, b: char) {
    || a == b
    || ('A' <= a <= 'Z' && b as int == a as int + 32)
    || ('A' <= b <= 'Z' && a as int == b as int + 32)
  }

  ghost predicate SameUpToCase(a: string, b: string) {
    |a| == |b| && forall i :: 0 <= i < |a| ==> SameLetter(a[i], b[i])
  }

  ghost function LastSegment(name: string): string {
    Split(name, '/')[|Split(name, '/')| - 1]
  }

  lemma LowerIff(a: string, b: string)
    ensures Lower(a) == Lower(b) <==> SameUpToCase(a, b)
  {
    if Lower(a) == Lower(b) {
      forall i | 0 <= i < |a| ensures SameLetter(a[i], b[i]) {
        assert Lower(a)[i] == Lower(b)[i];
      }
    }
  }

  /** Two model names are the same when both are blank, or their last segments
      agree up to case. */
  ghost predicate SameName(a: string, b: string) {
    var x, y := Trim(a, IsSpace), Trim(b, IsSpace);
    (x == "" && y == "") || (x != "" && y != "" && SameUpToCase(LastSegment(x), LastSegment(y)))
  }

  /** Any two model names compare equal exactly when they are the same in this sense. */
  lemma ModelsCompareIff(a: string, b: string)
    ensures NormalizeModel(a) == NormalizeModel(b) <==> SameName(a, b)
  {
    var x, y := Trim(a, IsSpace), Trim(b, IsSpace);
    LowerIff(LastSegment(x), LastSegment(y));
    hide Lower, SameUpToCase, Split, Trim;
  }

  /** A name as the settings hold it, without a provider in front. */
  ghost predicate Bare(name: string) {
    name != "" && Without(name, '/') && Trimmed(name, IsSpace)
  }

  ghost predicate Provider(prefix: string) {
    prefix != "" && !IsSpace(prefix[0])
  }

  /** Bare names are the same exactly when they agree up to case, and a provider
      in front of either changes nothing. */
  lemma NamesCompareIff(a: string, b: string, p: string, q: string)
    requires Bare(a) && Bare(b) && Provider(p) && Provider(q)
    ensures NormalizeModel(a) == NormalizeModel(b) <==> SameUpToCase(a, b)
    ensures NormalizeModel(p + "/" + a) == NormalizeModel(b) <==> SameUpToCase(a, b)
    ensures NormalizeModel(p + "/" + a) == NormalizeModel(q + "/" + b) <==> SameUpToCase(a, b)
  {
    ProviderPrefixIsIgnored(p, a);
    ProviderPrefixIsIgnored(q, b);
    LowerIff(a, b);
    hide NormalizeModel, Lower, SameUpToCase;
  }

  // ----- sweeping -----

  /** Sweeping decides on each session alone: it stays exactly when it is open
      and was updated within the time to live. */
  lemma {:induction false} SweepAt(pool: seq<Session>, k: nat, now: int, ttl: int)
    requires k < |pool|
    ensures var s := pool[k];
            Sweep(pool, now, ttl)
              == Sweep(pool[..k], now, ttl)
                 + (if !s.closed && now - s.updated <= ttl then [s] else [])
                 + Sweep(pool[k + 1..], now, ttl)
  {
    assert pool == pool[..k] + [pool[k]] + pool[k + 1..];
    SweepConcat(pool[..k] + [pool[k]], pool[k + 1..], now, ttl);
    SweepConcat(pool[..k], [pool[k]], now, ttl);
    assert [pool[k]][..0] == [];
  }

  lemma {:induction false} SweepConcat(a: seq<Session>, b: seq<Session>, now: int, ttl: int)
    ensures Sweep(a + b, now, ttl) == Sweep(a, now, ttl) + Sweep(b, now, ttl)
    decreases |b|
  {
    if b == [] {
      assert a + b == a;
    } else {
      SweepConcat(a, b[..|b| - 1], now, ttl);
      assert (a + b)[..|a + b| - 1] == a + b[..|b| - 1];
    }
  }

  // ----- reuse -----

  /** The pool holds an open session with this id that is not too old. */
  ghost predicate HasId(pool: seq<Session>, id: nat, now: int, ttl: int) {
    exists s :: s in pool && s.id == id && !s.closed && now - s.updated <= ttl
  }

  /** The same for this chat, with a model that the request accepts: it names
      none, or the same one. */
  ghost predicate HasChat(pool: seq<Session>, id: nat, req: Request, now: int, ttl: int) {
    req.chat != "" &&
    exists s :: s in pool && s.id == id && !s.closed && now - s.updated <= ttl && s.chat == req.chat
                && (Trim(req.model, IsSpace) == "" || SameName(s.model, req.model))
  }

  lemma SameChatIsSame(pool: seq<Session>, max: nat, s: Session, t: Session)
    requires PoolOk(pool, max) && s in pool && t in pool && s.chat == t.chat && s.chat != ""
    ensures s == t
  {
    var i :| 0 <= i < |pool| && pool[i] == s;
    var j :| 0 <= j < |pool| && pool[j] == t;
    assert !(i < j) && !(j < i);
  }

  /** A call answers with a session of the pool in exactly two cases: the request
      names it by id, or, when it names no live one, it is the chat's session and
      the model fits. */
  lemma {:induction false} ReuseIff(pool: seq<Session>, req: Request, newId: nat, now: int, ttl: int, max: nat, id: nat)
    requires PoolOk(pool, max)
    ensures Obtain(pool, req, newId, now, ttl, max).1 == Existing(id)
       <==> (req.sessionId == Some(id) && HasId(pool, id, now, ttl))
            || (HasChat(pool, id, req, now, ttl)
                && (req.sessionId.Some? ==> !HasId(pool, req.sessionId.value, now, ttl)))
  {
    var swept := Sweep(pool, now, ttl);
    SweepKeeps(pool, now, ttl, max);
    hide Sweep, NormalizeModel, Trim, SameName;
    if req.sessionId.Some? {
      HasIdIff(pool, swept, req.sessionId.value, now, ttl);
    }
    if req.sessionId.Some? && FindId(swept, req.sessionId.value) < |swept| {
    } else if req.chat != "" {
      HasChatIff(pool, swept, id, req, now, ttl, max);
    }
    hide PoolOk;
  }

  lemma HasIdIff(pool: seq<Session>, swept: seq<Session>, id: nat, now: int, ttl: int)
    requires forall s :: s in swept <==> s in pool && !Expired(s, now, ttl)
    ensures HasId(pool, id, now, ttl) <==> FindId(swept, id) < |swept|
  {
    FoundId(swept, id);
    hide FindId;
    if HasId(pool, id, now, ttl) {
      var s :| s in pool && s.id == id && !s.closed && now - s.updated <= ttl;
      assert s in swept;
    }
    if !NewId(swept, id) {
      var s :| s in swept && s.id == id;
      assert s in pool;
    }
  }

  lemma HasChatIff(pool: seq<Session>, swept: seq<Session>, id: nat, req: Request, now: int, ttl: int, max: nat)
    requires PoolOk(swept, max) && req.chat != ""
    requires forall s :: s in swept <==> s in pool && !Expired(s, now, ttl)
    ensures var k := FindChat(swept, req.chat);
            HasChat(pool, id, req, now, ttl)
            <==> k < |swept| && swept[k].id == id && SameModel(swept[k].model, req.model)
  {
    var k := FindChat(swept, req.chat);
    BlankIff(req.model);
    hide NormalizeModel, Trim, SameName;
    if HasChat(pool, id, req, now, ttl) {
      var s :| s in pool && s.id == id && !s.closed && now - s.updated <= ttl && s.chat == req.chat
               && (Trim(req.model, IsSpace) == "" || SameName(s.model, req.model));
      ModelsCompareIff(s.model, req.model);
      assert s in swept;
      FoundChat(swept, req.chat);
      SameChatIsSame(swept, max, s, swept[k]);
    }
    if k < |swept| && swept[k].id == id && SameModel(swept[k].model, req.model) {
      assert swept[k] in swept;
      ModelsCompareIff(swept[k].model, req.model);
    }
  }

  lemma BlankIff(model: string)
    ensures NormalizeModel(model).None? <==> Trim(model, IsSpace) == ""
  {
  }

  /** Between two calls a pooled session may come to any status, time and closed
      flag, and nothing else changes. */
  lemma SessionsChangeThemselves(pool: seq<Session>, k: nat, after: Session, ttl: int, max: nat)
    requires k < |pool| && after.id == pool[k].id && after.chat == pool[k].chat && after.model == pool[k].model
    ensures Step(pool, Touch(k, after.status, after.updated, after.closed), ttl, max) == pool[k := after]
  {
  }

  // ----- a model switch -----

  /** A chat that asks for another model gets a new session, whatever its old one
      is doing and however full the pool is; the old one is gone, and the new one
      is the chat's only session. */
  lemma {:induction false} SwitchReplaces(pool: seq<Session>, req: Request, newId: nat, now: int, ttl: int, max: nat,
                                          s: Session)
    requires PoolOk(pool, max) && NewId(pool, newId)
    requires s in pool && !s.closed && now - s.updated <= ttl && s.chat == req.chat && req.chat != ""
    requires Trim(req.model, IsSpace) != "" && !SameName(s.model, req.model)
    requires req.sessionId.Some? ==> !HasId(pool, req.sessionId.value, now, ttl)
    ensures var r := Obtain(pool, req, newId, now, ttl, max);
            && r.1 == Created(newId)
            && s !in r.0
            && Session(newId, req.chat, req.model, "starting", now, false) in r.0
            && forall t :: t in r.0 && t.chat == req.chat ==> t.id == newId
  {
    var swept := Sweep(pool, now, ttl);
    SweepKeeps(pool, now, ttl, max);
    assert s in swept;
    hide Sweep, PoolOk;
    if req.sessionId.Some? {
      HasIdIff(pool, swept, req.sessionId.value, now, ttl);
    }
    DifferentModel(s.model, req.model);
    FoundChat(swept, req.chat);
    var k := FindChat(swept, req.chat);
    SameChatIsSame(swept, max, s, swept[k]);
    RemoveKeepsOk(swept, k, max);
    ChatIsGone(swept, k, max);
    RoomAfterRemoval(swept, k, req, newId, now, max) by { assert k < |swept| <= max by { SweptFits(swept, max); } }
    CreatedPool(RemoveAt(swept, k), req, newId, now, max);
    hide NormalizeModel, SameName, Trim, RemoveAt, Create, SameModel, FindChat, FindId;
    var created := Create(RemoveAt(swept, k), req, newId, now, max);
    assert Obtain(pool, req, newId, now, ttl, max) == created;
    assert s.id != newId;
  }

  lemma SweptFits(pool: seq<Session>, max: nat)
    requires PoolOk(pool, max)
    ensures |pool| <= max
  {
  }

  lemma DifferentModel(a: string, b: string)
    requires Trim(b, IsSpace) != "" && !SameName(a, b)
    ensures !SameModel(a, b)
  {
    ModelsCompareIff(a, b);
    BlankIff(b);
    hide NormalizeModel, SameName, Trim;
  }

  lemma CreatedPool(pool: seq<Session>, req: Request, newId: nat, now: int, max: nat)
    requires Create(pool, req, newId, now, max).1 == Created(newId)
    ensures var after := Create(pool, req, newId, now, max).0;
            && (forall t :: t in after ==> t in pool || t == Session(newId, req.chat, req.model, "starting", now, false))
            && Session(newId, req.chat, req.model, "starting", now, false) in after
  {
    var room := MakeRoom(pool, max).value;
    assert forall t :: t in room ==> t in pool;
    assert Create(pool, req, newId, now, max).0 == room + [NewSession(req, newId, now)];
  }
}
