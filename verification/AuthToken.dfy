/** Auto-rotating bearer tokens: the token of a time window is accepted during
    that window and a number of grace windows after it.  The keyed hash is a
    parameter; the exactness results assume that it tells windows apart. */
module AuthToken {

  function Max(a: int, b: int): int {
    if a >= b then a else b
  }

  function WindowIndex(now: real, windowS: int): int {
    (now / (Max(1, windowS) as real)).Floor
  }

  function MakeToken(tok: int -> string, now: real, windowS: int): string {
    tok(WindowIndex(now, windowS))
  }

  /** The active window's token, then those of `grace` earlier windows. */
  function ValidTokens(tok: int -> string, secret: string, now: real, windowS: int, grace: int): seq<string> {
    if secret == "" then []
    else seq(Max(0, grace) + 1, i requires 0 <= i => tok(WindowIndex(now, windowS) - i))
  }

  /** `compare_digest` raises on a string that is not ASCII; the tokens
      themselves are base64 text. */
  predicate Ascii(s: string) {
    forall i :: 0 <= i < |s| ==> s[i] < '\U{80}'
  }

  /** The comparison without early exit decides membership, and raises exactly
      when there is something to compare with and the presented text is not
      ASCII. */
  method TokenMatches(presented: string, tok: int -> string, secret: string, now: real, windowS: int, grace: int)
    returns (ok: bool, raised: bool)
    requires forall w :: Ascii(tok(w))
    ensures raised <==> secret != "" && !Ascii(presented)
    ensures ok <==> presented in ValidTokens(tok, secret, now, windowS, grace)
  {
    ok, raised := false, false;
    var candidates := ValidTokens(tok, secret, now, windowS, grace);
    for k := 0 to |candidates|
      invariant ok <==> presented in candidates[..k]
      invariant k == 0 || Ascii(presented)
    {
      if !Ascii(presented) || !Ascii(candidates[k]) {
        return false, true;
      }
      if presented == candidates[k] {
        ok := true;
      }
    }
  }

  ghost predicate TellsApart(tok: int -> string) {
    forall a, b :: tok(a) == tok(b) ==> a == b
  }

  predicate Accepted(tok: int -> string, secret: string, minted: real, now: real, windowS: int, grace: int) {
    MakeToken(tok, minted, windowS) in ValidTokens(tok, secret, now, windowS, grace)
  }

  /** Window boundaries are the multiples of the window length; those after `t`
      and up to `u` are counted by the difference of the window indices. */
  lemma BoundariesBetween(t: real, u: real, windowS: int, k: int)
    ensures t < (k * Max(1, windowS)) as real <= u
       <==> WindowIndex(t, windowS) < k <= WindowIndex(u, windowS)
  {
    FloorAtMost(t, Max(1, windowS), k);
    FloorAtMost(u, Max(1, windowS), k);
  }

  lemma FloorAtMost(t: real, w: int, k: int)
    requires w >= 1
    ensures (k * w) as real <= t <==> k <= (t / w as real).Floor
  {
    var q := t / w as real;
    assert q * w as real == t;
    assert (k * w) as real == k as real * w as real;
    ScaleOrder(k as real, q, w as real);
    assert k as real <= q <==> k <= q.Floor;
  }

  lemma ScaleOrder(a: real, b: real, w: real)
    requires w > 0.0
    ensures a * w <= b * w <==> a <= b
  {
    if a > b {
      assert (a - b) * w > 0.0;
    } else {
      assert (b - a) * w >= 0.0;
    }
  }

  /** A token is accepted exactly when there is a secret and at most `grace` window boundaries lie
      between minting and use; a clock that has gone back a window rejects it. */
  lemma AcceptedIff(tok: int -> string, secret: string, minted: real, now: real, windowS: int, grace: int)
    requires TellsApart(tok)
    ensures Accepted(tok, secret, minted, now, windowS, grace)
       <==> secret != "" && 0 <= WindowIndex(now, windowS) - WindowIndex(minted, windowS) <= Max(0, grace)
  {
    var valid := ValidTokens(tok, secret, now, windowS, grace);
    var age := WindowIndex(now, windowS) - WindowIndex(minted, windowS);
    if secret != "" && 0 <= age <= Max(0, grace) {
      assert valid[age] == MakeToken(tok, minted, windowS);
    }
    if Accepted(tok, secret, minted, now, windowS, grace) {
      var k :| 0 <= k < |valid| && valid[k] == MakeToken(tok, minted, windowS);
      assert WindowIndex(now, windowS) - k == WindowIndex(minted, windowS);
    }
  }

  /** Hence a token lives at least `grace` whole windows and is dead after one more. */
  lemma Lifetime(tok: int -> string, secret: string, minted: real, now: real, windowS: int, grace: nat)
    requires TellsApart(tok) && minted <= now
    ensures secret != "" && now - minted <= (grace * Max(1, windowS)) as real ==>
              Accepted(tok, secret, minted, now, windowS, grace)
    ensures now - minted >= ((grace + 1) * Max(1, windowS)) as real ==>
              !Accepted(tok, secret, minted, now, windowS, grace)
  {
    var w := Max(1, windowS);
    var i, j := WindowIndex(minted, windowS), WindowIndex(now, windowS);
    AcceptedIff(tok, secret, minted, now, windowS, grace);
    FloorAtMost(minted, w, i);
    FloorAtMost(minted, w, i + 1);
    FloorAtMost(now, w, i);
    FloorAtMost(now, w, i + grace + 1);
    assert (i + grace + 1) * w == i * w + (grace + 1) * w == (i + 1) * w + grace * w;
  }

  function SecondsUntilRotation(now: int, windowS: int): int {
    windowS - now % Max(1, windowS)
  }

  function IndexAfter(now: int, delay: int, windowS: int): int {
    WindowIndex((now + delay) as real, windowS)
  }

  /** `d` is the exact distance to the next change of window. */
  ghost predicate NextChange(now: int, d: int, windowS: int) {
    && d > 0
    && IndexAfter(now, d, windowS) == IndexAfter(now, 0, windowS) + 1
    && forall e :: 0 <= e < d ==> IndexAfter(now, e, windowS) == IndexAfter(now, 0, windowS)
  }

  /** For whole-second clocks the countdown is exact if and only if the window
      is at least one second long. */
  lemma CountdownIsExactIff(now: int, windowS: int)
    ensures NextChange(now, SecondsUntilRotation(now, windowS), windowS) <==> windowS >= 1
  {
    if windowS >= 1 {
      var w, d := windowS, SecondsUntilRotation(now, windowS);
      var q := now / w;
      assert now == q * w + now % w;
      assert now + d == (q + 1) * w;
      forall e | 0 <= e < d ensures IndexAfter(now, e, windowS) == q {
        IndexOf(now + e, w, q);
      }
      IndexOf(now + d, w, q + 1);
      assert (q + 1) * w < (q + 2) * w;
    } else {
      assert now % 1 == 0;
    }
  }

  lemma IndexOf(t: int, w: int, q: int)
    requires w >= 1 && q * w <= t < (q + 1) * w
    ensures WindowIndex(t as real, w) == q
  {
    FloorAtMost(t as real, w, q);
    FloorAtMost(t as real, w, q + 1);
  }
}
