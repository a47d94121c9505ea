/** The cost ceiling of a conscious: checked when a sub-agent run starts, charged
    when it finishes.  Costs are whole units; every run costs the same. */
module CostCeiling {
  import opened Arithmetic

  /** `inFlight` runs have passed the check and are not yet charged; `peak` is
      the most there ever were at once. */
  datatype State = State(spent: nat, inFlight: nat, peak: nat)

  datatype Action = Start | Finish | Abort

  /** A ceiling of 0 or less means no limit. */
  predicate CostOk(spent: nat, ceiling: int) {
    ceiling <= 0 || spent < ceiling
  }

  function Step(st: State, a: Action, charge: nat, ceiling: int): State {
    match a
    case Start =>
      if CostOk(st.spent, ceiling) then
        State(st.spent, st.inFlight + 1, if st.inFlight + 1 > st.peak then st.inFlight + 1 else st.peak)
      else st
    case Finish => if st.inFlight > 0 then st.(spent := st.spent + charge, inFlight := st.inFlight - 1) else st
    case Abort => if st.inFlight > 0 then st.(inFlight := st.inFlight - 1) else st
  }

  function Run(st: State, acts: seq<Action>, charge: nat, ceiling: int): State {
    if acts == [] then st
    else Step(Run(st, acts[..|acts| - 1], charge, ceiling), acts[|acts| - 1], charge, ceiling)
  }

  /** Spend plus the charges still in flight stays below the ceiling plus the
      charges of the most runs ever in flight together. */
  ghost predicate Bounded(st: State, charge: nat, ceiling: int) {
    && st.inFlight <= st.peak
    && (st.peak > 0 || st.spent > 0 ==> st.spent + st.inFlight * charge < ceiling + st.peak * charge)
    && (st.peak == 0 ==> st.spent == 0)
  }

  lemma StepKeepsBound(st: State, a: Action, charge: nat, ceiling: int)
    requires ceiling > 0 && Bounded(st, charge, ceiling)
    ensures Bounded(Step(st, a, charge, ceiling), charge, ceiling)
  {
    var now := Step(st, a, charge, ceiling);
    assert (st.inFlight + 1) * charge == st.inFlight * charge + charge;
    if st.inFlight > 0 { assert (st.inFlight - 1) * charge == st.inFlight * charge - charge; }
    if a.Start? && now != st {
      MulMonotone(now.inFlight, now.peak, charge);
    }
  }

  lemma {:induction false} OvershootIsBounded(acts: seq<Action>, charge: nat, ceiling: int)
    requires ceiling > 0
    ensures var st := Run(State(0, 0, 0), acts, charge, ceiling);
            && Bounded(st, charge, ceiling)
            && st.spent < ceiling + st.peak * charge
  {
    if acts != [] {
      var st := Run(State(0, 0, 0), acts[..|acts| - 1], charge, ceiling);
      OvershootIsBounded(acts[..|acts| - 1], charge, ceiling);
      StepKeepsBound(st, acts[|acts| - 1], charge, ceiling);
      hide Step, CostOk;
      BoundOnSpend(Step(st, acts[|acts| - 1], charge, ceiling), charge, ceiling);
    }
  }

  lemma BoundOnSpend(st: State, charge: nat, ceiling: int)
    requires ceiling > 0 && Bounded(st, charge, ceiling)
    ensures st.spent < ceiling + st.peak * charge
  {
    MulMonotone(0, st.inFlight, charge);
    MulMonotone(0, st.peak, charge);
  }

  /** Once the ceiling is reached, no run starts any more. */
  lemma {:induction false} NothingStartsAtCeiling(st: State, acts: seq<Action>, charge: nat, ceiling: int)
    requires ceiling > 0 && st.spent >= ceiling
    ensures var end := Run(st, acts, charge, ceiling);
            && end.spent >= st.spent && end.inFlight <= st.inFlight && end.peak == st.peak
            && end.spent <= st.spent + st.inFlight * charge - end.inFlight * charge
  {
    if acts != [] {
      NothingStartsAtCeiling(st, acts[..|acts| - 1], charge, ceiling);
      var mid := Run(st, acts[..|acts| - 1], charge, ceiling);
      if mid.inFlight > 0 { assert (mid.inFlight - 1) * charge == mid.inFlight * charge - charge; }
    }
  }

  // ----- accounting -----

  /** The steps of a run that started something, charged it, or gave it up. */
  ghost function Started(acts: seq<Action>, charge: nat, ceiling: int): nat {
    if acts == [] then 0
    else
      var st := Run(State(0, 0, 0), acts[..|acts| - 1], charge, ceiling);
      Started(acts[..|acts| - 1], charge, ceiling)
      + (if acts[|acts| - 1].Start? && (ceiling <= 0 || st.spent < ceiling) then 1 else 0)
  }

  ghost function Ended(acts: seq<Action>, how: Action, charge: nat, ceiling: int): nat {
    if acts == [] then 0
    else
      var st := Run(State(0, 0, 0), acts[..|acts| - 1], charge, ceiling);
      Ended(acts[..|acts| - 1], how, charge, ceiling)
      + (if acts[|acts| - 1] == how && st.inFlight > 0 then 1 else 0)
  }

  /** A run starts exactly when there is no ceiling or the spend is below it. */
  lemma StartsIff(st: State, charge: nat, ceiling: int)
    ensures var now := Step(st, Start, charge, ceiling);
            && (now.inFlight == st.inFlight + 1 <==> ceiling <= 0 || st.spent < ceiling)
            && (now.inFlight != st.inFlight + 1 ==> now == st) && now.spent == st.spent
  {
  }

  /** Every started run is charged once, given up once, or still in flight, and
      the spend is what was charged. */
  lemma {:induction false} RunsAreAccounted(acts: seq<Action>, charge: nat, ceiling: int)
    ensures var st := Run(State(0, 0, 0), acts, charge, ceiling);
            && st.spent == Ended(acts, Finish, charge, ceiling) * charge
            && Started(acts, charge, ceiling)
                 == Ended(acts, Finish, charge, ceiling) + Ended(acts, Abort, charge, ceiling) + st.inFlight
  {
    if acts != [] {
      var before, a := acts[..|acts| - 1], acts[|acts| - 1];
      RunsAreAccounted(before, charge, ceiling);
      var st := Run(State(0, 0, 0), before, charge, ceiling);
      CountsSnoc(acts, charge, ceiling);
      assert Run(State(0, 0, 0), acts, charge, ceiling) == Step(st, a, charge, ceiling);
      hide Run, Started, Ended, Step;
      AccountStep(st, a, Started(before, charge, ceiling), Ended(before, Finish, charge, ceiling),
                  Ended(before, Abort, charge, ceiling), charge, ceiling);
    }
  }

  lemma AccountStep(st: State, a: Action, started: nat, charged: nat, aborted: nat, charge: nat, ceiling: int)
    requires st.spent == charged * charge && started == charged + aborted + st.inFlight
    ensures var now := Step(st, a, charge, ceiling);
            var charged' := charged + if a.Finish? && st.inFlight > 0 then 1 else 0;
            && now.spent == charged' * charge
            && started + (if a.Start? && (ceiling <= 0 || st.spent < ceiling) then 1 else 0)
                 == charged' + (aborted + if a.Abort? && st.inFlight > 0 then 1 else 0) + now.inFlight
  {
    assert (charged + 1) * charge == charged * charge + charge;
  }

  lemma CountsSnoc(acts: seq<Action>, charge: nat, ceiling: int)
    requires acts != []
    ensures var before, a := acts[..|acts| - 1], acts[|acts| - 1];
            var st := Run(State(0, 0, 0), before, charge, ceiling);
            && Started(acts, charge, ceiling)
                 == Started(before, charge, ceiling)
                    + (if a.Start? && (ceiling <= 0 || st.spent < ceiling) then 1 else 0)
            && Ended(acts, Finish, charge, ceiling)
                 == Ended(before, Finish, charge, ceiling) + (if a.Finish? && st.inFlight > 0 then 1 else 0)
            && Ended(acts, Abort, charge, ceiling)
                 == Ended(before, Abort, charge, ceiling) + (if a.Abort? && st.inFlight > 0 then 1 else 0)
  {
    hide Run;
  }

  /** The peak is the most runs that were in flight at one moment. */
  lemma {:induction false} PeakIsReached(acts: seq<Action>, charge: nat, ceiling: int)
    ensures var st := Run(State(0, 0, 0), acts, charge, ceiling);
            && (forall n :: 0 <= n <= |acts| ==> Run(State(0, 0, 0), acts[..n], charge, ceiling).inFlight <= st.peak)
            && exists n :: 0 <= n <= |acts| && Run(State(0, 0, 0), acts[..n], charge, ceiling).inFlight == st.peak
  {
    var s0 := State(0, 0, 0);
    assert acts[..|acts|] == acts;
    if acts != [] {
      var before := acts[..|acts| - 1];
      PeakIsReached(before, charge, ceiling);
      PeakStep(Run(s0, before, charge, ceiling), acts[|acts| - 1], charge, ceiling);
      assert forall n :: 0 <= n < |acts| ==> before[..n] == acts[..n];
      hide Step;
      var m :| 0 <= m < |acts| && Run(s0, before[..m], charge, ceiling).inFlight == Run(s0, before, charge, ceiling).peak;
      assert Run(s0, acts[..m], charge, ceiling).inFlight == Run(s0, before, charge, ceiling).peak;
    }
  }

  lemma PeakStep(st: State, a: Action, charge: nat, ceiling: int)
    requires st.inFlight <= st.peak
    ensures var now := Step(st, a, charge, ceiling);
            && now.inFlight <= now.peak && st.peak <= now.peak
            && (now.peak == st.peak || now.peak == now.inFlight)
  {
  }

  function Repeat(a: Action, n: nat): seq<Action> {
    seq(n, _ => a)
  }

  lemma {:induction false} StartsTogether(st: State, n: nat, charge: nat, ceiling: int)
    requires CostOk(st.spent, ceiling)
    ensures Run(st, Repeat(Start, n), charge, ceiling)
         == State(st.spent, st.inFlight + n, if n > 0 && st.inFlight + n > st.peak then st.inFlight + n else st.peak)
  {
    if n > 0 {
      assert Repeat(Start, n)[..n - 1] == Repeat(Start, n - 1);
      StartsTogether(st, n - 1, charge, ceiling);
    }
  }

  lemma {:induction false} FinishAll(st: State, n: nat, charge: nat, ceiling: int)
    requires n <= st.inFlight
    ensures Run(st, Repeat(Finish, n), charge, ceiling)
         == State(st.spent + n * charge, st.inFlight - n, st.peak)
  {
    if n > 0 {
      assert Repeat(Finish, n)[..n - 1] == Repeat(Finish, n - 1);
      FinishAll(st, n - 1, charge, ceiling);
      assert (n - 1) * charge + charge == n * charge;
    }
  }

  lemma {:induction false} RunConcat(st: State, a: seq<Action>, b: seq<Action>, charge: nat, ceiling: int)
    ensures Run(st, a + b, charge, ceiling) == Run(Run(st, a, charge, ceiling), b, charge, ceiling)
    decreases |b|
  {
    if b == [] {
      assert a + b == a;
    } else {
      RunConcat(st, a, b[..|b| - 1], charge, ceiling);
      assert (a + b)[..|a + b| - 1] == a + b[..|b| - 1];
    }
  }

  // ----- the best bound -----

  /** The most that can have been spent when a run still starts: the largest
      multiple of the charge below the ceiling. */
  function LastStart(charge: nat, ceiling: int): int
    requires charge > 0
  {
    (ceiling - 1) / charge * charge
  }

  ghost predicate SharplyBounded(st: State, charge: nat, ceiling: int)
    requires charge > 0
  {
    && st.spent % charge == 0
    && st.inFlight <= st.peak
    && (st.peak > 0 ==> st.spent + st.inFlight * charge <= LastStart(charge, ceiling) + st.peak * charge)
    && (st.peak == 0 ==> st.spent == 0)
  }

  lemma BelowCeiling(spent: nat, charge: nat, ceiling: int)
    requires charge > 0 && spent % charge == 0 && spent < ceiling
    ensures spent <= LastStart(charge, ceiling)
  {
    var q, d := spent / charge, (ceiling - 1) / charge;
    assert spent == q * charge && ceiling - 1 == d * charge + (ceiling - 1) % charge;
    assert q * charge < (d + 1) * charge;
    LessByFactor(q, d + 1, charge);
    MulMonotone(q, d, charge);
  }

  lemma ChargeKeepsMultiple(spent: nat, charge: nat)
    requires charge > 0 && spent % charge == 0
    ensures (spent + charge) % charge == 0
  {
    var q := spent / charge;
    assert spent + charge == (q + 1) * charge;
    MultipleHasNoRest(q + 1, charge);
  }

  lemma MultipleHasNoRest(q: nat, charge: nat)
    requires charge > 0
    ensures q * charge % charge == 0
  {
    var n := q * charge;
    var d, r := n / charge, n % charge;
    assert n == d * charge + r && (q - d) * charge == r;
    if q - d >= 1 { MulMonotone(1, q - d, charge); }
    if d - q >= 0 { MulMonotone(0, d - q, charge); assert (d - q) * charge == 0 - r; }
  }

  lemma StepKeepsSharpBound(st: State, a: Action, charge: nat, ceiling: int)
    requires ceiling > 0 && charge > 0 && SharplyBounded(st, charge, ceiling)
    ensures SharplyBounded(Step(st, a, charge, ceiling), charge, ceiling)
  {
    var now := Step(st, a, charge, ceiling);
    match a
    case Start =>
      if now != st {
        BelowCeiling(st.spent, charge, ceiling);
        MulMonotone(now.inFlight, now.peak, charge);
      }
      hide LastStart;
    case Finish =>
      ChargeKeepsMultiple(st.spent, charge);
      hide LastStart;
      if st.inFlight > 0 { assert (st.inFlight - 1) * charge + charge == st.inFlight * charge; }
    case Abort =>
      hide LastStart;
      if st.inFlight > 0 { assert (st.inFlight - 1) * charge + charge == st.inFlight * charge; }
  }

  /** In every run, for every positive charge, spend is at most the last amount at
      which a run may start plus the charges of the most runs in flight together. */
  lemma {:induction false} SpendIsAtMost(acts: seq<Action>, charge: nat, ceiling: int)
    requires ceiling > 0 && charge > 0
    ensures var st := Run(State(0, 0, 0), acts, charge, ceiling);
            && SharplyBounded(st, charge, ceiling)
            && (st.peak > 0 ==> st.spent <= LastStart(charge, ceiling) + st.peak * charge)
  {
    hide Step, LastStart;
    if acts != [] {
      var st := Run(State(0, 0, 0), acts[..|acts| - 1], charge, ceiling);
      SpendIsAtMost(acts[..|acts| - 1], charge, ceiling);
      StepKeepsSharpBound(st, acts[|acts| - 1], charge, ceiling);
      MulMonotone(0, Step(st, acts[|acts| - 1], charge, ceiling).inFlight, charge);
    }
  }

  lemma {:induction false} OneAfterAnother(n: nat, charge: nat, ceiling: int) returns (acts: seq<Action>)
    requires n > 0 ==> (n - 1) * charge < ceiling
    ensures Run(State(0, 0, 0), acts, charge, ceiling) == State(n * charge, 0, if n > 0 then 1 else 0)
  {
    if n == 0 {
      acts := [];
    } else {
      if n > 1 { MulMonotone(n - 2, n - 1, charge); }
      var before := OneAfterAnother(n - 1, charge, ceiling);
      acts := before + [Start] + [Finish];
      var st := State((n - 1) * charge, 0, if n > 1 then 1 else 0);
      RunConcat(State(0, 0, 0), before, [Start], charge, ceiling);
      RunConcat(State(0, 0, 0), before + [Start], [Finish], charge, ceiling);
      RunSingle(st, Start, charge, ceiling);
      RunSingle(State(st.spent, 1, 1), Finish, charge, ceiling);
      hide Run;
      assert (n - 1) * charge + charge == n * charge;
    }
  }

  lemma RunSingle(st: State, a: Action, charge: nat, ceiling: int)
    ensures Run(st, [a], charge, ceiling) == Step(st, a, charge, ceiling)
  {
    hide Step;
    assert [a][..0] == [];
  }

  /** That bound cannot be improved: for every charge, ceiling and peak there is
      a run that reaches it. */
  lemma BoundIsTight(charge: nat, ceiling: int, k: nat) returns (acts: seq<Action>)
    requires ceiling > 0 && charge > 0 && k > 0
    ensures var st := Run(State(0, 0, 0), acts, charge, ceiling);
            st.peak == k && st.spent == LastStart(charge, ceiling) + k * charge
  {
    var n := (ceiling - 1) / charge;
    assert n * charge <= ceiling - 1;
    if n > 0 { MulMonotone(n - 1, n, charge); }
    var solo := OneAfterAnother(n, charge, ceiling);
    var st := Run(State(0, 0, 0), solo, charge, ceiling);
    acts := solo + (Repeat(Start, k) + Repeat(Finish, k));
    RunConcat(State(0, 0, 0), solo, Repeat(Start, k) + Repeat(Finish, k), charge, ceiling);
    RunConcat(st, Repeat(Start, k), Repeat(Finish, k), charge, ceiling);
    StartsTogether(st, k, charge, ceiling);
    FinishAll(Run(st, Repeat(Start, k), charge, ceiling), k, charge, ceiling);
    hide Run;
  }

  /** The spend of one conscious, with the runs in flight as ghost fields. */
  class Ledger {
    const ceiling: int
    const charge: nat
    var spent: nat
    ghost var inFlight: nat
    ghost var peak: nat

    ghost function Abs(): State
      reads this
    {
      State(spent, inFlight, peak)
    }

    ghost predicate Valid()
      reads this
    {
      ceiling > 0 ==> Bounded(Abs(), charge, ceiling)
    }

    constructor (ceiling: int, charge: nat)
      ensures this.ceiling == ceiling && this.charge == charge
      ensures Valid() && Abs() == State(0, 0, 0)
    {
      this.ceiling, this.charge := ceiling, charge;
      spent, inFlight, peak := 0, 0, 0;
    }

    /** The check at the start of an invoke or delegate.  Whatever is refused,
        the spend has reached the ceiling; whatever starts keeps the bound. */
    method MayStart() returns (ok: bool)
      requires Valid()
      modifies this
      ensures Valid() && Abs() == Step(old(Abs()), Start, charge, ceiling)
      ensures ok <==> inFlight == old(inFlight) + 1
      ensures !ok ==> 0 < ceiling <= spent && Abs() == old(Abs())
    {
      if ceiling > 0 { StepKeepsBound(Abs(), Start, charge, ceiling); }
      ok := ceiling <= 0 || spent < ceiling;
      if ok {
        inFlight := inFlight + 1;
        peak := if inFlight > peak then inFlight else peak;
      }
    }

    /** The charge at the end of a run; the overshoot stays bounded. */
    method BumpCost()
      requires Valid() && inFlight > 0
      modifies this
      ensures Valid() && Abs() == Step(old(Abs()), Finish, charge, ceiling)
      ensures ceiling > 0 ==> spent < ceiling + peak * charge
    {
      if ceiling > 0 {
        StepKeepsBound(Abs(), Finish, charge, ceiling);
        BoundOnSpend(Step(Abs(), Finish, charge, ceiling), charge, ceiling);
      }
      spent := spent + charge;
      inFlight := inFlight - 1;
    }
  }
}
