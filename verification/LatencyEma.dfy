/**
  The latency average kept in an atomic slot (`update_ema`, src/stats/mod.rs): integer bounds of the
  truncating average, and what the compare-and-swap loop leaves under every interleaving.
*/
module LatencyEma {
  import opened Wrappers

  const U64_LIMIT: nat := 0x1_0000_0000_0000_0000

  /** The new average; 0 means that nothing was observed yet. */
  function Next(current: nat, observed: nat): nat
  {
    if current == 0 then observed else observed / 10 + current * 9 / 10
  }

  /** The first observation is taken as it is; later ones weigh a tenth, up to two roundings down. */
  lemma TenthWeight(current: nat, observed: nat)
    ensures current == 0 ==> Next(current, observed) == observed
    ensures current > 0 ==> observed + 9 * current - 18 <= 10 * Next(current, observed) <= observed + 9 * current
  {
  }

  /** The average after a series of observations, from an unset slot. */
  function Average(observed: seq<nat>): nat
  {
    if observed == [] then 0 else Next(Average(observed[..|observed| - 1]), observed[|observed| - 1])
  }

  ghost predicate AllWithin(observed: seq<nat>, low: nat, high: nat)
  {
    forall x | x in observed :: low <= x <= high
  }

  /** One truncating step never loses more than 9 below the smallest observation, and never rises above the largest. */
  lemma NextWithin(current: nat, observed: nat, low: nat, high: nat)
    requires low <= observed <= high && low - 9 <= current <= high
    ensures low - 9 <= Next(current, observed) <= high
  {
    var floor := low - 9;
    assert observed / 10 >= low / 10;
    if floor >= 0 {
      assert current * 9 / 10 >= floor * 9 / 10;
      assert low / 10 + floor * 9 / 10 >= floor by {
        var a, b := low / 10, low % 10;
        assert low == 10 * a + b;
        assert floor * 9 == 90 * a + 9 * b - 81;
      }
    }
  }

  /**
    The average of observations in `low..high` lies in `low - 9..high`, and no product on the way
    overflows 64 bits unless nine times an observation does.
    */
  lemma {:induction false} AverageWithin(observed: seq<nat>, low: nat, high: nat)
    requires observed != [] && AllWithin(observed, low, high)
    ensures low - 9 <= Average(observed) <= high
    ensures high * 9 < U64_LIMIT ==> Average(observed) * 9 < U64_LIMIT
  {
    var n := |observed| - 1;
    assert observed[n] in observed;
    if n > 0 {
      assert forall x | x in observed[..n] :: x in observed;
      AverageWithin(observed[..n], low, high);
      NextWithin(Average(observed[..n]), observed[n], low, high);
    }
  }

  function Steady(x: nat, n: nat): (s: seq<nat>)
    ensures |s| == n && forall y | y in s :: y == x
  {
    seq(n, _ => x)
  }

  /** The bound is exact: a steady latency ending in 9 is averaged down by 9 within ten observations. */
  lemma {:induction false} SteadyLosesNine(tens: nat, k: nat)
    requires tens > 0 && k <= 9
    ensures Average(Steady(10 * tens + 9, k + 1)) == 10 * tens + 9 - k
  {
    var x := 10 * tens + 9;
    assert Steady(x, k + 1)[..k] == Steady(x, k);
    if k > 0 {
      SteadyLosesNine(tens, k - 1);
      var c := x - (k - 1);
      assert c * 9 == 90 * tens + 90 - 9 * k;
      assert c * 9 / 10 == 9 * tens + 9 - k;
    } else {
      assert Average(Steady(x, 0)) == 0;
    }
  }

  // ---------------------------------------------------------------- the compare-and-swap loop

  /** A caller between its load and its successful exchange. */
  datatype Update = Update(observed: nat, current: nat)

  /** `done` lists the observations in the order of their successful exchanges. */
  datatype State = State(slot: nat, waiting: map<nat, Update>, done: seq<nat>)

  const START := State(0, map[], [])

  datatype Step =
    | Load(t: nat, observed: nat)
    | CompareExchange(t: nat)

  predicate Enabled(s: State, step: Step)
  {
    match step
    case Load(t, _) => t !in s.waiting
    case CompareExchange(t) => t in s.waiting
  }

  function Apply(s: State, step: Step): State
    requires Enabled(s, step)
  {
    match step
    case Load(t, observed) => s.(waiting := s.waiting[t := Update(observed, s.slot)])
    case CompareExchange(t) =>
      var u := s.waiting[t];
      if s.slot == u.current then State(Next(u.current, u.observed), s.waiting - {t}, s.done + [u.observed])
      else s.(waiting := s.waiting[t := u.(current := s.slot)])
  }

  function Run(steps: seq<Step>): Option<State>
  {
    if steps == [] then Some(START)
    else
      match Run(steps[..|steps| - 1])
      case None => None
      case Some(s) =>
        var step := steps[|steps| - 1];
        if Enabled(s, step) then Some(Apply(s, step)) else None
  }

  /** The observations of the calls made so far. */
  function Loaded(steps: seq<Step>): multiset<nat>
  {
    if steps == [] then multiset{}
    else
      Loaded(steps[..|steps| - 1])
      + match steps[|steps| - 1] case Load(_, observed) => multiset{observed} case CompareExchange(_) => multiset{}
  }

  /** Every interleaving leaves the average of the finished observations in the order of their exchanges. */
  lemma {:induction false} SlotIsAverage(steps: seq<Step>, s: State)
    requires Run(steps) == Some(s)
    ensures s.slot == Average(s.done)
  {
    if steps != [] {
      var n := |steps| - 1;
      var before := Run(steps[..n]).value;
      SlotIsAverage(steps[..n], before);
      if steps[n].CompareExchange? && before.slot == before.waiting[steps[n].t].current {
        assert s.done[..|s.done| - 1] == before.done;
      }
    }
  }

  /** The callers waiting with this observation. */
  function Holding(waiting: map<nat, Update>, x: nat): set<nat>
  {
    set t | t in waiting && waiting[t].observed == x
  }

  /** No observation is lost or counted twice: each is with a waiting caller or among the finished ones. */
  lemma {:induction false} NothingLost(steps: seq<Step>, s: State, x: nat)
    requires Run(steps) == Some(s)
    ensures multiset(s.done)[x] + |Holding(s.waiting, x)| == Loaded(steps)[x]
  {
    if steps != [] {
      var n := |steps| - 1;
      var before := Run(steps[..n]).value;
      NothingLost(steps[..n], before, x);
      StepAccounts(before, steps[n], x);
    } else {
      assert Holding(map[], x) == {};
    }
  }

  lemma StepAccounts(s: State, step: Step, x: nat)
    requires Enabled(s, step)
    ensures var s' := Apply(s, step);
            multiset(s'.done)[x] + |Holding(s'.waiting, x)|
              == multiset(s.done)[x] + |Holding(s.waiting, x)| + if step.Load? && step.observed == x then 1 else 0
  {
    var s', held := Apply(s, step), Holding(s.waiting, x);
    assert step.t in held <==> step.t in s.waiting && s.waiting[step.t].observed == x;
    hide Holding, Next;
    if step.t in s'.waiting {
      HoldingUpdate(s.waiting, step.t, s'.waiting[step.t], x);
      assert held - {step.t} == held || held + {step.t} == held;
    } else {
      HoldingRemove(s.waiting, step.t, x);
    }
  }

  lemma HoldingUpdate(waiting: map<nat, Update>, t: nat, u: Update, x: nat)
    ensures var held := Holding(waiting, x);
            Holding(waiting[t := u], x) == if u.observed == x then held + {t} else held - {t}
  {
  }

  lemma HoldingRemove(waiting: map<nat, Update>, t: nat, x: nat)
    ensures Holding(waiting - {t}, x) == Holding(waiting, x) - {t}
  {
  }

  /** When no update is under way, the slot averages exactly the observations made. */
  lemma QuietSlot(steps: seq<Step>, s: State)
    requires Run(steps) == Some(s) && s.waiting == map[]
    ensures s.slot == Average(s.done) && multiset(s.done) == Loaded(steps)
  {
    SlotIsAverage(steps, s);
    forall x
      ensures multiset(s.done)[x] == Loaded(steps)[x]
    {
      NothingLost(steps, s, x);
      assert Holding(map[], x) == {};
    }
  }

  /** Over every interleaving of updates with latencies in `low..high`, a set slot stays in `low - 9..high`. */
  lemma SlotWithin(steps: seq<Step>, s: State, low: nat, high: nat)
    requires Run(steps) == Some(s) && s.done != []
    requires forall step | step in steps && step.Load? :: low <= step.observed <= high
    ensures low - 9 <= s.slot <= high
  {
    SlotIsAverage(steps, s);
    forall x | x in s.done
      ensures low <= x <= high
    {
      NothingLost(steps, s, x);
      assert x in multiset(s.done);
      LoadedBy(steps, x);
    }
    AverageWithin(s.done, low, high);
  }

  lemma {:induction false} LoadedBy(steps: seq<Step>, x: nat)
    requires x in Loaded(steps)
    ensures exists step | step in steps :: step.Load? && step.observed == x
  {
    var n := |steps| - 1;
    if x in Loaded(steps[..n]) {
      LoadedBy(steps[..n], x);
    } else {
      assert steps[n] in steps;
    }
  }
}
