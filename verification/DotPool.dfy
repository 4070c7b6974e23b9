/**
  The DNS-over-TLS connection pool (src/dns/upstream/dot.rs): a semaphore bounds the queries
  in progress and a locked deque keeps their connections between queries.
*/
module DotPool {
  import opened Wrappers
  import opened Sets

  const POOL_CAPACITY: nat := 8

  type Conn = nat

  /** Where a query is, from the moment it holds a permit until it gives the permit back. */
  datatype Phase =
    | Acquired                     // before `idle.lock().await.pop_front()`
    | Reusing(conn: Conn)          // exchanging on a popped connection, the lock guard still alive
    | ReturningReused(conn: Conn)  // in `put_back` from the reuse branch, the guard still alive
    | Connecting(attempt: nat)     // in `connect_and_exchange`
    | ReturningNew(conn: Conn)     // in `put_back` with a new connection

  datatype State = State(idle: seq<Conn>, holders: map<nat, Phase>, lock: Option<nat>)

  const START := State([], map[], None)

  datatype Step =
    | Acquire(q: nat)
    | Pop(q: nat)
    | ReuseSucceeds(q: nat)
    | ReuseFails(q: nat)
    | ConnectSucceeds(q: nat, conn: Conn)
    | ConnectFails(q: nat)
    | PutBack(q: nat)
    | Cancel(q: nat)

  predicate Claims(p: Phase)
  {
    p.Reusing? || p.ReturningReused? || p.ReturningNew?
  }

  predicate HoldsGuard(p: Phase)
  {
    p.Reusing? || p.ReturningReused?
  }

  predicate InUse(s: State, c: Conn)
  {
    c in s.idle || exists q | q in s.holders :: Claims(s.holders[q]) && s.holders[q].conn == c
  }

  predicate Enabled(s: State, step: Step)
  {
    match step
    case Acquire(q) => q !in s.holders && |s.holders| < POOL_CAPACITY
    case Pop(q) => q in s.holders && s.holders[q].Acquired? && s.lock.None?
    case ReuseSucceeds(q) => q in s.holders && s.holders[q].Reusing?
    case ReuseFails(q) => q in s.holders && s.holders[q].Reusing?
    case ConnectSucceeds(q, conn) => q in s.holders && s.holders[q].Connecting? && !InUse(s, conn)
    case ConnectFails(q) => q in s.holders && s.holders[q].Connecting?
    case PutBack(q) =>
      q in s.holders && (s.holders[q].ReturningReused? || s.holders[q].ReturningNew?) && s.lock.None?
    case Cancel(q) => q in s.holders
  }

  /** The query ends: its permit goes back, and its guard, if any, is dropped. */
  function Release(s: State, q: nat): State
  {
    s.(holders := s.holders - {q}, lock := if s.lock == Some(q) then None else s.lock)
  }

  function Apply(s: State, step: Step): State
    requires Enabled(s, step)
  {
    match step
    case Acquire(q) => s.(holders := s.holders[q := Acquired])
    case Pop(q) =>
      if s.idle != [] then
        State(s.idle[1..], s.holders[q := Reusing(s.idle[0])], Some(q))
      else
        s.(holders := s.holders[q := Connecting(0)])
    case ReuseSucceeds(q) => s.(holders := s.holders[q := ReturningReused(s.holders[q].conn)])
    case ReuseFails(q) => s.(holders := s.holders[q := Connecting(0)], lock := None)
    case ConnectSucceeds(q, conn) => s.(holders := s.holders[q := ReturningNew(conn)])
    case ConnectFails(q) =>
      if s.holders[q].attempt == 0 then s.(holders := s.holders[q := Connecting(1)]) else Release(s, q)
    case PutBack(q) =>
      var kept := if |s.idle| < POOL_CAPACITY then s.(idle := s.idle + [s.holders[q].conn]) else s;
      Release(kept, q)
    case Cancel(q) => Release(s, q)
  }

  function Run(steps: seq<Step>): Option<State>
  {
    if steps == [] then Some(START)
    else
      match Run(steps[..|steps| - 1])
      case None => None
      case Some(s) =>
        var step := steps[|steps| - 1];
        if Enabled(s, step) then Some(Apply(s, step)) else None
  }

  // ---------------------------------------------------------------- invariants

  /** The queries past the pop, each of which has or may get a connection. */
  function Busy(holders: map<nat, Phase>): set<nat>
  {
    set q | q in holders && !holders[q].Acquired?
  }

  function Claimers(holders: map<nat, Phase>): set<nat>
  {
    set q | q in holders && Claims(holders[q])
  }

  ghost predicate SizeInv(s: State)
  {
    |s.holders| <= POOL_CAPACITY && |s.idle| + |Busy(s.holders)| <= POOL_CAPACITY
  }

  /** The guard is held exactly by a query in the reuse branch. */
  ghost predicate LockInv(s: State)
  {
    forall q :: s.lock == Some(q) <==> q in s.holders && HoldsGuard(s.holders[q])
  }

  /** No connection is idle twice, idle and claimed, or claimed twice. */
  ghost predicate ConnInv(s: State)
  {
    && (forall i, j | 0 <= i < j < |s.idle| :: s.idle[i] != s.idle[j])
    && (forall q | q in s.holders && Claims(s.holders[q]) :: s.holders[q].conn !in s.idle)
    && (forall p, q | p in s.holders && q in s.holders && p != q && Claims(s.holders[p]) && Claims(s.holders[q]) ::
          s.holders[p].conn != s.holders[q].conn)
  }

  lemma BusyUpdate(holders: map<nat, Phase>, q: nat, p: Phase)
    ensures Busy(holders[q := p]) == if p.Acquired? then Busy(holders) - {q} else Busy(holders) + {q}
    ensures |holders[q := p]| == if q in holders then |holders| else |holders| + 1
  {
    assert holders[q := p].Keys == holders.Keys + {q};
  }

  lemma BusyRemove(holders: map<nat, Phase>, q: nat)
    requires q in holders
    ensures Busy(holders - {q}) == Busy(holders) - {q}
    ensures |holders - {q}| == |holders| - 1
  {
    assert (holders - {q}).Keys == holders.Keys - {q};
  }

  lemma StepKeepsSize(s: State, step: Step)
    requires SizeInv(s) && Enabled(s, step)
    ensures SizeInv(Apply(s, step))
  {
    var q, t := step.q, Apply(s, step);
    SubsetSize(Busy(t.holders), t.holders.Keys);
    if q in t.holders {
      BusyUpdate(s.holders, q, t.holders[q]);
    } else {
      BusyRemove(s.holders, q);
    }
  }

  lemma StepKeepsLock(s: State, step: Step)
    requires LockInv(s) && Enabled(s, step)
    ensures LockInv(Apply(s, step))
  {
  }

  lemma StepKeepsConns(s: State, step: Step)
    requires ConnInv(s) && Enabled(s, step)
    ensures ConnInv(Apply(s, step))
  {
    if step.Pop? && s.idle != [] {
      assert s.idle[0] in s.idle;
      assert forall c | c in s.idle[1..] :: c in s.idle;
    } else if step.PutBack? {
      assert forall c | c in s.idle + [s.holders[step.q].conn] :: c in s.idle || c == s.holders[step.q].conn;
    }
  }

  lemma {:induction false} RunKeepsInv(steps: seq<Step>, s: State)
    requires Run(steps) == Some(s)
    ensures SizeInv(s) && LockInv(s) && ConnInv(s)
    decreases steps
  {
    if steps != [] {
      var n := |steps| - 1;
      var before := Run(steps[..n]).value;
      RunKeepsInv(steps[..n], before);
      StepKeepsSize(before, steps[n]);
      StepKeepsLock(before, steps[n]);
      StepKeepsConns(before, steps[n]);
    } else {
      assert Busy(map[]) == {};
    }
  }

  // ---------------------------------------------------------------- main results

  /** Over every interleaving, idle and claimed connections together never exceed the capacity of eight. */
  lemma ConnectionsBounded(steps: seq<Step>, s: State)
    requires Run(steps) == Some(s)
    ensures |s.idle| + |Claimers(s.holders)| <= 8
  {
    RunKeepsInv(steps, s);
    SubsetSize(Claimers(s.holders), Busy(s.holders));
  }

  /** `put_back` always finds room: it never throws a connection away. */
  lemma PutBackNeverDiscards(steps: seq<Step>, s: State, q: nat)
    requires Run(steps) == Some(s) && Enabled(s, PutBack(q))
    ensures Apply(s, PutBack(q)).idle == s.idle + [s.holders[q].conn]
  {
    RunKeepsInv(steps, s);
    SubsetSize({q}, Busy(s.holders));
  }

  /** A connection serves at most one query at a time. */
  lemma ConnectionsExclusive(steps: seq<Step>, s: State, p: nat, q: nat)
    requires Run(steps) == Some(s)
    requires p in s.holders && q in s.holders && Claims(s.holders[p]) && Claims(s.holders[q])
    ensures s.holders[p].conn !in s.idle
    ensures s.holders[p].conn == s.holders[q].conn ==> p == q
  {
    RunKeepsInv(steps, s);
  }

  /** Only cancellation ends a query that answered on a reused connection. */
  ghost predicate StuckBehindOwnGuard(s: State, q: nat)
  {
    q in s.holders && s.holders[q].ReturningReused? && s.lock == Some(q)
  }

  /**
    The guard taken before the pop lives through the reuse branch, so `put_back` waits there
    for a lock that its own query holds.
    */
  lemma ReusedConnectionNeverReturns(steps: seq<Step>, s: State, q: nat)
    requires Run(steps) == Some(s) && q in s.holders && s.holders[q].ReturningReused?
    ensures StuckBehindOwnGuard(s, q)
    ensures forall p :: !Enabled(s, PutBack(p)) && !Enabled(s, Pop(p))
    ensures forall step | Enabled(s, step) && step != Cancel(q) :: StuckBehindOwnGuard(Apply(s, step), q)
  {
    RunKeepsInv(steps, s);
    forall step | Enabled(s, step) && step != Cancel(q)
      ensures StuckBehindOwnGuard(Apply(s, step), q)
    {
      assert step.ReuseSucceeds? || step.ReuseFails? ==> s.lock == Some(step.q);
    }
  }
}
