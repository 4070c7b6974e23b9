/** Round-robin selection with fail-over (src/dns/upstream/mod.rs). */
module RoundRobin {
  import opened Wrappers
  import opened Bytes

  /** The counter is a 64-bit `AtomicUsize`. */
  const COUNTER_LIMIT: nat := 0x1_0000_0000_0000_0000

  /** The server at place `i` of the cyclic order that starts with `start`. */
  function Visit(start: nat, i: nat, n: nat): (s: nat)
    requires n > 0
    ensures s < n
  {
    (start + i) % n
  }

  /** Where server `s` comes in that order. */
  function PlaceOf(start: nat, s: nat, n: nat): nat
    requires start < n && s < n
  {
    if s >= start then s - start else s + n - start
  }

  /** Every server comes exactly once in the cyclic order. */
  lemma VisitsEachOnce(start: nat, n: nat, s: nat, i: nat)
    requires start < n && s < n && i < n
    ensures Visit(start, i, n) == s <==> i == PlaceOf(start, s, n)
    ensures Visit(start, i, n) == s <==> start + i == s || start + i == s + n
  {
    if start + i < n {
      QuotientUnique(start + i, n, 0, start + i);
    } else {
      QuotientUnique(start + i, n, 1, start + i - n);
    }
  }

  /** The reply and the server that gave it; each server either replies or fails, by error or by timeout. */
  datatype Answer<R> = Answer(server: nat, reply: R)

  class UpstreamGroup<R> {
    const servers: nat
    var counter: nat

    constructor (servers: nat)
      ensures Valid() && this.servers == servers && counter == 0
    {
      this.servers := servers;
      counter := 0;
    }

    ghost predicate Valid()
      reads this
    {
      counter < COUNTER_LIMIT
    }

    /** `query_round_robin`; `tried` records the servers asked, in order. */
    method QueryRoundRobin(replies: seq<Option<R>>) returns (r: Option<Answer<R>>, tried: seq<nat>)
      requires Valid() && |replies| == servers > 0
      modifies this
      ensures Valid() && counter == (old(counter) + 1) % 0x1_0000_0000_0000_0000
      ensures 0 < |tried| <= servers && tried[0] == old(counter) % servers
      ensures forall i | 0 <= i < |tried| :: tried[i] == (tried[0] + i) % servers < servers
      ensures forall i | 0 <= i < |tried| - 1 :: replies[tried[i]].None?
      ensures r.Some? ==> r.value.server == tried[|tried| - 1] && replies[r.value.server] == Some(r.value.reply)
      ensures r.None? <==> forall s | 0 <= s < servers :: replies[s].None?
    {
      var n := servers;
      var start := counter % n;
      counter := (counter + 1) % COUNTER_LIMIT;
      tried := [];
      for i := 0 to n
        invariant |tried| == i
        invariant forall j | 0 <= j < i :: tried[j] == (start + j) % n < n && replies[tried[j]].None?
      {
        var server := (start + i) % n;
        tried := tried + [server];
        if replies[server].Some? {
          VisitsEachOnce(start, n, start, 0);
          return Some(Answer(server, replies[server].value)), tried;
        }
      }
      VisitsEachOnce(start, n, start, 0);
      forall s | 0 <= s < n
        ensures replies[s].None?
      {
        VisitsEachOnce(start, n, s, PlaceOf(start, s, n));
        assert tried[PlaceOf(start, s, n)] == Visit(start, PlaceOf(start, s, n), n) == s;
      }
      r := None;
    }

    /** `query` with the round-robin strategy; a group without servers fails at once. */
    method Query(replies: seq<Option<R>>) returns (r: Option<Answer<R>>)
      requires Valid() && |replies| == servers
      modifies this
      ensures Valid() && counter == if servers == 0 then old(counter) else (old(counter) + 1) % COUNTER_LIMIT
      ensures r.None? <==> forall s | 0 <= s < servers :: replies[s].None?
      ensures r.Some? ==> r.value.server < servers && replies[r.value.server] == Some(r.value.reply)
    {
      if servers == 0 {
        return None;
      }
      var tried;
      r, tried := QueryRoundRobin(replies);
    }
  }

  // ---------------------------------------------------------------- fairness

  /** The counter after `k` queries on a new group. */
  function CounterAfter(k: nat): (c: nat)
    ensures c < COUNTER_LIMIT
  {
    if k == 0 then 0 else (CounterAfter(k - 1) + 1) % COUNTER_LIMIT
  }

  /** How many of the first `k` queries try server `s` first; the atomic counter orders concurrent queries. */
  function FirstTries(k: nat, n: nat, s: nat): nat
    requires n > 0
  {
    if k == 0 then 0
    else FirstTries(k - 1, n, s) + if CounterAfter(k - 1) % n == s then 1 else 0
  }

  lemma {:induction false} CounterCounts(k: nat)
    requires k < COUNTER_LIMIT
    ensures CounterAfter(k) == k
  {
    if k > 0 {
      CounterCounts(k - 1);
    }
  }

  /** Over the first `k` queries each server is tried first `k / n` times, and the first `k % n` servers once more. */
  lemma {:induction false} FairShare(k: nat, n: nat, s: nat)
    requires k <= COUNTER_LIMIT && s < n
    ensures FirstTries(k, n, s) == k / n + if s < k % n then 1 else 0
  {
    if k > 0 {
      FairShare(k - 1, n, s);
      CounterCounts(k - 1);
      hide CounterAfter;
      NextDivision(k - 1, n);
    } else {
      QuotientUnique(0, n, 0, 0);
    }
  }

  lemma NextDivision(k: nat, n: nat)
    requires n > 0
    ensures k % n + 1 < n ==> (k + 1) / n == k / n && (k + 1) % n == k % n + 1
    ensures k % n + 1 == n ==> (k + 1) / n == k / n + 1 && (k + 1) % n == 0
    ensures k % n < n
  {
    var q, r := k / n, k % n;
    assert k == n * q + r;
    if r + 1 < n {
      QuotientUnique(k + 1, n, q, r + 1);
    } else {
      assert n * (q + 1) == n * q + n;
      QuotientUnique(k + 1, n, q + 1, 0);
    }
  }

  /** When the counter wraps, the turn passes on to the next server exactly when the server count divides 2^64. */
  lemma WrapKeepsTurnsIff(n: nat)
    requires 0 < n <= COUNTER_LIMIT
    ensures CounterAfter(COUNTER_LIMIT) % n == Visit(CounterAfter(COUNTER_LIMIT - 1) % n, 1, n)
          <==> COUNTER_LIMIT % n == 0
  {
    hide CounterAfter;
    var last := COUNTER_LIMIT - 1;
    CounterCounts(last);
    assert CounterAfter(COUNTER_LIMIT) == 0 by {
      OneMore(last);
    }
    NextDivision(last, n);
    QuotientUnique(0, n, 0, 0);
    if last % n + 1 < n {
      QuotientUnique(last % n + 1, n, 0, last % n + 1);
    } else {
      QuotientUnique(n, n, 1, 0);
    }
  }

  lemma OneMore(k: nat)
    ensures CounterAfter(k + 1) == (CounterAfter(k) + 1) % COUNTER_LIMIT
  {
  }
}
