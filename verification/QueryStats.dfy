/**
  Query statistics (`record_query`, src/stats/mod.rs): counters that many tasks bump at the same
  time, and the ring buffer of recent queries. The latency averages are in LatencyEma.
*/
module QueryStats {
  import opened Wrappers
  import opened Sets

  datatype QueryEntry = QueryEntry(
    id: string, client: string, qtype: string, upstream: string, originalUpstream: string, rcode: string,
    rule: Option<string>, cached: bool, blocked: bool)

  datatype UpstreamStat = UpstreamStat(queries: nat, success: nat, failed: nat)

  const NO_STAT: UpstreamStat := UpstreamStat(0, 0, 0)

  type Buckets = map<string, nat>

  datatype Stats = Stats(
    totalQueries: nat, totalBlocked: nat, totalFailed: nat, cacheHits: nat, hostsHits: nat,
    byType: Buckets, byRcode: Buckets, clientStats: Buckets, upstreamStats: map<string, UpstreamStat>,
    ruleStats: Buckets, log: seq<QueryEntry>)

  // ---------------------------------------------------------------- the steps of record_query

  function Count(buckets: Buckets, key: string): nat
  {
    if key in buckets then buckets[key] else 0
  }

  function Bump(buckets: Buckets, key: string): Buckets
  {
    buckets[key := Count(buckets, key) + 1]
  }

  function StatOf(stats: map<string, UpstreamStat>, key: string): UpstreamStat
  {
    if key in stats then stats[key] else NO_STAT
  }

  predicate IsFailure(e: QueryEntry)
  {
    !e.blocked && e.rcode != "NOERROR" && e.rcode != "Empty"
  }

  predicate IsSuccess(e: QueryEntry)
  {
    !e.blocked && e.rcode == "NOERROR"
  }

  predicate FromHosts(e: QueryEntry)
  {
    e.upstream == "hosts" || e.upstream == "dynamic-hosts"
  }

  /** Is the query charged to an upstream? */
  predicate IsCharged(e: QueryEntry)
  {
    e.originalUpstream != "" && e.originalUpstream != "strategy" && e.originalUpstream != "hosts"
    && e.originalUpstream != "dynamic-hosts"
  }

  /** `UpstreamStatInner::record`. */
  function Charge(stat: UpstreamStat, e: QueryEntry): UpstreamStat
  {
    UpstreamStat(stat.queries + 1, if IsSuccess(e) then stat.success + 1 else stat.success,
                 if !IsSuccess(e) && IsFailure(e) then stat.failed + 1 else stat.failed)
  }

  /** Drop the oldest entry of a full log, then append. */
  function PushLog(log: seq<QueryEntry>, capacity: nat, e: QueryEntry): seq<QueryEntry>
  {
    (if |log| >= capacity && log != [] then log[1..] else log) + [e]
  }

  const LAST_STAGE: nat := 9

  /** The steps on the plain counters. */
  function BumpTotal(s: Stats, stage: nat, e: QueryEntry): (r: Stats)
    ensures r.log == s.log
  {
    if stage == 0 then s.(totalQueries := s.totalQueries + 1)
    else if stage == 1 then
      if e.blocked then s.(totalBlocked := s.totalBlocked + 1)
      else if e.rcode != "NOERROR" && e.rcode != "Empty" then s.(totalFailed := s.totalFailed + 1)
      else s
    else if stage == 2 then if e.cached then s.(cacheHits := s.cacheHits + 1) else s
    else if FromHosts(e) then s.(hostsHits := s.hostsHits + 1) else s
  }

  /** The steps on the buckets that every query has. */
  function BumpBucket(s: Stats, stage: nat, e: QueryEntry): (r: Stats)
    ensures r.log == s.log
  {
    if stage == 4 then s.(byType := Bump(s.byType, e.qtype))
    else if stage == 5 then s.(byRcode := Bump(s.byRcode, e.rcode))
    else s.(clientStats := Bump(s.clientStats, e.client))
  }

  function ChargeUpstream(s: Stats, e: QueryEntry): (r: Stats)
    ensures r.log == s.log
  {
    if IsCharged(e) then
      s.(upstreamStats := s.upstreamStats[e.originalUpstream := Charge(StatOf(s.upstreamStats, e.originalUpstream), e)])
    else s
  }

  function CountRule(s: Stats, e: QueryEntry): (r: Stats)
    ensures r.log == s.log
  {
    if e.rule.Some? then s.(ruleStats := Bump(s.ruleStats, e.rule.value)) else s
  }

  /** What the numbered atomic steps of one call do. */
  function Perform(s: Stats, stage: nat, e: QueryEntry, capacity: nat): Stats
    requires stage <= LAST_STAGE
  {
    if stage <= 3 then BumpTotal(s, stage, e)
    else if stage <= 6 then BumpBucket(s, stage, e)
    else if stage == 7 then ChargeUpstream(s, e)
    else if stage == 8 then CountRule(s, e)
    else s.(log := PushLog(s.log, capacity, e))
  }

  /** The steps from `stage` on, by one caller alone. */
  function PerformAll(s: Stats, stage: nat, e: QueryEntry, capacity: nat): Stats
    requires stage <= LAST_STAGE + 1
    decreases LAST_STAGE + 1 - stage
  {
    if stage > LAST_STAGE then s else PerformAll(Perform(s, stage, e, capacity), stage + 1, e, capacity)
  }

  /** An entry without an id gets one before it is logged; nothing counts by id. */
  function WithId(e: QueryEntry, uuid: string): QueryEntry
  {
    if e.id == "" then e.(id := uuid) else e
  }

  /** The first four steps. */
  function Totals(s: Stats, e: QueryEntry, capacity: nat): Stats
  {
    Perform(Perform(Perform(Perform(s, 0, e, capacity), 1, e, capacity), 2, e, capacity), 3, e, capacity)
  }

  lemma Unrolled(s: Stats, e: QueryEntry, capacity: nat)
    ensures var s4 := Totals(s, e, capacity);
            var s7 := Perform(Perform(Perform(s4, 4, e, capacity), 5, e, capacity), 6, e, capacity);
            PerformAll(s, 0, e, capacity)
                == Perform(Perform(Perform(s7, 7, e, capacity), 8, e, capacity), 9, e, capacity)
  {
    hide Perform;
    var s4 := Totals(s, e, capacity);
    var s7 := Perform(Perform(Perform(s4, 4, e, capacity), 5, e, capacity), 6, e, capacity);
    assert PerformAll(s, 0, e, capacity) == PerformAll(s4, 4, e, capacity);
    assert PerformAll(s4, 4, e, capacity) == PerformAll(s7, 7, e, capacity);
  }

  lemma IdIsNotCounted(e: QueryEntry, uuid: string, capacity: nat)
    ensures forall s: Stats, stage: nat | stage < LAST_STAGE ::
              Perform(s, stage, WithId(e, uuid), capacity) == Perform(s, stage, e, capacity)
    ensures forall s :: Totals(s, WithId(e, uuid), capacity) == Totals(s, e, capacity)
  {
    hide Bump, StatOf;
  }

  class StatsCollector {
    const capacity: nat
    var totalQueries: nat
    var totalBlocked: nat
    var totalFailed: nat
    var cacheHits: nat
    var hostsHits: nat
    var byType: Buckets
    var byRcode: Buckets
    var clientStats: Buckets
    var upstreamStats: map<string, UpstreamStat>
    var ruleStats: Buckets
    var queryLog: seq<QueryEntry>

    ghost function Snapshot(): Stats
      reads this
    {
      Stats(totalQueries, totalBlocked, totalFailed, cacheHits, hostsHits, byType, byRcode, clientStats, upstreamStats,
            ruleStats, queryLog)
    }

    constructor (capacity: nat)
      ensures this.capacity == capacity
      ensures Snapshot() == Stats(0, 0, 0, 0, 0, map[], map[], map[], map[], map[], [])
    {
      this.capacity := capacity;
      totalQueries, totalBlocked, totalFailed, cacheHits, hostsHits := 0, 0, 0, 0, 0;
      byType, byRcode, clientStats, upstreamStats, ruleStats, queryLog := map[], map[], map[], map[], map[], [];
    }

    /** `record_query`, by one caller alone. */
    method RecordQuery(e: QueryEntry, uuid: string)
      modifies this
      ensures Snapshot() == PerformAll(old(Snapshot()), 0, WithId(e, uuid), capacity)
      ensures forall c: Counter ::
                Shown(Snapshot(), c) == Shown(old(Snapshot()), c) + if Counts(c, e) then 1 else 0
      ensures var rest := if old(queryLog) != [] && |old(queryLog)| >= capacity then old(queryLog[1..])
                          else old(queryLog);
              queryLog == rest + [if e.id == "" then e.(id := uuid) else e]
    {
      CallShown(Snapshot(), e, uuid, capacity);
      Unrolled(Snapshot(), WithId(e, uuid), capacity);
      IdIsNotCounted(e, uuid, capacity);
      hide Perform, PerformAll, WithId;
      BumpTotals(e);
      BumpBuckets(e);
      RecordUpstream(e);
      RecordRule(e);
      Log(e, uuid);
    }

    method BumpTotals(e: QueryEntry)
      modifies this
      ensures Snapshot() == Totals(old(Snapshot()), e, capacity)
    {
      totalQueries := totalQueries + 1;
      if e.blocked {
        totalBlocked := totalBlocked + 1;
      } else if e.rcode != "NOERROR" && e.rcode != "Empty" {
        totalFailed := totalFailed + 1;
      }
      if e.cached {
        cacheHits := cacheHits + 1;
      }
      if e.upstream == "hosts" || e.upstream == "dynamic-hosts" {
        hostsHits := hostsHits + 1;
      }
    }

    method BumpBuckets(e: QueryEntry)
      modifies this
      ensures Snapshot() == Perform(Perform(Perform(old(Snapshot()), 4, e, capacity), 5, e, capacity), 6, e, capacity)
    {
      hide Bump;
      byType := Bump(byType, e.qtype);
      byRcode := Bump(byRcode, e.rcode);
      clientStats := Bump(clientStats, e.client);
    }

    method RecordUpstream(e: QueryEntry)
      modifies this
      ensures Snapshot() == Perform(old(Snapshot()), 7, e, capacity)
    {
      var key := e.originalUpstream;
      if key != "" && key != "strategy" && key != "hosts" && key != "dynamic-hosts" {
        var success := !e.blocked && e.rcode == "NOERROR";
        var recordAsFailed := !e.blocked && e.rcode != "NOERROR" && e.rcode != "Empty";
        var stat := StatOf(upstreamStats, key);
        stat := stat.(queries := stat.queries + 1);
        if success {
          stat := stat.(success := stat.success + 1);
        } else if recordAsFailed {
          stat := stat.(failed := stat.failed + 1);
        }
        upstreamStats := upstreamStats[key := stat];
      }
    }

    method RecordRule(e: QueryEntry)
      modifies this
      ensures Snapshot() == Perform(old(Snapshot()), 8, e, capacity)
    {
      if e.rule.Some? {
        ruleStats := Bump(ruleStats, e.rule.value);
      }
    }

    method Log(e: QueryEntry, uuid: string)
      modifies this
      ensures Snapshot() == Perform(old(Snapshot()), 9, WithId(e, uuid), capacity)
    {
      if |queryLog| >= capacity && queryLog != [] {
        queryLog := queryLog[1..];
      }
      var entry := e;
      if e.id == "" {
        entry := e.(id := uuid);
      }
      queryLog := queryLog + [entry];
    }

    /** `snapshot_query_log`: the newest first, at most `limit`. */
    method SnapshotQueryLog(limit: nat) returns (newest: seq<QueryEntry>)
      ensures newest == Newest(queryLog, limit)
    {
      var take := if limit < |queryLog| then limit else |queryLog|;
      newest := [];
      for i := 0 to take
        invariant newest == Newest(queryLog, i)
      {
        newest := newest + [queryLog[|queryLog| - 1 - i]];
      }
    }
  }

  // ---------------------------------------------------------------- the log

  function Newest(log: seq<QueryEntry>, limit: nat): (r: seq<QueryEntry>)
    ensures |r| == if limit < |log| then limit else |log|
  {
    seq(if limit < |log| then limit else |log|, i requires 0 <= i < |log| => log[|log| - 1 - i])
  }

  /** The log after these pushes. */
  function LogAfter(pushed: seq<QueryEntry>, capacity: nat): seq<QueryEntry>
  {
    if pushed == [] then [] else PushLog(LogAfter(pushed[..|pushed| - 1], capacity), capacity, pushed[|pushed| - 1])
  }

  /** The last pushes, as many as there is room for. */
  function LastPushes(pushed: seq<QueryEntry>, room: nat): (r: seq<QueryEntry>)
    ensures |r| == if |pushed| <= room then |pushed| else room
  {
    if |pushed| <= room then pushed else pushed[|pushed| - room..]
  }

  lemma LastPushesSlide(pushed: seq<QueryEntry>, room: nat)
    requires pushed != [] && room > 0
    ensures var n := |pushed| - 1;
            var before := LastPushes(pushed[..n], room);
            LastPushes(pushed, room) == (if n < room then before else before[1..]) + [pushed[n]]
  {
  }

  /** The log is always the last pushes, as many as fit; a capacity of 0 still keeps one. */
  lemma {:induction false} LogIsLastPushes(pushed: seq<QueryEntry>, capacity: nat)
    ensures LogAfter(pushed, capacity) == LastPushes(pushed, if capacity == 0 then 1 else capacity)
  {
    if pushed != [] {
      LogIsLastPushes(pushed[..|pushed| - 1], capacity);
      LastPushesSlide(pushed, if capacity == 0 then 1 else capacity);
      hide LastPushes;
    }
  }

  /** Entry `i` of a snapshot is the `i`-th newest push. */
  lemma SnapshotIsNewestFirst(pushed: seq<QueryEntry>, capacity: nat, limit: nat, i: nat)
    requires capacity > 0
    requires i < |Newest(LogAfter(pushed, capacity), limit)|
    ensures i < |pushed| && i < limit && i < capacity
    ensures Newest(LogAfter(pushed, capacity), limit)[i] == pushed[|pushed| - 1 - i]
  {
    LogIsLastPushes(pushed, capacity);
  }

  // ---------------------------------------------------------------- interleavings

  /** A call in progress: its entry and its next step. */
  datatype Call = Call(entry: QueryEntry, next: nat)

  datatype State = State(stats: Stats, calls: map<nat, Call>, finished: seq<QueryEntry>)

  datatype Step =
    | Begin(t: nat, entry: QueryEntry)
    | Advance(t: nat)

  /** The totals restored from the last run; the buckets start empty. */
  datatype Base = Base(queries: nat, blocked: nat, failed: nat, cached: nat, hosts: nat)

  function Start(b: Base): State
  {
    State(Stats(b.queries, b.blocked, b.failed, b.cached, b.hosts, map[], map[], map[], map[], map[], []), map[], [])
  }

  predicate Enabled(s: State, step: Step)
  {
    match step
    case Begin(t, _) => t !in s.calls
    case Advance(t) => t in s.calls && s.calls[t].next <= LAST_STAGE
  }

  function Apply(s: State, step: Step, capacity: nat): State
    requires Enabled(s, step)
  {
    match step
    case Begin(t, entry) => s.(calls := s.calls[t := Call(entry, 0)])
    case Advance(t) =>
      var c := s.calls[t];
      var stats := Perform(s.stats, c.next, c.entry, capacity);
      if c.next == LAST_STAGE then State(stats, s.calls - {t}, s.finished + [c.entry])
      else State(stats, s.calls[t := c.(next := c.next + 1)], s.finished)
  }

  function Run(b: Base, capacity: nat, steps: seq<Step>): Option<State>
  {
    if steps == [] then Some(Start(b))
    else
      match Run(b, capacity, steps[..|steps| - 1])
      case None => None
      case Some(s) =>
        var step := steps[|steps| - 1];
        if Enabled(s, step) then Some(Apply(s, step, capacity)) else None
  }

  // ---------------------------------------------------------------- what each counter counts

  datatype Counter =
    | Queries | Blocked | Failed | CacheHits | HostsHits
    | AnyType | OfType(key: string) | AnyRcode | OfRcode(key: string) | AnyClient | OfClient(key: string)
    | UpQueries(key: string) | UpSuccess(key: string) | UpFailed(key: string) | OfRule(key: string)

  /** The step that bumps a counter. */
  function StageOf(c: Counter): (stage: nat)
    ensures stage <= LAST_STAGE
  {
    match c
    case Queries => 0
    case Blocked => 1
    case Failed => 1
    case CacheHits => 2
    case HostsHits => 3
    case AnyType => 4
    case OfType(_) => 4
    case AnyRcode => 5
    case OfRcode(_) => 5
    case AnyClient => 6
    case OfClient(_) => 6
    case UpQueries(_) => 7
    case UpSuccess(_) => 7
    case UpFailed(_) => 7
    case OfRule(_) => 8
  }

  /** Is this query one of those the counter is for? */
  ghost predicate Counts(c: Counter, e: QueryEntry)
  {
    var failed := !e.blocked && e.rcode !in {"NOERROR", "Empty"};
    var charged := e.originalUpstream !in {"", "strategy", "hosts", "dynamic-hosts"};
    match c
    case Queries => true
    case Blocked => e.blocked
    case Failed => failed
    case CacheHits => e.cached
    case HostsHits => e.upstream in {"hosts", "dynamic-hosts"}
    case AnyType => true
    case OfType(key) => e.qtype == key
    case AnyRcode => true
    case OfRcode(key) => e.rcode == key
    case AnyClient => true
    case OfClient(key) => e.client == key
    case UpQueries(key) => charged && e.originalUpstream == key
    case UpSuccess(key) => charged && e.originalUpstream == key && !e.blocked && e.rcode == "NOERROR"
    case UpFailed(key) => charged && e.originalUpstream == key && failed
    case OfRule(key) => e.rule == Some(key)
  }

  ghost function Sum(buckets: Buckets): nat
  {
    if buckets == map[] then 0
    else
      var k :| k in buckets;
      buckets[k] + Sum(buckets - {k})
  }

  /** What the collector shows for a counter; `Any…` are the sums over the buckets. */
  ghost function Shown(s: Stats, c: Counter): nat
  {
    match c
    case Queries => s.totalQueries
    case Blocked => s.totalBlocked
    case Failed => s.totalFailed
    case CacheHits => s.cacheHits
    case HostsHits => s.hostsHits
    case AnyType => Sum(s.byType)
    case OfType(key) => Count(s.byType, key)
    case AnyRcode => Sum(s.byRcode)
    case OfRcode(key) => Count(s.byRcode, key)
    case AnyClient => Sum(s.clientStats)
    case OfClient(key) => Count(s.clientStats, key)
    case UpQueries(key) => StatOf(s.upstreamStats, key).queries
    case UpSuccess(key) => StatOf(s.upstreamStats, key).success
    case UpFailed(key) => StatOf(s.upstreamStats, key).failed
    case OfRule(key) => Count(s.ruleStats, key)
  }

  function Restored(b: Base, c: Counter): nat
  {
    match c
    case Queries => b.queries
    case Blocked => b.blocked
    case Failed => b.failed
    case CacheHits => b.cached
    case HostsHits => b.hosts
    case _ => 0
  }

  /** How many of these queries the counter is for. */
  ghost function HowMany(c: Counter, entries: seq<QueryEntry>): nat
  {
    if entries == [] then 0
    else HowMany(c, entries[..|entries| - 1]) + if Counts(c, entries[|entries| - 1]) then 1 else 0
  }

  /** The calls in progress that have bumped the counter already. */
  ghost function Bumped(c: Counter, calls: map<nat, Call>): set<nat>
  {
    set t | t in calls && calls[t].next > StageOf(c) && Counts(c, calls[t].entry)
  }

  // ---------------------------------------------------------------- sums

  lemma {:induction false} SumWithout(buckets: Buckets, key: string)
    requires key in buckets
    ensures Sum(buckets) == buckets[key] + Sum(buckets - {key})
    decreases |buckets|
  {
    var k :| k in buckets && Sum(buckets) == buckets[k] + Sum(buckets - {k});
    if k != key {
      assert (buckets - {k}).Keys == buckets.Keys - {k} && (buckets - {key}).Keys == buckets.Keys - {key};
      SumWithout(buckets - {k}, key);
      SumWithout(buckets - {key}, k);
      assert buckets - {k} - {key} == buckets - {key} - {k};
    }
  }

  lemma BumpAddsOne(buckets: Buckets, key: string)
    ensures Sum(Bump(buckets, key)) == Sum(buckets) + 1
    ensures forall k :: Count(Bump(buckets, key), k) == Count(buckets, k) + if k == key then 1 else 0
  {
    var bumped := Bump(buckets, key);
    SumWithout(bumped, key);
    if key in buckets {
      SumWithout(buckets, key);
      assert bumped - {key} == buckets - {key};
    } else {
      assert bumped - {key} == buckets;
    }
  }

  // ---------------------------------------------------------------- every counter is exact

  /** A step bumps exactly the counters of its stage that are for its query, by one. */
  lemma PerformBumps(s: Stats, stage: nat, e: QueryEntry, capacity: nat, c: Counter)
    requires stage <= LAST_STAGE
    ensures Shown(Perform(s, stage, e, capacity), c)
         == Shown(s, c) + if stage == StageOf(c) && Counts(c, e) then 1 else 0
  {
    hide *;
    if stage <= 3 {
      TotalsBump(s, stage, e, capacity, c);
    } else if stage <= 6 {
      BucketsBump(s, stage, e, capacity, c);
    } else if stage == 7 {
      ChargeBumps(s, e, capacity, c);
    } else {
      RuleBumps(s, stage, e, capacity, c);
    }
  }

  lemma {:induction false} StepsShown(s: Stats, stage: nat, e: QueryEntry, capacity: nat, c: Counter)
    requires stage <= LAST_STAGE + 1
    ensures Shown(PerformAll(s, stage, e, capacity), c)
         == Shown(s, c) + if stage <= StageOf(c) && Counts(c, e) then 1 else 0
    ensures PerformAll(s, stage, e, capacity).log
         == if stage <= LAST_STAGE then PushLog(s.log, capacity, e) else s.log
    decreases LAST_STAGE + 1 - stage
  {
    hide Shown, Counts, Perform, PushLog;
    StageBelowLast(c);
    if stage <= LAST_STAGE {
      PerformBumps(s, stage, e, capacity, c);
      PerformLog(s, stage, e, capacity);
      StepsShown(Perform(s, stage, e, capacity), stage + 1, e, capacity, c);
    }
  }

  /** What one whole call does to every counter and to the log. */
  lemma CallShown(s: Stats, e: QueryEntry, uuid: string, capacity: nat)
    ensures forall c: Counter ::
              Shown(PerformAll(s, 0, WithId(e, uuid), capacity), c) == Shown(s, c) + if Counts(c, e) then 1 else 0
    ensures var rest := if s.log != [] && |s.log| >= capacity then s.log[1..] else s.log;
            PerformAll(s, 0, WithId(e, uuid), capacity).log == rest + [if e.id == "" then e.(id := uuid) else e]
  {
    forall c: Counter
      ensures Shown(PerformAll(s, 0, WithId(e, uuid), capacity), c) == Shown(s, c) + if Counts(c, e) then 1 else 0
    {
      StepsShown(s, 0, WithId(e, uuid), capacity, c);
      IdChangesNoCount(c, e, uuid);
    }
    StepsShown(s, 0, WithId(e, uuid), capacity, Queries);
  }

  lemma IdChangesNoCount(c: Counter, e: QueryEntry, uuid: string)
    ensures Counts(c, WithId(e, uuid)) == Counts(c, e)
  {
  }

  lemma BucketsBump(s: Stats, stage: nat, e: QueryEntry, capacity: nat, c: Counter)
    requires 4 <= stage <= 6
    ensures Shown(Perform(s, stage, e, capacity), c)
         == Shown(s, c) + if stage == StageOf(c) && Counts(c, e) then 1 else 0
  {
    BumpAddsOne(s.byType, e.qtype);
    BumpAddsOne(s.byRcode, e.rcode);
    BumpAddsOne(s.clientStats, e.client);
    hide Bump, Count, Sum, StatOf, IsCharged, IsFailure, IsSuccess, FromHosts, BumpTotal, ChargeUpstream, CountRule,
        PushLog;
  }

  lemma RuleBumps(s: Stats, stage: nat, e: QueryEntry, capacity: nat, c: Counter)
    requires 8 <= stage <= LAST_STAGE
    ensures Shown(Perform(s, stage, e, capacity), c)
         == Shown(s, c) + if stage == StageOf(c) && Counts(c, e) then 1 else 0
  {
    if e.rule.Some? {
      BumpAddsOne(s.ruleStats, e.rule.value);
    }
    hide Bump, Count, Sum, StatOf, IsCharged, IsFailure, IsSuccess, FromHosts, BumpTotal, ChargeUpstream, BumpBucket,
        PushLog;
  }

  lemma TotalsBump(s: Stats, stage: nat, e: QueryEntry, capacity: nat, c: Counter)
    requires stage <= 3
    ensures Shown(Perform(s, stage, e, capacity), c)
         == Shown(s, c) + if stage == StageOf(c) && Counts(c, e) then 1 else 0
  {
    hide *;
    PerformTotal(s, stage, e, capacity);
    if StageOf(c) == 1 {
      OutcomeBumps(s, stage, e, c);
    } else if StageOf(c) <= 3 {
      PlainCounterBumps(s, stage, e, c);
    } else {
      OthersStay(s, stage, e, c);
    }
  }

  lemma OutcomeBumps(s: Stats, stage: nat, e: QueryEntry, c: Counter)
    requires stage <= 3 && StageOf(c) == 1
    ensures Shown(BumpTotal(s, stage, e), c) == Shown(s, c) + if stage == StageOf(c) && Counts(c, e) then 1 else 0
  {
    hide Sum, Count, StatOf, FromHosts, IsCharged, IsSuccess;
    assert c == Blocked || c == Failed;
  }

  lemma PlainCounterBumps(s: Stats, stage: nat, e: QueryEntry, c: Counter)
    requires stage <= 3 && StageOf(c) in {0, 2, 3}
    ensures Shown(BumpTotal(s, stage, e), c) == Shown(s, c) + if stage == StageOf(c) && Counts(c, e) then 1 else 0
  {
    hide Sum, Count, StatOf, IsCharged, IsSuccess, IsFailure;
    assert c == Queries || c == CacheHits || c == HostsHits;
  }

  lemma OthersStay(s: Stats, stage: nat, e: QueryEntry, c: Counter)
    requires stage <= 3 && StageOf(c) > 3
    ensures Shown(BumpTotal(s, stage, e), c) == Shown(s, c)
  {
    hide Sum, Count, StatOf, FromHosts;
  }

  lemma PerformTotal(s: Stats, stage: nat, e: QueryEntry, capacity: nat)
    requires stage <= 3
    ensures Perform(s, stage, e, capacity) == BumpTotal(s, stage, e)
  {
    hide BumpTotal;
  }

  lemma ChargeBumps(s: Stats, e: QueryEntry, capacity: nat, c: Counter)
    ensures Shown(Perform(s, 7, e, capacity), c) == Shown(s, c) + if 7 == StageOf(c) && Counts(c, e) then 1 else 0
  {
    hide Sum, Count, FromHosts, BumpTotal, BumpBucket, CountRule, PushLog;
  }

  ghost predicate Exact(s: State, b: Base, c: Counter)
  {
    Shown(s.stats, c) == Restored(b, c) + HowMany(c, s.finished) + |Bumped(c, s.calls)|
  }

  lemma BumpedUpdate(c: Counter, calls: map<nat, Call>, t: nat, call: Call)
    ensures var bumped := Bumped(c, calls);
            Bumped(c, calls[t := call])
              == if call.next > StageOf(c) && Counts(c, call.entry) then bumped + {t} else bumped - {t}
  {
    hide StageOf, Counts;
  }

  lemma BumpedRemove(c: Counter, calls: map<nat, Call>, t: nat)
    ensures Bumped(c, calls - {t}) == Bumped(c, calls) - {t}
  {
    hide StageOf, Counts;
  }

  lemma StepKeepsExact(s: State, step: Step, capacity: nat, b: Base, c: Counter)
    requires Exact(s, b, c) && Enabled(s, step)
    ensures Exact(Apply(s, step, capacity), b, c)
  {
    match step
    case Begin(t, entry) =>
      hide Shown, Counts, StageOf, Restored, Bumped;
      BumpedMember(c, s.calls, t);
      BumpedUpdate(c, s.calls, t, Call(entry, 0));
      assert Bumped(c, s.calls) - {t} == Bumped(c, s.calls);
    case Advance(t) =>
      AdvanceKeepsExact(s, t, capacity, b, c);
  }

  lemma AdvanceKeepsExact(s: State, t: nat, capacity: nat, b: Base, c: Counter)
    requires Exact(s, b, c) && Enabled(s, Advance(t))
    ensures Exact(Apply(s, Advance(t), capacity), b, c)
  {
    var call, s' := s.calls[t], Apply(s, Advance(t), capacity);
    hide Perform, Exact;
    if call.next == LAST_STAGE {
      assert s' == State(s'.stats, s.calls - {t}, s.finished + [call.entry]);
    } else {
      assert s' == State(s'.stats, s.calls[t := call.(next := call.next + 1)], s.finished);
    }
    hide Apply;
    MovesKeepExact(s, s', t, capacity, b, c);
  }

  lemma MovesKeepExact(s: State, s': State, t: nat, capacity: nat, b: Base, c: Counter)
    requires Exact(s, b, c) && t in s.calls && s.calls[t].next <= LAST_STAGE
    requires s'.stats == Perform(s.stats, s.calls[t].next, s.calls[t].entry, capacity)
    requires s.calls[t].next == LAST_STAGE
          ==> s'.calls == s.calls - {t} && s'.finished == s.finished + [s.calls[t].entry]
    requires s.calls[t].next < LAST_STAGE ==>
               s'.calls == s.calls[t := s.calls[t].(next := s.calls[t].next + 1)] && s'.finished == s.finished
    ensures Exact(s', b, c)
  {
    var call := s.calls[t];
    StageBelowLast(c);
    hide Shown, Counts, StageOf, Perform, Restored, Bumped, HowMany;
    PerformBumps(s.stats, call.next, call.entry, capacity, c);
    if call.next == LAST_STAGE {
      FinishMoves(c, s.calls, t, s.finished);
    } else {
      AdvanceMoves(c, s.calls, t);
    }
  }

  /** Past its last step a call counts as finished instead. */
  lemma FinishMoves(c: Counter, calls: map<nat, Call>, t: nat, finished: seq<QueryEntry>)
    requires t in calls && calls[t].next == LAST_STAGE
    ensures HowMany(c, finished + [calls[t].entry]) + |Bumped(c, calls - {t})|
          == HowMany(c, finished) + |Bumped(c, calls)|
  {
    BumpedMember(c, calls, t);
    StageBelowLast(c);
    BumpedRemove(c, calls, t);
    hide Counts, StageOf, Bumped;
    assert (finished + [calls[t].entry])[..|finished|] == finished;
  }

  lemma AdvanceMoves(c: Counter, calls: map<nat, Call>, t: nat)
    requires t in calls
    ensures var call := calls[t];
            |Bumped(c, calls[t := call.(next := call.next + 1)])|
              == |Bumped(c, calls)| + if call.next == StageOf(c) && Counts(c, call.entry) then 1 else 0
  {
    BumpedMember(c, calls, t);
    BumpedUpdate(c, calls, t, calls[t].(next := calls[t].next + 1));
    hide Counts, StageOf, Bumped;
    var bumped := Bumped(c, calls);
    assert t in bumped ==> bumped + {t} == bumped;
    assert t !in bumped ==> bumped - {t} == bumped;
  }

  lemma StageBelowLast(c: Counter)
    ensures StageOf(c) < LAST_STAGE
  {
  }

  lemma BumpedMember(c: Counter, calls: map<nat, Call>, t: nat)
    ensures t in Bumped(c, calls) <==> t in calls && calls[t].next > StageOf(c) && Counts(c, calls[t].entry)
  {
  }

  /**
    Over every interleaving, each counter is its restored value plus the queries it is for whose
    call has passed the counter's step: none is lost and none is counted twice.
    */
  lemma {:induction false} EveryCounterExact(b: Base, capacity: nat, steps: seq<Step>, s: State, c: Counter)
    requires Run(b, capacity, steps) == Some(s)
    ensures Exact(s, b, c)
    decreases |steps|
  {
    if steps != [] {
      hide Exact;
      var n := |steps| - 1;
      var before := Run(b, capacity, steps[..n]).value;
      EveryCounterExact(b, capacity, steps[..n], before, c);
      StepKeepsExact(before, steps[n], capacity, b, c);
    } else {
      assert Bumped(c, map[]) == {};
    }
  }

  // ---------------------------------------------------------------- conservation

  lemma {:induction false} HowManyAll(c: Counter, entries: seq<QueryEntry>)
    requires forall e | e in entries :: Counts(c, e)
    ensures HowMany(c, entries) == |entries|
  {
    if entries != [] {
      HowManyAll(c, entries[..|entries| - 1]);
    }
  }

  /** A later counter for queries that an earlier one counts as well never overtakes it. */
  ghost predicate Covers(wide: Counter, c: Counter)
  {
    StageOf(wide) <= StageOf(c) && forall e: QueryEntry :: Counts(c, e) ==> Counts(wide, e)
  }

  ghost predicate Exclusive(c: Counter, d: Counter)
  {
    forall e: QueryEntry :: !(Counts(c, e) && Counts(d, e))
  }

  lemma {:induction false} HowManyCovers(wide: Counter, c: Counter, d: Counter, entries: seq<QueryEntry>)
    requires Covers(wide, c) && Covers(wide, d) && Exclusive(c, d)
    ensures HowMany(c, entries) + HowMany(d, entries) <= HowMany(wide, entries)
  {
    if entries != [] {
      hide Counts, StageOf;
      HowManyCovers(wide, c, d, entries[..|entries| - 1]);
    }
  }

  lemma BumpedCovers(wide: Counter, c: Counter, d: Counter, calls: map<nat, Call>)
    requires Covers(wide, c) && Covers(wide, d) && Exclusive(c, d)
    ensures |Bumped(c, calls)| + |Bumped(d, calls)| <= |Bumped(wide, calls)|
  {
    hide Counts, StageOf;
    assert Bumped(c, calls) !! Bumped(d, calls);
    assert |Bumped(c, calls) + Bumped(d, calls)| == |Bumped(c, calls)| + |Bumped(d, calls)|;
    SubsetSize(Bumped(c, calls) + Bumped(d, calls), Bumped(wide, calls));
  }

  /** Two counters for different queries, both behind a third, never add up to more than it. */
  lemma NeverOvertaken(b: Base, capacity: nat, steps: seq<Step>, s: State, wide: Counter, c: Counter, d: Counter)
    requires Run(b, capacity, steps) == Some(s)
    requires Covers(wide, c) && Covers(wide, d) && Exclusive(c, d)
    ensures Shown(s.stats, c) - Restored(b, c) + (Shown(s.stats, d) - Restored(b, d))
         <= Shown(s.stats, wide) - Restored(b, wide)
  {
    EveryCounterExact(b, capacity, steps, s, wide);
    EveryCounterExact(b, capacity, steps, s, c);
    EveryCounterExact(b, capacity, steps, s, d);
    HowManyCovers(wide, c, d, s.finished);
    BumpedCovers(wide, c, d, s.calls);
  }

  /** Blocked and failed queries are exclusive, and together at most all queries. */
  lemma BlockedAndFailedExclusive(b: Base, capacity: nat, steps: seq<Step>, s: State)
    requires Run(b, capacity, steps) == Some(s)
    ensures s.stats.totalBlocked - b.blocked + (s.stats.totalFailed - b.failed) <= s.stats.totalQueries - b.queries
  {
    NeverOvertaken(b, capacity, steps, s, Queries, Blocked, Failed);
  }

  /** Per upstream, successes and failures together are at most its queries. */
  lemma UpstreamOutcomesBounded(b: Base, capacity: nat, steps: seq<Step>, s: State, key: string)
    requires Run(b, capacity, steps) == Some(s)
    ensures var stat := StatOf(s.stats.upstreamStats, key); stat.success + stat.failed <= stat.queries
  {
    NeverOvertaken(b, capacity, steps, s, UpQueries(key), UpSuccess(key), UpFailed(key));
  }

  predicate IsBucketSum(c: Counter)
  {
    c == AnyType || c == AnyRcode || c == AnyClient
  }

  /**
    The queries of this run are at least the sum over each kind of bucket, and exactly that sum
    when no call is in progress.
    */
  lemma BucketsConserveTotal(b: Base, capacity: nat, steps: seq<Step>, s: State, c: Counter)
    requires Run(b, capacity, steps) == Some(s) && IsBucketSum(c)
    ensures Shown(s.stats, c) <= s.stats.totalQueries - b.queries
    ensures s.calls == map[] ==> Shown(s.stats, c) == s.stats.totalQueries - b.queries == |s.finished|
  {
    EveryCounterExact(b, capacity, steps, s, Queries);
    EveryCounterExact(b, capacity, steps, s, c);
    HowManyAll(Queries, s.finished);
    HowManyAll(c, s.finished);
    SubsetSize(Bumped(c, s.calls), Bumped(Queries, s.calls));
    assert s.calls == map[] ==> Bumped(c, s.calls) == {} && Bumped(Queries, s.calls) == {};
  }

  // ---------------------------------------------------------------- the shared log

  lemma PerformLog(s: Stats, stage: nat, e: QueryEntry, capacity: nat)
    requires stage <= LAST_STAGE
    ensures Perform(s, stage, e, capacity).log == if stage == LAST_STAGE then PushLog(s.log, capacity, e) else s.log
  {
    hide PushLog, BumpTotal, BumpBucket, ChargeUpstream, CountRule;
  }

  /** Over every interleaving the log holds the last pushes, in the order of the pushes. */
  lemma {:induction false} SharedLogIsLastPushes(b: Base, capacity: nat, steps: seq<Step>, s: State)
    requires Run(b, capacity, steps) == Some(s)
    ensures s.stats.log == LogAfter(s.finished, capacity)
    decreases |steps|
  {
    hide Perform, PushLog;
    if steps != [] {
      var n := |steps| - 1;
      var before := Run(b, capacity, steps[..n]).value;
      SharedLogIsLastPushes(b, capacity, steps[..n], before);
      if steps[n].Advance? {
        var c := before.calls[steps[n].t];
        PerformLog(before.stats, c.next, c.entry, capacity);
        if c.next == LAST_STAGE {
          assert s.finished[..|s.finished| - 1] == before.finished;
        }
      }
    }
  }
}
