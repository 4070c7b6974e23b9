/**
  The TTL-aware LRU cache of DNS responses (src/dns/cache.rs). `lru::LruCache` is a list of
  slots, most recently used first.
*/
module DnsCache {
  import opened Wrappers
  import opened Bytes
  import opened Text
  import opened Sets

  const NANOS: nat := 1_000_000_000

  datatype Record = Record(data: string, ttl: nat)

  datatype Message = Message(id: nat, rcode: nat, answers: seq<Record>, additionals: seq<Record>)

  datatype Entry = Entry(message: Message, insertedAt: nat, ttl: nat, upstream: string)

  datatype Slot = Slot(key: string, entry: Entry)

  // ---------------------------------------------------------------- keys

  function CacheKey(name: string, qtype: nat): string
  {
    Lower(name) + ":" + Decimal(qtype)
  }

  lemma ColonFree(a: string, x: string, b: string, y: string)
    requires ':' !in x && ':' !in y && a + ":" + x == b + ":" + y
    ensures |x| <= |y|
  {
    var w := a + ":" + x;
    assert w[|b|] == ':';
    assert forall i | |a| < i < |w| :: w[i] == x[i - |a| - 1] && w[i] in x;
  }

  /** Two questions share a key exactly when they have the same type and the same name up to case. */
  lemma CacheKeyInjective(name1: string, type1: nat, name2: string, type2: nat)
    ensures CacheKey(name1, type1) == CacheKey(name2, type2) <==> Lower(name1) == Lower(name2) && type1 == type2
  {
    if CacheKey(name1, type1) == CacheKey(name2, type2) {
      var a, x, b, y := Lower(name1), Decimal(type1), Lower(name2), Decimal(type2);
      ColonFree(a, x, b, y);
      ColonFree(b, y, a, x);
      var w := CacheKey(name1, type1);
      assert a == w[..|a|] == b && x == w[|a| + 1..] == y;
      DecimalInjective(type1, type2);
    }
  }

  // ---------------------------------------------------------------- entries

  /** `inserted_at.elapsed().as_secs() as u32`. */
  function Elapsed(e: Entry, now: nat): nat
  {
    (if now >= e.insertedAt then (now - e.insertedAt) / NANOS else 0) % U32_LIMIT
  }

  function RemainingTtl(e: Entry, now: nat): (r: Option<nat>)
    ensures r.Some? ==> 1 <= r.value <= e.ttl
  {
    if Elapsed(e, now) >= e.ttl then None else Some(e.ttl - Elapsed(e, now))
  }

  function WithTtl(rs: seq<Record>, ttl: nat): (out: seq<Record>)
    ensures |out| == |rs|
    ensures forall i | 0 <= i < |rs| :: out[i] == Record(rs[i].data, ttl)
  {
    if rs == [] then [] else [rs[0].(ttl := ttl)] + WithTtl(rs[1..], ttl)
  }

  function Min(a: nat, b: nat): nat { if a < b then a else b }

  function Max(a: nat, b: nat): nat { if a < b then b else a }

  function MinTtl(rs: seq<Record>, default: nat): nat
  {
    if rs == [] then default
    else if |rs| == 1 then rs[0].ttl
    else Min(rs[0].ttl, MinTtl(rs[1..], default))
  }

  datatype Config = Config(capacity: nat, minTtl: nat, maxTtl: nat)

  function EntryTtl(c: Config, m: Message): nat
  {
    Min(Max(MinTtl(m.answers + m.additionals, c.minTtl), c.minTtl), c.maxTtl)
  }

  /** The TTL of some record, and at most that of every record. */
  ghost predicate LeastTtl(rs: seq<Record>, least: nat)
  {
    (exists r | r in rs :: r.ttl == least) && forall r | r in rs :: least <= r.ttl
  }

  /** Raised to the minimum, then lowered to the maximum. */
  ghost predicate Clamped(c: Config, least: nat, ttl: nat)
  {
    if c.maxTtl < c.minTtl || c.maxTtl < least then ttl == c.maxTtl
    else if least < c.minTtl then ttl == c.minTtl
    else ttl == least
  }

  /** A response is kept for the least TTL of its answers and additionals, within the limits. */
  ghost predicate KeptFor(c: Config, m: Message, ttl: nat)
  {
    if m.answers == [] && m.additionals == [] then Clamped(c, c.minTtl, ttl)
    else exists least :: LeastTtl(m.answers + m.additionals, least) && Clamped(c, least, ttl)
  }

  lemma {:induction false} MinTtlIsLeast(rs: seq<Record>, default: nat)
    requires rs != []
    ensures LeastTtl(rs, MinTtl(rs, default))
  {
    assert rs == [rs[0]] + rs[1..];
    if |rs| > 1 {
      MinTtlIsLeast(rs[1..], default);
    }
  }

  lemma KeptForIff(c: Config, m: Message, ttl: nat)
    ensures KeptFor(c, m, ttl) <==> ttl == EntryTtl(c, m)
  {
    var rs := m.answers + m.additionals;
    if rs != [] {
      MinTtlIsLeast(rs, c.minTtl);
      hide MinTtl;
      if KeptFor(c, m, ttl) {
        var least :| LeastTtl(rs, least) && Clamped(c, least, ttl);
        assert least == MinTtl(rs, c.minTtl);
      }
    }
  }

  // ---------------------------------------------------------------- the recency list

  function Find(slots: seq<Slot>, key: string): Option<Entry>
  {
    if slots == [] then None
    else if slots[0].key == key then Some(slots[0].entry)
    else Find(slots[1..], key)
  }

  function Remove(slots: seq<Slot>, key: string): (r: seq<Slot>)
    ensures |r| <= |slots|
    ensures Find(slots, key).Some? ==> |r| < |slots|
  {
    if slots == [] then []
    else if slots[0].key == key then slots[1..]
    else [slots[0]] + Remove(slots[1..], key)
  }

  /** `LruCache::put`: to the front, evicting the last slot if a new key needs room. */
  function Put(capacity: nat, slots: seq<Slot>, slot: Slot): seq<Slot>
    requires 0 < capacity
  {
    if Find(slots, slot.key).Some? then [slot] + Remove(slots, slot.key)
    else if |slots| < capacity then [slot] + slots
    else [slot] + slots[..capacity - 1]
  }

  datatype Op =
    | Get(name: string, qtype: nat, now: nat)
    | Insert(name: string, qtype: nat, now: nat, message: Message, upstream: string)
  {
    function Key(): string { CacheKey(name, qtype) }
  }

  function NewEntry(c: Config, op: Op): Entry
    requires op.Insert?
  {
    Entry(op.message, op.now, EntryTtl(c, op.message), op.upstream)
  }

  /** What a lookup finds, if it is still live. */
  function Lookup(slots: seq<Slot>, key: string, now: nat): Option<(Message, string)>
  {
    match Find(slots, key)
    case None => None
    case Some(e) =>
      match RemainingTtl(e, now)
      case None => None
      case Some(ttl) =>
        var m := e.message;
        Some((m.(answers := WithTtl(m.answers, ttl), additionals := WithTtl(m.additionals, ttl)), e.upstream))
  }

  /** Does the operation count as a use of its key: a hit, or an insert with a positive TTL? */
  predicate Uses(c: Config, slots: seq<Slot>, op: Op)
  {
    match op
    case Get(_, _, now) => Lookup(slots, op.Key(), now).Some?
    case Insert(_, _, _, message, _) => EntryTtl(c, message) > 0
  }

  function Apply(c: Config, slots: seq<Slot>, op: Op): seq<Slot>
    requires 0 < c.capacity
  {
    match op
    case Get(_, _, now) =>
      var found := Find(slots, op.Key());
      if found.None? then slots
      else if RemainingTtl(found.value, now).Some? then [Slot(op.Key(), found.value)] + Remove(slots, op.Key())
      else Remove(slots, op.Key())
    case Insert(_, _, _, message, _) =>
      if EntryTtl(c, message) == 0 then slots else Put(c.capacity, slots, Slot(op.Key(), NewEntry(c, op)))
  }

  /** The loops of `get` over the records of a section. */
  method RewriteTtls(rs: seq<Record>, ttl: nat) returns (out: seq<Record>)
    ensures out == WithTtl(rs, ttl)
  {
    out := rs;
    for i := 0 to |rs|
      invariant |out| == |rs|
      invariant forall j | 0 <= j < |rs| :: out[j] == if j < i then rs[j].(ttl := ttl) else rs[j]
    {
      out := out[i := out[i].(ttl := ttl)];
    }
  }

  class Cache {
    const config: Config
    var slots: seq<Slot>
    ghost var history: seq<Op>

    ghost predicate Valid()
      reads this
    {
      0 < config.capacity && slots == After(config, history)
    }

    /** `new`: at least one slot. */
    constructor (size: nat, minTtl: nat, maxTtl: nat)
      ensures Valid() && history == [] && config == Config(if size == 0 then 1 else size, minTtl, maxTtl)
    {
      config := Config(Max(size, 1), minTtl, maxTtl);
      slots, history := [], [];
    }

    /** `get`: promotes a live entry and rewrites its TTLs, pops an expired one. */
    method Get(name: string, qtype: nat, now: nat) returns (r: Option<(Message, string)>)
      requires Valid()
      modifies this
      ensures Valid() && history == old(history) + [Op.Get(name, qtype, now)]
      ensures r == Lookup(old(slots), CacheKey(name, qtype), now)
    {
      var key := CacheKey(name, qtype);
      ghost var op := Op.Get(name, qtype, now);
      AfterSnoc(config, history, op);
      history := history + [op];
      var found := Find(slots, key);
      if found.Some? {
        slots := [Slot(key, found.value)] + Remove(slots, key);
        var remaining := RemainingTtl(found.value, now);
        if remaining.Some? {
          var msg := found.value.message;
          var answers := RewriteTtls(msg.answers, remaining.value);
          var additionals := RewriteTtls(msg.additionals, remaining.value);
          msg := msg.(answers := answers, additionals := additionals);
          return Some((msg, found.value.upstream));
        }
        slots := slots[1..];
      }
      return None;
    }

    /** `insert`: nothing is stored for a zero TTL. */
    method Insert(name: string, qtype: nat, now: nat, message: Message, upstream: string)
      requires Valid()
      modifies this
      ensures Valid() && history == old(history) + [Op.Insert(name, qtype, now, message, upstream)]
      ensures exists ttl | KeptFor(config, message, ttl) ::
                if ttl == 0 then slots == old(slots)
                else slots != [] && slots[0] == Slot(CacheKey(name, qtype), Entry(message, now, ttl, upstream))
    {
      ghost var op := Op.Insert(name, qtype, now, message, upstream);
      AfterSnoc(config, history, op);
      history := history + [op];
      var ttl := Min(Max(MinTtl(message.answers + message.additionals, config.minTtl), config.minTtl), config.maxTtl);
      KeptForIff(config, message, ttl);
      if ttl == 0 {
        return;
      }
      slots := Put(config.capacity, slots, Slot(CacheKey(name, qtype), Entry(message, now, ttl, upstream)));
    }
  }

  // ---------------------------------------------------------------- runs

  /** The slots after a run from the empty cache. */
  function After(c: Config, h: seq<Op>): seq<Slot>
    requires 0 < c.capacity
  {
    if h == [] then [] else Apply(c, After(c, h[..|h| - 1]), h[|h| - 1])
  }

  lemma AfterSnoc(c: Config, h: seq<Op>, op: Op)
    requires 0 < c.capacity
    ensures After(c, h + [op]) == Apply(c, After(c, h), op)
  {
    assert (h + [op])[..|h|] == h;
  }

  /** The plain timed map: the latest insert with a positive TTL. */
  function Latest(c: Config, h: seq<Op>, key: string): Option<Entry>
  {
    if h == [] then None
    else
      var op := h[|h| - 1];
      if op.Insert? && op.Key() == key && EntryTtl(c, op.message) > 0 then Some(NewEntry(c, op))
      else Latest(c, h[..|h| - 1], key)
  }

  /** When a key was last used: one more than the position of the operation, 0 for never. */
  function LastUse(c: Config, h: seq<Op>, key: string): nat
    requires 0 < c.capacity
  {
    if h == [] then 0
    else
      var front, op := h[..|h| - 1], h[|h| - 1];
      if op.Key() == key && Uses(c, After(c, front), op) then |h| else LastUse(c, front, key)
  }

  /** The keys used at or after position `n`. */
  function UsedSince(c: Config, h: seq<Op>, n: nat): set<string>
    requires 0 < c.capacity
  {
    if |h| <= n then {}
    else
      var front, op := h[..|h| - 1], h[|h| - 1];
      UsedSince(c, front, n) + if Uses(c, After(c, front), op) then {op.Key()} else {}
  }

  /** The clock never goes back, and a run is shorter than 2^32 seconds. */
  ghost predicate Monotone(h: seq<Op>)
  {
    forall i, j | 0 <= i <= j < |h| :: h[i].now <= h[j].now < h[i].now + U32_LIMIT * NANOS
  }

  // ---------------------------------------------------------------- recency order

  /** Strictly descending in the rank of the keys, so no key occurs twice. */
  ghost predicate Ordered(rank: string -> nat, slots: seq<Slot>)
  {
    slots == [] || ((forall s | s in slots[1..] :: rank(slots[0].key) > rank(s.key)) && Ordered(rank, slots[1..]))
  }

  function Ranks(c: Config, h: seq<Op>): string -> nat
    requires 0 < c.capacity
  {
    k => LastUse(c, h, k)
  }

  lemma {:induction false} FindMember(rank: string -> nat, slots: seq<Slot>, s: Slot)
    requires Ordered(rank, slots)
    ensures s in slots <==> Find(slots, s.key) == Some(s.entry)
  {
    if slots != [] {
      FindMember(rank, slots[1..], s);
    }
  }

  lemma {:induction false} RemoveKeepsOrder(rank: string -> nat, slots: seq<Slot>, key: string)
    requires Ordered(rank, slots)
    ensures Ordered(rank, Remove(slots, key))
    ensures forall s :: s in Remove(slots, key) <==> s in slots && s.key != key
  {
    if slots != [] {
      RemoveKeepsOrder(rank, slots[1..], key);
      var r := Remove(slots, key);
      if slots[0].key != key {
        assert r[1..] == Remove(slots[1..], key);
      }
    }
  }

  lemma {:induction false} SameRanks(rank: string -> nat, rank': string -> nat, slots: seq<Slot>)
    requires Ordered(rank, slots)
    requires forall s | s in slots :: rank(s.key) == rank'(s.key)
    ensures Ordered(rank', slots)
  {
    if slots != [] {
      assert slots[0] in slots && forall s | s in slots[1..] :: s in slots;
      SameRanks(rank, rank', slots[1..]);
    }
  }

  lemma {:induction false} PrefixOrdered(rank: string -> nat, slots: seq<Slot>, n: nat)
    requires Ordered(rank, slots) && n <= |slots|
    ensures Ordered(rank, slots[..n])
    ensures n < |slots| ==> forall s | s in slots[..n] :: rank(s.key) > rank(slots[n].key)
  {
    if n > 0 {
      PrefixOrdered(rank, slots[1..], n - 1);
      var p := slots[..n];
      assert p[1..] == slots[1..][..n - 1];
      assert forall s | s in p[1..] :: s in slots[1..];
      if n < |slots| {
        assert slots[n] == slots[1..][n - 1] && slots[1..][n - 1] in slots[1..];
        assert forall s | s in p :: s == p[0] || s in p[1..];
      }
    }
  }

  lemma {:induction false} LastUseBound(c: Config, h: seq<Op>, key: string)
    requires 0 < c.capacity
    ensures LastUse(c, h, key) <= |h|
  {
    if h != [] {
      LastUseBound(c, h[..|h| - 1], key);
    }
  }

  // ---------------------------------------------------------------- invariant of every run

  /** Slots hold the latest inserts, most recently used first, within the capacity. */
  ghost predicate Inv(c: Config, h: seq<Op>)
    requires 0 < c.capacity
  {
    var slots := After(c, h);
    && |slots| <= c.capacity
    && Ordered(Ranks(c, h), slots)
    && forall s | s in slots :: Latest(c, h, s.key) == Some(s.entry)
  }

  lemma StepFrame(c: Config, h: seq<Op>, op: Op, key: string)
    requires 0 < c.capacity
    ensures var h' := h + [op];
            && LastUse(c, h', key)
                == (if op.Key() == key && Uses(c, After(c, h), op) then |h| + 1 else LastUse(c, h, key))
            && Latest(c, h', key) == (if op.Insert? && op.Key() == key && EntryTtl(c, op.message) > 0
                                      then Some(NewEntry(c, op)) else Latest(c, h, key))
  {
    assert (h + [op])[..|h|] == h;
  }

  /** Slots other than the used one keep their ranks and entries. */
  lemma OthersKept(c: Config, h: seq<Op>, op: Op, slots: seq<Slot>)
    requires 0 < c.capacity
    requires Ordered(Ranks(c, h), slots)
    requires forall s | s in slots :: Latest(c, h, s.key) == Some(s.entry)
    requires !Uses(c, After(c, h), op) || forall s | s in slots :: s.key != op.Key()
    ensures Ordered(Ranks(c, h + [op]), slots)
    ensures forall s | s in slots :: Latest(c, h + [op], s.key) == Some(s.entry)
    ensures forall s | s in slots :: Ranks(c, h + [op])(s.key) <= |h|
  {
    forall s | s in slots
      ensures Ranks(c, h + [op])(s.key) == Ranks(c, h)(s.key) <= |h|
      ensures Latest(c, h + [op], s.key) == Some(s.entry)
    {
      StepFrame(c, h, op, s.key);
      LastUseBound(c, h, s.key);
    }
    SameRanks(Ranks(c, h), Ranks(c, h + [op]), slots);
  }

  lemma FrontOrdered(rank: string -> nat, slot: Slot, rest: seq<Slot>)
    requires Ordered(rank, rest) && forall s | s in rest :: rank(s.key) < rank(slot.key)
    ensures Ordered(rank, [slot] + rest)
  {
    assert ([slot] + rest)[1..] == rest;
  }

  /** The slot that an operation puts in front of the slots it leaves alone. */
  lemma UseKeepsInv(c: Config, h: seq<Op>, op: Op, slot: Slot, rest: seq<Slot>)
    requires 0 < c.capacity && Uses(c, After(c, h), op) && slot.key == op.Key()
    requires Latest(c, h + [op], slot.key) == Some(slot.entry)
    requires Ordered(Ranks(c, h), rest)
    requires forall s | s in rest :: Latest(c, h, s.key) == Some(s.entry) && s.key != op.Key()
    ensures Ordered(Ranks(c, h + [op]), [slot] + rest)
    ensures forall s | s in [slot] + rest :: Latest(c, h + [op], s.key) == Some(s.entry)
  {
    OthersKept(c, h, op, rest);
    StepFrame(c, h, op, slot.key);
    FrontOrdered(Ranks(c, h + [op]), slot, rest);
  }

  lemma StepKeepsInv(c: Config, h: seq<Op>, op: Op)
    requires 0 < c.capacity && Inv(c, h)
    ensures Inv(c, h + [op])
  {
    var slots, key, rank := After(c, h), op.Key(), Ranks(c, h);
    AfterSnoc(c, h, op);
    StepFrame(c, h, op, key);
    RemoveKeepsOrder(rank, slots, key);
    match op {
      case Get(_, _, now) =>
        var found := Find(slots, key);
        if found.Some? {
          FindMember(rank, slots, Slot(key, found.value));
          if RemainingTtl(found.value, now).Some? {
            UseKeepsInv(c, h, op, Slot(key, found.value), Remove(slots, key));
          } else {
            OthersKept(c, h, op, Remove(slots, key));
          }
        } else {
          OthersKept(c, h, op, slots);
        }
      case Insert(_, _, _, message, _) =>
        if EntryTtl(c, message) == 0 {
          OthersKept(c, h, op, slots);
        } else {
          var slot := Slot(key, NewEntry(c, op));
          if Find(slots, key).Some? {
            UseKeepsInv(c, h, op, slot, Remove(slots, key));
          } else {
            forall s | s in slots
              ensures s.key != key
            {
              FindMember(rank, slots, s);
            }
            var n := if |slots| < c.capacity then |slots| else c.capacity - 1;
            PrefixOrdered(rank, slots, n);
            assert slots[..|slots|] == slots && forall s | s in slots[..n] :: s in slots;
            UseKeepsInv(c, h, op, slot, slots[..n]);
          }
        }
    }
  }

  lemma {:induction false} RunKeepsInv(c: Config, h: seq<Op>)
    requires 0 < c.capacity
    ensures Inv(c, h)
  {
    if h != [] {
      hide Inv;
      var front, last := h[..|h| - 1], h[|h| - 1];
      assert h == front + [last];
      RunKeepsInv(c, front);
      StepKeepsInv(c, front, last);
    }
  }

  // ---------------------------------------------------------------- main results

  lemma {:induction false} LatestFacts(c: Config, h: seq<Op>, key: string)
    requires Latest(c, h, key).Some?
    ensures var e := Latest(c, h, key).value;
            && 1 <= e.ttl <= c.maxTtl
            && exists i | 0 <= i < |h| :: h[i].Insert? && h[i].Key() == key && e == NewEntry(c, h[i])
  {
    var n := |h| - 1;
    if h[n].Insert? && h[n].Key() == key && EntryTtl(c, h[n].message) > 0 {
      assert Latest(c, h, key).value == NewEntry(c, h[n]);
    } else {
      LatestFacts(c, h[..n], key);
      var i :| 0 <= i < n && h[..n][i].Insert? && h[..n][i].Key() == key
               && Latest(c, h, key).value == NewEntry(c, h[..n][i]);
      assert h[i].Insert?;
    }
  }

  /** The operation asks for or stores the name, in any letter case, and the type. */
  ghost predicate IsFor(op: Op, name: string, qtype: nat)
  {
    Lower(op.name) == Lower(name) && op.qtype == qtype
  }

  /** Operation `i` is the last one for the name and type that stored anything. */
  ghost predicate LatestInsert(c: Config, h: seq<Op>, i: nat, name: string, qtype: nat)
  {
    && i < |h| && h[i].Insert? && IsFor(h[i], name, qtype) && !KeptFor(c, h[i].message, 0)
    && forall j | i < j < |h| && h[j].Insert? && IsFor(h[j], name, qtype) :: KeptFor(c, h[j].message, 0)
  }

  /** What the insert stored, served with `left` for every answer and additional TTL. */
  ghost predicate Serves(op: Op, m: Message, upstream: string, left: nat)
  {
    && op.Insert? && upstream == op.upstream && m.id == op.message.id && m.rcode == op.message.rcode
    && |m.answers| == |op.message.answers| && |m.additionals| == |op.message.additionals|
    && (forall i | 0 <= i < |m.answers| :: m.answers[i] == Record(op.message.answers[i].data, left))
    && (forall i | 0 <= i < |m.additionals| :: m.additionals[i] == Record(op.message.additionals[i].data, left))
  }

  lemma {:induction false} LatestIsInsert(c: Config, h: seq<Op>, name: string, qtype: nat)
    requires Latest(c, h, CacheKey(name, qtype)).Some?
    ensures exists i: nat :: LatestInsert(c, h, i, name, qtype)
                        && Latest(c, h, CacheKey(name, qtype)) == Some(NewEntry(c, h[i]))
  {
    hide EntryTtl, KeptFor, CacheKey;
    var n := |h| - 1;
    CacheKeyInjective(h[n].name, h[n].qtype, name, qtype);
    if h[n].Insert? {
      KeptForIff(c, h[n].message, 0);
    }
    if h[n].Insert? && h[n].Key() == CacheKey(name, qtype) && EntryTtl(c, h[n].message) > 0 {
      assert LatestInsert(c, h, n, name, qtype);
    } else {
      LatestIsInsert(c, h[..n], name, qtype);
      var i: nat :| LatestInsert(c, h[..n], i, name, qtype)
               && Latest(c, h[..n], CacheKey(name, qtype)) == Some(NewEntry(c, h[..n][i]));
      assert forall j | 0 <= j < n :: h[..n][j] == h[j];
      assert LatestInsert(c, h, i, name, qtype);
    }
  }

  lemma LatestInsertUnique(c: Config, h: seq<Op>, i: nat, j: nat, name: string, qtype: nat)
    requires LatestInsert(c, h, i, name, qtype) && LatestInsert(c, h, j, name, qtype)
    ensures i == j
  {
    hide KeptFor, IsFor;
  }

  lemma {:induction false} InsertIsLatest(c: Config, h: seq<Op>, i: nat, name: string, qtype: nat)
    requires LatestInsert(c, h, i, name, qtype)
    ensures Latest(c, h, CacheKey(name, qtype)).Some?
  {
    hide EntryTtl, KeptFor, CacheKey;
    var n := |h| - 1;
    CacheKeyInjective(h[n].name, h[n].qtype, name, qtype);
    if h[n].Insert? {
      KeptForIff(c, h[n].message, 0);
    }
    if i < n {
      assert forall j | 0 <= j < n :: h[..n][j] == h[j];
      InsertIsLatest(c, h[..n], i, name, qtype);
    }
  }

  /**
    After any run, a hit is the latest insert for that name and type that stored anything, with
    every answer and additional TTL set to what is left of the time it is kept for.
    */
  lemma HitIsLatestInsert(c: Config, h: seq<Op>, name: string, qtype: nat, now: nat)
    requires 0 < c.capacity && Lookup(After(c, h), CacheKey(name, qtype), now).Some?
    requires Monotone(h + [Get(name, qtype, now)])
    ensures var (m, upstream) := Lookup(After(c, h), CacheKey(name, qtype), now).value;
            exists i: nat, ttl: nat | LatestInsert(c, h, i, name, qtype) && KeptFor(c, h[i].message, ttl) ::
              var seconds := (now - h[i].now) / 1_000_000_000;
              h[i].now <= now && seconds < ttl && Serves(h[i], m, upstream, ttl - seconds)
  {
    hide EntryTtl, KeptFor, CacheKey, After, Monotone;
    var key := CacheKey(name, qtype);
    var e := Find(After(c, h), key).value;
    FoundIsLatest(c, h, key);
    LatestIsInsert(c, h, name, qtype);
    NoWrap(c, h, key, Get(name, qtype, now));
    var i: nat :| LatestInsert(c, h, i, name, qtype) && Latest(c, h, key) == Some(NewEntry(c, h[i]));
    KeptForIff(c, h[i].message, e.ttl);
    var (m, upstream) := Lookup(After(c, h), key, now).value;
    assert Serves(h[i], m, upstream, e.ttl - (now - h[i].now) / 1_000_000_000);
  }

  lemma FoundIsLatest(c: Config, h: seq<Op>, key: string)
    requires 0 < c.capacity && Find(After(c, h), key).Some?
    ensures Latest(c, h, key) == Find(After(c, h), key)
  {
    RunKeepsInv(c, h);
    FindMember(Ranks(c, h), After(c, h), Slot(key, Find(After(c, h), key).value));
  }

  /** Whatever the clock does, a hit serves an insert for that name and type. */
  lemma HitServesInsert(c: Config, h: seq<Op>, name: string, qtype: nat, now: nat)
    requires 0 < c.capacity && Lookup(After(c, h), CacheKey(name, qtype), now).Some?
    ensures var (m, upstream) := Lookup(After(c, h), CacheKey(name, qtype), now).value;
            exists op, left: nat | op in h :: Serves(op, m, upstream, left) && IsFor(op, name, qtype)
  {
    hide EntryTtl, KeptFor, CacheKey, After;
    var key := CacheKey(name, qtype);
    var e := Find(After(c, h), key).value;
    FoundIsLatest(c, h, key);
    LatestIsInsert(c, h, name, qtype);
    var i: nat :| LatestInsert(c, h, i, name, qtype) && Latest(c, h, key) == Some(NewEntry(c, h[i]));
    var (m, upstream) := Lookup(After(c, h), key, now).value;
    assert h[i] in h && Serves(h[i], m, upstream, RemainingTtl(e, now).value);
  }

  /**
    No record is served beyond its own TTL, or `min_ttl` where that is larger, nor beyond
    `max_ttl`; unless a limit took hold, some record is served up to its own TTL.
    */
  lemma NoRecordOutlived(c: Config, h: seq<Op>, name: string, qtype: nat, now: nat)
    requires 0 < c.capacity && Lookup(After(c, h), CacheKey(name, qtype), now).Some?
    requires Monotone(h + [Get(name, qtype, now)])
    ensures var (m, upstream) := Lookup(After(c, h), CacheKey(name, qtype), now).value;
            exists i: nat, left: nat | LatestInsert(c, h, i, name, qtype) && Serves(h[i], m, upstream, left) ::
              var until := left + (now - h[i].now) / 1_000_000_000;
              var rs := h[i].message.answers + h[i].message.additionals;
              && until <= c.maxTtl
              && (forall r | r in rs :: until <= r.ttl || until <= c.minTtl)
              && (rs != [] ==> until == c.minTtl || until == c.maxTtl || exists r | r in rs :: until == r.ttl)
  {
    hide Serves, Lookup, Monotone, KeptFor;
    HitIsLatestInsert(c, h, name, qtype, now);
    var (m, upstream) := Lookup(After(c, h), CacheKey(name, qtype), now).value;
    var i: nat, ttl: nat :| LatestInsert(c, h, i, name, qtype) && KeptFor(c, h[i].message, ttl)
                  && h[i].now <= now && (now - h[i].now) / 1_000_000_000 < ttl
                  && Serves(h[i], m, upstream, ttl - (now - h[i].now) / 1_000_000_000);
    KeptWithin(c, h[i].message, ttl);
    var left := ttl - (now - h[i].now) / 1_000_000_000;
    assert Serves(h[i], m, upstream, left);
  }

  lemma KeptWithin(c: Config, m: Message, ttl: nat)
    requires KeptFor(c, m, ttl)
    ensures var rs := m.answers + m.additionals;
            && ttl <= c.maxTtl
            && (forall r | r in rs :: ttl <= r.ttl || ttl <= c.minTtl)
            && (rs != [] ==> ttl == c.minTtl || ttl == c.maxTtl || exists r | r in rs :: ttl == r.ttl)
  {
  }

  /** Within a run the elapsed seconds survive their cast to `u32`. */
  lemma NoWrap(c: Config, h: seq<Op>, key: string, op: Op)
    requires Latest(c, h, key).Some? && Monotone(h + [op])
    ensures var e := Latest(c, h, key).value;
            e.insertedAt <= op.now && Elapsed(e, op.now) == (op.now - e.insertedAt) / NANOS
  {
    LatestFacts(c, h, key);
    var i :| 0 <= i < |h| && h[i].Insert? && h[i].Key() == key && Latest(c, h, key).value == NewEntry(c, h[i]);
    var all := h + [op];
    assert all[i] == h[i] && all[|h|] == op && all[i].now <= all[|h|].now;
  }

  /** The cache never holds more than `capacity` entries, nor two for one key. */
  lemma SizeBounded(c: Config, h: seq<Op>)
    requires 0 < c.capacity
    ensures |After(c, h)| <= c.capacity
    ensures forall i, j | 0 <= i < j < |After(c, h)| :: After(c, h)[i].key != After(c, h)[j].key
  {
    RunKeepsInv(c, h);
    OrderedIndices(Ranks(c, h), After(c, h));
  }

  lemma {:induction false} OrderedIndices(rank: string -> nat, slots: seq<Slot>)
    requires Ordered(rank, slots)
    ensures forall i, j | 0 <= i < j < |slots| :: rank(slots[i].key) > rank(slots[j].key)
  {
    if slots != [] {
      OrderedIndices(rank, slots[1..]);
      forall i, j | 0 <= i < j < |slots|
        ensures rank(slots[i].key) > rank(slots[j].key)
      {
        assert slots[j] == slots[1..][j - 1] && slots[1..][j - 1] in slots[1..];
        assert i > 0 ==> slots[i] == slots[1..][i - 1];
      }
    }
  }

  /** Operation `j` was a hit for the key, or stored something for it. */
  ghost predicate UsedAt(c: Config, h: seq<Op>, j: nat, key: string)
    requires 0 < c.capacity
  {
    && j < |h| && h[j].Key() == key
    && if h[j].Insert? then !KeptFor(c, h[j].message, 0) else Lookup(After(c, h[..j]), key, h[j].now).Some?
  }

  lemma UsedAtIff(c: Config, h: seq<Op>, j: nat, key: string)
    requires 0 < c.capacity && j < |h|
    ensures UsedAt(c, h, j, key) <==> h[j].Key() == key && Uses(c, After(c, h[..j]), h[j])
  {
    hide KeptFor, EntryTtl, Lookup, After;
    if h[j].Insert? {
      KeptForIff(c, h[j].message, 0);
    }
  }

  lemma {:induction false} LastUseIs(c: Config, h: seq<Op>, key: string)
    requires 0 < c.capacity
    ensures LastUse(c, h, key) > 0 ==> UsedAt(c, h, LastUse(c, h, key) - 1, key)
    ensures forall j: nat | LastUse(c, h, key) <= j < |h| :: !UsedAt(c, h, j, key)
  {
    if h != [] {
      var n := |h| - 1;
      LastUseIs(c, h[..n], key);
      LastUseBound(c, h[..n], key);
      UsedAtIff(c, h, n, key);
      assert h[..n] + [h[n]] == h;
      StepFrame(c, h[..n], h[n], key);
      hide *;
      forall j: nat | j < n
        ensures UsedAt(c, h, j, key) <==> UsedAt(c, h[..n], j, key)
      {
        SamePast(c, h, n, j, key);
      }
    }
  }

  lemma SamePast(c: Config, h: seq<Op>, n: nat, j: nat, key: string)
    requires 0 < c.capacity && j < n <= |h|
    ensures UsedAt(c, h, j, key) <==> UsedAt(c, h[..n], j, key)
  {
    assert h[..n][j] == h[j] && h[..n][..j] == h[..j];
    hide KeptFor, Lookup, After;
  }

  lemma {:induction false} UsedSinceIs(c: Config, h: seq<Op>, n: nat, key: string)
    requires 0 < c.capacity
    ensures key in UsedSince(c, h, n) ==> exists j: nat | n <= j < |h| :: UsedAt(c, h, j, key)
  {
    if |h| > n && key in UsedSince(c, h, n) {
      var last := |h| - 1;
      UsedAtIff(c, h, last, key);
      if key in UsedSince(c, h[..last], n) {
        UsedSinceIs(c, h[..last], n, key);
        var j: nat :| n <= j < last && UsedAt(c, h[..last], j, key);
        SamePast(c, h, last, j, key);
      } else {
        assert UsedAt(c, h, last, key);
      }
    }
  }

  /**
    An insert drops a slot only for a new key in a full cache, and then one that no operation has
    used since every other slot was last used.
    */
  lemma EvictsLeastRecentlyUsed(c: Config, h: seq<Op>, op: Op, s: Slot)
    requires 0 < c.capacity && op.Insert? && !KeptFor(c, op.message, 0)
    requires s in After(c, h) && s.key != op.Key() && s !in After(c, h + [op])
    ensures |After(c, h)| == c.capacity && forall t | t in After(c, h) :: t.key != op.Key()
    ensures forall t | t in After(c, h) && t != s ::
              exists j: nat | j < |h| ::
                UsedAt(c, h, j, t.key) && forall k: nat | j <= k < |h| :: !UsedAt(c, h, k, s.key)
  {
    KeptForIff(c, op.message, 0);
    EvictedIsLast(c, h, op, s);
    RunKeepsInv(c, h);
    hide UsedAt, KeptFor, EntryTtl, After, LastUse, Ordered, Find;
    forall t | t in After(c, h)
      ensures t.key != op.Key()
    {
      FindMember(Ranks(c, h), After(c, h), t);
    }
    forall t | t in After(c, h) && t != s
      ensures exists j: nat | j < |h| ::
                UsedAt(c, h, j, t.key) && forall k: nat | j <= k < |h| :: !UsedAt(c, h, k, s.key)
    {
      UsedLater(c, h, t.key, s.key);
    }
  }

  lemma UsedLater(c: Config, h: seq<Op>, later: string, earlier: string)
    requires 0 < c.capacity && LastUse(c, h, later) > LastUse(c, h, earlier)
    ensures exists j: nat | j < |h| ::
              UsedAt(c, h, j, later) && forall k: nat | j <= k < |h| :: !UsedAt(c, h, k, earlier)
  {
    hide *;
    LastUseIs(c, h, earlier);
    LastUseIs(c, h, later);
    LastUseBound(c, h, later);
    var j := LastUse(c, h, later) - 1;
    assert UsedAt(c, h, j, later) && forall k: nat | j <= k < |h| :: !UsedAt(c, h, k, earlier);
  }

  /** In terms of the recency ranks, the dropped slot is the last one. */
  lemma EvictedIsLast(c: Config, h: seq<Op>, op: Op, s: Slot)
    requires 0 < c.capacity && op.Insert? && EntryTtl(c, op.message) > 0
    requires s in After(c, h) && s.key != op.Key() && s !in After(c, h + [op])
    ensures |After(c, h)| == c.capacity && Find(After(c, h), op.Key()).None?
    ensures forall t | t in After(c, h) && t != s :: LastUse(c, h, t.key) > LastUse(c, h, s.key)
  {
    AfterSnoc(c, h, op);
    RunKeepsInv(c, h);
    PutDropsLast(Ranks(c, h), c.capacity, After(c, h), Slot(op.Key(), NewEntry(c, op)), s);
  }

  /** A put drops a slot only if it is the last of a full list. */
  lemma PutDropsLast(rank: string -> nat, capacity: nat, slots: seq<Slot>, new': Slot, s: Slot)
    requires 0 < capacity && |slots| <= capacity && Ordered(rank, slots)
    requires s in slots && s.key != new'.key && s !in Put(capacity, slots, new')
    ensures |slots| == capacity && Find(slots, new'.key).None?
    ensures forall t | t in slots && t != s :: rank(t.key) > rank(s.key)
  {
    hide *;
    var i :| 0 <= i < |slots| && slots[i] == s;
    if Find(slots, new'.key).Some? || |slots| < capacity || i < capacity - 1 {
      PutKeepsAt(rank, capacity, slots, new', i);
    }
    LastIsLowest(rank, slots, i);
  }

  lemma LastIsLowest(rank: string -> nat, slots: seq<Slot>, i: nat)
    requires Ordered(rank, slots) && i < |slots|
    ensures i == |slots| - 1 ==> forall t | t in slots && t != slots[i] :: rank(t.key) > rank(slots[i].key)
  {
    OrderedIndices(rank, slots);
    hide Ordered;
  }

  lemma PutKeepsAt(rank: string -> nat, capacity: nat, slots: seq<Slot>, new': Slot, i: nat)
    requires 0 < capacity && Ordered(rank, slots)
    requires i < |slots| && slots[i].key != new'.key
    requires Find(slots, new'.key).Some? || |slots| < capacity || i < capacity - 1
    ensures slots[i] in Put(capacity, slots, new')
  {
    var next := Put(capacity, slots, new');
    if Find(slots, new'.key).Some? {
      RemoveKeepsOrder(rank, slots, new'.key);
      assert slots[i] in slots && slots[i] in Remove(slots, new'.key);
    } else {
      assert next[i + 1] == slots[i];
    }
  }

  lemma {:induction false} UsedAfterLastUse(c: Config, h: seq<Op>, key: string, n: nat)
    requires 0 < c.capacity && LastUse(c, h, key) > n
    ensures key in UsedSince(c, h, n)
  {
    if h != [] {
      LastUseBound(c, h, key);
      if LastUse(c, h[..|h| - 1], key) > n {
        UsedAfterLastUse(c, h[..|h| - 1], key, n);
      }
    }
  }

  function Keys(slots: seq<Slot>): set<string>
  {
    set s | s in slots :: s.key
  }

  lemma {:induction false} KeysDistinct(rank: string -> nat, slots: seq<Slot>)
    requires Ordered(rank, slots)
    ensures |Keys(slots)| == |slots|
  {
    if slots != [] {
      KeysDistinct(rank, slots[1..]);
      assert slots == [slots[0]] + slots[1..];
      assert Keys(slots) == {slots[0].key} + Keys(slots[1..]);
    }
  }

  /** A slot evicted by an insert leaves behind `capacity` keys used more recently. */
  lemma EvictedBehindOthers(c: Config, h: seq<Op>, op: Op, s: Slot)
    requires 0 < c.capacity && op.Insert? && EntryTtl(c, op.message) > 0
    requires s in After(c, h) && s.key != op.Key() && s !in After(c, h + [op])
    ensures |UsedSince(c, h + [op], LastUse(c, h, s.key))| >= c.capacity
  {
    var slots, n := After(c, h), LastUse(c, h, s.key);
    EvictedIsLast(c, h, op, s);
    RunKeepsInv(c, h);
    KeysDistinct(Ranks(c, h), slots);
    LastUseBound(c, h, s.key);
    assert (h + [op])[..|h|] == h;
    var others := Keys(slots) - {s.key} + {op.Key()};
    assert s.key in Keys(slots);
    forall k | k in others
      ensures k in UsedSince(c, h + [op], n)
    {
      if k != op.Key() {
        var t :| t in slots && t.key == k;
        UsedAfterLastUse(c, h, k, n);
      }
    }
    assert op.Key() !in Keys(slots) by {
      forall t | t in slots ensures t.key != op.Key() { FindMember(Ranks(c, h), slots, t); }
    }
    SubsetSize(others, UsedSince(c, h + [op], n));
  }

  /** The latest insert for a key is in the cache, has expired, or is behind `capacity` other keys. */
  ghost predicate Accounted(c: Config, h: seq<Op>, key: string, now: nat)
    requires 0 < c.capacity
  {
    match Latest(c, h, key)
    case None => true
    case Some(e) =>
      || Find(After(c, h), key) == Some(e)
      || RemainingTtl(e, now).None?
      || |UsedSince(c, h, LastUse(c, h, key))| >= c.capacity
  }

  lemma StaysExpired(c: Config, h: seq<Op>, key: string, op: Op, then_: nat)
    requires Latest(c, h, key).Some? && Monotone(h + [op]) && then_ <= op.now
    requires RemainingTtl(Latest(c, h, key).value, then_).None?
    requires Latest(c, h, key).value.insertedAt <= then_
    ensures RemainingTtl(Latest(c, h, key).value, op.now).None?
  {
    NoWrap(c, h, key, op);
  }

  lemma UsedGrows(c: Config, h: seq<Op>, op: Op, n: nat)
    requires 0 < c.capacity && n <= |h|
    ensures UsedSince(c, h, n) <= UsedSince(c, h + [op], n)
  {
    assert (h + [op])[..|h|] == h;
  }

  lemma {:induction false} RunAccounts(c: Config, h: seq<Op>, key: string, op: Op)
    requires 0 < c.capacity && Monotone(h + [op])
    ensures Accounted(c, h, key, op.now)
  {
    if h != [] && Latest(c, h, key).Some? {
      var front, last := h[..|h| - 1], h[|h| - 1];
      assert h == front + [last];
      assert Monotone(h) by { assert h == (h + [op])[..|h|]; }
      assert last.now <= op.now by { assert (h + [op])[|h| - 1] == last && (h + [op])[|h|] == op; }
      StepFrame(c, front, last, key);
      AfterSnoc(c, front, last);
      RunKeepsInv(c, h);
      if last.Insert? && last.Key() == key && EntryTtl(c, last.message) > 0 {
        assert After(c, h)[0] == Slot(key, NewEntry(c, last));
      } else {
        RunAccounts(c, front, key, last);
        AccountStep(c, front, last, key, op);
      }
    }
  }

  lemma AccountStep(c: Config, h: seq<Op>, last: Op, key: string, op: Op)
    requires 0 < c.capacity && Latest(c, h, key).Some? && Accounted(c, h, key, last.now)
    requires Monotone(h + [last]) && Monotone(h + [last] + [op]) && last.now <= op.now
    requires !(last.Insert? && last.Key() == key && EntryTtl(c, last.message) > 0)
    ensures Accounted(c, h + [last], key, op.now)
  {
    var h', e, slots := h + [last], Latest(c, h, key).value, After(c, h);
    StepFrame(c, h, last, key);
    AfterSnoc(c, h, last);
    LastUseBound(c, h, key);
    NoWrap(c, h, key, last);
    RunKeepsInv(c, h);
    RunKeepsInv(c, h');
    var slot := Slot(key, e);
    FindMember(Ranks(c, h), slots, slot);
    FindMember(Ranks(c, h'), After(c, h'), slot);
    RemoveKeepsOrder(Ranks(c, h), slots, last.Key());
    if RemainingTtl(e, last.now).None? {
      StaysExpired(c, h', key, op, last.now);
    } else if Find(slots, key) == Some(e) {
      if slot !in After(c, h') {
        assert last.Insert? && last.Key() != key;
        EvictedBehindOthers(c, h, last, slot);
      }
    } else {
      assert !(last.Key() == key && Uses(c, slots, last)) by {
        if last.Key() == key && last.Get? && Find(slots, key).Some? {
          FindMember(Ranks(c, h), slots, Slot(key, Find(slots, key).value));
        }
      }
      UsedGrows(c, h, last, LastUse(c, h, key));
      SubsetSize(UsedSince(c, h, LastUse(c, h, key)), UsedSince(c, h', LastUse(c, h, key)));
    }
  }

  /**
    After any run, a question whose latest insert is still live is missed only if at least
    `capacity` distinct keys have been used since the question's own last use.
    */
  lemma LiveMissMeansEvicted(c: Config, h: seq<Op>, name: string, qtype: nat, now: nat, i: nat, ttl: nat)
    returns (keys: set<string>, used: nat)
    requires 0 < c.capacity && Monotone(h + [Get(name, qtype, now)])
    requires Lookup(After(c, h), CacheKey(name, qtype), now).None?
    requires LatestInsert(c, h, i, name, qtype) && KeptFor(c, h[i].message, ttl)
    requires (now - h[i].now) / 1_000_000_000 < ttl
    ensures |keys| >= c.capacity && UsedAt(c, h, used, CacheKey(name, qtype))
    ensures forall j: nat | used < j < |h| :: !UsedAt(c, h, j, CacheKey(name, qtype))
    ensures forall k | k in keys :: exists j: nat | used < j < |h| :: UsedAt(c, h, j, k)
  {
    var key := CacheKey(name, qtype);
    var n := LastUse(c, h, key);
    LatestIsLive(c, h, name, qtype, now, i, ttl);
    hide UsedAt, KeptFor, Lookup, CacheKey, LatestInsert, Monotone;
    RunAccounts(c, h, key, Get(name, qtype, now));
    LastUseIs(c, h, key);
    keys, used := UsedSince(c, h, n), n - 1;
    forall k | k in keys
      ensures exists j: nat | used < j < |h| :: UsedAt(c, h, j, k)
    {
      UsedSinceIs(c, h, n, k);
    }
  }

  lemma LatestIsLive(c: Config, h: seq<Op>, name: string, qtype: nat, now: nat, i: nat, ttl: nat)
    requires 0 < c.capacity && Monotone(h + [Get(name, qtype, now)])
    requires LatestInsert(c, h, i, name, qtype) && KeptFor(c, h[i].message, ttl)
    requires (now - h[i].now) / 1_000_000_000 < ttl
    ensures var key := CacheKey(name, qtype);
            && Latest(c, h, key).Some? && RemainingTtl(Latest(c, h, key).value, now).Some?
            && LastUse(c, h, key) > 0
  {
    var key := CacheKey(name, qtype);
    InsertIsLatest(c, h, i, name, qtype);
    LatestIsInsert(c, h, name, qtype);
    NoWrap(c, h, key, Get(name, qtype, now));
    KeptForIff(c, h[i].message, ttl);
    KeptForIff(c, h[i].message, 0);
    CacheKeyInjective(h[i].name, h[i].qtype, name, qtype);
    hide EntryTtl, KeptFor, CacheKey;
    var k: nat :| LatestInsert(c, h, k, name, qtype) && Latest(c, h, key) == Some(NewEntry(c, h[k]));
    LatestInsertUnique(c, h, i, k, name, qtype);
    LastUseIs(c, h, key);
    UsedAtIff(c, h, i, key);
    hide After, UsedAt;
  }
}
