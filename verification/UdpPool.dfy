/**
  The pooled UDP upstream (src/dns/upstream/udp.rs): many queries share one socket, and the
  16-bit message id tells their replies apart.
*/
module UdpPool {
  import opened Wrappers
  import opened Sets
  import opened Bytes

  const IDS: nat := 0x1_0000

  function NextId(id: nat): (n: nat)
    ensures n < IDS
  {
    (id + 1) % IDS
  }

  // ---------------------------------------------------------------- choosing an id

  /** The first free id on the ring from `id` on, or the last candidate after `tries` steps. */
  function RingPick(taken: set<nat>, id: nat, tries: nat): nat
    decreases tries
  {
    if id in taken && tries > 0 then RingPick(taken, NextId(id), tries - 1) else id
  }

  function QueryIdFor(pending: map<nat, nat>, nextId: nat): nat
  {
    RingPick(pending.Keys, nextId, IDS - 1)
  }

  predicate IdsValid(pending: map<nat, nat>)
  {
    forall id | id in pending :: id < IDS
  }

  /** The ids from `id` on, `n` of them, around the ring. */
  function Arc(id: nat, n: nat): (s: set<nat>)
    decreases n
  {
    if n == 0 then {} else {id} + Arc(NextId(id), n - 1)
  }

  /** How many steps on the ring lead from `id` to `x`. */
  function Offset(id: nat, x: nat): nat
    requires id < IDS && x < IDS
  {
    if x >= id then x - id else x + IDS - id
  }

  lemma {:induction false} ArcMembers(id: nat, n: nat, x: nat)
    requires id < IDS && n <= IDS && x < IDS
    ensures x in Arc(id, n) <==> Offset(id, x) < n
    decreases n
  {
    if n > 0 {
      ArcMembers(NextId(id), n - 1, x);
    }
  }

  lemma OwnOffset(id: nat)
    requires id < IDS
    ensures NextId(id) < IDS && Offset(NextId(id), id) == IDS - 1
  {
  }

  lemma {:induction false} ArcSize(id: nat, n: nat)
    requires id < IDS && n <= IDS
    ensures |Arc(id, n)| == n
    decreases n
  {
    if n > 0 {
      ArcSize(NextId(id), n - 1);
      ArcMembers(NextId(id), n - 1, id);
      OwnOffset(id);
      hide Offset, NextId;
      assert id !in Arc(NextId(id), n - 1);
    }
  }

  /** If the pick is taken, so is the whole arc that was scanned. */
  lemma {:induction false} TakenPickMeansTakenArc(taken: set<nat>, id: nat, tries: nat)
    requires id < IDS && RingPick(taken, id, tries) in taken
    ensures Arc(id, tries + 1) <= taken
    decreases tries
  {
    if tries > 0 {
      TakenPickMeansTakenArc(taken, NextId(id), tries - 1);
    } else {
      assert Arc(id, 1) == {id} + Arc(NextId(id), 0);
    }
  }

  /** The last candidate is never checked, yet the pick is taken exactly when all ids are. */
  lemma PickIsFreeIff(pending: map<nat, nat>, nextId: nat)
    requires IdsValid(pending) && nextId < IDS
    ensures QueryIdFor(pending, nextId) in pending <==> |pending| == 65536
    ensures |pending| <= 65536
  {
    hide Arc, RingPick;
    var taken, all := pending.Keys, Arc(nextId, IDS);
    ArcSize(nextId, IDS);
    forall x | x in taken
      ensures x in all
    {
      ArcMembers(nextId, IDS, x);
    }
    SubsetSize(taken, all);
    if QueryIdFor(pending, nextId) in taken {
      TakenPickMeansTakenArc(taken, nextId, IDS - 1);
      SubsetSize(all, taken);
    }
    if |taken| == IDS {
      SameSizeSubset(taken, all);
      PickInRange(taken, nextId, IDS - 1);
      ArcMembers(nextId, IDS, QueryIdFor(pending, nextId));
    }
  }

  lemma {:induction false} PickInRange(taken: set<nat>, id: nat, tries: nat)
    requires id < IDS
    ensures RingPick(taken, id, tries) < IDS
    decreases tries
  {
    if id in taken && tries > 0 {
      PickInRange(taken, NextId(id), tries - 1);
    }
  }

  /** The datagram with an id written over its first two bytes. */
  function WithId(data: ByteString, id: nat): ByteString
  {
    if |data| >= 2 then [id / 256 % 256, id % 256] + data[2..] else data
  }

  /** The first two bytes of a DNS message are its id, in network order. */
  predicate CarriesId(data: ByteString, id: nat)
  {
    |data| >= 2 && 0x100 * (data[0] as int) + data[1] as int == id
  }

  lemma WithIdCarriesId(data: ByteString, id: nat)
    requires |data| >= 2 && id < IDS
    ensures CarriesId(WithId(data, id), id) && WithId(data, id)[2..] == data[2..]
  {
  }

  class PoolInner {
    var nextId: nat
    var pending: map<nat, nat>

    ghost predicate Valid()
      reads this
    {
      nextId < IDS && IdsValid(pending)
    }

    constructor ()
      ensures Valid() && pending == map[] && nextId == 0
    {
      nextId, pending := 0, map[];
    }

    /** The block under the lock in `query`: find a free id and register the waiter. */
    method Register(tx: nat) returns (qid: nat)
      requires Valid()
      modifies this
      ensures Valid()
      ensures qid == QueryIdFor(old(pending), old(nextId)) && qid < IDS
      ensures pending == old(pending)[qid := tx] && nextId == NextId(qid)
      ensures |old(pending)| < IDS ==> qid !in old(pending)
    {
      PickIsFreeIff(pending, nextId);
      var candidate: nat := nextId;
      nextId := NextId(nextId);
      var tries := 0;
      while candidate in pending && tries < IDS - 1
        invariant 0 <= tries <= IDS - 1 && candidate < IDS && nextId == NextId(candidate)
        invariant pending == old(pending)
        invariant QueryIdFor(old(pending), old(nextId)) == RingPick(pending.Keys, candidate, IDS - 1 - tries)
      {
        candidate := nextId;
        nextId := NextId(nextId);
        tries := tries + 1;
      }
      pending := pending[candidate := tx];
      qid := candidate;
    }

    /** What `query` sends once it is registered: the request under the id it waits for. */
    method Prepare(wire: ByteString, tx: nat) returns (qid: nat, sent: ByteString)
      requires Valid()
      modifies this
      ensures Valid() && qid < IDS && pending == old(pending)[qid := tx]
      ensures |old(pending)| < 65536 ==> qid !in old(pending)
      ensures |wire| >= 2 ==> CarriesId(sent, qid) && sent[2..] == wire[2..]
      ensures |wire| < 2 ==> sent == wire
    {
      qid := Register(tx);
      sent := wire;
      if |sent| >= 2 {
        WithIdCarriesId(sent, qid);
        sent := [qid / 256 % 256, qid % 256] + sent[2..];
      }
    }
  }

  // ---------------------------------------------------------------- one socket, many queries

  /** The receiving end of a query's one-shot channel. */
  datatype Channel = Open | Sent(data: ByteString) | Closed

  datatype Query = Query(originalId: nat, qid: nat, channel: Channel, finished: bool)

  datatype Reply = Reply(query: nat, datagram: ByteString, delivered: ByteString)

  /** `receiving` says that the receive loop still runs. */
  datatype State = State(nextId: nat, pending: map<nat, nat>, queries: map<nat, Query>, receiving: bool,
      replies: seq<Reply>)

  const START := State(0, map[], map[], true, [])

  datatype Step =
    | Begin(q: nat, originalId: nat)  // choose an id and register
    | SendFails(q: nat)               // the socket refuses the query
    | Datagram(data: ByteString)      // the receive loop dispatches a datagram
    | SocketError                     // the receive loop clears the table and exits
    | TimesOut(q: nat)                // the timer fires and the entry is removed
    | Completes(q: nat)               // the query takes the datagram from its channel
    | FindsClosed(q: nat)             // the query sees that its sender is gone
    | Abandon(q: nat)                 // the caller drops the query

  predicate Active(s: State, q: nat)
  {
    q in s.queries && !s.queries[q].finished
  }

  predicate Enabled(s: State, step: Step)
  {
    match step
    case Begin(q, id) => q !in s.queries && id < IDS
    case SendFails(q) => Active(s, q)
    case Datagram(data) => s.receiving
    case SocketError => s.receiving
    case TimesOut(q) => Active(s, q) && s.queries[q].channel.Open?
    case Completes(q) => Active(s, q) && s.queries[q].channel.Sent?
    case FindsClosed(q) => Active(s, q) && s.queries[q].channel.Closed?
    case Abandon(q) => Active(s, q)
  }

  /** Dropping the sender under `id`, if there is one, closes its query's channel. */
  function Drop(s: State, id: nat): State
  {
    if id !in s.pending then s
    else
      var owner := s.pending[id];
      s.(pending := s.pending - {id},
         queries := if owner in s.queries then s.queries[owner := s.queries[owner].(channel := Closed)] else s.queries)
  }

  function Finish(s: State, q: nat): State
    requires q in s.queries
  {
    s.(queries := s.queries[q := s.queries[q].(finished := true)])
  }

  function Apply(s: State, step: Step): State
    requires Enabled(s, step)
  {
    match step
    case Begin(q, originalId) =>
      var qid := QueryIdFor(s.pending, s.nextId);
      var t := Drop(s, qid);
      t.(nextId := NextId(qid), pending := t.pending[qid := q],
         queries := t.queries[q := Query(originalId, qid, Open, false)])
    case SendFails(q) => Finish(Drop(s, s.queries[q].qid), q)
    case Datagram(data) =>
      if |data| < 2 || U16(data[0], data[1]) !in s.pending then s
      else
        var id := U16(data[0], data[1]);
        var owner := s.pending[id];
        s.(pending := s.pending - {id},
           queries := if owner in s.queries then s.queries[owner := s.queries[owner].(channel := Sent(data))]
                      else s.queries)
    case SocketError =>
      s.(pending := map[], receiving := false,
         queries := map q | q in s.queries ::
           if q in s.pending.Values then s.queries[q].(channel := Closed) else s.queries[q])
    case TimesOut(q) => Finish(Drop(s, s.queries[q].qid), q)
    case Completes(q) =>
      var data := s.queries[q].channel.data;
      Finish(s, q).(replies := s.replies + [Reply(q, data, WithId(data, s.queries[q].originalId))])
    case FindsClosed(q) => Finish(Drop(s, s.queries[q].qid), q)
    case Abandon(q) => Finish(s, q)
  }

  /** The state after a run, if every step of it was enabled. */
  function Run(steps: seq<Step>): Option<State>
  {
    if steps == [] then Some(START)
    else
      match Run(steps[..|steps| - 1])
      case None => None
      case Some(s) =>
        var step := steps[|steps| - 1];
        if Enabled(s, step) then Some(Apply(s, step)) else None
  }

  // ---------------------------------------------------------------- what every run keeps

  /** The table holds exactly the queries whose channel is open, each under its own id. */
  ghost predicate TableInv(s: State)
  {
    && s.nextId < IDS && IdsValid(s.pending)
    && (forall id | id in s.pending :: s.pending[id] in s.queries && s.queries[s.pending[id]].qid == id)
    && (forall q | q in s.queries ::
          s.queries[q].channel.Open? <==> (s.queries[q].qid in s.pending && s.pending[s.queries[q].qid] == q))
  }

  ghost predicate DataInv(s: State)
  {
    && (forall q | q in s.queries :: s.queries[q].originalId < IDS && s.queries[q].qid < IDS)
    && (forall q | q in s.queries && s.queries[q].channel.Sent? ::
          CarriesId(s.queries[q].channel.data, s.queries[q].qid))
  }

  /** Every reply went to a finished query, answers its own id, and carries its original id. */
  ghost predicate RepliesInv(s: State)
  {
    && (forall r | r in s.replies :: r.query in s.queries && GoodReply(s.queries[r.query], r))
    && (forall i, j | 0 <= i < j < |s.replies| :: s.replies[i].query != s.replies[j].query)
  }

  ghost predicate GoodReply(q: Query, r: Reply)
  {
    && q.finished && CarriesId(r.datagram, q.qid) && CarriesId(r.delivered, q.originalId)
    && r.delivered[2..] == r.datagram[2..]
  }

  ghost predicate Inv(s: State)
  {
    TableInv(s) && DataInv(s) && RepliesInv(s)
  }

  /** Nothing about a query changes but its channel and its flag. */
  ghost predicate SameQueries(s: State, t: State)
  {
    && s.queries.Keys <= t.queries.Keys
    && forall q | q in s.queries ::
         && t.queries[q].originalId == s.queries[q].originalId && t.queries[q].qid == s.queries[q].qid
         && (s.queries[q].finished ==> t.queries[q].finished)
  }

  lemma DropKeepsTable(s: State, id: nat)
    requires TableInv(s)
    ensures TableInv(Drop(s, id)) && id !in Drop(s, id).pending
    ensures SameQueries(s, Drop(s, id)) && Drop(s, id).queries.Keys == s.queries.Keys
    ensures DataInv(s) ==> DataInv(Drop(s, id))
  {
  }

  lemma StepKeepsTable(s: State, step: Step)
    requires TableInv(s) && Enabled(s, step)
    ensures TableInv(Apply(s, step))
  {
    match step {
      case Begin(q, originalId) =>
        var qid := QueryIdFor(s.pending, s.nextId);
        PickInRange(s.pending.Keys, s.nextId, IDS - 1);
        DropKeepsTable(s, qid);
      case SendFails(q) => DropKeepsTable(s, s.queries[q].qid);
      case TimesOut(q) => DropKeepsTable(s, s.queries[q].qid);
      case FindsClosed(q) => DropKeepsTable(s, s.queries[q].qid);
      case _ =>
    }
  }

  lemma StepKeepsQueries(s: State, step: Step)
    requires TableInv(s) && Enabled(s, step)
    ensures SameQueries(s, Apply(s, step))
  {
    hide QueryIdFor, U16, WithId;
    match step {
      case Begin(q, originalId) => DropKeepsTable(s, QueryIdFor(s.pending, s.nextId));
      case SendFails(q) => DropKeepsTable(s, s.queries[q].qid);
      case TimesOut(q) => DropKeepsTable(s, s.queries[q].qid);
      case FindsClosed(q) => DropKeepsTable(s, s.queries[q].qid);
      case _ =>
    }
  }

  lemma StepKeepsData(s: State, step: Step)
    requires TableInv(s) && DataInv(s) && Enabled(s, step)
    ensures DataInv(Apply(s, step))
  {
    match step {
      case Begin(q, originalId) =>
        PickInRange(s.pending.Keys, s.nextId, IDS - 1);
        DropKeepsTable(s, QueryIdFor(s.pending, s.nextId));
      case SendFails(q) => DropKeepsTable(s, s.queries[q].qid);
      case TimesOut(q) => DropKeepsTable(s, s.queries[q].qid);
      case FindsClosed(q) => DropKeepsTable(s, s.queries[q].qid);
      case _ =>
    }
  }

  lemma StepKeepsReplies(s: State, step: Step)
    requires Inv(s) && Enabled(s, step)
    ensures RepliesInv(Apply(s, step))
  {
    StepKeepsData(s, step);
    StepKeepsQueries(s, step);
    var t := Apply(s, step);
    if step.Completes? {
      var q := step.q;
      var data := s.queries[q].channel.data;
      WithIdCarriesId(data, s.queries[q].originalId);
      var r := Reply(q, data, WithId(data, s.queries[q].originalId));
      assert t.replies == s.replies + [r];
      assert forall x | x in t.replies :: x in s.replies || x == r;
      assert forall i | 0 <= i < |s.replies| :: s.replies[i] in s.replies;
    }
  }

  lemma {:induction false} RunKeepsInv(steps: seq<Step>, s: State)
    requires Run(steps) == Some(s)
    ensures Inv(s)
    decreases steps
  {
    if steps != [] {
      var n := |steps| - 1;
      var before := Run(steps[..n]).value;
      RunKeepsInv(steps[..n], before);
      StepKeepsTable(before, steps[n]);
      StepKeepsData(before, steps[n]);
      StepKeepsQueries(before, steps[n]);
      StepKeepsReplies(before, steps[n]);
    }
  }

  // ---------------------------------------------------------------- main results

  /** Queries that wait at the same time never share an id. */
  lemma WaitingIdsDistinct(steps: seq<Step>, s: State, p: nat, q: nat)
    requires Run(steps) == Some(s)
    requires p in s.queries && q in s.queries && p != q
    requires s.queries[p].channel.Open? && s.queries[q].channel.Open?
    ensures s.queries[p].qid != s.queries[q].qid
  {
    RunKeepsInv(steps, s);
  }

  /** A query gets at most one reply; it answers the id the query was sent with and carries the caller's id. */
  lemma AtMostOneReply(steps: seq<Step>, s: State, i: nat, j: nat)
    requires Run(steps) == Some(s) && i < |s.replies| && j < |s.replies|
    ensures s.replies[i].query == s.replies[j].query ==> i == j
    ensures var r := s.replies[i];
            r.query in s.queries && CarriesId(r.datagram, s.queries[r.query].qid)
            && CarriesId(r.delivered, s.queries[r.query].originalId) && r.delivered[2..] == r.datagram[2..]
  {
    RunKeepsInv(steps, s);
    assert s.replies[i] in s.replies;
  }

  /** A new query displaces a waiter exactly when all 65,536 ids are waiting. */
  lemma BeginDisplacesIffFull(steps: seq<Step>, s: State, q: nat, originalId: nat)
    requires Run(steps) == Some(s) && Enabled(s, Begin(q, originalId))
    ensures var t := Apply(s, Begin(q, originalId));
            (forall p | p in s.queries :: t.queries[p] == s.queries[p]) <==> |s.pending| < 65536
  {
    RunKeepsInv(steps, s);
    PickIsFreeIff(s.pending, s.nextId);
    var qid := QueryIdFor(s.pending, s.nextId);
    var t := Apply(s, Begin(q, originalId));
    if |s.pending| == IDS {
      var p := s.pending[qid];
      assert s.queries[p].channel.Open? && t.queries[p].channel.Closed?;
    }
  }

  /** The steps in which a query removes the entry under its id, whoever owns it by then. */
  predicate Removes(step: Step, q: nat)
  {
    step == TimesOut(q) || step == SendFails(q) || step == FindsClosed(q)
  }

  /** A removal leaves all other queries alone exactly when the id is free or still the query's own. */
  lemma RemovalSparesOthersIff(steps: seq<Step>, s: State, q: nat, step: Step)
    requires Run(steps) == Some(s) && Enabled(s, step) && Removes(step, q)
    ensures var qid := s.queries[q].qid;
            (forall p | p in s.queries && p != q :: Apply(s, step).queries[p] == s.queries[p])
              <==> qid !in s.pending || s.pending[qid] == q
  {
    RunKeepsInv(steps, s);
    var qid, t := s.queries[q].qid, Apply(s, step);
    if qid in s.pending && s.pending[qid] != q {
      var p := s.pending[qid];
      assert s.queries[p].channel.Open? && t.queries[p].channel.Closed?;
    }
  }

  /** A waiter displaced from a full table takes the entry of the query that displaced it when it notices. */
  lemma DisplacedTakesNewcomer(steps: seq<Step>, s: State, q: nat, originalId: nat)
    requires Run(steps) == Some(s) && Enabled(s, Begin(q, originalId)) && |s.pending| == IDS
    ensures QueryIdFor(s.pending, s.nextId) in s.pending
    ensures var t, p := Apply(s, Begin(q, originalId)), s.pending[QueryIdFor(s.pending, s.nextId)];
            Active(s, p) ==>
              && Enabled(t, FindsClosed(p)) && t.queries[q].channel.Open?
              && Apply(t, FindsClosed(p)).queries[q].channel.Closed?
  {
    RunKeepsInv(steps, s);
    PickIsFreeIff(s.pending, s.nextId);
  }

  // ---------------------------------------------------------------- the retry loop

  /** How an attempt on one socket can end, apart from the caller dropping it. */
  datatype Attempt = SendFailed | Answered(reply: ByteString) | ChannelClosed | TimedOut

  datatype QueryError = NoSocketError | SendError | BrokenError | TimeoutError

  /** The end that a step of the socket's machine brings to query `q`, with the caller's id restored. */
  function EndOf(s: State, step: Step, q: nat): Option<Attempt>
    requires q in s.queries
  {
    if step == SendFails(q) then Some(SendFailed)
    else if step == TimesOut(q) then Some(TimedOut)
    else if step == FindsClosed(q) then Some(ChannelClosed)
    else if step == Completes(q) && s.queries[q].channel.Sent? then
      Some(Answered(WithId(s.queries[q].channel.data, s.queries[q].originalId)))
    else None
  }

  /** After some run of one socket, some query with this original id ends like this. */
  ghost predicate EndsAs(a: Attempt, originalId: nat)
  {
    exists steps, s, q, step :: EndsAfter(steps, s, q, step, a, originalId)
  }

  ghost predicate EndsAfter(steps: seq<Step>, s: State, q: nat, step: Step, a: Attempt, originalId: nat)
  {
    && Run(steps) == Some(s) && Enabled(s, step) && q in s.queries && s.queries[q].originalId == originalId
    && EndOf(s, step, q) == Some(a)
  }

  lemma AnswerCarriesCallersId(a: Attempt, originalId: nat)
    requires EndsAs(a, originalId) && a.Answered?
    ensures CarriesId(a.reply, originalId)
  {
    var steps, s, q, step :| EndsAfter(steps, s, q, step, a, originalId);
    RunKeepsInv(steps, s);
    WithIdCarriesId(s.queries[q].channel.data, originalId);
  }

  predicate Retryable(a: Attempt)
  {
    a.SendFailed? || a.ChannelClosed?
  }

  function Final(a: Attempt): Result<ByteString, QueryError>
  {
    match a
    case SendFailed => Err(SendError)
    case Answered(reply) => Ok(reply)
    case ChannelClosed => Err(BrokenError)
    case TimedOut => Err(TimeoutError)
  }

  /** `inner` is the number of the current socket; sockets are numbered as they are created. */
  class UdpPool {
    var inner: Option<nat>
    var created: nat

    ghost predicate Valid()
      reads this
    {
      inner.Some? ==> inner.value < created
    }

    constructor ()
      ensures Valid() && inner == None
    {
      inner, created := None, 0;
    }

    /** `get_or_create`; `binds` says whether a new socket can be had. */
    method GetOrCreate(binds: bool) returns (r: Option<nat>)
      requires Valid()
      modifies this
      ensures Valid() && inner == r
      ensures old(inner).Some? ==> r == old(inner) && created == old(created)
      ensures old(inner).None? ==> r == if binds then Some(old(created)) else None
      ensures created >= old(created)
    {
      if inner.None? {
        if !binds {
          return None;
        }
        inner, created := Some(created), created + 1;
      }
      r := inner;
    }

    /** `invalidate`: only the socket that failed is given up. */
    method Invalidate(stale: nat)
      requires Valid()
      modifies this
      ensures Valid() && created == old(created)
      ensures inner == if old(inner) == Some(stale) then None else old(inner)
    {
      if inner == Some(stale) {
        inner := None;
      }
    }

    /**
      `query`: a second attempt only after a failed send or a closed channel, on another socket,
      and never a third; a socket that failed is given up, and an answer carries the caller's id.
      */
    method QueryLoop(originalId: nat, binds: bool, rebinds: bool, first: Attempt, second: Attempt)
      returns (r: Result<ByteString, QueryError>, used: seq<nat>)
      requires Valid() && EndsAs(first, originalId) && EndsAs(second, originalId)
      modifies this
      ensures Valid()
      ensures r == if old(inner).None? && !binds then Err(NoSocketError)
                   else if !Retryable(first) then Final(first)
                   else if !rebinds then Err(NoSocketError)
                   else Final(second)
      ensures |used| == if old(inner).None? && !binds then 0 else if Retryable(first) && rebinds then 2 else 1
      ensures |used| == 2 ==> used[0] != used[1]
      ensures |used| > 0 ==>
                inner == if Retryable(if |used| == 1 then first else second) then None else Some(used[|used| - 1])
      ensures r.Ok? ==> CarriesId(r.value, originalId)
    {
      used := [];
      for attempt := 0 to 2
        invariant Valid() && attempt < 2 && |used| == attempt
        invariant attempt == 0 ==> inner == old(inner)
        invariant attempt == 1 ==> Retryable(first) && inner == None && used[0] < created && (old(inner).Some? || binds)
      {
        var socket := GetOrCreate(if attempt == 0 then binds else rebinds);
        if socket.None? {
          return Err(NoSocketError), used;
        }
        used := used + [socket.value];
        var outcome := if attempt == 0 then first else second;
        match outcome {
          case SendFailed =>
            Invalidate(socket.value);
            if attempt == 0 {
              continue;
            }
            return Err(SendError), used;
          case Answered(reply) =>
            AnswerCarriesCallersId(outcome, originalId);
            return Ok(reply), used;
          case ChannelClosed =>
            Invalidate(socket.value);
            if attempt == 0 {
              continue;
            }
            return Err(BrokenError), used;
          case TimedOut =>
            return Err(TimeoutError), used;
        }
      }
      assert false;
    }
  }
}
