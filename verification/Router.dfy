/**
  The query router in front of the cache (src/dns/router.rs, src/dns/hosts.rs): which upstream
  a name is attributed to, and that caching never changes the attribution.
*/
module Router {
  import opened Wrappers
  import opened Text
  import opened DnsCache

  const TYPE_A: nat := 1
  const TYPE_AAAA: nat := 28

  datatype IpStrategy = DefaultStrategy | OnlyIpv4 | OnlyIpv6 | PreferIpv4 | PreferIpv6

  /** A ruleset, as the names it matches, and the group it routes to. */
  datatype Rule = Rule(matches: string -> bool, upstream: string)

  /** For each server of a group, whether it is a fixed `rcode://` answer. */
  datatype Group = Group(rcodeServers: seq<bool>)

  datatype HostAddr = HostV4 | HostV6

  datatype RouterConfig = RouterConfig(
    hosts: map<string, HostAddr>, rules: seq<Rule>, groups: map<string, Group>, strategy: IpStrategy)

  datatype Meta = Meta(upstream: string, originalUpstream: string, rule: Option<string>, cached: bool, blocked: bool)

  datatype RouterError = UpstreamFailed | NoDefaultUpstream

  // ---------------------------------------------------------------- attribution

  function NormalizeDomain(name: string): string
  {
    Lower(TrimEnd(name, '.'))
  }

  predicate IsRcode(g: Group)
  {
    forall b | b in g.rcodeServers :: b
  }

  /** The group of the first rule that matches and whose group exists. */
  function FirstMatch(rules: seq<Rule>, groups: map<string, Group>, domain: string): (u: Option<string>)
    ensures u.Some? ==> u.value in groups
  {
    if rules == [] then None
    else if rules[0].matches(domain) && rules[0].upstream in groups then Some(rules[0].upstream)
    else FirstMatch(rules[1..], groups, domain)
  }

  datatype Attribution = Attribution(originalUpstream: string, blocked: bool)

  const RCODE_PREFIX := "rcode:"

  /** What the walk over the rules says about a name, with no cache in between. */
  function Attribute(c: RouterConfig, name: string): Attribution
  {
    match FirstMatch(c.rules, c.groups, NormalizeDomain(name))
    case Some(u) => if IsRcode(c.groups[u]) then Attribution(RCODE_PREFIX + u, true) else Attribution(u, false)
    case None => Attribution("default", false)
  }

  /** `HostsTable::lookup`: the table knows the name and has an address of the asked family. */
  predicate HostsAnswer(c: RouterConfig, name: string, qtype: nat)
  {
    var key := Lower(TrimEnd(name, '.'));
    key in c.hosts && ((c.hosts[key].HostV4? && qtype == TYPE_A) || (c.hosts[key].HostV6? && qtype == TYPE_AAAA))
  }

  predicate Suppressed(c: RouterConfig, qtype: nat)
  {
    (c.strategy.OnlyIpv4? && qtype == TYPE_AAAA) || (c.strategy.OnlyIpv6? && qtype == TYPE_A)
  }

  // ---------------------------------------------------------------- what a question alone determines

  /** `domain` is the name without its closing dots and with its letters A to Z in lower case. */
  ghost predicate NormalName(name: string, domain: string)
  {
    && |domain| <= |name| && (forall i | |domain| <= i < |name| :: name[i] == '.')
    && (domain != "" ==> name[|domain| - 1] != '.')
    && forall i | 0 <= i < |domain| ::
         var x := name[i] as int; domain[i] as int == if 65 <= x <= 90 then x + 32 else x
  }

  /** Rule `i` takes the name: it matches and its group exists. */
  predicate Takes(c: RouterConfig, domain: string, i: nat)
  {
    i < |c.rules| && c.rules[i].matches(domain) && c.rules[i].upstream in c.groups
  }

  /** The name is taken by rule `i`, by no rule before it, and goes to that rule's group. */
  ghost predicate RuleSays(c: RouterConfig, domain: string, i: nat, group: string, original: string, blocked: bool)
  {
    && Takes(c, domain, i) && (forall j: nat | j < i :: !Takes(c, domain, j))
    && group == c.rules[i].upstream
    && (blocked <==> forall b | b in c.groups[group].rcodeServers :: b)
    && original == if blocked then "rcode:" + group else group
  }

  /** The name is taken by no rule and goes to the default group. */
  ghost predicate DefaultSays(c: RouterConfig, domain: string, group: string, original: string, blocked: bool)
  {
    group == "default" && original == "default" && !blocked && forall i: nat :: !Takes(c, domain, i)
  }

  /** The group that is asked for a name, the rule that chose it, and what is recorded about it. */
  ghost predicate WalkSays(c: RouterConfig, name: string, group: string, rule: Option<string>,
                           original: string, blocked: bool)
  {
    exists domain | NormalName(name, domain) ::
      || (rule == Some(group) && exists i: nat :: RuleSays(c, domain, i, group, original, blocked))
      || (rule == None && DefaultSays(c, domain, group, original, blocked))
  }

  /** The hosts table has the name with an address of the asked family: type 1 is A, 28 is AAAA. */
  ghost predicate IsStaticHost(c: RouterConfig, name: string, qtype: nat)
  {
    exists key | NormalName(name, key) ::
      key in c.hosts && ((c.hosts[key].HostV4? && qtype == 1) || (c.hosts[key].HostV6? && qtype == 28))
  }

  /** The strategy refuses the asked family. */
  ghost predicate IsRefused(c: RouterConfig, qtype: nat)
  {
    (c.strategy.OnlyIpv4? && qtype == 28) || (c.strategy.OnlyIpv6? && qtype == 1)
  }

  /** What the router may store: attributed as the walk says, and never for a static host. */
  ghost predicate StoredRightly(c: RouterConfig, op: Op)
    requires op.Insert?
  {
    && (exists group, rule, blocked :: WalkSays(c, op.name, group, rule, op.upstream, blocked))
    && !IsStaticHost(c, op.name, op.qtype)
  }

  ghost predicate Clean(c: RouterConfig, h: seq<Op>)
  {
    forall op | op in h && op.Insert? :: StoredRightly(c, op)
  }

  lemma NormalNameIff(name: string, domain: string)
    ensures NormalName(name, domain) <==> domain == NormalizeDomain(name)
  {
    var trimmed := TrimEnd(name, '.');
    TrimEndCuts(name, '.');
    if NormalName(name, domain) {
      TrimEndIs(name, '.', name[..|domain|]);
    }
    hide Lower, TrimEnd;
    forall i | 0 <= i < |trimmed|
      ensures var x := name[i] as int; Lower(trimmed)[i] as int == if 65 <= x <= 90 then x + 32 else x
    {
      LowerLetters(trimmed, i);
    }
  }

  /** The walk takes the first rule that matches and whose group exists. */
  lemma {:induction false} FirstMatchIff(rules: seq<Rule>, groups: map<string, Group>, domain: string, u: string)
    ensures FirstMatch(rules, groups, domain) == Some(u) <==>
            exists i | 0 <= i < |rules| ::
              && rules[i].matches(domain) && rules[i].upstream in groups && u == rules[i].upstream
              && forall j | 0 <= j < i :: !(rules[j].matches(domain) && rules[j].upstream in groups)
  {
    if rules != [] {
      var rest := rules[1..];
      FirstMatchIff(rest, groups, domain, u);
      if !(rules[0].matches(domain) && rules[0].upstream in groups) {
        assert forall j | 0 <= j < |rest| :: rest[j] == rules[j + 1];
        if FirstMatch(rest, groups, domain) == Some(u) {
          var i :| 0 <= i < |rest| && rest[i].matches(domain) && rest[i].upstream in groups && u == rest[i].upstream
                   && forall j | 0 <= j < i :: !(rest[j].matches(domain) && rest[j].upstream in groups);
          assert rules[i + 1] == rest[i];
          assert forall j | 0 < j < i + 1 :: rules[j] == rest[j - 1];
        }
        if exists i | 0 <= i < |rules| ::
             && rules[i].matches(domain) && rules[i].upstream in groups && u == rules[i].upstream
             && forall j | 0 <= j < i :: !(rules[j].matches(domain) && rules[j].upstream in groups) {
          var i :| 0 <= i < |rules| && rules[i].matches(domain) && rules[i].upstream in groups
                   && u == rules[i].upstream
                   && forall j | 0 <= j < i :: !(rules[j].matches(domain) && rules[j].upstream in groups);
          assert rules[i] == rest[i - 1];
        }
      }
    }
  }

  /** The group that the walk over the rules leads to. */
  function ChosenGroup(c: RouterConfig, name: string): string
  {
    var u := FirstMatch(c.rules, c.groups, NormalizeDomain(name));
    if u.Some? then u.value else "default"
  }

  /** A first match is the rule that takes the name. */
  lemma TakenIff(c: RouterConfig, domain: string, group: string, original: string, blocked: bool)
    ensures (exists i: nat :: RuleSays(c, domain, i, group, original, blocked)) <==>
              && FirstMatch(c.rules, c.groups, domain) == Some(group) && blocked == IsRcode(c.groups[group])
              && original == if blocked then RCODE_PREFIX + group else group
    ensures DefaultSays(c, domain, group, original, blocked) <==>
              FirstMatch(c.rules, c.groups, domain).None? && group == "default" && original == "default" && !blocked
  {
    var u := FirstMatch(c.rules, c.groups, domain);
    FirstMatchIff(c.rules, c.groups, domain, group);
    if u.Some? {
      FirstMatchIff(c.rules, c.groups, domain, u.value);
      var i :| 0 <= i < |c.rules| && c.rules[i].matches(domain) && c.rules[i].upstream in c.groups
               && u.value == c.rules[i].upstream
               && forall j | 0 <= j < i :: !(c.rules[j].matches(domain) && c.rules[j].upstream in c.groups);
      assert Takes(c, domain, i);
      if group == u.value && blocked == IsRcode(c.groups[group])
         && original == (if blocked then RCODE_PREFIX + group else group) {
        assert RuleSays(c, domain, i, group, original, blocked);
      }
    } else {
      forall i: nat ensures !Takes(c, domain, i) {
        if Takes(c, domain, i) {
          SomeoneTakes(c, domain, i);
        }
      }
    }
    if exists i: nat :: RuleSays(c, domain, i, group, original, blocked) {
      var i: nat :| RuleSays(c, domain, i, group, original, blocked);
      FirstTakes(c, domain, i);
    }
    hide FirstMatch;
  }

  lemma FirstTakes(c: RouterConfig, domain: string, i: nat)
    requires Takes(c, domain, i) && forall j: nat | j < i :: !Takes(c, domain, j)
    ensures FirstMatch(c.rules, c.groups, domain) == Some(c.rules[i].upstream)
  {
    FirstMatchIff(c.rules, c.groups, domain, c.rules[i].upstream);
    hide FirstMatch;
    forall j | 0 <= j < i
      ensures !(c.rules[j].matches(domain) && c.rules[j].upstream in c.groups)
    {
      assert !Takes(c, domain, j);
    }
  }

  lemma SomeoneTakes(c: RouterConfig, domain: string, i: nat)
    requires Takes(c, domain, i)
    ensures FirstMatch(c.rules, c.groups, domain).Some?
    decreases i
  {
    if j: nat :| j < i && Takes(c, domain, j) {
      SomeoneTakes(c, domain, j);
    } else {
      FirstTakes(c, domain, i);
    }
  }

  /** The walk of the code is the walk that the rules describe. */
  lemma WalkIff(c: RouterConfig, name: string, group: string, rule: Option<string>, original: string, blocked: bool)
    ensures WalkSays(c, name, group, rule, original, blocked) <==>
              && rule == FirstMatch(c.rules, c.groups, NormalizeDomain(name)) && group == ChosenGroup(c, name)
              && Attribution(original, blocked) == Attribute(c, name)
  {
    hide NormalName, NormalizeDomain, FirstMatch, RuleSays, DefaultSays;
    var domain := NormalizeDomain(name);
    forall d ensures NormalName(name, d) <==> d == domain {
      NormalNameIff(name, d);
    }
    TakenIff(c, domain, group, original, blocked);
    hide IsRcode;
  }

  lemma StaticHostIff(c: RouterConfig, name: string, qtype: nat)
    ensures IsStaticHost(c, name, qtype) <==> HostsAnswer(c, name, qtype)
    ensures IsRefused(c, qtype) <==> Suppressed(c, qtype)
  {
    hide NormalName;
    forall d ensures NormalName(name, d) <==> d == NormalizeDomain(name) {
      NormalNameIff(name, d);
    }
    hide Lower, TrimEnd;
  }

  lemma StoredRightlyIff(c: RouterConfig, op: Op)
    requires op.Insert?
    ensures StoredRightly(c, op) <==>
              op.upstream == Attribute(c, op.name).originalUpstream && !HostsAnswer(c, op.name, op.qtype)
  {
    hide WalkSays, IsStaticHost, HostsAnswer, NormalizeDomain, FirstMatch, Attribute;
    var a := Attribute(c, op.name);
    var rule := FirstMatch(c.rules, c.groups, NormalizeDomain(op.name));
    StaticHostIff(c, op.name, op.qtype);
    WalkIff(c, op.name, ChosenGroup(c, op.name), rule, a.originalUpstream, a.blocked);
    if StoredRightly(c, op) {
      var group, r, blocked :| WalkSays(c, op.name, group, r, op.upstream, blocked);
      WalkIff(c, op.name, group, r, op.upstream, blocked);
    }
  }

  // ---------------------------------------------------------------- names up to case

  lemma {:induction false} TrimLower(s: string)
    ensures Lower(TrimEnd(s, '.')) == TrimEnd(Lower(s), '.')
  {
    if s != "" {
      var front, last := s[..|s| - 1], s[|s| - 1];
      assert s == front + [last];
      LowerConcat(front, [last]);
      assert Lower([last]) == [Lower([last])[0]];
      var low := Lower(s);
      assert low[..|low| - 1] == Lower(front) && low[|low| - 1] == Lower([last])[0];
      TrimLower(front);
    }
  }

  /** Attribution and static hosts see a name only up to case. */
  lemma SameNameSameAnswer(c: RouterConfig, a: string, b: string, qtype: nat)
    requires Lower(a) == Lower(b)
    ensures Attribute(c, a) == Attribute(c, b) && HostsAnswer(c, a, qtype) == HostsAnswer(c, b, qtype)
  {
    TrimLower(a);
    TrimLower(b);
  }

  // ---------------------------------------------------------------- hits over any run

  /** Over clean operations a hit carries the upstream that the walk attributes to the name, which is no static host. */
  lemma CleanHit(c: RouterConfig, k: Config, h: seq<Op>, name: string, qtype: nat, now: nat)
    requires 0 < k.capacity && Clean(c, h)
    requires Lookup(After(k, h), CacheKey(name, qtype), now).Some?
    ensures Lookup(After(k, h), CacheKey(name, qtype), now).value.1 == Attribute(c, name).originalUpstream
    ensures !HostsAnswer(c, name, qtype)
  {
    var key := CacheKey(name, qtype);
    var e := Find(After(k, h), key).value;
    DnsCache.RunKeepsInv(k, h);
    FindMember(Ranks(k, h), After(k, h), Slot(key, e));
    LatestFacts(k, h, key);
    var i :| 0 <= i < |h| && h[i].Insert? && h[i].Key() == key && e == NewEntry(k, h[i]);
    assert h[i] in h;
    StoredRightlyIff(c, h[i]);
    CacheKeyInjective(name, qtype, h[i].name, h[i].qtype);
    SameNameSameAnswer(c, name, h[i].name, qtype);
  }

  /** The name goes to a real group whose own name looks like a block marker. */
  predicate Misleading(c: RouterConfig, name: string)
  {
    var u := FirstMatch(c.rules, c.groups, NormalizeDomain(name));
    u.Some? && RCODE_PREFIX <= u.value && !IsRcode(c.groups[u.value])
  }

  /** `starts_with("rcode:")` recovers the blocked flag exactly when no group name misleads it. */
  lemma BlockedFromPrefixIff(c: RouterConfig, name: string)
    ensures (RCODE_PREFIX <= Attribute(c, name).originalUpstream) == Attribute(c, name).blocked
          <==> !Misleading(c, name)
  {
    var u := FirstMatch(c.rules, c.groups, NormalizeDomain(name));
    assert RCODE_PREFIX[0] == 'r' && "default"[0] == 'd';
    if u.Some? {
      assert RCODE_PREFIX <= RCODE_PREFIX + u.value;
    }
  }

  // ---------------------------------------------------------------- one query

  /** `merge_responses`. */
  method MergeResponses(requestId: nat, primary: Message, secondary: Option<Message>, primaryFirst: bool)
    returns (r: Message)
    ensures r.id == requestId && r.rcode == primary.rcode && r.additionals == primary.additionals
    ensures r.answers == if secondary.None? then primary.answers
                         else if primaryFirst then primary.answers + secondary.value.answers
                         else secondary.value.answers + primary.answers
  {
    r := primary.(id := requestId);
    if secondary.Some? {
      var extra := secondary.value.answers;
      if primaryFirst {
        for i := 0 to |extra|
          invariant r == primary.(id := requestId, answers := primary.answers + extra[..i])
        {
          r := r.(answers := r.answers + [extra[i]]);
        }
        assert extra[..|extra|] == extra;
      } else {
        var original := r.answers;
        r := r.(answers := []);
        for i := 0 to |extra|
          invariant r == primary.(id := requestId, answers := extra[..i])
        {
          r := r.(answers := r.answers + [extra[i]]);
        }
        assert extra[..|extra|] == extra;
        for i := 0 to |original|
          invariant r == primary.(id := requestId, answers := extra + original[..i])
        {
          r := r.(answers := r.answers + [original[i]]);
        }
        assert original[..|original|] == original;
      }
    }
  }

  predicate Prefers(s: IpStrategy, qtype: nat)
  {
    (s.PreferIpv4? || s.PreferIpv6?) && (qtype == TYPE_A || qtype == TYPE_AAAA)
  }

  /** The answers for the other family, if that query was answered. */
  function Extra(other: Option<Message>): (extra: seq<Record>)
    ensures other.None? ==> extra == []
    ensures other.Some? ==> extra == other.value.answers
  {
    if other.Some? then other.value.answers else []
  }

  function PreferredType(s: IpStrategy): nat
  {
    if s.PreferIpv4? then TYPE_A else TYPE_AAAA
  }

  /**
    What a client gets when its question and the one for the other family were answered like
    this: under a preference, the answers of the preferred family first, whichever was asked for.
    */
  function Combined(s: IpStrategy, requestId: nat, qtype: nat, asked: Option<Message>, other: Option<Message>)
    : (r: Option<Message>)
    ensures r.None? <==> asked.None?
    ensures asked.Some? && ((s.PreferIpv4? && qtype == 1) || (s.PreferIpv6? && qtype == 28)) ==>
              r.value == asked.value.(id := requestId, answers := asked.value.answers + Extra(other))
    ensures asked.Some? && ((s.PreferIpv4? && qtype == 28) || (s.PreferIpv6? && qtype == 1)) ==>
              r.value == asked.value.(id := requestId, answers := Extra(other) + asked.value.answers)
    ensures (!s.PreferIpv4? && !s.PreferIpv6?) || (qtype != 1 && qtype != 28) ==> r == asked
  {
    if asked.None? || !Prefers(s, qtype) then asked
    else
      var extra := Extra(other);
      var answers := if qtype == PreferredType(s) then asked.value.answers + extra else extra + asked.value.answers;
      Some(asked.value.(id := requestId, answers := answers))
  }

  /** `query_with_strategy`; the query fails exactly when the request itself does. */
  method QueryWithStrategy(s: IpStrategy, requestId: nat, qtype: nat, asked: Option<Message>, other: Option<Message>)
    returns (r: Option<Message>)
    ensures r == Combined(s, requestId, qtype, asked, other)
  {
    if asked.None? {
      return None;
    }
    assert [] + asked.value.answers == asked.value.answers + [] == asked.value.answers;
    match s {
      case PreferIpv4 =>
        if qtype == TYPE_A || qtype == TYPE_AAAA {
          var merged := MergeResponses(requestId, asked.value, other, qtype == TYPE_A);
          return Some(merged);
        }
      case PreferIpv6 =>
        if qtype == TYPE_A || qtype == TYPE_AAAA {
          var merged := MergeResponses(requestId, asked.value, other, qtype == TYPE_AAAA);
          return Some(merged);
        }
      case _ =>
    }
    return asked;
  }

  /** Where a call stands when it first gives way to others: answered, or waiting for the group it asked. */
  datatype Progress =
    | Done(result: Result<(Message, Meta), RouterError>)
    | Asking(upstream: string, attribution: Attribution, rule: Option<string>)

  /** The question as the listener hands it over, with the messages and tables that other code builds. */
  datatype Question = Question(
    name: string, qtype: nat, requestId: nat, empty: Message, static_: Message, dynamic: Option<Message>)

  /** `resolve_with_meta` up to the first await, given what the cache has. */
  function Begun(c: RouterConfig, q: Question, hit: Option<(Message, string)>): Progress
  {
    if Suppressed(c, q.qtype) then Done(Ok((q.empty, Meta("strategy", "strategy", None, false, false))))
    else if hit.Some? then
      Done(Ok((hit.value.0.(id := q.requestId),
               Meta("cache", hit.value.1, None, true, RCODE_PREFIX <= hit.value.1))))
    else if HostsAnswer(c, q.name, q.qtype) then Done(Ok((q.static_, Meta("hosts", "hosts", None, false, false))))
    else if q.dynamic.Some? then
      Done(Ok((q.dynamic.value, Meta("dynamic-hosts", "dynamic-hosts", None, false, false))))
    else
      var u := FirstMatch(c.rules, c.groups, NormalizeDomain(q.name));
      if u.Some? then Asking(u.value, Attribute(c, q.name), u)
      else if "default" in c.groups then Asking("default", Attribute(c, q.name), None)
      else Done(Err(NoDefaultUpstream))
  }

  /** The answer to a call that asked a group. */
  function Finished(p: Progress, reply: Option<Message>): Result<(Message, Meta), RouterError>
    requires p.Asking?
  {
    if reply.None? then Err(UpstreamFailed)
    else Ok((reply.value, Meta(p.upstream, p.attribution.originalUpstream, p.rule, false, p.attribution.blocked)))
  }

  /** What every call that waits for a group satisfies. */
  ghost predicate AsksRightly(c: RouterConfig, q: Question, p: Progress)
  {
    && p.Asking? && WalkSays(c, q.name, p.upstream, p.rule, p.attribution.originalUpstream, p.attribution.blocked)
    && !IsRefused(c, q.qtype) && !IsStaticHost(c, q.name, q.qtype) && q.dynamic.None?
  }

  /** A hit names the upstream of the walk, and is blocked as the walk says unless the group's name misleads. */
  ghost predicate HitSays(c: RouterConfig, name: string, meta: Meta)
  {
    && meta.upstream == "cache" && meta.rule.None?
    && exists group, rule, blocked | WalkSays(c, name, group, rule, meta.originalUpstream, blocked) ::
         meta.blocked == blocked <==> blocked || !("rcode:" <= group)
  }

  /** What an answer is and says about its source, in terms of the question and the rules alone. */
  ghost predicate Attributed(c: RouterConfig, q: Question, m: Message, meta: Meta)
  {
    if IsRefused(c, q.qtype) then m == q.empty && meta == Meta("strategy", "strategy", None, false, false)
    else if meta.cached then m.id == q.requestId && HitSays(c, q.name, meta) && !IsStaticHost(c, q.name, q.qtype)
    else if IsStaticHost(c, q.name, q.qtype) then m == q.static_ && meta == Meta("hosts", "hosts", None, false, false)
    else if q.dynamic.Some? then
      m == q.dynamic.value && meta == Meta("dynamic-hosts", "dynamic-hosts", None, false, false)
    else WalkSays(c, q.name, meta.upstream, meta.rule, meta.originalUpstream, meta.blocked)
  }

  /** A hit with the upstream that was attributed to the name. */
  lemma HitSaysWalk(c: RouterConfig, name: string, meta: Meta)
    requires meta == Meta("cache", Attribute(c, name).originalUpstream, None, true,
                          RCODE_PREFIX <= Attribute(c, name).originalUpstream)
    ensures HitSays(c, name, meta)
  {
    hide NormalizeDomain, WalkSays, FirstMatch;
    var a := Attribute(c, name);
    var group, rule := ChosenGroup(c, name), FirstMatch(c.rules, c.groups, NormalizeDomain(name));
    WalkIff(c, name, group, rule, a.originalUpstream, a.blocked);
    BlockedFromPrefixIff(c, name);
    assert "default"[0] == 'd' && "rcode:"[0] == 'r';
    assert meta.blocked == a.blocked <==> a.blocked || !("rcode:" <= group);
  }

  lemma BegunIsRight(c: RouterConfig, q: Question, hit: Option<(Message, string)>)
    requires hit.Some? ==> hit.value.1 == Attribute(c, q.name).originalUpstream && !HostsAnswer(c, q.name, q.qtype)
    ensures var p := Begun(c, q, hit);
            && (p.Asking? ==> AsksRightly(c, q, p))
            && (p.Done? && p.result.Ok? ==> Attributed(c, q, p.result.value.0, p.result.value.1))
  {
    hide NormalizeDomain, WalkSays, HitSays, HostsAnswer, IsStaticHost, IsRefused, Suppressed;
    var p := Begun(c, q, hit);
    StaticHostIff(c, q.name, q.qtype);
    if p.Asking? {
      WalkIff(c, q.name, p.upstream, p.rule, p.attribution.originalUpstream, p.attribution.blocked);
    } else if p.result.Ok? && p.result.value.1.cached {
      HitSaysWalk(c, q.name, p.result.value.1);
    }
    hide Attribute, FirstMatch;
  }

  /** The answer of the group that was asked. */
  lemma FinishedRightly(c: RouterConfig, q: Question, p: Progress, reply: Option<Message>)
    requires AsksRightly(c, q, p)
    ensures Finished(p, reply).Ok? <==> reply.Some?
    ensures reply.Some? ==>
              && Finished(p, reply).value.0 == reply.value
              && Attributed(c, q, reply.value, Finished(p, reply).value.1)
  {
    hide WalkSays, IsStaticHost, IsRefused;
  }

  lemma AskedIsStored(c: RouterConfig, q: Question, p: Progress)
    requires AsksRightly(c, q, p)
    ensures forall now, m :: StoredRightly(c, Insert(q.name, q.qtype, now, m, p.attribution.originalUpstream))
  {
    hide WalkSays, IsStaticHost, IsRefused;
  }

  class QueryRouter {
    const config: RouterConfig
    const cache: Cache?

    ghost predicate Valid()
      reads this, cache
    {
      cache != null ==> cache.Valid() && Clean(config, cache.history)
    }

    constructor (config: RouterConfig, cache: Cache?)
      requires cache != null ==> cache.Valid() && cache.history == []
      ensures Valid() && this.config == config && this.cache == cache
    {
      this.config, this.cache := config, cache;
    }

    /** `resolve_with_meta` for a call that no other call interrupts. */
    method Resolve(q: Question, now: nat, later: nat, asked: Option<Message>, other: Option<Message>)
      returns (r: Result<(Message, Meta), RouterError>)
      requires Valid()
      modifies cache
      ensures Valid()
      ensures var p := Begun(config, q,
                             if cache != null then Lookup(old(cache.slots), CacheKey(q.name, q.qtype), now) else None);
              r == if p.Done? then p.result
                   else Finished(p, Combined(config.strategy, q.requestId, q.qtype, asked, other))
      ensures r.Ok? ==> Attributed(config, q, r.value.0, r.value.1)
    {
      var p := Begin(q, now);
      if p.Done? {
        return p.result;
      }
      var reply := QueryWithStrategy(config.strategy, q.requestId, q.qtype, asked, other);
      r := Finish(q, p, later, reply);
    }

    /** Everything before the group is asked; there is no await in it. */
    method Begin(q: Question, now: nat) returns (p: Progress)
      requires Valid()
      modifies cache
      ensures Valid()
      ensures p == Begun(config, q,
                         if cache != null then Lookup(old(cache.slots), CacheKey(q.name, q.qtype), now) else None)
      ensures p.Asking? ==> AsksRightly(config, q, p)
      ensures p.Done? && p.result.Ok? ==> Attributed(config, q, p.result.value.0, p.result.value.1)
      ensures cache != null ==>
                cache.history == old(cache.history)
                  + if Suppressed(config, q.qtype) then [] else [Get(q.name, q.qtype, now)]
    {
      hide WalkSays, HitSays, IsStaticHost, IsRefused, AsksRightly, Attributed, StoredRightly;
      if Suppressed(config, q.qtype) {
        BegunIsRight(config, q, None);
        return Done(Ok((q.empty, Meta("strategy", "strategy", None, false, false))));
      }
      if cache != null {
        ghost var h := cache.history;
        var hit := cache.Get(q.name, q.qtype, now);
        assert Clean(config, cache.history);
        if hit.Some? {
          CleanHit(config, cache.config, h, q.name, q.qtype, now);
          BegunIsRight(config, q, hit);
          var (resp, original) := hit.value;
          var blocked := RCODE_PREFIX <= original;
          return Done(Ok((resp.(id := q.requestId), Meta("cache", original, None, true, blocked))));
        }
      }
      BegunIsRight(config, q, None);
      if HostsAnswer(config, q.name, q.qtype) {
        return Done(Ok((q.static_, Meta("hosts", "hosts", None, false, false))));
      }
      if q.dynamic.Some? {
        return Done(Ok((q.dynamic.value, Meta("dynamic-hosts", "dynamic-hosts", None, false, false))));
      }
      p := ChooseGroup(q);
    }

    /** The walk over the rules, then the default group. */
    method ChooseGroup(q: Question) returns (p: Progress)
      requires !Suppressed(config, q.qtype) && !HostsAnswer(config, q.name, q.qtype) && q.dynamic.None?
      ensures p == Begun(config, q, None)
    {
      var domain := NormalizeDomain(q.name);
      hide NormalizeDomain;
      for i := 0 to |config.rules|
        invariant FirstMatch(config.rules, config.groups, domain)
              == FirstMatch(config.rules[i..], config.groups, domain)
      {
        var rule := config.rules[i];
        assert config.rules[i..][1..] == config.rules[i + 1..];
        if rule.matches(domain) && rule.upstream in config.groups {
          var isRcode := IsRcode(config.groups[rule.upstream]);
          var original := if isRcode then RCODE_PREFIX + rule.upstream else rule.upstream;
          return Asking(rule.upstream, Attribution(original, isRcode), Some(rule.upstream));
        }
      }
      if "default" !in config.groups {
        return Done(Err(NoDefaultUpstream));
      }
      return Asking("default", Attribution("default", false), None);
    }

    /** Everything after the group has answered: the response is stored under its attribution. */
    method Finish(q: Question, p: Progress, now: nat, reply: Option<Message>)
      returns (r: Result<(Message, Meta), RouterError>)
      requires Valid() && AsksRightly(config, q, p)
      modifies cache
      ensures Valid()
      ensures r == Finished(p, reply)
      ensures reply.Some? ==> r.Ok? && r.value.0 == reply.value && Attributed(config, q, r.value.0, r.value.1)
      ensures cache != null ==>
                cache.history == old(cache.history)
                  + if reply.None? then []
                    else [Insert(q.name, q.qtype, now, reply.value, p.attribution.originalUpstream)]
    {
      FinishedRightly(config, q, p, reply);
      AskedIsStored(config, q, p);
      hide WalkSays, HitSays, IsStaticHost, IsRefused, AsksRightly, Attributed, StoredRightly;
      if reply.None? {
        return Err(UpstreamFailed);
      }
      if cache != null {
        cache.Insert(q.name, q.qtype, now, reply.value, p.attribution.originalUpstream);
      }
      return Ok((reply.value, Meta(p.upstream, p.attribution.originalUpstream, p.rule, false, p.attribution.blocked)));
    }
  }

  // ---------------------------------------------------------------- interleaved calls

  /** A call that waits for its group. */
  datatype Call = Call(question: Question, progress: Progress)

  datatype Answered = Answered(question: Question, result: Result<(Message, Meta), RouterError>)

  /** The cache, as the operations it has seen; the calls in progress; the answers given. */
  datatype State = State(history: seq<Op>, calls: map<nat, Call>, answers: seq<Answered>)

  const START := State([], map[], [])

  datatype Step =
    | BeginCall(t: nat, question: Question, now: nat)
    | FinishCall(t: nat, now: nat, reply: Option<Message>)
    | Cancel(t: nat)

  predicate Enabled(s: State, step: Step)
  {
    match step
    case BeginCall(t, _, _) => t !in s.calls
    case FinishCall(t, _, _) => t in s.calls && s.calls[t].progress.Asking?
    case Cancel(t) => t in s.calls
  }

  /** What the cache, if there is one, has for a question at this time. */
  function HitAt(k: Option<Config>, h: seq<Op>, q: Question, now: nat): Option<(Message, string)>
    requires k.Some? ==> 0 < k.value.capacity
  {
    if k.None? then None else Lookup(After(k.value, h), CacheKey(q.name, q.qtype), now)
  }

  function Apply(c: RouterConfig, k: Option<Config>, s: State, step: Step): State
    requires Enabled(s, step) && (k.Some? ==> 0 < k.value.capacity)
  {
    match step
    case BeginCall(t, q, now) =>
      var p := Begun(c, q, HitAt(k, s.history, q, now));
      var h := if Suppressed(c, q.qtype) then s.history else s.history + [Get(q.name, q.qtype, now)];
      if p.Done? then s.(history := h, answers := s.answers + [Answered(q, p.result)])
      else s.(history := h, calls := s.calls[t := Call(q, p)])
    case FinishCall(t, now, reply) =>
      var Call(q, p) := s.calls[t];
      var h := if reply.None? then s.history
               else s.history + [Insert(q.name, q.qtype, now, reply.value, p.attribution.originalUpstream)];
      State(h, s.calls - {t}, s.answers + [Answered(q, Finished(p, reply))])
    case Cancel(t) => s.(calls := s.calls - {t})
  }

  function Run(c: RouterConfig, k: Option<Config>, steps: seq<Step>): Option<State>
    requires k.Some? ==> 0 < k.value.capacity
  {
    if steps == [] then Some(START)
    else
      match Run(c, k, steps[..|steps| - 1])
      case None => None
      case Some(s) =>
        var step := steps[|steps| - 1];
        if Enabled(s, step) then Some(Apply(c, k, s, step)) else None
  }

  ghost predicate Inv(c: RouterConfig, s: State)
  {
    && Clean(c, s.history)
    && (forall t | t in s.calls :: AsksRightly(c, s.calls[t].question, s.calls[t].progress))
    && (forall a | a in s.answers && a.result.Ok? :: Attributed(c, a.question, a.result.value.0, a.result.value.1))
  }

  lemma StepKeepsInv(c: RouterConfig, k: Option<Config>, s: State, step: Step)
    requires Enabled(s, step) && (k.Some? ==> 0 < k.value.capacity) && Inv(c, s)
    ensures Inv(c, Apply(c, k, s, step))
  {
    match step
    case BeginCall(t, q, now) =>
      BegunRightly(c, k, s.history, q, now);
    case FinishCall(t, now, reply) =>
      FinishedRightly(c, s.calls[t].question, s.calls[t].progress, reply);
      AskedIsStored(c, s.calls[t].question, s.calls[t].progress);
    case Cancel(t) =>
  }

  lemma BegunRightly(c: RouterConfig, k: Option<Config>, h: seq<Op>, q: Question, now: nat)
    requires (k.Some? ==> 0 < k.value.capacity) && Clean(c, h)
    ensures var p := Begun(c, q, HitAt(k, h, q, now));
            && (p.Asking? ==> AsksRightly(c, q, p))
            && (p.Done? && p.result.Ok? ==> Attributed(c, q, p.result.value.0, p.result.value.1))
  {
    if HitAt(k, h, q, now).Some? {
      CleanHit(c, k.value, h, q.name, q.qtype, now);
    }
    BegunIsRight(c, q, HitAt(k, h, q, now));
    hide Begun, AsksRightly, Attributed;
  }

  lemma {:induction false} RunKeepsInv(c: RouterConfig, k: Option<Config>, steps: seq<Step>, s: State)
    requires (k.Some? ==> 0 < k.value.capacity) && Run(c, k, steps) == Some(s)
    ensures Inv(c, s)
    decreases |steps|
  {
    if steps != [] {
      hide Inv, Apply;
      var n := |steps| - 1;
      RunKeepsInv(c, k, steps[..n], Run(c, k, steps[..n]).value);
      StepKeepsInv(c, k, Run(c, k, steps[..n]).value, steps[n]);
    }
  }

  /**
    Over every interleaving of calls, with or without a cache, every answer is attributed as the
    question and the rules alone say, and what is stored is attributed and never for a static host.
    */
  lemma AnswersAreAttributed(c: RouterConfig, k: Option<Config>, steps: seq<Step>, s: State, a: Answered)
    requires (k.Some? ==> 0 < k.value.capacity) && Run(c, k, steps) == Some(s) && a in s.answers && a.result.Ok?
    ensures Attributed(c, a.question, a.result.value.0, a.result.value.1)
    ensures Clean(c, s.history)
  {
    RunKeepsInv(c, k, steps, s);
  }

  // ---------------------------------------------------------------- cached answers are earlier answers

  /** The operation stored what this answer handed out. */
  ghost predicate Stores(op: Op, a: Answered)
  {
    && op.Insert? && a.result.Ok? && op.name == a.question.name && op.qtype == a.question.qtype
    && a.result.value.0 == op.message && a.result.value.1.originalUpstream == op.upstream
    && !a.result.value.1.cached
  }

  /** The answer serves what the operation stored, under the id of its own question. */
  ghost predicate ServedFrom(op: Op, a: Answered)
  {
    && op.Insert? && a.result.Ok? && IsFor(op, a.question.name, a.question.qtype)
    && exists left: nat ::
         Serves(op, a.result.value.0.(id := op.message.id), a.result.value.1.originalUpstream, left)
  }

  ghost predicate Accounted(s: State)
  {
    && (forall op | op in s.history && op.Insert? :: exists a | a in s.answers :: Stores(op, a))
    && (forall a | a in s.answers && a.result.Ok? && a.result.value.1.cached ::
          exists op | op in s.history :: ServedFrom(op, a))
  }

  lemma BegunFromCache(c: RouterConfig, k: Option<Config>, h: seq<Op>, q: Question, now: nat)
    requires k.Some? ==> 0 < k.value.capacity
    ensures var p := Begun(c, q, HitAt(k, h, q, now));
            p.Done? && p.result.Ok? && p.result.value.1.cached ==>
              exists op | op in h :: ServedFrom(op, Answered(q, p.result))
  {
    hide HostsAnswer, Suppressed, Attribute, FirstMatch, NormalizeDomain, Lookup;
    var p := Begun(c, q, HitAt(k, h, q, now));
    if p.Done? && p.result.Ok? && p.result.value.1.cached {
      HitServesInsert(k.value, h, q.name, q.qtype, now);
      var (m, upstream) := HitAt(k, h, q, now).value;
      var op, left: nat :| op in h && Serves(op, m, upstream, left) && IsFor(op, q.name, q.qtype);
      assert p.result.value.0.(id := op.message.id) == m;
      assert ServedFrom(op, Answered(q, p.result));
    }
  }

  lemma FinishedIsStored(q: Question, p: Progress, now: nat, m: Message)
    requires p.Asking?
    ensures Stores(Insert(q.name, q.qtype, now, m, p.attribution.originalUpstream), Answered(q, Finished(p, Some(m))))
  {
  }

  lemma StepAccounts(c: RouterConfig, k: Option<Config>, s: State, step: Step)
    requires Enabled(s, step) && (k.Some? ==> 0 < k.value.capacity) && Accounted(s)
    ensures Accounted(Apply(c, k, s, step))
  {
    var next := Apply(c, k, s, step);
    assert forall op | op in s.history :: op in next.history;
    assert forall a | a in s.answers :: a in next.answers;
    hide Stores, ServedFrom;
    match step
    case BeginCall(t, q, now) =>
      BegunFromCache(c, k, s.history, q, now);
      hide Begun, HitAt;
    case FinishCall(t, now, reply) =>
      var Call(q, p) := s.calls[t];
      var a := Answered(q, Finished(p, reply));
      if reply.Some? {
        FinishedIsStored(q, p, now, reply.value);
        assert a in next.answers;
      }
      assert a.result.Ok? ==> !a.result.value.1.cached;
    case Cancel(t) =>
  }

  lemma {:induction false} RunAccounts(c: RouterConfig, k: Option<Config>, steps: seq<Step>, s: State)
    requires (k.Some? ==> 0 < k.value.capacity) && Run(c, k, steps) == Some(s)
    ensures Accounted(s)
    decreases |steps|
  {
    if steps != [] {
      hide Accounted, Apply;
      var n := |steps| - 1;
      RunAccounts(c, k, steps[..n], Run(c, k, steps[..n]).value);
      StepAccounts(c, k, Run(c, k, steps[..n]).value, steps[n]);
    } else {
      assert s == START;
    }
  }

  /** The two answers hold the same records but for the TTLs, which are all equal in the second. */
  ghost predicate SameRecords(first: seq<Record>, second: seq<Record>, left: nat)
  {
    |first| == |second| && forall i | 0 <= i < |second| :: second[i] == Record(first[i].data, left)
  }

  /**
    Over every interleaving, a cached answer repeats an answer that did not come from the cache, to a
    question for the same name, up to case, and the same type: code, source and records, but for the TTLs.
    */
  lemma CachedAnswersRepeat(c: RouterConfig, k: Option<Config>, steps: seq<Step>, s: State, a: Answered)
    requires (k.Some? ==> 0 < k.value.capacity) && Run(c, k, steps) == Some(s)
    requires a in s.answers && a.result.Ok? && a.result.value.1.cached
    ensures exists first | first in s.answers && first.result.Ok? && !first.result.value.1.cached ::
              && Lower(first.question.name) == Lower(a.question.name) && first.question.qtype == a.question.qtype
              && first.result.value.1.originalUpstream == a.result.value.1.originalUpstream
              && var (m, n) := (first.result.value.0, a.result.value.0);
                 m.rcode == n.rcode
                 && exists left: nat ::
                      SameRecords(m.answers, n.answers, left) && SameRecords(m.additionals, n.additionals, left)
  {
    RunAccounts(c, k, steps, s);
    hide Run;
    var op :| op in s.history && ServedFrom(op, a);
    var first :| first in s.answers && Stores(op, first);
    var m, n := first.result.value.0, a.result.value.0;
    var left: nat :| Serves(op, n.(id := op.message.id), a.result.value.1.originalUpstream, left);
    assert SameRecords(m.answers, n.answers, left) && SameRecords(m.additionals, n.additionals, left);
  }

  // ---------------------------------------------------------------- a misleading group

  /** A real group called `rcode:ads`: its answers are not blocked, its cache hits say they are. */
  lemma MisleadingGroup(name: string)
    ensures var c := RouterConfig(map[], [Rule(_ => true, "rcode:ads")],
                                  map["rcode:ads" := Group([false])], DefaultStrategy);
            && Misleading(c, name) && !Attribute(c, name).blocked
            && RCODE_PREFIX <= Attribute(c, name).originalUpstream
  {
    var c := RouterConfig(map[], [Rule(_ => true, "rcode:ads")], map["rcode:ads" := Group([false])], DefaultStrategy);
    assert FirstMatch(c.rules, c.groups, NormalizeDomain(name)) == Some("rcode:ads");
    assert "rcode:ads"[..6] == RCODE_PREFIX;
    assert false in c.groups["rcode:ads"].rcodeServers;
  }
}
