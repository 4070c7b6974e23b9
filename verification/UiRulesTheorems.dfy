/** Reading the configuration into the rule page keeps first-match routing (UpstreamsTab.jsx). */
module UiRulesTheorems {
  import opened Wrappers
  import opened Text
  import opened UiRules

  type Routes = seq<(string, Option<View>)>

  // ---------------------------------------------------------------- first match

  lemma {:induction false} FirstAppend(a: Routes, b: Routes, m: set<string>)
    ensures First(a + b, m) == if First(a, m).Some? then First(a, m) else First(b, m)
  {
    if a == [] {
      assert a + b == b;
    } else {
      assert (a + b)[1..] == a[1..] + b;
      FirstAppend(a[1..], b, m);
    }
  }

  lemma {:induction false} FirstIffListed(list: Routes, m: set<string>)
    ensures First(list, m).Some? <==> exists k | 0 <= k < |list| :: list[k].0 in m
  {
    if list != [] {
      FirstIffListed(list[1..], m);
      if list[0].0 !in m && First(list[1..], m).Some? {
        var k :| 0 <= k < |list[1..]| && list[1..][k].0 in m;
        assert list[k + 1].0 in m;
      }
      if k :| 1 <= k < |list| && list[k].0 in m {
        assert list[1..][k - 1].0 in m;
      }
    }
  }

  /** Do two rule lists route every query alike? */
  ghost predicate SameRoutes(a: Routes, b: Routes)
  {
    forall m: set<string> :: First(a, m) == First(b, m)
  }

  lemma SameRoutesAppend(a: Routes, b: Routes, c: Routes)
    requires SameRoutes(a, b)
    ensures SameRoutes(a + c, b + c)
  {
    forall m: set<string>
      ensures First(a + c, m) == First(b + c, m)
    {
      FirstAppend(a, c, m);
      FirstAppend(b, c, m);
    }
  }

  /** A second entry for a path never matches first. */
  lemma SecondEntryIdle(a: Routes, path: string, v: Option<View>)
    requires exists k | 0 <= k < |a| :: a[k].0 == path
    ensures SameRoutes(a, a + [(path, v)])
  {
    forall m: set<string>
      ensures First(a, m) == First(a + [(path, v)], m)
    {
      FirstAppend(a, [(path, v)], m);
      FirstIffListed(a, m);
    }
  }

  // ---------------------------------------------------------------- rules as routes

  predicate NamesListed(names: seq<string>, catalog: map<string, string>)
  {
    forall n | n in names :: n != "" && n in catalog
  }

  predicate RulesListed(rules: seq<UiRule>, catalog: map<string, string>)
  {
    forall r | r in rules :: NamesListed(r.rulesets, catalog)
  }

  ghost function Ticked(names: seq<string>, catalog: map<string, string>, v: Option<View>): (list: Routes)
    requires NamesListed(names, catalog)
    ensures |list| == |names|
    ensures forall k | 0 <= k < |names| :: list[k] == (catalog[names[k]], v)
  {
    seq(|names|, k requires 0 <= k < |names| => (catalog[names[k]], v))
  }

  /** The routes a rule list stands for. */
  ghost function RoutesOf(rules: seq<UiRule>, catalog: map<string, string>): Routes
    requires RulesListed(rules, catalog)
  {
    if rules == [] then []
    else
      var last := |rules| - 1;
      RoutesOf(rules[..last], catalog) + Ticked(rules[last].rulesets, catalog, Some(ViewOf(GroupFor(rules[last]))))
  }

  lemma {:induction false} RoutesOfLarger(rules: seq<UiRule>, catalog: map<string, string>, larger: map<string, string>)
    requires RulesListed(rules, catalog)
    requires forall n | n in catalog :: n in larger && larger[n] == catalog[n]
    ensures RulesListed(rules, larger) && RoutesOf(rules, larger) == RoutesOf(rules, catalog)
  {
    if rules != [] {
      var last := |rules| - 1;
      RoutesOfLarger(rules[..last], catalog, larger);
      assert NamesListed(rules[last].rulesets, catalog);
    }
  }

  /** Ticking one more ruleset in the last rule. */
  lemma TickAppends(front: seq<UiRule>, last: UiRule, name: string, catalog: map<string, string>)
    requires RulesListed(front + [last], catalog) && name != "" && name in catalog
    ensures var more := last.(rulesets := last.rulesets + [name]);
            && RulesListed(front + [more], catalog)
            && RoutesOf(front + [more], catalog)
                 == RoutesOf(front + [last], catalog) + [(catalog[name], Some(ViewOf(GroupFor(last))))]
  {
    var more := last.(rulesets := last.rulesets + [name]);
    assert last in front + [last];
    assert forall n | n in more.rulesets :: n in last.rulesets || n == name;
    assert forall r | r in front + [more] :: r in front || r == more;
    assert forall r | r in front :: r in front + [last];
    assert GroupFor(more) == GroupFor(last);
    var v := ViewOf(GroupFor(last));
    hide ViewOf, GroupFor;
    assert (front + [more])[..|front|] == front && (front + [last])[..|front|] == front;
    assert Ticked(more.rulesets, catalog, Some(v))
        == Ticked(last.rulesets, catalog, Some(v)) + [(catalog[name], Some(v))];
  }

  // ---------------------------------------------------------------- naming

  /** Names and paths are one to one, and only a path without a file name has an empty name. */
  ghost predicate OneToOne(n: Naming)
  {
    && Inverse(n)
    && (forall p | p in n.names && n.names[p] == "" :: BasenameNoExt(p) == "")
    && (forall p | p in n.names && BasenameNoExt(p) == "" :: "" in n.catalog)
  }

  ghost predicate Inverse(n: Naming)
  {
    && (forall p | p in n.names :: p != "" && n.names[p] in n.catalog && n.catalog[n.names[p]] == p)
    && (forall x | x in n.catalog :: n.catalog[x] in n.names && n.names[n.catalog[x]] == x)
  }

  ghost predicate Extends(n: Naming, n': Naming)
  {
    && (forall p | p in n.names :: p in n'.names && n'.names[p] == n.names[p])
    && (forall x | x in n.catalog :: x in n'.catalog && n'.catalog[x] == n.catalog[x])
  }

  /** Each path gets a name of its own, which it keeps; the first path without a file name gets "". */
  lemma NamingKept(n: Naming, path: string)
    requires OneToOne(n)
    ensures var n' := NamePath(n, path);
            && OneToOne(n') && Extends(n, n')
            && (path != "" ==> path in n'.names)
            && (path != "" && BasenameNoExt(path) == "" ==> "" in n'.catalog)
            && (n'.Of(path) == "" ==> BasenameNoExt(path) == "")
  {
    if n.Of(path) == "" && path != "" {
      NewNameFresh(n.catalog, path);
      hide NewName, BasenameNoExt;
      NewNameKept(n, path, NewName(n.catalog, path));
    }
  }

  lemma NewNameKept(n: Naming, path: string, name: string)
    requires Inverse(n) && path != ""
    requires (path in n.names ==> n.names[path] == name) && (name in n.catalog ==> n.catalog[name] == path)
    ensures var n' := Naming(n.catalog[name := path], n.names[path := name]);
            Inverse(n') && Extends(n, n')
  {
  }

  lemma NewNameFresh(catalog: map<string, string>, path: string)
    ensures var name := NewName(catalog, path);
            && (name in catalog ==> name == BasenameNoExt(path) && catalog[name] == path)
            && (name == "" ==> BasenameNoExt(path) == "")
            && (BasenameNoExt(path) in catalog && catalog[BasenameNoExt(path)] == path ==> name == BasenameNoExt(path))
            && (name != "" && BasenameNoExt(path) == "" ==> "" in catalog)
  {
    hide BasenameNoExt;
  }

  // ---------------------------------------------------------------- reading keeps the routes

  /** The entries whose path goes by a name, with what their upstream means. */
  ghost function NamedRoutes(rulesets: seq<Entry>, n: Naming, groups: map<string, Group>): Routes
  {
    if rulesets == [] then []
    else
      var last := |rulesets| - 1;
      NamedRoutes(rulesets[..last], n, groups) + NamedRoute(rulesets[last], n, groups)
  }

  ghost function NamedRoute(e: Entry, n: Naming, groups: map<string, Group>): Routes
  {
    if n.Of(e.path) == "" then [] else [(e.path, Some(ViewOf(GroupAt(groups, e.upstream))))]
  }

  ghost predicate PathsSeen(rulesets: seq<Entry>, n: Naming)
  {
    forall e | e in rulesets ::
      (e.path != "" ==> e.path in n.names) && (e.path != "" && BasenameNoExt(e.path) == "" ==> "" in n.catalog)
  }

  lemma {:induction false} NamedRoutesExtended(rulesets: seq<Entry>, n: Naming, n': Naming, groups: map<string, Group>)
    requires PathsSeen(rulesets, n) && OneToOne(n) && OneToOne(n') && Extends(n, n')
    ensures NamedRoutes(rulesets, n', groups) == NamedRoutes(rulesets, n, groups)
  {
    if rulesets != [] {
      var last := |rulesets| - 1;
      NamedRoutesExtended(rulesets[..last], n, n', groups);
      assert rulesets[last] in rulesets;
      assert rulesets[last].path == "" ==> "" !in n.names && "" !in n'.names;
    }
  }

  /** Every rule shows its upstream's group. */
  ghost predicate ShowsGroups(drafts: seq<Draft>, groups: map<string, Group>)
  {
    forall d | d in drafts :: ViewOf(GroupFor(d.rule)) == ViewOf(GroupAt(groups, d.upstream))
  }

  ghost predicate Listed(path: string, rulesets: seq<Entry>)
  {
    exists e :: e in rulesets && e.path == path
  }

  ghost predicate Faithful(b: Boot, rulesets: seq<Entry>, groups: map<string, Group>)
  {
    && OneToOne(b.naming) && PathsSeen(rulesets, b.naming) && (forall p | p in b.naming.names :: Listed(p, rulesets))
    && ShowsGroups(b.drafts, groups)
    && RulesListed(Rules(b.drafts), b.naming.catalog)
    && SameRoutes(NamedRoutes(rulesets, b.naming, groups), RoutesOf(Rules(b.drafts), b.naming.catalog))
  }

  /** What an entry adds to the routes. */
  function Added(name: string, path: string, v: View): Routes
  {
    if name == "" then [] else [(path, Some(v))]
  }

  /** An entry read into the last rule. */
  lemma MergeKeepsRoutes(front: seq<UiRule>, last: UiRule, name: string, path: string, catalog: map<string, string>)
    requires RulesListed(front + [last], catalog) && (name != "" ==> name in catalog && catalog[name] == path)
    ensures var more := if name != "" && name !in last.rulesets then last.(rulesets := last.rulesets + [name])
                        else last;
            && RulesListed(front + [more], catalog)
            && SameRoutes(RoutesOf(front + [last], catalog) + Added(name, path, ViewOf(GroupFor(last))),
                          RoutesOf(front + [more], catalog))
  {
    var routes, v := RoutesOf(front + [last], catalog), ViewOf(GroupFor(last));
    if name == "" {
      assert routes + [] == routes;
    } else if name !in last.rulesets {
      TickAppends(front, last, name, catalog);
    } else {
      var k :| 0 <= k < |last.rulesets| && last.rulesets[k] == name;
      assert (front + [last])[..|front|] == front && last in front + [last];
      assert routes[|RoutesOf(front, catalog)| + k] == Ticked(last.rulesets, catalog, Some(v))[k];
      SecondEntryIdle(routes, path, Some(v));
    }
  }

  /** An entry that starts a rule. */
  lemma NewRuleKeepsRoutes(rules: seq<UiRule>, rule: UiRule, name: string, path: string, catalog: map<string, string>)
    requires RulesListed(rules, catalog) && (name != "" ==> name in catalog && catalog[name] == path)
    requires rule.rulesets == if name != "" then [name] else []
    ensures RulesListed(rules + [rule], catalog)
    ensures RoutesOf(rules + [rule], catalog) == RoutesOf(rules, catalog) + Added(name, path, ViewOf(GroupFor(rule)))
  {
    var v := ViewOf(GroupFor(rule));
    assert (rules + [rule])[..|rules|] == rules;
    assert Ticked(rule.rulesets, catalog, Some(v)) == Added(name, path, v);
  }

  /** The rule shown for a group stands for what the group means. */
  lemma ShownAsStored(g: Group)
    ensures ViewOf(GroupFor(RuleFor(g))) == ViewOf(g)
  {
  }

  lemma AddEntryKeepsRoutes(drafts: seq<Draft>, name: string, path: string, upstream: string,
                            groups: map<string, Group>, catalog: map<string, string>)
    requires ShowsGroups(drafts, groups) && RulesListed(Rules(drafts), catalog)
    requires name != "" ==> name in catalog && catalog[name] == path
    ensures var drafts' := AddEntry(drafts, name, upstream, GroupAt(groups, upstream));
            && ShowsGroups(drafts', groups) && RulesListed(Rules(drafts'), catalog)
            && SameRoutes(RoutesOf(Rules(drafts), catalog) + Added(name, path, ViewOf(GroupAt(groups, upstream))),
                          RoutesOf(Rules(drafts'), catalog))
  {
    var g := GroupAt(groups, upstream);
    var drafts' := AddEntry(drafts, name, upstream, g);
    var rules := Rules(drafts);
    ShownAsStored(g);
    hide RulesListed, RoutesOf, Added, GroupAt, SameRoutes, ViewOf, RuleFor;
    if drafts != [] && drafts[|drafts| - 1].upstream == upstream {
      var front, last := rules[..|rules| - 1], rules[|rules| - 1];
      assert rules == front + [last];
      assert drafts[|drafts| - 1] in drafts && ViewOf(GroupFor(last)) == ViewOf(g);
      MergeKeepsRoutes(front, last, name, path, catalog);
      var more := if name != "" && name !in last.rulesets then last.(rulesets := last.rulesets + [name]) else last;
      assert GroupFor(more) == GroupFor(last);
      assert Rules(drafts') == front + [more];
      assert forall d | d in drafts' :: d in drafts || d == Draft(more, upstream);
    } else {
      var rule := RuleFor(g).(rulesets := if name != "" then [name] else []);
      assert GroupFor(rule) == GroupFor(RuleFor(g));
      assert Rules(drafts') == rules + [rule];
      NewRuleKeepsRoutes(rules, rule, name, path, catalog);
      SameAsItself(RoutesOf(rules + [rule], catalog));
    }
  }

  lemma SameAsItself(a: Routes)
    ensures SameRoutes(a, a)
  {
  }

  lemma SameRoutesChain(a: Routes, b: Routes, c: Routes)
    requires SameRoutes(a, b) && SameRoutes(b, c)
    ensures SameRoutes(a, c)
  {
    forall m: set<string>
      ensures First(a, m) == First(c, m)
    {
      assert First(a, m) == First(b, m);
    }
  }

  lemma NothingIsFaithful(groups: map<string, Group>)
    ensures Faithful(ReadEntries([], groups), [], groups)
  {
    NothingRead(groups);
    SameAsItself([]);
    hide SameRoutes, BasenameNoExt;
  }

  lemma LongerIsFaithful(front: seq<Entry>, e: Entry, groups: map<string, Group>)
    requires Faithful(ReadEntries(front, groups), front, groups)
    ensures Faithful(ReadEntries(front + [e], groups), front + [e], groups)
  {
    ReadEntryFaithful(ReadEntries(front, groups), front, e, groups);
    hide Faithful, ReadEntry;
    assert (front + [e])[..|front|] == front && (front + [e])[|front|] == e;
  }

  lemma {:induction false} ReadingIsFaithful(rulesets: seq<Entry>, groups: map<string, Group>)
    ensures Faithful(ReadEntries(rulesets, groups), rulesets, groups)
  {
    if rulesets == [] {
      NothingIsFaithful(groups);
    } else {
      var last := |rulesets| - 1;
      hide *;
      var front, e := rulesets[..last], rulesets[last];
      assert rulesets == front + [e];
      ReadingIsFaithful(front, groups);
      LongerIsFaithful(front, e, groups);
    }
  }

  lemma PathsRemain(n: Naming, front: seq<Entry>, e: Entry)
    requires OneToOne(n) && PathsSeen(front, n) && forall p | p in n.names :: Listed(p, front)
    ensures PathsSeen(front + [e], NamePath(n, e.path))
    ensures forall p | p in NamePath(n, e.path).names :: Listed(p, front + [e])
  {
    var n' := NamePath(n, e.path);
    NamingKept(n, e.path);
    hide BasenameNoExt, NewName;
    assert forall x | x in front + [e] :: x in front || x == e;
    forall p | p in n'.names
      ensures Listed(p, front + [e])
    {
      if p in n.names {
        assert Listed(p, front);
        var x :| x in front && x.path == p;
        assert x in front + [e];
      } else {
        assert e in front + [e];
      }
    }
  }

  lemma ReadEntryFaithful(b: Boot, front: seq<Entry>, e: Entry, groups: map<string, Group>)
    requires Faithful(b, front, groups)
    ensures Faithful(ReadEntry(b, e, groups), front + [e], groups)
  {
    var n, rules := NamePath(b.naming, e.path), Rules(b.drafts);
    var v := ViewOf(GroupAt(groups, e.upstream));
    NamingKept(b.naming, e.path);
    PathsRemain(b.naming, front, e);
    assert n.Of(e.path) != "" ==> n.Of(e.path) in n.catalog && n.catalog[n.Of(e.path)] == e.path;
    NamedRoutesExtended(front, b.naming, n, groups);
    RoutesOfLarger(rules, b.naming.catalog, n.catalog);
    AddEntryKeepsRoutes(b.drafts, n.Of(e.path), e.path, e.upstream, groups, n.catalog);
    assert (front + [e])[..|front|] == front;
    assert NamedRoutes(front + [e], n, groups) == NamedRoutes(front, n, groups) + Added(n.Of(e.path), e.path, v);
    hide SameRoutes, NamedRoutes, RoutesOf, PathsSeen, OneToOne, Added, AddEntry, NamePath;
    SameRoutesAppend(NamedRoutes(front, n, groups), RoutesOf(rules, n.catalog), Added(n.Of(e.path), e.path, v));
    SameRoutesChain(NamedRoutes(front + [e], n, groups), RoutesOf(rules, n.catalog) + Added(n.Of(e.path), e.path, v),
                    RoutesOf(Rules(ReadEntry(b, e, groups).drafts), n.catalog));
  }
}
