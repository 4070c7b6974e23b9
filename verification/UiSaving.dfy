/** Writing the rule page back, and what opening and saving it does to routing (UpstreamsTab.jsx). */
module UiSaving {
  import opened Wrappers
  import opened Text
  import opened UiRules
  import opened UiRulesTheorems

  // ---------------------------------------------------------------- what is written

  ghost predicate PathsNonEmpty(catalog: map<string, string>)
  {
    forall n | n in catalog :: catalog[n] != ""
  }

  /** No rule is named `__proto__`. */
  ghost predicate NoProto(rules: seq<UiRule>)
  {
    forall i | 0 <= i < |rules| :: BaseName(rules[i], i) != "__proto__"
  }

  /** The first rule named `__proto__`; later ones get a number. */
  ghost predicate FirstProto(rules: seq<UiRule>, i: nat)
  {
    i < |rules| && BaseName(rules[i], i) == "__proto__" && forall j | 0 <= j < i :: BaseName(rules[j], j) != "__proto__"
  }

  /** What the entries of rule `i` lead to: assigning `__proto__` makes no group. */
  ghost function WrittenView(rules: seq<UiRule>, i: nat): Option<View>
    requires i < |rules|
  {
    if FirstProto(rules, i) then None else Some(ViewOf(GroupFor(rules[i])))
  }

  /** The routes that are written for a rule list. */
  ghost function WrittenRoutes(rules: seq<UiRule>, catalog: map<string, string>): Routes
    requires RulesListed(rules, catalog)
  {
    if rules == [] then []
    else
      var last := |rules| - 1;
      WrittenRoutes(rules[..last], catalog) + Ticked(rules[last].rulesets, catalog, WrittenView(rules, last))
  }

  ghost function ViewAt(groups: map<string, Group>, name: string): Option<View>
  {
    if name in groups then Some(ViewOf(groups[name])) else None
  }

  lemma {:induction false} RuleEntriesResolve(names: seq<string>, catalog: map<string, string>, name: string,
                                              groups: map<string, Group>)
    requires NamesListed(names, catalog) && PathsNonEmpty(catalog)
    ensures Resolve(RuleEntries(names, catalog, name), groups) == Ticked(names, catalog, ViewAt(groups, name))
  {
    if names != [] {
      var last := |names| - 1;
      RuleEntriesResolve(names[..last], catalog, name, groups);
      assert names[last] in names;
    }
  }

  lemma {:induction false} RuleEntriesUpstream(names: seq<string>, pathOf: map<string, string>, name: string)
    ensures forall e | e in RuleEntries(names, pathOf, name) :: e.upstream == name
  {
    if names != [] {
      RuleEntriesUpstream(names[..|names| - 1], pathOf, name);
    }
  }

  /** The groups are the names in use but `__proto__`; the default is as it was; the entries stand for the routes. */
  ghost predicate Sound(d: Draw, config: Config, rules: seq<UiRule>, catalog: map<string, string>)
    requires RulesListed(rules, catalog)
  {
    && d.groups.Keys == d.used - {PROTO} && (PROTO in d.used <==> !NoProto(rules))
    && DEFAULT in d.groups && d.groups[DEFAULT] == DefaultOf(config)
    && (forall e | e in d.rulesets :: e.upstream in d.used)
    && Resolve(d.rulesets, d.groups) == WrittenRoutes(rules, catalog)
  }

  lemma ResolveUnused(rulesets: seq<Entry>, groups: map<string, Group>, name: string, g: Group)
    requires forall e | e in rulesets :: e.upstream != name
    ensures Resolve(rulesets, groups[name := g]) == Resolve(rulesets, groups)
  {
    assert forall k | 0 <= k < |rulesets| :: rulesets[k] in rulesets;
  }

  lemma ResolveAppend(a: seq<Entry>, b: seq<Entry>, groups: map<string, Group>)
    ensures Resolve(a + b, groups) == Resolve(a, groups) + Resolve(b, groups)
  {
  }

  /** The name of a rule is `__proto__` exactly for the first rule that asks for it. */
  lemma ProtoNamedOnce(front: seq<UiRule>, rule: UiRule, used: set<string>)
    requires PROTO in used <==> !NoProto(front)
    ensures GroupName(rule, |front|, used) == PROTO <==> FirstProto(front + [rule], |front|)
    ensures NoProto(front + [rule]) <==> NoProto(front) && BaseName(rule, |front|) != PROTO
  {
    var rules := front + [rule];
    assert rules[|front|] == rule && forall j | 0 <= j < |front| :: rules[j] == front[j];
    assert DEFAULT[0] == 'd' && PROTO[0] == '_';
    hide BaseName;
  }

  lemma WriteRuleSound(d: Draw, config: Config, front: seq<UiRule>, rule: UiRule, catalog: map<string, string>)
    requires RulesListed(front, catalog) && NamesListed(rule.rulesets, catalog) && PathsNonEmpty(catalog)
    requires Sound(d, config, front, catalog)
    ensures RulesListed(front + [rule], catalog)
    ensures Sound(WriteRule(d, rule, |front|, catalog), config, front + [rule], catalog)
  {
    hide *;
    var name, g := GroupName(rule, |front|, d.used), GroupFor(rule);
    SoundParts(d, config, front, catalog);
    ProtoNamedOnce(front, rule, d.used);
    WrittenLonger(front, rule, catalog);
    GroupsWritten(d, name, g);
    EntriesWritten(d, rule, name, g, catalog);
    SoundFromParts(d, config, front, rule, catalog);
  }

  /** What `Sound` says of the groups and of the entries. */
  lemma SoundParts(d: Draw, config: Config, rules: seq<UiRule>, catalog: map<string, string>)
    requires RulesListed(rules, catalog) && Sound(d, config, rules, catalog)
    ensures d.groups.Keys == d.used - {PROTO} && (PROTO in d.used <==> !NoProto(rules))
    ensures DEFAULT in d.groups && d.groups[DEFAULT] == DefaultOf(config)
    ensures forall e | e in d.rulesets :: e.upstream in d.used
    ensures Resolve(d.rulesets, d.groups) == WrittenRoutes(rules, catalog)
  {
    hide NoProto, DefaultOf, Resolve, WrittenRoutes;
  }

  lemma GroupsWritten(d: Draw, name: string, g: Group)
    requires d.groups.Keys == d.used - {PROTO} && name !in d.used && DEFAULT in d.groups
    ensures var groups := SetProperty(d.groups, name, g);
            && groups.Keys == d.used + {name} - {PROTO} && DEFAULT in groups && groups[DEFAULT] == d.groups[DEFAULT]
            && ViewAt(groups, name) == if name == PROTO then None else Some(ViewOf(g))
  {
    hide ViewOf;
  }

  lemma EntriesWritten(d: Draw, rule: UiRule, name: string, g: Group, catalog: map<string, string>)
    requires NamesListed(rule.rulesets, catalog) && PathsNonEmpty(catalog)
    requires name !in d.used && forall e | e in d.rulesets :: e.upstream in d.used
    ensures var groups, entries := SetProperty(d.groups, name, g), RuleEntries(rule.rulesets, catalog, name);
            && Resolve(d.rulesets + entries, groups)
                 == Resolve(d.rulesets, d.groups) + Ticked(rule.rulesets, catalog, ViewAt(groups, name))
            && forall e | e in d.rulesets + entries :: e.upstream in d.used + {name}
  {
    var groups, entries := SetProperty(d.groups, name, g), RuleEntries(rule.rulesets, catalog, name);
    hide RuleEntries, Ticked, Resolve, ViewAt, NamesListed, PathsNonEmpty;
    RuleEntriesResolve(rule.rulesets, catalog, name, groups);
    RuleEntriesUpstream(rule.rulesets, catalog, name);
    ResolveUnused(d.rulesets, d.groups, name, g);
    ResolveAppend(d.rulesets, entries, groups);
  }

  lemma SoundFromParts(d: Draw, config: Config, front: seq<UiRule>, rule: UiRule, catalog: map<string, string>)
    requires RulesListed(front, catalog) && NamesListed(rule.rulesets, catalog) && RulesListed(front + [rule], catalog)
    requires Sound(d, config, front, catalog)
    requires var name := GroupName(rule, |front|, d.used); var groups := SetProperty(d.groups, name, GroupFor(rule));
             var rules, entries := front + [rule], RuleEntries(rule.rulesets, catalog, name);
             && groups.Keys == d.used + {name} - {PROTO} && DEFAULT in groups && groups[DEFAULT] == d.groups[DEFAULT]
             && (name == PROTO <==> FirstProto(rules, |front|))
             && (NoProto(rules) <==> NoProto(front) && BaseName(rule, |front|) != PROTO)
             && Resolve(d.rulesets + entries, groups) == WrittenRoutes(rules, catalog)
             && forall e | e in d.rulesets + entries :: e.upstream in d.used + {name}
    ensures Sound(WriteRule(d, rule, |front|, catalog), config, front + [rule], catalog)
  {
    hide GroupFor, GroupName, SetProperty, DefaultOf, Resolve, WrittenRoutes, RuleEntries, BaseName, NamesListed,
        RulesListed;
    var rules := front + [rule];
    assert rules[|front|] == rule && forall j | 0 <= j < |front| :: rules[j] == front[j];
  }

  lemma WrittenLonger(front: seq<UiRule>, rule: UiRule, catalog: map<string, string>)
    requires RulesListed(front, catalog) && NamesListed(rule.rulesets, catalog)
    ensures RulesListed(front + [rule], catalog)
    ensures WrittenRoutes(front + [rule], catalog)
         == WrittenRoutes(front, catalog)
            + Ticked(rule.rulesets, catalog,
                     if FirstProto(front + [rule], |front|) then None else Some(ViewOf(GroupFor(rule))))
  {
    hide ViewOf, GroupFor, FirstProto, NamesListed;
    assert forall r | r in front + [rule] :: r in front || r == rule;
    assert RulesListed(front + [rule], catalog);
    hide RulesListed, Ticked;
    assert (front + [rule])[..|front|] == front && (front + [rule])[|front|] == rule;
  }

  lemma {:induction false} WritingKeepsRoutes(config: Config, catalog: map<string, string>, rules: seq<UiRule>)
    requires RulesListed(rules, catalog) && PathsNonEmpty(catalog)
    ensures Sound(WriteRules(config, catalog, rules), config, rules, catalog)
  {
    if rules != [] {
      hide Sound, WriteRule;
      var last := |rules| - 1;
      assert rules[last] in rules && rules == rules[..last] + [rules[last]];
      WritingKeepsRoutes(config, catalog, rules[..last]);
      WriteRuleSound(WriteRules(config, catalog, rules[..last]), config, rules[..last], rules[last], catalog);
    } else {
      assert DEFAULT[0] == 'd' && PROTO[0] == '_';
    }
  }

  // ---------------------------------------------------------------- when a lost group matters

  ghost predicate Injective(catalog: map<string, string>)
  {
    forall m, n | m in catalog && n in catalog && catalog[m] == catalog[n] :: m == n
  }

  ghost predicate NameIn(rules: seq<UiRule>, name: string)
  {
    exists r :: r in rules && name in r.rulesets
  }

  /** The first rule named `__proto__`, if any, lists only rulesets that earlier rules list already. */
  ghost predicate ProtoShadowed(rules: seq<UiRule>)
  {
    forall i: nat, n | FirstProto(rules, i) && n in rules[i].rulesets :: NameIn(rules[..i], n)
  }

  lemma FirstProtoPrefix(rules: seq<UiRule>, k: nat, i: nat)
    requires i < k <= |rules|
    ensures FirstProto(rules[..k], i) <==> FirstProto(rules, i)
  {
    hide BaseName;
  }

  /** The written routes have the paths of the rules. */
  lemma SamePathsOf(a: Routes, b: Routes, more: Routes, others: Routes)
    requires |a| == |b| && forall k | 0 <= k < |b| :: a[k].0 == b[k].0
    requires |more| == |others| && forall k | 0 <= k < |others| :: more[k].0 == others[k].0
    ensures forall k | 0 <= k < |b + others| :: (a + more)[k].0 == (b + others)[k].0
  {
  }

  lemma {:induction false} SamePaths(rules: seq<UiRule>, catalog: map<string, string>)
    requires RulesListed(rules, catalog)
    ensures |WrittenRoutes(rules, catalog)| == |RoutesOf(rules, catalog)|
    ensures forall k | 0 <= k < |RoutesOf(rules, catalog)| ::
              WrittenRoutes(rules, catalog)[k].0 == RoutesOf(rules, catalog)[k].0
  {
    if rules != [] {
      var last := |rules| - 1;
      assert RulesListed(rules[..last], catalog) && NamesListed(rules[last].rulesets, catalog) by {
        assert rules[last] in rules;
      }
      SamePaths(rules[..last], catalog);
      var a, b := WrittenView(rules, last), Some(ViewOf(GroupFor(rules[last])));
      hide ViewOf, GroupFor, WrittenView, NamesListed, RulesListed;
      SamePathsOf(WrittenRoutes(rules[..last], catalog), RoutesOf(rules[..last], catalog),
                  Ticked(rules[last].rulesets, catalog, a), Ticked(rules[last].rulesets, catalog, b));
    }
  }

  lemma {:induction false} WrittenWithoutProto(rules: seq<UiRule>, catalog: map<string, string>)
    requires RulesListed(rules, catalog) && NoProto(rules)
    ensures WrittenRoutes(rules, catalog) == RoutesOf(rules, catalog)
    ensures forall k | 0 <= k < |RoutesOf(rules, catalog)| :: RoutesOf(rules, catalog)[k].1.Some?
  {
    if rules != [] {
      hide BaseName, ViewOf, GroupFor;
      WrittenWithoutProto(rules[..|rules| - 1], catalog);
    }
  }

  lemma {:induction false} PathListedIff(rules: seq<UiRule>, catalog: map<string, string>, n: string)
    requires RulesListed(rules, catalog) && Injective(catalog) && n in catalog
    ensures HasPath(RoutesOf(rules, catalog), catalog[n]) <==> NameIn(rules, n)
  {
    if rules != [] {
      hide ViewOf, GroupFor;
      var last := |rules| - 1;
      var front, names := rules[..last], rules[last].rulesets;
      PathListedIff(front, catalog, n);
      var v := Some(ViewOf(GroupFor(rules[last])));
      TickedPaths(names, catalog, v, n);
      AppendedPaths(RoutesOf(front, catalog), Ticked(names, catalog, v), catalog[n]);
      assert rules == front + [rules[last]];
      hide RoutesOf, Ticked, NameIn, HasPath;
      NameInLonger(front, rules[last], n);
    }
  }

  lemma NameInLonger(front: seq<UiRule>, rule: UiRule, n: string)
    ensures NameIn(front + [rule], n) <==> NameIn(front, n) || n in rule.rulesets
  {
    assert forall r :: r in front + [rule] <==> r in front || r == rule;
  }

  ghost predicate HasPath(list: Routes, path: string)
  {
    exists k | 0 <= k < |list| :: list[k].0 == path
  }

  lemma TickedPaths(names: seq<string>, catalog: map<string, string>, v: Option<View>, n: string)
    requires NamesListed(names, catalog) && Injective(catalog) && n in catalog
    ensures HasPath(Ticked(names, catalog, v), catalog[n]) <==> n in names
  {
    if n in names {
      var k :| 0 <= k < |names| && names[k] == n;
      assert Ticked(names, catalog, v)[k].0 == catalog[n];
    }
  }

  lemma AppendedPaths(a: Routes, b: Routes, path: string)
    ensures HasPath(a + b, path) <==> HasPath(a, path) || HasPath(b, path)
  {
    if HasPath(a, path) {
      var k :| 0 <= k < |a| && a[k].0 == path;
      assert (a + b)[k].0 == path;
    }
    if HasPath(b, path) {
      var k :| 0 <= k < |b| && b[k].0 == path;
      assert (a + b)[|a| + k].0 == path;
    }
  }

  /** Entries whose paths are all listed before never match first. */
  lemma RepeatsIdle(a: Routes, b: Routes)
    requires forall k | 0 <= k < |b| :: HasPath(a, b[k].0)
    ensures SameRoutes(a, a + b)
  {
    forall m: set<string>
      ensures First(a, m) == First(a + b, m)
    {
      FirstAppend(a, b, m);
      FirstIffListed(a, m);
      FirstIffListed(b, m);
    }
  }

  lemma {:induction false} ShadowedSame(rules: seq<UiRule>, catalog: map<string, string>)
    requires RulesListed(rules, catalog) && Injective(catalog) && ProtoShadowed(rules)
    ensures SameRoutes(WrittenRoutes(rules, catalog), RoutesOf(rules, catalog))
  {
    if rules != [] {
      var last := |rules| - 1;
      var front, names := rules[..last], rules[last].rulesets;
      var v := Some(ViewOf(GroupFor(rules[last])));
      hide ViewOf, GroupFor, BaseName;
      ShadowedPrefix(rules, last);
      ShadowedSame(front, catalog);
      assert RulesListed(front, catalog) && NamesListed(names, catalog) by { assert rules[last] in rules; }
      var w, r := WrittenRoutes(front, catalog), RoutesOf(front, catalog);
      if FirstProto(rules, last) {
        forall k | 0 <= k < |names|
          ensures HasPath(r, catalog[names[k]]) && HasPath(w, catalog[names[k]])
        {
          assert names[k] in names;
          PathListedIff(front, catalog, names[k]);
          SamePaths(front, catalog);
        }
        RepeatsIdle(w, Ticked(names, catalog, None));
        RepeatsIdle(r, Ticked(names, catalog, v));
        hide *;
        SameRoutesBack(w, w + Ticked(names, catalog, None));
        SameRoutesChain(w + Ticked(names, catalog, None), w, r);
        SameRoutesChain(w + Ticked(names, catalog, None), r, r + Ticked(names, catalog, v));
      } else {
        SameRoutesAppend(w, r, Ticked(names, catalog, v));
      }
    } else {
      SameAsItself([]);
    }
  }

  lemma SameRoutesBack(a: Routes, b: Routes)
    requires SameRoutes(a, b)
    ensures SameRoutes(b, a)
  {
    forall m: set<string>
      ensures First(b, m) == First(a, m)
    {
      assert First(a, m) == First(b, m);
    }
  }

  lemma ShadowedPrefix(rules: seq<UiRule>, k: nat)
    requires k <= |rules| && ProtoShadowed(rules)
    ensures ProtoShadowed(rules[..k])
  {
    hide BaseName;
    forall i: nat, n | FirstProto(rules[..k], i) && n in rules[..k][i].rulesets
      ensures NameIn(rules[..k][..i], n)
    {
      FirstProtoPrefix(rules, k, i);
      assert rules[..k][..i] == rules[..i];
    }
  }

  /** A ruleset that the first rule named `__proto__` lists first is routed to a group that does not exist. */
  lemma {:induction false} LostRoute(rules: seq<UiRule>, catalog: map<string, string>, i: nat, n: string)
    requires RulesListed(rules, catalog) && Injective(catalog)
    requires FirstProto(rules, i) && n in rules[i].rulesets && !NameIn(rules[..i], n)
    ensures n in catalog && First(WrittenRoutes(rules, catalog), {catalog[n]}) == Some(None)
    ensures var first := First(RoutesOf(rules, catalog), {catalog[n]}); first.Some? && first.value.Some?
  {
    var last := |rules| - 1;
    var front, names := rules[..last], rules[last].rulesets;
    assert rules[last] in rules && rules[i] in rules;
    var v := Some(ViewOf(GroupFor(rules[last])));
    hide ViewOf, GroupFor, BaseName, NameIn, Injective, First;
    if i < last {
      FirstProtoPrefix(rules, last, i);
      assert rules[..last][..i] == rules[..i];
      LostRoute(front, catalog, i, n);
      FirstAppend(WrittenRoutes(front, catalog), Ticked(names, catalog, WrittenView(rules, last)), {catalog[n]});
      FirstAppend(RoutesOf(front, catalog), Ticked(names, catalog, v), {catalog[n]});
    } else {
      assert WrittenRoutes(rules, catalog) == WrittenRoutes(front, catalog) + Ticked(names, catalog, None);
      assert RoutesOf(rules, catalog) == RoutesOf(front, catalog) + Ticked(names, catalog, v);
      hide *;
      TickedFirst(front, names, catalog, v, n);
    }
  }

  lemma TickedFirst(front: seq<UiRule>, names: seq<string>, catalog: map<string, string>, v: Option<View>, n: string)
    requires RulesListed(front, catalog) && NamesListed(names, catalog) && Injective(catalog)
    requires n in names && !NameIn(front, n)
    ensures n in catalog
    ensures First(WrittenRoutes(front, catalog) + Ticked(names, catalog, None), {catalog[n]}) == Some(None)
    ensures First(RoutesOf(front, catalog) + Ticked(names, catalog, v), {catalog[n]}) == Some(v)
  {
    var w, r, m := WrittenRoutes(front, catalog), RoutesOf(front, catalog), {catalog[n]};
    PathListedIff(front, catalog, n);
    SamePaths(front, catalog);
    hide WrittenRoutes, RoutesOf, Ticked, First;
    FirstIffListed(w, m);
    FirstIffListed(r, m);
    FirstTicked(names, catalog, None, n);
    FirstTicked(names, catalog, v, n);
    FirstAppend(w, Ticked(names, catalog, None), m);
    FirstAppend(r, Ticked(names, catalog, v), m);
  }

  lemma {:induction false} FirstTicked(names: seq<string>, catalog: map<string, string>, v: Option<View>, n: string)
    requires NamesListed(names, catalog) && n in names
    ensures n in catalog && First(Ticked(names, catalog, v), {catalog[n]}) == Some(v)
  {
    if catalog[names[0]] != catalog[n] {
      assert Ticked(names, catalog, v)[1..] == Ticked(names[1..], catalog, v);
      FirstTicked(names[1..], catalog, v, n);
    }
  }

  // ---------------------------------------------------------------- open and save

  /** The configuration after opening the page and saving it as it is. */
  function Saved(config: Config): Config
  {
    var b := ReadEntries(config.rulesets, config.groups);
    Committed(config, b.naming.catalog, Rules(b.drafts))
  }

  predicate KnownGroups(config: Config)
  {
    forall e | e in config.rulesets :: e.upstream in config.groups
  }

  /** The rules shown for a configuration. */
  function Shown(config: Config): seq<UiRule>
  {
    Rules(ReadEntries(config.rulesets, config.groups).drafts)
  }

  function CatalogOf(config: Config): map<string, string>
  {
    ReadEntries(config.rulesets, config.groups).naming.catalog
  }

  /** What saving writes, and what reading meant. */
  lemma SavedRoutes(config: Config)
    ensures var n, catalog := ReadEntries(config.rulesets, config.groups).naming, CatalogOf(config);
            && RulesListed(Shown(config), catalog) && Injective(catalog)
            && Sound(WriteRules(config, catalog, Shown(config)), config, Shown(config), catalog)
            && (forall m: set<string> :: Route(Saved(config), m) == First(WrittenRoutes(Shown(config), catalog), m))
            && SameRoutes(NamedRoutes(config.rulesets, n, config.groups), RoutesOf(Shown(config), catalog))
  {
    ReadingIsFaithful(config.rulesets, config.groups);
    var catalog := CatalogOf(config);
    hide BasenameNoExt;
    assert Injective(catalog);
    WritingKeepsRoutes(config, catalog, Shown(config));
  }

  lemma {:induction false} AllNamed(rulesets: seq<Entry>, n: Naming, groups: map<string, Group>)
    requires forall e | e in rulesets :: e.upstream in groups && n.Of(e.path) != ""
    ensures NamedRoutes(rulesets, n, groups) == Resolve(rulesets, groups)
  {
    if rulesets != [] {
      var last := |rulesets| - 1;
      AllNamed(rulesets[..last], n, groups);
      assert rulesets[last] in rulesets;
    }
  }

  lemma {:induction false} UnnamedGone(rulesets: seq<Entry>, n: Naming, groups: map<string, Group>, path: string)
    requires n.Of(path) == ""
    ensures First(NamedRoutes(rulesets, n, groups), {path}).None?
  {
    if rulesets != [] {
      var last := |rulesets| - 1;
      UnnamedGone(rulesets[..last], n, groups, path);
      FirstAppend(NamedRoutes(rulesets[..last], n, groups), NamedRoute(rulesets[last], n, groups), {path});
    }
  }

  predicate AllPathsNameFiles(config: Config)
  {
    forall e | e in config.rulesets :: e.path != "" && e.path[|e.path| - 1] != '/' && e.path[|e.path| - 1] != '\\'
  }

  /**
    Opening and saving the page keeps the route of every query exactly when every ruleset path
    names a file and the first rule named `__proto__`, if any, is shadowed by the rules before it.
    */
  lemma RoutingKeptIff(config: Config)
    requires KnownGroups(config)
    ensures (forall matching: set<string> :: Route(Saved(config), matching) == Route(config, matching))
       <==> AllPathsNameFiles(config) && ProtoShadowed(Shown(config))
  {
    if !AllPathsNameFiles(config) {
      var e :| e in config.rulesets && BasenameNoExt(e.path) == "";
      var lost := UnnamedLoses(config, e);
      assert Route(Saved(config), {lost}) != Route(config, {lost});
    } else {
      SavedRoutes(config);
      forall m: set<string>
        ensures Route(config, m) == First(RoutesOf(Shown(config), CatalogOf(config)), m)
      {
        NamedKept(config, m);
      }
      var rules, catalog := Shown(config), CatalogOf(config);
      hide *;
      ShadowedDecides(rules, catalog, Saved(config), config);
    }
  }

  lemma ShadowedDecides(rules: seq<UiRule>, catalog: map<string, string>, saved: Config, config: Config)
    requires RulesListed(rules, catalog) && Injective(catalog)
    requires forall m: set<string> :: Route(saved, m) == First(WrittenRoutes(rules, catalog), m)
    requires forall m: set<string> :: Route(config, m) == First(RoutesOf(rules, catalog), m)
    ensures (forall m: set<string> :: Route(saved, m) == Route(config, m)) <==> ProtoShadowed(rules)
  {
    hide Route, First, RulesListed, Injective, WrittenRoutes, RoutesOf, BaseName, NameIn;
    if ProtoShadowed(rules) {
      ShadowedSame(rules, catalog);
      forall m: set<string>
        ensures Route(saved, m) == Route(config, m)
      {
        assert First(WrittenRoutes(rules, catalog), m) == First(RoutesOf(rules, catalog), m);
      }
    } else {
      var i: nat, n :| FirstProto(rules, i) && n in rules[i].rulesets && !NameIn(rules[..i], n);
      LostRoute(rules, catalog, i, n);
      assert Route(saved, {catalog[n]}) != Route(config, {catalog[n]});
    }
  }

  lemma NamedKept(config: Config, matching: set<string>)
    requires KnownGroups(config) && AllPathsNameFiles(config)
    ensures RulesListed(Shown(config), CatalogOf(config))
    ensures Route(config, matching) == First(RoutesOf(Shown(config), CatalogOf(config)), matching)
  {
    ReadingIsFaithful(config.rulesets, config.groups);
    AllNamed(config.rulesets, ReadEntries(config.rulesets, config.groups).naming, config.groups);
  }

  /** If some path names no file, some listed path loses its route. */
  lemma UnnamedLoses(config: Config, e: Entry) returns (lost: string)
    requires e in config.rulesets && BasenameNoExt(e.path) == ""
    ensures Route(Saved(config), {lost}) != Route(config, {lost})
  {
    var n := ReadEntries(config.rulesets, config.groups).naming;
    ReadingIsFaithful(config.rulesets, config.groups);
    lost := if e.path == "" then "" else n.catalog[""];
    assert Listed(lost, config.rulesets);
    assert n.Of(lost) == "";
    hide *;
    SavedRoutes(config);
    UnnamedGone(config.rulesets, n, config.groups, lost);
    ListedRoutes(config, lost);
    NothingWritten(config, n, lost);
  }

  lemma NothingWritten(config: Config, n: Naming, lost: string)
    requires n == ReadEntries(config.rulesets, config.groups).naming && RulesListed(Shown(config), CatalogOf(config))
    requires SameRoutes(NamedRoutes(config.rulesets, n, config.groups), RoutesOf(Shown(config), CatalogOf(config)))
    requires First(NamedRoutes(config.rulesets, n, config.groups), {lost}).None?
    ensures First(WrittenRoutes(Shown(config), CatalogOf(config)), {lost}).None?
  {
    hide Shown, CatalogOf, WrittenRoutes, RoutesOf, NamedRoutes, First, ReadEntries;
    assert First(RoutesOf(Shown(config), CatalogOf(config)), {lost}).None?;
    SamePaths(Shown(config), CatalogOf(config));
    FirstIffListed(RoutesOf(Shown(config), CatalogOf(config)), {lost});
    FirstIffListed(WrittenRoutes(Shown(config), CatalogOf(config)), {lost});
  }

  lemma ListedRoutes(config: Config, path: string)
    requires Listed(path, config.rulesets)
    ensures Route(config, {path}).Some?
  {
    var e :| e in config.rulesets && e.path == path;
    var k :| 0 <= k < |config.rulesets| && config.rulesets[k] == e;
    assert Resolve(config.rulesets, config.groups)[k].0 in {path};
    FirstIffListed(Resolve(config.rulesets, config.groups), {path});
  }

  /**
    Saving leaves the default group as it was and routes no ruleset to it; every ruleset it writes
    has a group exactly when no rule is named `__proto__`.
    */
  lemma DefaultUntouched(config: Config)
    ensures "default" in Saved(config).groups
    ensures Saved(config).groups["default"] == if "default" in config.groups then config.groups["default"]
                                               else Group(Some([]), Some("round_robin"), Some(false), None)
    ensures forall e | e in Saved(config).rulesets :: e.upstream != "default"
    ensures KnownGroups(Saved(config)) <==> NoProto(Shown(config))
  {
    SavedRoutes(config);
    var rules, catalog := Shown(config), CatalogOf(config);
    NeverDefault(config, catalog, rules);
    var saved := Saved(config);
    assert Resolve(saved.rulesets, saved.groups) == WrittenRoutes(rules, catalog);
    hide ReadEntries, WriteRules, BaseName, WrittenRoutes, Injective, RulesListed;
    if NoProto(rules) {
      WrittenWithoutProto(rules, catalog);
      forall e | e in saved.rulesets
        ensures e.upstream in saved.groups
      {
        var k :| 0 <= k < |saved.rulesets| && saved.rulesets[k] == e;
        assert Resolve(saved.rulesets, saved.groups)[k].1.Some?;
      }
    } else {
      var k := ProtoWithoutGroup(rules, catalog);
      assert Resolve(saved.rulesets, saved.groups)[k].1.None? && saved.rulesets[k] in saved.rulesets;
    }
  }

  lemma ProtoComesFromRuleset(rule: UiRule, index: nat)
    requires BaseName(rule, index) == PROTO
    ensures rule.rulesets != []
  {
    assert RuleName(index)[0] == 'r' && PROTO[0] == '_';
  }

  /** A rule named `__proto__` is named so by a ruleset, whose written entry has no group. */
  lemma {:induction false} ProtoWithoutGroup(rules: seq<UiRule>, catalog: map<string, string>) returns (k: nat)
    requires RulesListed(rules, catalog) && !NoProto(rules)
    ensures k < |WrittenRoutes(rules, catalog)| && WrittenRoutes(rules, catalog)[k].1.None?
  {
    hide BaseName, ViewOf, GroupFor;
    var last := |rules| - 1;
    var front := rules[..last];
    assert RulesListed(front, catalog) && NamesListed(rules[last].rulesets, catalog) by { assert rules[last] in rules; }
    if !NoProto(front) {
      k := ProtoWithoutGroup(front, catalog);
    } else {
      assert forall j | 0 <= j < last :: front[j] == rules[j];
      assert FirstProto(rules, last);
      ProtoComesFromRuleset(rules[last], last);
      k := |WrittenRoutes(front, catalog)|;
    }
  }

  lemma {:induction false} NeverDefault(config: Config, pathOf: map<string, string>, rules: seq<UiRule>)
    ensures DEFAULT in WriteRules(config, pathOf, rules).used
    ensures forall e | e in WriteRules(config, pathOf, rules).rulesets :: e.upstream != DEFAULT
  {
    if rules != [] {
      var last := |rules| - 1;
      NeverDefault(config, pathOf, rules[..last]);
      var d := WriteRules(config, pathOf, rules[..last]);
      RuleEntriesUpstream(rules[last].rulesets, pathOf, GroupName(rules[last], last, d.used));
    }
  }

  /** Each rule, whatever the user typed, gets a group name of its own. */
  lemma {:induction false} FreshNames(config: Config, pathOf: map<string, string>, rules: seq<UiRule>)
    ensures |WriteRules(config, pathOf, rules).used| == |rules| + 1
  {
    if rules != [] {
      FreshNames(config, pathOf, rules[..|rules| - 1]);
    }
  }

  // ---------------------------------------------------------------- a test on the files

  lemma {:induction false} TrimKeepsLast(s: string)
    requires s != "" && !IsSpace(s[|s| - 1])
    ensures Trim(s) != "" && Trim(s)[|Trim(s)| - 1] == s[|s| - 1]
  {
    if IsSpace(s[0]) {
      TrimKeepsLast(s[1..]);
    }
  }

  /** A name with a number at its end is not trimmed to `__proto__`. */
  lemma NumberedIsNotProto(stem: string, n: nat)
    ensures Trim(stem + Decimal(n)) != PROTO
  {
    var s := stem + Decimal(n);
    assert s[|s| - 1] == Decimal(n)[|Decimal(n)| - 1] && '0' <= s[|s| - 1] <= '9';
    TrimKeepsLast(s);
  }

  ghost predicate NoProtoName(catalog: map<string, string>)
  {
    forall n | n in catalog :: Trim(n) != PROTO
  }

  lemma {:induction false} NamesFromFiles(rulesets: seq<Entry>, groups: map<string, Group>)
    requires forall e | e in rulesets :: Trim(BasenameNoExt(e.path)) != PROTO
    ensures NoProtoName(ReadEntries(rulesets, groups).naming.catalog)
  {
    if rulesets != [] {
      var last := |rulesets| - 1;
      var front, path := rulesets[..last], rulesets[last].path;
      assert rulesets[last] in rulesets;
      NamesFromFiles(front, groups);
      var catalog := ReadEntries(front, groups).naming.catalog;
      var stem := BasenameNoExt(path) + "_";
      NumberedIsNotProto(stem, FirstFree(catalog.Keys, stem, 2));
      hide Trim, BasenameNoExt, FirstFree, Decimal, AddEntry;
    }
  }

  /** If no ruleset file is called `__proto__`, up to `.drs` and spaces, then no rule is. */
  lemma FilesWithoutProto(config: Config)
    requires forall e | e in config.rulesets :: Trim(BasenameNoExt(e.path)) != PROTO
    ensures NoProto(Shown(config)) && ProtoShadowed(Shown(config))
  {
    NamesFromFiles(config.rulesets, config.groups);
    ReadingIsFaithful(config.rulesets, config.groups);
    var rules := Shown(config);
    hide ReadEntries, Trim, BasenameNoExt, BaseName;
    forall i | 0 <= i < |rules|
      ensures BaseName(rules[i], i) != PROTO
    {
      assert rules[i] in rules;
      NotProto(rules[i], i);
    }
    assert forall i: nat :: !FirstProto(rules, i);
  }

  lemma NotProto(rule: UiRule, index: nat)
    requires forall n | n in rule.rulesets :: Trim(n) != PROTO
    ensures BaseName(rule, index) != PROTO
  {
    hide Trim, Decimal;
    assert RuleName(index)[0] == 'r' && PROTO[0] == '_';
  }

  /** A ruleset file called `__proto__.drs` costs its rule the group. */
  lemma ProtoLosesGroup(g: Group)
    ensures var config := Config([Entry("__proto__.drs", "cn")], map["cn" := g]);
            && Route(config, {"__proto__.drs"}) == Some(Some(ViewOf(g)))
            && Route(Saved(config), {"__proto__.drs"}) == Some(None)
  {
    var path := "__proto__.drs";
    var config := Config([Entry(path, "cn")], map["cn" := g]);
    var rule := RuleFor(g).(rulesets := [PROTO]);
    ProtoPath();
    OneEntryShown(path, "cn", g);
    hide BasenameNoExt, ReadEntries, Committed, DefaultOf, RuleFor;
    ProtoWritten(config, map[PROTO := path], rule);
    assert Saved(config).rulesets == [Entry(path, PROTO)];
  }

  lemma ProtoPath()
    ensures BasenameNoExt("__proto__.drs") == PROTO
  {
    var path := "__proto__.drs";
    NoSlash(path);
    assert HasDrsExtension(path) && path[..|path| - 4] == PROTO;
  }

  /** A single ruleset is shown as one rule under its own name. */
  lemma OneEntryShown(path: string, upstream: string, g: Group)
    requires BasenameNoExt(path) != ""
    ensures var b, name := ReadEntries([Entry(path, upstream)], map[upstream := g]), BasenameNoExt(path);
            b.naming.catalog == map[name := path] && Rules(b.drafts) == [RuleFor(g).(rulesets := [name])]
  {
    var rulesets, name := [Entry(path, upstream)], BasenameNoExt(path);
    hide BasenameNoExt, RuleFor, FirstFree;
    var start := Boot(Naming(map[], map[]), []);
    assert rulesets[..0] == [] && ReadEntries(rulesets[..0], map[upstream := g]) == start;
    assert ReadEntries(rulesets, map[upstream := g]) == ReadEntry(start, rulesets[0], map[upstream := g]);
    assert NamePath(start.naming, path) == Naming(map[name := path], map[path := name]);
  }

  lemma ProtoWritten(config: Config, catalog: map<string, string>, rule: UiRule)
    requires rule.rulesets == [PROTO] && PROTO in catalog && catalog[PROTO] != ""
    ensures var next := Committed(config, catalog, [rule]);
            next.groups == map[DEFAULT := DefaultOf(config)] && next.rulesets == [Entry(catalog[PROTO], PROTO)]
  {
    hide GroupFor, DefaultOf;
    var blank := Draw(map[DEFAULT := DefaultOf(config)], [], {DEFAULT});
    assert Trim(PROTO) == PROTO && BaseName(rule, 0) == PROTO && GroupName(rule, 0, {DEFAULT}) == PROTO;
    assert [rule][..0] == [] && WriteRules(config, catalog, [rule][..0]) == blank;
    assert WriteRules(config, catalog, [rule]) == WriteRule(blank, rule, 0, catalog);
    assert rule.rulesets[..0] == [] && RuleEntries(rule.rulesets[..0], catalog, PROTO) == [];
    assert RuleEntries(rule.rulesets, catalog, PROTO) == [Entry(catalog[PROTO], PROTO)];
  }

  lemma {:induction false} NoSlash(p: string)
    requires forall c | c in p :: !IsSlash(c)
    ensures LastPiece(p) == p
  {
    if p != "" {
      NoSlash(p[..|p| - 1]);
    }
  }

  /** A third rule that only repeats `__proto__` from the first loses its group, and no route. */
  lemma ShadowedProto(a: UiRule, b: UiRule, c: UiRule)
    requires a.rulesets == ["a", PROTO] && b.rulesets == ["b"] && c.rulesets == [PROTO]
    ensures !NoProto([a, b, c]) && ProtoShadowed([a, b, c])
  {
    var rules := [a, b, c];
    assert Trim("a") == "a" && Trim("b") == "b" && Trim(PROTO) == PROTO;
    assert BaseName(rules[0], 0) == "a" && BaseName(rules[1], 1) == "b" && BaseName(rules[2], 2) == PROTO;
    assert "a"[0] != PROTO[0] && "b"[0] != PROTO[0];
    hide BaseName, Trim;
    assert PROTO == a.rulesets[1] && rules[..2][0] == a;
    assert a in rules[..2] && PROTO in a.rulesets && NameIn(rules[..2], PROTO);
  }

  /** Open the page, save it unchanged. */
  method OpenAndSave(config: Config) returns (next: Config)
    ensures next == Saved(config)
    ensures KnownGroups(config) ==>
              ((forall matching: set<string> :: Route(next, matching) == Route(config, matching))
                 <==> AllPathsNameFiles(config) && ProtoShadowed(Shown(config)))
  {
    var catalog, dnsRules := FromBackend(config);
    next := CommitToConfig(config, catalog, dnsRules);
    if KnownGroups(config) {
      RoutingKeptIff(config);
    }
  }
}
