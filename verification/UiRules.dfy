/**
  The rule view of the configuration page (web/ui/src/pages/config/UpstreamsTab.jsx): what
  `fromBackend` reads, what `commitToConfig` writes back, and that first-match routing survives.
*/
module UiRules {
  import opened Wrappers
  import opened Text

  /** A ruleset of the configuration; a missing field reads as "". */
  datatype Entry = Entry(path: string, upstream: string)

  /** An upstream group as stored; every field may be missing. */
  datatype Group = Group(servers: Option<seq<string>>, strategy: Option<string>, insecure: Option<bool>,
                         clientSubnet: Option<string>)

  datatype Config = Config(rulesets: seq<Entry>, groups: map<string, Group>)

  datatype UiRule = UiRule(rulesets: seq<string>, servers: seq<string>, strategy: string, insecure: bool,
                           clientSubnet: Option<string>)

  /** What a group means, whichever of its fields are missing or empty. */
  datatype View = View(servers: seq<string>, strategy: string, insecure: bool, clientSubnet: Option<string>)

  const DEFAULT: string := "default"
  const ROUND_ROBIN: string := "round_robin"
  const PROTO: string := "__proto__"
  const NO_FIELDS: Group := Group(None, None, None, None)
  const EMPTY_DEFAULT: Group := Group(Some([]), Some(ROUND_ROBIN), Some(false), None)

  /** `s || fallback`. */
  function Or(s: Option<string>, fallback: string): string
  {
    if s.Some? && s.value != "" then s.value else fallback
  }

  /** `s || null`. */
  function OrNull(s: Option<string>): Option<string>
  {
    if s == Some("") then None else s
  }

  /** Missing servers are none, a missing or empty strategy is round robin, an empty subnet is none. */
  ghost function ViewOf(g: Group): View
  {
    View(if g.servers == None then [] else g.servers.value,
         if g.strategy == None || g.strategy == Some("") then "round_robin" else g.strategy.value,
         g.insecure == Some(true),
         if g.clientSubnet == Some("") then None else g.clientSubnet)
  }

  /** `groups[upstream] || {}`. */
  function GroupAt(groups: map<string, Group>, upstream: string): Group
  {
    if upstream in groups then groups[upstream] else NO_FIELDS
  }

  /** The rule shown for a group, with no ruleset ticked yet. */
  function RuleFor(g: Group): UiRule
  {
    UiRule([], if g.servers.Some? then g.servers.value else [], Or(g.strategy, ROUND_ROBIN), g.insecure == Some(true),
           g.clientSubnet)
  }

  /** The group written for a rule. */
  function GroupFor(r: UiRule): Group
  {
    Group(Some(r.servers), Some(Or(Some(r.strategy), ROUND_ROBIN)), Some(r.insecure), OrNull(r.clientSubnet))
  }

  // ---------------------------------------------------------------- routing

  /** The upstream of each ruleset, as a view; `None` for a group that does not exist. */
  ghost function Resolve(rulesets: seq<Entry>, groups: map<string, Group>): (r: seq<(string, Option<View>)>)
    ensures |r| == |rulesets|
  {
    seq(|rulesets|, i requires 0 <= i < |rulesets| =>
      (rulesets[i].path, if rulesets[i].upstream in groups then Some(ViewOf(groups[rulesets[i].upstream])) else None))
  }

  /** The first entry whose ruleset matches. */
  function First(list: seq<(string, Option<View>)>, matching: set<string>): Option<Option<View>>
  {
    if list == [] then None
    else if list[0].0 in matching then Some(list[0].1)
    else First(list[1..], matching)
  }

  /** Where a query goes when exactly the rulesets at `matching` contain its name; `None` is the default group. */
  ghost function Route(config: Config, matching: set<string>): Option<Option<View>>
  {
    First(Resolve(config.rulesets, config.groups), matching)
  }

  // ---------------------------------------------------------------- strings

  predicate IsSlash(c: char)
  {
    c == '/' || c == '\\'
  }

  /** The last piece of `p.split(/[/\\]/)`. */
  function LastPiece(p: string): (r: string)
    ensures r == "" <==> p == "" || IsSlash(p[|p| - 1])
  {
    if p == "" || IsSlash(p[|p| - 1]) then "" else LastPiece(p[..|p| - 1]) + [p[|p| - 1]]
  }

  predicate HasDrsExtension(s: string)
  {
    && |s| >= 4 && s[|s| - 4] == '.' && LowerChar(s[|s| - 3]) == 'd'
    && LowerChar(s[|s| - 2]) == 'r' && LowerChar(s[|s| - 1]) == 's'
  }

  /** The file name without `.drs`; empty exactly for a path that names no file. */
  function BasenameNoExt(p: string): (r: string)
    ensures r == "" <==> p == "" || IsSlash(p[|p| - 1])
  {
    var base := LastPiece(p);
    if HasDrsExtension(base) && |base| > 4 then base[..|base| - 4] else base
  }

  predicate IsSpace(c: char)
  {
    var n := c as int;
    n == 32 || 9 <= n <= 13 || n == 0xA0 || n == 0x1680 || 0x2000 <= n <= 0x200A
    || n == 0x2028 || n == 0x2029 || n == 0x202F || n == 0x205F || n == 0x3000 || n == 0xFEFF
  }

  function Trim(s: string): string
  {
    if s == "" then ""
    else if IsSpace(s[0]) then Trim(s[1..])
    else if IsSpace(s[|s| - 1]) then Trim(s[..|s| - 1])
    else s
  }

  // ---------------------------------------------------------------- what those names are

  /** The extension that is cut off, in either case. */
  ghost predicate IsDrs(s: string)
  {
    |s| == 4 && s[0] == '.' && s[1] in {'d', 'D'} && s[2] in {'r', 'R'} && s[3] in {'s', 'S'}
  }

  lemma {:induction false} LastPieceIs(dir: string, base: string)
    requires dir == "" || dir[|dir| - 1] == '/' || dir[|dir| - 1] == '\\'
    requires '/' !in base && '\\' !in base
    ensures LastPiece(dir + base) == base
    decreases base
  {
    if base != "" {
      var last := base[|base| - 1];
      assert last in base;
      assert (dir + base)[..|dir + base| - 1] == dir + base[..|base| - 1];
      LastPieceIs(dir, base[..|base| - 1]);
      assert base == base[..|base| - 1] + [last];
    } else {
      assert dir + base == dir;
    }
  }

  lemma EndsInDrs(s: string)
    ensures HasDrsExtension(s) <==> |s| >= 4 && IsDrs(s[|s| - 4..])
  {
    if |s| >= 4 {
      var e := s[|s| - 4..];
      assert e[0] == s[|s| - 4] && e[1] == s[|s| - 3] && e[2] == s[|s| - 2] && e[3] == s[|s| - 1];
      LowerIsOneOf(e[1], 'd', 'D');
      LowerIsOneOf(e[2], 'r', 'R');
      LowerIsOneOf(e[3], 's', 'S');
      hide LowerChar;
    }
  }

  lemma LowerIsOneOf(c: char, low: char, up: char)
    requires 'a' <= low <= 'z' && up as int == low as int - 32
    ensures LowerChar(c) == low <==> c == low || c == up
  {
  }

  lemma DrsHasNoSlash(ext: string)
    requires IsDrs(ext)
    ensures '/' !in ext && '\\' !in ext && |ext| == 4
  {
  }

  /** A ruleset is called after the last piece of its path, without `.drs`. */
  lemma StemIs(dir: string, stem: string, ext: string)
    requires dir == "" || dir[|dir| - 1] == '/' || dir[|dir| - 1] == '\\'
    requires '/' !in stem && '\\' !in stem && stem != "" && IsDrs(ext)
    ensures BasenameNoExt(dir + (stem + ext)) == stem
  {
    hide LastPiece, HasDrsExtension, IsDrs;
    var base := stem + ext;
    DrsHasNoSlash(ext);
    LastPieceIs(dir, base);
    EndsInDrs(base);
    assert base[|base| - 4..] == ext && base[..|base| - 4] == stem;
  }

  /** A last piece without that extension, or with nothing before it, is kept whole. */
  lemma PieceIs(dir: string, piece: string)
    requires dir == "" || dir[|dir| - 1] == '/' || dir[|dir| - 1] == '\\'
    requires '/' !in piece && '\\' !in piece && (|piece| < 5 || !IsDrs(piece[|piece| - 4..]))
    ensures BasenameNoExt(dir + piece) == piece
  {
    hide LastPiece, HasDrsExtension, IsDrs;
    LastPieceIs(dir, piece);
    EndsInDrs(piece);
  }

  /** The code points that `trim` cuts. */
  ghost predicate IsBlank(code: int)
  {
    code in {9, 10, 11, 12, 13, 32, 0xa0, 0x1680, 0x2000, 0x2001, 0x2002, 0x2003, 0x2004, 0x2005, 0x2006, 0x2007,
             0x2008, 0x2009, 0x200a, 0x2028, 0x2029, 0x202f, 0x205f, 0x3000, 0xfeff}
  }

  lemma SpaceIsBlank(c: char)
    ensures IsSpace(c) <==> IsBlank(c as int)
  {
  }

  lemma {:induction false} TrimIs(s: string, front: string, text: string, back: string)
    requires s == front + text + back
    requires forall i | 0 <= i < |front| :: IsBlank(front[i] as int)
    requires forall i | 0 <= i < |back| :: IsBlank(back[i] as int)
    requires text != "" ==> !IsBlank(text[0] as int) && !IsBlank(text[|text| - 1] as int)
    ensures Trim(s) == text
    decreases s
  {
    hide IsSpace, IsBlank;
    if s != "" {
      SpaceIsBlank(s[0]);
      SpaceIsBlank(s[|s| - 1]);
      if front != "" {
        assert s[0] == front[0] && s[1..] == front[1..] + text + back;
        TrimIs(s[1..], front[1..], text, back);
      } else if text == "" {
        assert s == back && s[1..] == "" + "" + back[1..];
        TrimIs(s[1..], "", "", back[1..]);
      } else if back != "" {
        assert s[0] == text[0] && s[..|s| - 1] == "" + text + back[..|back| - 1];
        TrimIs(s[..|s| - 1], "", text, back[..|back| - 1]);
      } else {
        assert s == text;
      }
    }
  }

  // ---------------------------------------------------------------- the renaming loops

  ghost predicate Numbered(x: string, stem: string, from: nat)
  {
    exists j: nat :: from <= j && x == stem + Decimal(j)
  }

  /** The names in use that a renaming loop can still run into; the loops end because it shrinks. */
  ghost function Ahead(used: set<string>, stem: string, i: nat): set<string>
  {
    set x | x in used && Numbered(x, stem, i)
  }

  lemma AheadShrinks(used: set<string>, stem: string, i: nat)
    requires stem + Decimal(i) in used
    ensures Ahead(used, stem, i + 1) < Ahead(used, stem, i)
  {
    var x := stem + Decimal(i);
    assert Numbered(x, stem, i);
    assert x in Ahead(used, stem, i);
    if Numbered(x, stem, i + 1) {
      var j: nat :| i + 1 <= j && x == stem + Decimal(j);
      assert x[|stem|..] == Decimal(i) && x[|stem|..] == Decimal(j);
      DecimalInjective(i, j);
      assert false;
    }
  }

  /** The least free number from `i` on. */
  function FirstFree(used: set<string>, stem: string, i: nat): (n: nat)
    ensures i <= n && stem + Decimal(n) !in used
    ensures forall j | i <= j < n :: stem + Decimal(j) in used
    decreases Ahead(used, stem, i)
  {
    if stem + Decimal(i) in used then
      AheadShrinks(used, stem, i);
      FirstFree(used, stem, i + 1)
    else i
  }

  // ---------------------------------------------------------------- reading the configuration

  /** `catalogMap` (name to path) and `pathToName`. */
  datatype Naming = Naming(catalog: map<string, string>, names: map<string, string>)
  {
    /** The name a path goes by; "" when it has none. */
    function Of(path: string): string
    {
      if path in names then names[path] else ""
    }
  }

  function NewName(catalog: map<string, string>, path: string): string
  {
    var name := BasenameNoExt(path);
    if name in catalog && catalog[name] != path then name + "_" + Decimal(FirstFree(catalog.Keys, name + "_", 2))
    else name
  }

  /** A file's name is kept while it is free, else it gets the least number from 2 on that is free. */
  lemma NewNameIs(catalog: map<string, string>, path: string)
    ensures var stem, name := BasenameNoExt(path), NewName(catalog, path);
            if stem !in catalog || catalog[stem] == path then name == stem
            else exists n: nat :: n >= 2 && name == stem + "_" + Decimal(n) && name !in catalog
                                  && forall k | 2 <= k < n :: stem + "_" + Decimal(k) in catalog
  {
    hide BasenameNoExt, Decimal;
    var stem := BasenameNoExt(path);
    var n := FirstFree(catalog.Keys, stem + "_", 2);
    assert stem + "_" + Decimal(n) !in catalog;
    hide FirstFree;
  }

  function NamePath(n: Naming, path: string): Naming
  {
    if n.Of(path) == "" && path != "" then
      var name := NewName(n.catalog, path);
      Naming(n.catalog[name := path], n.names[path := name])
    else n
  }

  /** A rule under construction remembers its upstream. */
  datatype Draft = Draft(rule: UiRule, upstream: string)

  function AddEntry(drafts: seq<Draft>, name: string, upstream: string, g: Group): seq<Draft>
  {
    if drafts != [] && drafts[|drafts| - 1].upstream == upstream then
      var last := drafts[|drafts| - 1].rule;
      if name != "" && name !in last.rulesets then
        drafts[|drafts| - 1 := Draft(last.(rulesets := last.rulesets + [name]), upstream)]
      else drafts
    else drafts + [Draft(RuleFor(g).(rulesets := if name != "" then [name] else []), upstream)]
  }

  datatype Boot = Boot(naming: Naming, drafts: seq<Draft>)

  function ReadEntry(b: Boot, e: Entry, groups: map<string, Group>): Boot
  {
    var naming := NamePath(b.naming, e.path);
    Boot(naming, AddEntry(b.drafts, naming.Of(e.path), e.upstream, GroupAt(groups, e.upstream)))
  }

  function ReadEntries(rulesets: seq<Entry>, groups: map<string, Group>): Boot
  {
    if rulesets == [] then Boot(Naming(map[], map[]), [])
    else
      var last := |rulesets| - 1;
      ReadEntry(ReadEntries(rulesets[..last], groups), rulesets[last], groups)
  }

  function Rules(drafts: seq<Draft>): (rules: seq<UiRule>)
    ensures |rules| == |drafts|
  {
    seq(|drafts|, i requires 0 <= i < |drafts| => drafts[i].rule)
  }

  lemma NothingRead(groups: map<string, Group>)
    ensures ReadEntries([], groups) == Boot(Naming(map[], map[]), [])
  {
  }

  lemma OneMoreRead(rulesets: seq<Entry>, k: nat, groups: map<string, Group>)
    requires k < |rulesets|
    ensures ReadEntries(rulesets[..k + 1], groups) == ReadEntry(ReadEntries(rulesets[..k], groups), rulesets[k], groups)
  {
    assert rulesets[..k + 1][..k] == rulesets[..k];
  }

  method FromBackend(config: Config) returns (catalog: map<string, string>, dnsRules: seq<UiRule>)
    ensures var b := ReadEntries(config.rulesets, config.groups);
            catalog == b.naming.catalog && dnsRules == Rules(b.drafts)
  {
    hide BasenameNoExt, Decimal, RuleFor, GroupAt, Rules, ReadEntries, FirstFree;
    assert config.rulesets[..0] == [];
    NothingRead(config.groups);
    var catalogMap: map<string, string>, pathToName: map<string, string> := map[], map[];
    var rules: seq<Draft> := [];
    for k := 0 to |config.rulesets|
      invariant Boot(Naming(catalogMap, pathToName), rules) == ReadEntries(config.rulesets[..k], config.groups)
    {
      OneMoreRead(config.rulesets, k, config.groups);
      ghost var naming, drafts := Naming(catalogMap, pathToName), rules;
      var path, upstream := config.rulesets[k].path, config.rulesets[k].upstream;
      var name := if path in pathToName then pathToName[path] else "";
      if name == "" && path != "" {
        name := BasenameNoExt(path);
        if name in catalogMap && catalogMap[name] != path {
          ghost var used := catalogMap.Keys;
          var i := 2;
          while (name + "_" + Decimal(i)) in catalogMap
            invariant i >= 2 && FirstFree(used, name + "_", 2) == FirstFree(used, name + "_", i)
            decreases Ahead(used, name + "_", i)
          {
            AheadShrinks(used, name + "_", i);
            i := i + 1;
          }
          name := name + "_" + Decimal(i);
        }
        catalogMap := catalogMap[name := path];
        pathToName := pathToName[path := name];
      }
      assert Naming(catalogMap, pathToName) == NamePath(naming, path) && name == NamePath(naming, path).Of(path);
      var g := GroupAt(config.groups, upstream);
      if rules != [] && rules[|rules| - 1].upstream == upstream {
        var last := rules[|rules| - 1].rule;
        if name != "" && name !in last.rulesets {
          rules := rules[|rules| - 1 := Draft(last.(rulesets := last.rulesets + [name]), upstream)];
        }
      } else {
        rules := rules + [Draft(RuleFor(g).(rulesets := if name != "" then [name] else []), upstream)];
      }
      assert rules == AddEntry(drafts, name, upstream, g);
    }
    assert config.rulesets[..|config.rulesets|] == config.rulesets;
    catalog, dnsRules := catalogMap, Rules(rules);
  }

  // ---------------------------------------------------------------- writing it back

  function RuleName(index: nat): string
  {
    "rule-" + Decimal(index + 1)
  }

  function BaseName(rule: UiRule, index: nat): string
  {
    if rule.rulesets != [] && Trim(rule.rulesets[0]) != "" then Trim(rule.rulesets[0]) else RuleName(index)
  }

  function GroupName(rule: UiRule, index: nat, used: set<string>): (name: string)
    ensures name !in used
    ensures name == PROTO ==> BaseName(rule, index) == PROTO
  {
    var base := BaseName(rule, index);
    var name := if base == DEFAULT then RuleName(index) else base;
    assert RuleName(index)[0] == 'r';
    if name !in used then name
    else
      var finalName := base + "-" + Decimal(FirstFree(used, base + "-", 2));
      assert '0' <= finalName[|finalName| - 1] <= '9';
      finalName
  }

  /**
    A rule's group is called after its first ruleset, without blanks around it, or else by its position;
    the name `default` and names in use are avoided, with the least number from 2 on that is free.
    */
  lemma GroupNameIs(rule: UiRule, index: nat, used: set<string>, front: string, text: string, back: string)
    requires if rule.rulesets == [] then text == "" else rule.rulesets[0] == front + text + back
    requires forall i | 0 <= i < |front| :: IsBlank(front[i] as int)
    requires forall i | 0 <= i < |back| :: IsBlank(back[i] as int)
    requires text != "" ==> !IsBlank(text[0] as int) && !IsBlank(text[|text| - 1] as int)
    ensures var base := if text == "" then "rule-" + Decimal(index + 1) else text;
            var plain := if base == "default" then "rule-" + Decimal(index + 1) else base;
            var name := GroupName(rule, index, used);
            if plain !in used then name == plain
            else exists n: nat :: n >= 2 && name == base + "-" + Decimal(n) && base + "-" + Decimal(n) !in used
                                  && forall k | 2 <= k < n :: base + "-" + Decimal(k) in used
  {
    hide Trim, IsBlank, Decimal;
    if rule.rulesets != [] {
      TrimIs(rule.rulesets[0], front, text, back);
    }
    var base := BaseName(rule, index);
    var n := FirstFree(used, base + "-", 2);
    assert base + "-" + Decimal(n) !in used;
    hide FirstFree;
  }

  method GroupNameForRule(rule: UiRule, index: nat, used: set<string>) returns (name: string, usedNow: set<string>)
    ensures name == GroupName(rule, index, used) && usedNow == used + {name}
  {
    var base := BaseName(rule, index);
    name := base;
    if name == DEFAULT {
      name := RuleName(index);
    }
    if name !in used {
      usedNow := used + {name};
      return;
    }
    var i := 2;
    while (base + "-" + Decimal(i)) in used
      invariant i >= 2 && FirstFree(used, base + "-", 2) == FirstFree(used, base + "-", i)
      decreases Ahead(used, base + "-", i)
    {
      AheadShrinks(used, base + "-", i);
      i := i + 1;
    }
    name := base + "-" + Decimal(i);
    usedNow := used + {name};
  }

  /** `obj[key] = value`: assigning `__proto__` makes no property. */
  function SetProperty(groups: map<string, Group>, key: string, g: Group): map<string, Group>
  {
    if key == PROTO then groups else groups[key := g]
  }

  /** The rulesets of one rule that have a path. */
  function RuleEntries(names: seq<string>, pathOf: map<string, string>, group: string): seq<Entry>
  {
    if names == [] then []
    else
      var last := |names| - 1;
      RuleEntries(names[..last], pathOf, group)
      + if names[last] in pathOf && pathOf[names[last]] != "" then [Entry(pathOf[names[last]], group)] else []
  }

  datatype Draw = Draw(groups: map<string, Group>, rulesets: seq<Entry>, used: set<string>)

  function WriteRule(d: Draw, rule: UiRule, index: nat, pathOf: map<string, string>): Draw
  {
    var name := GroupName(rule, index, d.used);
    Draw(SetProperty(d.groups, name, GroupFor(rule)),
         d.rulesets + RuleEntries(rule.rulesets, pathOf, name),
         d.used + {name})
  }

  function DefaultOf(config: Config): Group
  {
    if DEFAULT in config.groups then config.groups[DEFAULT] else EMPTY_DEFAULT
  }

  function WriteRules(config: Config, pathOf: map<string, string>, rules: seq<UiRule>): Draw
  {
    if rules == [] then Draw(map[DEFAULT := DefaultOf(config)], [], {DEFAULT})
    else
      var last := |rules| - 1;
      WriteRule(WriteRules(config, pathOf, rules[..last]), rules[last], last, pathOf)
  }

  /** What is sent to the backend. */
  function Committed(config: Config, pathOf: map<string, string>, rules: seq<UiRule>): Config
  {
    var d := WriteRules(config, pathOf, rules);
    Config(d.rulesets, d.groups)
  }

  method CommitToConfig(config: Config, catalog: map<string, string>, dnsRules: seq<UiRule>) returns (next: Config)
    ensures next == Committed(config, catalog, dnsRules)
  {
    hide GroupFor, GroupName, SetProperty, DefaultOf;
    var nextGroups := map[DEFAULT := DefaultOf(config)];
    var nextRulesets: seq<Entry> := [];
    var usedNames := {DEFAULT};
    for index := 0 to |dnsRules|
      invariant Draw(nextGroups, nextRulesets, usedNames) == WriteRules(config, catalog, dnsRules[..index])
    {
      assert dnsRules[..index + 1][..index] == dnsRules[..index];
      var rule := dnsRules[index];
      var gName;
      gName, usedNames := GroupNameForRule(rule, index, usedNames);
      nextGroups := SetProperty(nextGroups, gName, GroupFor(rule));
      ghost var before := nextRulesets;
      for k := 0 to |rule.rulesets|
        invariant nextRulesets == before + RuleEntries(rule.rulesets[..k], catalog, gName)
      {
        assert rule.rulesets[..k + 1][..k] == rule.rulesets[..k];
        if rule.rulesets[k] in catalog && catalog[rule.rulesets[k]] != "" {
          nextRulesets := nextRulesets + [Entry(catalog[rule.rulesets[k]], gName)];
        }
      }
      assert rule.rulesets[..|rule.rulesets|] == rule.rulesets;
    }
    assert dnsRules[..|dnsRules|] == dnsRules;
    next := Config(nextRulesets, nextGroups);
  }
}
