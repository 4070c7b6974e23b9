/**
  From the text of an AdGuard rule to a ruleset entry (`parse_wildcard_or_plain`,
  src/ruleset/parser/adguard.rs), and which names the entry hits.
*/
module AdGuardRules {
  import opened Wrappers
  import opened Text
  import opened AdGuardGlob
  import opened DrsFiles
  import Bytes

  // ---------------------------------------------------------------- from rule text to entries

  /** `split(c).next()`. */
  function Before(s: string, c: char): string
  {
    if s == "" || s[0] == c then "" else [s[0]] + Before(s[1..], c)
  }

  /** The Unicode property White_Space, which `trim` cuts. */
  predicate IsSpace(c: char)
  {
    || '\U{0009}' <= c <= '\U{000D}' || c == ' ' || c == '\U{0085}' || c == '\U{00A0}' || c == '\U{1680}'
    || '\U{2000}' <= c <= '\U{200A}' || c == '\U{2028}' || c == '\U{2029}' || c == '\U{202F}' || c == '\U{205F}'
    || c == '\U{3000}'
  }

  function Trim(s: string): string
  {
    if s != "" && IsSpace(s[0]) then Trim(s[1..])
    else if s != "" && IsSpace(s[|s| - 1]) then Trim(s[..|s| - 1])
    else s
  }

  predicate LooksLikeDomain(s: string)
  {
    0 < |s| <= 253 && s[0] != '.' && s[|s| - 1] != '.' && forall c | c in s :: IsAlnum(c) || c == '.' || c == '-'
  }

  function NormalizeDomainStr(s: string): string
  {
    Lower(TrimEnd(s, '.'))
  }

  /** The part of a rule that names hosts. */
  function HostOf(s: string): string
  {
    Trim(TrimEnd(Before(Before(s, '/'), '^'), '|'))
  }

  /** `*.` followed by a plain domain, which becomes a suffix rule. */
  predicate StarSuffix(host: string)
  {
    StarDot(host) && var rest := TrimEnd(host[2..], '.'); rest != "" && '*' !in rest && LooksLikeDomain(rest)
  }

  /** The entry type and text that `parse_wildcard_or_plain` gives a rule. */
  function RuleFor(s: string, defaultType: EntryType, compiles: string -> bool): Option<(EntryType, string)>
  {
    var host := HostOf(s);
    if host == "" then None
    else if '*' !in host then
      var trimmed := TrimEnd(host, '.');
      if trimmed == "" || !LooksLikeDomain(trimmed) then None else Some((defaultType, NormalizeDomainStr(trimmed)))
    else if StarSuffix(host) then Some((defaultType, NormalizeDomainStr(TrimEnd(host[2..], '.'))))
    else if compiles(WildcardText(host)) then Some((ERegex, WildcardText(host)))
    else None
  }

  // ---------------------------------------------------------------- which rules are accepted

  /** The 25 code points of the Unicode property White_Space. */
  ghost predicate IsBlank(code: int)
  {
    code in {9, 10, 11, 12, 13, 32, 0x85, 0xa0, 0x1680, 0x2000, 0x2001, 0x2002, 0x2003, 0x2004, 0x2005, 0x2006,
             0x2007, 0x2008, 0x2009, 0x200a, 0x2028, 0x2029, 0x202f, 0x205f, 0x3000}
  }

  ghost predicate Blank(s: string)
  {
    forall i | 0 <= i < |s| :: IsBlank(s[i] as int)
  }

  /** A rule text cut into blanks, host, blanks, closing bars, and what `/` or `^` opens. */
  ghost predicate HostParts(s: string, front: string, host: string, back: string, bars: string, tail: string)
  {
    var head := front + host + back;
    && s == head + bars + tail
    && '/' !in head && '^' !in head && (tail != "" ==> tail[0] == '/' || tail[0] == '^')
    && (forall i | 0 <= i < |bars| :: bars[i] == '|') && (head != "" ==> head[|head| - 1] != '|')
    && Blank(front) && Blank(back)
    && (host != "" ==> !IsBlank(host[0] as int) && !IsBlank(host[|host| - 1] as int))
  }

  /** `host` is the host part of the rule text `s`. */
  ghost predicate IsHost(s: string, host: string)
  {
    exists front, back, bars, tail :: HostParts(s, front, host, back, bars, tail)
  }

  /** 1 to 253 letters, digits, hyphens and dots, with no dot at either end. */
  ghost predicate PlainName(t: string)
  {
    && 1 <= |t| <= 253 && t[0] != '.' && t[|t| - 1] != '.'
    && forall i | 0 <= i < |t| ::
         var c := t[i] as int; 48 <= c <= 57 || 65 <= c <= 90 || 97 <= c <= 122 || c == 45 || c == 46
  }

  /** The host is the plain name `t`, with dots behind it or without. */
  ghost predicate PlainHost(host: string, t: string)
  {
    t <= host && (forall i | |t| <= i < |host| :: host[i] == '.') && PlainName(t)
  }

  /** `low` is `t` with its letters A to Z in lower case. */
  ghost predicate LowerOf(t: string, low: string)
  {
    && |low| == |t|
    && forall i | 0 <= i < |t| ::
         var c := t[i] as int; low[i] as int == if 65 <= c <= 90 then c + 32 else c
  }

  ghost predicate GivesName(r: Option<(EntryType, string)>, ty: EntryType, t: string)
  {
    r.Some? && r.value.0 == ty && LowerOf(t, r.value.1)
  }

  /**
    What becomes of a host: a plain name, also behind `*.`, is kept in lower case under the default
    type; other texts with `*` become a regex if it compiles; nothing else is accepted.
    */
  ghost predicate Outcome(host: string, defaultType: EntryType, compiles: string -> bool,
                          r: Option<(EntryType, string)>)
  {
    if exists t :: PlainHost(host, t) then forall t | PlainHost(host, t) :: GivesName(r, defaultType, t)
    else if "*." <= host && exists t :: PlainHost(host[2..], t)
    then forall t | PlainHost(host[2..], t) :: GivesName(r, defaultType, t)
    else if '*' in host && compiles(WildcardText(host)) then r == Some((ERegex, WildcardText(host)))
    else r == None
  }

  lemma {:induction false} BeforeCuts(s: string, c: char)
    ensures var r := Before(s, c); r <= s && c !in r && (|r| < |s| ==> s[|r|] == c)
  {
    if s != "" && s[0] != c {
      BeforeCuts(s[1..], c);
      var r := Before(s[1..], c);
      assert s == [s[0]] + s[1..] && s[1..][..|r|] == r;
      assert |r| < |s[1..]| ==> s[1 + |r|] == s[1..][|r|];
    }
  }

  lemma SpacesAreBlanks(c: char)
    ensures IsSpace(c) <==> IsBlank(c as int)
  {
  }

  lemma BlankInFront(s: string, front: string, mid: string, back: string)
    requires s != "" && IsBlank(s[0] as int) && s[1..] == front + mid + back && Blank(front)
    ensures s == [s[0]] + front + mid + back && Blank([s[0]] + front)
  {
    hide IsBlank;
    assert s == [s[0]] + s[1..];
  }

  lemma BlankBehind(s: string, front: string, mid: string, back: string)
    requires s != "" && IsBlank(s[|s| - 1] as int) && s[..|s| - 1] == front + mid + back && Blank(back)
    ensures s == front + mid + (back + [s[|s| - 1]]) && Blank(back + [s[|s| - 1]])
  {
    hide IsBlank;
    assert s == s[..|s| - 1] + [s[|s| - 1]];
  }

  lemma {:induction false} TrimCuts(s: string) returns (front: string, back: string)
    ensures s == front + Trim(s) + back && Blank(front) && Blank(back)
    ensures var r := Trim(s); r != "" ==> !IsBlank(r[0] as int) && !IsBlank(r[|r| - 1] as int)
  {
    hide IsSpace, IsBlank, Blank;
    front, back := "", "";
    NothingBlank();
    if s != "" {
      SpacesAreBlanks(s[0]);
      SpacesAreBlanks(s[|s| - 1]);
      if IsSpace(s[0]) {
        front, back := TrimCuts(s[1..]);
        BlankInFront(s, front, Trim(s), back);
        front := [s[0]] + front;
      } else if IsSpace(s[|s| - 1]) {
        front, back := TrimCuts(s[..|s| - 1]);
        BlankBehind(s, front, Trim(s), back);
        back := back + [s[|s| - 1]];
      }
    }
  }

  lemma NothingBlank()
    ensures Blank("")
  {
  }

  lemma HostOfIsHost(s: string)
    ensures IsHost(s, HostOf(s))
  {
    hide Before, TrimEnd, Trim;
    var slash := Before(s, '/');
    var caret := Before(slash, '^');
    var head := TrimEnd(caret, '|');
    BeforeCuts(s, '/');
    BeforeCuts(slash, '^');
    TrimEndCuts(caret, '|');
    var front, back := TrimCuts(head);
    var bars, tail := caret[|head|..], s[|caret|..];
    assert s == head + bars + tail;
    assert forall c | c in head :: c in caret && c in slash;
    assert HostParts(s, front, HostOf(s), back, bars, tail);
  }

  lemma {:induction false} TrimIs(s: string, front: string, host: string, back: string)
    requires s == front + host + back && Blank(front) && Blank(back)
    requires host != "" ==> !IsBlank(host[0] as int) && !IsBlank(host[|host| - 1] as int)
    ensures Trim(s) == host
    decreases s
  {
    hide IsSpace, IsBlank;
    if s != "" {
      SpacesAreBlanks(s[0]);
      SpacesAreBlanks(s[|s| - 1]);
      if front != "" {
        assert s[0] == front[0] && s[1..] == front[1..] + host + back;
        TrimIs(s[1..], front[1..], host, back);
      } else if host == "" {
        assert s == back && s[1..] == "" + "" + back[1..];
        TrimIs(s[1..], "", "", back[1..]);
      } else if back != "" {
        assert s[0] == host[0] && s[..|s| - 1] == "" + host + back[..|back| - 1];
        TrimIs(s[..|s| - 1], "", host, back[..|back| - 1]);
      } else {
        assert s == host;
      }
    }
  }

  lemma SameCut(s: string, a: string, b: string)
    requires a <= s && (forall i | 0 <= i < |a| :: a[i] != '/' && a[i] != '^')
    requires b <= s && (forall i | 0 <= i < |b| :: b[i] != '/' && b[i] != '^')
    requires |a| < |s| ==> s[|a|] == '/' || s[|a|] == '^'
    requires |b| < |s| ==> s[|b|] == '/' || s[|b|] == '^'
    ensures a == b
  {
  }

  lemma HostOfOnly(s: string, host: string)
    requires IsHost(s, host)
    ensures host == HostOf(s)
  {
    hide Before, TrimEnd, Trim, Blank;
    var front, back, bars, tail :| HostParts(s, front, host, back, bars, tail);
    var slash := Before(s, '/');
    var caret := Before(slash, '^');
    var head := front + host + back;
    var kept := head + bars;
    BeforeCuts(s, '/');
    BeforeCuts(slash, '^');
    assert forall i | 0 <= i < |head| :: head[i] in head;
    assert forall i | 0 <= i < |caret| :: caret[i] in caret && caret[i] in slash;
    SameCut(s, caret, kept);
    TrimEndIs(caret, '|', head);
    TrimIs(head, front, host, back);
  }

  lemma LooksLikeIsPlain(host: string)
    ensures LooksLikeDomain(TrimEnd(host, '.')) <==> exists t :: PlainHost(host, t)
    ensures forall t | PlainHost(host, t) :: t == TrimEnd(host, '.')
  {
    hide TrimEnd;
    var trimmed := TrimEnd(host, '.');
    TrimEndCuts(host, '.');
    forall t | PlainHost(host, t)
      ensures t == trimmed
    {
      TrimEndIs(host, '.', t);
    }
    if LooksLikeDomain(trimmed) {
      assert forall i | 0 <= i < |trimmed| :: trimmed[i] in trimmed;
      assert PlainHost(host, trimmed);
    }
  }

  lemma NormalizedIsLower(t: string)
    requires t != "" && t[|t| - 1] != '.'
    ensures LowerOf(t, NormalizeDomainStr(t))
  {
    hide Lower;
    TrimEndIs(t, '.', t);
    forall i | 0 <= i < |t|
      ensures var c := t[i] as int; Lower(t)[i] as int == if 65 <= c <= 90 then c + 32 else c
    {
      LowerLetters(t, i);
    }
  }

  /** Which rules are accepted, and as what. */
  lemma RuleOutcome(s: string, defaultType: EntryType, compiles: string -> bool)
    ensures forall host :: IsHost(s, host) <==> host == HostOf(s)
    ensures Outcome(HostOf(s), defaultType, compiles, RuleFor(s, defaultType, compiles))
  {
    HostOfIsHost(s);
    forall host | IsHost(s, host) ensures host == HostOf(s) {
      HostOfOnly(s, host);
    }
    HostOutcome(HostOf(s), s, defaultType, compiles);
  }

  lemma HostOutcome(host: string, s: string, defaultType: EntryType, compiles: string -> bool)
    requires host == HostOf(s)
    ensures Outcome(host, defaultType, compiles, RuleFor(s, defaultType, compiles))
  {
    hide HostOf, WildcardText, TrimEnd, PlainName, LowerOf, NormalizeDomainStr;
    LooksLikeIsPlain(host);
    TrimEndCuts(host, '.');
    var trimmed := TrimEnd(host, '.');
    if LooksLikeDomain(trimmed) {
      assert '*' !in trimmed;
      NormalizedIsLower(trimmed);
    }
    if StarDot(host) {
      var rest := TrimEnd(host[2..], '.');
      LooksLikeIsPlain(host[2..]);
      TrimEndCuts(host[2..], '.');
      if LooksLikeDomain(rest) {
        assert '*' !in rest;
        NormalizedIsLower(rest);
      }
    }
  }

  // ---------------------------------------------------------------- what a rule means

  lemma {:induction false} LiteralGlob(g: string, s: string)
    requires '*' !in g
    ensures GlobMatches(g, s) <==> s == g
    ensures Relaxed(false, g) == g
  {
    if g != "" {
      assert g[0] in g;
      if s != "" {
        LiteralGlob(g[1..], s[1..]);
      } else {
        LiteralGlob(g[1..], "");
      }
    }
  }

  /**
    A rule `*.rest` becomes the suffix rule for `rest`. On names without empty labels that is
    what the compiled regex would have meant, so the shortcut changes no answer.
    */
  lemma StarSuffixIsItsRegex(rest: string, s: string)
    requires '*' !in rest && OneLine(s) && NoEmptyLabel(s)
    ensures IsMatch(WildRegex("*." + rest), s) <==> s == rest || Bytes.EndsWith(s, "." + rest)
  {
    var g := "*." + rest;
    assert g[2..] == rest;
    WildcardMeaning(g, s);
    LiteralGlob(rest, s);
    forall t ensures GlobMatches(rest, t) <==> t == rest {
      LiteralGlob(rest, t);
    }
    AfterSomeDot(rest, s);
  }

  lemma AfterSomeDot(rest: string, s: string)
    ensures Bytes.EndsWith(s, "." + rest) <==> exists k | 0 <= k < |s| :: s[k] == '.' && s[k + 1..] == rest
  {
    if Bytes.EndsWith(s, "." + rest) {
      var k := |s| - |rest| - 1;
      assert s[k] == s[k..][0] && s[k + 1..] == s[k..][1..];
    }
    if exists k | 0 <= k < |s| :: s[k] == '.' && s[k + 1..] == rest {
      var k :| 0 <= k < |s| && s[k] == '.' && s[k + 1..] == rest;
      assert s[k..] == "." + rest;
    }
  }

  // ---------------------------------------------------------------- what an entry hits

  /** The types that `parse` passes for rules without `^`-anchored exactness. */
  predicate IsSuffixType(ty: EntryType)
  {
    ty == ESuffix || ty == EExcludeSuffix
  }

  /** The names that a ruleset entry hits: a suffix with its subdomains, an exact name, or what a regex finds. */
  ghost predicate EntryHits(ty: EntryType, text: string, d: string)
  {
    match ty
    case ESuffix => d == text || Bytes.EndsWith(d, "." + text)
    case EExcludeSuffix => d == text || Bytes.EndsWith(d, "." + text)
    case EDomain => d == text
    case EExcludeDomain => d == text
    case ERegex => ReadRegex(text).Some? && IsMatch(ReadRegex(text).value, d)
    case EExcludeRegex => ReadRegex(text).Some? && IsMatch(ReadRegex(text).value, d)
    case _ => false
  }

  /** The names that a host pattern stands for, in terms of globs alone. */
  ghost predicate RuleMeans(host: string, d: string)
  {
    if '*' !in host then SelfOrSubdomain(NormalizeDomainStr(TrimEnd(host, '.')), d)
    else if StarSuffix(host) then SelfOrSubdomain(NormalizeDomainStr(TrimEnd(host[2..], '.')), d)
    else if StarDot(host) then SelfOrSubdomain(Relaxed(false, host[2..]), d)
    else GlobMatches(Relaxed(true, host), d)
  }

  lemma {:induction false} LowerKeepsOut(s: string, c: char)
    requires c !in s && LowerChar(c) == c && !('a' <= c <= 'z')
    ensures c !in Lower(s)
  {
    if s != "" {
      assert s[0] in s;
      LowerKeepsOut(s[1..], c);
    }
  }

  lemma {:induction false} TrimEndParts(s: string, x: char)
    ensures forall c | c in TrimEnd(s, x) :: c in s
  {
    if s != "" && s[|s| - 1] == x {
      TrimEndParts(s[..|s| - 1], x);
    }
  }

  /** Without `*`, a glob stands for one name, and with its subdomains for a suffix. */
  lemma LiteralSuffix(g: string, d: string)
    requires '*' !in g
    ensures SelfOrSubdomain(g, d) <==> d == g || Bytes.EndsWith(d, "." + g)
  {
    forall t ensures GlobMatches(g, t) <==> t == g {
      LiteralGlob(g, t);
    }
    AfterSomeDot(g, d);
  }

  lemma NormalizedIsLiteral(s: string)
    requires '*' !in s
    ensures '*' !in NormalizeDomainStr(TrimEnd(s, '.'))
  {
    TrimEndParts(s, '.');
    TrimEndParts(TrimEnd(s, '.'), '.');
    LowerKeepsOut(TrimEnd(TrimEnd(s, '.'), '.'), '*');
  }

  lemma {:induction false} TrimmedStar(s: string)
    requires '*' !in TrimEnd(s, '.')
    ensures '*' !in s
  {
    if s != "" && s[|s| - 1] == '.' {
      TrimmedStar(s[..|s| - 1]);
      assert s == s[..|s| - 1] + ['.'];
    }
  }

  /**
    The entry made for a rule hits exactly the names that its host pattern stands for, whether it
    became a suffix rule or a regex.
    */
  lemma RuleHitsWhatItMeans(s: string, defaultType: EntryType, compiles: string -> bool, d: string)
    requires RuleFor(s, defaultType, compiles).Some? && IsSuffixType(defaultType) && GlobText(HostOf(s))
    requires OneLine(d) && NoEmptyLabel(d)
    ensures var (ty, text) := RuleFor(s, defaultType, compiles).value;
            EntryHits(ty, text, d) <==> RuleMeans(HostOf(s), d)
  {
    var host := HostOf(s);
    hide HostOf;
    if '*' !in host {
      NormalizedIsLiteral(host);
      LiteralSuffix(NormalizeDomainStr(TrimEnd(host, '.')), d);
    } else if StarSuffix(host) {
      TrimmedStar(host[2..]);
      NormalizedIsLiteral(host[2..]);
      LiteralSuffix(NormalizeDomainStr(TrimEnd(host[2..], '.')), d);
    } else {
      WildRegexText(host);
      WildcardMeaning(host, d);
    }
  }

  // ---------------------------------------------------------------- letter case

  lemma {:induction false} LowerAt(s: string, i: nat)
    requires i < |s|
    ensures Lower(s)[i] == LowerChar(s[i])
  {
    if i > 0 {
      LowerAt(s[1..], i - 1);
    }
  }

  lemma LowerFixed(s: string)
    ensures Lower(s) == s <==> forall c | c in s :: LowerChar(c) == c
  {
    forall i | 0 <= i < |s|
      ensures Lower(s)[i] == LowerChar(s[i])
    {
      LowerAt(s, i);
    }
    if forall c | c in s :: LowerChar(c) == c {
      assert forall i | 0 <= i < |s| :: s[i] in s;
    }
  }

  /** The compiled atoms keep every character of the glob but stars and dots as a literal. */
  lemma {:induction false} LiteralsKept(atStart: bool, g: string, c: char)
    requires c in g && c != '*' && c != '.'
    ensures Lit(c) in WildAtoms(atStart, g)
    decreases g
  {
    if atStart && StarDot(g) {
      assert g == [g[0], g[1]] + g[2..];
      LiteralsKept(false, g[2..], c);
    } else if g[0] != c {
      assert g == [g[0]] + g[1..];
      LiteralsKept(g[0] == '*', g[1..], c);
    }
  }

  lemma {:induction false} MatchHasLiterals(atoms: seq<Atom>, s: string, c: char)
    requires Lit(c) in atoms && Matches(atoms, s)
    ensures c in s
    decreases atoms
  {
    if atoms[0] != Lit(c) {
      var rest := atoms[1..];
      assert Lit(c) in rest;
      match atoms[0]
      case Lit(_) => MatchHasLiterals(rest, s[1..], c);
      case AnyStar =>
        var k :| 0 <= k <= |s| && Matches(rest, s[k..]);
        MatchHasLiterals(rest, s[k..], c);
      case LabelStar =>
        var k :| 0 <= k <= |s| && Matches(rest, s[k..]);
        MatchHasLiterals(rest, s[k..], c);
      case OptDot =>
        if Matches(rest, s) {
          MatchHasLiterals(rest, s, c);
        } else {
          MatchHasLiterals(rest, s[1..], c);
        }
    }
  }

  /** A compiled wildcard with an upper-case letter finds no lower-case name at all. */
  lemma UpperCaseHitsNothing(g: string, d: string)
    requires Lower(g) != g && Lower(d) == d
    ensures !IsMatch(WildRegex(g), d)
  {
    LowerFixed(g);
    LowerFixed(d);
    var c :| c in g && LowerChar(c) != c;
    LiteralsKept(true, g, c);
    if Matches(WildAtoms(true, g), d) {
      MatchHasLiterals(WildAtoms(true, g), d, c);
    }
  }

  lemma {:induction false} ShortestParts(atStart: bool, g: string)
    ensures forall c | c in Shortest(WildAtoms(atStart, g)) :: c in g
    decreases g
  {
    if g != "" {
      if atStart && StarDot(g) {
        var rest, opt := WildAtoms(false, g[2..]), if |g| > 2 && g[2] != '*' then [OptDot] else [];
        var all := WildAtoms(atStart, g);
        assert all == [LabelStar] + (opt + rest) && all[1..] == opt + rest;
        assert opt == [] ==> opt + rest == rest;
        assert opt != [] ==> (opt + rest)[1..] == rest;
        assert Shortest(all) == Shortest(opt + rest) == Shortest(rest);
        ShortestParts(false, g[2..]);
        assert forall c | c in g[2..] :: c in g;
      } else {
        var all, rest := WildAtoms(atStart, g), WildAtoms(g[0] == '*', g[1..]);
        assert all[1..] == rest;
        ShortestParts(g[0] == '*', g[1..]);
        assert forall c | c in g[1..] :: c in g;
      }
    }
  }

  /**
    Plain hosts are lower-cased, compiled wildcards are not: the regex finds the lower-case texts
    that the lower-cased pattern stands for exactly when the pattern has no upper-case letter.
    */
  lemma WildcardKeepsCaseIff(g: string)
    requires OneLine(g)
    ensures (forall d | OneLine(d) && Lower(d) == d :: IsMatch(WildRegex(g), d) <==> IsMatch(WildRegex(Lower(g)), d))
       <==> Lower(g) == g
  {
    if Lower(g) != g {
      var low := Lower(g);
      var d := Shortest(WildAtoms(true, low));
      LowerIsLow(g);
      ShortestMatches(WildAtoms(true, low));
      ShortestParts(true, low);
      LowerFixed(low);
      LowerFixed(d);
      LowerKeepsOut(g, '\n');
      UpperCaseHitsNothing(g, d);
      assert IsMatch(WildRegex(low), d) && OneLine(d);
    }
  }

  lemma {:induction false} LowerIsLow(s: string)
    ensures Lower(Lower(s)) == Lower(s)
  {
    if s != "" {
      LowerIsLow(s[1..]);
    }
  }

  /** `parse_wildcard_or_plain`. */
  method ParseWildcardOrPlain(s: string, defaultType: EntryType, compiles: string -> bool)
    returns (r: Option<(EntryType, string)>)
    ensures r == RuleFor(s, defaultType, compiles)
    ensures forall host :: IsHost(s, host) <==> host == HostOf(s)
    ensures Outcome(HostOf(s), defaultType, compiles, r)
    ensures r.Some? && IsSuffixType(defaultType) && GlobText(HostOf(s)) ==>
              forall d | OneLine(d) && NoEmptyLabel(d) :: EntryHits(r.value.0, r.value.1, d)
                  <==> RuleMeans(HostOf(s), d)
  {
    if RuleFor(s, defaultType, compiles).Some? && IsSuffixType(defaultType) && GlobText(HostOf(s)) {
      forall d | OneLine(d) && NoEmptyLabel(d)
        ensures EntryHits(RuleFor(s, defaultType, compiles).value.0, RuleFor(s, defaultType, compiles).value.1, d)
           <==> RuleMeans(HostOf(s), d)
      {
        RuleHitsWhatItMeans(s, defaultType, compiles, d);
      }
    }
    RuleOutcome(s, defaultType, compiles);
    hide EntryHits, RuleMeans, HostOf, WildcardText, IsHost, Outcome;
    var host := HostOf(s);
    if host == "" {
      return None;
    }
    if '*' !in host {
      var trimmed := TrimEnd(host, '.');
      if trimmed == "" || !LooksLikeDomain(trimmed) {
        return None;
      }
      return Some((defaultType, NormalizeDomainStr(trimmed)));
    }
    if StarDot(host) {
      var rest := TrimEnd(host[2..], '.');
      if rest != "" && '*' !in rest && LooksLikeDomain(rest) {
        return Some((defaultType, NormalizeDomainStr(rest)));
      }
    }
    var pattern := BuildWildcardRegex(host);
    return if compiles(pattern) then Some((ERegex, pattern)) else None;
  }

  // ---------------------------------------------------------------- exceptions

  /**
    An exception keeps its kind exactly when its host has no `*` or is `*.` and a plain domain.
    Every other exception becomes a blocking regex, which hits the names it was to except.
    */
  lemma ExceptionKeepsKindIff(s: string, compiles: string -> bool)
    requires RuleFor(s, EExcludeSuffix, compiles).Some? && GlobText(HostOf(s))
    ensures var (ty, text) := RuleFor(s, EExcludeSuffix, compiles).value;
            && ty == (if '*' !in HostOf(s) || StarSuffix(HostOf(s)) then EExcludeSuffix else ERegex)
            && forall d | OneLine(d) && NoEmptyLabel(d) :: EntryHits(ty, text, d) <==> RuleMeans(HostOf(s), d)
  {
    forall d | OneLine(d) && NoEmptyLabel(d)
      ensures EntryHits(RuleFor(s, EExcludeSuffix, compiles).value.0, RuleFor(s, EExcludeSuffix, compiles).value.1, d)
         <==> RuleMeans(HostOf(s), d)
    {
      RuleHitsWhatItMeans(s, EExcludeSuffix, compiles, d);
    }
    hide EntryHits, RuleMeans, HostOf, WildcardText;
  }

  /** The exception `@@||**.org` blocks names under `org` instead of excepting them. */
  lemma ExceptionThatBlocks()
    ensures RuleFor("**.org", EExcludeSuffix, _ => true) == Some((ERegex, WildcardText("**.org")))
    ensures EntryHits(ERegex, WildcardText("**.org"), "w.org")
  {
    hide *;
    ExampleRule();
    ExampleText();
    ExampleName();
  }

  lemma ExampleRule()
    ensures RuleFor("**.org", EExcludeSuffix, _ => true) == Some((ERegex, WildcardText("**.org")))
  {
    hide HostOf, WildcardText;
    var g := "**.org";
    assert g[0] == '*' && g[1] == '*' && g[5] == 'g';
    HostItself(g);
  }

  lemma ExampleText()
    ensures EntryHits(ERegex, WildcardText("**.org"), "w.org") <==> IsMatch(WildRegex("**.org"), "w.org")
  {
    hide WildcardText, IsMatch, WildRegex, ReadRegex;
    WildRegexText("**.org");
  }

  lemma ExampleName()
    ensures IsMatch(WildRegex("**.org"), "w.org")
  {
    hide GlobMatches, IsMatch, WildRegex;
    DoubleStarMatches("w", ".org");
    assert "**" + ".org" == "**.org" && "w" + ".org" == "w.org";
    WildcardAcceptsGlob("**.org", "w.org");
  }

  lemma HostItself(g: string)
    requires g != "" && '/' !in g && '^' !in g && g[|g| - 1] != '|' && !IsSpace(g[0]) && !IsSpace(g[|g| - 1])
    ensures HostOf(g) == g
  {
    BeforeNone(g, '/');
    BeforeNone(g, '^');
  }

  lemma DoubleStarMatches(front: string, tail: string)
    requires '*' !in tail
    ensures GlobMatches("**" + tail, front + tail)
  {
    var g, s := "**" + tail, front + tail;
    LiteralGlob(tail, tail);
    assert g[1..][1..] == tail && s[0..] == s && s[|front|..] == tail;
    assert GlobMatches(g[1..], s);
  }

  lemma {:induction false} BeforeNone(p: string, c: char)
    requires c !in p
    ensures Before(p, c) == p
  {
    if p != "" {
      assert p[0] in p;
      BeforeNone(p[1..], c);
    }
  }
}
