/**
  The AdGuard wildcard compiler (src/ruleset/parser/adguard.rs): globs are translated to the
  text of a small regex, and the text is given its meaning by a reader for that fragment.
*/
module AdGuardGlob {
  import opened Wrappers
  import Bytes

  // ---------------------------------------------------------------- the regex fragment

  /** `c`, `.*`, `(?:[^.]+\.)*` and `(?:\.)?`. */
  datatype Atom = Lit(c: char) | AnyStar | LabelStar | OptDot

  /** `atoms$`, with a leading `^` when anchored. */
  datatype Regex = Regex(anchored: bool, atoms: seq<Atom>)

  const LABEL_STAR := "(?:[^.]+\\.)*"
  const OPT_DOT := "(?:\\.)?"

  predicate IsAlnum(c: char)
  {
    'a' <= c <= 'z' || 'A' <= c <= 'Z' || '0' <= c <= '9'
  }

  predicate IsPlain(c: char)
  {
    IsAlnum(c) || c == '-' || c == '_'
  }

  /** Characters that a regex accepts behind a backslash as themselves. */
  predicate IsEscapable(c: char)
  {
    c < '\U{007F}' && !IsAlnum(c) && c != '<' && c != '>'
  }

  /** Unescaped, these have a meaning of their own in a regex. */
  predicate IsMeta(c: char)
  {
    c in "\\.+*?()|[]{}^$"
  }

  /** ASCII but letters, digits, `<`, `>` and DEL: a backslash in front of these makes them literal. */
  predicate ReadsEscaped(c: char)
  {
    var n := c as int;
    n < 127 && !(48 <= n <= 57) && !(65 <= n <= 90) && !(97 <= n <= 122) && n != 60 && n != 62
  }

  /** The reader: regex text to atoms, `None` outside the fragment. It shares no text with the compilers. */
  function ReadAtoms(text: string): Option<seq<Atom>>
  {
    if text == "$" then Some([])
    else if "(?:[^.]+\\.)*" <= text then Cons(LabelStar, ReadAtoms(text[12..]))
    else if "(?:\\.)?" <= text then Cons(OptDot, ReadAtoms(text[7..]))
    else if ".*" <= text then Cons(AnyStar, ReadAtoms(text[2..]))
    else if |text| >= 2 && text[0] == '\\' && ReadsEscaped(text[1]) then Cons(Lit(text[1]), ReadAtoms(text[2..]))
    else if text != "" && !IsMeta(text[0]) then Cons(Lit(text[0]), ReadAtoms(text[1..]))
    else None
  }

  function Cons(a: Atom, rest: Option<seq<Atom>>): Option<seq<Atom>>
  {
    match rest
    case None => None
    case Some(atoms) => Some([a] + atoms)
  }

  function ReadRegex(text: string): Option<Regex>
  {
    var anchored := text != "" && text[0] == '^';
    match ReadAtoms(if anchored then text[1..] else text)
    case None => None
    case Some(atoms) => Some(Regex(anchored, atoms))
  }

  /** Zero or more non-empty labels, each closed by a dot. */
  ghost predicate Labels(s: string)
  {
    s == "" || exists j | 0 < j < |s| :: s[j] == '.' && '.' !in s[..j] && Labels(s[j + 1..])
  }

  /** The atoms match exactly `s`. */
  ghost predicate Matches(atoms: seq<Atom>, s: string)
    decreases atoms
  {
    if atoms == [] then s == ""
    else
      var rest := atoms[1..];
      match atoms[0]
      case Lit(c) => s != "" && s[0] == c && Matches(rest, s[1..])
      case AnyStar => exists k | 0 <= k <= |s| :: '\n' !in s[..k] && Matches(rest, s[k..])
      case LabelStar => exists k | 0 <= k <= |s| :: Labels(s[..k]) && Matches(rest, s[k..])
      case OptDot => Matches(rest, s) || (s != "" && s[0] == '.' && Matches(rest, s[1..]))
  }

  /** `is_match`: an unanchored regex may start anywhere. */
  ghost predicate IsMatch(r: Regex, s: string)
  {
    if r.anchored then Matches(r.atoms, s) else exists i | 0 <= i <= |s| :: Matches(r.atoms, s[i..])
  }

  // ---------------------------------------------------------------- globs

  /** `*` stands for any string, every other character for itself. */
  ghost predicate GlobMatches(g: string, s: string)
    decreases g
  {
    if g == "" then s == ""
    else if g[0] == '*' then exists k | 0 <= k <= |s| :: GlobMatches(g[1..], s[k..])
    else s != "" && s[0] == g[0] && GlobMatches(g[1..], s[1..])
  }

  predicate GlobChar(c: char)
  {
    c == '*' || IsPlain(c) || IsEscapable(c)
  }

  ghost predicate GlobText(g: string)
  {
    forall c | c in g :: GlobChar(c)
  }

  /** `split('*')`. */
  function SplitStars(g: string): (parts: seq<string>)
    ensures |parts| > 0
    ensures forall p | p in parts :: '*' !in p
    ensures forall p, c | p in parts && c in p :: c in g
  {
    if g == "" then [""]
    else
      var rest := SplitStars(g[1..]);
      if g[0] == '*' then [""] + rest
      else
        assert rest[0] in rest;
        [[g[0]] + rest[0]] + rest[1..]
  }

  function JoinStars(parts: seq<string>): string
    requires |parts| > 0
  {
    if |parts| == 1 then parts[0] else parts[0] + "*" + JoinStars(parts[1..])
  }

  lemma {:induction false} JoinSplit(g: string)
    ensures JoinStars(SplitStars(g)) == g
  {
    if g != "" {
      JoinSplit(g[1..]);
      var rest := SplitStars(g[1..]);
      if g[0] == '*' {
        assert ([""] + rest)[1..] == rest;
      } else if |rest| > 1 {
        assert ([[g[0]] + rest[0]] + rest[1..])[1..] == rest[1..];
      }
    }
  }

  // ---------------------------------------------------------------- regex text

  function EscapeChar(c: char): string
  {
    if c == '.' then "\\."
    else if c == '-' || c == '_' then [c]
    else if IsAlnum(c) then [c]
    else ['\\', c]
  }

  function Escape(s: string): string
  {
    if s == "" then "" else Escape(s[..|s| - 1]) + EscapeChar(s[|s| - 1])
  }

  /** `escape_regex_range`: appends the escaped text to `out`. */
  method EscapeRegexRange(s: string, out: string) returns (r: string)
    ensures r == out + Escape(s)
  {
    r := out;
    for i := 0 to |s|
      invariant r == out + Escape(s[..i])
    {
      var c := s[i];
      assert s[..i + 1][..i] == s[..i];
      if c == '.' {
        r := r + "\\.";
      } else if c == '-' || c == '_' {
        r := r + [c];
      } else if IsAlnum(c) {
        r := r + [c];
      } else {
        r := r + ['\\'];
        r := r + [c];
      }
    }
    assert s[..|s|] == s;
  }

  function AtomText(a: Atom): string
  {
    match a
    case Lit(c) => EscapeChar(c)
    case AnyStar => ".*"
    case LabelStar => LABEL_STAR
    case OptDot => OPT_DOT
  }

  function Render(atoms: seq<Atom>): string
  {
    if atoms == [] then "" else AtomText(atoms[0]) + Render(atoms[1..])
  }

  function Lits(s: string): seq<Atom>
  {
    if s == "" then [] else [Lit(s[0])] + Lits(s[1..])
  }

  lemma {:induction false} RenderConcat(a: seq<Atom>, b: seq<Atom>)
    ensures Render(a + b) == Render(a) + Render(b)
  {
    if a == [] {
      assert [] + b == b;
    } else {
      assert (a + b)[1..] == a[1..] + b;
      RenderConcat(a[1..], b);
    }
  }

  lemma {:induction false} LitsSnoc(s: string, c: char)
    ensures Lits(s + [c]) == Lits(s) + [Lit(c)]
  {
    if s == "" {
      assert "" + [c] == [c];
    } else {
      assert (s + [c])[1..] == s[1..] + [c];
      LitsSnoc(s[1..], c);
    }
  }

  lemma {:induction false} RenderLits(s: string)
    ensures Render(Lits(s)) == Escape(s)
  {
    if s != "" {
      var front, c := s[..|s| - 1], s[|s| - 1];
      assert s == front + [c];
      RenderLits(front);
      LitsSnoc(front, c);
      RenderConcat(Lits(front), [Lit(c)]);
      assert Render([Lit(c)]) == AtomText(Lit(c)) + Render([]);
    }
  }

  ghost predicate Readable(atoms: seq<Atom>)
  {
    forall a | a in atoms :: a.Lit? ==> IsPlain(a.c) || IsEscapable(a.c)
  }

  lemma ReadOne(a: Atom, rest: string)
    requires a.Lit? ==> IsPlain(a.c) || IsEscapable(a.c)
    ensures ReadAtoms(AtomText(a) + rest) == Cons(a, ReadAtoms(rest))
  {
    var text := AtomText(a) + rest;
    assert text[|AtomText(a)|..] == rest;
    assert LABEL_STAR[0] == '(' && LABEL_STAR[3] == '[' && OPT_DOT[0] == '(' && OPT_DOT[3] == '\\';
    assert text[0] == AtomText(a)[0];
    if a.OptDot? {
      assert text[3] == OPT_DOT[3];
    }
    if a.Lit? && |AtomText(a)| == 2 {
      assert text[1] == a.c;
    }
  }

  /** The reader recovers what was rendered, so escaping loses nothing. */
  lemma {:induction false} ReadRender(atoms: seq<Atom>)
    requires Readable(atoms)
    ensures ReadAtoms(Render(atoms) + "$") == Some(atoms)
  {
    if atoms == [] {
      assert "" + "$" == "$";
    } else {
      var a, rest := atoms[0], atoms[1..];
      assert a in atoms && Readable(rest);
      ReadRender(rest);
      assert Render(atoms) + "$" == AtomText(a) + (Render(rest) + "$");
      ReadOne(a, Render(rest) + "$");
      assert [a] + rest == atoms;
    }
  }

  // ---------------------------------------------------------------- the two compilers

  /** What `build_wildcard_end_anchored` emits from part `i` on. */
  function EndPieces(parts: seq<string>, i: nat): seq<Atom>
    requires i <= |parts|
    decreases |parts| - i
  {
    if i == |parts| then []
    else (if i > 0 then [AnyStar] else []) + Lits(parts[i]) + EndPieces(parts, i + 1)
  }

  /** The `*` before part `i` is compiled to whole labels. */
  predicate SpecialAt(parts: seq<string>, i: nat)
    requires 0 < i < |parts|
  {
    parts[i - 1] == "" && parts[i] != "" && parts[i][0] == '.'
  }

  function WildPiece(parts: seq<string>, i: nat): seq<Atom>
    requires i < |parts|
  {
    if i == 0 then Lits(parts[0])
    else if SpecialAt(parts, i) then
      var rest := parts[i][1..];
      [LabelStar] + if rest == "" then [] else [OptDot] + Lits(rest)
    else [AnyStar] + Lits(parts[i])
  }

  /** What `build_wildcard_regex` emits from part `i` on. */
  function WildPieces(parts: seq<string>, i: nat): seq<Atom>
    requires i <= |parts|
    decreases |parts| - i
  {
    if i == |parts| then [] else WildPiece(parts, i) + WildPieces(parts, i + 1)
  }

  lemma EndStep(parts: seq<string>, i: nat)
    requires i < |parts|
    ensures Render(EndPieces(parts, i)) ==
            (if i > 0 then ".*" else "") + Escape(parts[i]) + Render(EndPieces(parts, i + 1))
  {
    var stars := if i > 0 then [AnyStar] else [];
    RenderConcat(stars + Lits(parts[i]), EndPieces(parts, i + 1));
    RenderConcat(stars, Lits(parts[i]));
    RenderLits(parts[i]);
    assert Render([AnyStar]) == ".*" + Render([]);
  }

  /** `build_wildcard_end_anchored`. */
  method BuildWildcardEndAnchored(body: string) returns (out: string)
    ensures out == Render(EndPieces(SplitStars(body), 0)) + "$"
  {
    var parts := SplitStars(body);
    assert Render(EndPieces(parts, |parts|)) == "";
    hide Render, EndPieces, Escape;
    out := "";
    for i := 0 to |parts|
      invariant out + Render(EndPieces(parts, i)) == Render(EndPieces(parts, 0))
    {
      EndStep(parts, i);
      ghost var star := if i > 0 then ".*" else "";
      Bytes.Associative(out, star + Escape(parts[i]), Render(EndPieces(parts, i + 1)));
      Bytes.Associative(out, star, Escape(parts[i]));
      if i > 0 {
        out := out + ".*";
      }
      out := EscapeRegexRange(parts[i], out);
    }
    out := out + "$";
  }

  /** The text of one piece of `build_wildcard_regex`. */
  function WildText(parts: seq<string>, i: nat): string
    requires i < |parts|
  {
    if i == 0 then Escape(parts[0])
    else if SpecialAt(parts, i) then LABEL_STAR + if parts[i][1..] == "" then "" else OPT_DOT + Escape(parts[i][1..])
    else ".*" + Escape(parts[i])
  }

  lemma WildStep(parts: seq<string>, i: nat)
    requires i < |parts|
    ensures Render(WildPieces(parts, i)) == WildText(parts, i) + Render(WildPieces(parts, i + 1))
  {
    RenderConcat(WildPiece(parts, i), WildPieces(parts, i + 1));
    RenderLits(parts[i]);
    if i > 0 && SpecialAt(parts, i) {
      var rest := parts[i][1..];
      RenderLits(rest);
      assert WildPiece(parts, i)[1..] == if rest == "" then [] else [OptDot] + Lits(rest);
      if rest != "" {
        assert ([OptDot] + Lits(rest))[1..] == Lits(rest);
      }
    }
  }

  /** The text that `build_wildcard_regex` writes. */
  function WildcardText(g: string): string
  {
    "^" + Render(WildPieces(SplitStars(g), 0)) + "$"
  }

  /** `build_wildcard_regex`. */
  method BuildWildcardRegex(domain: string) returns (out: string)
    ensures out == WildcardText(domain)
  {
    hide *;
    var parts := SplitStars(domain);
    out := "^";
    ghost var target := out + Render(WildPieces(parts, 0));
    for i := 0 to |parts|
      invariant out + Render(WildPieces(parts, i)) == target
    {
      WildStep(parts, i);
      Bytes.Associative(out, WildText(parts, i), Render(WildPieces(parts, i + 1)));
      out := EmitWildPiece(parts, i, out);
    }
    AllEmitted(domain, out);
    out := out + "$";
  }

  lemma AllEmitted(g: string, out: string)
    requires out + Render(WildPieces(SplitStars(g), |SplitStars(g)|)) == "^" + Render(WildPieces(SplitStars(g), 0))
    ensures out + "$" == WildcardText(g)
  {
    assert out + "" == out;
  }

  /** The body of the loop over the parts. */
  method EmitWildPiece(parts: seq<string>, i: nat, out: string) returns (r: string)
    requires i < |parts|
    ensures r == out + WildText(parts, i)
  {
    hide Escape;
    r := out;
    if i > 0 {
      if parts[i - 1] == "" && parts[i] != "" && parts[i][0] == '.' {
        var rest := parts[i][1..];
        r := r + LABEL_STAR;
        if rest != "" {
          Bytes.Associative(r, OPT_DOT, Escape(rest));
          r := r + OPT_DOT;
          r := EscapeRegexRange(rest, r);
        }
      } else {
        Bytes.Associative(r, ".*", Escape(parts[i]));
        r := r + ".*";
        r := EscapeRegexRange(parts[i], r);
      }
    } else {
      r := EscapeRegexRange(parts[i], r);
    }
  }

  // ---------------------------------------------------------------- compiled atoms, character by character

  /** A glob with every `*` read as `.*`. */
  function PlainAtoms(g: string): seq<Atom>
  {
    if g == "" then [] else [if g[0] == '*' then AnyStar else Lit(g[0])] + PlainAtoms(g[1..])
  }

  /** Does a rule `*.` start here, given that the current part is empty so far? */
  predicate StarDot(g: string)
  {
    |g| >= 2 && g[0] == '*' && g[1] == '.'
  }

  /** `build_wildcard_regex` on the rest of a glob; `atStart` says that the current part is empty so far. */
  function WildAtoms(atStart: bool, g: string): seq<Atom>
    decreases g
  {
    if g == "" then []
    else if atStart && StarDot(g) then
      [LabelStar] + (if |g| > 2 && g[2] != '*' then [OptDot] else []) + WildAtoms(false, g[2..])
    else if g[0] == '*' then [AnyStar] + WildAtoms(true, g[1..])
    else [Lit(g[0])] + WildAtoms(false, g[1..])
  }

  lemma {:induction false} PlainAtomsConcat(p: string, g: string)
    requires '*' !in p
    ensures PlainAtoms(p + g) == Lits(p) + PlainAtoms(g)
  {
    if p == "" {
      assert "" + g == g;
    } else {
      assert (p + g)[1..] == p[1..] + g;
      assert p[0] in p;
      PlainAtomsConcat(p[1..], g);
    }
  }

  lemma {:induction false} WildAtomsConcat(atStart: bool, p: string, g: string)
    requires '*' !in p
    ensures WildAtoms(atStart, p + g) == Lits(p) + WildAtoms(atStart && p == "", g)
  {
    if p == "" {
      assert "" + g == g;
    } else {
      assert (p + g)[1..] == p[1..] + g;
      assert p[0] in p;
      WildAtomsConcat(false, p[1..], g);
    }
  }

  function RestOf(parts: seq<string>, i: nat): string
    requires i <= |parts|
  {
    if i == |parts| then "" else "*" + JoinStars(parts[i..])
  }

  lemma RestStep(parts: seq<string>, i: nat)
    requires i < |parts|
    ensures RestOf(parts, i) == "*" + (parts[i] + RestOf(parts, i + 1))
  {
    assert parts[i..][1..] == parts[i + 1..];
  }

  lemma {:induction false} EndPiecesArePlain(parts: seq<string>, i: nat)
    requires 0 < i <= |parts| && forall p | p in parts :: '*' !in p
    ensures EndPieces(parts, i) == PlainAtoms(RestOf(parts, i))
    decreases |parts| - i
  {
    if i < |parts| {
      RestStep(parts, i);
      EndPiecesArePlain(parts, i + 1);
      var g := RestOf(parts, i);
      assert g[1..] == parts[i] + RestOf(parts, i + 1);
      PlainAtomsConcat(parts[i], RestOf(parts, i + 1));
      Bytes.Associative([AnyStar], Lits(parts[i]), EndPieces(parts, i + 1));
    }
  }

  lemma {:induction false} WildPiecesAreWild(parts: seq<string>, i: nat)
    requires 0 < i <= |parts| && forall p | p in parts :: '*' !in p
    ensures WildPieces(parts, i) == WildAtoms(parts[i - 1] == "", RestOf(parts, i))
    decreases |parts| - i
  {
    if i < |parts| {
      RestStep(parts, i);
      WildPiecesAreWild(parts, i + 1);
      WildPieceIsWild(parts[i - 1] == "", parts[i], RestOf(parts, i + 1));
      var p, next := parts[i], RestOf(parts, i + 1);
      if SpecialAt(parts, i) {
        var opt := if p[1..] == "" then [] else [OptDot];
        assert WildPiece(parts, i) == [LabelStar] + opt + Lits(p[1..]);
        Bytes.Associative([LabelStar] + opt, Lits(p[1..]), WildPieces(parts, i + 1));
      } else {
        Bytes.Associative([AnyStar], Lits(p), WildPieces(parts, i + 1));
      }
    }
  }

  lemma WildPieceIsWild(atStart: bool, p: string, next: string)
    requires '*' !in p && (next == "" || next[0] == '*')
    ensures var g := "*" + (p + next);
            if atStart && p != "" && p[0] == '.' then
              WildAtoms(atStart, g) ==
                [LabelStar] + (if p[1..] == "" then [] else [OptDot]) + (Lits(p[1..]) + WildAtoms(false, next))
            else
              WildAtoms(atStart, g) == [AnyStar] + (Lits(p) + WildAtoms(p == "", next))
  {
    var g := "*" + (p + next);
    assert g[1..] == p + next;
    if atStart && p != "" && p[0] == '.' {
      assert g[2..] == p[1..] + next;
      assert p[1..] != "" ==> g[2] == p[1] && p[1] in p;
      WildAtomsConcat(false, p[1..], next);
    } else {
      assert p != "" ==> g[1] == p[0];
      WildAtomsConcat(true, p, next);
    }
  }

  lemma EndPiecesFirst(parts: seq<string>)
    requires parts != []
    ensures EndPieces(parts, 0) == Lits(parts[0]) + EndPieces(parts, 1)
  {
    assert [] + Lits(parts[0]) == Lits(parts[0]);
    hide Lits;
  }

  lemma EndAtoms(g: string)
    ensures EndPieces(SplitStars(g), 0) == PlainAtoms(g)
  {
    var parts := SplitStars(g);
    assert parts[0] in parts;
    FirstAndRest(g);
    hide *;
    EndPiecesFirst(parts);
    EndPiecesArePlain(parts, 1);
    PlainAtomsConcat(parts[0], RestOf(parts, 1));
  }

  lemma FirstAndRest(g: string)
    ensures g == SplitStars(g)[0] + RestOf(SplitStars(g), 1)
  {
    var parts := SplitStars(g);
    JoinSplit(g);
    assert parts[0..] == parts;
    hide SplitStars;
  }

  lemma WildAtomsOf(g: string)
    ensures WildPieces(SplitStars(g), 0) == WildAtoms(true, g)
  {
    var parts := SplitStars(g);
    JoinSplit(g);
    assert parts[0] in parts;
    WildPiecesAreWild(parts, 1);
    assert g == parts[0] + RestOf(parts, 1);
    WildAtomsConcat(true, parts[0], RestOf(parts, 1));
  }

  // ---------------------------------------------------------------- meaning

  /** Names and the glob's own strings hold no line break, which `.` would not match. */
  predicate OneLine(s: string)
  {
    '\n' !in s
  }

  /** With every `*` read as `.*`, the atoms match what the glob matches. */
  lemma {:induction false} PlainAtomsMatch(g: string, s: string)
    requires OneLine(s)
    ensures Matches(PlainAtoms(g), s) <==> GlobMatches(g, s)
    decreases g
  {
    if g != "" {
      var rest := PlainAtoms(g[1..]);
      assert PlainAtoms(g)[1..] == rest;
      if g[0] == '*' {
        forall k | 0 <= k <= |s|
          ensures Matches(rest, s[k..]) <==> GlobMatches(g[1..], s[k..])
        {
          PlainAtomsMatch(g[1..], s[k..]);
        }
      } else if s != "" {
        PlainAtomsMatch(g[1..], s[1..]);
      }
    }
  }

  ghost predicate SomeSuffixMatches(g: string, s: string)
  {
    exists i | 0 <= i <= |s| :: GlobMatches(g, s[i..])
  }

  lemma {:induction false} PlainAtomsReadable(g: string)
    requires GlobText(g)
    ensures Readable(PlainAtoms(g))
  {
    if g != "" {
      assert g[0] in g;
      assert GlobText(g[1..]);
      PlainAtomsReadable(g[1..]);
    }
  }

  lemma NoCaret(atoms: seq<Atom>)
    ensures var text := Render(atoms) + "$"; text[0] != '^'
  {
    if atoms != [] {
      assert (Render(atoms) + "$")[0] == AtomText(atoms[0])[0];
    }
  }

  /** The end-anchored compiler: the regex read from its text finds exactly the names with a matching suffix. */
  lemma EndAnchoredMeaning(body: string, s: string)
    requires GlobText(body) && OneLine(s)
    ensures var text := Render(EndPieces(SplitStars(body), 0)) + "$";
            && ReadRegex(text) == Some(Regex(false, PlainAtoms(body)))
            && (IsMatch(Regex(false, PlainAtoms(body)), s) <==> SomeSuffixMatches(body, s))
  {
    EndAtoms(body);
    PlainAtomsReadable(body);
    ReadRender(PlainAtoms(body));
    NoCaret(PlainAtoms(body));
    forall i | 0 <= i <= |s|
      ensures Matches(PlainAtoms(body), s[i..]) <==> GlobMatches(body, s[i..])
    {
      PlainAtomsMatch(body, s[i..]);
    }
  }

  lemma {:induction false} WildAtomsReadable(atStart: bool, g: string)
    requires GlobText(g)
    ensures Readable(WildAtoms(atStart, g))
    decreases g
  {
    if g != "" {
      assert g[0] in g && GlobText(g[1..]);
      if atStart && StarDot(g) {
        assert GlobText(g[2..]);
        WildAtomsReadable(false, g[2..]);
      } else {
        WildAtomsReadable(g[0] == '*', g[1..]);
      }
    }
  }

  /** The regex that `build_wildcard_regex` writes for `g`. */
  function WildRegex(g: string): Regex
  {
    Regex(true, WildAtoms(true, g))
  }

  lemma WildRegexText(g: string)
    requires GlobText(g)
    ensures ReadRegex(WildcardText(g)) == Some(WildRegex(g))
  {
    var atoms := WildAtoms(true, g);
    WildAtomsOf(g);
    WildAtomsReadable(true, g);
    AnchoredText(g, Render(atoms) + "$");
    hide Render, WildAtoms, Readable, ReadAtoms, WildcardText, GlobText;
    ReadRender(atoms);
  }

  /** The anchored text is the rendering behind a `^`, which the reader takes off. */
  lemma AnchoredText(g: string, body: string)
    requires body == Render(WildPieces(SplitStars(g), 0)) + "$" || body == Render(WildAtoms(true, g)) + "$"
    requires WildPieces(SplitStars(g), 0) == WildAtoms(true, g)
    ensures WildcardText(g) == "^" + body
    ensures ReadRegex("^" + body)
         == match ReadAtoms(body) case None => None case Some(atoms) => Some(Regex(true, atoms))
  {
    hide Render, WildPieces, WildAtoms, SplitStars, ReadAtoms;
    assert ("^" + body)[1..] == body && ("^" + body)[0] == '^';
  }

  // ---------------------------------------------------------------- the label rule

  /** The glob with the dot of every `**.` dropped: what is left once `.*` has swallowed it. */
  function Relaxed(atStart: bool, g: string): string
    decreases g
  {
    if g == "" then ""
    else if atStart && StarDot(g) then Relaxed(false, g[2..])
    else [g[0]] + Relaxed(g[0] == '*', g[1..])
  }

  ghost predicate SomeTailMatches(atoms: seq<Atom>, s: string)
  {
    exists k | 0 <= k <= |s| :: Matches(atoms, s[k..])
  }

  lemma StarTakesPrefix(atoms: seq<Atom>, s: string)
    requires OneLine(s)
    ensures Matches([AnyStar] + atoms, s) <==> SomeTailMatches(atoms, s)
  {
    assert ([AnyStar] + atoms)[1..] == atoms;
    if SomeTailMatches(atoms, s) {
      var k :| 0 <= k <= |s| && Matches(atoms, s[k..]);
      assert '\n' !in s[..k];
    }
  }

  /** The atoms of the label rule can match nothing. */
  lemma LabelAtomsIdle(rest: seq<Atom>, opt: bool, t: string)
    requires Matches(rest, t)
    ensures Matches([LabelStar] + (if opt then [OptDot] else []) + rest, t)
  {
    var dots := if opt then [OptDot] else [];
    var all := [LabelStar] + dots + rest;
    assert all[1..] == dots + rest && (opt ==> (dots + rest)[1..] == rest) && (!opt ==> dots + rest == rest);
    assert Matches(dots + rest, t);
    assert t[..0] == "" && t[0..] == t && Labels(t[..0]);
  }

  /** Whatever they match, the rest matches a tail. */
  lemma LabelAtomsTake(rest: seq<Atom>, opt: bool, t: string) returns (j: nat)
    requires Matches([LabelStar] + (if opt then [OptDot] else []) + rest, t)
    ensures j <= |t| && Matches(rest, t[j..])
  {
    var dots := if opt then [OptDot] else [];
    var all := [LabelStar] + dots + rest;
    assert all[1..] == dots + rest && (opt ==> (dots + rest)[1..] == rest) && (!opt ==> dots + rest == rest);
    j :| 0 <= j <= |t| && Labels(t[..j]) && Matches(dots + rest, t[j..]);
    hide Labels;
    if opt && !Matches(rest, t[j..]) {
      assert t[j..][1..] == t[j + 1..];
      j := j + 1;
    }
  }

  /** Behind `.*`, the atoms of the label rule add nothing. */
  lemma StarAbsorbsLabels(rest: seq<Atom>, opt: bool, s: string)
    ensures SomeTailMatches([LabelStar] + (if opt then [OptDot] else []) + rest, s) <==> SomeTailMatches(rest, s)
  {
    hide Matches;
    var all := [LabelStar] + (if opt then [OptDot] else []) + rest;
    if SomeTailMatches(rest, s) {
      var k :| 0 <= k <= |s| && Matches(rest, s[k..]);
      LabelAtomsIdle(rest, opt, s[k..]);
      assert Matches(all, s[k..]);
    }
    if SomeTailMatches(all, s) {
      var k :| 0 <= k <= |s| && Matches(all, s[k..]);
      var j := LabelAtomsTake(rest, opt, s[k..]);
      assert s[k..][j..] == s[k + j..];
    }
  }

  /** The compiled atoms match exactly the relaxed glob, from the first `*` or literal on. */
  lemma {:induction false} WildAtomsMatch(g: string, s: string)
    requires OneLine(s)
    ensures Matches(WildAtoms(false, g), s) <==> GlobMatches(Relaxed(false, g), s)
    decreases g, 1
  {
    if g != "" {
      var rest := WildAtoms(g[0] == '*', g[1..]);
      var relaxed := Relaxed(g[0] == '*', g[1..]);
      assert WildAtoms(false, g)[1..] == rest && Relaxed(false, g)[1..] == relaxed;
      if g[0] == '*' {
        StarTakesPrefix(rest, s);
        WildTailsMatch(g[1..], s);
      } else if s != "" {
        WildAtomsMatch(g[1..], s[1..]);
      }
    }
  }

  /** The same behind a `*`, where some tail of the name is to be matched. */
  lemma {:induction false} WildTailsMatch(g: string, s: string)
    requires OneLine(s)
    ensures SomeTailMatches(WildAtoms(true, g), s) <==> SomeSuffixMatches(Relaxed(true, g), s)
    decreases g, 2
  {
    if StarDot(g) {
      StarAbsorbsLabels(WildAtoms(false, g[2..]), |g| > 2 && g[2] != '*', s);
      forall k | 0 <= k <= |s|
        ensures Matches(WildAtoms(false, g[2..]), s[k..]) <==> GlobMatches(Relaxed(false, g[2..]), s[k..])
      {
        WildAtomsMatch(g[2..], s[k..]);
      }
    } else {
      assert WildAtoms(true, g) == WildAtoms(false, g) && Relaxed(true, g) == Relaxed(false, g);
      forall k | 0 <= k <= |s|
        ensures Matches(WildAtoms(true, g), s[k..]) <==> GlobMatches(Relaxed(true, g), s[k..])
      {
        WildAtomsMatch(g, s[k..]);
      }
    }
  }

  // ---------------------------------------------------------------- names without empty labels

  /** No label of the name is empty. */
  predicate NoEmptyLabel(s: string)
  {
    s != "" && forall i | 0 <= i < |s| && s[i] == '.' :: 0 < i && i + 1 < |s| && s[i - 1] != '.'
  }

  predicate DoubleDot(t: string, i: nat)
  {
    0 < i < |t| && t[i - 1] == '.' && t[i] == '.'
  }

  /** `Labels` without its existential. */
  ghost predicate Dotted(t: string)
  {
    t == "" || (t[0] != '.' && t[|t| - 1] == '.' && forall i: nat :: !DoubleDot(t, i))
  }

  function FirstDot(t: string): (j: nat)
    requires '.' in t
    ensures j < |t| && t[j] == '.' && '.' !in t[..j]
  {
    if t[0] == '.' then 0
    else
      var j := FirstDot(t[1..]);
      assert t[..j + 1] == [t[0]] + t[1..][..j];
      j + 1
  }

  lemma {:induction false} LabelsAreDotted(t: string)
    ensures Labels(t) <==> Dotted(t)
    decreases t
  {
    if Labels(t) && t != "" {
      var j :| 0 < j < |t| && t[j] == '.' && '.' !in t[..j] && Labels(t[j + 1..]);
      LabelsAreDotted(t[j + 1..]);
      DottedGrows(t, j);
    }
    if Dotted(t) && t != "" {
      assert t[|t| - 1] in t;
      var j := FirstDot(t);
      DottedShrinks(t, j);
      LabelsAreDotted(t[j + 1..]);
    }
  }

  lemma DottedGrows(t: string, j: nat)
    requires 0 < j < |t| && t[j] == '.' && '.' !in t[..j] && Dotted(t[j + 1..])
    ensures Dotted(t)
  {
    var rest := t[j + 1..];
    assert forall i | 0 <= i < j :: t[i] == t[..j][i] && t[i] != '.';
    assert rest != "" ==> t[j + 1] == rest[0] && t[|t| - 1] == rest[|rest| - 1];
    forall i: nat
      ensures !DoubleDot(t, i)
    {
      if i > j + 1 && i < |t| {
        assert !DoubleDot(rest, i - (j + 1));
      }
    }
  }

  lemma DottedShrinks(t: string, j: nat)
    requires Dotted(t) && 0 <= j < |t| && t[j] == '.'
    ensures Dotted(t[j + 1..])
  {
    var rest := t[j + 1..];
    assert rest != "" ==> rest[0] == t[j + 1] && rest[|rest| - 1] == t[|t| - 1];
    assert !DoubleDot(t, j + 1);
    forall i: nat
      ensures !DoubleDot(rest, i)
    {
      assert !DoubleDot(t, i + j + 1);
    }
  }

  /** The name itself or what follows one of its dots. */
  ghost predicate SelfOrSubdomain(g: string, s: string)
  {
    GlobMatches(g, s) || exists k | 0 <= k < |s| :: s[k] == '.' && GlobMatches(g, s[k + 1..])
  }

  /** Does a label begin at `j`? */
  predicate LabelStart(s: string, j: nat)
  {
    j == 0 || (j <= |s| && s[j - 1] == '.')
  }

  /** Whole labels can be cut off a name without empty labels exactly where a label begins. */
  lemma LabelsEndBeforeLabel(s: string, j: nat)
    requires NoEmptyLabel(s) && j <= |s|
    ensures Labels(s[..j]) <==> LabelStart(s, j)
  {
    var t := s[..j];
    LabelsAreDotted(t);
    hide Labels;
    if j > 0 {
      assert t[j - 1] == s[j - 1] && t[0] == s[0];
      forall i: nat
        ensures !DoubleDot(t, i)
      {
        if 0 < i < j {
          assert t[i] == s[i] && t[i - 1] == s[i - 1];
        }
      }
    }
  }

  /** In front of anything but a dot, `(?:\.)?` matches nothing. */
  lemma OptDotIdle(rest: seq<Atom>, t: string)
    requires t == "" || t[0] != '.'
    ensures Matches([OptDot] + rest, t) <==> Matches(rest, t)
  {
    assert ([OptDot] + rest)[1..] == rest;
  }

  /** The atoms of a leading `*.`, cut before the label where the rest begins. */
  lemma LabelStarMatches(after: seq<Atom>, s: string)
    requires NoEmptyLabel(s)
    ensures Matches([LabelStar] + after, s) <==> exists j | 0 <= j <= |s| :: LabelStart(s, j) && Matches(after, s[j..])
  {
    assert ([LabelStar] + after)[1..] == after;
    forall j | 0 <= j <= |s|
      ensures Labels(s[..j]) <==> LabelStart(s, j)
    {
      LabelsEndBeforeLabel(s, j);
    }
    hide Labels, LabelStart;
  }

  lemma LeadingAtoms(g: string)
    requires StarDot(g)
    ensures var opt := if |g| > 2 && g[2] != '*' then [OptDot] else [];
            WildAtoms(true, g) == [LabelStar] + (opt + WildAtoms(false, g[2..]))
  {
  }

  /** On names without empty labels, a leading `*.` is compiled to "this name or a subdomain of it". */
  lemma LeadingStarDot(g: string, s: string)
    requires OneLine(s) && NoEmptyLabel(s) && StarDot(g)
    ensures Matches(WildAtoms(true, g), s) <==> SelfOrSubdomain(Relaxed(false, g[2..]), s)
  {
    var rest, r := WildAtoms(false, g[2..]), Relaxed(false, g[2..]);
    var opt := if |g| > 2 && g[2] != '*' then [OptDot] else [];
    LeadingAtoms(g);
    LabelStarMatches(opt + rest, s);
    assert [] + rest == rest;
    forall j | 0 <= j <= |s| && LabelStart(s, j)
      ensures Matches(opt + rest, s[j..]) <==> GlobMatches(r, s[j..])
    {
      OptDotIdle(rest, s[j..]);
      WildAtomsMatch(g[2..], s[j..]);
    }
    hide WildAtoms, Relaxed, Matches, GlobMatches;
    SelfOrAfterDot(r, s);
  }

  lemma SelfOrAfterDot(g: string, s: string)
    ensures SelfOrSubdomain(g, s) <==> exists j | 0 <= j <= |s| :: LabelStart(s, j) && GlobMatches(g, s[j..])
  {
    hide GlobMatches;
    assert s[0..] == s;
    if SelfOrSubdomain(g, s) {
      if GlobMatches(g, s) {
        assert LabelStart(s, 0) && GlobMatches(g, s[0..]);
      } else {
        var k :| 0 <= k < |s| && s[k] == '.' && GlobMatches(g, s[k + 1..]);
        assert LabelStart(s, k + 1);
      }
    }
    if j :| 1 <= j <= |s| && LabelStart(s, j) && GlobMatches(g, s[j..]) {
      var k := j - 1;
      assert s[k] == '.' && GlobMatches(g, s[k + 1..]);
    }
  }

  /** The exact language of `build_wildcard_regex` on names without empty labels. */
  lemma WildcardMeaning(g: string, s: string)
    requires OneLine(s) && NoEmptyLabel(s)
    ensures IsMatch(WildRegex(g), s) <==>
            if StarDot(g) then SelfOrSubdomain(Relaxed(false, g[2..]), s) else GlobMatches(Relaxed(true, g), s)
  {
    if StarDot(g) {
      LeadingStarDot(g, s);
    } else {
      assert WildAtoms(true, g) == WildAtoms(false, g) && Relaxed(true, g) == Relaxed(false, g);
      WildAtomsMatch(g, s);
    }
  }

  lemma {:induction false} GlobInRelaxed(g: string, s: string)
    requires GlobMatches(g, s)
    ensures GlobMatches(Relaxed(false, g), s)
    decreases g, 1
  {
    if g != "" {
      assert Relaxed(false, g)[1..] == Relaxed(g[0] == '*', g[1..]);
      if g[0] == '*' {
        assert SomeSuffixMatches(g[1..], s);
        GlobTailInRelaxed(g[1..], s);
      } else {
        GlobInRelaxed(g[1..], s[1..]);
      }
    }
  }

  lemma {:induction false} GlobTailInRelaxed(g: string, s: string)
    requires SomeSuffixMatches(g, s)
    ensures SomeSuffixMatches(Relaxed(true, g), s)
    decreases g, 2
  {
    var i :| 0 <= i <= |s| && GlobMatches(g, s[i..]);
    if StarDot(g) {
      var k := AfterStarDot(g, s[i..]);
      assert s[i..][k + 1..] == s[i + k + 1..];
      GlobInRelaxed(g[2..], s[i + k + 1..]);
    } else {
      assert Relaxed(true, g) == Relaxed(false, g);
      GlobInRelaxed(g, s[i..]);
    }
  }

  /** What `*.` matches ends with a dot. */
  lemma AfterStarDot(g: string, s: string) returns (k: nat)
    requires StarDot(g) && GlobMatches(g, s)
    ensures k < |s| && s[k] == '.' && GlobMatches(g[2..], s[k + 1..])
  {
    k :| 0 <= k <= |s| && GlobMatches(g[1..], s[k..]);
    assert g[1..][1..] == g[2..] && s[k..][1..] == s[k + 1..] && s[k..][0] == s[k];
  }

  /** Every name without empty labels that the glob accepts is accepted by the compiled regex. */
  lemma WildcardAcceptsGlob(g: string, s: string)
    requires OneLine(s) && NoEmptyLabel(s) && GlobMatches(g, s)
    ensures IsMatch(WildRegex(g), s)
  {
    WildcardMeaning(g, s);
    if StarDot(g) {
      var k := AfterStarDot(g, s);
      GlobInRelaxed(g[2..], s[k + 1..]);
    } else {
      assert Relaxed(true, g) == Relaxed(false, g);
      GlobInRelaxed(g, s);
    }
  }

  // ---------------------------------------------------------------- when the regex is the glob

  /** Some `*.` opens the glob or follows another `*`: the label rule fires. */
  predicate LabelRuleFires(atStart: bool, g: string)
    decreases g
  {
    g != "" && ((atStart && StarDot(g)) || LabelRuleFires(g[0] == '*', g[1..]))
  }

  /** The caller's test: a leading `*.` or a `**.` anywhere. */
  lemma {:induction false} LabelRuleTest(atStart: bool, g: string)
    ensures LabelRuleFires(atStart, g) <==> (atStart && "*." <= g) || exists i | 0 <= i < |g| :: "**." <= g[i..]
    decreases g
  {
    if g != "" {
      LabelRuleTest(g[0] == '*', g[1..]);
      assert g[0..] == g && forall i | 0 <= i < |g[1..]| :: g[1..][i..] == g[i + 1..];
      assert "**." <= g <==> g[0] == '*' && "*." <= g[1..];
      assert forall i | 0 < i < |g| :: g[i..] == g[1..][i - 1..];
    }
  }

  lemma {:induction false} QuietIsPlain(atStart: bool, g: string)
    requires !LabelRuleFires(atStart, g)
    ensures WildAtoms(atStart, g) == PlainAtoms(g)
    decreases g
  {
    if g != "" {
      QuietIsPlain(g[0] == '*', g[1..]);
    }
  }

  /** The literals of the atoms, which the atoms match. */
  function Shortest(atoms: seq<Atom>): string
  {
    if atoms == [] then ""
    else (if atoms[0].Lit? then [atoms[0].c] else "") + Shortest(atoms[1..])
  }

  lemma {:induction false} ShortestMatches(atoms: seq<Atom>)
    ensures Matches(atoms, Shortest(atoms))
  {
    if atoms != [] {
      ShortestMatches(atoms[1..]);
      var s := Shortest(atoms);
      assert s[0..] == s && s[..0] == "" && Labels("");
      if atoms[0].Lit? {
        assert s[1..] == Shortest(atoms[1..]);
      }
    }
  }

  function LiteralCount(g: string): nat
  {
    if g == "" then 0 else (if g[0] == '*' then 0 else 1) + LiteralCount(g[1..])
  }

  lemma {:induction false} GlobNeedsLiterals(g: string, s: string)
    requires GlobMatches(g, s)
    ensures |s| >= LiteralCount(g)
    decreases g
  {
    if g != "" {
      if g[0] == '*' {
        var k :| 0 <= k <= |s| && GlobMatches(g[1..], s[k..]);
        GlobNeedsLiterals(g[1..], s[k..]);
      } else {
        GlobNeedsLiterals(g[1..], s[1..]);
      }
    }
  }

  lemma {:induction false} FiredIsShorter(atStart: bool, g: string)
    ensures |Shortest(WildAtoms(atStart, g))| <= LiteralCount(g)
    ensures LabelRuleFires(atStart, g) ==> |Shortest(WildAtoms(atStart, g))| < LiteralCount(g)
    ensures OneLine(g) ==> OneLine(Shortest(WildAtoms(atStart, g)))
    decreases g
  {
    if g != "" {
      if atStart && StarDot(g) {
        FiredIsShorter(false, g[2..]);
        var rest := WildAtoms(false, g[2..]);
        var opt := if |g| > 2 && g[2] != '*' then [OptDot] else [];
        var all := [LabelStar] + opt + rest;
        assert all[1..] == opt + rest;
        assert opt == [] ==> opt + rest == rest;
        assert opt != [] ==> (opt + rest)[1..] == rest;
        assert Shortest(all) == Shortest(rest);
        assert LiteralCount(g) == LiteralCount(g[1..]) && g[1..][1..] == g[2..];
      } else {
        FiredIsShorter(g[0] == '*', g[1..]);
        assert WildAtoms(atStart, g)[1..] == WildAtoms(g[0] == '*', g[1..]);
      }
    }
  }

  /**
    `build_wildcard_regex` means the glob on every one-line text exactly when the label rule
    never fires.
    */
  lemma WildcardIsGlobIffQuiet(g: string)
    requires OneLine(g)
    ensures (forall s | OneLine(s) :: IsMatch(WildRegex(g), s) <==> GlobMatches(g, s)) <==> !LabelRuleFires(true, g)
  {
    if LabelRuleFires(true, g) {
      var s := Shortest(WildAtoms(true, g));
      ShortestMatches(WildAtoms(true, g));
      FiredIsShorter(true, g);
      if GlobMatches(g, s) {
        GlobNeedsLiterals(g, s);
      }
      assert IsMatch(WildRegex(g), s) && !GlobMatches(g, s) && OneLine(s);
    } else {
      QuietIsPlain(true, g);
      forall s | OneLine(s)
        ensures IsMatch(WildRegex(g), s) <==> GlobMatches(g, s)
      {
        PlainAtomsMatch(g, s);
      }
    }
  }
}
