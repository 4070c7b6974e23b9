/**
  Suffix lookup in an index keyed by reversed labels (src/ruleset/drs.rs).

  A suffix rule `google.com` is stored under the key `com.google.`; a query is
  answered by growing a key label by label from the right and asking the index at
  every step. The index (`fst::Set`) is a set of byte strings here.
*/
module SuffixIndex {
  import opened Bytes

  const DOT: byte := 46
  const MAX_LABELS: nat := 128
  const KEY_BUFFER: nat := 256

  type Index = set<ByteString>

  /** `str::split('.')`: never empty, the empty string has one empty label. */
  function Split(d: ByteString): (ls: seq<ByteString>)
    ensures |ls| > 0
  {
    if d == [] then [[]] else Prepend(d[0], Split(d[1..]))
  }

  /** The labels after one more byte in front: a dot opens a label, anything else joins the first. */
  function Prepend(c: byte, ls: seq<ByteString>): (r: seq<ByteString>)
    requires |ls| > 0
    ensures |r| > 0
  {
    if c == DOT then [[]] + ls else [[c] + ls[0]] + ls[1..]
  }

  /** The labels after one more byte at the end. */
  function Extend(ls: seq<ByteString>, c: byte): (r: seq<ByteString>)
    requires |ls| > 0
    ensures |r| > 0
  {
    if c == DOT then ls + [[]] else ls[..|ls| - 1] + [ls[|ls| - 1] + [c]]
  }

  /** `join(".")`. */
  function Join(ls: seq<ByteString>): ByteString
  {
    if ls == [] then []
    else if |ls| == 1 then ls[0]
    else ls[0] + [DOT] + Join(ls[1..])
  }

  function Reverse<T>(s: seq<T>): (r: seq<T>)
    ensures |r| == |s|
  {
    if s == [] then [] else Reverse(s[1..]) + [s[0]]
  }

  function ReverseLabels(d: ByteString): ByteString
  {
    Join(Reverse(Split(d)))
  }

  /** The key under which a suffix rule is stored. */
  function SuffixKey(suffix: ByteString): ByteString
  {
    ReverseLabels(suffix) + [DOT]
  }

  /** The key that a matcher has built once it has consumed all of `ls` from the right. */
  function KeyOf(ls: seq<ByteString>): ByteString
  {
    if ls == [] then [] else KeyOf(ls[1..]) + ls[0] + [DOT]
  }

  /** Some key grown from the right of `d` is in the index. */
  ghost predicate KeyHit(index: Index, d: ByteString)
  {
    var ls := Split(d);
    exists i | 0 <= i < |ls| :: KeyOf(ls[i..]) in index
  }

  /** `d` is the suffix `s` itself or one of its subdomains. */
  predicate UnderSuffix(d: ByteString, s: ByteString)
  {
    d == s || EndsWith(d, [DOT] + s)
  }

  /** What a list of suffix rules means, with no reference to labels or keys. */
  ghost predicate HasSuffix(suffixes: seq<ByteString>, d: ByteString)
  {
    exists s | s in suffixes :: UnderSuffix(d, s)
  }

  function KeysOf(suffixes: seq<ByteString>): Index
  {
    set s | s in suffixes :: SuffixKey(s)
  }

  ghost predicate DotFree(ls: seq<ByteString>)
  {
    forall l | l in ls :: DOT !in l
  }

  // ---------------------------------------------------------------- split and join

  lemma {:induction false} SplitDotFree(d: ByteString)
    ensures DotFree(Split(d))
  {
    if d != [] {
      SplitDotFree(d[1..]);
      var rest := Split(d[1..]);
      assert rest[0] in rest;
      assert forall l | l in rest[1..] :: l in rest;
    }
  }

  lemma {:induction false} JoinSplit(d: ByteString)
    ensures Join(Split(d)) == d
  {
    if d != [] {
      JoinSplit(d[1..]);
      var rest := Split(d[1..]);
      if d[0] == DOT {
        assert Split(d)[1..] == rest;
      } else if |rest| > 1 {
        assert Split(d)[1..] == rest[1..];
      }
    }
  }

  lemma {:induction false} SplitConcat(a: ByteString, b: ByteString)
    ensures Split(a + [DOT] + b) == Split(a) + Split(b)
  {
    var whole := a + [DOT] + b;
    if a == [] {
      assert whole[1..] == b;
    } else {
      assert whole[1..] == a[1..] + [DOT] + b;
      SplitConcat(a[1..], b);
    }
  }

  lemma PrependExtend(x: byte, ls: seq<ByteString>, c: byte)
    requires |ls| > 0
    ensures Prepend(x, Extend(ls, c)) == Extend(Prepend(x, ls), c)
  {
    if |ls| == 1 && x != DOT && c != DOT {
      assert [x] + (ls[0] + [c]) == [x] + ls[0] + [c];
    }
  }

  lemma {:induction false} SplitSnoc(d: ByteString, c: byte)
    ensures Split(d + [c]) == Extend(Split(d), c)
  {
    if d == [] {
      assert d + [c] == [c] && Split([c]) == Prepend(c, Split([]));
      assert [c] + [] == [] + [c];
    } else {
      assert (d + [c])[1..] == d[1..] + [c];
      SplitSnoc(d[1..], c);
      PrependExtend(d[0], Split(d[1..]), c);
    }
  }

  lemma {:induction false} JoinConcat(a: seq<ByteString>, b: seq<ByteString>)
    requires a != [] && b != []
    ensures Join(a + b) == Join(a) + [DOT] + Join(b)
  {
    assert (a + b)[1..] == a[1..] + b;
    if |a| > 1 {
      JoinConcat(a[1..], b);
    }
  }

  // ---------------------------------------------------------------- keys

  lemma {:induction false} KeyOfSnoc(ls: seq<ByteString>, last: ByteString)
    ensures KeyOf(ls + [last]) == last + [DOT] + KeyOf(ls)
  {
    if ls == [] {
      assert KeyOf([last]) == KeyOf([last][1..]) + last + [DOT];
    } else {
      assert (ls + [last])[1..] == ls[1..] + [last];
      KeyOfSnoc(ls[1..], last);
    }
  }

  lemma {:induction false} JoinReverseIsKey(ls: seq<ByteString>)
    requires ls != []
    ensures Join(Reverse(ls)) + [DOT] == KeyOf(ls)
  {
    if |ls| == 1 {
      assert Reverse(ls) == [ls[0]];
    } else {
      JoinReverseIsKey(ls[1..]);
      JoinConcat(Reverse(ls[1..]), [ls[0]]);
    }
  }

  lemma SuffixKeyIsKey(s: ByteString)
    ensures SuffixKey(s) == KeyOf(Split(s))
  {
    JoinReverseIsKey(Split(s));
  }

  lemma FirstDot(a: ByteString, x: ByteString, b: ByteString, y: ByteString)
    requires DOT !in b && a + [DOT] + x == b + [DOT] + y
    ensures |b| <= |a|
  {
    var whole := b + [DOT] + y;
    assert whole == a + [DOT] + x && whole[|a|] == DOT;
    assert forall k | 0 <= k < |b| :: whole[k] == b[k] && b[k] in b;
  }

  /** Labels are dot-free, so the first dot of a key tells where its first label ends. */
  lemma HeadLabelUnique(a: ByteString, x: ByteString, b: ByteString, y: ByteString)
    requires DOT !in a && DOT !in b && a + [DOT] + x == b + [DOT] + y
    ensures a == b && x == y
  {
    FirstDot(a, x, b, y);
    FirstDot(b, y, a, x);
    var whole := a + [DOT] + x;
    assert a == whole[..|a|] && x == whole[|a| + 1..];
    assert b == whole[..|a|] && y == whole[|a| + 1..];
  }

  lemma {:induction false} KeyOfInjective(a: seq<ByteString>, b: seq<ByteString>)
    requires DotFree(a) && DotFree(b) && KeyOf(a) == KeyOf(b)
    ensures a == b
  {
    if a != [] && b != [] {
      var a0, b0, al, bl := a[..|a| - 1], b[..|b| - 1], a[|a| - 1], b[|b| - 1];
      assert a == a0 + [al] && b == b0 + [bl];
      KeyOfSnoc(a0, al);
      KeyOfSnoc(b0, bl);
      HeadLabelUnique(al, KeyOf(a0), bl, KeyOf(b0));
      assert DotFree(a0) && DotFree(b0);
      KeyOfInjective(a0, b0);
    }
  }

  /** No two suffix rules share a key. */
  lemma SuffixKeyInjective(s: ByteString, t: ByteString)
    requires SuffixKey(s) == SuffixKey(t)
    ensures s == t
  {
    SuffixKeyIsKey(s);
    SuffixKeyIsKey(t);
    SplitDotFree(s);
    SplitDotFree(t);
    KeyOfInjective(Split(s), Split(t));
    JoinSplit(s);
    JoinSplit(t);
  }

  /** A closing run of the labels of `d` that spells `s` puts `d` under the suffix `s`. */
  lemma ClosingLabelsGiveSuffix(d: ByteString, s: ByteString, i: nat)
    requires i < |Split(d)| && Split(d)[i..] == Split(s)
    ensures UnderSuffix(d, s)
  {
    var front := Split(d)[..i];
    assert Split(d) == front + Split(s);
    JoinSplit(d);
    JoinSplit(s);
    if front == [] {
      assert Split(d) == Split(s);
    } else {
      JoinConcat(front, Split(s));
      Associative(Join(front), [DOT], s);
      EndsWithTail(Join(front), [DOT] + s);
    }
  }

  lemma SuffixGivesClosingLabels(d: ByteString, s: ByteString) returns (i: nat)
    requires UnderSuffix(d, s)
    ensures i < |Split(d)| && Split(d)[i..] == Split(s)
  {
    if d == s {
      return 0;
    }
    var front := d[..|d| - |s| - 1];
    assert d == front + ([DOT] + s);
    assert d == front + [DOT] + s;
    SplitConcat(front, s);
    i := |Split(front)|;
  }

  /** The index lookup decides the suffix rules, for every domain and every rule list. */
  lemma LookupIsSuffixMatch(suffixes: seq<ByteString>, d: ByteString)
    ensures KeyHit(KeysOf(suffixes), d) <==> HasSuffix(suffixes, d)
  {
    if KeyHit(KeysOf(suffixes), d) {
      HitGivesSuffix(suffixes, d);
    }
    if HasSuffix(suffixes, d) {
      var s :| s in suffixes && UnderSuffix(d, s);
      var i := SuffixGivesClosingLabels(d, s);
      SuffixKeyIsKey(s);
      assert KeyOf(Split(d)[i..]) in KeysOf(suffixes);
    }
  }

  lemma HitGivesSuffix(suffixes: seq<ByteString>, d: ByteString)
    requires KeyHit(KeysOf(suffixes), d)
    ensures HasSuffix(suffixes, d)
  {
    var i :| 0 <= i < |Split(d)| && KeyOf(Split(d)[i..]) in KeysOf(suffixes);
    var s :| s in suffixes && SuffixKey(s) == KeyOf(Split(d)[i..]);
    SuffixKeyIsKey(s);
    SplitDotFree(d);
    SplitDotFree(s);
    assert DotFree(Split(d)[i..]);
    KeyOfInjective(Split(d)[i..], Split(s));
    ClosingLabelsGiveSuffix(d, s, i);
  }

  // ---------------------------------------------------------------- label offsets

  /** Where the labels of `d` begin: at 0 and after every dot. */
  function StartsOf(d: ByteString): (starts: seq<nat>)
    ensures |starts| > 0
  {
    if d == [] then [0]
    else
      var starts := StartsOf(d[..|d| - 1]);
      if d[|d| - 1] == DOT then starts + [|d|] else starts
  }

  /** Cutting at these offsets gives the labels. */
  lemma {:induction false} LabelAt(d: ByteString, j: nat)
    requires j < |StartsOf(d)|
    ensures var starts := StartsOf(d);
            var end := if j + 1 < |starts| then starts[j + 1] - 1 else |d|;
            |starts| == |Split(d)| && starts[j] <= end <= |d| && Split(d)[j] == d[starts[j]..end]
  {
    if d != [] {
      var d0, c := d[..|d| - 1], d[|d| - 1];
      assert d == d0 + [c];
      SplitSnoc(d0, c);
      if j < |StartsOf(d0)| {
        LabelAt(d0, j);
      } else {
        LabelAt(d0, 0);
      }
    }
  }

  // ---------------------------------------------------------------- matchers

  /** The keys grown so far, down to label `i`, all missed. */
  ghost predicate Missed(index: Index, ls: seq<ByteString>, i: nat)
  {
    forall k | i <= k < |ls| :: KeyOf(ls[k..]) !in index
  }

  lemma KeyGrows(index: Index, ls: seq<ByteString>, i: nat)
    requires i < |ls|
    ensures KeyOf(ls[i..]) == KeyOf(ls[i + 1..]) + ls[i] + [DOT]
    ensures Missed(index, ls, i + 1) && KeyOf(ls[i..]) !in index ==> Missed(index, ls, i)
  {
    assert ls[i..][1..] == ls[i + 1..];
  }

  /** The matcher that grows its key on the heap. */
  method SuffixMatchHeap(index: Index, domain: ByteString) returns (hit: bool)
    ensures hit <==> KeyHit(index, domain)
  {
    var labels := Split(domain);
    var key: ByteString := [];
    var i := |labels|;
    while i > 0
      invariant 0 <= i <= |labels|
      invariant key == KeyOf(labels[i..])
      invariant Missed(index, labels, i)
    {
      i := i - 1;
      KeyGrows(index, labels, i);
      key := key + labels[i];
      key := key + [DOT];
      if key in index {
        return true;
      }
    }
    return false;
  }

  /**
    The matcher that uses a fixed array of 128 label offsets and a fixed buffer of 256
    bytes, and restarts on the heap when either is too small.
    */
  method SuffixMatchZeroAlloc(index: Index, domain: ByteString) returns (hit: bool)
    ensures hit <==> domain != [] && KeyHit(index, domain)
  {
    if domain == [] {
      return false;
    }

    var starts := new nat[MAX_LABELS];
    starts[0] := 0;
    var n := 1;
    for i := 0 to |domain|
      invariant 1 <= n <= MAX_LABELS
      invariant starts[..n] == StartsOf(domain[..i])
    {
      assert domain[..i + 1][..i] == domain[..i];
      if domain[i] == DOT {
        if n >= MAX_LABELS {
          hit := SuffixMatchHeap(index, domain);
          return;
        }
        starts[n] := i + 1;
        n := n + 1;
      }
    }
    assert domain[..|domain|] == domain;
    hit := MatchInBuffer(index, domain, starts[..n]);
  }

  /** The second half of the matcher: grow the key in the buffer, right to left. */
  method MatchInBuffer(index: Index, domain: ByteString, starts: seq<nat>) returns (hit: bool)
    requires starts == StartsOf(domain)
    ensures hit <==> KeyHit(index, domain)
  {
    var buf := new byte[KEY_BUFFER];
    var used := 0;
    var i := |starts|;
    ghost var labels := Split(domain);
    LabelAt(domain, 0);
    assert Missed(index, labels, i);
    while i > 0
      invariant 0 <= i <= |starts| == |labels|
      invariant 0 <= used <= KEY_BUFFER
      invariant buf[..used] == KeyOf(labels[i..])
      invariant Missed(index, labels, i)
    {
      i := i - 1;
      LabelAt(domain, i);
      var labelStart := starts[i];
      var labelEnd := if i + 1 < |starts| then starts[i + 1] - 1 else |domain|;
      var labelLen := labelEnd - labelStart;
      if used + labelLen + 1 > KEY_BUFFER {
        hit := SuffixMatchHeap(index, domain);
        return;
      }
      AppendLabel(buf, used, domain[labelStart..labelEnd]);
      KeyGrows(index, labels, i);
      used := used + labelLen + 1;
      if buf[..used] in index {
        return true;
      }
    }
    return false;
  }

  /** Copies a label and a dot behind the first `used` bytes of the buffer. */
  method AppendLabel(buf: array<byte>, used: nat, piece: ByteString)
    requires used + |piece| + 1 <= buf.Length
    modifies buf
    ensures buf[..used + |piece| + 1] == old(buf[..used]) + piece + [DOT]
  {
    forall k | 0 <= k < |piece| {
      buf[used + k] := piece[k];
    }
    buf[used + |piece|] := DOT;
  }
}
