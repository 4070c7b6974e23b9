/**
  CIDR ranges, range merging and the binary search over merged ranges
  (src/ruleset/drs.rs). Addresses of both families are naturals below `Pow2(width)`,
  with width 32 or 128; nothing here depends on which.
*/
module IpRanges {

  type Range = (nat, nat)

  function Pow2(k: nat): (p: nat)
    ensures p > 0
  {
    if k == 0 then 1 else 2 * Pow2(k - 1)
  }

  // ---------------------------------------------------------------- machine words

  function BitAnd(width: nat, a: nat, b: nat): nat
  {
    if width == 0 then 0
    else (if a % 2 == 1 && b % 2 == 1 then 1 else 0) + 2 * BitAnd(width - 1, a / 2, b / 2)
  }

  function BitOr(width: nat, a: nat, b: nat): nat
  {
    if width == 0 then 0
    else (if a % 2 == 1 || b % 2 == 1 then 1 else 0) + 2 * BitOr(width - 1, a / 2, b / 2)
  }

  function BitNot(width: nat, a: nat): nat
    requires a < Pow2(width)
  {
    Pow2(width) - 1 - a
  }

  /** Bit `i` of `a`, counted from the least significant. */
  function Bit(a: nat, i: nat): nat
  {
    if i == 0 then a % 2 else Bit(a / 2, i - 1)
  }

  /** `a` and `b` agree on their leading `prefix` bits out of `width`. */
  ghost predicate SharesPrefix(width: nat, prefix: nat, a: nat, b: nat)
    requires prefix <= width
  {
    forall i: nat | width - prefix <= i < width :: Bit(a, i) == Bit(b, i)
  }

  // ---------------------------------------------------------------- CIDR to range

  function Mask(width: nat, prefix: nat): (m: nat)
    requires prefix <= width
    ensures m == Pow2(width) - Pow2(width - prefix)
  {
    Pow2Monotone(width - prefix, width);
    BitNot(width, Pow2(width - prefix) - 1)
  }

  /** `ipv4_cidr_to_range` and `ipv6_cidr_to_range`. */
  function CidrToRange(width: nat, addr: nat, prefix: nat): Range
    requires prefix <= width
  {
    if prefix == 0 then (0, Pow2(width) - 1)
    else
      var mask := Mask(width, prefix);
      var start := BitAnd(width, addr, mask);
      (start, BitOr(width, start, BitNot(width, mask)))
  }

  lemma {:induction false} Pow2Monotone(a: nat, b: nat)
    requires a <= b
    ensures Pow2(a) <= Pow2(b)
  {
    if a < b {
      Pow2Monotone(a, b - 1);
    }
  }

  /** `a` with its `k` low bits cleared. */
  function ClearLow(a: nat, k: nat): (c: nat)
    ensures c <= a < c + Pow2(k)
  {
    if k == 0 then a else 2 * ClearLow(a / 2, k - 1)
  }

  /** Masking with `k` low zeros clears the `k` low bits. */
  lemma {:induction false} AndWithHighMask(width: nat, k: nat, a: nat)
    requires k <= width && a < Pow2(width)
    ensures Pow2(k) <= Pow2(width)
    ensures BitAnd(width, a, Pow2(width) - Pow2(k)) == ClearLow(a, k)
  {
    Pow2Monotone(k, width);
    if width > 0 {
      var m := Pow2(width) - Pow2(k);
      if k == 0 {
        AndWithHighMask(width - 1, 0, a / 2);
        assert m / 2 == Pow2(width - 1) - Pow2(0);
      } else {
        AndWithHighMask(width - 1, k - 1, a / 2);
        assert m / 2 == Pow2(width - 1) - Pow2(k - 1) && m % 2 == 0;
      }
    }
  }

  lemma {:induction false} OrWithZero(width: nat, a: nat)
    requires a < Pow2(width)
    ensures BitOr(width, a, 0) == a
  {
    if width > 0 {
      OrWithZero(width - 1, a / 2);
    }
  }

  /** Or-ing the `k` low ones onto cleared bits adds them. */
  lemma {:induction false} OrWithLowMask(width: nat, k: nat, a: nat)
    requires k <= width && a < Pow2(width)
    ensures BitOr(width, ClearLow(a, k), Pow2(k) - 1) == ClearLow(a, k) + Pow2(k) - 1
  {
    if k == 0 {
      OrWithZero(width, a);
    } else {
      OrWithLowMask(width - 1, k - 1, a / 2);
      assert (Pow2(k) - 1) / 2 == Pow2(k - 1) - 1 && (Pow2(k) - 1) % 2 == 1;
    }
  }

  /** The range is the block of `Pow2(width - prefix)` addresses around `addr`. */
  lemma CidrRangeIsBlock(width: nat, addr: nat, prefix: nat)
    requires prefix <= width && addr < Pow2(width)
    ensures var k := width - prefix;
            CidrToRange(width, addr, prefix) == (ClearLow(addr, k), ClearLow(addr, k) + Pow2(k) - 1)
  {
    if prefix == 0 {
      ClearAll(addr, width);
    } else {
      AndWithHighMask(width, width - prefix, addr);
      OrWithLowMask(width, width - prefix, addr);
    }
  }

  lemma {:induction false} ClearAll(a: nat, k: nat)
    requires a < Pow2(k)
    ensures ClearLow(a, k) == 0
  {
    if k > 0 {
      ClearAll(a / 2, k - 1);
    }
  }

  /** Blocks are the classes of numbers that agree once their low bits are cleared. */
  lemma {:induction false} InBlock(v: nat, a: nat, k: nat)
    ensures ClearLow(a, k) <= v <= ClearLow(a, k) + Pow2(k) - 1 <==> ClearLow(v, k) == ClearLow(a, k)
  {
    if k > 0 {
      InBlock(v / 2, a / 2, k - 1);
    }
  }

  lemma {:induction false} SameBlockIsSharedPrefix(width: nat, k: nat, a: nat, b: nat)
    requires k <= width && a < Pow2(width) && b < Pow2(width)
    ensures ClearLow(a, k) == ClearLow(b, k) <==> SharesPrefix(width, width - k, a, b)
  {
    if width > 0 {
      if k > 0 {
        SameBlockIsSharedPrefix(width - 1, k - 1, a / 2, b / 2);
        ShiftShared(width, width - k, a, b);
      } else {
        SameBlockIsSharedPrefix(width - 1, 0, a / 2, b / 2);
        SplitShared(width, a, b);
      }
    }
  }

  lemma ShiftShared(width: nat, prefix: nat, a: nat, b: nat)
    requires prefix < width
    ensures SharesPrefix(width, prefix, a, b) <==> SharesPrefix(width - 1, prefix, a / 2, b / 2)
  {
    if SharesPrefix(width, prefix, a, b) {
      forall i: nat | width - 1 - prefix <= i < width - 1
        ensures Bit(a / 2, i) == Bit(b / 2, i)
      {
        assert Bit(a, i + 1) == Bit(b, i + 1);
      }
    }
    if SharesPrefix(width - 1, prefix, a / 2, b / 2) {
      forall i: nat | width - prefix <= i < width
        ensures Bit(a, i) == Bit(b, i)
      {
        assert Bit(a / 2, i - 1) == Bit(b / 2, i - 1);
      }
    }
  }

  lemma SplitShared(width: nat, a: nat, b: nat)
    requires width > 0
    ensures SharesPrefix(width, width, a, b) <==> a % 2 == b % 2 && SharesPrefix(width - 1, width - 1, a / 2, b / 2)
  {
    if SharesPrefix(width, width, a, b) {
      assert Bit(a, 0) == Bit(b, 0);
      forall i: nat | 0 <= i < width - 1
        ensures Bit(a / 2, i) == Bit(b / 2, i)
      {
        assert Bit(a, i + 1) == Bit(b, i + 1);
      }
    }
    if a % 2 == b % 2 && SharesPrefix(width - 1, width - 1, a / 2, b / 2) {
      forall i: nat | 0 <= i < width
        ensures Bit(a, i) == Bit(b, i)
      {
        assert i > 0 ==> Bit(a / 2, i - 1) == Bit(b / 2, i - 1);
      }
    }
  }

  /** An address lies in the range of a CIDR exactly when it shares the leading prefix bits. */
  lemma CidrRangeIsPrefixClass(width: nat, addr: nat, prefix: nat, v: nat)
    requires prefix <= width && addr < Pow2(width) && v < Pow2(width)
    ensures var (start, end) := CidrToRange(width, addr, prefix);
            start <= end && (start <= v <= end <==> SharesPrefix(width, prefix, v, addr))
  {
    CidrRangeIsBlock(width, addr, prefix);
    InBlock(v, addr, width - prefix);
    SameBlockIsSharedPrefix(width, width - prefix, v, addr);
  }

  // ---------------------------------------------------------------- merging

  predicate InRange(r: Range, v: nat) { r.0 <= v <= r.1 }

  ghost predicate Covered(ranges: seq<Range>, v: nat)
  {
    exists r | r in ranges :: InRange(r, v)
  }

  ghost predicate WellFormed(ranges: seq<Range>)
  {
    forall r | r in ranges :: r.0 <= r.1
  }

  ghost predicate SortedByStart(ranges: seq<Range>)
  {
    forall i, j | 0 <= i < j < |ranges| :: ranges[i].0 <= ranges[j].0
  }

  /** Non-empty ranges in ascending order, with a gap before each. */
  ghost predicate Disjoint(ranges: seq<Range>)
  {
    && WellFormed(ranges)
    && forall i, j | 0 <= i < j < |ranges| :: ranges[i].1 < ranges[j].0
  }

  /** `sort_by_key(|r| r.0)`: the stable order by range start. */
  function SortByStart(ranges: seq<Range>): (sorted: seq<Range>)
    ensures multiset(sorted) == multiset(ranges)
    ensures SortedByStart(sorted)
  {
    if ranges == [] then []
    else
      var rest := SortByStart(ranges[1..]);
      assert ranges == [ranges[0]] + ranges[1..];
      InsertKeeps(ranges[0], rest);
      Insert(ranges[0], rest)
  }

  function Insert(r: Range, sorted: seq<Range>): seq<Range>
  {
    if sorted == [] || r.0 <= sorted[0].0 then [r] + sorted else [sorted[0]] + Insert(r, sorted[1..])
  }

  lemma {:induction false} InsertKeeps(r: Range, sorted: seq<Range>)
    requires SortedByStart(sorted)
    ensures multiset(Insert(r, sorted)) == multiset{r} + multiset(sorted)
    ensures SortedByStart(Insert(r, sorted))
    ensures Insert(r, sorted)[0].0 == if sorted == [] || r.0 <= sorted[0].0 then r.0 else sorted[0].0
  {
    if sorted == [] || r.0 <= sorted[0].0 {
      FirstKeepsOrder(r, sorted);
    } else {
      var first, others := sorted[0], sorted[1..];
      assert sorted == [first] + others;
      InsertKeeps(r, others);
      FirstKeepsOrder(first, Insert(r, others));
    }
  }

  lemma FirstKeepsOrder(first: Range, others: seq<Range>)
    requires SortedByStart(others) && (others != [] ==> first.0 <= others[0].0)
    ensures SortedByStart([first] + others)
  {
  }

  /** One step of the merge: grow the last range or start a new one. */
  function Absorb(out: seq<Range>, r: Range): seq<Range>
  {
    if out != [] && out[|out| - 1].1 >= r.0 then
      var last := out[|out| - 1];
      if r.1 > last.1 then out[|out| - 1 := (last.0, r.1)] else out
    else
      out + [r]
  }

  function AbsorbAll(out: seq<Range>, ranges: seq<Range>): seq<Range>
    decreases ranges
  {
    if ranges == [] then out else AbsorbAll(Absorb(out, ranges[0]), ranges[1..])
  }

  function MergeRanges(ranges: seq<Range>): seq<Range>
  {
    if |ranges| <= 1 then ranges else AbsorbAll([], SortByStart(ranges))
  }

  /** `merge_ranges`, with its in-place update of the last range. */
  method Merge(ranges: seq<Range>) returns (out: seq<Range>)
    ensures out == MergeRanges(ranges)
  {
    if |ranges| <= 1 {
      return ranges;
    }
    var sorted := SortByStart(ranges);
    out := [];
    for i := 0 to |sorted|
      invariant AbsorbAll(out, sorted[i..]) == AbsorbAll([], sorted)
    {
      var (s, e) := sorted[i];
      assert sorted[i..][1..] == sorted[i + 1..];
      if out != [] {
        var last := |out| - 1;
        if out[last].1 >= s {
          if e > out[last].1 {
            out := out[last := (out[last].0, e)];
          }
          continue;
        }
      }
      out := out + [(s, e)];
    }
  }

  lemma AbsorbStep(out: seq<Range>, r: Range)
    requires Disjoint(out) && r.0 <= r.1 && (forall o | o in out :: o.0 <= r.0)
    ensures Disjoint(Absorb(out, r))
    ensures forall o | o in Absorb(out, r) :: o.0 <= r.0
    ensures forall v :: Covered(Absorb(out, r), v) <==> Covered(out, v) || InRange(r, v)
  {
    var next := Absorb(out, r);
    if out != [] && out[|out| - 1].1 >= r.0 {
      var k := |out| - 1;
      assert out[k] in out;
      forall o | o in next
        ensures o in out || o == next[k]
      {
      }
      forall v
        ensures Covered(next, v) <==> Covered(out, v) || InRange(r, v)
      {
        AbsorbCovers(out, next, k, r, v);
      }
    } else {
      AppendKeeps(out, r);
    }
  }

  lemma AppendKeeps(out: seq<Range>, r: Range)
    requires Disjoint(out) && r.0 <= r.1 && (forall o | o in out :: o.0 <= r.0)
    requires out == [] || out[|out| - 1].1 < r.0
    ensures Disjoint(out + [r])
    ensures forall o | o in out + [r] :: o.0 <= r.0
    ensures forall v :: Covered(out + [r], v) <==> Covered(out, v) || InRange(r, v)
  {
    var next := out + [r];
    assert forall o :: o in next <==> o in out || o == r;
    forall i, j | 0 <= i < j < |next|
      ensures next[i].1 < next[j].0
    {
      if j == |out| && i < |out| - 1 {
        assert out[i].1 < out[|out| - 1].0 && out[|out| - 1] in out;
      }
    }
  }

  /** Growing the range at `k` by an overlapping range adds just that range. */
  lemma AbsorbCovers(out: seq<Range>, next: seq<Range>, k: nat, r: Range, v: nat)
    requires k < |out| == |next| && out[k].0 <= r.0 <= out[k].1 && r.0 <= r.1
    requires next == out[k := (out[k].0, if r.1 > out[k].1 then r.1 else out[k].1)]
    ensures Covered(next, v) <==> Covered(out, v) || InRange(r, v)
  {
    assert next[k] in next && out[k] in out;
    if Covered(next, v) {
      var o :| o in next && InRange(o, v);
      assert o == next[k] || o in out;
    }
    if Covered(out, v) {
      var i :| 0 <= i < |out| && InRange(out[i], v);
      assert next[i] in next && InRange(next[i], v);
    }
  }

  lemma {:induction false} AbsorbAllKeeps(out: seq<Range>, ranges: seq<Range>)
    requires Disjoint(out) && WellFormed(ranges) && SortedByStart(ranges)
    requires forall o, r | o in out && r in ranges :: o.0 <= r.0
    ensures Disjoint(AbsorbAll(out, ranges))
    ensures forall v :: Covered(AbsorbAll(out, ranges), v) <==> Covered(out, v) || Covered(ranges, v)
    decreases ranges
  {
    if ranges != [] {
      var r, rest := ranges[0], ranges[1..];
      assert r in ranges;
      AbsorbStep(out, r);
      var next := Absorb(out, r);
      forall o, x | o in next && x in rest
        ensures o.0 <= x.0
      {
        var j :| 0 <= j < |rest| && rest[j] == x;
        assert ranges[0].0 <= ranges[j + 1].0;
      }
      assert forall x | x in rest :: x in ranges;
      AbsorbAllKeeps(next, rest);
      assert forall x | x in ranges :: x == r || x in rest;
    }
  }

  /** Merging keeps the union and leaves sorted, disjoint ranges. */
  lemma MergeKeepsUnion(ranges: seq<Range>)
    requires WellFormed(ranges)
    ensures Disjoint(MergeRanges(ranges))
    ensures forall v :: Covered(MergeRanges(ranges), v) <==> Covered(ranges, v)
  {
    if |ranges| > 1 {
      var sorted := SortByStart(ranges);
      SameMembers(sorted, ranges);
      hide SortByStart, SortedByStart, AbsorbAll, InRange;
      AbsorbAllKeeps([], sorted);
    }
  }

  lemma SameMembers(a: seq<Range>, b: seq<Range>)
    requires multiset(a) == multiset(b)
    ensures forall r :: r in a <==> r in b
    ensures WellFormed(b) ==> WellFormed(a)
    ensures forall v :: Covered(a, v) <==> Covered(b, v)
  {
    hide InRange;
    assert forall r :: r in a <==> r in multiset(a);
    assert forall r :: r in b <==> r in multiset(b);
  }

  // ---------------------------------------------------------------- search

  /** `binary_search_range`. */
  method BinarySearch(ranges: seq<Range>, v: nat) returns (found: bool)
    requires Disjoint(ranges)
    ensures found <==> Covered(ranges, v)
  {
    var lo, hi := 0, |ranges|;
    while lo < hi
      invariant 0 <= lo <= hi <= |ranges|
      invariant forall i | 0 <= i < lo :: ranges[i].1 < v
      invariant forall i | hi <= i < |ranges| :: v < ranges[i].0
    {
      var mid := lo + (hi - lo) / 2;
      var (s, e) := ranges[mid];
      assert ranges[mid] in ranges;
      if v < s {
        hi := mid;
      } else if v > e {
        lo := mid + 1;
      } else {
        return true;
      }
    }
    return false;
  }
}
