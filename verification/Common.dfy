/** Outcome types shared by the modules. */
module Wrappers {
  datatype Option<+T> = None | Some(value: T)

  datatype Result<+T, +E> = Ok(value: T) | Err(error: E)
}

/** Bytes and the fixed-width integer encodings used on the wire and in files. */
module Bytes {
  type byte = b: int | 0 <= b < 256
  type ByteString = seq<byte>

  type Word16 = n: int | 0 <= n < 0x1_0000
  type Word32 = n: int | 0 <= n < 0x1_0000_0000

  const U16_LIMIT: nat := 0x1_0000
  const U32_LIMIT: nat := 0x1_0000_0000

  function Pow256(width: nat): (p: nat)
    ensures p > 0
  {
    if width == 0 then 1 else 256 * Pow256(width - 1)
  }

  /** `to_le_bytes` on a value that is first truncated to `width` bytes. */
  function LE(n: nat, width: nat): (r: ByteString)
    ensures |r| == width
  {
    if width == 0 then [] else [n % 256] + LE(n / 256, width - 1)
  }

  function FromLE(s: ByteString): nat
  {
    if s == [] then 0 else s[0] + 256 * FromLE(s[1..])
  }

  /** `to_be_bytes` on a value that is first truncated to `width` bytes. */
  function BE(n: nat, width: nat): (r: ByteString)
    ensures |r| == width
  {
    if width == 0 then [] else BE(n / 256, width - 1) + [n % 256]
  }

  function FromBE(s: ByteString): nat
  {
    if s == [] then 0 else 256 * FromBE(s[..|s| - 1]) + s[|s| - 1]
  }

  lemma {:induction false} LERoundTrip(n: nat, width: nat)
    requires n < Pow256(width)
    ensures FromLE(LE(n, width)) == n
  {
    if width > 0 {
      LERoundTrip(n / 256, width - 1);
      assert LE(n, width)[1..] == LE(n / 256, width - 1);
    }
  }

  lemma {:induction false} BERoundTrip(n: nat, width: nat)
    requires n < Pow256(width)
    ensures FromBE(BE(n, width)) == n
  {
    if width > 0 {
      BERoundTrip(n / 256, width - 1);
      assert BE(n, width)[..width - 1] == BE(n / 256, width - 1);
    }
  }

  lemma {:induction false} NumbersBounded(s: ByteString)
    ensures FromLE(s) < Pow256(|s|) && FromBE(s) < Pow256(|s|)
  {
    if s != [] {
      NumbersBounded(s[1..]);
      NumbersBounded(s[..|s| - 1]);
    }
  }

  lemma Pow256Values()
    ensures Pow256(2) == U16_LIMIT
    ensures Pow256(4) == U32_LIMIT
    ensures Pow256(16) == 0x1_0000_0000_0000_0000_0000_0000_0000_0000
  {
    assert Pow256(8) == Pow256(4) * U32_LIMIT;
    assert Pow256(12) == Pow256(8) * U32_LIMIT;
    assert Pow256(16) == Pow256(12) * U32_LIMIT;
  }

  /** `u16::from_be_bytes([hi, lo])`. */
  function U16(hi: byte, lo: byte): (n: nat)
    ensures n < U16_LIMIT
  {
    256 * hi + lo
  }

  lemma QuotientUnique(a: nat, d: nat, q: nat, r: nat)
    requires d > 0 && r < d && a == d * q + r
    ensures a / d == q && a % d == r
  {
    var q', r' := a / d, a % d;
    assert a == d * q' + r';
    if q' < q {
      MultipleGap(d, q', q);
    } else if q' > q {
      MultipleGap(d, q, q');
    }
  }

  lemma MultipleGap(d: nat, x: nat, y: nat)
    requires x < y
    ensures d * x + d <= d * y
  {
    var gap := y - x - 1;
    assert d * (x + 1 + gap) == d * x + d + d * gap;
  }

  /** Before the end of `n`-byte entries there is room for one more. */
  lemma NextEntryFits(n: nat, k: nat, entries: nat)
    requires n * k < n * entries
    ensures k < entries && n * k + n == n * (k + 1) <= n * entries
  {
    if k < entries {
      MultipleGap(n, k, entries);
    } else if entries < k {
      MultipleGap(n, entries, k);
    }
  }

  lemma Associative<T>(a: seq<T>, b: seq<T>, c: seq<T>)
    ensures a + b + c == a + (b + c)
  {
  }

  /** Slices of a block that sits in `buf` at `i`. */
  lemma SliceOfBlock<T>(buf: seq<T>, i: nat, block: seq<T>, rest: seq<T>, a: nat, b: nat)
    requires i <= |buf| && buf[i..] == block + rest && a <= b <= |block|
    ensures i + |block| <= |buf| && buf[i + a..i + b] == block[a..b]
  {
    var tail := buf[i..];
    assert |tail| == |block| + |rest|;
    forall k | 0 <= k < b - a
      ensures buf[i + a..i + b][k] == block[a..b][k]
    {
      assert buf[i + a + k] == tail[a + k] == (block + rest)[a + k] == block[a + k];
    }
  }

  /** Does `s` end with `t`? */
  predicate EndsWith<T(==)>(s: seq<T>, t: seq<T>)
  {
    |t| <= |s| && s[|s| - |t|..] == t
  }

  lemma EndsWithTail<T>(front: seq<T>, t: seq<T>)
    ensures EndsWith(front + t, t)
  {
  }

  /** Does `t` occur in `s` as a contiguous block? */
  predicate Contains<T(==)>(s: seq<T>, t: seq<T>)
  {
    exists i | 0 <= i <= |s| :: t <= s[i..]
  }

  /** Something before, the block, something after. */
  lemma ContainsIff<T>(s: seq<T>, t: seq<T>)
    ensures Contains(s, t) <==> exists a, b :: s == a + t + b
  {
    if Contains(s, t) {
      var i :| 0 <= i <= |s| && t <= s[i..];
      CutOut(s, t, i);
    }
    forall a, b | s == a + t + b
      ensures Contains(s, t)
    {
      var i := |a|;
      assert 0 <= i <= |s| && s[i..] == t + b;
    }
    hide Contains;
  }

  lemma CutOut<T>(s: seq<T>, t: seq<T>, i: nat)
    requires i <= |s| && t <= s[i..]
    ensures s == s[..i] + t + s[i + |t|..]
  {
  }

  lemma DivideTwice(n: nat)
    ensures n / 256 / 256 == n / 0x1_0000
  {
  }

  /** Numbers two bytes at a time. */
  lemma TwoMore(n: nat, width: nat)
    ensures LE(n, width + 2) == [n % 256, n / 256 % 256] + LE(n / 0x1_0000, width)
    ensures BE(n, width + 2) == BE(n / 0x1_0000, width) + [n / 256 % 256, n % 256]
  {
    var a := n / 256;
    DivideTwice(n);
    assert LE(n, width + 2) == [n % 256] + LE(a, width + 1) && LE(a, width + 1) == [a % 256] + LE(a / 256, width);
    assert BE(n, width + 2) == BE(a, width + 1) + [n % 256] && BE(a, width + 1) == BE(a / 256, width) + [a % 256];
  }

  lemma TwoBytes(n: nat)
    ensures LE(n, 2) == [n % 256, n / 256 % 256] && BE(n, 2) == [n / 256 % 256, n % 256]
  {
    TwoMore(n, 0);
  }

  /** Numbers four bytes at a time. */
  lemma FourMore(n: nat, width: nat)
    ensures LE(n, width + 4) == LE(n, 2) + LE(n / 0x1_0000, 2) + LE(n / 0x1_0000_0000, width)
    ensures BE(n, width + 4) == BE(n / 0x1_0000_0000, width) + BE(n / 0x1_0000, 2) + BE(n, 2)
  {
    hide LE, BE;
    var high := n / 0x1_0000;
    TwoBytes(n);
    TwoBytes(high);
    TwoMore(n, width + 2);
    TwoMore(high, width);
    assert high / 0x1_0000 == n / 0x1_0000_0000;
  }

  lemma FourBytes(n: nat)
    ensures LE(n, 4) == LE(n, 2) + LE(n / 0x1_0000, 2) && BE(n, 4) == BE(n / 0x1_0000, 2) + BE(n, 2)
  {
    FourMore(n, 0);
    assert LE(n / 0x1_0000_0000, 0) == [] && BE(n / 0x1_0000_0000, 0) == [];
    hide LE, BE;
  }
}

/** Reading numbers in network byte order by the weights of their bytes. */
module NetworkOrder {
  import opened Bytes

  ghost predicate Reads16(s: ByteString, i: nat, n: nat)
  {
    i + 2 <= |s| && n == 0x100 * (s[i] as int) + s[i + 1] as int
  }

  ghost predicate Reads32(s: ByteString, i: nat, n: nat)
  {
    i + 4 <= |s|
    && n == 0x100_0000 * (s[i] as int) + 0x1_0000 * (s[i + 1] as int) + 0x100 * (s[i + 2] as int) + s[i + 3] as int
  }

  lemma BE16Reads(n: Word16)
    ensures Reads16(BE(n, 2), 0, n)
  {
    TwoBytes(n);
    hide BE;
  }

  lemma BE32Reads(n: Word32)
    ensures Reads32(BE(n, 4), 0, n)
  {
    hide BE;
    var high: Word16, low: Word16 := n / 0x1_0000, n % 0x1_0000;
    FourBytes(n);
    TwoBytes(n);
    TwoBytes(high);
    assert n / 256 % 256 == low / 256 && n % 256 == low % 256;
  }

  /** A number that stands somewhere in a longer text. */
  lemma ReadsInside(s: ByteString, i: nat, part: ByteString, n: nat)
    requires i + |part| <= |s| && s[i..i + |part|] == part
    ensures Reads16(part, 0, n) ==> Reads16(s, i, n)
    ensures Reads32(part, 0, n) ==> Reads32(s, i, n)
  {
    assert forall k | 0 <= k < |part| :: part[k] == s[i + k];
  }
}

/** Text: letter case, trimming and decimal numbers. */
module Text {
  /** `to_ascii_lowercase` of one character. */
  function LowerChar(c: char): char
  {
    if 'A' <= c <= 'Z' then c - 'A' + 'a' else c
  }

  /** `to_lowercase` on ASCII text. */
  function Lower(s: string): (r: string)
    ensures |r| == |s|
  {
    if s == "" then "" else [LowerChar(s[0])] + Lower(s[1..])
  }

  lemma {:induction false} LowerConcat(a: string, b: string)
    ensures Lower(a + b) == Lower(a) + Lower(b)
  {
    if a == "" {
      assert "" + b == b;
    } else {
      assert (a + b)[1..] == a[1..] + b;
      LowerConcat(a[1..], b);
    }
  }

  /** The letters A to Z move by 32, everything else stays. */
  lemma {:induction false} LowerLetters(s: string, i: nat)
    requires i < |s|
    ensures Lower(s)[i] as int == if 65 <= s[i] as int <= 90 then s[i] as int + 32 else s[i] as int
  {
    if i > 0 {
      LowerLetters(s[1..], i - 1);
    }
  }

  /** `trim_end_matches`. */
  function TrimEnd<T(==)>(s: seq<T>, x: T): seq<T>
  {
    if s != [] && s[|s| - 1] == x then TrimEnd(s[..|s| - 1], x) else s
  }

  /** Nothing but `x` is cut off, and all of it. */
  lemma {:induction false} TrimEndCuts<T>(s: seq<T>, x: T)
    ensures var r := TrimEnd(s, x);
            r <= s && (forall i | |r| <= i < |s| :: s[i] == x) && (r == [] || r[|r| - 1] != x)
  {
    if s != [] && s[|s| - 1] == x {
      TrimEndCuts(s[..|s| - 1], x);
    }
  }

  /** The trimmed text is the only one that the cut leaves. */
  lemma TrimEndIs<T>(s: seq<T>, x: T, r: seq<T>)
    requires r <= s && (forall i | |r| <= i < |s| :: s[i] == x) && (r == [] || r[|r| - 1] != x)
    ensures TrimEnd(s, x) == r
  {
    TrimEndCuts(s, x);
  }

  function Digit(d: nat): (c: char)
    requires d < 10
    ensures '0' <= c <= '9' && c as int - '0' as int == d
  {
    (d + '0' as int) as char
  }

  function Decimal(n: nat): (s: string)
    ensures |s| > 0 && forall c | c in s :: '0' <= c <= '9'
  {
    if n < 10 then [Digit(n)] else Decimal(n / 10) + [Digit(n % 10)]
  }

  /** The number that decimal digits stand for, the last one weighing least. */
  function DigitsValue(s: string): int
  {
    if s == "" then 0 else 10 * DigitsValue(s[..|s| - 1]) + (s[|s| - 1] as int - '0' as int)
  }

  /** The digits stand for the number, with no zero in front. */
  lemma {:induction false} DecimalValue(n: nat)
    ensures DigitsValue(Decimal(n)) == n && (Decimal(n)[0] == '0' ==> n == 0)
  {
    if n < 10 {
      assert DigitsValue("") == 0 && [Digit(n)][..0] == "";
    } else {
      DecimalValue(n / 10);
      assert Decimal(n)[..|Decimal(n)| - 1] == Decimal(n / 10);
    }
  }

  lemma {:induction false} DecimalInjective(m: nat, n: nat)
    requires Decimal(m) == Decimal(n)
    ensures m == n
  {
    var s := Decimal(m);
    assert Digit(m % 10) == s[|s| - 1] == Digit(n % 10);
    if m >= 10 && n >= 10 {
      assert Decimal(m / 10) == s[..|s| - 1] == Decimal(n / 10);
      DecimalInjective(m / 10, n / 10);
    }
  }
}

/** Sizes of finite sets. */
module Sets {
  lemma SubsetSize<T>(a: set<T>, b: set<T>)
    requires a <= b
    ensures |a| <= |b|
  {
    assert b == a + (b - a);
  }

  lemma SameSizeSubset<T>(a: set<T>, b: set<T>)
    requires a <= b && |a| == |b|
    ensures a == b
  {
    assert b == a + (b - a);
  }
}
