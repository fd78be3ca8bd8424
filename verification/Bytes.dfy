/** Bytes, little-endian words and in-place splices: the vocabulary that the
    sector, cluster and directory-entry models share. */
module Bytes {
  type byte = x: int | 0 <= x < 256
  type word32 = x: int | 0 <= x < 0x1_0000_0000

  const SECTOR := 512

  /** `n * k` as repeated addition: layouts that multiply two unknowns stay within linear arithmetic. */
  function Product(n: nat, k: nat): nat {
    if n == 0 then 0 else Product(n - 1, k) + k
  }

  lemma ProductStep(n: nat, k: nat)
    ensures Product(n + 1, k) == Product(n, k) + k
  {
  }

  lemma {:induction false} ProductIsMultiplication(n: nat, k: nat)
    ensures Product(n, k) == n * k
  {
    if n > 0 {
      ProductIsMultiplication(n - 1, k);
    }
  }

  lemma {:induction false} ProductAtLeast(n: nat, k: nat)
    requires k > 0
    ensures n <= Product(n, k)
  {
    if n > 0 {
      ProductAtLeast(n - 1, k);
    }
  }

  lemma {:induction false} ProductGap(a: nat, b: nat, k: nat)
    requires a < b
    ensures Product(a, k) + k <= Product(b, k)
  {
    if a + 1 < b {
      ProductGap(a, b - 1, k);
    }
  }

  /** Multiples of `m` are at least `m` apart. */
  lemma MulGap(a: nat, b: nat, m: nat)
    requires a < b
    ensures a * m + m <= b * m
  {
    ProductIsMultiplication(a, m);
    ProductIsMultiplication(b, m);
    ProductGap(a, b, m);
  }

  lemma MulMono(a: nat, b: nat, m: nat)
    requires a <= b
    ensures a * m <= b * m
  {
    if a < b {
      MulGap(a, b, m);
    }
  }

  /** `s` with `d` written over it from offset `off`. */
  function Splice<T>(s: seq<T>, off: nat, d: seq<T>): (r: seq<T>)
    requires off + |d| <= |s|
    ensures |r| == |s|
    ensures forall i :: 0 <= i < |s| ==> r[i] == if off <= i < off + |d| then d[i - off] else s[i]
  {
    s[..off] + d + s[off + |d|..]
  }

  /** A later splice that starts where an earlier one ended extends it. */
  lemma SpliceExtends<T>(s: seq<T>, off: nat, d: seq<T>, e: seq<T>)
    requires off + |d| + |e| <= |s|
    ensures Splice(Splice(s, off, d), off + |d|, e) == Splice(s, off, d + e)
  {
    var l, r := Splice(Splice(s, off, d), off + |d|, e), Splice(s, off, d + e);
    forall i | 0 <= i < |s|
      ensures l[i] == r[i]
    {
    }
  }

  /** Splicing a stretch that was itself spliced is one splice further in. */
  lemma SpliceNested<T>(s: seq<T>, p: nat, n: nat, skip: nat, d: seq<T>)
    requires p + n <= |s| && skip + |d| <= n
    ensures Splice(s, p, Splice(s[p..p + n], skip, d)) == Splice(s, p + skip, d)
  {
    var b := Splice(s[p..p + n], skip, d);
    forall i | 0 <= i < |s|
      ensures Splice(s, p, b)[i] == Splice(s, p + skip, d)[i]
    {
      if p <= i < p + n {
        assert Splice(s, p, b)[i] == b[i - p];
      }
    }
  }

  /** A splice that lies in the first part, or replaces the second. */
  lemma SpliceParts<T>(a: seq<T>, t: seq<T>, p: nat, d: seq<T>)
    requires p + |d| <= |a| + |t|
    ensures p + |d| <= |a| ==> Splice(a + t, p, d) == Splice(a, p, d) + t
    ensures p == |a| && |d| == |t| ==> Splice(a + t, p, d) == a + d
  {
  }

  lemma SpliceWhole<T>(s: seq<T>, d: seq<T>)
    requires |d| == |s|
    ensures Splice(s, 0, d) == d
  {
  }

  /** A stretch of the spliced-in part. */
  lemma SpliceStretch<T>(s: seq<T>, p: nat, d: seq<T>, a: nat, n: nat)
    requires p + |d| <= |s| && a + n <= |d|
    ensures Splice(s, p, d)[p + a..p + a + n] == d[a..a + n]
  {
  }

  lemma SliceOfSlice<T>(s: seq<T>, lo: nat, hi: nat, a: nat, b: nat)
    requires lo <= hi <= |s| && a <= b <= hi - lo
    ensures s[lo..hi][a..b] == s[lo + a..lo + b]
  {
    forall i | 0 <= i < b - a
      ensures s[lo..hi][a..b][i] == s[lo + a..lo + b][i]
    {
      assert s[lo..hi][a + i] == s[lo + a + i];
    }
  }

  function Repeat<T>(v: T, n: nat): (r: seq<T>)
    ensures |r| == n && forall i :: 0 <= i < n ==> r[i] == v
  {
    seq(n, _ => v)
  }

  function LE32(s: seq<byte>, off: nat): (v: word32)
    requires off + 4 <= |s|
  {
    var b0: int, b1: int, b2: int, b3: int := s[off], s[off + 1], s[off + 2], s[off + 3];
    b0 + 0x100 * b1 + 0x1_0000 * b2 + 0x100_0000 * b3
  }

  function Encode32(v: word32): (r: seq<byte>)
    ensures |r| == 4 && LE32(r, 0) == v
  {
    var a := v / 0x100;
    var b := a / 0x100;
    assert v == v % 0x100 + 0x100 * a && a == a % 0x100 + 0x100 * b && b == b % 0x100 + 0x100 * (b / 0x100);
    [v % 0x100, a % 0x100, b % 0x100, b / 0x100]
  }

  function PutLE32(s: seq<byte>, off: nat, v: word32): (r: seq<byte>)
    requires off + 4 <= |s|
    ensures |r| == |s| && LE32(r, off) == v
    ensures forall i :: 0 <= i < |s| && !(off <= i < off + 4) ==> r[i] == s[i]
  {
    var e := Encode32(v);
    assert LE32(e, 0) == v;
    Splice(s, off, e)
  }
}
