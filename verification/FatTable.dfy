/** The allocation table as a sequence of 28-bit entries: free counts, link walks and chains. */
module FatTable {
  import opened Bytes
  import opened FatLayout

  /** A value that a walk follows: not free, not reserved, not end-of-chain. */
  predicate Link(c: nat) { 2 <= c < END_MIN }

  /** Every link in the table names an entry of the table. */
  ghost predicate InRange(fat: seq<nat>) {
    2 <= |fat| <= END_MIN && forall c :: 0 <= c < |fat| && Link(fat[c]) ==> fat[c] < |fat|
  }

  /** Number of free entries among clusters 2 to n - 1. */
  ghost function Zeros(fat: seq<nat>, n: nat): (z: nat)
    requires n <= |fat|
    ensures z <= n
  {
    if n <= 2 then 0 else Zeros(fat, n - 1) + if fat[n - 1] == 0 then 1 else 0
  }

  ghost function FreeEntries(fat: seq<nat>): nat { Zeros(fat, |fat|) }

  /** What is counted: the clusters below `n` whose entry is zero. */
  lemma {:induction false} ZerosCounted(fat: seq<nat>, n: nat)
    requires n <= |fat|
    ensures Zeros(fat, n) == |set c: nat | 2 <= c < n && fat[c] == 0|
  {
    var s := set c: nat | 2 <= c < n && fat[c] == 0;
    if n <= 2 {
      assert s == {};
    } else {
      ZerosCounted(fat, n - 1);
      assert s == (set c: nat | 2 <= c < n - 1 && fat[c] == 0) + if fat[n - 1] == 0 then {n - 1} else {};
    }
  }

  lemma {:induction false} ZerosUpdate(fat: seq<nat>, c: nat, v: nat, n: nat)
    requires 2 <= c < |fat| && n <= |fat|
    ensures Zeros(fat[c := v], n) == Zeros(fat, n) +
      if n <= c then 0 else (if v == 0 then 1 else 0) - (if fat[c] == 0 then 1 else 0)
  {
    if n > 2 {
      ZerosUpdate(fat, c, v, n - 1);
    }
  }

  lemma {:induction false} ZeroIsCounted(fat: seq<nat>, c: nat, n: nat)
    requires 2 <= c < n <= |fat| && fat[c] == 0
    ensures Zeros(fat, n) > 0
  {
    if n - 1 != c {
      ZeroIsCounted(fat, c, n - 1);
    }
  }

  /** Where `n` steps along the links lead from `c`; a non-link is a resting place. */
  ghost function Iter(fat: seq<nat>, c: nat, n: nat): nat
    requires InRange(fat) && (Link(c) ==> c < |fat|)
    decreases n
  {
    if n == 0 || !Link(c) then c else Iter(fat, fat[c], n - 1)
  }

  ghost predicate Reachable(fat: seq<nat>, start: nat, c: nat)
    requires InRange(fat) && (Link(start) ==> start < |fat|)
  {
    Link(c) && exists n: nat :: Iter(fat, start, n) == c
  }

  /** The walk meets no free cluster and comes to an end: it is not cyclic. */
  ghost predicate Clean(fat: seq<nat>, start: nat)
    requires InRange(fat) && (Link(start) ==> start < |fat|)
  {
    && (exists n: nat :: !Link(Iter(fat, start, n)))
    && forall n: nat :: Iter(fat, start, n) < |fat| && Link(Iter(fat, start, n)) ==> fat[Iter(fat, start, n)] != 0
  }

  lemma {:induction false} IterInRange(fat: seq<nat>, c: nat, n: nat)
    requires InRange(fat) && (Link(c) ==> c < |fat|)
    ensures Link(Iter(fat, c, n)) ==> Iter(fat, c, n) < |fat|
    decreases n
  {
    if n > 0 && Link(c) {
      IterInRange(fat, fat[c], n - 1);
    }
  }

  /** One more step at the far end of a walk. */
  lemma {:induction false} IterStep(fat: seq<nat>, c: nat, n: nat)
    requires InRange(fat) && (Link(c) ==> c < |fat|)
    ensures var e := Iter(fat, c, n);
            (Link(e) ==> e < |fat|) && Iter(fat, c, n + 1) == if Link(e) then fat[e] else e
    decreases n
  {
    if n > 0 && Link(c) {
      IterStep(fat, fat[c], n - 1);
    } else if Link(c) {
      assert Iter(fat, c, 1) == Iter(fat, fat[c], 0);
    }
  }

  /** `fat` is `fat0` after the first `n` clusters of the walk, all different and all
      in use, have been zeroed. */
  ghost predicate Walked(fat0: seq<nat>, start: nat, n: nat, fat: seq<nat>)
    requires InRange(fat0) && (Link(start) ==> start < |fat0|)
  {
    && |fat| == |fat0|
    && (forall i: nat :: i < n ==>
         Link(Iter(fat0, start, i)) && Iter(fat0, start, i) < |fat0| && fat0[Iter(fat0, start, i)] != 0)
    && (forall c :: 0 <= c < |fat0| ==> fat[c] == if Seen(fat0, start, n, c) then 0 else fat0[c])
  }

  ghost predicate Seen(fat0: seq<nat>, start: nat, n: nat, c: nat)
    requires InRange(fat0) && (Link(start) ==> start < |fat0|)
  {
    exists i: nat :: i < n && Iter(fat0, start, i) == c
  }

  lemma WalkedStep(fat0: seq<nat>, start: nat, n: nat, fat: seq<nat>, c: nat)
    requires InRange(fat0) && (Link(start) ==> start < |fat0|) && Walked(fat0, start, n, fat)
    requires c == Iter(fat0, start, n) && Link(c) && c < |fat| && fat[c] != 0
    ensures Walked(fat0, start, n + 1, fat[c := 0])
    ensures fat[c] == fat0[c] == Iter(fat0, start, n + 1)
  {
    IterStep(fat0, start, n);
    forall b: nat
      ensures Seen(fat0, start, n + 1, b) <==> Seen(fat0, start, n, b) || b == c
    {
      if b == c {
        assert n < n + 1 && Iter(fat0, start, n) == c;
      }
    }
  }

  /** A walk that has come to rest on a non-link has zeroed exactly what was reachable. */
  lemma WalkedEnd(fat0: seq<nat>, start: nat, n: nat, fat: seq<nat>)
    requires InRange(fat0) && (Link(start) ==> start < |fat0|) && Walked(fat0, start, n, fat)
    requires !Link(Iter(fat0, start, n))
    ensures Clean(fat0, start)
    ensures forall c: nat :: c < |fat| ==> fat[c] == if Reachable(fat0, start, c) then 0 else fat0[c]
  {
    forall m: nat
      ensures m >= n ==> Iter(fat0, start, m) == Iter(fat0, start, n)
    {
      if m >= n {
        IterRests(fat0, start, n, m);
      }
    }
  }

  lemma {:induction false} IterRests(fat: seq<nat>, c: nat, n: nat, m: nat)
    requires InRange(fat) && (Link(c) ==> c < |fat|) && n <= m && !Link(Iter(fat, c, n))
    ensures Iter(fat, c, m) == Iter(fat, c, n)
  {
    if n < m {
      IterRests(fat, c, n, m - 1);
      IterStep(fat, c, m - 1);
    }
  }

  /** A walk that meets a zero entry was cyclic or ran into a free cluster, and there is
      nothing further to zero. */
  lemma WalkedBump(fat0: seq<nat>, start: nat, n: nat, fat: seq<nat>, c: nat)
    requires InRange(fat0) && (Link(start) ==> start < |fat0|) && Walked(fat0, start, n, fat)
    requires c == Iter(fat0, start, n) && Link(c) && c < |fat| && fat[c] == 0
    ensures !Clean(fat0, start)
    ensures forall b: nat :: b < |fat| ==> fat[b] == if Reachable(fat0, start, b) then 0 else fat0[b]
  {
    forall m: nat
      ensures Seen(fat0, start, n, Iter(fat0, start, m))
        || (fat0[c] == 0 && (Iter(fat0, start, m) == c || !Link(Iter(fat0, start, m))))
    {
      BumpCloses(fat0, start, n, fat, c, m);
    }
    if fat0[c] != 0 {
      assert Seen(fat0, start, n, c);
      forall m: nat
        ensures Link(Iter(fat0, start, m))
      {
        var i: nat :| i < n && Iter(fat0, start, i) == Iter(fat0, start, m);
      }
    }
  }

  lemma {:induction false} BumpCloses(fat0: seq<nat>, start: nat, n: nat, fat: seq<nat>, c: nat, m: nat)
    requires InRange(fat0) && (Link(start) ==> start < |fat0|) && Walked(fat0, start, n, fat)
    requires c == Iter(fat0, start, n) && Link(c) && c < |fat| && fat[c] == 0
    ensures Seen(fat0, start, n, Iter(fat0, start, m))
      || (fat0[c] == 0 && (Iter(fat0, start, m) == c || !Link(Iter(fat0, start, m))))
  {
    if m < n {
      assert Iter(fat0, start, m) == Iter(fat0, start, m);
    } else if m > n {
      BumpCloses(fat0, start, n, fat, c, m - 1);
      IterStep(fat0, start, m - 1);
      if Seen(fat0, start, n, Iter(fat0, start, m - 1)) {
        var i: nat :| i < n && Iter(fat0, start, i) == Iter(fat0, start, m - 1);
        IterStep(fat0, start, i);
        assert Iter(fat0, start, i + 1) == Iter(fat0, start, m);
      }
    }
  }

  /** `fat` is `fat0` with exactly the clusters reachable from `start` zeroed. */
  ghost predicate FreedAll(fat0: seq<nat>, start: nat, fat: seq<nat>)
    requires InRange(fat0) && (Link(start) ==> start < |fat0|)
  {
    |fat| == |fat0| && forall c: nat :: c < |fat| ==> fat[c] == if Reachable(fat0, start, c) then 0 else fat0[c]
  }

  /** The state of the freeing loop: still on the walk after `n` clusters, or stopped by a zero entry. */
  ghost predicate Progress(fat0: seq<nat>, start: nat, n: nat, bumped: bool, c: nat, fat: seq<nat>)
    requires InRange(fat0) && (Link(start) ==> start < |fat0|)
  {
    && Walked(fat0, start, n, fat)
    && (Link(c) ==> c < |fat|)
    && if bumped then c == 0 && !Clean(fat0, start) && FreedAll(fat0, start, fat) else c == Iter(fat0, start, n)
  }

  lemma ProgressStart(fat: seq<nat>, start: nat)
    requires InRange(fat) && (Link(start) ==> start < |fat|)
    ensures Progress(fat, start, 0, false, start, fat)
  {
  }

  lemma ProgressStep(fat0: seq<nat>, start: nat, n: nat, bumped: bool, c: nat, fat: seq<nat>)
    requires InRange(fat0) && (Link(start) ==> start < |fat0|)
    requires Progress(fat0, start, n, bumped, c, fat) && Link(c)
    ensures !bumped
    ensures var z := fat[c] == 0;
      && Progress(fat0, start, if z then n else n + 1, z, fat[c], fat[c := 0])
      && FreeEntries(fat[c := 0]) == FreeEntries(fat) + if z then 0 else 1
  {
    ZerosUpdate(fat, c, 0, |fat|);
    if fat[c] == 0 {
      WalkedBump(fat0, start, n, fat, c);
      assert fat[c := 0] == fat;
    } else {
      WalkedStep(fat0, start, n, fat, c);
      IterInRange(fat0, start, n + 1);
    }
  }

  lemma ProgressEnd(fat0: seq<nat>, start: nat, n: nat, bumped: bool, c: nat, fat: seq<nat>)
    requires InRange(fat0) && (Link(start) ==> start < |fat0|)
    requires Progress(fat0, start, n, bumped, c, fat) && !Link(c)
    ensures FreedAll(fat0, start, fat) && (bumped <==> !Clean(fat0, start))
  {
    if !bumped {
      WalkedEnd(fat0, start, n, fat);
    }
  }

  /** The clusters of a file or directory, in order: distinct, linked, ended. */
  ghost predicate IsChain(fat: seq<nat>, cs: seq<nat>) {
    && cs != []
    && (forall i :: 0 <= i < |cs| ==> 2 <= cs[i] < |fat|)
    && (forall i, j :: 0 <= i < j < |cs| ==> cs[i] != cs[j])
    && (forall i :: 0 <= i < |cs| - 1 ==> fat[cs[i]] == cs[i + 1])
    && fat[cs[|cs| - 1]] >= END_MIN
  }

  lemma {:induction false} ChainIter(fat: seq<nat>, cs: seq<nat>, n: nat)
    requires InRange(fat) && IsChain(fat, cs)
    ensures Iter(fat, cs[0], n) == if n < |cs| then cs[n] else fat[cs[|cs| - 1]]
  {
    if n > 0 {
      ChainIter(fat, cs, n - 1);
      IterStep(fat, cs[0], n - 1);
    }
  }

  /** A chain is freed cleanly, and frees exactly its own clusters. */
  lemma ChainIsClean(fat: seq<nat>, cs: seq<nat>)
    requires InRange(fat) && IsChain(fat, cs)
    ensures cs != [] && Clean(fat, cs[0])
    ensures forall c :: Reachable(fat, cs[0], c) <==> c in cs
  {
    forall n: nat
      ensures Iter(fat, cs[0], n) == if n < |cs| then cs[n] else fat[cs[|cs| - 1]]
      ensures n < |cs| ==> fat[cs[n]] != 0
    {
      ChainIter(fat, cs, n);
      assert n < |cs| - 1 ==> fat[cs[n]] == cs[n + 1];
    }
    assert !Link(Iter(fat, cs[0], |cs|));
    forall c | c in cs
      ensures Reachable(fat, cs[0], c)
    {
      var i :| 0 <= i < |cs| && cs[i] == c;
      assert Iter(fat, cs[0], i) == c;
    }
  }

  /** Chains that start at the same cluster are the same chain. */
  lemma ChainUnique(fat: seq<nat>, cs: seq<nat>, ds: seq<nat>)
    requires InRange(fat) && IsChain(fat, cs) && IsChain(fat, ds) && cs[0] == ds[0]
    ensures cs == ds
  {
    forall n: nat
      ensures Iter(fat, cs[0], n) == if n < |cs| then cs[n] else fat[cs[|cs| - 1]]
      ensures Iter(fat, cs[0], n) == if n < |ds| then ds[n] else fat[ds[|ds| - 1]]
    {
      ChainIter(fat, cs, n);
      ChainIter(fat, ds, n);
    }
    assert !Link(Iter(fat, cs[0], |cs|)) && !Link(Iter(fat, ds[0], |ds|));
    assert |cs| == |ds|;
    forall i | 0 <= i < |cs|
      ensures cs[i] == ds[i]
    {
      assert Iter(fat, cs[0], i) == cs[i];
    }
  }

  /** One cluster linked to itself: freeing it is not a clean walk, though it frees what is reachable. */
  lemma SelfLink(fat: seq<nat>)
    requires fat == [0x0FFF_FFF8, 0x0FFF_FFFF, 2]
    ensures InRange(fat) && !Clean(fat, 2) && FreedAll(fat, 2, fat[2 := 0]) && FreeEntries(fat[2 := 0]) == 1
  {
    ProgressStart(fat, 2);
    ProgressStep(fat, 2, 0, false, 2, fat);
    ProgressStep(fat, 2, 1, false, 2, fat[2 := 0]);
    ProgressEnd(fat, 2, 1, true, 0, fat[2 := 0][2 := 0]);
    assert Zeros(fat[2 := 0], 2) == 0;
  }
}
