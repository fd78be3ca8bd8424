/** Removing a directory entry together with its long-name run (kernel/src/fs/fat32.c: lba_to_cluster,
    mark_removed_with_lfn). */
module FatRemove {
  import opened Bytes
  import opened FatLayout
  import opened FatTable
  import opened FatVolume
  import opened FatContent
  import opened FatDirEntry
  import opened FatListing
  import opened FatDirectory
  import opened FatScan
  import opened FatCreate
  import opened FatFile

  /** The cluster that a sector belongs to. */
  function LbaToCluster(g: Geometry, lba: nat): nat {
    if lba < g.DataStart() || g.spc == 0 then 0 else (lba - g.DataStart()) / g.spc + 2
  }

  /** lba_to_cluster inverts cluster_to_lba on every sector of a cluster. */
  lemma LbaToClusterInverts(g: Geometry, c: nat, k: nat)
    requires 2 <= c && k < g.spc
    ensures LbaToCluster(g, g.Lba(c) + k) == c
  {
    ProductIsMultiplication(c - 2, g.spc);
    DivideBack(c - 2, g.spc, k);
  }

  lemma DivideBack(n: nat, m: nat, k: nat)
    requires k < m
    ensures (n * m + k) / m == n
  {
    var x := n * m + k;
    var q := x / m;
    assert x == q * m + x % m;
    if q < n {
      MulGap(q, n, m);
    } else if n < q {
      MulGap(n, q, m);
    }
  }

  function Tomb(e: Entry): (r: Entry)
    ensures IsTomb(r) && forall i :: 1 <= i < ENTRY ==> r[i] == e[i]
  {
    e[0 := 0xE5]
  }

  lemma PatchHead(b: seq<byte>, p: nat, x: byte)
    requires p + ENTRY <= |b|
    ensures Splice(b, p, [x]) == Splice(b, p, b[p..p + ENTRY][0 := x])
  {
  }

  /** Overwrites the first byte of one entry with the removal mark. */
  method WriteTomb(v: Volume, p: Place, ghost cs: seq<nat>, ghost s: Spot, ghost n: nat)
    requires IsDirectory(v, cs) && Located(v.g, cs, p, s, n)
    modifies v`sectors
    ensures IsDirectory(v, cs) && v.Fat() == old(v.Fat()) && DataSameOutside(old(v.Data()), v.Data(), cs)
    ensures n < |Dir(v, cs)| && Dir(v, cs) == old(Dir(v, cs))[n := Tomb(old(Dir(v, cs))[n])]
  {
    hide Fits, FatOf, DataOf, CopiesEqual, Raw, DirEntries, Product, IsChain, Splice;
    DirectoryChain(v, cs);
    ChainDistinct(v.Fat(), cs, s.j);
    EntryAt(v.Data(), cs, Per(v.g), s.j, s.i);
    ghost var b, e := v.Data()[cs[s.j]], Dir(v, cs)[n];
    PatchHead(b, ENTRY * s.i, 0xE5);
    DirPatched(v.Data(), cs, Per(v.g), s.j, s.i, Tomb(e));
    SpliceOne(Dir(v, cs), n, Tomb(e));
    SectorOfEntry(s.i, v.g.spc);
    v.PatchSector(p.lba, p.off, [0xE5], cs[s.j]);
  }

  /** The complete long-name run of the short entry at `t`: numbered down to 1 from its marked first
      entry, all with the short name's checksum. */
  ghost predicate ValidRun(es: seq<Entry>, q: nat, t: nat) {
    && q < t < |es| && t - q <= MAX_LFN
    && forall i :: q <= i < t ==>
      && IsLfn(es[i]) && !IsFree(es[i]) && IsFirst(es[i]) == (i == q)
      && Seq(es[i]) == t - i && es[i][13] == Checksum(es[t][..11])
  }

  /** No end mark among the entries from `lo` up to `hi`. */
  ghost predicate NoEnd(es: seq<Entry>, lo: nat, hi: nat) {
    hi <= |es| && forall i :: lo <= i < hi ==> !IsEnd(es[i])
  }

  lemma NoEndStep(es: seq<Entry>, lo: nat, hi: nat, top: nat)
    requires lo <= hi < |es| && NoEnd(es, lo, hi)
    ensures !IsEnd(es[hi]) ==> NoEnd(es, lo, hi + 1)
    ensures IsEnd(es[hi]) && hi < top ==> !NoEnd(es, lo, top)
  {
  }

  lemma NothingEnds(es: seq<Entry>, lo: nat)
    ensures lo <= |es| ==> NoEnd(es, lo, lo)
  {
  }

  lemma ValidRunAt(es: seq<Entry>, q: nat, t: nat, i: nat)
    requires ValidRun(es, q, t)
    ensures q < t && t - q <= MAX_LFN
    ensures q <= i < t ==> IsLfn(es[i]) && !IsFree(es[i]) && IsFirst(es[i]) == (i == q)
    ensures q <= i < t ==> Seq(es[i]) == t - i && es[i][13] == Checksum(es[t][..11])
  {
  }

  /** The long-name entries gathered so far: entries `from` and on of cluster `j` of the chain. */
  ghost predicate Gathered(g: Geometry, cs: seq<nat>, es: seq<Entry>, j: nat, from: nat, run: seq<Place>) {
    forall r :: 0 <= r < |run| ==> LfnSlot(g, cs, es, j, from + r, run[r])
  }

  ghost predicate LfnSlot(g: Geometry, cs: seq<nat>, es: seq<Entry>, j: nat, i: nat, p: Place) {
    var n := Product(j, Per(g)) + i;
    n < |es| && IsLfn(es[n]) && !IsFree(es[n]) && Located(g, cs, p, Spot(j, i), n)
  }

  lemma GatherOne(g: Geometry, cs: seq<nat>, es: seq<Entry>, j: nat, i: nat, run: seq<Place>, run': seq<Place>,
                  p: Place)
    requires |run| <= i && Gathered(g, cs, es, j, i - |run|, run) && LfnSlot(g, cs, es, j, i, p)
    requires run' == [] || run' == [p] || run' == run + [p]
    ensures Gathered(g, cs, es, j, i + 1 - |run'|, run')
  {
    hide LfnSlot;
    forall r | 0 <= r < |run'|
      ensures LfnSlot(g, cs, es, j, i + 1 - |run'| + r, run'[r])
    {
      if r < |run'| - 1 {
        assert LfnSlot(g, cs, es, j, i - |run| + r, run[r]);
      }
    }
  }

  /** Where entry `i` of the cluster at `lba` is. */
  function PlaceAt(lba: nat, i: nat): Place { Place(lba + ENTRY * i / SECTOR, ENTRY * i % SECTOR) }

  lemma PlaceLocated(g: Geometry, cs: seq<nat>, es: seq<Entry>, j: nat, i: nat)
    requires j < |cs| && 2 <= cs[j] && i < Per(g) && Product(j, Per(g)) + i < |es|
    requires IsLfn(es[Product(j, Per(g)) + i]) && !IsFree(es[Product(j, Per(g)) + i])
    ensures LfnSlot(g, cs, es, j, i, PlaceAt(g.Lba(cs[j]), i))
  {
  }

  lemma SamePlace(g: Geometry, cs: seq<nat>, s: Spot, n: nat, p: Place, i: nat)
    requires Located(g, cs, p, s, n)
    ensures PlaceAt(g.Lba(cs[s.j]), i) == p <==> i == s.i
  {
    hide Product;
    assert s.i == PER_SECTOR * (s.i / PER_SECTOR) + s.i % PER_SECTOR;
    assert ENTRY * i == SECTOR * (ENTRY * i / SECTOR) + ENTRY * i % SECTOR;
  }

  lemma SpotBounds(g: Geometry, cs: seq<nat>, p: Place, s: Spot, n: nat)
    requires Located(g, cs, p, s, n)
    ensures s.j < |cs| && s.i < Per(g) && 2 <= cs[s.j] && n == Product(s.j, Per(g)) + s.i
  {
  }

  /** What the scan does with one long-name entry: start over at a marked first entry, then extend
      the run if number and checksum are the ones due. */
  method TrackLfn(e: Entry, sum: byte, place: Place, run0: seq<Place>, due0: int) returns (run: seq<Place>, due: int)
    requires |run0| <= MAX_LFN
    ensures |run| <= MAX_LFN && (run == [] || run == [place] || run == run0 + [place])
    ensures IsFirst(e) && e[13] == sum ==> run == [place] && due == Seq(e) - 1
    ensures !IsFirst(e) && |run0| < MAX_LFN && Seq(e) == due0 && e[13] == sum ==>
      run == run0 + [place] && due == Seq(e) - 1
  {
    run, due := run0, due0;
    if IsFirst(e) {
      run, due := [], Seq(e);
    }
    if |run| < MAX_LFN && Seq(e) == due && e[13] == sum {
      run, due := run + [place], Seq(e) - 1;
    } else {
      run := [];
    }
  }

  /** The scan of the target's own cluster up to the target: the run of long-name entries right before
      it, and whether that run counts down to 1. A valid run that starts in this cluster is found whole. */
  method GatherRun(v: Volume, cluster: nat, target: Place, sum: byte, ghost cs: seq<nat>, ghost s: Spot,
                   ghost n: nat, ghost q: nat)
    returns (found: bool, run: seq<Place>, whole: bool)
    requires IsDirectory(v, cs) && Located(v.g, cs, target, s, n) && cs[s.j] == cluster && n < |Dir(v, cs)|
    requires !IsFree(Dir(v, cs)[n]) && !IsLfn(Dir(v, cs)[n]) && sum == Checksum(Dir(v, cs)[n][..11])
    ensures found <==> NoEnd(Dir(v, cs), Product(s.j, Per(v.g)), n)
    ensures found ==> |run| <= s.i && Gathered(v.g, cs, Dir(v, cs), s.j, s.i - |run|, run)
    ensures found && Product(s.j, Per(v.g)) <= q && ValidRun(Dir(v, cs), q, n) ==> |run| == n - q && whole
  {
    hide Fits, FatOf, DataOf, CopiesEqual, Raw, DirEntries, Product, IsChain, Gathered, Checksum, ValidRun, NoEnd,
         Located, ClusterHolds;
    SpotBounds(v.g, cs, target, s, n);
    DirectoryChain(v, cs);
    ChainNext(v.Fat(), cs, s.j);
    var cbuf := v.ReadCluster(cluster);
    ClusterIs(v.Data(), cs, Per(v.g), s.j);
    found, run, whole := GatherIn(v.g, cbuf, cluster, target, sum, cs, Dir(v, cs), s, n, q);
  }

  function EntryIn(cbuf: seq<byte>, i: nat): seq<byte>
    requires ENTRY * i + ENTRY <= |cbuf|
  {
    cbuf[ENTRY * i..ENTRY * i + ENTRY]
  }

  /** The buffer holds the entries of `es` from `base` on. */
  ghost predicate ClusterHolds(cbuf: seq<byte>, per: nat, es: seq<Entry>, base: nat) {
    |cbuf| == ENTRY * per && base + per <= |es| && forall i: nat :: i < per ==> EntryIn(cbuf, i) == es[base + i]
  }

  lemma ClusterIs(data: seq<seq<byte>>, cs: seq<nat>, per: nat, j: nat)
    requires DirChain(data, cs, per) && j < |cs| && cs[j] < |data| && per > 0
    ensures ClusterHolds(data[cs[j]], per, DirEntries(data, cs, per), Product(j, per))
  {
    hide DirEntries, Product;
    EntryAt(data, cs, per, j, 0);
    forall i: nat | i < per
      ensures EntryIn(data[cs[j]], i) == DirEntries(data, cs, per)[Product(j, per) + i]
    {
      EntryAt(data, cs, per, j, i);
    }
  }

  /** The scan, over the cluster's buffer. */
  method GatherIn(g: Geometry, cbuf: seq<byte>, cluster: nat, target: Place, sum: byte,
                  ghost cs: seq<nat>, ghost es: seq<Entry>, ghost s: Spot, ghost n: nat, ghost q: nat)
    returns (found: bool, run: seq<Place>, whole: bool)
    requires Located(g, cs, target, s, n) && s.j < |cs| && cs[s.j] == cluster && n < |es|
    requires ClusterHolds(cbuf, Per(g), es, Product(s.j, Per(g)))
    requires !IsFree(es[n]) && !IsLfn(es[n]) && sum == Checksum(es[n][..11])
    ensures found <==> NoEnd(es, Product(s.j, Per(g)), n)
    ensures found ==> |run| <= s.i && Gathered(g, cs, es, s.j, s.i - |run|, run)
    ensures found && Product(s.j, Per(g)) <= q && ValidRun(es, q, n) ==> |run| == n - q && whole
  {
    hide Product, Gathered, Checksum, ValidRun, IsFirst, Seq, NoEnd, Located, LfnSlot, PlaceAt, OnTrack;
    SpotBounds(g, cs, target, s, n);
    ghost var base := Product(s.j, Per(g));
    ghost var valid := base <= q && ValidRun(es, q, n);
    run, whole, found := [], false, false;
    NothingGathered(g, cs, es, s.j, 0);
    NothingEnds(es, base);
    NotOnTrackYet(valid, q, n, base);
    var lba := g.Lba(cluster);
    var due: int := 0;
    var i := 0;
    while true
      invariant 0 <= i <= s.i && |run| <= i && |run| <= MAX_LFN
      invariant NoEnd(es, base, base + i)
      invariant Gathered(g, cs, es, s.j, i - |run|, run)
      invariant OnTrack(valid, q, n, base + i, |run|, due)
      decreases s.i - i
    {
      var e := EntryIn(cbuf, i);
      var place := PlaceAt(lba, i);
      SamePlace(g, cs, s, n, target, i);
      NoEndStep(es, base, base + i, n);
      if e[0] == 0x00 {
        return;
      }
      ghost var run0, due0 := run, due;
      if e[0] != 0xE5 && e[11] % 0x10 == 0x0F {
        run, due := TrackLfn(e, sum, place, run, due);
        PlaceLocated(g, cs, es, s.j, i);
        GatherOne(g, cs, es, s.j, i, run0, run, place);
      } else if place == target {
        break;
      } else {
        NothingGathered(g, cs, es, s.j, i + 1);
        run := [];
      }
      StillOnTrack(es, valid, q, n, base + i, e, sum, place, run0, due0, run, due);
      i := i + 1;
    }
    OnTrackEnds(es, valid, q, n, |run|, due);
    found, whole := true, |run| > 0 && due == 0;
  }

  /** Inside a valid run, as many entries have been gathered as have been passed, and the right number is due. */
  ghost predicate OnTrack(valid: bool, q: nat, n: nat, x: nat, gathered: nat, due: int) {
    valid && q < x ==> gathered == x - q && due == n - x
  }

  lemma StillOnTrack(es: seq<Entry>, valid: bool, q: nat, n: nat, x: nat, e: Entry, sum: byte, place: Place,
                     run0: seq<Place>, due0: int, run: seq<Place>, due: int)
    requires (valid ==> ValidRun(es, q, n)) && x < n < |es| && e == es[x] && sum == Checksum(es[n][..11])
    requires |run0| <= MAX_LFN
    requires OnTrack(valid, q, n, x, |run0|, due0)
    requires IsLfn(e) && !IsFree(e) ==>
      && (IsFirst(e) && e[13] == sum ==> run == [place] && due == Seq(e) - 1)
      && (!IsFirst(e) && |run0| < MAX_LFN && Seq(e) == due0 && e[13] == sum ==>
           run == run0 + [place] && due == Seq(e) - 1)
    ensures OnTrack(valid, q, n, x + 1, |run|, due)
  {
    hide ValidRun, IsFirst, Seq, IsLfn, IsFree, Checksum;
    if valid {
      ValidRunAt(es, q, n, x);
    }
  }

  lemma NotOnTrackYet(valid: bool, q: nat, n: nat, x: nat)
    requires valid ==> x <= q
    ensures OnTrack(valid, q, n, x, 0, 0)
  {
  }

  lemma OnTrackEnds(es: seq<Entry>, valid: bool, q: nat, n: nat, gathered: nat, due: int)
    requires OnTrack(valid, q, n, n, gathered, due) && (valid ==> ValidRun(es, q, n))
    ensures valid ==> gathered == n - q > 0 && due == 0
  {
  }

  lemma NothingGathered(g: Geometry, cs: seq<nat>, es: seq<Entry>, j: nat, i: nat)
    ensures Gathered(g, cs, es, j, i, [])
  {
  }

  /** `es'` is `es` with the entries `r` to `t` marked as removed, where all but `t` are long-name entries. */
  ghost predicate TombedRun(es: seq<Entry>, es': seq<Entry>, r: nat, t: nat) {
    && r <= t < |es| == |es'|
    && (forall i :: r <= i < t ==> IsLfn(es[i]) && !IsFree(es[i]))
    && (forall i :: 0 <= i < |es| ==> es'[i] == if r <= i <= t then Tomb(es[i]) else es[i])
  }

  /** `fewer` is `some` without the item listed for entry `n`. */
  ghost predicate Loses(some: seq<Listed>, fewer: seq<Listed>, n: nat) {
    exists p :: 0 <= p < |some| && some[p].index == n && fewer == some[..p] + some[p + 1..]
  }

  /** Removal commutes with listing. */
  lemma TombedListing(es: seq<Entry>, es': seq<Entry>, r: nat, t: nat)
    requires TombedRun(es, es', r, t) && IsShown(es[t]) && NoEnd(es, 0, t)
    ensures Loses(Listing(es), Listing(es'), t)
    ensures TailFree(es) ==> TailFree(es')
  {
    hide Scan, Listing, IsShown, IsLfn;
    forall i | r <= i <= t
      ensures IsTomb(es'[i])
    {
    }
    RemoveListing(es, es', r, t);
    if TailFree(es) {
      RemoveKeepsTail(es, es', r, t);
    }
  }

  /** The removal marks on a gathered run. */
  method WriteTombs(v: Volume, run: seq<Place>, ghost cs: seq<nat>, ghost j: nat, ghost from: nat,
                    ghost es: seq<Entry>, ghost t: nat)
    requires IsDirectory(v, cs) && Gathered(v.g, cs, es, j, from, run)
    requires Product(j, Per(v.g)) + from + |run| == t && TombedRun(es, Dir(v, cs), t, t)
    modifies v`sectors
    ensures IsDirectory(v, cs) && v.Fat() == old(v.Fat()) && DataSameOutside(old(v.Data()), v.Data(), cs)
    ensures TombedRun(es, Dir(v, cs), t - |run|, t)
  {
    hide Fits, FatOf, DataOf, CopiesEqual, Raw, DirEntries, Product, IsChain, Located, Tomb, IsLfn, IsFree;
    var r := 0;
    ghost var base := Product(j, Per(v.g)) + from;
    while r < |run|
      invariant 0 <= r <= |run| && IsDirectory(v, cs) && v.Fat() == old(v.Fat())
      invariant DataSameOutside(old(v.Data()), v.Data(), cs) && |Dir(v, cs)| == |es|
      invariant forall i :: base <= i < base + r ==> IsLfn(es[i]) && !IsFree(es[i])
      invariant forall i :: 0 <= i < |es| ==>
        Dir(v, cs)[i] == if base <= i < base + r || i == t then Tomb(es[i]) else es[i]
    {
      assert LfnSlot(v.g, cs, es, j, from + r, run[r]);
      WriteTomb(v, run[r], cs, Spot(j, from + r), base + r);
      r := r + 1;
    }
  }

  /** mark_removed_with_lfn, started at the cluster that holds the target. The target is marked unless an
      end mark comes first in its cluster; with it goes the long-name run right before it if that counts
      down to 1, and a valid run that lies wholly in the cluster goes as a whole. */
  method MarkRemovedWithLfn(v: Volume, start: nat, target: Place, kmallocOk: bool,
                            ghost cs: seq<nat>, ghost s: Spot, ghost n: nat, ghost q: nat)
    returns (ok: bool, ghost r: nat)
    requires IsDirectory(v, cs) && Located(v.g, cs, target, s, n) && cs[s.j] == start
    requires n < |Dir(v, cs)| && !IsFree(Dir(v, cs)[n]) && !IsLfn(Dir(v, cs)[n])
    modifies v`sectors
    ensures IsDirectory(v, cs) && v.Fat() == old(v.Fat()) && DataSameOutside(old(v.Data()), v.Data(), cs)
    ensures ok == kmallocOk
    ensures !ok || !NoEnd(old(Dir(v, cs)), Product(s.j, Per(v.g)), n) ==> unchanged(v)
    ensures ok && NoEnd(old(Dir(v, cs)), Product(s.j, Per(v.g)), n) ==> TombedRun(old(Dir(v, cs)), Dir(v, cs), r, n)
    ensures ok && NoEnd(old(Dir(v, cs)), 0, n) && IsShown(old(Dir(v, cs))[n]) ==>
      Loses(Listing(old(Dir(v, cs))), Listing(Dir(v, cs)), n)
    ensures ok && NoEnd(old(Dir(v, cs)), 0, n) && Product(s.j, Per(v.g)) <= q && ValidRun(old(Dir(v, cs)), q, n) ==>
      r == q
  {
    hide Fits, FatOf, DataOf, CopiesEqual, Raw, DirEntries, Product, IsChain, Gathered, Checksum, Located, ValidRun,
         IsShown, Listing, Loses, IsLfn, IsFree, IsEnd, Tomb;
    ghost var es := Dir(v, cs);
    ok, r := kmallocOk, n;
    SpotBounds(v.g, cs, target, s, n);
    var entry := ReadEntry(v, target, cs, s, n);
    assert entry[..8] + entry[8..11] == entry[..11];
    var sum := LfnChecksum(entry[..8], entry[8..11]);
    if !kmallocOk {
      return;
    }
    var found, run, whole := GatherRun(v, start, target, sum, cs, s, n, q);
    if !found {
      return;
    }
    WriteTomb(v, target, cs, s, n);
    if |run| > 0 && whole {
      ghost var data := v.Data();
      WriteTombs(v, run, cs, s.j, s.i - |run|, es, n);
      SameOutsideTwice(old(v.Data()), data, v.Data(), cs);
      r := n - |run|;
    }
    if NoEnd(es, 0, n) && IsShown(es[n]) {
      TombedListing(es, Dir(v, cs), r, n);
    }
  }

  method ReadEntry(v: Volume, p: Place, ghost cs: seq<nat>, ghost s: Spot, ghost n: nat) returns (e: seq<byte>)
    requires IsDirectory(v, cs) && Located(v.g, cs, p, s, n)
    ensures n < |Dir(v, cs)| && |e| == ENTRY && e == Dir(v, cs)[n]
  {
    hide Fits, FatOf, DataOf, CopiesEqual, Raw, DirEntries, Product, IsChain;
    DirectoryChain(v, cs);
    ChainDistinct(v.Fat(), cs, s.j);
    EntryAt(v.Data(), cs, Per(v.g), s.j, s.i);
    SectorOfEntry(s.i, v.g.spc);
    e := v.ReadSlice(p.lba, p.off, ENTRY, cs[s.j]);
  }

  /** Freeing a chain leaves every chain that shares no cluster with it. */
  lemma FreedApart(fat: seq<nat>, fat': seq<nat>, fs: seq<nat>, cs: seq<nat>)
    requires InRange(fat) && IsChain(fat, fs) && FreedAll(fat, fs[0], fat') && IsChain(fat, cs) && Apart(fs, cs)
    ensures IsChain(fat', cs) && forall c :: 0 <= c < |fat| ==> fat'[c] == if c in fs then 0 else fat[c]
  {
    ChainIsClean(fat, fs);
    forall i | 0 <= i < |cs|
      ensures cs[i] !in fs
    {
      assert cs[i] in cs;
    }
  }

  /** Frees the clusters of a file and no others. */
  method FreeFile(v: Volume, f: FileNode, ghost fs: seq<nat>, ghost cs: seq<nat>)
    requires IsDirectory(v, cs) && InRange(v.Fat()) && HoldsFile(v.Fat(), v.g.ClusterSize(), f.start, f.size, fs)
    requires Apart(fs, cs)
    modifies v
    ensures IsDirectory(v, cs) && v.Data() == old(v.Data()) && Dir(v, cs) == old(Dir(v, cs))
    ensures forall c :: 0 <= c < v.g.Limit() ==> v.Fat()[c] == if c in fs then 0 else old(v.Fat())[c]
    ensures old(v.Exact() && FsinfoSigned(v.sectors[v.g.fsinfoLba])) ==> v.Exact()
  {
    hide Fits, FatOf, DataOf, CopiesEqual, Raw, DirEntries, Product, FreedAll, Clean, Reachable, IsChain;
    if f.start >= 2 {
      ghost var fat := v.Fat();
      ChainIsClean(fat, fs);
      ChainNext(fat, fs, 0);
      v.FreeChain(f.start);
      FreedApart(fat, v.Fat(), fs, cs);
    } else {
      NoSuchStart(v.Fat(), fs, f.start);
    }
  }

  lemma NoSuchStart(fat: seq<nat>, fs: seq<nat>, start: nat)
    requires start < 2
    ensures !(IsChain(fat, fs) && fs[0] == start)
  {
  }

  /** remove_single_node: the file's clusters become free, exactly they, and its directory's listing
      loses exactly its entry. */
  method RemoveSingleNode(v: Volume, f: FileNode, kmallocOk: bool,
                          ghost fs: seq<nat>, ghost cs: seq<nat>, ghost s: Spot, ghost n: nat)
    requires IsDirectory(v, cs) && InRange(v.Fat()) && HoldsFile(v.Fat(), v.g.ClusterSize(), f.start, f.size, fs)
    requires Apart(fs, cs) && Located(v.g, cs, Place(f.direntSector, f.direntOffset), s, n)
    requires n < |Dir(v, cs)| && NoEnd(Dir(v, cs), 0, n) && IsShown(Dir(v, cs)[n])
    modifies v
    ensures IsDirectory(v, cs) && DataSameOutside(old(v.Data()), v.Data(), cs)
    ensures forall c :: 0 <= c < v.g.Limit() ==> v.Fat()[c] == if c in fs then 0 else old(v.Fat())[c]
    ensures kmallocOk ==> Loses(Listing(old(Dir(v, cs))), Listing(Dir(v, cs)), n)
    ensures old(v.Exact() && FsinfoSigned(v.sectors[v.g.fsinfoLba])) ==> v.Exact()
  {
    hide Fits, FatOf, DataOf, CopiesEqual, Raw, DirEntries, Product, IsChain, Listing, Loses, IsLfn, NoEnd, Located,
         DataSameOutside, HoldsFile, ShortText;
    TargetCluster(v.g, cs, Place(f.direntSector, f.direntOffset), s, n);
    FreeFile(v, f, fs, cs);
    var start := LbaToCluster(v.g, f.direntSector);
    var _, _ := MarkRemovedWithLfn(v, start, Place(f.direntSector, f.direntOffset), kmallocOk, cs, s, n, n);
  }

  lemma TargetCluster(g: Geometry, cs: seq<nat>, p: Place, s: Spot, n: nat)
    requires Located(g, cs, p, s, n)
    ensures s.j < |cs| && LbaToCluster(g, p.lba) == cs[s.j]
  {
    hide Product;
    SectorOfEntry(s.i, g.spc);
    LbaToClusterInverts(g, cs[s.j], s.i / PER_SECTOR);
  }
}
