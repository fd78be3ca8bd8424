/** Making and removing directory entries on the volume (kernel/src/fs/fat32.c: find_free_dir_slots,
    lfn_fill_chunk, write_lfn_and_short, mark_removed_with_lfn). */
module FatCreate {
  import opened Bytes
  import opened FatLayout
  import opened FatTable
  import opened FatVolume
  import opened FatContent
  import opened FatDirEntry
  import opened FatListing
  import opened FatDirectory
  import opened FatShortName
  import opened FatScan
  import FatFile

  /** A free entry at position `n`, with its place on the disk. */
  ghost predicate FreeSlot(g: Geometry, cs: seq<nat>, es: seq<Entry>, n: nat, p: Place, s: Spot) {
    n < |es| && IsFree(es[n]) && Located(g, cs, p, s, n)
  }

  /** The slots from position `at` on that the search has collected: all free, with an entry in use
      (or nothing) before them, and each at its place on the disk. */
  ghost predicate Collected(g: Geometry, cs: seq<nat>, es: seq<Entry>, at: nat, run: seq<Place>, spots: seq<Spot>) {
    && |run| == |spots| && at + |run| <= |es|
    && (forall q :: 0 <= q < |run| ==> FreeSlot(g, cs, es, at + q, run[q], spots[q]))
    && (at > 0 ==> !IsFree(es[at - 1]))
  }

  lemma CollectOne(g: Geometry, cs: seq<nat>, es: seq<Entry>, at: nat, run: seq<Place>, spots: seq<Spot>, p: Place,
                   s: Spot)
    requires Collected(g, cs, es, at, run, spots) && at + |run| < |es| && Located(g, cs, p, s, at + |run|)
    ensures IsFree(es[at + |run|]) ==> Collected(g, cs, es, at, run + [p], spots + [s])
    ensures !IsFree(es[at + |run|]) ==> Collected(g, cs, es, at + |run| + 1, [], [])
  {
    hide Located, IsFree;
    var r, t := run + [p], spots + [s];
    forall q | 0 <= q < |r| && IsFree(es[at + |run|])
      ensures FreeSlot(g, cs, es, at + q, r[q], t[q])
    {
      if q < |run| {
        assert FreeSlot(g, cs, es, at + q, run[q], spots[q]);
      }
    }
  }

  /** What was collected stays collected when the directory grows at its end. */
  lemma CollectedGrown(g: Geometry, cs: seq<nat>, es: seq<Entry>, at: nat, run: seq<Place>, spots: seq<Spot>,
                       c: nat, more: seq<Entry>)
    requires Collected(g, cs, es, at, run, spots)
    ensures Collected(g, cs + [c], es + more, at, run, spots)
  {
    hide IsFree, Product;
    forall q | 0 <= q < |run|
      ensures FreeSlot(g, cs + [c], es + more, at + q, run[q], spots[q])
    {
      assert FreeSlot(g, cs, es, at + q, run[q], spots[q]);
    }
  }

  /** The search within one cluster; stops when `needed` slots in a row have been found. */
  method SearchCluster(v: Volume, cluster: nat, needed: nat, run0: seq<Place>,
                       ghost spots0: seq<Spot>, ghost at0: nat, ghost cs: seq<nat>, ghost j: nat)
    returns (run: seq<Place>, ghost spots: seq<Spot>, ghost at: nat)
    requires IsDirectory(v, cs) && j < |cs| && cs[j] == cluster && |run0| < needed
    requires at0 + |run0| == Product(j, Per(v.g)) && Collected(v.g, cs, Dir(v, cs), at0, run0, spots0)
    ensures Collected(v.g, cs, Dir(v, cs), at, run, spots) && |run| <= needed
    ensures |run| < needed ==> at + |run| == Product(j + 1, Per(v.g))
  {
    hide Volume.Counted, Fits, FatOf, DataOf, CopiesEqual, IsChain, Raw, DirEntries, Collected, Product;
    var g, per := v.g, Per(v.g);
    DirectoryChain(v, cs);
    ChainNext(v.Fat(), cs, j);
    ProductStep(j, per);
    var lba := g.Lba(cluster);
    var cbuf := v.ReadCluster(cluster);
    run, spots, at := run0, spots0, at0;
    var i := 0;
    while i < per
      invariant 0 <= i <= per && at + |run| == Product(j, per) + i && |run| < needed
      invariant Collected(g, cs, Dir(v, cs), at, run, spots)
    {
      EntryAt(v.Data(), cs, per, j, i);
      var e := cbuf[ENTRY * i..ENTRY * i + ENTRY];
      var place := Place(lba + ENTRY * i / SECTOR, ENTRY * i % SECTOR);
      CollectOne(g, cs, Dir(v, cs), at, run, spots, place, Spot(j, i));
      if e[0] == 0x00 || e[0] == 0xE5 {
        run, spots := run + [place], spots + [Spot(j, i)];
        if |run| == needed {
          return;
        }
      } else {
        run, spots, at := [], [], at + |run| + 1;
      }
      i := i + 1;
    }
  }

  const BLANK: Entry := Repeat(0, ENTRY)

  lemma BlankCluster(b: seq<byte>, per: nat)
    requires |b| == ENTRY * per && forall i :: 0 <= i < |b| ==> b[i] == 0
    ensures EntriesOf(b, per) == Repeat(BLANK, per)
  {
    forall i | 0 <= i < per
      ensures EntriesOf(b, per)[i] == BLANK
    {
    }
  }

  /** A free cluster linked behind `last`; 0 when the disk is full. */
  method LinkCluster(v: Volume, last: nat, ghost cs: seq<nat>) returns (newc: nat)
    requires v.Valid() && cs != [] && IsChain(v.Fat(), cs) && last == cs[|cs| - 1]
    modifies v
    ensures v.Valid() && v.Data() == old(v.Data())
    ensures newc == 0 ==> unchanged(v) && forall c :: 2 <= c < v.g.Limit() ==> v.Fat()[c] != 0
    ensures newc != 0 ==> 2 <= newc < v.g.Limit() && newc !in cs && Extends(old(v.Fat()), cs, v.Fat(), cs + [newc])
    ensures old(v.Counted()) ==> v.Counted()
  {
    hide Fits, FatOf, DataOf, CopiesEqual, IsChain, Extends, Volume.Counted;
    newc := FatFile.Append(v, last, cs);
    if newc != 0 {
      ghost var fat := v.Fat();
      v.Relink(newc, END_MARK);
      assert fat[newc := END_MARK] == fat;
    }
  }

  /** A zeroed cluster added at the end of a directory; 0 when the disk is full. */
  method GrowDirectory(v: Volume, last: nat, ghost cs: seq<nat>) returns (newc: nat)
    requires IsDirectory(v, cs) && last == cs[|cs| - 1]
    modifies v
    ensures v.Valid() && (newc == 0 ==> unchanged(v) && forall c :: 2 <= c < v.g.Limit() ==> v.Fat()[c] != 0)
    ensures newc != 0 ==>
      && 2 <= newc && IsDirectory(v, cs + [newc]) && Extends(old(v.Fat()), cs, v.Fat(), cs + [newc])
      && DataSameOutside(old(v.Data()), v.Data(), cs + [newc])
      && Dir(v, cs + [newc]) == old(Dir(v, cs)) + Repeat(BLANK, Per(v.g))
    ensures old(v.Counted()) ==> v.Counted()
  {
    hide Volume.Counted, Fits, FatOf, DataOf, CopiesEqual, Raw, DirEntries, IsChain, Grown, TableSameOutside,
         Product, EntriesOf;
    ghost var data, per := v.Data(), Per(v.g);
    DirectoryChain(v, cs);
    newc := LinkCluster(v, last, cs);
    if newc == 0 {
      return;
    }
    var blank := Repeat(0 as byte, v.g.ClusterSize());
    v.WriteCluster(newc, blank);
    NotInChain(cs, newc);
    DirFrame(data, v.Data(), cs, per);
    DirAppended(v.Data(), cs, newc, per);
    BlankCluster(blank, per);
    NewInList(cs, newc);
  }

  lemma NotInChain(cs: seq<nat>, c: nat)
    requires c !in cs
    ensures forall i :: 0 <= i < |cs| ==> cs[i] != c
  {
  }

  lemma NewInList(cs: seq<nat>, c: nat)
    ensures c in cs + [c]
  {
    assert (cs + [c])[|cs|] == c;
  }

  /** The slots of a new cluster, taken as far as needed. */
  method CollectNew(g: Geometry, cluster: nat, needed: nat, run0: seq<Place>, ghost spots0: seq<Spot>, ghost at: nat,
                    ghost cs: seq<nat>, ghost es: seq<Entry>)
    returns (run: seq<Place>, ghost spots: seq<Spot>)
    requires cs != [] && cs[|cs| - 1] == cluster && 2 <= cluster && |run0| < needed
    requires |es| == Product(|cs|, Per(g)) && at + |run0| == Product(|cs| - 1, Per(g))
    requires Collected(g, cs, es, at, run0, spots0)
    requires forall i :: Product(|cs| - 1, Per(g)) <= i < |es| ==> IsFree(es[i])
    ensures Collected(g, cs, es, at, run, spots) && |run| <= needed
    ensures |run| < needed ==> at + |run| == |es|
  {
    hide Collected, Product, IsFree;
    ghost var j := |cs| - 1;
    ProductStep(j, Per(g));
    var lba := g.Lba(cluster);
    run, spots := run0, spots0;
    var i := 0;
    while i < Per(g) && |run| < needed
      invariant 0 <= i <= Per(g) && at + |run| == Product(j, Per(g)) + i && |run| <= needed
      invariant Collected(g, cs, es, at, run, spots)
    {
      var place := Place(lba + ENTRY * i / SECTOR, ENTRY * i % SECTOR);
      CollectOne(g, cs, es, at, run, spots, place, Spot(j, i));
      run, spots := run + [place], spots + [Spot(j, i)];
      i := i + 1;
    }
  }

  /** `n` zero entries. */
  ghost function Blanks(n: nat): (r: seq<Entry>)
    ensures |r| == n && forall i :: 0 <= i < n ==> r[i] == BLANK
  {
    Repeat(BLANK, n)
  }

  /** The search of the existing clusters. */
  method SearchSlots(v: Volume, dirCluster: nat, needed: nat, ghost cs: seq<nat>)
    returns (run: seq<Place>, last: nat, ghost spots: seq<Spot>, ghost at: nat)
    requires IsDirectory(v, cs) && cs[0] == dirCluster && needed > 0
    ensures Collected(v.g, cs, Dir(v, cs), at, run, spots) && |run| <= needed
    ensures |run| < needed ==> at + |run| == |Dir(v, cs)| && last == cs[|cs| - 1]
  {
    hide Volume.Counted, Fits, FatOf, DataOf, CopiesEqual, IsChain, Raw, DirEntries, Collected, Product;
    DirectoryChain(v, cs);
    var cluster: nat := dirCluster;
    run, spots, at, last := [], [], 0, dirCluster;
    ghost var j: nat := 0;
    NothingCollected(v.g, cs, Dir(v, cs));
    while Link(cluster)
      invariant j <= |cs| && (Link(cluster) ==> j < |cs| && cs[j] == cluster) && (!Link(cluster) ==> j == |cs|)
      invariant j > 0 ==> last == cs[j - 1]
      invariant Collected(v.g, cs, Dir(v, cs), at, run, spots)
      invariant |run| < needed && at + |run| == Product(j, Per(v.g))
      decreases |cs| - j
    {
      run, spots, at := SearchCluster(v, cluster, needed, run, spots, at, cs, j);
      if |run| == needed {
        return;
      }
      ChainNext(v.Fat(), cs, j);
      last := cluster;
      cluster := v.FatGet(cluster);
      j := j + 1;
    }
  }

  lemma NothingCollected(g: Geometry, cs: seq<nat>, es: seq<Entry>)
    ensures Collected(g, cs, es, 0, [], []) && Product(0, Per(g)) == 0
  {
  }

  /** find_free_dir_slots: a run of free slots, the directory grown by zeroed clusters if it has none. */
  method FindFreeDirSlots(v: Volume, dirCluster: nat, needed: nat, kmallocOk: bool, ghost cs: seq<nat>)
    returns (ok: bool, run: seq<Place>, ghost spots: seq<Spot>, ghost at: nat, ghost cs': seq<nat>, ghost grown: nat)
    requires IsDirectory(v, cs) && cs[0] == dirCluster && needed > 0
    modifies v
    ensures IsDirectory(v, cs') && Extends(old(v.Fat()), cs, v.Fat(), cs')
    ensures DataSameOutside(old(v.Data()), v.Data(), cs')
    ensures Dir(v, cs') == old(Dir(v, cs)) + Blanks(grown)
    ensures ok ==> |run| == needed && Collected(v.g, cs', Dir(v, cs'), at, run, spots)
    ensures !ok ==> needed > MAX_LFN + 1 || !kmallocOk || forall c :: 2 <= c < v.g.Limit() ==> v.Fat()[c] != 0
    ensures old(v.Counted()) ==> v.Counted()
  {
    hide Volume.Counted, Fits, FatOf, DataOf, CopiesEqual, IsChain, Raw, DirEntries, Collected, Product, Grown,
         TableSameOutside, DataSameOutside;
    run, spots, at, cs', grown := [], [], 0, cs, 0;
    ghost var fat, data := v.Fat(), v.Data();
    DirectoryKept(v, cs);
    if needed > MAX_LFN + 1 || !kmallocOk {
      ok := false;
      return;
    }
    var last;
    run, last, spots, at := SearchSlots(v, dirCluster, needed, cs);
    while |run| < needed
      invariant IsDirectory(v, cs') && Extends(fat, cs, v.Fat(), cs') && DataSameOutside(data, v.Data(), cs')
      invariant Dir(v, cs') == old(Dir(v, cs)) + Blanks(grown) && (old(v.Counted()) ==> v.Counted())
      invariant |run| <= needed && Collected(v.g, cs', Dir(v, cs'), at, run, spots)
      invariant |run| < needed ==> at + |run| == |Dir(v, cs')| && last == cs'[|cs'| - 1]
      decreases needed - |run|
    {
      ghost var fat1, cs1, data1, es1 := v.Fat(), cs', v.Data(), Dir(v, cs');
      var newc := GrowDirectory(v, last, cs1);
      if newc == 0 {
        ok := false;
        return;
      }
      cs', last, grown := cs1 + [newc], newc, grown + Per(v.g);
      ExtendsTransitive(fat, cs, fat1, cs1, v.Fat(), cs');
      SameOutsideGrown(data, data1, v.Data(), cs1, newc);
      CollectedGrown(v.g, cs1, es1, at, run, spots, newc, Repeat(BLANK, Per(v.g)));
      run, spots := CollectNew(v.g, newc, needed, run, spots, at, cs', Dir(v, cs'));
    }
    ok := true;
  }

  lemma DirectoryKept(v: Volume, cs: seq<nat>)
    requires IsDirectory(v, cs)
    ensures Extends(v.Fat(), cs, v.Fat(), cs) && DataSameOutside(v.Data(), v.Data(), cs)
    ensures Dir(v, cs) == Dir(v, cs) + Blanks(0)
  {
    hide DirEntries, FatOf, DataOf;
  }

  lemma SameOutsideGrown(data: seq<seq<byte>>, data1: seq<seq<byte>>, data2: seq<seq<byte>>, cs: seq<nat>, c: nat)
    requires DataSameOutside(data, data1, cs) && DataSameOutside(data1, data2, cs + [c])
    ensures DataSameOutside(data, data2, cs + [c])
  {
  }

  /** write_raw_entry: one entry of a directory replaced. */
  method WriteRawEntry(v: Volume, p: Place, e: Entry, ghost cs: seq<nat>, ghost s: Spot, ghost n: nat)
    requires IsDirectory(v, cs) && Located(v.g, cs, p, s, n)
    modifies v`sectors
    ensures IsDirectory(v, cs) && v.Fat() == old(v.Fat()) && DataSameOutside(old(v.Data()), v.Data(), cs)
    ensures n < |Dir(v, cs)| && Dir(v, cs) == old(Dir(v, cs))[n := e]
    ensures old(v.Counted()) ==> v.Counted()
  {
    hide Volume.Counted, Fits, FatOf, DataOf, CopiesEqual, Raw, DirEntries, Product, IsChain;
    DirectoryChain(v, cs);
    ChainDistinct(v.Fat(), cs, s.j);
    DirPatched(v.Data(), cs, Per(v.g), s.j, s.i, e);
    SpliceOne(Dir(v, cs), n, e);
    SectorOfEntry(s.i, v.g.spc);
    v.PatchSector(p.lba, p.off, e, cs[s.j]);
  }

  lemma SectorOfEntry(i: nat, spc: nat)
    requires i < PER_SECTOR * spc
    ensures i / PER_SECTOR < spc && SECTOR * (i / PER_SECTOR) + ENTRY * (i % PER_SECTOR) == ENTRY * i
  {
  }

  lemma SpliceOne<T>(s: seq<T>, n: nat, x: T)
    requires n < |s|
    ensures Splice(s, n, [x]) == s[n := x]
  {
  }

  /** lfn_fill_chunk: thirteen characters of the leaf into a long-name entry. */
  method LfnFillChunk(entry: Entry, leaf: seq<byte>, chunk: nat) returns (e: Entry)
    requires chunk * CHARS <= |leaf|
    ensures forall k :: 0 <= k < CHARS ==> CharAt(e, k) == StoredChar(leaf, chunk * CHARS + k)
    ensures forall i :: 0 <= i < ENTRY && (i == 0 || 11 <= i <= 13 || 26 <= i <= 27) ==> e[i] == entry[i]
  {
    e := entry;
    var ended := false;
    var k := 0;
    while k < CHARS
      invariant 0 <= k <= CHARS && ended == (chunk * CHARS + k > |leaf|)
      invariant forall i :: 0 <= i < k ==> CharAt(e, i) == StoredChar(leaf, chunk * CHARS + i)
      invariant forall i :: 0 <= i < ENTRY && (i == 0 || 11 <= i <= 13 || 26 <= i <= 27) ==> e[i] == entry[i]
    {
      var pos := chunk * CHARS + k;
      var ch: nat := 0xFFFF;
      if !ended {
        if pos < |leaf| {
          ch := leaf[pos];
        } else {
          ch := 0;
          ended := true;
        }
      }
      ghost var before := e;
      e := e[CharOffset(k) := ch % 0x100][CharOffset(k) + 1 := ch / 0x100];
      forall i | 0 <= i < k
        ensures CharAt(e, i) == CharAt(before, i)
      {
        CharsApart(i, k);
      }
      k := k + 1;
    }
  }

  lemma CharsApart(i: nat, k: nat)
    requires i < k < CHARS
    ensures CharOffset(i) + 1 < CharOffset(k)
  {
  }

  method MakeLfn(leaf: seq<byte>, sum: byte, n: nat, first: bool) returns (e: Entry)
    requires 1 <= n <= MAX_LFN && (n - 1) * CHARS <= |leaf|
    ensures LfnFor(e, leaf, sum, n, first) && e[12] == e[26] == e[27] == 0
  {
    var b: seq<byte> := Repeat(0xFF, ENTRY);
    b := b[0 := n + if first then 0x40 else 0][11 := 0x0F][12 := 0x00][13 := sum][26 := 0x00][27 := 0x00];
    e := LfnFillChunk(b, leaf, n - 1);
  }

  /** The entry that write_dir_entry stores. */
  function ShortEntry(short: seq<byte>, attr: byte, cluster: word32, size: word32): (e: Entry)
    requires |short| == 11
    ensures e[..11] == short && e[11] == attr && FirstCluster(e) == cluster && FileSize(e) == size
  {
    var hi, lo, sz := Encode16(cluster / 0x1_0000), Encode16(cluster % 0x1_0000), Encode32(size);
    assert LE16(hi, 0) == cluster / 0x1_0000 && LE16(lo, 0) == cluster % 0x1_0000 && LE32(sz, 0) == size;
    var e := short + [attr] + Repeat(0, 8) + hi + Repeat(0, 4) + lo + sz;
    assert LE16(e, 20) == LE16(hi, 0) && LE16(e, 26) == LE16(lo, 0) && LE32(e, 28) == LE32(sz, 0);
    e
  }

  lemma SpliceSnoc<T>(s: seq<T>, at: nat, d: seq<T>, x: T)
    requires at + |d| < |s|
    ensures Splice(s, at, d)[at + |d| := x] == Splice(s, at, d + [x])
  {
  }

  /** The long-name entries of `leaf`, written to the collected places. */
  method WriteRun(v: Volume, leaf: seq<byte>, sum: byte, run: seq<Place>,
                  ghost spots: seq<Spot>, ghost at: nat, ghost cs: seq<nat>)
    returns (ghost ns: seq<Entry>)
    requires IsDirectory(v, cs) && Collected(v.g, cs, Dir(v, cs), at, run, spots)
    requires 2 <= |run| <= MAX_LFN + 1 && CHARS * (|run| - 2) <= |leaf|
    modifies v`sectors
    ensures IsDirectory(v, cs) && v.Fat() == old(v.Fat()) && DataSameOutside(old(v.Data()), v.Data(), cs)
    ensures |ns| == |run| - 1 && at + |run| <= |old(Dir(v, cs))| && Dir(v, cs) == Splice(old(Dir(v, cs)), at, ns)
    ensures forall i :: 0 <= i < |ns| ==> LfnFor(ns[i], leaf, sum, |ns| - i, i == 0)
    ensures old(v.Counted()) ==> v.Counted()
  {
    hide Volume.Counted, Fits, FatOf, DataOf, CopiesEqual, Raw, DirEntries, Product, IsChain, LfnFor, Located,
         Splice;
    ghost var es := Dir(v, cs);
    var n := |run| - 1;
    var idx := 0;
    ns := [];
    SpliceNothing(es, at);
    while idx < n
      invariant 0 <= idx == |ns| <= n
      invariant IsDirectory(v, cs) && v.Fat() == old(v.Fat()) && DataSameOutside(old(v.Data()), v.Data(), cs)
      invariant Dir(v, cs) == Splice(es, at, ns) && (old(v.Counted()) ==> v.Counted())
      invariant forall i :: 0 <= i < idx ==> LfnFor(ns[i], leaf, sum, n - i, i == 0)
    {
      var e := MakeLfn(leaf, sum, n - idx, idx == 0);
      assert FreeSlot(v.g, cs, es, at + idx, run[idx], spots[idx]);
      WriteRawEntry(v, run[idx], e, cs, spots[idx], at + idx);
      SpliceSnoc(es, at, ns, e);
      ns := ns + [e];
      idx := idx + 1;
    }
  }

  lemma SpliceNothing<T>(s: seq<T>, at: nat)
    requires at <= |s|
    ensures Splice(s, at, []) == s
  {
  }

  /** Zeroed clusters at the end of a directory do not show. */
  lemma BlanksUnseen(es: seq<Entry>, n: nat)
    ensures Listing(es + Blanks(n)) == Listing(es) && (TailFree(es) ==> TailFree(es + Blanks(n)))
  {
    ScanConcat(es, Blanks(n), n, START, 0);
    ScanFree(Blanks(n), n, Scan(es, |es|, START, 0), |es|);
  }

  /** The slots that the search collects are slots that the listing theorems speak of. */
  lemma CollectedSlots(g: Geometry, cs: seq<nat>, es: seq<Entry>, at: nat, run: seq<Place>, spots: seq<Spot>)
    requires Collected(g, cs, es, at, run, spots) && TailFree(es)
    ensures Slots(es, at, |run|)
  {
    hide Located;
    forall i | at <= i < at + |run|
      ensures IsFree(es[i])
    {
      assert FreeSlot(g, cs, es, at + (i - at), run[i - at], spots[i - at]);
    }
  }

  lemma CollectedAt(g: Geometry, cs: seq<nat>, es: seq<Entry>, at: nat, run: seq<Place>, spots: seq<Spot>, n: nat)
    requires Collected(g, cs, es, at, run, spots) && n < |run|
    ensures n < |spots| && at + n < |es| && Located(g, cs, run[n], spots[n], at + n)
  {
    assert FreeSlot(g, cs, es, at + n, run[n], spots[n]);
  }

  lemma SameOutsideTwice(data: seq<seq<byte>>, data1: seq<seq<byte>>, data2: seq<seq<byte>>, cs: seq<nat>)
    requires DataSameOutside(data, data1, cs) && DataSameOutside(data1, data2, cs)
    ensures DataSameOutside(data, data2, cs)
  {
  }

  lemma RunMade(ns: seq<Entry>, e: Entry, name: seq<byte>, sum: byte)
    requires 1 <= |ns| <= MAX_LFN && !IsLfn(e) && sum == Checksum(e[..11])
    requires forall i :: 0 <= i < |ns| ==> LfnFor(ns[i], name, sum, |ns| - i, i == 0)
    requires CHARS * (|ns| - 1) <= |name| <= CHARS * |ns| && forall i :: 0 <= i < |name| ==> name[i] != 0
    ensures RunFor(ns + [e], name)
  {
    hide LfnFor, Checksum;
  }

  /** The written run and short entry, as the listing sees them. */
  lemma EntryListed(es: seq<Entry>, grown: nat, at: nat, ns: seq<Entry>, leaf: seq<byte>, name: seq<byte>)
    requires TailFree(es) && Slots(es + Blanks(grown), at, |ns|) && RunFor(ns, name) && Kept(name) == Kept(leaf)
    ensures var short := ns[|ns| - 1];
      IsShown(short) <==> Gains(Listing(es), Listing(Splice(es + Blanks(grown), at, ns)),
        Listed(Kept(leaf), at + |ns| - 1, IsDir(short), FirstCluster(short), FileSize(short)))
    ensures !IsEnd(ns[|ns| - 1]) ==> TailFree(Splice(es + Blanks(grown), at, ns))
  {
    hide Listing, TailFree, Slots, RunFor, IsShown, Kept, Gains;
    BlanksUnseen(es, grown);
    InsertListing(es + Blanks(grown), at, ns, name);
  }

  /** write_lfn_and_short: on a directory with nothing in use behind its end mark, the listing gains
      exactly the leaf when the short entry is one that shows. */
  method WriteLfnAndShort(v: Volume, dirCluster: nat, leaf: seq<byte>, name8: seq<byte>, ext3: seq<byte>,
                          attr: byte, cluster: word32, size: word32, kmallocOk: bool, ghost cs: seq<nat>)
    returns (ok: bool, place: Place, ghost at: nat, ghost cs': seq<nat>)
    requires IsDirectory(v, cs) && cs[0] == dirCluster && |name8| == 8 && |ext3| == 3
    requires attr % 0x10 != 0x0F && forall i :: 0 <= i < |leaf| ==> leaf[i] != 0
    modifies v
    ensures IsDirectory(v, cs') && Extends(old(v.Fat()), cs, v.Fat(), cs')
    ensures DataSameOutside(old(v.Data()), v.Data(), cs')
    ensures !ok ==> !kmallocOk || forall c :: 2 <= c < v.g.Limit() ==> v.Fat()[c] != 0
    ensures !ok ==> Listing(Dir(v, cs')) == Listing(old(Dir(v, cs)))
    ensures ok && old(TailFree(Dir(v, cs))) ==>
      var short := ShortEntry(name8 + ext3, attr, cluster, size);
      IsShown(short) <==> Gains(Listing(old(Dir(v, cs))), Listing(Dir(v, cs')),
                                Listed(Kept(leaf), at, IsDir(short), cluster, size))
    ensures old(TailFree(Dir(v, cs))) && (ok ==> name8[0] != 0) ==> TailFree(Dir(v, cs'))
    ensures ok ==> exists s :: Located(v.g, cs', place, s, at)
    ensures old(v.Counted()) ==> v.Counted()
  {
    hide Volume.Counted, Fits, FatOf, DataOf, CopiesEqual, Raw, DirEntries, Product, IsChain, LfnFor, Located,
         Splice, Collected, Grown, TableSameOutside, DataSameOutside, ShortEntry, Listing, TailFree, IsShown,
         Gains, Checksum, Extends;
    ghost var es := Dir(v, cs);
    var namelen := if |leaf| < MAX_LEAF then |leaf| else MAX_LEAF;
    var name := leaf[..namelen];
    var n := (namelen + 12) / CHARS;
    if n < 1 {
      n := 1;
    }
    var run;
    ghost var spots, grown;
    ok, run, spots, at, cs', grown := FindFreeDirSlots(v, dirCluster, n + 1, kmallocOk, cs);
    place := Place(0, 0);
    BlanksUnseen(es, grown);
    if !ok {
      return;
    }
    ghost var start, es1, fat1, data1 := at, Dir(v, cs'), v.Fat(), v.Data();
    var sum := LfnChecksum(name8, ext3);
    ghost var ns := WriteRun(v, name, sum, run, spots, start, cs');
    ghost var data2 := v.Data();
    var e := ShortEntry(name8 + ext3, attr, cluster, size);
    place, at := run[n], start + n;
    CollectedAt(v.g, cs', es1, start, run, spots, n);
    WriteRawEntry(v, place, e, cs', spots[n], at);
    SpliceSnoc(es1, start, ns, e);
    RunMade(ns, e, name, sum);
    SameOutsideTwice(data1, data2, v.Data(), cs');
    SameOutsideTwice(old(v.Data()), data1, v.Data(), cs');
    if TailFree(es) {
      CollectedSlots(v.g, cs', es1, start, run, spots);
      EntryListed(es, grown, start, ns + [e], leaf, name);
    }
  }

  /** Whether the short entry of a name that gen_short_name made shows in the listing. */
  lemma MadeShown(leaf: seq<byte>, name8: seq<byte>, ext3: seq<byte>, n: nat, e: Entry)
    requires |name8| == 8 && |ext3| == 3 && n <= CANDIDATES && forall i :: 0 <= i < |leaf| ==> leaf[i] != 0
    requires if n == 0 then name8 + ext3 == ShortOf(leaf) else name8 == Candidate(BaseOf(leaf), n)
    requires e[..11] == name8 + ext3 && !IsLfn(e) && !IsVolume(e)
    ensures IsShown(e) <==> if n == 0 then PlainShown(leaf) else TildeShown(leaf)
    ensures name8[0] != 0
  {
    hide ShortOf, Candidate, PlainShown, TildeShown, IsShown;
    assert e[..8] == e[..11][..8] == name8;
    if n == 0 {
      ShortOfShown(leaf, e);
    } else {
      CandidateShown(leaf, n, e);
    }
  }

  /** The long-name path of fat32_create_file and fat32_mkdir: a short name is made and the entries are written.
      The listing gains the leaf if and only if the short name that was made shows; a leaf that starts with none
      of space, dot and 0xE5 is always gained. */
  method CreateEntry(v: Volume, dirCluster: nat, leaf: seq<byte>, attr: byte, cluster: word32, size: word32,
                     kmallocOk: nat -> bool, slotsOk: bool, ghost cs: seq<nat>)
    returns (ok: bool, place: Place, ghost at: nat, ghost n: nat, ghost cs': seq<nat>)
    requires IsDirectory(v, cs) && cs[0] == dirCluster && TailFree(Dir(v, cs))
    requires attr % 0x10 != 0x0F && attr / 8 % 2 == 0 && forall i :: 0 <= i < |leaf| ==> leaf[i] != 0
    modifies v
    ensures IsDirectory(v, cs') && Extends(old(v.Fat()), cs, v.Fat(), cs') && TailFree(Dir(v, cs'))
    ensures DataSameOutside(old(v.Data()), v.Data(), cs')
    ensures !ok ==> !slotsOk || forall c :: 2 <= c < v.g.Limit() ==> v.Fat()[c] != 0
    ensures !ok ==> Listing(Dir(v, cs')) == Listing(old(Dir(v, cs)))
    ensures ok ==>
      var listed := Listed(Kept(leaf), at, attr / 0x10 % 2 == 1, cluster, size);
      && ((if n == 0 then PlainShown(leaf) else TildeShown(leaf)) <==>
           Gains(Listing(old(Dir(v, cs))), Listing(Dir(v, cs')), listed))
      && (Ordinary(leaf) ==> Gains(Listing(old(Dir(v, cs))), Listing(Dir(v, cs')), listed))
    ensures n == 0 <== !old(PlainTaken(v, cs, leaf, kmallocOk))
    ensures n != 0 <== old(PlainTaken(v, cs, leaf, kmallocOk) && |LiveSet(DirClusters(v, cs))| < CANDIDATES)
    ensures old(v.Counted()) ==> v.Counted()
  {
    hide Volume.Counted, Fits, FatOf, DataOf, CopiesEqual, Raw, DirEntries, Product, IsChain, Extends, ShortEntry,
         Listing, DataSameOutside, TailFree, IsShown, PlainShown, TildeShown, Gains, LiveSet, PlainTaken, Candidate,
         ShortOf, Located;
    var name8, ext3;
    name8, ext3, n := GenShortName(v, dirCluster, leaf, kmallocOk, cs);
    ghost var e := ShortEntry(name8 + ext3, attr, cluster, size);
    MadeShown(leaf, name8, ext3, n, e);
    ok, place, at, cs' := WriteLfnAndShort(v, dirCluster, leaf, name8, ext3, attr, cluster, size, slotsOk, cs);
    if Ordinary(leaf) {
      OrdinaryLeaf(leaf);
    }
  }

  /** A leaf that starts with none of space, dot and the removal mark. */
  predicate Ordinary(leaf: seq<byte>) {
    leaf != [] && leaf[0] != SPACE && leaf[0] != DOT && leaf[0] != 0xE5
  }

  /** A leaf of a space and an A is written under its plain name and not listed. */
  lemma UnlistedLeaf(es: seq<Entry>, at: nat, ns: seq<Entry>)
    requires TailFree(es) && Slots(es, at, |ns|) && RunFor(ns, [0x20, 0x41])
    requires ns[|ns| - 1][..11] == ShortOf([0x20, 0x41]) && !IsVolume(ns[|ns| - 1])
    ensures !Gains(Listing(es), Listing(Splice(es, at, ns)), Entered(ns, [0x20, 0x41], at))
  {
    hide Listing, Gains, Splice, TailFree, Slots, ShortOf, PlainShown, TildeShown, IsShown;
    HiddenLeaves();
    ShortOfShown([0x20, 0x41], ns[|ns| - 1]);
    InsertListing(es, at, ns, [0x20, 0x41]);
  }
}
