/** The on-disk layout of a FAT32 volume (Microsoft FAT Specification, sections 3 to 5):
    reserved sectors with FSInfo, `numFats` copies of the table, then the clusters.
    A disk is a sequence of 512-byte sectors; the allocation table and the cluster
    contents are functions of it. */
module FatLayout {
  import opened Bytes

  const ENTRY_MOD := 0x1000_0000   // a table entry is the low 28 bits of its word
  const END_MIN := 0x0FFF_FFF8     // first end-of-chain value
  const END_MARK := 0x0FFF_FFFF    // the end-of-chain value that the driver writes
  const UNKNOWN := 0xFFFF_FFFF     // FSInfo: free count not known

  const LEAD_SIG := 0x4161_5252
  const STRUC_SIG := 0x6141_7272
  const TRAIL_SIG := 0xAA55_0000

  type Sector = s: seq<byte> | |s| == SECTOR witness Repeat(0 as byte, SECTOR)

  datatype Geometry = Geometry(spc: nat, numFats: nat, fatSize: nat, fatStart: nat,
                               totalClusters: nat, fsinfoLba: nat)
  {
    ghost predicate Valid() {
      && 0 < spc && 0 < numFats
      && fsinfoLba < fatStart
      && 4 * Limit() <= SECTOR * fatSize
      && Limit() <= 0x0FFF_FFF7
    }

    function Limit(): nat { totalClusters + 2 }
    function ClusterSize(): nat { SECTOR * spc }
    function DataStart(): nat { fatStart + Product(numFats, fatSize) }
    function FatLba(copy: nat, s: nat): nat { fatStart + Product(copy, fatSize) + s }
    function Lba(c: nat): nat requires 2 <= c { DataStart() + Product(c - 2, spc) }
    function DiskSize(): nat { DataStart() + Product(totalClusters, spc) }

    lemma FatLbaBounds(copy: nat, s: nat)
      requires copy < numFats && s < fatSize
      ensures fatStart <= FatLba(copy, s) < DataStart()
    {
      ProductGap(copy, numFats, fatSize);
    }

    lemma FatLbaInjective(f: nat, s: nat, f': nat, s': nat)
      requires s < fatSize && s' < fatSize && FatLba(f, s) == FatLba(f', s')
      ensures f == f' && s == s'
    {
      if f < f' {
        ProductGap(f, f', fatSize);
      } else if f' < f {
        ProductGap(f', f, fatSize);
      }
    }

    lemma LbaBounds(c: nat)
      requires 2 <= c < Limit()
      ensures DataStart() <= Lba(c) && Lba(c) + spc <= DiskSize()
    {
      ProductGap(c - 2, totalClusters, spc);
    }

    lemma LbaDisjoint(c: nat, k: nat, c': nat, k': nat)
      requires 2 <= c && 2 <= c' && k < spc && k' < spc && Lba(c) + k == Lba(c') + k'
      ensures c == c' && k == k'
    {
      if c < c' {
        ProductGap(c - 2, c' - 2, spc);
      } else if c' < c {
        ProductGap(c' - 2, c - 2, spc);
      }
    }

    /** The sector of the table that holds entry `c`, and the entry's byte offset in it. */
    function EntrySector(c: nat): (s: nat)
      requires Valid() && c < Limit()
      ensures s < fatSize
    {
      4 * c / SECTOR
    }

    function EntryOffset(c: nat): (o: nat)
      ensures o + 4 <= SECTOR
    {
      4 * c % SECTOR
    }
  }

  type Disk = seq<Sector>

  ghost predicate Fits(g: Geometry, d: Disk) {
    g.Valid() && g.DiskSize() <= |d|
  }

  ghost predicate CopiesEqual(g: Geometry, d: Disk)
    requires Fits(g, d)
  {
    forall f, s :: 0 <= f < g.numFats && 0 <= s < g.fatSize ==>
      g.FatLba(f, s) < |d| && g.FatLba(0, s) < |d| && d[g.FatLba(f, s)] == d[g.FatLba(0, s)]
  }

  /** Entry `c` as stored in table copy `f`. */
  ghost function EntryOf(g: Geometry, d: Disk, f: nat, c: nat): (v: nat)
    requires Fits(g, d) && f < g.numFats && c < g.Limit()
    ensures v < ENTRY_MOD
  {
    g.FatLbaBounds(f, g.EntrySector(c));
    LE32(d[g.FatLba(f, g.EntrySector(c))], g.EntryOffset(c)) % ENTRY_MOD
  }

  ghost function FatOf(g: Geometry, d: Disk): (fat: seq<nat>)
    requires Fits(g, d)
    ensures |fat| == g.Limit()
    ensures forall c :: 0 <= c < |fat| ==> fat[c] == EntryOf(g, d, 0, c) < ENTRY_MOD
  {
    seq(g.Limit(), c requires 0 <= c < g.Limit() => EntryOf(g, d, 0, c))
  }

  function Concat(ss: seq<Sector>): (r: seq<byte>)
    ensures |r| == SECTOR * |ss|
  {
    if ss == [] then [] else Concat(ss[..|ss| - 1]) + ss[|ss| - 1]
  }

  lemma {:induction false} ConcatIndex(ss: seq<Sector>, i: nat)
    requires i < SECTOR * |ss|
    ensures i / SECTOR < |ss| && Concat(ss)[i] == ss[i / SECTOR][i % SECTOR]
  {
    var n := |ss| - 1;
    if i < SECTOR * n {
      ConcatIndex(ss[..n], i);
    }
  }

  /** Copy `f` of the table as one run of bytes. */
  ghost function TableBytes(g: Geometry, d: Disk, f: nat): (t: seq<byte>)
    requires Fits(g, d) && f < g.numFats
    ensures |t| == SECTOR * g.fatSize
  {
    ProductIsMultiplication(f, g.fatSize);
    ProductGap(f, g.numFats, g.fatSize);
    Concat(d[g.fatStart + f * g.fatSize..g.fatStart + f * g.fatSize + g.fatSize])
  }

  /** Where byte `i` of a copy lies on the disk. */
  lemma TableByte(g: Geometry, d: Disk, f: nat, i: nat)
    requires Fits(g, d) && f < g.numFats && i < SECTOR * g.fatSize
    ensures i / SECTOR < g.fatSize && g.FatLba(f, i / SECTOR) < |d|
    ensures TableBytes(g, d, f)[i] == d[g.FatLba(f, i / SECTOR)][i % SECTOR]
  {
    hide Concat;
    var lo := g.fatStart + f * g.fatSize;
    ProductIsMultiplication(f, g.fatSize);
    ProductGap(f, g.numFats, g.fatSize);
    ConcatIndex(d[lo..lo + g.fatSize], i);
  }

  /** `v` is the low 28 bits of the four bytes from `4 * c` on, the least significant byte first. */
  ghost predicate EntryReads(t: seq<byte>, c: nat, v: nat) {
    && 4 * c + 4 <= |t|
    && v == (t[4 * c] as int + t[4 * c + 1] as int * 0x100 + t[4 * c + 2] as int * 0x1_0000
             + t[4 * c + 3] as int * 0x100_0000) % 0x1000_0000
  }

  /** Entry `c` of the table is the low 28 bits of the little-endian word at byte `4 * c`, in every copy alike. */
  lemma FatIsFlat(g: Geometry, d: Disk, f: nat, c: nat)
    requires Fits(g, d) && CopiesEqual(g, d) && f < g.numFats && c < g.Limit()
    ensures EntryReads(TableBytes(g, d, f), c, FatOf(g, d)[c])
  {
    hide TableBytes;
    TableByte(g, d, f, 4 * c);
    TableByte(g, d, f, 4 * c + 1);
    TableByte(g, d, f, 4 * c + 2);
    TableByte(g, d, f, 4 * c + 3);
    assert d[g.FatLba(f, g.EntrySector(c))] == d[g.FatLba(0, g.EntrySector(c))];
  }

  /** Two tables that differ in the low 28 bits of one entry at most: the fourth byte keeps its upper half. */
  ghost predicate EntryOnly(t: seq<byte>, t': seq<byte>, c: nat) {
    && |t'| == |t| && 4 * c + 4 <= |t|
    && (forall i :: 0 <= i < |t| && !(4 * c <= i < 4 * c + 4) ==> t'[i] == t[i])
    && t'[4 * c + 3] / 16 == t[4 * c + 3] / 16
  }

  ghost function ClusterOf(g: Geometry, d: Disk, c: nat): (r: seq<byte>)
    requires Fits(g, d) && 2 <= c < g.Limit()
    ensures |r| == g.ClusterSize()
  {
    g.LbaBounds(c);
    Concat(d[g.Lba(c)..g.Lba(c) + g.spc])
  }

  /** Cluster contents, indexed by cluster number; 0 and 1 do not exist. */
  ghost function DataOf(g: Geometry, d: Disk): (data: seq<seq<byte>>)
    requires Fits(g, d)
    ensures |data| == g.Limit()
    ensures forall c :: 2 <= c < g.Limit() ==> data[c] == ClusterOf(g, d, c) && |data[c]| == g.ClusterSize()
    ensures forall c :: 0 <= c < 2 ==> data[c] == []
  {
    seq(g.Limit(), c requires 0 <= c < g.Limit() => if c < 2 then [] else ClusterOf(g, d, c))
  }

  /** Byte `i` of cluster `c` on the disk: the clusters follow the tables one after another, from number 2 on. */
  lemma ClusterIsFlat(g: Geometry, d: Disk, c: nat, i: nat, sector: nat)
    requires Fits(g, d) && 2 <= c < g.Limit() && i < g.ClusterSize()
    requires sector == g.fatStart + g.numFats * g.fatSize + (c - 2) * g.spc + i / SECTOR
    ensures sector < |d| && DataOf(g, d)[c][i] == d[sector][i % SECTOR]
  {
    hide Concat;
    ProductIsMultiplication(g.numFats, g.fatSize);
    ProductIsMultiplication(c - 2, g.spc);
    g.LbaBounds(c);
    ConcatIndex(d[g.Lba(c)..g.Lba(c) + g.spc], i);
  }

  ghost predicate SameBelow(d: Disk, d': Disk, n: nat) {
    |d| == |d'| && n <= |d| && forall l :: 0 <= l < n ==> d'[l] == d[l]
  }

  ghost predicate SameFrom(d: Disk, d': Disk, n: nat) {
    |d| == |d'| && forall l :: n <= l < |d| ==> d'[l] == d[l]
  }

  /** Writes at or above the data region leave the table and its copies alone. */
  lemma FatFrame(g: Geometry, d: Disk, d': Disk)
    requires Fits(g, d) && SameBelow(d, d', g.DataStart())
    ensures FatOf(g, d') == FatOf(g, d)
    ensures CopiesEqual(g, d) ==> CopiesEqual(g, d')
  {
    forall f: nat, s: nat | f < g.numFats && s < g.fatSize
      ensures g.FatLba(f, s) < g.DataStart() && d'[g.FatLba(f, s)] == d[g.FatLba(f, s)]
    {
      g.FatLbaBounds(f, s);
    }
  }

  /** Writes below the data region leave every cluster alone. */
  lemma DataFrame(g: Geometry, d: Disk, d': Disk)
    requires Fits(g, d) && SameFrom(d, d', g.DataStart())
    ensures DataOf(g, d') == DataOf(g, d)
  {
    forall c | 2 <= c < g.Limit()
      ensures ClusterOf(g, d', c) == ClusterOf(g, d, c)
    {
      g.LbaBounds(c);
      assert d'[g.Lba(c)..g.Lba(c) + g.spc] == d[g.Lba(c)..g.Lba(c) + g.spc];
    }
  }

  ghost predicate SameOutsideCluster(g: Geometry, d: Disk, d': Disk, c: nat)
    requires 2 <= c
  {
    |d'| == |d| && forall l :: 0 <= l < |d| && !(g.Lba(c) <= l < g.Lba(c) + g.spc) ==> d'[l] == d[l]
  }

  lemma OtherCluster(g: Geometry, d: Disk, d': Disk, c: nat, e: nat)
    requires Fits(g, d) && 2 <= c < g.Limit() && 2 <= e < g.Limit() && e != c
    requires SameOutsideCluster(g, d, d', c)
    ensures ClusterOf(g, d', e) == ClusterOf(g, d, e)
  {
    g.LbaBounds(e);
    var lo, hi := g.Lba(e), g.Lba(e) + g.spc;
    forall l | lo <= l < hi
      ensures d'[l] == d[l]
    {
      if g.Lba(c) <= l < g.Lba(c) + g.spc {
        g.LbaDisjoint(e, l - lo, c, l - g.Lba(c));
      }
    }
    assert d'[lo..hi] == d[lo..hi];
  }

  /** Sectors of one cluster changed, to contents that concatenate to `buf`. */
  lemma ClusterUpdate(g: Geometry, d: Disk, d': Disk, c: nat, buf: seq<byte>)
    requires Fits(g, d) && 2 <= c < g.Limit()
    requires SameOutsideCluster(g, d, d', c)
    requires ClusterOf(g, d', c) == buf
    ensures DataOf(g, d') == DataOf(g, d)[c := buf]
    ensures SameBelow(d, d', g.DataStart())
  {
    g.LbaBounds(c);
    forall e: nat | 2 <= e < g.Limit() && e != c
      ensures ClusterOf(g, d', e) == ClusterOf(g, d, e)
    {
      OtherCluster(g, d, d', c, e);
    }
    assert DataOf(g, d') == DataOf(g, d)[c := buf];
  }

  /** Patching one sector of a cluster patches the cluster at the matching offset. */
  lemma SectorPatch(g: Geometry, d: Disk, c: nat, k: nat, off: nat, patch: seq<byte>)
    requires Fits(g, d) && 2 <= c < g.Limit() && k < g.spc && off + |patch| <= SECTOR
    requires g.Lba(c) + k < |d|
    ensures
      var d' := d[g.Lba(c) + k := Splice(d[g.Lba(c) + k], off, patch)];
      && DataOf(g, d') == DataOf(g, d)[c := Splice(ClusterOf(g, d, c), SECTOR * k + off, patch)]
      && SameBelow(d, d', g.DataStart())
  {
    hide Splice, Concat, Product;
    g.LbaBounds(c);
    var lo, hi := g.Lba(c), g.Lba(c) + g.spc;
    var d' := d[lo + k := Splice(d[lo + k], off, patch)];
    assert d'[lo..hi] == d[lo..hi][k := Splice(d[lo..hi][k], off, patch)];
    ConcatPatch(d[lo..hi], k, off, patch);
    ClusterUpdate(g, d, d', c, Splice(ClusterOf(g, d, c), SECTOR * k + off, patch));
  }

  /** Patching one of several sectors patches their concatenation. */
  lemma ConcatPatch(ss: seq<Sector>, k: nat, off: nat, patch: seq<byte>)
    requires k < |ss| && off + |patch| <= SECTOR
    ensures Concat(ss[k := Splice(ss[k], off, patch)]) == Splice(Concat(ss), SECTOR * k + off, patch)
  {
    hide Splice, Concat;
    var ts := ss[k := Splice(ss[k], off, patch)];
    var a, b := Concat(ts), Splice(Concat(ss), SECTOR * k + off, patch);
    forall i: nat | i < SECTOR * |ss|
      ensures a[i] == b[i]
    {
      ConcatIndex(ts, i);
      ConcatIndex(ss, i);
    }
  }
}
