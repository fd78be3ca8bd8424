/** The mounted volume: table access, cluster allocation and freeing, cluster I/O,
    all over one mutable sequence of sectors (kernel/src/fs/fat32.c). Sector I/O succeeds. */
module FatVolume {
  import opened Bytes
  import opened FatLayout
  import opened FatTable

  predicate FsinfoSigned(s: Sector) {
    LE32(s, 0) == LEAD_SIG && LE32(s, 484) == STRUC_SIG && LE32(s, 508) == TRAIL_SIG
  }

  lemma PutKeepsWord(s: seq<byte>, off: nat, v: word32, at: nat)
    requires off + 4 <= |s| && at + 4 <= |s| && (at + 4 <= off || off + 4 <= at)
    ensures LE32(PutLE32(s, off, v), at) == LE32(s, at)
  {
  }

  /** One table sector, with the 28-bit value of the entry at `off` replaced and its top four bits kept. */
  function PatchEntry(sec: Sector, off: nat, value: nat): (r: Sector)
    requires off + 4 <= SECTOR
    ensures LE32(r, off) % ENTRY_MOD == value % ENTRY_MOD
    ensures LE32(r, off) / ENTRY_MOD == LE32(sec, off) / ENTRY_MOD
    ensures forall i :: 0 <= i < SECTOR && !(off <= i < off + 4) ==> r[i] == sec[i]
  {
    var merged := LE32(sec, off) / ENTRY_MOD * ENTRY_MOD + value % ENTRY_MOD;
    PutLE32(sec, off, merged)
  }

  /** Patching the sector of entry `c`, in every copy, sets entry `c` and no other. */
  lemma TablePatched(g: Geometry, d: Disk, d': Disk, c: nat, value: nat)
    requires Fits(g, d) && CopiesEqual(g, d) && c < g.Limit() && |d'| == |d|
    requires forall f: nat, s: nat :: f < g.numFats && s < g.fatSize ==>
      g.FatLba(f, s) < |d| && d'[g.FatLba(f, s)] ==
        if s == g.EntrySector(c) then PatchEntry(d[g.FatLba(0, s)], g.EntryOffset(c), value) else d[g.FatLba(f, s)]
    ensures FatOf(g, d') == FatOf(g, d)[c := value % ENTRY_MOD]
    ensures CopiesEqual(g, d')
  {
    forall e: nat | e < g.Limit()
      ensures EntryOf(g, d', 0, e) == if e == c then value % ENTRY_MOD else EntryOf(g, d, 0, e)
    {
      g.FatLbaBounds(0, g.EntrySector(e));
      if g.EntrySector(e) == g.EntrySector(c) && e != c {
        var sec, off := d[g.FatLba(0, g.EntrySector(c))], g.EntryOffset(c);
        PutKeepsWord(sec, off, LE32(sec, off) / ENTRY_MOD * ENTRY_MOD + value % ENTRY_MOD, g.EntryOffset(e));
      }
    }
  }

  /** The fourth byte of a word holds its top four bits in its upper half. */
  lemma TopBits(s: seq<byte>, off: nat)
    requires off + 4 <= |s|
    ensures LE32(s, off) / ENTRY_MOD == s[off + 3] / 16
  {
    var low: int, high: int := s[off] as int + 0x100 * s[off + 1] as int + 0x1_0000 * s[off + 2] as int, s[off + 3];
    assert high == high / 16 * 16 + high % 16;
  }

  /** The same patch on the bytes of a copy: only the four bytes of the entry change, and not their top four bits. */
  lemma BytesPatched(g: Geometry, d: Disk, d': Disk, c: nat, value: nat, f: nat)
    requires Fits(g, d) && CopiesEqual(g, d) && c < g.Limit() && |d'| == |d| && f < g.numFats
    requires forall s: nat :: s < g.fatSize ==>
      g.FatLba(f, s) < |d| && g.FatLba(0, s) < |d| && d'[g.FatLba(f, s)] ==
        if s == g.EntrySector(c) then PatchEntry(d[g.FatLba(0, s)], g.EntryOffset(c), value) else d[g.FatLba(f, s)]
    ensures EntryOnly(TableBytes(g, d, f), TableBytes(g, d', f), c)
  {
    hide TableBytes, PatchEntry, LE32;
    var t, t' := TableBytes(g, d, f), TableBytes(g, d', f);
    forall i | 0 <= i < |t| && !(4 * c <= i < 4 * c + 4)
      ensures t'[i] == t[i]
    {
      TableByte(g, d, f, i);
      TableByte(g, d', f, i);
      assert d[g.FatLba(f, i / SECTOR)] == d[g.FatLba(0, i / SECTOR)];
    }
    TableByte(g, d, f, 4 * c + 3);
    TableByte(g, d', f, 4 * c + 3);
    TopBits(d[g.FatLba(0, g.EntrySector(c))], g.EntryOffset(c));
    TopBits(d'[g.FatLba(f, g.EntrySector(c))], g.EntryOffset(c));
    assert d[g.FatLba(f, g.EntrySector(c))] == d[g.FatLba(0, g.EntrySector(c))];
  }

  /** Writes below the table leave it alone. */
  lemma TableBelowKept(g: Geometry, d: Disk, d': Disk)
    requires Fits(g, d) && CopiesEqual(g, d) && SameFrom(d, d', g.fatStart)
    ensures FatOf(g, d') == FatOf(g, d) && CopiesEqual(g, d')
  {
    forall f: nat, s: nat | f < g.numFats && s < g.fatSize
      ensures g.FatLba(f, s) < |d| && d'[g.FatLba(f, s)] == d[g.FatLba(f, s)]
    {
      g.FatLbaBounds(f, s);
    }
  }

  /** `found` is the first free cluster from `hint` on, or else the first from 2 on. */
  ghost predicate FirstFree(fat: seq<nat>, hint: nat, found: nat) {
    && 2 <= found < |fat| && fat[found] == 0
    && (forall c :: hint <= c < |fat| && (c < found || found < hint) ==> fat[c] != 0)
    && (found < hint ==> forall c :: 2 <= c < found ==> fat[c] != 0)
  }

  class Volume {
    const g: Geometry
    var sectors: Disk
    var nextFreeHint: nat
    var fsinfoValid: bool
    var freeCount: word32

    ghost predicate Valid()
      reads this
    {
      && Fits(g, sectors)
      && CopiesEqual(g, sectors)
      && 2 <= nextFreeHint < 0x1_0000_0000
    }

    ghost function Fat(): (fat: seq<nat>)
      requires Valid()
      reads this
      ensures 2 <= |fat| == g.Limit() < END_MIN && 0 < g.ClusterSize()
    {
      FatOf(g, sectors)
    }

    ghost function Data(): (data: seq<seq<byte>>)
      requires Valid()
      reads this
      ensures |data| == g.Limit()
      ensures forall c :: 2 <= c < |data| ==> |data[c]| == g.ClusterSize()
    {
      DataOf(g, sectors)
    }

    /** The in-memory free count is known and right. */
    ghost predicate Exact()
      requires Valid()
      reads this
    {
      fsinfoValid && freeCount == FreeEntries(Fat())
    }

    /** The free count is right, and FSInfo can be saved. */
    ghost predicate Counted()
      reads this
    {
      Valid() && Exact() && FsinfoSigned(sectors[g.fsinfoLba])
    }

    /** A new target for an entry in use: the free count is not concerned. */
    method Relink(c: nat, value: nat)
      requires Valid() && 2 <= c < g.Limit() && Fat()[c] != 0 && 0 < value < ENTRY_MOD
      modifies this`sectors
      ensures Valid() && Fat() == old(Fat())[c := value] && Data() == old(Data())
      ensures old(Counted()) ==> Counted()
    {
      hide FatOf, DataOf, CopiesEqual, Fits, Zeros;
      ZerosUpdate(Fat(), c, value, |Fat()|);
      FatSet(c, value);
    }

    /** What FSInfo on the disk says once it has been saved. */
    ghost predicate Saved()
      requires Valid()
      reads this
    {
      fsinfoValid ==>
        && FsinfoSigned(sectors[g.fsinfoLba])
        && LE32(sectors[g.fsinfoLba], 488) == freeCount && LE32(sectors[g.fsinfoLba], 492) == nextFreeHint
    }

    /** fat32_init and fsinfo_load, for the FSInfo sector that the boot sector names: 0 and 0xFFFF name none, and
        a hint below 2 or unknown is not honoured. */
    constructor Mount(geometry: Geometry, fsInfo: nat, disk: Disk)
      requires Fits(geometry, disk) && CopiesEqual(geometry, disk)
      requires geometry.fsinfoLba == if fsInfo == 0xFFFF then 0 else fsInfo
      ensures Valid() && g == geometry && sectors == disk
      ensures fsinfoValid == (fsInfo != 0 && fsInfo != 0xFFFF && FsinfoSigned(disk[g.fsinfoLba]))
      ensures freeCount == if fsinfoValid then LE32(disk[g.fsinfoLba], 488) else UNKNOWN
      ensures nextFreeHint ==
        if fsinfoValid && 2 <= LE32(disk[g.fsinfoLba], 492) < UNKNOWN then LE32(disk[g.fsinfoLba], 492) else 2
    {
      g, sectors := geometry, disk;
      nextFreeHint, fsinfoValid, freeCount := 2, false, UNKNOWN;
      if fsInfo != 0 && fsInfo != 0xFFFF {
        var sec := disk[fsInfo];
        if FsinfoSigned(sec) {
          fsinfoValid, freeCount := true, LE32(sec, 488);
          if LE32(sec, 492) != UNKNOWN && LE32(sec, 492) >= 2 {
            nextFreeHint := LE32(sec, 492);
          }
        }
      }
    }

    method FatGet(c: nat) returns (v: nat)
      requires Valid() && c < g.Limit()
      ensures v == Fat()[c]
      ensures forall f: nat :: f < g.numFats ==> EntryReads(TableBytes(g, sectors, f), c, v)
    {
      hide TableBytes, EntryReads, CopiesEqual, Product, LE32;
      forall f: nat | f < g.numFats
        ensures EntryReads(TableBytes(g, sectors, f), c, Fat()[c])
      {
        FatIsFlat(g, sectors, f, c);
      }
      var s := g.EntrySector(c);
      g.FatLbaBounds(0, s);
      v := LE32(sectors[g.FatLba(0, s)], g.EntryOffset(c)) % ENTRY_MOD;
    }

    /** One sector of the table written to every copy. */
    method WriteCopies(s: nat, sec: Sector)
      requires Valid() && s < g.fatSize
      modifies this`sectors
      ensures |sectors| == |old(sectors)|
      ensures forall l :: 0 <= l < |sectors| && !(g.fatStart <= l < g.DataStart()) ==> sectors[l] == old(sectors)[l]
      ensures forall f: nat, t: nat :: f < g.numFats && t < g.fatSize ==>
        g.FatLba(f, t) < |sectors| && sectors[g.FatLba(f, t)] == if t == s then sec else old(sectors)[g.FatLba(f, t)]
    {
      hide CopiesEqual, FatOf, DataOf;
      ghost var d := sectors;
      forall f: nat, t: nat | f < g.numFats && t < g.fatSize
        ensures g.FatLba(f, t) < |d|
      {
        g.FatLbaBounds(f, t);
      }
      var f := 0;
      while f < g.numFats
        invariant 0 <= f <= g.numFats && |sectors| == |d|
        invariant forall l :: 0 <= l < |d| && !(g.fatStart <= l < g.DataStart()) ==> sectors[l] == d[l]
        invariant forall f': nat, t: nat :: f' < g.numFats && t < g.fatSize ==>
          g.FatLba(f', t) < |d| && sectors[g.FatLba(f', t)] == if t == s && f' < f then sec else d[g.FatLba(f', t)]
      {
        g.FatLbaBounds(f, s);
        ghost var before := sectors;
        sectors := sectors[g.FatLba(f, s) := sec];
        forall f': nat, t: nat | f' < g.numFats && t < g.fatSize
          ensures g.FatLba(f', t) < |d|
          ensures sectors[g.FatLba(f', t)] == if t == s && f' < f + 1 then sec else d[g.FatLba(f', t)]
        {
          assert before[g.FatLba(f', t)] == if t == s && f' < f then sec else d[g.FatLba(f', t)];
          if g.FatLba(f', t) == g.FatLba(f, s) {
            g.FatLbaInjective(f', t, f, s);
          }
        }
        f := f + 1;
      }
    }

    method FatSet(c: nat, value: nat)
      requires Valid() && c < g.Limit()
      modifies this`sectors
      ensures Valid()
      ensures Fat() == old(Fat())[c := value % ENTRY_MOD]
      ensures Data() == old(Data())
      ensures sectors[g.fsinfoLba] == old(sectors[g.fsinfoLba])
      ensures forall f: nat :: f < g.numFats ==>
        EntryOnly(TableBytes(g, old(sectors), f), TableBytes(g, sectors, f), c)
    {
      hide CopiesEqual, FatOf, DataOf, PatchEntry, Product, TableBytes, EntryOnly;
      ghost var d := sectors;
      var s := g.EntrySector(c);
      g.FatLbaBounds(0, s);
      WriteCopies(s, PatchEntry(sectors[g.FatLba(0, s)], g.EntryOffset(c), value));
      TablePatched(g, d, sectors, c, value);
      forall f: nat | f < g.numFats
        ensures EntryOnly(TableBytes(g, d, f), TableBytes(g, sectors, f), c)
      {
        BytesPatched(g, d, sectors, c, value, f);
      }
      DataFrame(g, d, sectors);
    }

    method FsinfoSave()
      requires Valid()
      modifies this`sectors, this`fsinfoValid
      ensures Valid() && Saved()
      ensures Fat() == old(Fat()) && Data() == old(Data())
      ensures fsinfoValid == (old(fsinfoValid) && FsinfoSigned(old(sectors[g.fsinfoLba])))
    {
      if !fsinfoValid {
        return;
      }
      var sec := sectors[g.fsinfoLba];
      if !FsinfoSigned(sec) {
        fsinfoValid := false;
        return;
      }
      var counted := PutLE32(sec, 488, freeCount);
      var hinted := PutLE32(counted, 492, nextFreeHint);
      ghost var d := sectors;
      sectors := sectors[g.fsinfoLba := hinted];
      TableBelowKept(g, d, sectors);
      DataFrame(g, d, sectors);
    }

    /** The two search loops: the first free cluster at or after the hint, or else the first before it. */
    method FindFree() returns (found: nat)
      requires Valid()
      ensures found == 0 ==> forall c :: 2 <= c < g.Limit() ==> Fat()[c] != 0
      ensures found != 0 ==> FirstFree(Fat(), nextFreeHint, found)
    {
      var c := nextFreeHint;
      while c < g.Limit()
        invariant nextFreeHint <= c
        invariant forall b :: nextFreeHint <= b < c && b < g.Limit() ==> Fat()[b] != 0
      {
        var v := FatGet(c);
        if v == 0 {
          return c;
        }
        c := c + 1;
      }
      c := 2;
      while c < nextFreeHint && c < g.Limit()
        invariant 2 <= c
        invariant forall b :: 2 <= b < c && b < g.Limit() ==> Fat()[b] != 0
      {
        var v := FatGet(c);
        if v == 0 {
          return c;
        }
        c := c + 1;
      }
      return 0;
    }

    /** Marks a free cluster as the end of a new chain; a count that was exact stays exact. */
    method Claim(found: nat)
      requires Valid() && 2 <= found < g.Limit() && Fat()[found] == 0
      modifies this
      ensures Valid() && Saved()
      ensures Fat() == old(Fat())[found := END_MARK] && Data() == old(Data())
      ensures nextFreeHint == found + 1
      ensures fsinfoValid == (old(fsinfoValid) && FsinfoSigned(old(sectors[g.fsinfoLba])))
      ensures old(Exact()) && fsinfoValid ==> Exact()
    {
      hide FatOf, DataOf, CopiesEqual;
      ZerosUpdate(Fat(), found, END_MARK, g.Limit());
      ZeroIsCounted(Fat(), found, g.Limit());
      FatSet(found, END_MARK);
      nextFreeHint := found + 1;
      if fsinfoValid && freeCount != UNKNOWN && freeCount > 0 {
        freeCount := freeCount - 1;
      }
      FsinfoSave();
    }

    method AllocCluster() returns (found: nat)
      requires Valid()
      modifies this
      ensures Valid() && Data() == old(Data())
      ensures found == 0 ==> unchanged(this) && forall c :: 2 <= c < g.Limit() ==> Fat()[c] != 0
      ensures found != 0 ==>
        && 2 <= found < g.Limit() && old(Fat())[found] == 0 && FirstFree(old(Fat()), old(nextFreeHint), found)
        && Fat() == old(Fat())[found := END_MARK]
        && nextFreeHint == found + 1 && Saved()
      ensures old(Counted()) ==> Counted()
    {
      hide FatOf, DataOf, CopiesEqual, Zeros, FsinfoSigned;
      found := FindFree();
      if found != 0 {
        Claim(found);
      }
    }

    method FreeOne(c: nat) returns (next: nat)
      requires Valid() && c < g.Limit()
      modifies this`sectors, this`freeCount
      ensures Valid() && next == old(Fat())[c]
      ensures Fat() == old(Fat())[c := 0] && Data() == old(Data())
      ensures sectors[g.fsinfoLba] == old(sectors[g.fsinfoLba])
      ensures fsinfoValid && old(freeCount) < UNKNOWN ==> freeCount == old(freeCount) + 1
    {
      next := FatGet(c);
      FatSet(c, 0);
      if fsinfoValid && freeCount != UNKNOWN {
        freeCount := freeCount + 1;
      }
    }

    /** The freeing loop: terminates on cyclic tables too. The count stays exact on a clean walk
        and gains exactly one too many on any other. */
    method FreeWalk(start: nat)
      requires Valid() && InRange(Fat()) && (Link(start) ==> start < g.Limit())
      modifies this`sectors, this`freeCount
      ensures Valid() && Data() == old(Data())
      ensures FreedAll(old(Fat()), start, Fat())
      ensures sectors[g.fsinfoLba] == old(sectors[g.fsinfoLba])
      ensures old(Exact()) ==> freeCount == FreeEntries(Fat()) + if Clean(old(Fat()), start) then 0 else 1
    {
      hide Walked, Clean, FreedAll, FatOf, DataOf, CopiesEqual;
      ghost var fat, n, bumped, exact := Fat(), 0, false, Exact();
      ProgressStart(fat, start);
      var cluster: nat := start;
      while Link(cluster)
        invariant Valid() && Data() == old(Data()) && sectors[g.fsinfoLba] == old(sectors[g.fsinfoLba])
        invariant Progress(fat, start, n, bumped, cluster, Fat())
        invariant exact ==> freeCount == FreeEntries(Fat()) + if bumped then 1 else 0
        decreases g.Limit() - FreeEntries(Fat()), Link(cluster)
      {
        ProgressStep(fat, start, n, bumped, cluster, Fat());
        bumped := Fat()[cluster] == 0;
        n := if bumped then n else n + 1;
        cluster := FreeOne(cluster);
      }
      ProgressEnd(fat, start, n, bumped, cluster, Fat());
    }

    method FreeChain(start: nat)
      requires Valid() && InRange(Fat()) && (Link(start) ==> start < g.Limit())
      modifies this
      ensures Valid() && Saved() && Data() == old(Data())
      ensures FreedAll(old(Fat()), start, Fat())
      ensures old(Exact() && FsinfoSigned(sectors[g.fsinfoLba])) ==>
        fsinfoValid && freeCount == FreeEntries(Fat()) + if Clean(old(Fat()), start) then 0 else 1
    {
      FreeWalk(start);
      FsinfoSave();
    }

    /** read_sectors over one cluster. */
    method ReadCluster(c: nat) returns (buf: seq<byte>)
      requires Valid() && 2 <= c < g.Limit()
      ensures buf == Data()[c]
    {
      g.LbaBounds(c);
      var lba := g.Lba(c);
      buf := [];
      var i := 0;
      while i < g.spc
        invariant 0 <= i <= g.spc && buf == Concat(sectors[lba..lba + i])
      {
        assert sectors[lba..lba + i + 1][..i] == sectors[lba..lba + i];
        buf := buf + sectors[lba + i];
        i := i + 1;
      }
    }

    /** write_sectors over one cluster. */
    method WriteSectors(c: nat, buf: seq<byte>)
      requires Valid() && 2 <= c < g.Limit() && |buf| == g.ClusterSize()
      modifies this`sectors
      ensures |sectors| == |old(sectors)| && g.Lba(c) + g.spc <= |sectors|
      ensures forall l :: 0 <= l < |sectors| && !(g.Lba(c) <= l < g.Lba(c) + g.spc) ==> sectors[l] == old(sectors)[l]
      ensures Concat(sectors[g.Lba(c)..g.Lba(c) + g.spc]) == buf
    {
      ghost var d := sectors;
      g.LbaBounds(c);
      hide FatOf, DataOf, CopiesEqual, Product;
      var lba := g.Lba(c);
      var i := 0;
      while i < g.spc
        invariant 0 <= i <= g.spc && |sectors| == |d|
        invariant forall l :: 0 <= l < |d| && !(lba <= l < lba + i) ==> sectors[l] == d[l]
        invariant Concat(sectors[lba..lba + i]) == buf[..SECTOR * i]
      {
        var sec := buf[SECTOR * i..SECTOR * (i + 1)];
        ghost var before := sectors;
        sectors := sectors[lba + i := sec];
        assert sectors[lba..lba + i + 1][..i] == before[lba..lba + i];
        assert buf[..SECTOR * i] + sec == buf[..SECTOR * (i + 1)];
        i := i + 1;
      }
      assert buf[..SECTOR * g.spc] == buf;
    }

    method WriteCluster(c: nat, buf: seq<byte>)
      requires Valid() && 2 <= c < g.Limit() && |buf| == g.ClusterSize()
      modifies this`sectors
      ensures Valid() && Fat() == old(Fat())
      ensures Data() == old(Data())[c := buf]
      ensures sectors[g.fsinfoLba] == old(sectors[g.fsinfoLba])
      ensures old(Counted()) ==> Counted()
    {
      hide FatOf, DataOf, CopiesEqual, Product, Concat, FsinfoSigned, Zeros;
      ghost var d := sectors;
      g.LbaBounds(c);
      WriteSectors(c, buf);
      ClusterUpdate(g, d, sectors, c, buf);
      FatFrame(g, d, sectors);
    }

    /** `n` bytes of one sector of cluster `c`. */
    method ReadSlice(lba: nat, off: nat, n: nat, ghost c: nat) returns (r: seq<byte>)
      requires Valid() && 2 <= c < g.Limit() && g.Lba(c) <= lba < g.Lba(c) + g.spc
      requires off + n <= SECTOR
      ensures SECTOR * (lba - g.Lba(c)) + off + n <= g.ClusterSize()
      ensures r == Data()[c][SECTOR * (lba - g.Lba(c)) + off..SECTOR * (lba - g.Lba(c)) + off + n]
    {
      hide FatOf, CopiesEqual, Product, Concat;
      g.LbaBounds(c);
      r := sectors[lba][off..off + n];
      ghost var p := SECTOR * (lba - g.Lba(c)) + off;
      forall i | 0 <= i < n
        ensures r[i] == Data()[c][p + i]
      {
        ConcatIndex(sectors[g.Lba(c)..g.Lba(c) + g.spc], p + i);
      }
    }

    /** Read one sector of cluster `c`, change some bytes of it and write it back. */
    method PatchSector(lba: nat, off: nat, patch: seq<byte>, ghost c: nat)
      requires Valid() && 2 <= c < g.Limit() && g.Lba(c) <= lba < g.Lba(c) + g.spc
      requires off + |patch| <= SECTOR
      modifies this`sectors
      ensures Valid() && Fat() == old(Fat())
      ensures SECTOR * (lba - g.Lba(c)) + off + |patch| <= g.ClusterSize()
      ensures Data() == old(Data())[c := Splice(old(Data())[c], SECTOR * (lba - g.Lba(c)) + off, patch)]
      ensures sectors[g.fsinfoLba] == old(sectors[g.fsinfoLba])
      ensures old(Counted()) ==> Counted()
    {
      hide FatOf, Concat, Splice, Product, FsinfoSigned, Zeros;
      g.LbaBounds(c);
      SectorPatch(g, sectors, c, lba - g.Lba(c), off, patch);
      ghost var d := sectors;
      sectors := sectors[lba := Splice(sectors[lba], off, patch)];
      FatFrame(g, d, sectors);
    }
  }
}
