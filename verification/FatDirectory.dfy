/** Directories on the volume: entries of cluster chains, scanning, slot search, entry creation
    and removal (kernel/src/fs/fat32.c). */
module FatDirectory {
  import opened Bytes
  import opened FatLayout
  import opened FatTable
  import opened FatVolume
  import opened FatContent
  import opened FatDirEntry
  import opened FatListing
  import opened FatShortName

  const PER_SECTOR := 16

  /** Directory entries per cluster. */
  function Per(g: Geometry): nat { PER_SECTOR * g.spc }

  function EntriesOf(b: seq<byte>, per: nat): (r: seq<Entry>)
    requires |b| == ENTRY * per
    ensures |r| == per
  {
    seq(per, i requires 0 <= i < per => b[ENTRY * i..ENTRY * i + ENTRY])
  }

  /** Cluster contents as entries. */
  ghost function EntryData(data: seq<seq<byte>>, per: nat): (r: Clusters)
    ensures |r| == |data|
    ensures forall c :: 0 <= c < |data| && |data[c]| == ENTRY * per ==> r[c] == EntriesOf(data[c], per) && |r[c]| == per
  {
    seq(|data|, c requires 0 <= c < |data| => if |data[c]| == ENTRY * per then EntriesOf(data[c], per) else [])
  }

  /** The clusters of a chain are whole clusters of the volume. */
  ghost predicate DirChain(data: seq<seq<byte>>, cs: seq<nat>, per: nat) {
    forall i :: 0 <= i < |cs| ==> cs[i] < |data| && |data[cs[i]]| == ENTRY * per
  }

  lemma DirSized(data: seq<seq<byte>>, cs: seq<nat>, per: nat)
    requires DirChain(data, cs, per)
    ensures Sized(EntryData(data, per), cs, per)
  {
  }

  /** All entries of a directory, in chain order. */
  ghost function DirEntries(data: seq<seq<byte>>, cs: seq<nat>, per: nat): (r: seq<Entry>)
    requires DirChain(data, cs, per)
    ensures |r| == Product(|cs|, per)
  {
    DirSized(data, cs, per);
    Raw(EntryData(data, per), cs, per)
  }

  /** A directory cluster by cluster. */
  ghost function ClustersOf(data: seq<seq<byte>>, cs: seq<nat>, per: nat): (dir: Clusters)
    requires DirChain(data, cs, per)
    ensures |dir| == |cs| && forall i :: 0 <= i < |cs| ==> dir[i] == EntriesOf(data[cs[i]], per)
  {
    seq(|cs|, i requires 0 <= i < |cs| => EntriesOf(data[cs[i]], per))
  }

  lemma EntryAt(data: seq<seq<byte>>, cs: seq<nat>, per: nat, j: nat, i: nat)
    requires DirChain(data, cs, per) && j < |cs| && i < per
    ensures Product(j, per) + per <= Product(|cs|, per)
    ensures DirEntries(data, cs, per)[Product(j, per) + i] == data[cs[j]][ENTRY * i..ENTRY * i + ENTRY]
  {
    hide Raw, Product;
    DirSized(data, cs, per);
    RawCluster(EntryData(data, per), cs, per, j);
    var r, p := DirEntries(data, cs, per), Product(j, per);
    assert r[p + i] == r[p..p + per][i];
  }

  lemma EntryPatched(b: seq<byte>, per: nat, i: nat, e: Entry)
    requires |b| == ENTRY * per && i < per
    ensures EntriesOf(Splice(b, ENTRY * i, e), per) == Splice(EntriesOf(b, per), i, [e])
  {
    var l, r := EntriesOf(Splice(b, ENTRY * i, e), per), Splice(EntriesOf(b, per), i, [e]);
    forall k | 0 <= k < per
      ensures l[k] == r[k]
    {
      if k == i {
        assert Splice(b, ENTRY * i, e)[ENTRY * i..ENTRY * i + ENTRY] == e;
      } else {
        assert l[k] == b[ENTRY * k..ENTRY * k + ENTRY];
      }
    }
  }

  /** Writing one entry's bytes into its cluster replaces that entry of the directory. */
  lemma DirPatched(data: seq<seq<byte>>, cs: seq<nat>, per: nat, j: nat, i: nat, e: Entry)
    requires DirChain(data, cs, per) && j < |cs| && i < per
    requires forall a, b :: 0 <= a < b < |cs| ==> cs[a] != cs[b]
    ensures var data' := data[cs[j] := Splice(data[cs[j]], ENTRY * i, e)];
      && DirChain(data', cs, per)
      && Product(j, per) + per <= Product(|cs|, per)
      && DirEntries(data', cs, per) == Splice(DirEntries(data, cs, per), Product(j, per) + i, [e])
  {
    hide Raw, Product, Splice, EntriesOf;
    var data' := data[cs[j] := Splice(data[cs[j]], ENTRY * i, e)];
    DirSized(data, cs, per);
    RawPatch(EntryData(data, per), cs, per, j, i, [e]);
    EntryPatched(data[cs[j]], per, i, e);
    assert EntryData(data', per) == EntryData(data, per)[cs[j] := Splice(EntryData(data, per)[cs[j]], i, [e])];
  }

  lemma DirFrame(data: seq<seq<byte>>, data': seq<seq<byte>>, cs: seq<nat>, per: nat)
    requires DirChain(data, cs, per) && |data'| == |data| && forall i :: 0 <= i < |cs| ==> data'[cs[i]] == data[cs[i]]
    ensures DirChain(data', cs, per) && DirEntries(data', cs, per) == DirEntries(data, cs, per)
  {
    DirSized(data, cs, per);
    DirSized(data', cs, per);
    RawFrame(EntryData(data, per), EntryData(data', per), cs, per);
  }

  lemma DirAppended(data: seq<seq<byte>>, cs: seq<nat>, c: nat, per: nat)
    requires DirChain(data, cs, per) && c < |data| && |data[c]| == ENTRY * per
    ensures DirChain(data, cs + [c], per)
    ensures DirEntries(data, cs + [c], per) == DirEntries(data, cs, per) + EntriesOf(data[c], per)
  {
    DirSized(data, cs + [c], per);
    RawAppend(EntryData(data, per), cs, c, per);
  }

  /** A position in a directory: cluster `j` of the chain, entry `i` of that cluster. */
  datatype Spot = Spot(j: nat, i: nat)

  /** Where the driver finds an entry: a sector and a byte offset in it. */
  datatype Place = Place(lba: nat, off: nat)

  ghost predicate Located(g: Geometry, cs: seq<nat>, p: Place, s: Spot, n: nat) {
    && s.j < |cs| && s.i < Per(g) && 2 <= cs[s.j]
    && n == Product(s.j, Per(g)) + s.i
    && p.lba == g.Lba(cs[s.j]) + s.i / PER_SECTOR && p.off == ENTRY * (s.i % PER_SECTOR)
  }
}
