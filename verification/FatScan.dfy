/** The directory loops of the driver: scanning, and looking for a short name. */
module FatScan {
  import opened Bytes
  import opened FatLayout
  import opened FatTable
  import opened FatVolume
  import opened FatContent
  import opened FatDirEntry
  import opened FatListing
  import opened FatShortName
  import opened FatDirectory

  method LfnChecksum(name8: seq<byte>, ext3: seq<byte>) returns (sum: byte)
    ensures sum == Checksum(name8 + ext3)
  {
    sum := 0;
    var short := name8 + ext3;
    var i := 0;
    while i < |short|
      invariant 0 <= i <= |short| && sum == Checksum(short[..i])
    {
      assert short[..i + 1][..i] == short[..i];
      sum := Rotated(sum, short[i]);
      i := i + 1;
    }
    assert short[..|short|] == short;
  }

  method GatherName(buf: seq<byte>, e: Entry, base: nat) returns (r: seq<byte>)
    requires |buf| == NAME_MAX
    ensures r == Gather(buf, e, base, 0)
  {
    r := buf;
    var k := 0;
    while k < CHARS
      invariant 0 <= k <= CHARS && |r| == NAME_MAX && Gather(r, e, base, k) == Gather(buf, e, base, 0)
    {
      if base + k >= NAME_MAX - 1 {
        break;
      }
      var ch := CharAt(e, k);
      if ch == 0 {
        break;
      }
      r := r[base + k := ch % 0x100];
      k := k + 1;
    }
  }

  method CopyUnpadded(s: seq<byte>) returns (r: seq<byte>)
    ensures r == Unpadded(s)
  {
    r := [];
    var i := 0;
    assert s[0..] == s;
    while i < |s| && s[i] != 0 && s[i] != SPACE
      invariant 0 <= i <= |s| && r + Unpadded(s[i..]) == Unpadded(s)
    {
      assert s[i..][1..] == s[i + 1..];
      r := r + [s[i]];
      i := i + 1;
    }
  }

  method FormatName(name8: seq<byte>, ext3: seq<byte>) returns (out: seq<byte>)
    requires |name8| == 8 && |ext3| == 3
    ensures out == ShortText(name8 + ext3)
  {
    assert (name8 + ext3)[..8] == name8 && (name8 + ext3)[8..] == ext3;
    out := CopyUnpadded(name8);
    if ext3[0] != 0 && ext3[0] != SPACE {
      var ext := CopyUnpadded(ext3);
      out := out + [DOT] + ext;
    }
  }

  method ScanLfn(run: Run, e: Entry) returns (r: Run)
    requires run.Run? ==> |run.name| == NAME_MAX
    ensures r == LfnStep(run, e)
  {
    var cur := run;
    if IsFirst(e) {
      cur := Run(Seq(e), e[13], Repeat(0, NAME_MAX));
    }
    if cur.NoRun? || Seq(e) != cur.next || e[13] != cur.sum || Seq(e) < 1 || Seq(e) > MAX_LFN {
      return NoRun;
    }
    var name := GatherName(cur.name, e, (Seq(e) - 1) * CHARS);
    r := Run(Seq(e) - 1, cur.sum, name);
  }

  /** One pass of the entry loop. */
  method ScanEntry(s: Scanner, e: Entry, index: nat) returns (r: Scanner)
    requires s.Valid() && !s.stopped
    ensures r == Step(s, e, index)
  {
    if e[0] == 0x00 {
      return s.(stopped := true);
    }
    if e[0] == 0xE5 {
      return s.(run := NoRun);
    }
    if e[11] % 0x10 == 0x0F {
      var run := ScanLfn(s.run, e);
      return s.(run := run);
    }
    if e[11] / 8 % 2 == 1 || e[0] == DOT {
      return s.(run := NoRun);
    }
    assert e[..8] + e[8..11] == e[..11];
    var name := FormatName(e[..8], e[8..11]);
    if name == [] {
      return s.(run := NoRun);
    }
    if s.run.Run? && s.run.next == 0 {
      var sum := LfnChecksum(e[..8], e[8..11]);
      if sum == s.run.sum {
        name := CString(s.run.name);
      }
    }
    r := Scanner(false, NoRun, s.listing + [Listed(name, index, IsDir(e), FirstCluster(e), FileSize(e))]);
  }

  /** A directory of the volume. */
  ghost predicate IsDirectory(v: Volume, cs: seq<nat>)
    reads v
  {
    v.Valid() && cs != [] && IsChain(v.Fat(), cs)
  }

  lemma DirectoryChain(v: Volume, cs: seq<nat>)
    requires IsDirectory(v, cs)
    ensures DirChain(v.Data(), cs, Per(v.g)) && cs[0] < v.g.Limit() && Link(cs[0])
  {
  }

  ghost function Dir(v: Volume, cs: seq<nat>): (es: seq<Entry>)
    requires IsDirectory(v, cs)
    reads v
    ensures |es| == Product(|cs|, Per(v.g))
  {
    DirEntries(v.Data(), cs, Per(v.g))
  }

  lemma {:induction false} ScanStops(es: seq<Entry>, n: nat, m: nat)
    requires n <= m <= |es| && Scan(es, n, START, 0).stopped
    ensures Scan(es, m, START, 0) == Scan(es, n, START, 0)
  {
    if n < m {
      ScanStops(es, n, m - 1);
    }
  }

  lemma ScanNext(es: seq<Entry>, n: nat)
    ensures Scan(es, 0, START, 0) == START
    ensures n < |es| ==> Scan(es, n + 1, START, 0) == Step(Scan(es, n, START, 0), es[n], n)
  {
  }

  /** The entry loop over one cluster. */
  method ScanCluster(v: Volume, cluster: nat, s: Scanner, index: nat, ghost cs: seq<nat>, ghost j: nat)
    returns (r: Scanner)
    requires IsDirectory(v, cs) && j < |cs| && cs[j] == cluster && index == Product(j, Per(v.g))
    requires index <= |Dir(v, cs)| && s == Scan(Dir(v, cs), index, START, 0) && !s.stopped
    ensures Product(j + 1, Per(v.g)) <= |Dir(v, cs)|
    ensures r.stopped ==> Scan(Dir(v, cs), |Dir(v, cs)|, START, 0) == r
    ensures !r.stopped ==> r == Scan(Dir(v, cs), Product(j + 1, Per(v.g)), START, 0)
  {
    hide Fits, FatOf, DataOf, CopiesEqual, Raw, Scan, Step, DirEntries, IsChain, Product, EntriesOf;
    var per := Per(v.g);
    DirectoryChain(v, cs);
    ChainNext(v.Fat(), cs, j);
    ProductStep(j, per);
    if j + 1 < |cs| {
      ProductGap(j + 1, |cs|, per);
    }
    var cbuf := v.ReadCluster(cluster);
    r := s;
    var i := 0;
    while i < per
      invariant 0 <= i <= per && index + i <= |Dir(v, cs)| && !r.stopped && r == Scan(Dir(v, cs), index + i, START, 0)
    {
      EntryAt(v.Data(), cs, per, j, i);
      ScanNext(Dir(v, cs), index + i);
      r := ScanEntry(r, cbuf[ENTRY * i..ENTRY * i + ENTRY], index + i);
      if r.stopped {
        ScanStops(Dir(v, cs), index + i + 1, |Dir(v, cs)|);
        return;
      }
      i := i + 1;
    }
  }

  /** fat32_scan_dir, one level: its listing is the listing of the directory's entries. */
  method ScanDir(v: Volume, dirCluster: nat, ghost cs: seq<nat>) returns (listing: seq<Listed>)
    requires IsDirectory(v, cs) && cs[0] == dirCluster
    ensures listing == Listing(Dir(v, cs))
  {
    hide Fits, FatOf, DataOf, CopiesEqual, Raw, Scan, Step, DirEntries, IsChain;
    var per := Per(v.g);
    var s := START;
    DirectoryChain(v, cs);
    ScanNext(Dir(v, cs), 0);
    ProductStep(0, per);
    var cluster: nat, index: nat := dirCluster, 0;
    ghost var j: nat := 0;
    while Link(cluster)
      invariant j <= |cs| && index == Product(j, per) <= |Dir(v, cs)|
      invariant !s.stopped && s == Scan(Dir(v, cs), index, START, 0)
      invariant Link(cluster) ==> j < |cs| && cs[j] == cluster
      invariant !Link(cluster) ==> j == |cs|
      decreases |cs| - j
    {
      s := ScanCluster(v, cluster, s, index, cs, j);
      if s.stopped {
        return s.listing;
      }
      ChainNext(v.Fat(), cs, j);
      cluster := v.FatGet(cluster);
      j, index := j + 1, index + per;
    }
    listing := s.listing;
  }

  ghost function DirClusters(v: Volume, cs: seq<nat>): Clusters
    requires IsDirectory(v, cs)
    reads v
  {
    DirectoryChain(v, cs);
    ClustersOf(v.Data(), cs, Per(v.g))
  }

  ghost predicate PresentIn(cluster: seq<Entry>, short: seq<byte>) {
    exists k :: 0 <= k < |cluster| && Live(cluster, k) && cluster[k][..11] == short
  }

  method ExistsInCluster(cluster: seq<Entry>, short: seq<byte>) returns (found: bool)
    ensures found == PresentIn(cluster, short)
  {
    var k := 0;
    while k < |cluster|
      invariant 0 <= k <= |cluster|
      invariant forall j :: 0 <= j < k ==> !IsEnd(cluster[j]) && !(Live(cluster, j) && cluster[j][..11] == short)
    {
      var e := cluster[k];
      if e[0] == 0x00 {
        break;
      }
      if e[0] != 0xE5 && !IsLfn(e) && e[..11] == short {
        return true;
      }
      k := k + 1;
    }
    return false;
  }

  method ShortNameExists(v: Volume, dirCluster: nat, short: seq<byte>, kmallocOk: bool, ghost cs: seq<nat>)
    returns (found: bool)
    requires IsDirectory(v, cs) && cs[0] == dirCluster
    ensures found == (kmallocOk && Present(DirClusters(v, cs), short))
  {
    hide Fits, FatOf, DataOf, CopiesEqual, IsChain, EntriesOf, Live;
    found := false;
    if !kmallocOk {
      return;
    }
    DirectoryChain(v, cs);
    ghost var dir := DirClusters(v, cs);
    var cluster: nat := dirCluster;
    ghost var j: nat := 0;
    while !found && Link(cluster)
      invariant j <= |cs| && (Link(cluster) ==> j < |cs| && cs[j] == cluster) && (!Link(cluster) ==> j == |cs|)
      invariant !found ==> forall i :: 0 <= i < j ==> !PresentIn(dir[i], short)
      invariant found ==> exists i :: 0 <= i < |dir| && PresentIn(dir[i], short)
      decreases |cs| - j, !found
    {
      ChainNext(v.Fat(), cs, j);
      var cbuf := v.ReadCluster(cluster);
      found := ExistsInCluster(EntriesOf(cbuf, Per(v.g)), short);
      cluster := v.FatGet(cluster);
      j := j + 1;
    }
    PresentSplit(dir, short);
  }

  lemma PresentSplit(dir: Clusters, short: seq<byte>)
    ensures Present(dir, short) <==> exists i :: 0 <= i < |dir| && PresentIn(dir[i], short)
  {
  }

  /** One tilde candidate, built in place. */
  method BuildCandidate(base: seq<byte>, n: nat) returns (cand: seq<byte>)
    requires 1 <= n <= CANDIDATES
    ensures cand == Candidate(base, n)
  {
    hide Splice, Repeat, Decimal;
    DecimalShape(n);
    var tag := IntToDec(n);
    var keep := 7 - |tag|;
    if keep > |base| {
      keep := |base|;
    }
    cand := Repeat(SPACE, 8);
    cand := Splice(cand, 0, base[..keep]);
    cand := cand[keep := TILDE];
    cand := Splice(cand, keep + 1, tag);
    FieldBuilt(base[..keep], tag);
  }

  /** A name put together in a field of spaces. */
  lemma FieldBuilt(base: seq<byte>, tag: seq<byte>)
    requires |base| + 1 + |tag| <= 8
    ensures Splice(Splice(Repeat(SPACE, 8), 0, base)[|base| := TILDE], |base| + 1, tag) ==
      base + [TILDE] + tag + Repeat(SPACE, 7 - |base| - |tag|)
  {
    hide Splice, Repeat;
    var l, r := Splice(Splice(Repeat(SPACE, 8), 0, base)[|base| := TILDE], |base| + 1, tag),
                base + [TILDE] + tag + Repeat(SPACE, 7 - |base| - |tag|);
    forall i | 0 <= i < 8
      ensures l[i] == r[i]
    {
    }
  }

  /** The candidate loop: the first tilde name that is not found, or none. Search number `m` has memory if
      `kmallocOk(m)`; without it nothing is found. */
  method FindCandidate(v: Volume, dirCluster: nat, base: seq<byte>, ext3: seq<byte>, kmallocOk: nat -> bool,
                       ghost cs: seq<nat>)
    returns (n: nat, cand: seq<byte>)
    requires IsDirectory(v, cs) && cs[0] == dirCluster && |ext3| == 3
    ensures n <= CANDIDATES
    ensures n != 0 ==> cand == Candidate(base, n) && !(kmallocOk(n) && Present(DirClusters(v, cs), cand + ext3))
    ensures forall m :: 1 <= m < n ==> kmallocOk(m) && Present(DirClusters(v, cs), Candidate(base, m) + ext3)
    ensures n == 0 ==> |LiveSet(DirClusters(v, cs))| >= CANDIDATES
  {
    hide Fits, FatOf, DataOf, CopiesEqual, IsChain, Candidate, LiveSet, Present, ClustersOf;
    ghost var dir := DirClusters(v, cs);
    n := 1;
    while n <= CANDIDATES
      invariant 1 <= n <= CANDIDATES + 1
      invariant forall m :: 1 <= m < n ==> kmallocOk(m) && Present(dir, Candidate(base, m) + ext3)
    {
      cand := BuildCandidate(base, n);
      var taken := ShortNameExists(v, dirCluster, cand + ext3, kmallocOk(n), cs);
      if !taken {
        return;
      }
      n := n + 1;
    }
    if |LiveSet(dir)| < CANDIDATES {
      CandidateFree(dir, base, ext3);
      assert false;
    }
    n, cand := 0, [];
  }

  /** The plain name of the leaf was looked for and found. */
  ghost predicate PlainTaken(v: Volume, cs: seq<nat>, leaf: seq<byte>, kmallocOk: nat -> bool)
    requires IsDirectory(v, cs)
    reads v
  {
    kmallocOk(0) && Present(DirClusters(v, cs), ShortOf(leaf))
  }

  /** gen_short_name: the plain name unless that is found, then a tilde name if one of them is not. With fewer
      than 999 live short entries the name it returns is in the directory only if the search for it had no
      memory. */
  method GenShortName(v: Volume, dirCluster: nat, leaf: seq<byte>, kmallocOk: nat -> bool, ghost cs: seq<nat>)
    returns (name8: seq<byte>, ext3: seq<byte>, ghost n: nat)
    requires IsDirectory(v, cs) && cs[0] == dirCluster
    ensures |name8| == 8 && |ext3| == 3 && ext3 == ShortOf(leaf)[8..] && n <= CANDIDATES
    ensures if n == 0 then name8 + ext3 == ShortOf(leaf) else name8 == Candidate(BaseOf(leaf), n)
    ensures n == 0 <== !PlainTaken(v, cs, leaf, kmallocOk)
    ensures n != 0 <== PlainTaken(v, cs, leaf, kmallocOk) && |LiveSet(DirClusters(v, cs))| < CANDIDATES
    ensures |LiveSet(DirClusters(v, cs))| < CANDIDATES && kmallocOk(n) ==> !Present(DirClusters(v, cs), name8 + ext3)
  {
    hide Fits, FatOf, DataOf, CopiesEqual, IsChain, LiveSet, Present, ClustersOf;
    n := 0;
    name8, ext3 := ToShortName(leaf);
    assert ShortOf(leaf)[8..] == ext3;
    var taken := ShortNameExists(v, dirCluster, name8 + ext3, kmallocOk(0), cs);
    if !taken {
      return;
    }
    var base := BaseUpper(leaf, 63);
    var k, cand := FindCandidate(v, dirCluster, base, ext3, kmallocOk, cs);
    if k != 0 {
      name8, n := cand, k;
      SameCandidate(BaseOf(leaf), base, k);
    }
  }

  /** A candidate looks at no more than six characters of the base. */
  lemma SameCandidate(base: seq<byte>, cut: seq<byte>, n: nat)
    requires 1 <= n <= CANDIDATES && cut == if |base| <= 63 then base else base[..63]
    ensures Candidate(cut, n) == Candidate(base, n)
  {
    var tag := TagOf(n);
    assert cut[..Keep(cut, tag)] == base[..Keep(base, tag)];
  }
}
