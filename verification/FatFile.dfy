/** File contents over cluster chains: fat32_file_read and fat32_file_write. */
module FatContent {
  import opened Bytes
  import opened FatLayout
  import opened FatTable

  /** Every cluster of `cs` exists and holds `size` bytes. */
  ghost predicate Sized<T>(data: seq<seq<T>>, cs: seq<nat>, size: nat) {
    forall i :: 0 <= i < |cs| ==> cs[i] < |data| && |data[cs[i]]| == size
  }

  /** What the clusters of a chain hold, one after the other: the bytes of a file, slack included,
      or the entries of a directory. */
  ghost function Raw<T>(data: seq<seq<T>>, cs: seq<nat>, size: nat): (r: seq<T>)
    requires Sized(data, cs, size)
    ensures |r| == Product(|cs|, size)
  {
    if cs == [] then [] else Raw(data, cs[..|cs| - 1], size) + data[cs[|cs| - 1]]
  }

  /** The bytes of cluster `k` of a chain, in the chain's bytes. */
  lemma {:induction false} RawCluster<T>(data: seq<seq<T>>, cs: seq<nat>, size: nat, k: nat)
    requires Sized(data, cs, size) && k < |cs|
    ensures Product(k, size) + size <= Product(|cs|, size)
    ensures Raw(data, cs, size)[Product(k, size)..Product(k, size) + size] == data[cs[k]]
  {
    ProductGap(k, |cs|, size);
    var n := |cs| - 1;
    if k < n {
      RawCluster(data, cs[..n], size, k);
      var head, p := Raw(data, cs[..n], size), Product(k, size);
      assert Raw(data, cs, size) == head + data[cs[n]];
      assert head[p..p + size] == (head + data[cs[n]])[p..p + size];
    }
  }

  /** Clusters outside the chain do not matter to it. */
  lemma {:induction false} RawFrame<T>(data: seq<seq<T>>, data': seq<seq<T>>, cs: seq<nat>, size: nat)
    requires Sized(data, cs, size) && |data'| == |data|
    requires forall i :: 0 <= i < |cs| ==> data'[cs[i]] == data[cs[i]]
    ensures Raw(data', cs, size) == Raw(data, cs, size)
  {
    if cs != [] {
      RawFrame(data, data', cs[..|cs| - 1], size);
    }
  }

  /** Rewriting one cluster of a chain rewrites its stretch of the chain's bytes. */
  lemma {:induction false} RawUpdate<T>(data: seq<seq<T>>, cs: seq<nat>, size: nat, k: nat, b: seq<T>)
    requires Sized(data, cs, size) && k < |cs| && |b| == size
    requires forall i, j :: 0 <= i < j < |cs| ==> cs[i] != cs[j]
    ensures Product(k, size) + size <= Product(|cs|, size)
    ensures Raw(data[cs[k] := b], cs, size) == Splice(Raw(data, cs, size), Product(k, size), b)
  {
    hide Splice;
    ProductGap(k, |cs|, size);
    var n := |cs| - 1;
    SpliceParts(Raw(data, cs[..n], size), data[cs[n]], Product(k, size), b);
    if k < n {
      ProductGap(k, n, size);
      RawUpdate(data, cs[..n], size, k, b);
    } else {
      RawFrame(data, data[cs[k] := b], cs[..n], size);
    }
  }

  /** Patching part of one cluster patches the chain's bytes there. */
  lemma RawPatch<T>(data: seq<seq<T>>, cs: seq<nat>, size: nat, k: nat, skip: nat, d: seq<T>)
    requires Sized(data, cs, size) && k < |cs| && skip + |d| <= size
    requires forall i, j :: 0 <= i < j < |cs| ==> cs[i] != cs[j]
    ensures Product(k, size) + size <= Product(|cs|, size)
    ensures Raw(data[cs[k] := Splice(data[cs[k]], skip, d)], cs, size) ==
            Splice(Raw(data, cs, size), Product(k, size) + skip, d)
  {
    hide Raw, Splice, Product;
    RawUpdate(data, cs, size, k, Splice(data[cs[k]], skip, d));
    RawCluster(data, cs, size, k);
    SpliceNested(Raw(data, cs, size), Product(k, size), size, skip, d);
  }

  /** A file: no clusters and no bytes, or a chain long enough for its size. */
  ghost predicate HoldsFile(fat: seq<nat>, clusterSize: nat, start: nat, size: nat, cs: seq<nat>) {
    if start == 0 then cs == [] && size == 0
    else IsChain(fat, cs) && cs[0] == start && size <= Product(|cs|, clusterSize)
  }

  /** `cs'` extends `cs` by clusters that were free. */
  ghost predicate Grown(fat: seq<nat>, cs: seq<nat>, cs': seq<nat>) {
    cs <= cs' && forall i :: |cs| <= i < |cs'| ==> 2 <= cs'[i] < |fat| && fat[cs'[i]] == 0
  }

  ghost predicate TableSameOutside(fat: seq<nat>, fat': seq<nat>, cs: seq<nat>) {
    |fat'| == |fat| && forall c :: 0 <= c < |fat| && c !in cs ==> fat'[c] == fat[c]
  }

  ghost predicate DataSameOutside<T>(data: seq<seq<T>>, data': seq<seq<T>>, cs: seq<nat>) {
    |data'| == |data| && forall c :: 0 <= c < |data| && c !in cs ==> data'[c] == data[c]
  }

  /** A chain that shares no cluster with the one that grew is still a chain, and no cluster of it
      was taken or written. */
  lemma OtherChainKept(fat: seq<nat>, fat': seq<nat>, data: seq<seq<byte>>, data': seq<seq<byte>>,
                       cs: seq<nat>, cs': seq<nat>, other: nat, ds: seq<nat>, size: nat)
    requires Grown(fat, cs, cs') && TableSameOutside(fat, fat', cs') && DataSameOutside(data, data', cs' + [other])
    requires IsChain(fat, ds) && Sized(data, ds, size)
    requires forall c :: c in ds ==> c !in cs
    ensures IsChain(fat', ds) && forall c :: c in ds ==> c !in cs'
    ensures other !in ds ==> Sized(data', ds, size) && Raw(data', ds, size) == Raw(data, ds, size)
  {
    forall c | c in cs'
      ensures c in cs || fat[c] == 0
    {
      var j :| 0 <= j < |cs'| && cs'[j] == c;
      assert j < |cs| ==> cs[j] == c;
    }
    forall i | 0 <= i < |ds|
      ensures ds[i] in ds && fat[ds[i]] != 0
    {
      assert i < |ds| - 1 ==> fat[ds[i]] == ds[i + 1];
    }
    if other !in ds {
      RawFrame(data, data', ds, size);
    }
  }

  lemma RawAppend<T>(data: seq<seq<T>>, cs: seq<nat>, c: nat, size: nat)
    requires Sized(data, cs + [c], size) && c < |data|
    ensures Sized(data, cs, size) && Raw(data, cs + [c], size) == Raw(data, cs, size) + data[c]
  {
    var ds := cs + [c];
    assert ds[..|ds| - 1] == cs;
    forall i | 0 <= i < |cs|
      ensures cs[i] == ds[i]
    {
    }
  }

  lemma ChainNext(fat: seq<nat>, cs: seq<nat>, k: nat)
    requires IsChain(fat, cs) && k < |cs| && |fat| <= END_MIN
    ensures 2 <= cs[k] < |fat| && (fat[cs[k]] >= END_MIN <==> k == |cs| - 1)
    ensures k < |cs| - 1 ==> fat[cs[k]] == cs[k + 1] && 2 <= cs[k + 1] < |fat|
    ensures Extends(fat, cs, fat, cs)
  {
    if k < |cs| - 1 {
      assert fat[cs[k]] == cs[k + 1] < |fat|;
    }
  }

  lemma ChainDistinct(fat: seq<nat>, cs: seq<nat>, j: nat)
    requires IsChain(fat, cs) && j < |cs|
    ensures cs[j] in cs && 2 <= cs[j] < |fat| && forall a, b :: 0 <= a < b < |cs| ==> cs[a] != cs[b]
  {
  }

  lemma ChainSized<T>(fat: seq<nat>, data: seq<seq<T>>, cs: seq<nat>, size: nat)
    requires IsChain(fat, cs) && |data| == |fat| && forall c :: 2 <= c < |data| ==> |data[c]| == size
    ensures Sized(data, cs, size)
  {
  }

  lemma {:induction false} RawPrefix<T>(data: seq<seq<T>>, cs: seq<nat>, cs': seq<nat>, size: nat)
    requires Sized(data, cs', size) && cs <= cs'
    ensures Sized(data, cs, size) && Product(|cs|, size) <= Product(|cs'|, size)
    ensures Raw(data, cs', size)[..Product(|cs|, size)] == Raw(data, cs, size)
  {
    forall i | 0 <= i < |cs|
      ensures cs[i] == cs'[i]
    {
    }
    if |cs| < |cs'| {
      RawPrefix(data, cs, cs'[..|cs'| - 1], size);
    } else {
      assert cs == cs';
    }
  }

  /** The bytes of chain `cs` in `data'` are those in `data` with `d` written over them at `off`. */
  ghost predicate Written(data: seq<seq<byte>>, data': seq<seq<byte>>, cs: seq<nat>, size: nat, off: nat,
                          d: seq<byte>) {
    && Sized(data, cs, size) && Sized(data', cs, size)
    && off + |d| <= Product(|cs|, size)
    && Raw(data', cs, size) == Splice(Raw(data, cs, size), off, d)
  }

  lemma WrittenNothing(fat: seq<nat>, data: seq<seq<byte>>, cs: seq<nat>, size: nat, off: nat, k: nat)
    requires IsChain(fat, cs) && |data| == |fat| && forall c :: 2 <= c < |data| ==> |data[c]| == size
    requires k < |cs| && Product(k, size) <= off <= Product(k, size) + size
    ensures Written(data, data, cs, size, off, []) && DataSameOutside(data, data, cs)
  {
    ProductGap(k, |cs|, size);
  }

  lemma WrittenMore(data: seq<seq<byte>>, data1: seq<seq<byte>>, data2: seq<seq<byte>>,
                    cs: seq<nat>, size: nat, off: nat, d: seq<byte>, e: seq<byte>)
    requires Written(data, data1, cs, size, off, d) && Written(data1, data2, cs, size, off + |d|, e)
    requires DataSameOutside(data, data1, cs) && DataSameOutside(data1, data2, cs)
    ensures Written(data, data2, cs, size, off, d + e) && DataSameOutside(data, data2, cs)
  {
    SpliceExtends(Raw(data, cs, size), off, d, e);
  }

  /** What was written to a chain is still written to the chain grown by an untouched cluster. */
  lemma WrittenGrown(data: seq<seq<byte>>, data': seq<seq<byte>>, cs: seq<nat>, c: nat, size: nat, off: nat,
                     d: seq<byte>)
    requires Written(data, data', cs, size, off, d) && DataSameOutside(data, data', cs)
    requires 0 < c < |data| && c !in cs && |data[c]| == size
    ensures Written(data, data', cs + [c], size, off, d) && DataSameOutside(data, data', cs + [c])
  {
    RawAppend(data, cs, c, size);
    RawAppend(data', cs, c, size);
  }

  lemma ChainTail(fat: seq<nat>, cs: seq<nat>, n: nat)
    requires IsChain(fat, cs + [n])
    ensures n !in cs && 2 <= n < |fat|
  {
    var ds := cs + [n];
    assert ds[|cs|] == n && forall i :: 0 <= i < |cs| ==> ds[i] == cs[i];
  }

  /** Linking a free cluster behind the last one gives a longer chain. */
  lemma ChainAppend(fat: seq<nat>, cs: seq<nat>, n: nat)
    requires IsChain(fat, cs) && 2 <= n < |fat| && fat[n] == 0
    ensures cs[|cs| - 1] < |fat| && n !in cs
    ensures Extends(fat, cs, fat[n := END_MARK][cs[|cs| - 1] := n], cs + [n])
  {
    var ds := cs + [n];
    assert ds[|cs|] == n && ds[|cs| - 1] == cs[|cs| - 1];
    forall i | 0 <= i < |cs|
      ensures fat[cs[i]] != 0
    {
      assert i < |cs| - 1 ==> fat[cs[i]] == cs[i + 1];
    }
  }

  /** From `fat` to `fat'` the chain `cs` became `cs'`, taking free clusters and touching no other entry. */
  ghost predicate Extends(fat: seq<nat>, cs: seq<nat>, fat': seq<nat>, cs': seq<nat>) {
    IsChain(fat', cs') && Grown(fat, cs, cs') && TableSameOutside(fat, fat', cs')
  }

  lemma ExtendsTransitive(fat: seq<nat>, cs: seq<nat>, fat1: seq<nat>, cs1: seq<nat>, fat2: seq<nat>, cs2: seq<nat>)
    requires Extends(fat, cs, fat1, cs1) && Extends(fat1, cs1, fat2, cs2)
    ensures Extends(fat, cs, fat2, cs2)
  {
    forall i | 0 <= i < |cs1|
      ensures fat1[cs1[i]] != 0 && cs1[i] in cs2
    {
      assert i < |cs1| - 1 ==> fat1[cs1[i]] == cs1[i + 1];
      assert cs2[i] == cs1[i];
    }
    forall i | |cs| <= i < |cs2|
      ensures 2 <= cs2[i] < |fat| && fat[cs2[i]] == 0
    {
      if i < |cs1| {
        assert cs2[i] == cs1[i];
      } else {
        assert cs2[i] !in cs1;
      }
    }
  }

  /** What a write call as a whole does to the bytes of its chain; nothing when no byte got through. */
  ghost predicate Stored(data: seq<seq<byte>>, data': seq<seq<byte>>, cs: seq<nat>, size: nat, off: nat, d: seq<byte>) {
    && Sized(data, cs, size) && Sized(data', cs, size)
    && if d == [] then Raw(data', cs, size) == Raw(data, cs, size) else Written(data, data', cs, size, off, d)
  }

  /** Directory-entry updates before and after the transfer do not show in the file's bytes. */
  lemma StoredAround(data: seq<seq<byte>>, data1: seq<seq<byte>>, data2: seq<seq<byte>>, data3: seq<seq<byte>>,
                     cs: seq<nat>, dirent: nat, size: nat, off: nat, d: seq<byte>)
    requires DataSameOutside(data, data1, [dirent]) && DataSameOutside(data2, data3, [dirent])
    requires DataSameOutside(data1, data2, cs) && Written(data1, data2, cs, size, off, d)
    requires 0 < dirent < |data| && dirent !in cs
    ensures DataSameOutside(data, data3, cs + [dirent]) && data2[dirent] == data1[dirent]
    ensures Stored(data, data3, cs, size, off, d)
  {
    forall i | 0 <= i < |cs|
      ensures cs[i] in cs
    {
    }
    RawFrame(data1, data, cs, size);
    RawFrame(data2, data3, cs, size);
  }

  lemma StoredNothing(fat: seq<nat>, data: seq<seq<byte>>, data1: seq<seq<byte>>, cs: seq<nat>, dirent: nat,
                      size: nat, off: nat)
    requires DataSameOutside(data, data1, [dirent]) && dirent !in cs
    requires cs == [] || IsChain(fat, cs)
    requires |data| == |fat| && forall c :: 2 <= c < |data| ==> |data[c]| == size
    ensures DataSameOutside(data, data1, cs + [dirent]) && Stored(data, data1, cs, size, off, [])
  {
    forall i | 0 <= i < |cs|
      ensures cs[i] in cs
    {
    }
    RawFrame(data, data1, cs, size);
  }

  lemma NothingGrown(fat: seq<nat>, cs: seq<nat>)
    ensures Grown(fat, cs, cs) && TableSameOutside(fat, fat, cs)
  {
  }

  /** A chain grown over free clusters misses an allocated cluster that it missed before, keeps its
      first cluster and holds at least as many bytes. */
  lemma ExtendsKeeps(fat: seq<nat>, cs: seq<nat>, fat': seq<nat>, cs': seq<nat>, dirent: nat, size: nat)
    requires Extends(fat, cs, fat', cs') && dirent < |fat| && fat[dirent] != 0 && dirent !in cs
    ensures dirent !in cs' && fat'[dirent] == fat[dirent]
    ensures cs' != [] && (cs != [] ==> cs'[0] == cs[0]) && |cs| <= |cs'|
    ensures Product(|cs|, size) <= Product(|cs'|, size)
  {
    forall i | 0 <= i < |cs'|
      ensures cs'[i] != dirent
    {
      assert i < |cs| ==> cs'[i] == cs[i];
    }
    if |cs| < |cs'| {
      ProductGap(|cs|, |cs'|, size);
    }
  }
}

module FatFile {
  import opened Words
  import opened Bytes
  import opened FatLayout
  import opened FatTable
  import opened FatVolume
  import opened FatContent
  import opened FatDirEntry

  /** A free cluster linked behind the last one of a chain; 0 when the disk is full. */
  method Append(v: Volume, last: nat, ghost cs: seq<nat>) returns (newc: nat)
    requires v.Valid() && cs != [] && IsChain(v.Fat(), cs) && last == cs[|cs| - 1]
    modifies v
    ensures v.Valid() && v.Data() == old(v.Data())
    ensures newc == 0 ==> unchanged(v) && forall c :: 2 <= c < v.g.Limit() ==> v.Fat()[c] != 0
    ensures newc != 0 ==>
      && 2 <= newc < v.g.Limit() && newc !in cs && Extends(old(v.Fat()), cs, v.Fat(), cs + [newc])
      && v.Fat()[newc] == END_MARK
    ensures old(v.Counted()) ==> v.Counted()
  {
    hide Fits, FatOf, DataOf, CopiesEqual, IsChain, Extends, Volume.Counted, Volume.Exact, Volume.Saved;
    ghost var fat: seq<nat> := v.Fat();
    ChainNext(fat, cs, |cs| - 1);
    newc := v.AllocCluster();
    if newc != 0 {
      ChainAppend(fat, cs, newc);
      ChainDistinct(fat, cs, |cs| - 1);
      v.Relink(last, newc);
    }
  }

  /** The next cluster of a chain, which is grown when `cluster` is its last; 0 when the disk is full. */
  method Follow(v: Volume, cluster: nat, ghost cs: seq<nat>, ghost k: nat) returns (next: nat, ghost cs': seq<nat>)
    requires v.Valid() && IsChain(v.Fat(), cs) && k < |cs| && cs[k] == cluster
    modifies v
    ensures v.Valid() && v.Data() == old(v.Data())
    ensures Extends(old(v.Fat()), cs, v.Fat(), cs')
    ensures next == 0 ==> cs' == cs && forall c :: 2 <= c < v.g.Limit() ==> v.Fat()[c] != 0
    ensures next != 0 ==> k + 1 < |cs'| && cs'[k + 1] == next && (cs' == cs || cs' == cs + [next])
    ensures old(v.Counted()) ==> v.Counted()
  {
    hide Fits, FatOf, DataOf, CopiesEqual, IsChain, Extends, Volume.Counted;
    ChainNext(v.Fat(), cs, k);
    cs' := cs;
    next := v.FatGet(cluster);
    if next >= END_MIN {
      next := Append(v, cluster, cs);
      if next != 0 {
        cs' := cs + [next];
      }
    }
  }

  /** The skip loop: from the start of a chain to the cluster that holds byte `off`, growing the chain
      when it is shorter; `ok` is false when the disk is full. */
  method Seek(v: Volume, start: nat, off: nat, ghost cs: seq<nat>)
    returns (ok: bool, cluster: nat, skip: nat, ghost k: nat, ghost cs': seq<nat>)
    requires v.Valid() && cs != [] && IsChain(v.Fat(), cs) && cs[0] == start
    modifies v
    ensures v.Valid() && v.Data() == old(v.Data())
    ensures Extends(old(v.Fat()), cs, v.Fat(), cs')
    ensures ok ==>
      k < |cs'| && cs'[k] == cluster && skip < v.g.ClusterSize() && off == Product(k, v.g.ClusterSize()) + skip
    ensures !ok ==> forall c :: 2 <= c < v.g.Limit() ==> v.Fat()[c] != 0
    ensures old(v.Counted()) ==> v.Counted()
  {
    hide Fits, FatOf, DataOf, CopiesEqual, IsChain, Grown, TableSameOutside, Volume.Counted;
    ghost var fat := v.Fat();
    var size := v.g.ClusterSize();
    cluster, skip, k, cs' := start, off, 0, cs;
    ChainNext(fat, cs, 0);
    while skip >= size
      invariant v.Valid() && v.Data() == old(v.Data()) && (old(v.Counted()) ==> v.Counted())
      invariant Extends(fat, cs, v.Fat(), cs')
      invariant k < |cs'| && cs'[k] == cluster && off == Product(k, size) + skip
    {
      ghost var fat1, cs1 := v.Fat(), cs';
      var next;
      next, cs' := Follow(v, cluster, cs1, k);
      ExtendsTransitive(fat, cs, fat1, cs1, v.Fat(), cs');
      if next == 0 {
        ok := false;
        return;
      }
      cluster, k, skip := next, k + 1, skip - size;
    }
    ok := true;
  }

  /** One pass of the write loop: read, patch and write back one cluster. */
  method WriteChunk(v: Volume, cluster: nat, skip: nat, chunk: seq<byte>, ghost cs: seq<nat>, ghost k: nat)
    requires v.Valid() && IsChain(v.Fat(), cs) && k < |cs| && cs[k] == cluster
    requires skip + |chunk| <= v.g.ClusterSize()
    modifies v`sectors
    ensures v.Valid() && v.Fat() == old(v.Fat()) && DataSameOutside(old(v.Data()), v.Data(), cs)
    ensures Written(old(v.Data()), v.Data(), cs, v.g.ClusterSize(), Product(k, v.g.ClusterSize()) + skip, chunk)
    ensures old(v.Counted()) ==> v.Counted()
  {
    hide FatOf, DataOf, CopiesEqual, Splice, Volume.Counted, IsChain, Fits, Written, DataSameOutside;
    ChunkWritten(v.Fat(), v.Data(), cs, v.g.ClusterSize(), k, skip, chunk);
    var cbuf := chunk;
    if skip != 0 || |chunk| != v.g.ClusterSize() {
      var was := v.ReadCluster(cluster);
      cbuf := Splice(was, skip, chunk);
    } else {
      SpliceWhole(v.Data()[cluster], chunk);
    }
    v.WriteCluster(cluster, cbuf);
  }

  /** Patching one cluster of a chain, as the chain's bytes see it. */
  lemma ChunkWritten(fat: seq<nat>, data: seq<seq<byte>>, cs: seq<nat>, size: nat, k: nat, skip: nat, chunk: seq<byte>)
    requires IsChain(fat, cs) && |data| == |fat| && k < |cs| && skip + |chunk| <= size
    requires forall c :: 2 <= c < |data| ==> |data[c]| == size
    ensures 2 <= cs[k] < |data| && |data[cs[k]]| == size
    ensures var data' := data[cs[k] := Splice(data[cs[k]], skip, chunk)];
      Written(data, data', cs, size, Product(k, size) + skip, chunk) && DataSameOutside(data, data', cs)
  {
    hide Raw, Product, Splice, IsChain, Sized;
    ChainDistinct(fat, cs, k);
    ChainSized(fat, data, cs, size);
    RawPatch(data, cs, size, k, skip, chunk);
    ChainSized(fat, data[cs[k] := Splice(data[cs[k]], skip, chunk)], cs, size);
  }

  /** The write loop, from byte `off` of the chain on. It stops early only when the disk is full. */
  method Transfer(v: Volume, cluster0: nat, skip0: nat, off: nat, buf: seq<byte>, ghost k0: nat, ghost cs: seq<nat>)
    returns (done: nat, ghost cs': seq<nat>)
    requires v.Valid() && IsChain(v.Fat(), cs) && k0 < |cs| && cs[k0] == cluster0
    requires skip0 < v.g.ClusterSize() && off == Product(k0, v.g.ClusterSize()) + skip0
    modifies v
    ensures v.Valid() && done <= |buf|
    ensures Extends(old(v.Fat()), cs, v.Fat(), cs')
    ensures DataSameOutside(old(v.Data()), v.Data(), cs')
    ensures done < |buf| ==> forall c :: 2 <= c < v.g.Limit() ==> v.Fat()[c] != 0
    ensures Written(old(v.Data()), v.Data(), cs', v.g.ClusterSize(), off, buf[..done])
    ensures old(v.Counted()) ==> v.Counted()
  {
    hide Fits, FatOf, DataOf, CopiesEqual, IsChain, Grown, TableSameOutside, DataSameOutside, Written,
         Volume.Counted;
    var size := v.g.ClusterSize();
    ghost var fat, data := v.Fat(), v.Data();
    ghost var k: nat := k0;
    ChainNext(fat, cs, k0);
    WrittenNothing(fat, data, cs, size, off, k0);
    var cluster: nat, skip: nat := cluster0, skip0;
    done, cs' := 0, cs;
    while done < |buf|
      invariant v.Valid() && 0 <= done <= |buf| && (old(v.Counted()) ==> v.Counted())
      invariant Extends(fat, cs, v.Fat(), cs')
      invariant DataSameOutside(data, v.Data(), cs')
      invariant Written(data, v.Data(), cs', size, off, buf[..done])
      invariant done < |buf| ==> k < |cs'| && cs'[k] == cluster && skip < size && off + done == Product(k, size) + skip
    {
      var chunk := if size - skip > |buf| - done then |buf| - done else size - skip;
      ghost var data1 := v.Data();
      WriteChunk(v, cluster, skip, buf[done..done + chunk], cs', k);
      WrittenMore(data, data1, v.Data(), cs', size, off, buf[..done], buf[done..done + chunk]);
      assert buf[..done] + buf[done..done + chunk] == buf[..done + chunk];
      done, skip := done + chunk, 0;
      if done < |buf| {
        ghost var fat1, cs1 := v.Fat(), cs';
        var next;
        next, cs' := Follow(v, cluster, cs1, k);
        ExtendsTransitive(fat, cs, fat1, cs1, v.Fat(), cs');
        if next == 0 {
          break;
        }
        if cs' != cs1 {
          ChainTail(v.Fat(), cs1, next);
          WrittenGrown(data, v.Data(), cs1, next, size, off, buf[..done]);
        }
        cluster, k := next, k + 1;
      }
    }
  }

  /** An open file: the in-memory node and where its directory entry is. */
  class FileNode {
    var start: word32
    var size: word32
    const direntSector: nat
    const direntOffset: nat
    ghost const direntCluster: nat

    ghost predicate Placed(g: Geometry) {
      && 2 <= direntCluster < g.Limit()
      && g.Lba(direntCluster) <= direntSector < g.Lba(direntCluster) + g.spc
      && direntOffset + ENTRY <= SECTOR
    }

    ghost function Pos(g: Geometry): (p: nat)
      requires Placed(g)
      ensures p + ENTRY <= g.ClusterSize()
    {
      SECTOR * (direntSector - g.Lba(direntCluster)) + direntOffset
    }

    ghost function Dirent(g: Geometry, data: seq<seq<byte>>): Entry
      requires Placed(g) && |data| == g.Limit() && |data[direntCluster]| == g.ClusterSize()
    {
      data[direntCluster][Pos(g)..Pos(g) + ENTRY]
    }

    /** The directory entry on the disk says what the node says. */
    ghost predicate Agrees(g: Geometry, data: seq<seq<byte>>)
      requires Placed(g) && |data| == g.Limit() && |data[direntCluster]| == g.ClusterSize()
      reads this
    {
      FirstCluster(Dirent(g, data)) == start && FileSize(Dirent(g, data)) == size
    }
  }

  /** Only the cluster and size fields of one directory entry differ. */
  ghost predicate FieldsOnly(b: seq<byte>, b': seq<byte>, pos: nat) {
    |b'| == |b| && forall i :: 0 <= i < |b| && !(pos + 20 <= i < pos + 22) && !(pos + 26 <= i < pos + ENTRY) ==>
      b'[i] == b[i]
  }

  /** An entry and another one agree but for their cluster and size fields. */
  ghost predicate EntryFields(e: seq<byte>, e': seq<byte>) {
    |e| == |e'| == ENTRY && forall i :: 0 <= i < 20 || 22 <= i < 26 ==> e'[i] == e[i]
  }

  lemma FieldsSpliced(b: seq<byte>, pos: nat, e: Entry)
    requires pos + ENTRY <= |b| && EntryFields(b[pos..pos + ENTRY], e)
    ensures FieldsOnly(b, Splice(b, pos, e), pos) && Splice(b, pos, e)[pos..pos + ENTRY] == e
  {
    forall i | pos <= i < pos + ENTRY
      ensures b[pos..pos + ENTRY][i - pos] == b[i]
    {
    }
  }

  /** The node's directory entry is stored again, with other cluster and size fields. */
  method StoreDirent(v: Volume, n: FileNode, e: Entry)
    requires v.Valid() && n.Placed(v.g) && EntryFields(n.Dirent(v.g, v.Data()), e)
    modifies v`sectors
    ensures v.Valid() && v.Fat() == old(v.Fat()) && DataSameOutside(old(v.Data()), v.Data(), [n.direntCluster])
    ensures n.Dirent(v.g, v.Data()) == e
    ensures FieldsOnly(old(v.Data())[n.direntCluster], v.Data()[n.direntCluster], n.Pos(v.g))
    ensures old(v.Counted()) ==> v.Counted()
  {
    hide FatOf, DataOf, CopiesEqual, Fits, Splice, Volume.Counted, Product, EntryFields, FieldsOnly;
    FieldsSpliced(v.Data()[n.direntCluster], n.Pos(v.g), e);
    v.PatchSector(n.direntSector, n.direntOffset, e, n.direntCluster);
  }

  method UpdateDirentCluster(v: Volume, n: FileNode)
    requires v.Valid() && n.Placed(v.g)
    modifies v`sectors
    ensures v.Valid() && v.Fat() == old(v.Fat()) && DataSameOutside(old(v.Data()), v.Data(), [n.direntCluster])
    ensures n.Dirent(v.g, v.Data()) == WithCluster(n.Dirent(v.g, old(v.Data())), n.start)
    ensures FieldsOnly(old(v.Data())[n.direntCluster], v.Data()[n.direntCluster], n.Pos(v.g))
    ensures old(v.Counted()) ==> v.Counted()
  {
    hide FatOf, DataOf, CopiesEqual, Fits, Volume.Counted, Product, DataSameOutside;
    var e := v.ReadSlice(n.direntSector, n.direntOffset, ENTRY, n.direntCluster);
    StoreDirent(v, n, WithCluster(e, n.start));
  }

  method UpdateDirentSize(v: Volume, n: FileNode)
    requires v.Valid() && n.Placed(v.g)
    modifies v`sectors
    ensures v.Valid() && v.Fat() == old(v.Fat()) && DataSameOutside(old(v.Data()), v.Data(), [n.direntCluster])
    ensures n.Dirent(v.g, v.Data()) == WithSize(n.Dirent(v.g, old(v.Data())), n.size)
    ensures FieldsOnly(old(v.Data())[n.direntCluster], v.Data()[n.direntCluster], n.Pos(v.g))
    ensures old(v.Counted()) ==> v.Counted()
  {
    hide FatOf, DataOf, CopiesEqual, Fits, Volume.Counted, Product, DataSameOutside;
    var e := v.ReadSlice(n.direntSector, n.direntOffset, ENTRY, n.direntCluster);
    StoreDirent(v, n, WithSize(e, n.size));
  }

  /** A node on a volume: it holds the chain `cs`, and its directory entry lies in an allocated
      cluster outside that chain. */
  ghost predicate Opened(v: Volume, n: FileNode, cs: seq<nat>)
    requires v.Valid()
    reads v, n
  {
    && HoldsFile(v.Fat(), v.g.ClusterSize(), n.start, n.size, cs)
    && n.Placed(v.g) && v.Fat()[n.direntCluster] != 0 && n.direntCluster !in cs
  }

  /** The first cluster of a file that has none yet; false when the disk is full. */
  method EnsureStart(v: Volume, n: FileNode, ghost cs: seq<nat>) returns (ok: bool, ghost cs': seq<nat>)
    requires v.Valid() && Opened(v, n, cs)
    modifies v, n`start
    ensures v.Valid() && DataSameOutside(old(v.Data()), v.Data(), [n.direntCluster])
    ensures ok ==> Extends(old(v.Fat()), cs, v.Fat(), cs') && cs' != [] && cs'[0] == n.start && n.start != 0
    ensures !ok ==> cs' == cs && unchanged(v) && unchanged(n) && forall c :: 2 <= c < v.g.Limit() ==> v.Fat()[c] != 0
    ensures FieldsOnly(old(v.Data())[n.direntCluster], v.Data()[n.direntCluster], n.Pos(v.g))
    ensures old(n.Agrees(v.g, v.Data())) ==> n.Agrees(v.g, v.Data())
    ensures old(v.Counted()) ==> v.Counted()
  {
    hide FatOf, DataOf, CopiesEqual, Fits, WithCluster, Volume.Counted, Volume.Saved, Product;
    ok, cs' := true, cs;
    if n.start == 0 {
      var c := v.AllocCluster();
      if c == 0 {
        ok := false;
        return;
      }
      cs' := [c];
      n.start := c;
      UpdateDirentCluster(v, n);
    }
  }

  /** Everything before the transfer: the cluster that holds byte `off`, allocated if need be. */
  method Locate(v: Volume, n: FileNode, off: nat, ghost cs: seq<nat>)
    returns (ok: bool, cluster: nat, skip: nat, ghost k: nat, ghost cs': seq<nat>)
    requires v.Valid() && Opened(v, n, cs)
    modifies v, n`start
    ensures v.Valid() && Opened(v, n, cs')
    ensures Grown(old(v.Fat()), cs, cs') && TableSameOutside(old(v.Fat()), v.Fat(), cs')
    ensures DataSameOutside(old(v.Data()), v.Data(), [n.direntCluster])
    ensures FieldsOnly(old(v.Data())[n.direntCluster], v.Data()[n.direntCluster], n.Pos(v.g))
    ensures old(n.Agrees(v.g, v.Data())) ==> n.Agrees(v.g, v.Data())
    ensures ok ==> n.start != 0 && k < |cs'| && cs'[k] == cluster && skip < v.g.ClusterSize()
    ensures ok ==> off == Product(k, v.g.ClusterSize()) + skip
    ensures !ok ==> forall c :: 2 <= c < v.g.Limit() ==> v.Fat()[c] != 0
    ensures old(v.Counted()) ==> v.Counted()
  {
    hide Fits, FatOf, DataOf, CopiesEqual, IsChain, Grown, TableSameOutside, DataSameOutside, WithSize, Product,
         FieldsOnly, Volume.Counted;
    ok, cs' := EnsureStart(v, n, cs);
    if !ok {
      NothingGrown(v.Fat(), cs);
      cluster, skip, k := 0, 0, 0;
      return;
    }
    ghost var cs1, fat1 := cs', v.Fat();
    ExtendsKeeps(old(v.Fat()), cs, fat1, cs1, n.direntCluster, v.g.ClusterSize());
    ok, cluster, skip, k, cs' := Seek(v, n.start, off, cs');
    ExtendsTransitive(old(v.Fat()), cs, fat1, cs1, v.Fat(), cs');
    ExtendsKeeps(fat1, cs1, v.Fat(), cs', n.direntCluster, v.g.ClusterSize());
    ExtendsKeeps(old(v.Fat()), cs, v.Fat(), cs', n.direntCluster, v.g.ClusterSize());
  }

  /** The size after a write of `done` bytes at `off`: the end is computed in 32 bits. */
  function Resized(size: word32, off: word32, done: word32): (r: word32)
    ensures r >= size && (off + done < WRAP32 ==> r >= off + done) && (r == size || r <= off + done)
  {
    var end := (off + done) % WRAP32;
    if end > size then end else size
  }

  /** The end of fat32_file_write: the node and its directory entry are told the new size. */
  method Resize(v: Volume, n: FileNode, off: word32, done: word32)
    requires v.Valid() && n.Placed(v.g)
    modifies v`sectors, n`size
    ensures v.Valid() && v.Fat() == old(v.Fat()) && DataSameOutside(old(v.Data()), v.Data(), [n.direntCluster])
    ensures n.size == Resized(old(n.size), off, done)
    ensures FieldsOnly(old(v.Data())[n.direntCluster], v.Data()[n.direntCluster], n.Pos(v.g))
    ensures old(n.Agrees(v.g, v.Data())) ==> n.Agrees(v.g, v.Data())
    ensures old(v.Counted()) ==> v.Counted()
  {
    hide Fits, FatOf, DataOf, CopiesEqual, WithSize, Volume.Counted;
    var end: word32 := (off + done) % WRAP32;
    if end > n.size {
      n.size := end;
      UpdateDirentSize(v, n);
    }
  }

  /** fat32_file_write, for every offset and length. */
  method FileWrite(v: Volume, n: FileNode, off: word32, buf: seq<byte>, kmallocOk: bool, ghost cs: seq<nat>)
    returns (done: word32, ghost cs': seq<nat>)
    requires v.Valid() && Opened(v, n, cs) && |buf| < WRAP32
    modifies v, n`start, n`size
    ensures v.Valid() && Opened(v, n, cs') && done <= |buf|
    ensures Grown(old(v.Fat()), cs, cs') && TableSameOutside(old(v.Fat()), v.Fat(), cs')
    ensures DataSameOutside(old(v.Data()), v.Data(), cs' + [n.direntCluster])
    ensures FieldsOnly(old(v.Data())[n.direntCluster], v.Data()[n.direntCluster], n.Pos(v.g))
    ensures old(n.Agrees(v.g, v.Data())) ==> n.Agrees(v.g, v.Data())
    ensures done < |buf| ==> !kmallocOk || forall c :: 2 <= c < v.g.Limit() ==> v.Fat()[c] != 0
    ensures Stored(old(v.Data()), v.Data(), cs', v.g.ClusterSize(), off, buf[..done])
    ensures n.size == Resized(old(n.size), off, done) || (done == 0 && n.size == old(n.size))
    ensures old(v.Counted()) ==> v.Counted()
  {
    hide Fits, FatOf, DataOf, CopiesEqual, IsChain, Grown, TableSameOutside, DataSameOutside, Stored, WithSize,
         Product, Volume.Counted, FileNode.Agrees, FieldsOnly, Resized, Opened, HoldsFile, Written;
    done := 0;
    var ok, cluster, skip;
    ghost var k;
    ok, cluster, skip, k, cs' := Locate(v, n, off, cs);
    ghost var cs1, fat1, data1, size := cs', v.Fat(), v.Data(), v.g.ClusterSize();
    OpenedFacts(v, n, cs1);
    if !ok || !kmallocOk {
      StoredNothing(fat1, old(v.Data()), data1, cs1, n.direntCluster, size, off);
      return;
    }
    HeldChain(fat1, size, n.start, n.size, cs1);
    done, cs' := Transfer(v, cluster, skip, off, buf, k, cs1);
    ExtendsTransitive(old(v.Fat()), cs, fat1, cs1, v.Fat(), cs');
    ExtendsKeeps(fat1, cs1, v.Fat(), cs', n.direntCluster, size);
    ghost var data2 := v.Data();
    OutsideSame(data1, data2, cs', n.direntCluster);
    AgreesSame(n, v.g, data1, data2);
    Resize(v, n, off, done);
    WrittenRoom(data1, data2, cs', size, off, buf[..done]);
    HoldsAgain(v.Fat(), size, n.start, n.size, cs');
    OpenedAgain(v, n, cs');
    StoredAround(old(v.Data()), data1, data2, v.Data(), cs', n.direntCluster, size, off, buf[..done]);
    FieldsTwice(old(v.Data())[n.direntCluster], data1[n.direntCluster], v.Data()[n.direntCluster], n.Pos(v.g));
  }

  lemma OpenedFacts(v: Volume, n: FileNode, cs: seq<nat>)
    requires v.Valid() && Opened(v, n, cs)
    ensures HoldsFile(v.Fat(), v.g.ClusterSize(), n.start, n.size, cs) && (cs == [] || IsChain(v.Fat(), cs))
    ensures n.Placed(v.g) && v.Fat()[n.direntCluster] != 0 && n.direntCluster !in cs
    ensures 0 < n.direntCluster < v.g.Limit()
  {
  }

  lemma OpenedAgain(v: Volume, n: FileNode, cs: seq<nat>)
    requires v.Valid() && HoldsFile(v.Fat(), v.g.ClusterSize(), n.start, n.size, cs)
    requires n.Placed(v.g) && v.Fat()[n.direntCluster] != 0 && n.direntCluster !in cs
    ensures Opened(v, n, cs)
  {
  }

  lemma HeldChain(fat: seq<nat>, size: nat, start: nat, bytes: nat, cs: seq<nat>)
    requires HoldsFile(fat, size, start, bytes, cs) && start != 0
    ensures IsChain(fat, cs) && cs != [] && cs[0] == start && bytes <= Product(|cs|, size)
  {
  }

  lemma HoldsAgain(fat: seq<nat>, size: nat, start: nat, bytes: nat, cs: seq<nat>)
    requires IsChain(fat, cs) && cs != [] && cs[0] == start && start != 0 && bytes <= Product(|cs|, size)
    ensures HoldsFile(fat, size, start, bytes, cs)
  {
  }

  lemma OutsideSame(data: seq<seq<byte>>, data': seq<seq<byte>>, cs: seq<nat>, c: nat)
    requires DataSameOutside(data, data', cs) && 0 < c < |data| && c !in cs
    ensures |data'| == |data| && data'[c] == data[c]
  {
  }

  lemma AgreesSame(n: FileNode, g: Geometry, data: seq<seq<byte>>, data': seq<seq<byte>>)
    requires n.Placed(g) && |data| == |data'| == g.Limit() && |data[n.direntCluster]| == g.ClusterSize()
    requires data'[n.direntCluster] == data[n.direntCluster]
    ensures n.Agrees(g, data') == n.Agrees(g, data)
  {
  }

  lemma WrittenRoom(data: seq<seq<byte>>, data': seq<seq<byte>>, cs: seq<nat>, size: nat, off: nat, d: seq<byte>)
    requires Written(data, data', cs, size, off, d)
    ensures off + |d| <= Product(|cs|, size)
  {
  }

  lemma FieldsTwice(a: seq<byte>, b: seq<byte>, c: seq<byte>, pos: nat)
    requires FieldsOnly(a, b, pos) && FieldsOnly(b, c, pos)
    ensures FieldsOnly(a, c, pos)
  {
  }

  /** The length fat32_file_read settles on: `off + len` is computed in 32 bits. */
  function ReadLength(off: word32, len: word32, size: word32): (r: word32)
    requires off < size
  {
    if (off + len) % WRAP32 > size then size - off else len
  }

  /** Up to `len` elements of `s` from `off` on. */
  function Slice<T>(s: seq<T>, off: nat, len: nat): (r: seq<T>)
    requires off <= |s|
    ensures |r| == (if off + len <= |s| then len else |s| - off) && r == s[off..off + |r|]
  {
    if off + len <= |s| then s[off..off + len] else s[off..]
  }

  /** Reading on in the cluster that holds the next byte continues the slice read so far. */
  lemma SliceOn(data: seq<seq<byte>>, cs: seq<nat>, size: nat, k: nat, off: nat, got: nat, skip: nat, chunk: nat)
    requires Sized(data, cs, size) && k < |cs| && off + got == Product(k, size) + skip && skip + chunk <= size
    ensures off + got + chunk <= Product(k, size) + size <= Product(|cs|, size)
    ensures Raw(data, cs, size)[off..off + got] + data[cs[k]][skip..skip + chunk] ==
      Raw(data, cs, size)[off..off + got + chunk]
  {
    hide Raw, Product;
    RawCluster(data, cs, size, k);
    var r, p := Raw(data, cs, size), Product(k, size);
    SliceOfSlice(r, p, p + size, skip, skip + chunk);
    assert r[off..off + got] + r[off + got..off + got + chunk] == r[off..off + got + chunk];
  }

  method ReadLoop(v: Volume, cluster0: nat, skip0: nat, off: nat, want: nat, ghost cs: seq<nat>, ghost k0: nat)
    returns (out: seq<byte>)
    requires v.Valid() && IsChain(v.Fat(), cs) && Sized(v.Data(), cs, v.g.ClusterSize())
    requires k0 < |cs| && cs[k0] == cluster0 && skip0 < v.g.ClusterSize()
    requires off == Product(k0, v.g.ClusterSize()) + skip0
    ensures off <= Product(|cs|, v.g.ClusterSize())
    ensures out == Slice(Raw(v.Data(), cs, v.g.ClusterSize()), off, want)
  {
    hide Fits, FatOf, DataOf, CopiesEqual, Raw, Product, IsChain, Sized, Extends;
    out := [];
    var size := v.g.ClusterSize();
    var cluster: nat, skip: nat := cluster0, skip0;
    ghost var k: nat := k0;
    ghost var raw := Raw(v.Data(), cs, size);
    ProductGap(k0, |cs|, size);
    var done: nat := 0;
    while done < want
      invariant done <= want && off + done <= |raw| && out == raw[off..off + done]
      invariant done < want ==> k < |cs| && cs[k] == cluster && skip < size && off + done == Product(k, size) + skip
      decreases want - done
    {
      ChainNext(v.Fat(), cs, k);
      ProductStep(k, size);
      var cbuf := v.ReadCluster(cluster);
      var chunk := if size - skip > want - done then want - done else size - skip;
      SliceOn(v.Data(), cs, size, k, off, done, skip, chunk);
      out, done, skip := out + cbuf[skip..skip + chunk], done + chunk, 0;
      var next := v.FatGet(cluster);
      if next >= END_MIN {
        break;
      }
      cluster, k := next, k + 1;
    }
  }

  method FileRead(v: Volume, n: FileNode, off: word32, len: word32, kmallocOk: bool, ghost cs: seq<nat>)
    returns (out: seq<byte>)
    requires v.Valid() && HoldsFile(v.Fat(), v.g.ClusterSize(), n.start, n.size, cs)
    ensures off >= n.size || !kmallocOk ==> out == []
    ensures off < n.size && kmallocOk ==>
      && Sized(v.Data(), cs, v.g.ClusterSize())
      && out == Slice(Raw(v.Data(), cs, v.g.ClusterSize()), off, ReadLength(off, len, n.size))
  {
    hide FatOf, DataOf, CopiesEqual, Raw;
    out := [];
    if n.start == 0 || off >= n.size {
      return;
    }
    var want := ReadLength(off, len, n.size);
    var size := v.g.ClusterSize();
    var cluster: nat, skip: nat := n.start, off;
    ghost var k: nat := 0;
    while skip >= size
      invariant k < |cs| && cs[k] == cluster && off == Product(k, size) + skip
    {
      ChainNext(v.Fat(), cs, k);
      cluster := v.FatGet(cluster);
      if cluster >= END_MIN {
        assert false;
        return;
      }
      k, skip := k + 1, skip - size;
    }
    if kmallocOk {
      out := ReadLoop(v, cluster, skip, off, want, cs, k);
    }
  }

  /** What was written is what a read of the same range returns, also when the disk filled up half-way. If the
      end of the write passes 2^32 the size is not raised, and the bytes are found only in a file that reached
      beyond `off` before. */
  method WriteThenRead(v: Volume, n: FileNode, off: word32, buf: seq<byte>, ghost cs: seq<nat>)
    returns (done: word32, out: seq<byte>, ghost cs': seq<nat>)
    requires v.Valid() && Opened(v, n, cs) && |buf| < WRAP32
    modifies v, n`start, n`size
    ensures v.Valid() && Opened(v, n, cs') && done <= |buf|
    ensures out == buf[..done] <==> done == 0 || off + done < WRAP32 || off < old(n.size)
    ensures out == buf[..done] || out == []
    ensures old(v.Counted()) ==> v.Counted()
  {
    hide Opened, Extends, IsChain, HoldsFile, Grown, TableSameOutside, DataSameOutside, FieldsOnly, Raw, Sized;
    done, cs' := FileWrite(v, n, off, buf, true, cs);
    out := [];
    if done > 0 {
      OpenedFacts(v, n, cs');
      out := FileRead(v, n, off, done, true, cs');
      SpliceStretch(Raw(old(v.Data()), cs', v.g.ClusterSize()), off, buf[..done], 0, done);
      ReadsBack(old(n.size), off, done);
    }
  }

  /** After a write of `done` bytes at `off`, the same range is within the file, or else `off` is not. */
  lemma ReadsBack(size: word32, off: word32, done: word32)
    requires done > 0
    ensures var r := Resized(size, off, done);
      && (off < r <==> off + done < WRAP32 || off < size)
      && (off < r ==> ReadLength(off, done, r) == done)
  {
  }

  /** `s` with `d` written at `off`, longer than before when `d` reaches past its end. */
  function Overwrite<T>(s: seq<T>, off: nat, d: seq<T>): (r: seq<T>)
    requires off <= |s|
    ensures |r| == if off + |d| <= |s| then |s| else off + |d|
    ensures forall i :: 0 <= i < |r| ==> r[i] == if off <= i < off + |d| then d[i - off] else s[i]
  {
    s[..off] + d + if off + |d| <= |s| then s[off + |d|..] else []
  }

  /** A write at or before the end of a file, as seen in the file's contents: as much of the overwritten
      contents as the size admits, and all of it if and only if the end of the write is below 2^32. */
  lemma WriteContents(data: seq<seq<byte>>, data': seq<seq<byte>>, cs: seq<nat>, cs': seq<nat>,
                      clusterSize: nat, off: word32, d: seq<byte>, size: word32, size': word32)
    requires Stored(data, data', cs', clusterSize, off, d) && cs <= cs' && Sized(data, cs, clusterSize)
    requires off <= size <= Product(|cs|, clusterSize) && |d| < WRAP32
    requires size' == Resized(size, off, |d|) || (d == [] && size' == size)
    ensures size' <= Product(|cs'|, clusterSize)
    ensures
      var after := Raw(data', cs', clusterSize)[..size'];
      var wanted := Overwrite(Raw(data, cs, clusterSize)[..size], off, d);
      && (after == wanted <==> off + |d| < WRAP32)
      && size' <= |wanted| && after == wanted[..size']
  {
    hide Raw, Sized, Product, Splice;
    RawPrefix(data, cs, cs', clusterSize);
    var r := Raw(data, cs', clusterSize);
    assert r[..Product(|cs|, clusterSize)][..size] == r[..size];
    OverwriteSeen(r, size, off, d);
  }

  /** The same about one sequence of bytes. */
  lemma OverwriteSeen(r: seq<byte>, size: word32, off: word32, d: seq<byte>)
    requires off <= size <= |r| && off + |d| <= |r| && |d| < WRAP32
    ensures var wanted, seen := Overwrite(r[..size], off, d), Resized(size, off, |d|);
      && seen <= |wanted| && seen <= |r| && Splice(r, off, d)[..seen] == wanted[..seen]
      && (seen == |wanted| <==> off + |d| < WRAP32)
      && (d == [] ==> wanted == r[..size] && seen == size)
  {
    hide Overwrite, Splice;
    var wanted, seen, after := Overwrite(r[..size], off, d), Resized(size, off, |d|), Splice(r, off, d);
    forall i | 0 <= i < seen
      ensures after[i] == wanted[i]
    {
    }
  }

  /** Thirty-two bytes at the very end of a file of 2^32 - 16 bytes, with room behind it: the write reports
      all of them and the file is as it was. */
  lemma WritePastLimit(r: seq<byte>, d: seq<byte>)
    requires |r| == 0x1_0000_1000 && |d| == 0x20
    ensures var off := 0xFFFF_FFF0;
      && Resized(off, off, |d|) == off && Splice(r, off, d)[..off] == r[..off]
      && |Overwrite(r[..off], off, d)| == off + 0x20
  {
  }

  /** A read within 32-bit arithmetic returns the file's bytes. Past it, the clamp to the size is
      missed, and the read is right exactly when the file fills its last cluster. */
  lemma ReadContents(raw: seq<byte>, size: word32, off: word32, len: word32)
    requires off < size <= |raw|
    ensures Slice(raw, off, ReadLength(off, len, size)) == Slice(raw[..size], off, len)
      <==> off + len < WRAP32 || |raw| == size
  {
    var got, right := Slice(raw, off, ReadLength(off, len, size)), Slice(raw[..size], off, len);
    if off + len < WRAP32 || |raw| == size {
      assert got == right;
    } else {
      assert |got| > |right|;
    }
  }

  /** Three bytes of clusters behind a two-byte file: a read of 2^32 - 1 bytes from offset 1 returns
      two bytes, the second of them past the end. */
  lemma ReadPastEnd(raw: seq<byte>)
    requires raw == [1, 2, 3]
    ensures Slice(raw, 1, ReadLength(1, 0xFFFF_FFFF, 2)) == [2, 3] && Slice(raw[..2], 1, 0xFFFF_FFFF) == [2]
  {
  }

  datatype FileRecord = FileRecord(start: nat, size: nat, chain: seq<nat>)

  /** Files and directories whose chains are acyclic, in range, long enough and pairwise disjoint. */
  ghost predicate WellFormed(fat: seq<nat>, clusterSize: nat, files: seq<FileRecord>) {
    && (forall i :: 0 <= i < |files| ==> HoldsFile(fat, clusterSize, files[i].start, files[i].size, files[i].chain))
    && (forall i, j :: 0 <= i < j < |files| ==> Apart(files[i].chain, files[j].chain))
  }

  ghost predicate Apart(cs: seq<nat>, ds: seq<nat>) {
    forall c :: c in ds ==> c !in cs
  }

  /** One file of a well-formed volume written: the volume stays well-formed, and every other file
      keeps its chain and, unless it is the directory with the written file's entry, its bytes. */
  lemma WriteKeepsVolume(fat: seq<nat>, fat': seq<nat>, data: seq<seq<byte>>, data': seq<seq<byte>>,
                         clusterSize: nat, files: seq<FileRecord>, w: nat, file': FileRecord, dirent: nat)
    requires WellFormed(fat, clusterSize, files) && w < |files|
    requires |data| == |fat| && forall c :: 2 <= c < |data| ==> |data[c]| == clusterSize
    requires Grown(fat, files[w].chain, file'.chain) && TableSameOutside(fat, fat', file'.chain)
    requires DataSameOutside(data, data', file'.chain + [dirent])
    requires HoldsFile(fat', clusterSize, file'.start, file'.size, file'.chain)
    ensures WellFormed(fat', clusterSize, files[w := file'])
    ensures forall i :: 0 <= i < |files| && i != w && dirent !in files[i].chain ==>
      && Sized(data, files[i].chain, clusterSize) && Sized(data', files[i].chain, clusterSize)
      && Raw(data', files[i].chain, clusterSize) == Raw(data, files[i].chain, clusterSize)
  {
    forall i | 0 <= i < |files| && i != w
      ensures HoldsFile(fat', clusterSize, files[i].start, files[i].size, files[i].chain)
      ensures Apart(file'.chain, files[i].chain) && Apart(files[i].chain, file'.chain)
      ensures dirent !in files[i].chain ==>
        && Sized(data, files[i].chain, clusterSize) && Sized(data', files[i].chain, clusterSize)
        && Raw(data', files[i].chain, clusterSize) == Raw(data, files[i].chain, clusterSize)
    {
      assert if w < i then Apart(files[w].chain, files[i].chain) else Apart(files[i].chain, files[w].chain);
      if files[i].chain != [] {
        OtherChainKept(fat, fat', data, data', files[w].chain, file'.chain, dirent, files[i].chain, clusterSize);
      }
    }
  }

  /** What the file `f` holds. */
  ghost function Contents(data: seq<seq<byte>>, f: FileRecord, clusterSize: nat): seq<byte>
    requires Sized(data, f.chain, clusterSize) && f.size <= Product(|f.chain|, clusterSize)
  {
    Raw(data, f.chain, clusterSize)[..f.size]
  }

  lemma FileFits(fat: seq<nat>, data: seq<seq<byte>>, clusterSize: nat, f: FileRecord)
    requires HoldsFile(fat, clusterSize, f.start, f.size, f.chain)
    requires |data| == |fat| && forall c :: 2 <= c < |data| ==> |data[c]| == clusterSize
    ensures Sized(data, f.chain, clusterSize) && f.size <= Product(|f.chain|, clusterSize)
  {
  }

  /** A write to one file of a well-formed volume, at or before its end: that file's contents are the old
      ones with the written bytes in place, every other file keeps its chain and its contents, and the volume
      stays well-formed, also when the disk fills up half-way. The contents are as wanted if and only if the
      end of the write is below 2^32; beyond it the file shows only what its size admits. */
  method WriteOnVolume(v: Volume, n: FileNode, off: word32, buf: seq<byte>, kmallocOk: bool,
                       ghost files: seq<FileRecord>, ghost w: nat)
    returns (done: word32, ghost file: FileRecord)
    requires v.Valid() && WellFormed(v.Fat(), v.g.ClusterSize(), files) && w < |files| && Opened(v, n, files[w].chain)
    requires files[w].start == n.start && files[w].size == n.size && off <= n.size && |buf| < WRAP32
    modifies v, n`start, n`size
    ensures v.Valid() && done <= |buf|
    ensures done < |buf| ==> !kmallocOk || forall c :: 2 <= c < v.g.Limit() ==> v.Fat()[c] != 0
    ensures WellFormed(v.Fat(), v.g.ClusterSize(), files[w := file]) && Opened(v, n, file.chain)
    ensures file.start == n.start && file.size == n.size
    ensures Sized(old(v.Data()), files[w].chain, v.g.ClusterSize())
    ensures files[w].size <= Product(|files[w].chain|, v.g.ClusterSize())
    ensures Sized(v.Data(), file.chain, v.g.ClusterSize()) && file.size <= Product(|file.chain|, v.g.ClusterSize())
    ensures
      var after := Contents(v.Data(), file, v.g.ClusterSize());
      var wanted := Overwrite(Contents(old(v.Data()), files[w], v.g.ClusterSize()), off, buf[..done]);
      && (after == wanted <==> off + done < WRAP32)
      && |after| <= |wanted| && after == wanted[..|after|]
    ensures forall i :: 0 <= i < |files| && i != w && n.direntCluster !in files[i].chain ==>
      && Sized(old(v.Data()), files[i].chain, v.g.ClusterSize()) && Sized(v.Data(), files[i].chain, v.g.ClusterSize())
      && Raw(v.Data(), files[i].chain, v.g.ClusterSize()) == Raw(old(v.Data()), files[i].chain, v.g.ClusterSize())
    ensures old(v.Counted()) ==> v.Counted()
  {
    hide Fits, FatOf, DataOf, CopiesEqual, IsChain, Grown, TableSameOutside, DataSameOutside, Stored, Raw, Sized,
         HoldsFile, FieldsOnly, WellFormed, Opened, Product;
    ghost var fat, data, size, cs' := v.Fat(), v.Data(), v.g.ClusterSize(), files[w].chain;
    OpenedFacts(v, n, files[w].chain);
    FileFits(fat, data, size, files[w]);
    done, cs' := FileWrite(v, n, off, buf, kmallocOk, files[w].chain);
    file := FileRecord(n.start, n.size, cs');
    OpenedFacts(v, n, cs');
    FileFits(v.Fat(), v.Data(), size, file);
    GrownPrefix(fat, files[w].chain, cs');
    WriteContents(data, v.Data(), files[w].chain, cs', size, off, buf[..done], files[w].size, n.size);
    WriteKeepsVolume(fat, v.Fat(), data, v.Data(), size, files, w, file, n.direntCluster);
  }

  lemma GrownPrefix(fat: seq<nat>, cs: seq<nat>, cs': seq<nat>)
    requires Grown(fat, cs, cs')
    ensures cs <= cs'
  {
  }
}
