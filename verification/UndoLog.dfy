/** The undo log of the boot-loader installer over its one-block write-back cache
    (kernel/limine-binary/limine.c). Device I/O fails exactly past the end of the device. */
module UndoSpec {
  import opened Bytes

  /** Bytes saved before a write. */
  datatype Saved = Saved(data: seq<byte>, loc: nat)

  /** `d` written at `loc` as far as the device reaches. */
  function WriteClipped(s: seq<byte>, loc: nat, d: seq<byte>): (r: seq<byte>)
    ensures |r| == |s|
    ensures forall b :: 0 <= b < |s| ==> r[b] == if loc <= b < loc + |d| then d[b - loc] else s[b]
  {
    if loc >= |s| then s
    else if loc + |d| <= |s| then Splice(s, loc, d)
    else Splice(s, loc, d[..|s| - loc])
  }

  /** The saved bytes written back, in order. */
  function Replay(s: seq<byte>, log: seq<Saved>): (r: seq<byte>)
    ensures |r| == |s|
  {
    if log == [] then s
    else WriteClipped(Replay(s, log[..|log| - 1]), log[|log| - 1].loc, log[|log| - 1].data)
  }

  function Reversed<T>(s: seq<T>): (r: seq<T>)
    ensures |r| == |s| && forall i :: 0 <= i < |s| ==> r[i] == s[|s| - 1 - i]
  {
    seq(|s|, i requires 0 <= i < |s| => s[|s| - 1 - i])
  }

  predicate Covers(e: Saved, b: nat) { e.loc <= b < e.loc + |e.data| }

  predicate Covered(log: seq<Saved>, b: nat) {
    exists i :: 0 <= i < |log| && Covers(log[i], b)
  }

  /** Entry `i` is the first to cover byte `b`. */
  predicate FirstToCover(log: seq<Saved>, i: nat, b: nat) {
    i < |log| && Covers(log[i], b) && forall j :: 0 <= j < i ==> !Covers(log[j], b)
  }

  /** Every byte was saved with its original value the first time it was written. */
  ghost predicate SavesOriginal(orig: seq<byte>, log: seq<Saved>) {
    && (forall i :: 0 <= i < |log| ==> log[i].loc + |log[i].data| <= |orig| || log[i].data == [])
    && (forall i: nat, b: nat :: FirstToCover(log, i, b) ==> b < |orig| && log[i].data[b - log[i].loc] == orig[b])
  }

  /** `s` differs from the original only where something was saved. */
  ghost predicate AgreesOutside(orig: seq<byte>, s: seq<byte>, log: seq<Saved>) {
    |s| == |orig| && forall b: nat :: b < |s| && !Covered(log, b) ==> s[b] == orig[b]
  }

  /** A write that starts where a clipped write ended continues it. */
  lemma ClippedOn(s: seq<byte>, loc: nat, data: seq<byte>, p: nat, n: nat)
    requires p + n <= |data| && loc + p + n <= |s|
    ensures Splice(WriteClipped(s, loc, data[..p]), loc + p, data[p..p + n]) == WriteClipped(s, loc, data[..p + n])
  {
  }

  /** Past the end of the device a clipped write has no more to do. */
  lemma ClippedRest(s: seq<byte>, loc: nat, data: seq<byte>, p: nat)
    requires p <= |data| && loc + p >= |s|
    ensures WriteClipped(s, loc, data[..p]) == WriteClipped(s, loc, data)
  {
  }

  lemma NothingClipped(s: seq<byte>, loc: nat, data: seq<byte>)
    ensures WriteClipped(s, loc, data[..0]) == s
  {
  }

  lemma ReplaySnoc(s: seq<byte>, log: seq<Saved>, i: nat)
    requires i < |log|
    ensures Replay(s, log[..i + 1]) == WriteClipped(Replay(s, log[..i]), log[i].loc, log[i].data)
    ensures Replay(s, log[..0]) == s
  {
    assert log[..i + 1][..i] == log[..i];
  }

  /** The first `n` entries lie on a device of `size` bytes, or are empty. */
  ghost predicate OnDevice(log: seq<Saved>, n: nat, size: nat)
    requires n <= |log|
  {
    forall i :: 0 <= i < n ==> log[i].data == [] || log[i].loc + |log[i].data| <= size
  }

  lemma OnDeviceNone(log: seq<Saved>, size: nat)
    ensures OnDevice(log, 0, size)
  {
  }

  lemma OnDeviceMore(log: seq<Saved>, n: nat, size: nat)
    requires n < |log|
    ensures OnDevice(log, n + 1, size) <==>
      OnDevice(log, n, size) && (log[n].data == [] || log[n].loc + |log[n].data| <= size)
  {
  }

  lemma ReplayNothing(s: seq<byte>)
    ensures Replay(s, []) == s
  {
  }

  lemma ClippedAgain(s: seq<byte>, loc: nat, d: seq<byte>)
    ensures WriteClipped(WriteClipped(s, loc, d), loc, d) == WriteClipped(s, loc, d)
  {
  }

  /** The byte that a reversed replay leaves at `b` is the one saved first. */
  lemma {:induction false} ReplayReversedAt(orig: seq<byte>, s: seq<byte>, log: seq<Saved>, b: nat)
    requires |s| == |orig| && b < |s|
    requires !Covered(log, b) ==> s[b] == orig[b]
    requires forall i: nat :: FirstToCover(log, i, b) ==> log[i].data[b - log[i].loc] == orig[b]
    ensures Replay(s, Reversed(log))[b] == orig[b]
  {
    if log != [] {
      var rev, rest := Reversed(log), log[1..];
      assert rev[..|rev| - 1] == Reversed(rest) && rev[|rev| - 1] == log[0];
      if Covers(log[0], b) {
        assert FirstToCover(log, 0, b);
      } else {
        forall i: nat | FirstToCover(rest, i, b)
          ensures rest[i].data[b - rest[i].loc] == orig[b]
        {
          assert FirstToCover(log, i + 1, b);
        }
        if Covered(log, b) {
          var i :| 0 <= i < |log| && Covers(log[i], b);
          assert Covers(rest[i - 1], b);
        }
        ReplayReversedAt(orig, s, rest, b);
      }
    }
  }

  /** Replaying the log backwards restores the original, from whatever mixture of old and new bytes
      the device has been left with. */
  lemma ReplayRestores(orig: seq<byte>, s: seq<byte>, log: seq<Saved>)
    requires SavesOriginal(orig, log) && AgreesOutside(orig, s, log)
    ensures Replay(s, Reversed(log)) == orig
  {
    forall b | 0 <= b < |orig|
      ensures Replay(s, Reversed(log))[b] == orig[b]
    {
      ReplayReversedAt(orig, s, log, b);
    }
  }

  /** Saving what is there before writing keeps the log's promise. */
  lemma SaveKeeps(orig: seq<byte>, view: seq<byte>, log: seq<Saved>, e: Saved)
    requires SavesOriginal(orig, log) && AgreesOutside(orig, view, log)
    requires e.data == [] || (e.loc + |e.data| <= |orig| && e.data == view[e.loc..e.loc + |e.data|])
    ensures SavesOriginal(orig, log + [e])
  {
    var more := log + [e];
    forall i: nat, b: nat | FirstToCover(more, i, b)
      ensures b < |orig| && more[i].data[b - more[i].loc] == orig[b]
    {
      forall j | 0 <= j < |log| && j < i
        ensures !Covers(log[j], b)
      {
        assert !Covers(more[j], b);
      }
      if i < |log| {
        assert FirstToCover(log, i, b);
      }
    }
  }

  lemma CoveredMore(log: seq<Saved>, e: Saved, b: nat)
    ensures Covered(log + [e], b) <==> Covered(log, b) || Covers(e, b)
  {
    var more := log + [e];
    if Covered(log, b) {
      var j :| 0 <= j < |log| && Covers(log[j], b);
      assert Covers(more[j], b);
    }
    if Covers(e, b) {
      assert Covers(more[|log|], b);
    }
  }

  /** A byte-wise mixture of agreeing states, and of new bytes where they were saved, still agrees. */
  lemma MixtureAgrees(orig: seq<byte>, s: seq<byte>, t: seq<byte>, log: seq<Saved>, e: Saved, r: seq<byte>)
    requires AgreesOutside(orig, s, log) && AgreesOutside(orig, t, log) && |r| == |orig|
    requires forall b :: 0 <= b < |r| ==> r[b] == s[b] || r[b] == t[b] || Covers(e, b)
    ensures AgreesOutside(orig, r, log + [e])
  {
    forall b: nat | b < |r| && !Covered(log + [e], b)
      ensures r[b] == orig[b]
    {
      CoveredMore(log, e, b);
    }
  }
}

module UndoDevice {
  import opened Bytes
  import opened UndoSpec

  const LOG_MAX := 256                   // UNINSTALL_DATA_MAX
  const NO_BLOCK := 0xFFFF_FFFF_FFFF_FFFF

  lemma DivisionProduct(x: nat, m: nat)
    requires m > 0
    ensures x == Product(x / m, m) + x % m
  {
    ProductIsMultiplication(x / m, m);
  }

  class Device {
    const blockSize: nat
    const blocks: nat
    const cache: array<byte>
    const log: array<Saved>
    const logRev: array<Saved>
    var disk: seq<byte>
    var dirty: bool
    var cachedBlock: nat
    var uninstalling: bool
    var count: nat
    ghost var orig: seq<byte>   // what the reader saw when logging began

    ghost predicate Valid()
      reads this, cache
    {
      && 0 < blockSize == cache.Length && (cache as object) != (log as object)
      && (cache as object) != (logRev as object)
      && log.Length == logRev.Length == LOG_MAX && log != logRev && count <= LOG_MAX
      && blocks < NO_BLOCK && |disk| == Product(blocks, blockSize)
      && (cachedBlock < blocks || (cachedBlock == NO_BLOCK && !dirty))
      && (cachedBlock < blocks && !dirty ==> cache[..] == Block(cachedBlock))
    }

    ghost function Block(b: nat): (r: seq<byte>)
      requires b < blocks && |disk| == Product(blocks, blockSize)
      reads this`disk
      ensures Product(b, blockSize) + blockSize <= |disk|
    {
      ProductGap(b, blocks, blockSize);
      disk[Product(b, blockSize)..Product(b, blockSize) + blockSize]
    }

    /** The device as its reader sees it: the cached block in place of the one on the disk. */
    ghost function View(): (r: seq<byte>)
      requires Valid()
      reads this, cache
      ensures |r| == |disk|
      ensures !dirty ==> r == disk
    {
      if cachedBlock == NO_BLOCK then disk
      else
        var p := Product(cachedBlock, blockSize);
        ProductGap(cachedBlock, blocks, blockSize);
        assert !dirty ==> Splice(disk, p, cache[..]) == disk by {
          if !dirty {
            assert cache[..] == disk[p..p + blockSize];
          }
        }
        Splice(disk, p, cache[..])
    }

    /** The log can restore the original, both from what the reader sees and from what is on the disk. */
    ghost predicate Journaled()
      requires Valid()
      reads this, cache, log
    {
      && |orig| == |disk| && SavesOriginal(orig, log[..count])
      && AgreesOutside(orig, disk, log[..count]) && AgreesOutside(orig, View(), log[..count])
      && forall i :: 0 <= i < count ==> log[i].loc + |log[i].data| < NO_BLOCK
    }

    /** device_init: the first block is cached, clean. */
    constructor Open(image: seq<byte>, size: nat, n: nat)
      requires 0 < size && 0 < n < NO_BLOCK && |image| == Product(n, size)
      ensures Valid() && disk == image && View() == image && !uninstalling && orig == image && Journaled()
      ensures fresh(cache) && fresh(log) && fresh(logRev)
    {
      blockSize, blocks, disk := size, n, image;
      ProductGap(0, n, size);
      cache := new byte[size](i requires 0 <= i < size => image[i]);
      log, logRev := new Saved[LOG_MAX](_ => Saved([], 0)), new Saved[LOG_MAX](_ => Saved([], 0));
      dirty, cachedBlock, uninstalling, count, orig := false, 0, false, 0, image;
      new;
      assert cache[..] == disk[..size];
    }

    method FlushCache()
      requires Valid()
      modifies this`disk, this`dirty
      ensures Valid() && !dirty && disk == old(View()) && View() == old(View())
    {
      if !dirty {
        return;
      }
      ProductGap(cachedBlock, blocks, blockSize);
      disk := Splice(disk, Product(cachedBlock, blockSize), cache[..]);
      dirty := false;
      SpliceBack(old(disk), Product(cachedBlock, blockSize), cache[..]);
    }

    /** device_cache_block: fails exactly for a block past the end, and never changes the view. */
    method CacheBlock(block: nat) returns (ok: bool)
      requires Valid() && block < NO_BLOCK
      modifies this`disk, this`dirty, this`cachedBlock, cache
      ensures Valid() && View() == old(View()) && ok == (block < blocks)
      ensures ok ==> cachedBlock == block
      ensures disk == old(disk) || disk == old(View())
    {
      if cachedBlock == block {
        return true;
      }
      if dirty {
        FlushCache();
      }
      if block >= blocks {
        return false;
      }
      ProductGap(block, blocks, blockSize);
      var p := Product(block, blockSize);
      var fetched := disk[p..p + blockSize];
      forall i | 0 <= i < blockSize {
        cache[i] := fetched[i];
      }
      assert cache[..] == fetched;
      cachedBlock := block;
      return true;
    }
  
    /** The cache holds its block of the view. */
    lemma CachedStretch(offset: nat, chunk: nat)
      requires Valid() && cachedBlock < blocks && offset + chunk <= blockSize
      ensures Product(cachedBlock, blockSize) + blockSize <= |View()|
      ensures View()[Product(cachedBlock, blockSize) + offset..Product(cachedBlock, blockSize) + offset + chunk] ==
        cache[offset..offset + chunk]
    {
      hide Product, Splice;
      ProductGap(cachedBlock, blocks, blockSize);
      SpliceStretch(disk, Product(cachedBlock, blockSize), cache[..], offset, chunk);
      assert cache[..][offset..offset + chunk] == cache[offset..offset + chunk];
    }

    /** One pass of the read loop: up to `max` bytes from `x` on, as far as the block goes. */
    method ReadChunk(x: nat, max: nat) returns (ok: bool, piece: seq<byte>)
      requires Valid() && x + max < NO_BLOCK && max > 0
      modifies this`disk, this`dirty, this`cachedBlock, cache
      ensures Valid() && View() == old(View()) && (disk == old(disk) || disk == old(View()))
      ensures ok <==> x < |disk|
      ensures ok ==> 0 < |piece| <= max && x + |piece| <= |disk| && piece == View()[x..x + |piece|]
    {
      hide Splice, Product;
      BlockOnDevice(x, blockSize, blocks);
      piece := [];
      ok := CacheBlock(x / blockSize);
      if ok {
        var offset := x % blockSize;
        var chunk := if max > blockSize - offset then blockSize - offset else max;
        CachedStretch(offset, chunk);
        piece := cache[offset..offset + chunk];
      }
    }

    /** _device_read: reads the view, and fails exactly when the range leaves the device. */
    method Read(loc: nat, len: nat) returns (ok: bool, buf: seq<byte>)
      requires Valid() && loc + len < NO_BLOCK
      modifies this`disk, this`dirty, this`cachedBlock, cache
      ensures Valid() && View() == old(View()) && (disk == old(disk) || disk == old(View()))
      ensures ok <==> len == 0 || loc + len <= |disk|
      ensures ok ==> |buf| == len && (len == 0 || buf == View()[loc..loc + len])
    {
      hide Splice, Product;
      ghost var view := View();
      buf := [];
      var progress := 0;
      while progress < len
        invariant 0 <= progress <= len && |buf| == progress
        invariant Valid() && View() == view && (disk == old(disk) || disk == view)
        invariant progress > 0 ==> loc + progress <= |view| && buf == view[loc..loc + progress]
      {
        var piece;
        ok, piece := ReadChunk(loc + progress, len - progress);
        if !ok {
          return;
        }
        buf := buf + piece;
        progress := progress + |piece|;
      }
      ok := true;
    }

    /** One pass of the write loop. */
    method WriteChunk(x: nat, data: seq<byte>) returns (ok: bool, n: nat)
      requires Valid() && x + |data| < NO_BLOCK && data != []
      modifies this`disk, this`dirty, this`cachedBlock, cache
      ensures Valid() && (disk == old(disk) || disk == old(View()))
      ensures ok <==> x < |disk|
      ensures !ok ==> n == 0 && View() == old(View())
      ensures ok ==> 0 < n <= |data| && x + n <= |disk| && View() == Splice(old(View()), x, data[..n])
    {
      hide Splice, Product;
      BlockOnDevice(x, blockSize, blocks);
      n := 0;
      ok := CacheBlock(x / blockSize);
      if ok {
        var offset := x % blockSize;
        n := if |data| > blockSize - offset then blockSize - offset else |data|;
        ghost var old_ := cache[..];
        forall i | 0 <= i < n {
          cache[offset + i] := data[i];
        }
        dirty := true;
        assert cache[..] == Splice(old_, offset, data[..n]);
        SplicePiece(disk, Product(cachedBlock, blockSize), old_, offset, data[..n]);
      }
    }
  
    /** The write loop of _device_write. Up to the end of the device everything is written, and each byte
        on the disk is an old one, one that the reader saw before, or lies in the written range. */
    method WriteLoop(loc: nat, data: seq<byte>) returns (ok: bool)
      requires Valid() && loc + |data| < NO_BLOCK
      modifies this`disk, this`dirty, this`cachedBlock, cache
      ensures Valid() && View() == WriteClipped(old(View()), loc, data)
      ensures ok <==> data == [] || loc + |data| <= |disk|
      ensures |disk| == |old(disk)|
      ensures forall b :: 0 <= b < |disk| ==>
        disk[b] == old(disk)[b] || disk[b] == old(View())[b] || loc <= b < loc + |data|
    {
      hide Splice, Product, WriteClipped, Valid, View;
      ghost var view := View();
      NothingClipped(view, loc, data);
      var progress := 0;
      ok := true;
      while progress < |data|
        invariant 0 <= progress <= |data| && Valid() && |disk| == |view|
        invariant View() == WriteClipped(view, loc, data[..progress])
        invariant progress > 0 ==> loc + progress <= |disk|
        invariant forall b :: 0 <= b < |disk| ==>
          disk[b] == old(disk)[b] || disk[b] == view[b] || loc <= b < loc + |data|
      {
        var n;
        ok, n := WriteChunk(loc + progress, data[progress..]);
        if !ok {
          ClippedRest(view, loc, data, progress);
          return;
        }
        assert data[progress..][..n] == data[progress..progress + n];
        ClippedOn(view, loc, data, progress, n);
        progress := progress + n;
      }
      assert data[..progress] == data;
    }

    /** _device_write while logging: all or nothing for the reader, and the log stays sound. */
    method Write(loc: nat, data: seq<byte>, mallocOk: bool) returns (ok: bool)
      requires Valid() && !uninstalling && Journaled() && loc + |data| < NO_BLOCK
      modifies this`disk, this`dirty, this`cachedBlock, this`count, cache, log
      ensures Valid() && Journaled()
      ensures ok <==> old(count) < LOG_MAX && mallocOk && (data == [] || loc + |data| <= |disk|)
      ensures View() == if ok then WriteClipped(old(View()), loc, data) else old(View())
      ensures count == old(count) + if ok then 1 else 0
    {
      hide Splice, Product, SavesOriginal, AgreesOutside, WriteClipped;
      if count >= LOG_MAX || !mallocOk {
        return false;
      }
      ghost var view, disk0, saved := View(), disk, log[..count];
      var was;
      ok, was := Read(loc, |data|);
      if !ok {
        assert log[..count] == saved;
        return;
      }
      var e := Saved(was, loc);
      log[count] := e;
      ghost var disk1 := disk;
      ok := WriteLoop(loc, data);
      count := count + 1;
      assert log[..count] == saved + [e];
      SaveKeeps(orig, view, saved, e);
      MixtureAgrees(orig, disk1, view, saved, e, disk);
      ViewMixture(orig, view, saved, e, data);
      MixtureAgrees(orig, view, view, saved, e, View());
    }

    lemma ViewMixture(o: seq<byte>, view: seq<byte>, saved: seq<Saved>, e: Saved, data: seq<byte>)
      requires Valid() && AgreesOutside(o, view, saved) && |e.data| == |data|
      requires View() == WriteClipped(view, e.loc, data)
      ensures |View()| == |o| && forall b :: 0 <= b < |View()| ==> View()[b] == view[b] || Covers(e, b)
    {
    }

    method ReverseLog()
      requires Valid()
      modifies log, logRev
      ensures log[..count] == Reversed(old(log[..count])) && log[count..] == old(log[count..])
    {
      var i, j := 0, count - 1;
      while i < count
        invariant 0 <= i <= count && i + j == count - 1 && log[..] == old(log[..])
        invariant forall k :: count - i <= k < count ==> logRev[k] == old(log[..])[count - 1 - k]
      {
        logRev[j] := log[i];
        i, j := i + 1, j - 1;
      }
      forall k | 0 <= k < count {
        log[k] := logRev[k];
      }
    }

    /** What the cache holds is forgotten. */
    method DropCache()
      requires Valid()
      modifies this`dirty, this`cachedBlock
      ensures Valid() && View() == disk
    {
      dirty, cachedBlock := false, NO_BLOCK;
    }

    /** One saved range written back; a failure is retried once with an empty cache, to the same effect. */
    method RestoreEntry(ud: Saved) returns (ok: bool)
      requires Valid() && ud.loc + |ud.data| < NO_BLOCK
      modifies this`disk, this`dirty, this`cachedBlock, cache
      ensures Valid() && |disk| == |old(disk)| && View() == WriteClipped(old(View()), ud.loc, ud.data)
      ensures ok <==> ud.data == [] || ud.loc + |ud.data| <= |disk|
    {
      hide Splice, Product, WriteClipped;
      ghost var view := View();
      ok := WriteLoop(ud.loc, ud.data);
      if !ok {
        FlushCache();
        dirty, cachedBlock := false, NO_BLOCK;
        ClippedAgain(view, ud.loc, ud.data);
        ok := WriteLoop(ud.loc, ud.data);
      }
    }

    /** uninstall: what the cache held is dropped, and the log is written back in order, every entry as
        far as the device reaches; succeeds exactly when all entries lie on the device. */
    method Uninstall() returns (ret: bool)
      requires Valid() && forall i :: 0 <= i < count ==> log[i].loc + |log[i].data| < NO_BLOCK
      modifies this`disk, this`dirty, this`cachedBlock, this`uninstalling, cache
      ensures Valid() && uninstalling && !dirty && View() == disk
      ensures disk == Replay(old(disk), log[..count])
      ensures ret == OnDevice(log[..count], count, |disk|)
    {
      hide Replay, View, WriteClipped;
      uninstalling := true;
      DropCache();
      ret := RestoreAll();
      FlushCache();
    }

    /** The loop of uninstall. */
    method RestoreAll() returns (ret: bool)
      requires Valid() && (cache as object) != (log as object) && View() == disk && count <= log.Length
      requires forall i :: 0 <= i < count ==> log[i].loc + |log[i].data| < NO_BLOCK
      modifies this`disk, this`dirty, this`cachedBlock, cache
      ensures Valid() && |disk| == |old(disk)| && View() == Replay(old(disk), log[..count])
      ensures ret == OnDevice(log[..count], count, |disk|)
    {
      hide Splice, Product, WriteClipped, Valid, View, Replay, OnDevice;
      ghost var was, entries := disk, log[..count];
      ReplayNothing(was);
      OnDeviceNone(entries, |disk|);
      assert entries[..0] == [];
      ret := true;
      var i := 0;
      while i < count
        invariant 0 <= i <= count && Valid() && |disk| == |was|
        invariant View() == Replay(was, entries[..i]) && ret == OnDevice(entries, i, |was|)
      {
        var ok := RestoreEntry(log[i]);
        ret := ret && ok;
        ReplaySnoc(was, entries, i);
        OnDeviceMore(entries, i, |was|);
        i := i + 1;
      }
      assert entries[..count] == entries;
    }

    /** The way out of a failed or unwanted installation: the device is as it was, byte for byte. */
    method Rollback() returns (ret: bool)
      requires Valid() && !uninstalling && Journaled()
      modifies this`disk, this`dirty, this`cachedBlock, this`uninstalling, cache, log, logRev
      ensures Valid() && ret && disk == View() == orig
    {
      hide Splice, Product, Replay;
      ghost var saved := log[..count];
      ReplayRestores(orig, disk, saved);
      ReverseLog();
      forall i | 0 <= i < count
        ensures log[i] == saved[count - 1 - i]
      {
        assert log[i] == log[..count][i];
      }
      ret := Uninstall();
    }
  }

  /** Byte `x` lies in a block of the device exactly when it lies on the device. */
  lemma BlockOnDevice(x: nat, m: nat, blocks: nat)
    requires m > 0
    ensures x == Product(x / m, m) + x % m && 0 <= x % m < m
    ensures x / m < blocks <==> x < Product(blocks, m)
    ensures x / m < blocks ==> Product(x / m, m) + m <= Product(blocks, m)
    ensures x / m <= x
  {
    hide Product;
    DivisionProduct(x, m);
    var q := x / m;
    ProductAtLeast(q, m);
    if q < blocks {
      ProductGap(q, blocks, m);
    } else if blocks < q {
      ProductGap(blocks, q, m);
    }
  }

  /** Patching what is spliced in patches the result. */
  lemma SplicePiece<T>(s: seq<T>, p: nat, d: seq<T>, off: nat, e: seq<T>)
    requires p + |d| <= |s| && off + |e| <= |d|
    ensures Splice(s, p, Splice(d, off, e)) == Splice(Splice(s, p, d), p + off, e)
  {
    var l, r := Splice(s, p, Splice(d, off, e)), Splice(Splice(s, p, d), p + off, e);
    forall i | 0 <= i < |s|
      ensures l[i] == r[i]
    {
      if p <= i < p + |d| {
        assert l[i] == Splice(d, off, e)[i - p];
      }
    }
  }

  lemma SpliceBack<T>(s: seq<T>, p: nat, d: seq<T>)
    requires p + |d| <= |s|
    ensures Splice(s, p, d)[p..p + |d|] == d
  {
  }
}
