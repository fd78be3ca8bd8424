/** The block list of kernel/src/mm/heap.c as a tiling of the pages that the heap owns. */
module HeapSpec {
  import opened Words
  import opened Sets
  import opened PageMarks

  /** A header of 32 bytes at `addr`, followed by `size` bytes of payload. */
  datatype Block = Block(addr: nat, size: nat, used: bool)

  const HEADER := 32
  const MIN_SPLIT := 48

  function End(b: Block): nat { b.addr + HEADER + b.size }

  predicate Apart(b: Block, c: Block) { End(b) <= c.addr || End(c) <= b.addr }

  predicate Aligned(b: Block) { b.addr % 16 == 0 && b.size % 16 == 0 }

  ghost predicate Within(b: Block, a: nat) { b.addr <= a < End(b) }

  ghost predicate Covers(bs: seq<Block>, a: nat) {
    exists i :: 0 <= i < |bs| && Within(bs[i], a)
  }

  /** Address `a` lies in one of the pages `own` of the direct map, which starts at `off`. */
  ghost predicate Owned(own: set<nat>, off: nat, a: nat) {
    a >= off && (a - off) / PAGE in own
  }

  /** Blocks do not overlap and are 16-byte aligned. */
  ghost predicate Laid(bs: seq<Block>) {
    && (forall i, j :: 0 <= i < j < |bs| ==> Apart(bs[i], bs[j]))
    && (forall i :: 0 <= i < |bs| ==> Aligned(bs[i]))
  }

  /** The blocks tile the owned pages exactly: every byte of a page is in a block, and no other byte is. */
  ghost predicate Tiles(bs: seq<Block>, own: set<nat>, off: nat) {
    Laid(bs) && forall a: nat :: Covers(bs, a) <==> Owned(own, off, a)
  }

  function UsedSum(bs: seq<Block>): nat {
    if bs == [] then 0
    else UsedSum(bs[..|bs| - 1]) + (if bs[|bs| - 1].used then bs[|bs| - 1].size else 0)
  }

  /** The blocks handed out. */
  ghost function Allocs(bs: seq<Block>): set<Block> {
    set b | b in bs && b.used
  }

  lemma {:induction false} UsedSumSplit(s: seq<Block>, t: seq<Block>)
    ensures UsedSum(s + t) == UsedSum(s) + UsedSum(t)
  {
    if t == [] {
      assert s + t == s;
    } else {
      UsedSumSplit(s, t[..|t| - 1]);
      assert (s + t)[..|s + t| - 1] == s + t[..|t| - 1];
    }
  }

  lemma UsedSumOne(b: Block)
    ensures UsedSum([b]) == if b.used then b.size else 0
  {
    assert [b][..0] == [];
  }

  /** `bs` with block `i` replaced by the blocks `mid`. */
  function Put(bs: seq<Block>, i: nat, n: nat, mid: seq<Block>): seq<Block>
    requires i + n <= |bs|
  {
    bs[..i] + mid + bs[i + n..]
  }

  lemma PutSum(bs: seq<Block>, i: nat, n: nat, mid: seq<Block>)
    requires i + n <= |bs|
    ensures UsedSum(Put(bs, i, n, mid)) + UsedSum(bs[i..i + n]) == UsedSum(bs) + UsedSum(mid)
  {
    hide UsedSum;
    UsedSumSplit(bs[..i] + mid, bs[i + n..]);
    UsedSumSplit(bs[..i], mid);
    UsedSumSplit(bs[..i] + bs[i..i + n], bs[i + n..]);
    UsedSumSplit(bs[..i], bs[i..i + n]);
    assert bs == bs[..i] + bs[i..i + n] + bs[i + n..];
  }

  lemma PutAt(bs: seq<Block>, i: nat, n: nat, mid: seq<Block>, j: nat)
    requires i + n <= |bs| && j < |Put(bs, i, n, mid)|
    ensures |Put(bs, i, n, mid)| == |bs| - n + |mid|
    ensures Put(bs, i, n, mid)[j] == if j < i then bs[j] else if j < i + |mid| then mid[j - i] else bs[j - |mid| + n]
  {
  }

  /** Replacing some blocks by others that stay clear of the rest. */
  lemma PutLaid(bs: seq<Block>, i: nat, n: nat, mid: seq<Block>)
    requires Laid(bs) && i + n <= |bs| && Laid(mid)
    requires forall m, j :: 0 <= m < |mid| && 0 <= j < |bs| && !(i <= j < i + n) ==> Apart(mid[m], bs[j])
    ensures Laid(Put(bs, i, n, mid))
  {
    var r := Put(bs, i, n, mid);
    hide Put, Apart, Aligned;
    forall j | 0 <= j < |r|
      ensures Aligned(r[j])
    {
      PutAt(bs, i, n, mid, j);
    }
    forall j, k | 0 <= j < k < |r|
      ensures Apart(r[j], r[k])
    {
      PutAt(bs, i, n, mid, j);
      PutAt(bs, i, n, mid, k);
      ApartSym(r[j], r[k]);
    }
  }

  lemma ApartSym(b: Block, c: Block)
    ensures Apart(b, c) == Apart(c, b)
  {
  }

  lemma CoversSplit(s: seq<Block>, t: seq<Block>, a: nat)
    ensures Covers(s + t, a) <==> Covers(s, a) || Covers(t, a)
  {
    if Covers(s, a) {
      var i :| 0 <= i < |s| && Within(s[i], a);
      assert Within((s + t)[i], a);
    }
    if Covers(t, a) {
      var i :| 0 <= i < |t| && Within(t[i], a);
      assert Within((s + t)[|s| + i], a);
    }
    if Covers(s + t, a) {
      var i :| 0 <= i < |s + t| && Within((s + t)[i], a);
      assert i >= |s| ==> Within(t[i - |s|], a);
    }
  }

  lemma PutCovers(bs: seq<Block>, i: nat, n: nat, mid: seq<Block>, a: nat)
    requires i + n <= |bs| && (Covers(mid, a) <==> Covers(bs[i..i + n], a))
    ensures Covers(Put(bs, i, n, mid), a) <==> Covers(bs, a)
  {
    hide Covers;
    CoversSplit(bs[..i] + mid, bs[i + n..], a);
    CoversSplit(bs[..i], mid, a);
    CoversSplit(bs[..i] + bs[i..i + n], bs[i + n..], a);
    CoversSplit(bs[..i], bs[i..i + n], a);
    assert bs == bs[..i] + bs[i..i + n] + bs[i + n..];
  }

  lemma CoversOne(b: Block, a: nat)
    ensures Covers([b], a) <==> Within(b, a)
  {
    assert Within([b][0], a) <==> Within(b, a);
  }

  lemma CoversTwo(b: Block, c: Block, a: nat)
    ensures Covers([b, c], a) <==> Within(b, a) || Within(c, a)
  {
    assert [b, c][0] == b && [b, c][1] == c;
  }

  /** The same bytes, laid out in other blocks. */
  ghost predicate Exchanges(old_: seq<Block>, mid: seq<Block>) {
    Laid(mid) && forall a: nat :: Covers(mid, a) <==> Covers(old_, a)
  }

  lemma ExchangeApart(bs: seq<Block>, i: nat, n: nat, mid: seq<Block>, m: nat, j: nat)
    requires Laid(bs) && i + n <= |bs| && Exchanges(bs[i..i + n], mid)
    requires m < |mid| && j < |bs| && !(i <= j < i + n)
    ensures Apart(mid[m], bs[j])
  {
    var a := if mid[m].addr < bs[j].addr then bs[j].addr else mid[m].addr;
    if Within(bs[j], a) {
      ElsewhereUncovered(bs, i, n, j, a);
      assert !Covers(mid, a);
    }
  }

  lemma ElsewhereUncovered(bs: seq<Block>, i: nat, n: nat, j: nat, a: nat)
    requires Laid(bs) && i + n <= |bs| && j < |bs| && !(i <= j < i + n) && Within(bs[j], a)
    ensures !Covers(bs[i..i + n], a)
  {
    var part := bs[i..i + n];
    forall k | 0 <= k < |part|
      ensures !Within(part[k], a)
    {
      assert part[k] == bs[i + k];
    }
  }

  lemma PutTiles(bs: seq<Block>, i: nat, n: nat, mid: seq<Block>, own: set<nat>, off: nat)
    requires Tiles(bs, own, off) && i + n <= |bs| && Exchanges(bs[i..i + n], mid)
    ensures Tiles(Put(bs, i, n, mid), own, off)
  {
    hide Covers, Owned, Laid, Apart, Put;
    forall m, j | 0 <= m < |mid| && 0 <= j < |bs| && !(i <= j < i + n)
      ensures Apart(mid[m], bs[j])
    {
      ExchangeApart(bs, i, n, mid, m, j);
    }
    PutLaid(bs, i, n, mid);
    forall a: nat
      ensures Covers(Put(bs, i, n, mid), a) <==> Owned(own, off, a)
    {
      PutCovers(bs, i, n, mid, a);
    }
  }

  lemma TwoForOne(b: Block, c: Block, d: Block)
    requires Aligned(c) && Aligned(d) && c.addr == b.addr && End(c) == d.addr && End(d) == End(b)
    ensures Exchanges([b], [c, d])
  {
    hide Covers;
    forall a: nat
      ensures Covers([c, d], a) <==> Covers([b], a)
    {
      CoversOne(b, a);
      CoversTwo(c, d, a);
    }
  }

  lemma OneForTwo(b: Block, c: Block, d: Block)
    requires Aligned(b) && c.addr == b.addr && End(c) == d.addr && End(d) == End(b)
    ensures Exchanges([c, d], [b])
  {
    hide Covers;
    forall a: nat
      ensures Covers([b], a) <==> Covers([c, d], a)
    {
      CoversOne(b, a);
      CoversTwo(c, d, a);
    }
  }

  lemma OneForOne(b: Block, c: Block)
    requires Aligned(c) && c.addr == b.addr && c.size == b.size
    ensures Exchanges([b], [c])
  {
    hide Covers;
    forall a: nat
      ensures Covers([b], a) <==> Covers([c], a)
    {
      CoversOne(b, a);
      CoversOne(c, a);
    }
  }

  lemma UsedSumTwo(b: Block, c: Block)
    ensures UsedSum([b, c]) == UsedSum([b]) + UsedSum([c])
  {
    UsedSumSplit([b], [c]);
    assert [b] + [c] == [b, c];
  }

  /** heap_split: what is left over becomes a free block of its own, if it is worth it. */
  function Split(bs: seq<Block>, i: nat, size: nat): (r: seq<Block>)
    requires i < |bs| && size <= bs[i].size
    ensures |r| >= |bs| && r[i].addr == bs[i].addr && size <= r[i].size <= bs[i].size && r[i].used == bs[i].used
  {
    var b := bs[i];
    if b.size < size + MIN_SPLIT then bs
    else Put(bs, i, 1, [b.(size := size), Block(b.addr + HEADER + size, b.size - size - HEADER, false)])
  }

  lemma SplitTiles(bs: seq<Block>, i: nat, size: nat, own: set<nat>, off: nat)
    requires Tiles(bs, own, off) && i < |bs| && size <= bs[i].size && size % 16 == 0
    ensures Tiles(Split(bs, i, size), own, off)
  {
    var b := bs[i];
    TilesAligned(bs, i, own, off);
    if b.size >= size + MIN_SPLIT {
      var c, d := b.(size := size), Block(b.addr + HEADER + size, b.size - size - HEADER, false);
      hide Tiles, Put, Exchanges;
      TwoForOne(b, c, d);
      assert bs[i..i + 1] == [b];
      PutTiles(bs, i, 1, [c, d], own, off);
    }
  }

  lemma TilesAligned(bs: seq<Block>, i: nat, own: set<nat>, off: nat)
    requires Tiles(bs, own, off) && i < |bs|
    ensures Aligned(bs[i])
  {
  }

  lemma SwapSum(bs: seq<Block>, i: nat, c: Block, d: Block)
    requires i < |bs| && !bs[i].used && !c.used && !d.used
    ensures UsedSum(Put(bs, i, 1, [c, d])) == UsedSum(bs)
  {
    hide UsedSum, Put;
    assert bs[i..i + 1] == [bs[i]];
    PutSum(bs, i, 1, [c, d]);
    UsedSumOne(bs[i]);
    UsedSumOne(c);
    UsedSumOne(d);
    UsedSumTwo(c, d);
  }

  lemma {:induction false} SplitSum(bs: seq<Block>, i: nat, size: nat)
    requires i < |bs| && size <= bs[i].size && !bs[i].used
    ensures UsedSum(Split(bs, i, size)) == UsedSum(bs)
  {
    var b := bs[i];
    hide UsedSum, Put;
    if b.size >= size + MIN_SPLIT {
      var c, d := b.(size := size), Block(b.addr + HEADER + size, b.size - size - HEADER, false);
      SwapSum(bs, i, c, d);
    }
  }

  /** One round of heap_coalesce: two neighbours in the list that touch become one. */
  function Merge(bs: seq<Block>, i: nat): (r: seq<Block>)
    requires i + 1 < |bs|
    ensures |r| == |bs| - 1 && r[i] == bs[i].(size := bs[i].size + HEADER + bs[i + 1].size)
  {
    Put(bs, i, 2, [bs[i].(size := bs[i].size + HEADER + bs[i + 1].size)])
  }

  predicate Adjacent(b: Block, c: Block) { End(b) == c.addr }

  lemma MergeTiles(bs: seq<Block>, i: nat, own: set<nat>, off: nat)
    requires Tiles(bs, own, off) && i + 1 < |bs| && Adjacent(bs[i], bs[i + 1])
    ensures Tiles(Merge(bs, i), own, off)
  {
    var b, c := bs[i], bs[i + 1];
    var d := b.(size := b.size + HEADER + c.size);
    TilesAligned(bs, i, own, off);
    TilesAligned(bs, i + 1, own, off);
    hide Tiles, Put, Exchanges;
    OneForTwo(d, b, c);
    assert bs[i..i + 2] == [b, c];
    PutTiles(bs, i, 2, [d], own, off);
  }

  lemma {:induction false} MergeSum(bs: seq<Block>, i: nat)
    requires i + 1 < |bs| && !bs[i].used && !bs[i + 1].used
    ensures UsedSum(Merge(bs, i)) == UsedSum(bs)
  {
    var b, c := bs[i], bs[i + 1];
    var d := b.(size := b.size + HEADER + c.size);
    hide UsedSum, Put;
    assert bs[i..i + 2] == [b, c];
    PutSum(bs, i, 2, [d]);
    UsedSumOne(b);
    UsedSumOne(c);
    UsedSumOne(d);
    UsedSumTwo(b, c);
  }

  /** The blocks `lo` to `hi - 1` of `from`, all free and each touching the next, are one block of `bs`. */
  ghost predicate Joined(from: seq<Block>, bs: seq<Block>, lo: nat, hi: nat) {
    && lo < hi <= |from| && |bs| == |from| - (hi - lo) + 1
    && bs[..lo] == from[..lo] && bs[lo + 1..] == from[hi..]
    && bs[lo].addr == from[lo].addr && End(bs[lo]) == End(from[hi - 1]) && !bs[lo].used
    && (forall j :: lo <= j < hi ==> !from[j].used)
    && (forall j :: lo <= j < hi - 1 ==> Adjacent(from[j], from[j + 1]))
  }

  /** Block `at` of `from` and all the free neighbours that touch it are block `k` of `bs`. */
  ghost predicate Coalesced(from: seq<Block>, at: nat, bs: seq<Block>, k: nat) {
    && (exists hi: nat :: k <= at < hi && Joined(from, bs, k, hi))
    && (k + 1 < |bs| ==> bs[k + 1].used || !Adjacent(bs[k], bs[k + 1]))
    && (0 < k < |bs| ==> bs[k - 1].used || !Adjacent(bs[k - 1], bs[k]))
  }

  lemma JoinedRight(from: seq<Block>, bs: seq<Block>, lo: nat, hi: nat)
    requires Joined(from, bs, lo, hi) && lo + 1 < |bs| && !bs[lo + 1].used && Adjacent(bs[lo], bs[lo + 1])
    ensures Joined(from, Merge(bs, lo), lo, hi + 1)
  {
    assert bs[lo + 1] == bs[lo + 1..][0] == from[hi];
    assert Merge(bs, lo)[lo + 1..] == bs[lo + 1..][1..];
  }

  lemma JoinedLeft(from: seq<Block>, bs: seq<Block>, lo: nat, hi: nat)
    requires Joined(from, bs, lo, hi) && lo > 0 && !bs[lo - 1].used && Adjacent(bs[lo - 1], bs[lo])
    ensures Joined(from, Merge(bs, lo - 1), lo - 1, hi)
  {
    assert bs[lo - 1] == bs[..lo][lo - 1] == from[lo - 1];
    assert Merge(bs, lo - 1)[..lo - 1] == bs[..lo][..lo - 1];
  }

  /** The blocks of a list determine what coalescing makes of it. */
  lemma CoalescedUnique(from: seq<Block>, at: nat, bs: seq<Block>, k: nat, bs': seq<Block>, k': nat)
    requires Coalesced(from, at, bs, k) && Coalesced(from, at, bs', k')
    ensures bs == bs' && k == k'
  {
    hide Adjacent;
    var hi: nat :| k <= at < hi && Joined(from, bs, k, hi);
    var hi': nat :| k' <= at < hi' && Joined(from, bs', k', hi');
    NotFurther(from, bs, k, hi, bs', k', hi');
    NotFurther(from, bs', k', hi', bs, k, hi);
    JoinedSame(from, bs, bs', k, hi);
  }

  lemma JoinedSame(from: seq<Block>, bs: seq<Block>, bs': seq<Block>, lo: nat, hi: nat)
    requires Joined(from, bs, lo, hi) && Joined(from, bs', lo, hi)
    ensures bs == bs'
  {
    assert bs == bs[..lo] + [bs[lo]] + bs[lo + 1..];
    assert bs' == bs'[..lo] + [bs'[lo]] + bs'[lo + 1..];
  }

  /** Of two joined stretches with a block in common, one that cannot grow is not inside the other. */
  lemma NotFurther(from: seq<Block>, bs: seq<Block>, lo: nat, hi: nat, bs': seq<Block>, lo': nat, hi': nat)
    requires Joined(from, bs, lo, hi) && Joined(from, bs', lo', hi') && lo < hi' && lo' < hi
    requires lo + 1 < |bs| ==> bs[lo + 1].used || !Adjacent(bs[lo], bs[lo + 1])
    requires lo > 0 ==> bs[lo - 1].used || !Adjacent(bs[lo - 1], bs[lo])
    ensures lo <= lo' && hi' <= hi
  {
    assert hi < |from| ==> bs[lo + 1] == bs[lo + 1..][0] == from[hi];
    assert lo > 0 ==> bs[lo - 1] == bs[..lo][lo - 1] == from[lo - 1];
  }

  lemma CoalescedAlone(b: Block)
    requires !b.used
    ensures Coalesced([b], 0, [b], 0)
  {
    assert Joined([b], [b], 0, 1);
  }

  /** Handing a block out, or taking it back, moves no byte. */
  lemma MarkTiles(bs: seq<Block>, i: nat, used: bool, own: set<nat>, off: nat)
    requires Tiles(bs, own, off) && i < |bs|
    ensures Tiles(bs[i := bs[i].(used := used)], own, off)
  {
    var b, c := bs[i], bs[i].(used := used);
    TilesAligned(bs, i, own, off);
    assert bs[i := c] == Put(bs, i, 1, [c]);
    assert bs[i..i + 1] == [b];
    hide Tiles, Put, Exchanges;
    OneForOne(b, c);
    PutTiles(bs, i, 1, [c], own, off);
  }

  lemma MarkSum(bs: seq<Block>, i: nat, used: bool)
    requires i < |bs| && bs[i].used != used
    ensures if used then UsedSum(bs[i := bs[i].(used := used)]) == UsedSum(bs) + bs[i].size
            else UsedSum(bs[i := bs[i].(used := used)]) == UsedSum(bs) - bs[i].size
  {
    var b, c := bs[i], bs[i].(used := used);
    assert bs[i := c] == Put(bs, i, 1, [c]);
    assert bs[i..i + 1] == [b];
    hide UsedSum, Put;
    PutSum(bs, i, 1, [c]);
    UsedSumOne(b);
    UsedSumOne(c);
  }

  /** A run of pages obtained from the frame allocator in one go. */
  datatype Group = Group(page: nat, npages: nat)

  ghost predicate InGroup(g: Group, p: nat) { g.page <= p < g.page + g.npages }

  ghost function Span(g: Group): set<nat> { set p: nat | g.page <= p < g.page + g.npages && InGroup(g, p) }

  lemma {:induction false} SpanSize(g: Group)
    ensures |Span(g)| == g.npages
    decreases g.npages
  {
    if g.npages > 0 {
      SpanSize(Group(g.page, g.npages - 1));
      SpanStep(g);
    } else {
      assert Span(g) == {};
    }
  }

  lemma InSpan(g: Group, p: nat)
    ensures p in Span(g) <==> InGroup(g, p)
  {
  }

  lemma SpanStep(g: Group)
    requires g.npages > 0
    ensures var h, last := Group(g.page, g.npages - 1), g.page + g.npages - 1;
      last !in Span(h) && Span(g) == Span(h) + {last}
  {
    hide Span;
    var h, last := Group(g.page, g.npages - 1), g.page + g.npages - 1;
    InSpan(h, last);
    forall p: nat
      ensures p in Span(g) <==> p in Span(h) || p == last
    {
      InSpan(g, p);
      InSpan(h, p);
    }
  }

  /** The block that heap_new_block makes of a group. */
  function Whole(g: Group, off: nat): Block
    requires g.npages > 0
  {
    Block(off + PAGE * g.page, PAGE * g.npages - HEADER, false)
  }

  lemma WholeOwned(g: Group, off: nat, a: nat)
    requires g.npages > 0
    ensures Within(Whole(g, off), a) <==> Owned(Span(g), off, a)
  {
  }

  lemma OwnedUnion(s: set<nat>, t: set<nat>, off: nat, a: nat)
    ensures Owned(s + t, off, a) <==> Owned(s, off, a) || Owned(t, off, a)
    ensures Owned(s - t, off, a) <==> Owned(s, off, a) && !Owned(t, off, a)
  {
  }

  lemma WholeApart(bs: seq<Block>, g: Group, own: set<nat>, off: nat, j: nat)
    requires Tiles(bs, own, off) && g.npages > 0 && Span(g) !! own && j < |bs|
    ensures Apart(bs[j], Whole(g, off))
  {
    hide Owned, Whole;
    var b := Whole(g, off);
    var a := if b.addr < bs[j].addr then bs[j].addr else b.addr;
    if Within(bs[j], a) {
      assert Covers(bs, a);
      Disjoint(Span(g), own, off, a);
      WholeOwned(g, off, a);
    }
  }

  lemma Disjoint(s: set<nat>, t: set<nat>, off: nat, a: nat)
    requires s !! t
    ensures !(Owned(s, off, a) && Owned(t, off, a))
  {
  }

  lemma WholeAligned(g: Group, off: nat)
    requires g.npages > 0 && off % PAGE == 0
    ensures Aligned(Whole(g, off))
  {
    Sixteen(off / PAGE + g.page, off + PAGE * g.page);
    Sixteen(g.npages, PAGE * g.npages);
  }

  /** Whole pages are whole units of sixteen, before and after a header. */
  lemma Sixteen(n: nat, a: nat)
    requires a == PAGE * n
    ensures a % 16 == 0 && (a >= HEADER ==> (a - HEADER) % 16 == 0)
  {
    assert a == 16 * (256 * n);
  }

  lemma GrowLaid(bs: seq<Block>, b: Block)
    requires Laid(bs) && Aligned(b) && forall i :: 0 <= i < |bs| ==> Apart(bs[i], b)
    ensures Laid(bs + [b])
  {
    hide Apart, Aligned;
  }

  /** A new group at the tail of the list. */
  lemma GrowTiles(bs: seq<Block>, g: Group, own: set<nat>, off: nat)
    requires Tiles(bs, own, off) && g.npages > 0 && Span(g) !! own && off % PAGE == 0
    ensures Tiles(bs + [Whole(g, off)], own + Span(g), off)
  {
    var b := Whole(g, off);
    hide Covers, Owned, Whole, Apart, Span, Aligned, Laid;
    WholeAligned(g, off);
    var r := bs + [b];
    forall i | 0 <= i < |bs|
      ensures Apart(bs[i], b)
    {
      WholeApart(bs, g, own, off, i);
    }
    GrowLaid(bs, b);
    forall a: nat
      ensures Covers(r, a) <==> Owned(own + Span(g), off, a)
    {
      CoversSplit(bs, [b], a);
      CoversOne(b, a);
      WholeOwned(g, off, a);
      OwnedUnion(own, Span(g), off, a);
    }
  }

  lemma GrowSum(bs: seq<Block>, b: Block)
    requires !b.used
    ensures UsedSum(bs + [b]) == UsedSum(bs)
  {
    UsedSumSplit(bs, [b]);
    UsedSumOne(b);
  }

  /** Taking a block out together with exactly its pages. */
  lemma DropTiles(bs: seq<Block>, i: nat, gone: set<nat>, own: set<nat>, off: nat)
    requires Tiles(bs, own, off) && i < |bs|
    requires forall a: nat :: Within(bs[i], a) <==> Owned(gone, off, a)
    ensures Tiles(Put(bs, i, 1, []), own - gone, off)
  {
    hide Covers, Owned, Apart, Put, Aligned;
    var r := Put(bs, i, 1, []);
    PutLaid(bs, i, 1, []);
    forall a: nat
      ensures Covers(r, a) <==> Owned(own - gone, off, a)
    {
      OwnedUnion(own, gone, off, a);
      DropCovers(bs, i, a);
    }
  }

  lemma DropCovers(bs: seq<Block>, i: nat, a: nat)
    requires Laid(bs) && i < |bs|
    ensures Covers(Put(bs, i, 1, []), a) <==> Covers(bs, a) && !Within(bs[i], a)
  {
    hide Covers, Laid, Within;
    var pre, post := bs[..i], bs[i + 1..];
    assert Put(bs, i, 1, []) == pre + post && bs == pre + [bs[i]] + post;
    CoversSplit(pre, post, a);
    CoversSplit(pre + [bs[i]], post, a);
    CoversSplit(pre, [bs[i]], a);
    CoversOne(bs[i], a);
    if Within(bs[i], a) {
      ElsewhereUncovered(bs, 0, i, i, a);
      ElsewhereUncovered(bs, i + 1, |bs| - i - 1, i, a);
      assert bs[0..i] == pre && bs[i + 1..i + 1 + (|bs| - i - 1)] == post;
    }
  }

  lemma DropSum(bs: seq<Block>, i: nat)
    requires i < |bs| && !bs[i].used
    ensures UsedSum(Put(bs, i, 1, [])) == UsedSum(bs)
  {
    hide Put;
    PutSum(bs, i, 1, []);
    assert bs[i..i + 1] == [bs[i]];
    UsedSumOne(bs[i]);
  }

  /** Groups found inside one block. */
  ghost predicate GroupsApart(g: Group, h: Group) { g.page + g.npages <= h.page || h.page + h.npages <= g.page }

  ghost predicate Inside(g: Group, b: Block, off: nat) {
    b.addr <= off + PAGE * g.page && off + PAGE * (g.page + g.npages) <= End(b)
  }

  function PageSum(gs: seq<Group>): nat {
    if gs == [] then 0 else PageSum(gs[..|gs| - 1]) + gs[|gs| - 1].npages
  }

  ghost function Spans(gs: seq<Group>): set<nat> {
    if gs == [] then {} else Spans(gs[..|gs| - 1]) + Span(gs[|gs| - 1])
  }

  lemma {:induction false} InSpans(gs: seq<Group>, p: nat)
    ensures p in Spans(gs) <==> exists i :: 0 <= i < |gs| && p in Span(gs[i])
  {
    if gs != [] {
      var n := |gs| - 1;
      InSpans(gs[..n], p);
      if p in Spans(gs[..n]) {
        var i :| 0 <= i < n && p in Span(gs[..n][i]);
        assert p in Span(gs[i]);
      }
      if i :| 0 <= i < |gs| && p in Span(gs[i]) {
        assert i < n ==> p in Span(gs[..n][i]);
      }
    }
  }

  lemma SpansApart(gs: seq<Group>, h: Group)
    requires forall i :: 0 <= i < |gs| ==> GroupsApart(gs[i], h)
    ensures Spans(gs) !! Span(h)
  {
    hide Span, Spans;
    forall p | p in Spans(gs)
      ensures p !in Span(h)
    {
      InSpans(gs, p);
      var i :| 0 <= i < |gs| && p in Span(gs[i]);
      InSpan(gs[i], p);
      InSpan(h, p);
    }
  }

  lemma {:induction false} SpansSize(gs: seq<Group>)
    requires forall i, j :: 0 <= i < j < |gs| ==> GroupsApart(gs[i], gs[j])
    ensures |Spans(gs)| == PageSum(gs)
  {
    hide Span;
    if gs != [] {
      var n := |gs| - 1;
      SpansSize(gs[..n]);
      SpanSize(gs[n]);
      SpansApart(gs[..n], gs[n]);
    }
  }

  /** Groups inside a block, apart from one another, that add up to its length: they are all of it. */
  lemma ExactCover(b: Block, gs: seq<Group>, off: nat)
    requires b.addr >= off && forall i :: 0 <= i < |gs| ==> Inside(gs[i], b, off)
    requires forall i, j :: 0 <= i < j < |gs| ==> GroupsApart(gs[i], gs[j])
    requires PAGE * PageSum(gs) == End(b) - b.addr
    ensures forall a: nat :: Within(b, a) <==> Owned(Spans(gs), off, a)
  {
    hide GroupsApart, Spans, PageSum, Inside;
    var lo, hi := (b.addr - off + PAGE - 1) / PAGE, (End(b) - off) / PAGE;
    SpansInside(b, gs, off);
    SpansSize(gs);
    var all := Group(lo, if hi >= lo then hi - lo else 0);
    SpanSize(all);
    SubsetSize(Spans(gs), Span(all));
    forall a: nat
      ensures Within(b, a) <==> Owned(Span(all), off, a)
    {
    }
  }

  lemma SpansInside(b: Block, gs: seq<Group>, off: nat)
    requires b.addr >= off && forall i :: 0 <= i < |gs| ==> Inside(gs[i], b, off)
    ensures forall p :: p in Spans(gs) ==> (b.addr - off + PAGE - 1) / PAGE <= p < (End(b) - off) / PAGE
  {
    forall p | p in Spans(gs)
      ensures (b.addr - off + PAGE - 1) / PAGE <= p < (End(b) - off) / PAGE
    {
      InSpans(gs, p);
      var i :| 0 <= i < |gs| && p in Span(gs[i]);
    }
  }

  /** An entry of the group table. */
  datatype Slot = Slot(inUse: bool, virt: nat, phys: nat, npages: nat)

  function GroupOf(s: Slot): Group { Group(s.phys / PAGE, s.npages) }

  ghost predicate SlotOk(s: Slot, own: set<nat>, off: nat) {
    s.npages > 0 && s.phys % PAGE == 0 && s.virt == s.phys + off && Span(GroupOf(s)) <= own
  }

  /** Registered groups are owned and do not overlap. */
  ghost predicate TableOk(slots: seq<Slot>, own: set<nat>, off: nat) {
    && (forall k :: 0 <= k < |slots| && slots[k].inUse ==> SlotOk(slots[k], own, off))
    && (forall j, k :: 0 <= j < k < |slots| && slots[j].inUse && slots[k].inUse ==>
         Span(GroupOf(slots[j])) !! Span(GroupOf(slots[k])))
  }

  lemma TableGrows(slots: seq<Slot>, own: set<nat>, more: set<nat>, off: nat)
    requires TableOk(slots, own, off)
    ensures TableOk(slots, own + more, off)
  {
    hide Span, GroupOf;
  }

  lemma TableRegisters(slots: seq<Slot>, k: nat, s: Slot, own: set<nat>, off: nat)
    requires TableOk(slots, own, off) && k < |slots| && !slots[k].inUse
    requires s.npages > 0 && s.phys % PAGE == 0 && s.virt == s.phys + off && Span(GroupOf(s)) !! own
    ensures TableOk(slots[k := s], own + Span(GroupOf(s)), off)
  {
    hide Span, GroupOf;
  }

  lemma TableReleases(slots: seq<Slot>, k: nat, own: set<nat>, off: nat)
    requires TableOk(slots, own, off) && k < |slots| && slots[k].inUse
    ensures TableOk(slots[k := slots[k].(inUse := false)], own - Span(GroupOf(slots[k])), off)
  {
    hide Span, GroupOf;
    var t, rest := slots[k := slots[k].(inUse := false)], own - Span(GroupOf(slots[k]));
    forall j | 0 <= j < |t| && t[j].inUse
      ensures SlotOk(t[j], rest, off)
    {
      assert Span(GroupOf(slots[j])) !! Span(GroupOf(slots[k]));
    }
  }

  lemma HeldGrows(own: set<nat>, u: Marks, g: Group)
    requires Held(own, u) && FreeRun(u, g.page, g.npages)
    ensures Span(g) !! own && Held(own + Span(g), Fill(u, g.page, g.npages, true))
  {
    hide Span;
    forall p | p in Span(g)
      ensures p !in own && p < |u| && Fill(u, g.page, g.npages, true)[p]
    {
      InSpan(g, p);
    }
  }

  lemma HeldReleases(own: set<nat>, u: Marks, g: Group)
    requires Held(own, u) && Span(g) <= own && g.npages > 0
    ensures UsedRun(u, g.page, g.npages) && Held(own - Span(g), Fill(u, g.page, g.npages, false))
    ensures |own - Span(g)| == |own| - g.npages
  {
    hide Span;
    SpanSize(g);
    SubsetSize(Span(g), own);
    InSpan(g, g.page + g.npages - 1);
    forall p | g.page <= p < g.page + g.npages
      ensures p < |u| && u[p]
    {
      InSpan(g, p);
    }
    forall p | p in own - Span(g)
      ensures p < |u| && Fill(u, g.page, g.npages, false)[p]
    {
      InSpan(g, p);
    }
  }

  lemma HeldBound(own: set<nat>, u: Marks)
    requires Held(own, u)
    ensures |own| <= |u|
  {
    var all := Group(0, |u|);
    hide Span;
    SpanSize(all);
    forall p | p in own
      ensures p in Span(all)
    {
      InSpan(all, p);
    }
    SubsetSize(own, Span(all));
  }

  predicate SlotInside(s: Slot, b: Block) {
    s.inUse && s.virt >= b.addr && s.virt + PAGE * s.npages <= End(b)
  }

  /** The registered groups that heap_try_reclaim finds inside a block, among the first `n` entries. */
  function Picks(slots: seq<Slot>, b: Block, n: nat): (idx: seq<nat>)
    requires n <= |slots|
    ensures forall i :: 0 <= i < |idx| ==> idx[i] < n && SlotInside(slots[idx[i]], b)
    ensures forall k :: 0 <= k < n && SlotInside(slots[k], b) ==> k in idx
    ensures forall i, j :: 0 <= i < j < |idx| ==> idx[i] < idx[j]
  {
    if n == 0 then []
    else Picks(slots, b, n - 1) + if SlotInside(slots[n - 1], b) then [n - 1] else []
  }

  function GroupsAt(slots: seq<Slot>, idx: seq<nat>): (gs: seq<Group>)
    requires forall i :: 0 <= i < |idx| ==> idx[i] < |slots|
    ensures |gs| == |idx| && forall i :: 0 <= i < |idx| ==> gs[i] == GroupOf(slots[idx[i]])
  {
    seq(|idx|, i requires 0 <= i < |idx| => GroupOf(slots[idx[i]]))
  }

  /** All the registered groups inside a block. */
  function Found(slots: seq<Slot>, b: Block): seq<Group> { GroupsAt(slots, Picks(slots, b, |slots|)) }

  lemma GroupsSnoc(slots: seq<Slot>, idx: seq<nat>, k: nat)
    requires (forall i :: 0 <= i < |idx| ==> idx[i] < |slots|) && k < |slots|
    ensures GroupsAt(slots, idx + [k]) == GroupsAt(slots, idx) + [GroupOf(slots[k])]
    ensures PageSum(GroupsAt(slots, idx + [k])) == PageSum(GroupsAt(slots, idx)) + slots[k].npages
    ensures Spans(GroupsAt(slots, idx + [k])) == Spans(GroupsAt(slots, idx)) + Span(GroupOf(slots[k]))
  {
    var gs := GroupsAt(slots, idx);
    assert (gs + [GroupOf(slots[k])])[..|gs|] == gs;
  }

  lemma DisjointSpans(g: Group, h: Group)
    requires Span(g) !! Span(h) && g.npages > 0 && h.npages > 0
    ensures GroupsApart(g, h)
  {
    InSpan(g, g.page);
    InSpan(h, g.page);
    InSpan(g, h.page);
    InSpan(h, h.page);
  }

  /** The groups found lie inside the block and apart from one another. */
  lemma FoundApart(slots: seq<Slot>, b: Block, own: set<nat>, off: nat)
    requires TableOk(slots, own, off)
    ensures var gs := Found(slots, b);
      && (forall i :: 0 <= i < |gs| ==> Inside(gs[i], b, off))
      && (forall i, j :: 0 <= i < j < |gs| ==> GroupsApart(gs[i], gs[j]))
  {
    hide Span;
    var idx := Picks(slots, b, |slots|);
    var gs := GroupsAt(slots, idx);
    hide Picks;
    forall i, j | 0 <= i < j < |gs|
      ensures GroupsApart(gs[i], gs[j])
    {
      assert idx[i] < idx[j];
      DisjointSpans(gs[i], gs[j]);
    }
  }

  /** A page of groups inside a block is inside it. */
  lemma SpansBetween(gs: seq<Group>, b: Block, off: nat, p: nat)
    requires b.addr >= off && forall i :: 0 <= i < |gs| ==> Inside(gs[i], b, off)
    ensures p in Spans(gs) ==> b.addr <= off + PAGE * p && off + PAGE * p + PAGE <= End(b)
  {
    hide Span, Spans;
    InSpans(gs, p);
    if p in Spans(gs) {
      var i :| 0 <= i < |gs| && p in Span(gs[i]);
      InSpan(gs[i], p);
    }
  }

  /** A block covered by groups inside it begins and ends with a page. */
  lemma PageEdge(gs: seq<Group>, b: Block, off: nat, a: nat)
    requires b.addr >= off && (forall i :: 0 <= i < |gs| ==> Inside(gs[i], b, off))
    requires Owned(Spans(gs), off, a)
    ensures a == b.addr ==> (b.addr - off) % PAGE == 0
    ensures a == End(b) - 1 ==> (End(b) - off) % PAGE == 0
  {
    hide Spans;
    SpansBetween(gs, b, off, (a - off) / PAGE);
  }

  lemma OwnedPage(gs: seq<Group>, b: Block, off: nat, p: nat)
    requires b.addr >= off && forall a: nat :: Within(b, a) ==> Owned(Spans(gs), off, a)
    requires (b.addr - off) % PAGE == 0 && (b.addr - off) / PAGE <= p < (End(b) - off) / PAGE
    ensures p in Spans(gs)
  {
    assert Within(b, off + PAGE * p);
  }

  /** The block is exactly its registered groups when their lengths add up to its own. */
  lemma ReclaimExact(slots: seq<Slot>, b: Block, own: set<nat>, off: nat)
    requires TableOk(slots, own, off) && b.addr >= off
    requires PAGE * PageSum(Found(slots, b)) == End(b) - b.addr
    ensures forall a: nat :: Within(b, a) <==> Owned(Spans(Found(slots, b)), off, a)
  {
    hide Span, Owned, Within, Spans, PageSum;
    FoundApart(slots, b, own, off);
    ExactCover(b, Found(slots, b), off);
  }

  /** And they do if they cover it: the test of heap_try_reclaim misses no block made up of registered groups. */
  lemma ReclaimComplete(slots: seq<Slot>, b: Block, own: set<nat>, off: nat)
    requires TableOk(slots, own, off) && b.addr >= off
    requires forall a: nat :: Within(b, a) ==> Owned(Spans(Found(slots, b)), off, a)
    ensures PAGE * PageSum(Found(slots, b)) == End(b) - b.addr
  {
    hide Span, Owned, Spans, PageSum, TableOk;
    var gs := Found(slots, b);
    FoundApart(slots, b, own, off);
    PageEdge(gs, b, off, b.addr);
    PageEdge(gs, b, off, End(b) - 1);
    var lo, hi := (b.addr - off) / PAGE, (End(b) - off) / PAGE;
    var all := Group(lo, hi - lo);
    forall p: nat
      ensures p in Spans(gs) <==> p in Span(all)
    {
      InSpan(all, p);
      SpansBetween(gs, b, off, p);
      if lo <= p < hi {
        OwnedPage(gs, b, off, p);
      }
    }
    assert Spans(gs) == Span(all);
    SpansSize(gs);
    SpanSize(all);
  }

  /** A registered group that lies inside the block has the byte at `a`. */
  ghost predicate HasByte(s: Slot, b: Block, a: nat) {
    s.inUse && b.addr <= s.virt <= a < s.virt + PAGE * s.npages <= End(b)
  }

  /** The block consists of whole registered groups. */
  ghost predicate MadeUp(slots: seq<Slot>, b: Block) {
    forall a: nat :: Within(b, a) ==> exists k :: 0 <= k < |slots| && HasByte(slots[k], b, a)
  }

  /** The test of heap_try_reclaim, which only compares lengths, tells exactly whether the block consists of
      whole registered groups. */
  lemma ReclaimTest(slots: seq<Slot>, b: Block, own: set<nat>, off: nat)
    requires TableOk(slots, own, off) && b.addr >= off
    ensures MadeUp(slots, b) <==> PAGE * PageSum(Found(slots, b)) == End(b) - b.addr
  {
    hide Span, Spans, PageSum, TableOk, Owned, Found;
    forall a: nat | Within(b, a)
      ensures (exists k :: 0 <= k < |slots| && HasByte(slots[k], b, a)) <==> Owned(Spans(Found(slots, b)), off, a)
    {
      ByteFound(slots, b, own, off, a);
    }
    if MadeUp(slots, b) {
      ReclaimComplete(slots, b, own, off);
    }
    if PAGE * PageSum(Found(slots, b)) == End(b) - b.addr {
      ReclaimExact(slots, b, own, off);
    }
  }

  lemma ByteFound(slots: seq<Slot>, b: Block, own: set<nat>, off: nat, a: nat)
    requires TableOk(slots, own, off) && off <= b.addr <= a
    ensures (exists k :: 0 <= k < |slots| && HasByte(slots[k], b, a)) <==> Owned(Spans(Found(slots, b)), off, a)
  {
    hide Span, Spans, GroupOf, InGroup;
    var idx, p := Picks(slots, b, |slots|), (a - off) / PAGE;
    var gs := GroupsAt(slots, idx);
    hide Picks;
    InSpans(gs, p);
    if k :| 0 <= k < |slots| && HasByte(slots[k], b, a) {
      assert k in idx;
      var i :| 0 <= i < |idx| && idx[i] == k;
      SlotByte(slots[k], own, off, a);
      InSpan(gs[i], p);
    }
    if i :| 0 <= i < |gs| && p in Span(gs[i]) {
      InSpan(gs[i], p);
      SlotByte(slots[idx[i]], own, off, a);
    }
  }

  /** The page of a byte is in a group exactly if the byte is in its address range. */
  lemma SlotByte(s: Slot, own: set<nat>, off: nat, a: nat)
    requires SlotOk(s, own, off) && off <= a
    ensures InGroup(GroupOf(s), (a - off) / PAGE) <==> s.virt <= a < s.virt + PAGE * s.npages
  {
    hide Span;
    assert s.phys == PAGE * (s.phys / PAGE);
  }

  /** The table after the entries `idx` have been given up. */
  function Freed(slots: seq<Slot>, idx: seq<nat>): (r: seq<Slot>)
    requires forall i :: 0 <= i < |idx| ==> idx[i] < |slots|
    ensures |r| == |slots|
  {
    if idx == [] then slots
    else
      var k := idx[|idx| - 1];
      Freed(slots, idx[..|idx| - 1])[k := slots[k].(inUse := false)]
  }

  lemma {:induction false} FreedAt(slots: seq<Slot>, idx: seq<nat>, k: nat)
    requires (forall i :: 0 <= i < |idx| ==> idx[i] < |slots|) && k < |slots|
    ensures Freed(slots, idx)[k] == if k in idx then slots[k].(inUse := false) else slots[k]
  {
    if idx != [] {
      FreedAt(slots, idx[..|idx| - 1], k);
      assert idx == idx[..|idx| - 1] + [idx[|idx| - 1]];
    }
  }

  lemma FreedSnoc(slots: seq<Slot>, idx: seq<nat>, j: nat)
    requires (forall i :: 0 <= i < |idx| ==> idx[i] < |slots|) && j < |idx|
    requires forall a, b :: 0 <= a < b < |idx| ==> idx[a] < idx[b]
    ensures Freed(slots, idx[..j])[idx[j]] == slots[idx[j]]
    ensures Freed(slots, idx[..j + 1]) == Freed(slots, idx[..j])[idx[j] := slots[idx[j]].(inUse := false)]
  {
    FreedAt(slots, idx[..j], idx[j]);
    assert idx[..j + 1][..j] == idx[..j];
  }

  lemma AllocsSplit(s: seq<Block>, t: seq<Block>)
    ensures Allocs(s + t) == Allocs(s) + Allocs(t)
  {
  }

  /** Free blocks may be cut up, joined, added or dropped: what is handed out stays. */
  lemma PutAllocs(bs: seq<Block>, i: nat, n: nat, mid: seq<Block>)
    requires i + n <= |bs| && (forall j :: i <= j < i + n ==> !bs[j].used)
    requires forall j :: 0 <= j < |mid| ==> !mid[j].used
    ensures Allocs(Put(bs, i, n, mid)) == Allocs(bs)
  {
    var pre, old_, post := bs[..i], bs[i..i + n], bs[i + n..];
    assert Allocs(old_) == {} && Allocs(mid) == {};
    assert bs == pre + old_ + post;
    hide Allocs;
    AllocsSplit(pre + mid, post);
    AllocsSplit(pre, mid);
    AllocsSplit(pre + old_, post);
    AllocsSplit(pre, old_);
  }

  /** A block handed out is a new allocation, and a block taken back is one no more. */
  lemma MarkAllocs(bs: seq<Block>, i: nat)
    requires Laid(bs) && i < |bs|
    ensures var on, off := bs[i].(used := true), bs[i].(used := false);
      && (!bs[i].used ==> on !in Allocs(bs) && Allocs(bs[i := on]) == Allocs(bs) + {on})
      && (bs[i].used ==> Allocs(bs[i := off]) == Allocs(bs) - {bs[i]})
  {
    var on, off := bs[i].(used := true), bs[i].(used := false);
    forall j | 0 <= j < |bs| && j != i
      ensures bs[j].addr != bs[i].addr
    {
    }
    if !bs[i].used {
      var r := bs[i := on];
      forall b | b in Allocs(bs)
        ensures b in Allocs(r)
      {
        var j :| 0 <= j < |bs| && bs[j] == b;
        assert r[j] == b;
      }
      assert r[i] == on;
    } else {
      var r := bs[i := off];
      forall b | b in Allocs(bs) && b != bs[i]
        ensures b in Allocs(r)
      {
        var j :| 0 <= j < |bs| && bs[j] == b;
        assert r[j] == b;
      }
    }
  }
}
