/** kernel/src/mm/heap.c: the kernel heap on top of the frame allocator. Addresses and sizes are 64-bit;
    the counters are 32-bit. */
module Heap {
  import opened Words
  import opened PageMarks
  import opened HeapSpec
  import Pmm

  const MAX_GROUPS := 1024

  /** The rounding of kmalloc, in 64 bits. */
  function Round(size: nat): (r: nat)
    ensures r % 16 == 0
  {
    (size + 15) % WRAP64 / 16 * 16
  }

  /** Rounding up gives the least multiple of 16 with room for the request unless it wraps, and then no room. */
  lemma RoundFits(size: nat)
    requires size < WRAP64
    ensures Round(size) >= size <==> size <= WRAP64 - 16 || size == 0
    ensures size <= WRAP64 - 16 ==> Round(size) % 16 == 0 && size <= Round(size) < size + 16
    ensures size > WRAP64 - 16 ==> Round(size) == 0
  {
  }

  /** The number of pages heap_new_block asks for, in 64 bits. */
  function PagesFor(size: nat): (n: nat)
    ensures n > 0
  {
    var need := (size + HEADER) % WRAP64;
    var pages := (need + PAGE - 1) % WRAP64 / PAGE;
    if pages < 1 then 1 else pages
  }

  /** They hold the request and its header unless one of the additions wraps; and they are as few as do. */
  lemma PagesForFits(size: nat)
    requires size < WRAP64
    ensures PAGE * PagesFor(size) >= size + HEADER <==> size + HEADER + PAGE - 1 < WRAP64
    ensures size + HEADER + PAGE - 1 < WRAP64 ==> PAGE * (PagesFor(size) - 1) < size + HEADER
  {
  }

  predicate Fits(b: Block, size: nat) { !b.used && b.size >= size }

  predicate NoFit(bs: seq<Block>, size: nat) { forall i :: 0 <= i < |bs| ==> !Fits(bs[i], size) }

  /** The first block of the list that is free and big enough. */
  predicate IsFirstFit(bs: seq<Block>, size: nat, i: nat) {
    i < |bs| && Fits(bs[i], size) && forall j :: 0 <= j < i ==> !Fits(bs[j], size)
  }

  /** Block `i` was handed out. If it had 48 bytes to spare it was cut to `size`, with the rest as a free block
      right behind it; otherwise the list differs in its mark only. */
  ghost predicate TakenAt(from: seq<Block>, bs: seq<Block>, i: nat, size: nat) {
    && i < |from|
    && if from[i].size < size + 48 then bs == from[i := from[i].(used := true)]
       else
         && |bs| == |from| + 1 && bs[..i] == from[..i] && bs[i + 2..] == from[i + 1..]
         && bs[i] == Block(from[i].addr, size, true)
         && !bs[i + 1].used && bs[i + 1].addr == End(bs[i]) && End(bs[i + 1]) == End(from[i])
  }

  /** The first fitting block was handed out, and only it. */
  ghost predicate TookFirst(from: seq<Block>, bs: seq<Block>, size: nat, ptr: nat) {
    exists i: nat :: IsFirstFit(from, size, i) && TakenAt(from, bs, i, size) && ptr == from[i].addr + HEADER
  }

  /** A new group joined the tail, was coalesced, and then the first fitting block was handed out. */
  ghost predicate GrewAndTook(was: seq<Block>, bs: seq<Block>, size: nat, ptr: nat) {
    exists nb: Block, grown: seq<Block>, k: nat ::
      && !nb.used && nb.size == PAGE * PagesFor(size) - HEADER
      && Coalesced(was + [nb], |was|, grown, k) && TookFirst(grown, bs, size, ptr)
  }

  /** The used block `i` was freed: joined with its free neighbours, and gone if registered groups make it up. */
  ghost predicate GivenBack(from: seq<Block>, slots: seq<Slot>, bs: seq<Block>, i: nat) {
    && i < |from|
    && exists joined: seq<Block>, k: nat ::
         && Coalesced(from[i := from[i].(used := false)], i, joined, k) && k < |joined|
         && bs == if MadeUp(slots, joined[k]) then joined[..k] + joined[k + 1..] else joined
  }

  /** No sum that kmalloc forms for this request exceeds 64 bits. */
  predicate NoWrap(size: nat) { size + 15 + HEADER + PAGE - 1 < WRAP64 }

  /** One block more is handed out than before, with room for `size` bytes from `ptr` on. */
  ghost predicate Took(was: seq<Block>, bs: seq<Block>, o: bool, p: bool, b: Block, ptr: nat, size: nat) {
    && b !in Allocs(was) && Allocs(bs) == Allocs(was) + {b}
    && ptr == b.addr + HEADER && size <= b.size < size + 48
    && UsedSum(bs) == UsedSum(was) + b.size && p == (o || UsedSum(bs) >= WRAP32)
  }

  /** The block and exactly the pages it consisted of are gone. */
  ghost predicate Reclaimed(was: seq<Block>, i: nat, before: set<nat>, bs: seq<Block>, after: set<nat>, off: nat)
    requires i < |was|
  {
    && bs == was[..i] + was[i + 1..] && after <= before
    && forall a: nat :: Within(was[i], a) <==> Owned(before - after, off, a)
  }

  /** The allocation whose payload starts at `ptr`, if there is one. */
  ghost function AllocAt(bs: seq<Block>, ptr: nat): set<Block> {
    set b | b in Allocs(bs) && b.addr + HEADER == ptr
  }

  /** The group took the first entry that was free; a full table stays as it was. */
  ghost predicate Registers(was: seq<Slot>, now: seq<Slot>, s: Slot) {
    && ((forall j :: 0 <= j < |was| ==> was[j].inUse) ==> now == was)
    && forall i {:trigger was[i]} ::
         0 <= i < |was| && !was[i].inUse && (forall j :: 0 <= j < i ==> was[j].inUse) ==> now == was[i := s]
  }

  /** memcpy. */
  function Copied(mem: nat -> int, to: nat, from: nat, n: nat): (r: nat -> int)
    ensures forall a: nat :: r(a) == if to <= a < to + n then mem(a - to + from) else mem(a)
  {
    (a: nat) => if to <= a < to + n then mem(a - to + from) else mem(a)
  }

  function ByteAt(mem: nat -> int, p: nat, x: nat): int { mem(p + x) }

  ghost predicate SameBytes(was: nat -> int, p: nat, now: nat -> int, q: nat, n: nat) {
    forall x: nat :: x < n ==> ByteAt(now, q, x) == ByteAt(was, p, x)
  }

  /** The payloads of these blocks are as they were. */
  ghost predicate Untouched(was: nat -> int, now: nat -> int, cs: set<Block>) {
    forall c :: c in cs ==> SameBytes(was, c.addr + HEADER, now, c.addr + HEADER, c.size)
  }

  /** What was at `p`, as much as the block there held, is now at `q`. */
  ghost predicate Moved(was: nat -> int, p: nat, now: nat -> int, q: nat, os: set<Block>) {
    forall o :: o in os ==> SameBytes(was, p, now, q, o.size)
  }

  /** The allocation at `ptr` has room for `size` bytes. */
  ghost predicate Roomy(bs: seq<Block>, ptr: nat, size: nat) {
    exists o :: o in AllocAt(bs, ptr) && o.size >= size
  }

  class KernelHeap {
    var blocks: seq<Block>
    var pages: nat
    var usedBytes: nat
    /** The bytes of the payloads. */
    var mem: nat -> int
    const groups: array<Slot>
    const off: nat
    const pmm: Pmm.Allocator
    /** The page numbers the heap has obtained and not given back. */
    ghost var own: set<nat>
    /** The sum of the sizes handed out once exceeded the counter. */
    ghost var overflowed: bool

    constructor (a: Pmm.Allocator, hhdm: nat)
      requires a.Valid() && hhdm > 0 && hhdm % PAGE == 0 && hhdm + PAGE * a.totalPages <= WRAP64
      requires a.totalPages < WRAP32
      ensures Valid() && blocks == [] && pages == 0 && pmm == a && off == hhdm
    {
      pmm, off, blocks, pages, usedBytes, mem := a, hhdm, [], 0, 0, _ => 0;
      groups := new Slot[MAX_GROUPS](_ => Slot(false, 0, 0, 0));
      own, overflowed := {}, false;
    }

    /** The frame allocator and the group table. */
    ghost predicate Core()
      reads this`pages, this`own, groups, pmm, pmm.bitmap
    {
      && pmm.Valid() && groups.Length == MAX_GROUPS && (groups as object) != (pmm.bitmap as object)
      && off > 0 && off % PAGE == 0 && off + PAGE * pmm.totalPages <= WRAP64 && pmm.totalPages < WRAP32
      && TableOk(groups[..], own, off) && Held(own, pmm.Used()) && pages == |own|
    }

    /** The blocks tile the owned pages, and the byte counter is exact while it did not overflow. */
    ghost predicate Valid()
      reads this, groups, pmm, pmm.bitmap
    {
      && Core() && Tiles(blocks, own, off)
      && usedBytes < WRAP32 && (!overflowed ==> usedBytes == UsedSum(blocks))
    }

    /** heap_register_group: the first free entry; a full table forgets the group. */
    method Register(virt: nat, phys: nat, npages: nat)
      requires groups.Length == MAX_GROUPS && TableOk(groups[..], own, off)
      requires npages > 0 && phys % PAGE == 0 && virt == phys + off
      requires Span(Group(phys / PAGE, npages)) !! own
      modifies groups
      ensures TableOk(groups[..], own + Span(Group(phys / PAGE, npages)), off)
      ensures Registers(old(groups[..]), groups[..], Slot(true, virt, phys, npages))
    {
      hide TableOk, Held, Span, Pmm.Allocator.Used, Pmm.Allocator.Valid;
      ghost var g := Group(phys / PAGE, npages);
      TableGrows(groups[..], own, Span(g), off);
      var i := 0;
      while i < MAX_GROUPS
        invariant 0 <= i <= MAX_GROUPS && groups[..] == old(groups[..])
        invariant forall j :: 0 <= j < i ==> groups[..][j].inUse
      {
        if !groups[i].inUse {
          ghost var slots := groups[..];
          var s := Slot(true, virt, phys, npages);
          TableRegisters(slots, i, s, own, off);
          groups[i] := s;
          assert groups[..] == slots[i := s];
          return;
        }
        i := i + 1;
      }
    }

    /** The two ways of asking for pages. */
    method Obtain(n: nat) returns (phys: nat)
      requires pmm.Valid() && n > 0
      modifies pmm`freePages, pmm.bitmap
      ensures pmm.Valid() && |pmm.Used()| == |old(pmm.Used())|
      ensures phys == 0 ==>
        NoRun(old(pmm.Used()), n) && pmm.Used() == old(pmm.Used()) && pmm.freePages == old(pmm.freePages)
      ensures phys != 0 ==>
        && phys % PAGE == 0 && FreeRun(old(pmm.Used()), phys / PAGE, n)
        && pmm.Used() == Fill(old(pmm.Used()), phys / PAGE, n, true)
        && pmm.freePages == old(pmm.freePages) - n && !NoRun(old(pmm.Used()), n)
    {
      hide Pmm.Allocator.Used, ClearCount, Fill;
      if n == 1 {
        phys := pmm.AllocPage();
      } else {
        phys := pmm.AllocPages(n);
      }
      if phys != 0 {
        FillCount(old(pmm.Used()), phys / PAGE, n, true);
      }
    }

    static method PageCount(size: nat) returns (n: nat)
      requires size < WRAP64
      ensures n == PagesFor(size)
    {
      var need := (size + HEADER) % WRAP64;
      n := (need + PAGE - 1) % WRAP64 / PAGE;
      if n < 1 {
        n := 1;
      }
    }

    /** heap_new_block: a group of pages as one free block, not yet in the list. */
    method NewBlock(size: nat) returns (ok: bool, b: Block, ghost g: Group)
      requires Core() && size < WRAP64
      modifies groups, this`pages, this`own, pmm`freePages, pmm.bitmap
      ensures Core() && pmm.freePages + pages == old(pmm.freePages + pages)
      ensures ok == !NoRun(old(pmm.Used()), PagesFor(size))
      ensures !ok ==> own == old(own)
      ensures ok ==>
        g.npages == PagesFor(size) && Span(g) !! old(own) && own == old(own) + Span(g) && b == Whole(g, off)
      ensures ok ==> Registers(old(groups[..]), groups[..], Slot(true, b.addr, b.addr - off, g.npages))
    {
      hide TableOk, Held, Span, Pmm.Allocator.Used, ClearCount, Fill, NoRun, PagesFor, Whole, Registers;
      ghost var slots := groups[..];
      var n := PageCount(size);
      var phys := Obtain(n);
      assert groups[..] == slots;
      g := Group(phys / PAGE, n);
      if phys == 0 {
        return false, Block(0, 0, false), g;
      }
      HeldGrows(own, old(pmm.Used()), g);
      SpanSize(g);
      HeldBound(own + Span(g), pmm.Used());
      WholeIs(phys, n, off);
      Register(phys + off, phys, n % WRAP32);
      pages := (pages + n) % WRAP32;
      own := own + Span(g);
      return true, Block(phys + off, n * PAGE - HEADER, false), g;
    }

    /** The first search of kmalloc. */
    method FirstFit(size: nat) returns (i: nat)
      ensures i <= |blocks| && (i < |blocks| ==> IsFirstFit(blocks, size, i))
      ensures i == |blocks| <==> NoFit(blocks, size)
    {
      i := 0;
      while i < |blocks|
        invariant 0 <= i <= |blocks| && forall j :: 0 <= j < i ==> !Fits(blocks[j], size)
      {
        if !blocks[i].used && blocks[i].size >= size {
          return;
        }
        i := i + 1;
      }
    }

    /** Split, mark used and count: what kmalloc does with the block it found. */
    method Take(i: nat, size: nat) returns (ptr: nat, ghost b: Block)
      requires Valid() && i < |blocks| && Fits(blocks[i], size) && size % 16 == 0
      modifies this`blocks, this`usedBytes, this`overflowed
      ensures Valid() && ptr == b.addr + HEADER && size <= b.size < size + 48 && b.used && ptr != 0
      ensures b !in old(Allocs(blocks)) && Allocs(blocks) == old(Allocs(blocks)) + {b}
      ensures UsedSum(blocks) == old(UsedSum(blocks)) + b.size
      ensures overflowed == (old(overflowed) || UsedSum(blocks) >= WRAP32)
      ensures TakenAt(old(blocks), blocks, i, size) && b.addr == old(blocks)[i].addr
    {
      hide Core, Tiles, UsedSum, Allocs, Laid, TakenAt, Split;
      SplitTaken(blocks, i, size);
      SplitTiles(blocks, i, size, own, off);
      SplitSum(blocks, i, size);
      SplitAllocs(blocks, i, size);
      blocks := Split(blocks, i, size);
      TilesLaid(blocks, own, off);
      MarkTiles(blocks, i, true, own, off);
      MarkSum(blocks, i, true);
      MarkAllocs(blocks, i);
      blocks := blocks[i := blocks[i].(used := true)];
      b := blocks[i];
      overflowed := overflowed || UsedSum(blocks) >= WRAP32;
      usedBytes := (usedBytes + blocks[i].size) % WRAP32;
      ptr := blocks[i].addr + HEADER;
    }

    /** heap_coalesce: the free block grows over every free neighbour in the list that touches it. */
    method Coalesce(at: nat) returns (i: nat)
      requires Valid() && at < |blocks| && !blocks[at].used
      modifies this`blocks
      ensures Valid() && i < |blocks| && !blocks[i].used
      ensures Allocs(blocks) == old(Allocs(blocks)) && UsedSum(blocks) == old(UsedSum(blocks))
      ensures blocks[i].addr <= old(blocks[at]).addr && End(old(blocks[at])) <= End(blocks[i])
      ensures Coalesced(old(blocks), at, blocks, i)
    {
      hide Core, Tiles, UsedSum, Allocs, Joined;
      ghost var from := blocks;
      ghost var hi := CoalesceRight(at);
      i := CoalesceLeft(at, from, hi);
    }

    /** The first loop of heap_coalesce. */
    method CoalesceRight(i: nat) returns (ghost hi: nat)
      requires Valid() && i < |blocks| && !blocks[i].used
      modifies this`blocks
      ensures Valid() && i < |blocks| && !blocks[i].used && i < hi && Joined(old(blocks), blocks, i, hi)
      ensures Allocs(blocks) == old(Allocs(blocks)) && UsedSum(blocks) == old(UsedSum(blocks))
      ensures blocks[i].addr == old(blocks[i]).addr && End(old(blocks[i])) <= End(blocks[i])
      ensures i + 1 < |blocks| ==> blocks[i + 1].used || !Adjacent(blocks[i], blocks[i + 1])
    {
      hide Core, Tiles, UsedSum, Allocs, Joined;
      hi := i + 1;
      JoinedAlone(blocks, i);
      while i + 1 < |blocks| && !blocks[i + 1].used && Adjacent(blocks[i], blocks[i + 1])
        invariant Tiles(blocks, own, off) && i < |blocks| && !blocks[i].used
        invariant Allocs(blocks) == old(Allocs(blocks)) && UsedSum(blocks) == old(UsedSum(blocks))
        invariant blocks[i].addr == old(blocks[i]).addr && End(old(blocks[i])) <= End(blocks[i])
        invariant i < hi && Joined(old(blocks), blocks, i, hi)
        decreases |blocks|
      {
        JoinedRight(old(blocks), blocks, i, hi);
        hi := hi + 1;
        MergeTiles(blocks, i, own, off);
        MergeSum(blocks, i);
        MergeAllocs(blocks, i);
        blocks := Merge(blocks, i);
      }
    }

    /** The second loop of heap_coalesce. */
    method CoalesceLeft(at: nat, ghost from: seq<Block>, ghost hi: nat) returns (i: nat)
      requires at < hi && Joined(from, blocks, at, hi)
      requires Valid() && at < |blocks| && !blocks[at].used
      requires at + 1 < |blocks| ==> blocks[at + 1].used || !Adjacent(blocks[at], blocks[at + 1])
      modifies this`blocks
      ensures Valid() && i < |blocks| && !blocks[i].used && i <= at && Joined(from, blocks, i, hi)
      ensures Allocs(blocks) == old(Allocs(blocks)) && UsedSum(blocks) == old(UsedSum(blocks))
      ensures blocks[i].addr <= old(blocks[at]).addr && End(old(blocks[at])) <= End(blocks[i])
      ensures i + 1 < |blocks| ==> blocks[i + 1].used || !Adjacent(blocks[i], blocks[i + 1])
      ensures i > 0 ==> blocks[i - 1].used || !Adjacent(blocks[i - 1], blocks[i])
    {
      hide Core, Tiles, UsedSum, Allocs, Joined;
      i := at;
      while i > 0 && !blocks[i - 1].used && Adjacent(blocks[i - 1], blocks[i])
        invariant Tiles(blocks, own, off) && i < |blocks| && !blocks[i].used
        invariant Allocs(blocks) == old(Allocs(blocks)) && UsedSum(blocks) == old(UsedSum(blocks))
        invariant blocks[i].addr <= old(blocks[at]).addr && End(old(blocks[at])) <= End(blocks[i])
        invariant i + 1 < |blocks| ==> blocks[i + 1].used || !Adjacent(blocks[i], blocks[i + 1])
        invariant i <= at && Joined(from, blocks, i, hi)
      {
        JoinedLeft(from, blocks, i, hi);
        MergeTiles(blocks, i - 1, own, off);
        MergeSum(blocks, i - 1);
        MergeAllocs(blocks, i - 1);
        blocks := Merge(blocks, i - 1);
        i := i - 1;
      }
    }

    /** A new group joins the tail of the list. */
    method Grow(size: nat) returns (ok: bool, ghost nb: Block)
      requires Valid() && size < WRAP64
      modifies this`blocks, groups, this`pages, this`own, pmm`freePages, pmm.bitmap
      ensures Valid() && pmm.freePages + pages == old(pmm.freePages + pages)
      ensures Allocs(blocks) == old(Allocs(blocks)) && UsedSum(blocks) == old(UsedSum(blocks))
      ensures ok == !NoRun(old(pmm.Used()), PagesFor(size))
      ensures !ok ==> blocks == old(blocks) && own == old(own)
      ensures ok ==> blocks == old(blocks) + [nb] && !nb.used && nb.size == PAGE * PagesFor(size) - HEADER
    {
      hide Core, Tiles, UsedSum, Allocs, NoRun, PagesFor, Pmm.Allocator.Used, Span, Whole, Registers;
      ghost var was := own;
      CoreSized();
      var b: Block;
      ghost var g;
      ok, b, g := NewBlock(size);
      nb := b;
      if ok {
        OffAligned();
        WholeShape(g, off);
        GrowTiles(blocks, g, was, off);
        GrowSum(blocks, b);
        GrowAllocs(blocks, b);
        blocks := blocks + [b];
      }
    }

    lemma CoreSized()
      requires Core()
      ensures pmm.Sized()
    {
    }

    lemma OffAligned()
      requires Core()
      ensures off % PAGE == 0
    {
    }

    /** The second half of kmalloc: nothing in the list fits. */
    method GrowAndTake(size: nat) returns (ptr: nat, ghost b: Block)
      requires Valid() && size < WRAP64 && size % 16 == 0
      modifies this`blocks, this`usedBytes, this`overflowed, groups, this`pages, this`own, pmm`freePages, pmm.bitmap
      ensures Valid() && pmm.freePages + pages == old(pmm.freePages + pages)
      ensures ptr == 0 ==> Allocs(blocks) == old(Allocs(blocks)) && overflowed == old(overflowed)
      ensures ptr != 0 ==> Took(old(blocks), blocks, old(overflowed), overflowed, b, ptr, size)
      ensures size + HEADER + PAGE - 1 < WRAP64 ==>
        (ptr == 0 <==> NoRun(old(pmm.Used()), PagesFor(size))) && (ptr == 0 ==> blocks == old(blocks))
      ensures ptr != 0 ==> GrewAndTook(old(blocks), blocks, size, ptr)
    {
      hide Core, Tiles, UsedSum, Allocs, NoRun, PagesFor, Pmm.Allocator.Used, Laid;
      CoreSized();
      hide Coalesced;
      var ok, nb := Grow(size);
      if !ok {
        return 0, Block(0, 0, false);
      }
      ghost var tail := blocks[|blocks| - 1];
      PagesForFits(size);
      var i := Coalesce(|blocks| - 1);
      assert Coalesced(old(blocks) + [nb], |old(blocks)|, blocks, i);
      assert tail.size >= size ==> Fits(blocks[i], size);
      var j := FirstFit(size);
      if j < |blocks| {
        ptr, b := Take(j, size);
      } else {
        return 0, Block(0, 0, false);
      }
    }

    /** kmalloc: for every size, and exact about when there is nothing to return unless the size wraps. */
    method Kmalloc(request: nat) returns (ptr: nat, ghost b: Block)
      requires Valid() && request < WRAP64
      modifies this`blocks, this`usedBytes, this`overflowed, groups, this`pages, this`own, pmm`freePages, pmm.bitmap
      ensures Valid() && pmm.freePages + pages == old(pmm.freePages + pages)
      ensures ptr == 0 ==> Allocs(blocks) == old(Allocs(blocks)) && overflowed == old(overflowed)
      ensures ptr != 0 ==> Took(old(blocks), blocks, old(overflowed), overflowed, b, ptr, Round(request))
      ensures NoWrap(request) ==> Round(request) % 16 == 0 && request <= Round(request) < request + 16
      ensures NoWrap(request) ==>
        && (ptr == 0 <==>
             request == 0 || (NoFit(old(blocks), Round(request)) && NoRun(old(pmm.Used()), PagesFor(Round(request)))))
        && (ptr == 0 ==> blocks == old(blocks))
        && (ptr != 0 && NoFit(old(blocks), Round(request)) ==> GrewAndTook(old(blocks), blocks, Round(request), ptr))
      ensures request > 0 && !NoFit(old(blocks), Round(request)) ==> TookFirst(old(blocks), blocks, Round(request), ptr)
    {
      hide Core, Tiles, UsedSum, Allocs, NoRun, PagesFor, Pmm.Allocator.Used, Laid, Coalesced, TakenAt;
      CoreSized();
      if request == 0 {
        return 0, Block(0, 0, false);
      }
      var size := Round(request);
      RoundFits(request);
      if |blocks| == 0 {
        PagesForFits(size);
        var ok, nb := Grow(size);
        if !ok {
          return 0, Block(0, 0, false);
        }
        CoalescedAlone(nb);
        assert old(blocks) + [nb] == [nb] == blocks;
        assert Coalesced(old(blocks) + [nb], |old(blocks)|, blocks, 0);
        assert NoWrap(request) ==> Fits(blocks[0], size);
      }
      var i := FirstFit(size);
      if i < |blocks| {
        ptr, b := Take(i, size);
      } else {
        ptr, b := GrowAndTake(size);
      }
    }

    /** The search of heap_try_reclaim: the registered groups inside the block and their total length. */
    method Collect(b: Block) returns (idx: seq<nat>, covered: nat)
      requires groups.Length == MAX_GROUPS
      ensures idx == Picks(groups[..], b, MAX_GROUPS) && covered == PAGE * PageSum(GroupsAt(groups[..], idx))
    {
      hide GroupsAt, PageSum;
      idx, covered := [], 0;
      var i := 0;
      NoGroups(groups[..]);
      while i < MAX_GROUPS
        invariant 0 <= i <= MAX_GROUPS && idx == Picks(groups[..], b, i)
        invariant covered == PAGE * PageSum(GroupsAt(groups[..], idx))
      {
        if groups[i].inUse {
          var start := groups[i].virt;
          var end := start + groups[i].npages * PAGE;
          if start >= b.addr && end <= End(b) {
            GroupsSnoc(groups[..], idx, i);
            idx := idx + [i];
            covered := covered + groups[i].npages * PAGE;
          }
        }
        i := i + 1;
      }
    }

    /** One registered group goes back to the frame allocator. */
    method ReleaseSlot(k: nat)
      requires Core() && k < MAX_GROUPS && groups[k].inUse
      modifies groups, this`pages, this`own, pmm`freePages, pmm.bitmap
      ensures Core() && pmm.freePages + pages == old(pmm.freePages + pages)
      ensures own == old(own) - Span(GroupOf(old(groups[k])))
      ensures groups[..] == old(groups[..])[k := old(groups[k]).(inUse := false)]
    {
      hide TableOk, Held, Span, Pmm.Allocator.Used, ClearCount, Fill, UsedRun;
      ghost var slots := groups[..];
      ghost var g := GroupOf(groups[k]);
      SlotFacts(slots, k, own, off);
      HeldReleases(own, pmm.Used(), g);
      TableReleases(slots, k, own, off);
      FillCount(pmm.Used(), g.page, g.npages, false);
      pmm.FreePages(groups[k].phys, groups[k].npages);
      assert groups[..] == slots;
      pages := pages - groups[k].npages;
      groups[k] := groups[k].(inUse := false);
      assert groups[..] == slots[k := slots[k].(inUse := false)];
      own := own - Span(g);
    }

    /** The release loop of heap_try_reclaim. */
    method ReleaseAll(idx: seq<nat>)
      requires Core() && (forall i :: 0 <= i < |idx| ==> idx[i] < MAX_GROUPS && groups[idx[i]].inUse)
      requires forall i, j :: 0 <= i < j < |idx| ==> idx[i] < idx[j]
      modifies groups, this`pages, this`own, pmm`freePages, pmm.bitmap
      ensures Core() && pmm.freePages + pages == old(pmm.freePages + pages)
      ensures own == old(own) - Spans(GroupsAt(old(groups[..]), idx))
    {
      hide Core, Freed, Spans, GroupsAt, Span;
      CoreLength();
      ghost var slots := groups[..];
      NoGroups(slots);
      var j := 0;
      while j < |idx|
        invariant 0 <= j <= |idx| && Core() && pmm.freePages + pages == old(pmm.freePages + pages)
        invariant groups[..] == Freed(slots, idx[..j]) && own == old(own) - Spans(GroupsAt(slots, idx[..j]))
      {
        FreedSnoc(slots, idx, j);
        GroupsSnoc(slots, idx[..j], idx[j]);
        assert idx[..j + 1] == idx[..j] + [idx[j]];
        assert groups[idx[j]] == groups[..][idx[j]] == slots[idx[j]];
        ReleaseSlot(idx[j]);
        j := j + 1;
      }
      assert idx[..j] == idx;
    }

    lemma CoreLength()
      requires Core()
      ensures groups.Length == MAX_GROUPS
    {
    }

    /** heap_try_reclaim: a free block goes, with its pages, exactly when registered groups make it up. */
    method TryReclaim(i: nat) returns (gone: bool)
      requires Valid() && i < |blocks| && !blocks[i].used
      modifies this`blocks, groups, this`pages, this`own, pmm`freePages, pmm.bitmap
      ensures Valid() && pmm.freePages + pages == old(pmm.freePages + pages)
      ensures gone == MadeUp(old(groups[..]), old(blocks[i]))
      ensures !gone ==> blocks == old(blocks) && own == old(own)
      ensures gone ==> Reclaimed(old(blocks), i, old(own), blocks, own, off)
      ensures Allocs(blocks) == old(Allocs(blocks)) && UsedSum(blocks) == old(UsedSum(blocks))
    {
      hide Core, Tiles, UsedSum, Allocs, PageSum, GroupsAt, Spans, Picks, Put, MadeUp;
      CoreLength();
      ghost var slots, b := groups[..], blocks[i];
      var idx, covered := Collect(blocks[i]);
      NoGroups(slots);
      BlockAbove(blocks, i, own, off);
      CoreTable();
      ReclaimTest(slots, b, own, off);
      if |idx| == 0 || covered != End(blocks[i]) - blocks[i].addr {
        return false;
      }
      gone := true;
      ReclaimExact(slots, b, own, off);
      ghost var lost := Spans(Found(slots, b));
      FoundOwned(slots, b, own, off);
      assert own - (own - lost) == lost;
      DropTiles(blocks, i, lost, own, off);
      DropSum(blocks, i);
      PutAllocs(blocks, i, 1, []);
      PutNothing(blocks, i);
      assert forall j :: 0 <= j < |idx| ==> groups[idx[j]] == slots[idx[j]];
      blocks := blocks[..i] + blocks[i + 1..];
      ReleaseAll(idx);
    }

    lemma CoreTable()
      requires Core()
      ensures TableOk(groups[..], own, off)
    {
    }

    /** The block whose payload starts at `ptr`: the header just before it. */
    method HeaderOf(ptr: nat) returns (i: nat)
      requires exists j :: 0 <= j < |blocks| && blocks[j].addr + HEADER == ptr
      ensures i < |blocks| && blocks[i].addr + HEADER == ptr
    {
      i := 0;
      while blocks[i].addr + HEADER != ptr
        invariant i < |blocks| && exists j :: i <= j < |blocks| && blocks[j].addr + HEADER == ptr
        decreases |blocks| - i
      {
        i := i + 1;
      }
    }

    /** A pointer that kfree and krealloc may be given: null, or the payload of a block in the list. */
    ghost predicate Known(ptr: nat)
      reads this`blocks
    {
      ptr == 0 || exists j :: 0 <= j < |blocks| && blocks[j].addr + HEADER == ptr
    }

    /** Clearing the mark and the count of a used block. */
    method Unmark(i: nat)
      requires Valid() && i < |blocks| && blocks[i].used
      modifies this`blocks, this`usedBytes
      ensures Valid() && blocks == old(blocks)[i := old(blocks[i]).(used := false)]
      ensures Allocs(blocks) == old(Allocs(blocks)) - {old(blocks[i])}
      ensures UsedSum(blocks) == old(UsedSum(blocks)) - old(blocks[i]).size
    {
      hide Core, Tiles, UsedSum, Allocs, Laid;
      TilesLaid(blocks, own, off);
      MarkTiles(blocks, i, false, own, off);
      MarkSum(blocks, i, false);
      MarkAllocs(blocks, i);
      blocks := blocks[i := blocks[i].(used := false)];
      if usedBytes >= blocks[i].size {
        usedBytes := usedBytes - blocks[i].size;
      }
    }

    /** kfree: exactly that allocation is gone; a block that is free already is left alone. */
    method Kfree(ptr: nat)
      requires Valid() && Known(ptr)
      modifies this`blocks, this`usedBytes, groups, this`pages, this`own, pmm`freePages, pmm.bitmap
      ensures Valid() && pmm.freePages + pages == old(pmm.freePages + pages)
      ensures Allocs(blocks) == old(Allocs(blocks)) - AllocAt(old(blocks), ptr)
      ensures AllocAt(old(blocks), ptr) == {} ==> blocks == old(blocks)
      ensures forall i :: 0 <= i < |old(blocks)| && old(blocks)[i].addr + HEADER == ptr && old(blocks)[i].used ==>
        GivenBack(old(blocks), old(groups[..]), blocks, i)
    {
      hide Core, Tiles, UsedSum, Allocs, Laid, AllocAt, Coalesced, MadeUp;
      NothingAtZero(blocks);
      if ptr == 0 {
        return;
      }
      var i := HeaderOf(ptr);
      TilesLaid(blocks, own, off);
      AllocAtIs(blocks, i);
      OneHeader(blocks, i);
      if !blocks[i].used {
        return;
      }
      Unmark(i);
      var merged := Coalesce(i);
      var gone := TryReclaim(merged);
    }

    /** The end of krealloc: a new block, the payload copied, and the old block freed. */
    method Relocate(ptr: nat, size: nat, ghost o: Block) returns (r: nat, ghost b: Block)
      requires Valid() && 0 < size < WRAP64 && AllocAt(blocks, ptr) == {o} && o.addr + HEADER == ptr && o.size < size
      requires o in Allocs(blocks)
      modifies this`mem, this`blocks, this`usedBytes, this`overflowed, groups, this`pages, this`own, pmm`freePages,
               pmm.bitmap
      ensures Valid() && pmm.freePages + pages == old(pmm.freePages + pages)
      ensures r == 0 ==> Allocs(blocks) == old(Allocs(blocks)) && mem == old(mem)
      ensures NoWrap(size) ==>
        && (r == 0 <==> NoFit(old(blocks), Round(size)) && NoRun(old(pmm.Used()), PagesFor(Round(size))))
        && (r == 0 ==> blocks == old(blocks))
      ensures r != 0 ==> r != ptr && b !in old(Allocs(blocks)) && r == b.addr + HEADER && b.size >= Round(size)
      ensures r != 0 ==> Allocs(blocks) == old(Allocs(blocks)) + {b} - {o} && Moved(old(mem), ptr, mem, r, {o})
      ensures r != 0 && NoWrap(size) ==> Untouched(old(mem), mem, Allocs(blocks) - {b})
    {
      hide Core, Tiles, UsedSum, Allocs, Laid, AllocAt, Pmm.Allocator.Used, NoRun, Took, TookFirst, GrewAndTook,
           PagesFor, Moved, Untouched, Copied, Round, NoFit, GivenBack;
      CoreSized();
      ghost var was := blocks;
      r, b := Kmalloc(size);
      if r == 0 {
        return;
      }
      TookFacts(was, blocks, old(overflowed), overflowed, b, r, Round(size));
      TilesLaid(blocks, own, off);
      LiveFacts(blocks, o);
      NewElsewhere(blocks, o, b);
      CopyKeeps(blocks, o, b, mem);
      ghost var live := Allocs(blocks);
      var j := HeaderOf(ptr);
      AllocAtIs(blocks, j);
      mem := Copied(mem, r, ptr, blocks[j].size);
      Kfree(ptr);
      if NoWrap(size) {
        UntouchedFewer(old(mem), mem, live - {b}, Allocs(blocks) - {b});
      }
    }

    /** krealloc: in place when the block is big enough, otherwise a new block and the old one freed. */
    method Krealloc(ptr: nat, size: nat) returns (r: nat, ghost b: Block)
      requires Valid() && size < WRAP64 && (ptr == 0 || AllocAt(blocks, ptr) != {})
      modifies this`mem, this`blocks, this`usedBytes, this`overflowed, groups, this`pages, this`own, pmm`freePages,
               pmm.bitmap
      ensures Valid() && pmm.freePages + pages == old(pmm.freePages + pages)
      ensures ptr == 0 && r == 0 ==> Allocs(blocks) == old(Allocs(blocks))
      ensures ptr != 0 && size == 0 ==> r == 0 && Allocs(blocks) == old(Allocs(blocks)) - AllocAt(old(blocks), ptr)
      ensures ptr != 0 && size > 0 && Roomy(old(blocks), ptr, size) ==> r == ptr && blocks == old(blocks)
      ensures r == ptr != 0 ==> Roomy(old(blocks), ptr, size)
      ensures ptr != 0 && size > 0 && r == 0 ==> Allocs(blocks) == old(Allocs(blocks))
      ensures NoWrap(size) && (ptr == 0 || (size > 0 && !Roomy(old(blocks), ptr, size))) ==>
        && (r == 0 <==> size == 0 || (NoFit(old(blocks), Round(size)) && NoRun(old(pmm.Used()), PagesFor(Round(size)))))
        && (r == 0 ==> blocks == old(blocks))
      ensures r != 0 && r != ptr ==>
        size != 0 && b !in old(Allocs(blocks)) && r == b.addr + HEADER && b.size >= Round(size)
      ensures r != 0 && r != ptr ==> Allocs(blocks) == old(Allocs(blocks)) + {b} - AllocAt(old(blocks), ptr)
      ensures r != 0 && ptr != 0 ==> Moved(old(mem), ptr, mem, r, AllocAt(old(blocks), ptr))
      ensures NoWrap(size) ==> Untouched(old(mem), mem, Allocs(blocks) - {b})
    {
      hide Core, Tiles, UsedSum, Allocs, Laid, AllocAt, Pmm.Allocator.Used, NoRun, Took, TookFirst, GrewAndTook,
           PagesFor, Moved, Untouched, Round, NoFit, Roomy, GivenBack;
      CoreSized();
      NothingAtZero(blocks);
      NothingKept(mem);
      if ptr == 0 {
        ghost var was := blocks;
        r, b := Kmalloc(size);
        if r != 0 {
          TookFacts(was, blocks, old(overflowed), overflowed, b, r, Round(size));
        }
        return;
      }
      ghost var o := LiveAt(blocks, ptr);
      TilesLaid(blocks, own, off);
      LiveFacts(blocks, o);
      RoomyIs(blocks, o, ptr, size);
      if size == 0 {
        Kfree(ptr);
        return 0, Block(0, 0, false);
      }
      var i := HeaderOf(ptr);
      AllocAtIs(blocks, i);
      if blocks[i].size >= size {
        return ptr, blocks[i];
      }
      r, b := Relocate(ptr, size, o);
    }
  }

  lemma GrowAllocs(bs: seq<Block>, b: Block)
    requires !b.used
    ensures Allocs(bs + [b]) == Allocs(bs)
  {
    AllocsSplit(bs, [b]);
    assert Allocs([b]) == {};
  }

  /** Splitting a free block and marking it is what handing it out means. */
  lemma SplitTaken(bs: seq<Block>, i: nat, size: nat)
    requires i < |bs| && Fits(bs[i], size)
    ensures
      var s := Split(bs, i, size);
      s[i].size < size + 48 && TakenAt(bs, s[i := s[i].(used := true)], i, size)
  {
    var s := Split(bs, i, size);
    var r := s[i := s[i].(used := true)];
    if bs[i].size >= size + 48 {
      var rest := Block(bs[i].addr + HEADER + size, bs[i].size - size - HEADER, false);
      assert s == bs[..i] + [bs[i].(size := size), rest] + bs[i + 1..];
    }
  }

  lemma JoinedAlone(bs: seq<Block>, i: nat)
    requires i < |bs| && !bs[i].used
    ensures Joined(bs, bs, i, i + 1)
  {
  }

  lemma SplitAllocs(bs: seq<Block>, i: nat, size: nat)
    requires i < |bs| && !bs[i].used && size <= bs[i].size
    ensures Allocs(Split(bs, i, size)) == Allocs(bs)
  {
    hide Allocs, Put;
    var b := bs[i];
    if b.size >= size + MIN_SPLIT {
      PutAllocs(bs, i, 1, [b.(size := size), Block(b.addr + HEADER + size, b.size - size - HEADER, false)]);
    }
  }

  lemma MergeAllocs(bs: seq<Block>, i: nat)
    requires i + 1 < |bs| && !bs[i].used && !bs[i + 1].used
    ensures Allocs(Merge(bs, i)) == Allocs(bs)
  {
    hide Allocs, Put;
    PutAllocs(bs, i, 2, [bs[i].(size := bs[i].size + HEADER + bs[i + 1].size)]);
  }

  lemma TilesLaid(bs: seq<Block>, own: set<nat>, off: nat)
    requires Tiles(bs, own, off)
    ensures Laid(bs)
  {
  }

  /** Two blocks handed out: payloads do not overlap, start on sixteen bytes and lie in owned pages. */
  lemma PayloadsApart(bs: seq<Block>, own: set<nat>, off: nat, b: Block, c: Block)
    requires Tiles(bs, own, off) && b in Allocs(bs) && c in Allocs(bs)
    ensures (b.addr + HEADER) % 16 == 0 && forall a: nat :: b.addr + HEADER <= a < End(b) ==> Owned(own, off, a)
    ensures b != c ==> End(b) <= c.addr || End(c) <= b.addr
  {
    hide Owned;
    var i :| 0 <= i < |bs| && bs[i] == b;
    var j :| 0 <= j < |bs| && bs[j] == c;
    forall a: nat | b.addr + HEADER <= a < End(b)
      ensures Owned(own, off, a)
    {
      assert Within(bs[i], a);
      assert Covers(bs, a);
    }
  }

  lemma NoGroups(slots: seq<Slot>)
    ensures GroupsAt(slots, []) == [] && PageSum([]) == 0 && Spans([]) == {} && Freed(slots, []) == slots
  {
  }

  lemma PutNothing(bs: seq<Block>, i: nat)
    requires i < |bs|
    ensures Put(bs, i, 1, []) == bs[..i] + bs[i + 1..]
  {
  }

  lemma SlotFacts(slots: seq<Slot>, k: nat, own: set<nat>, off: nat)
    requires TableOk(slots, own, off) && k < |slots| && slots[k].inUse
    ensures SlotOk(slots[k], own, off)
  {
  }

  lemma BlockAbove(bs: seq<Block>, i: nat, own: set<nat>, off: nat)
    requires Tiles(bs, own, off) && i < |bs|
    ensures bs[i].addr >= off
  {
    assert Within(bs[i], bs[i].addr);
    assert Covers(bs, bs[i].addr);
  }

  lemma FoundOwned(slots: seq<Slot>, b: Block, own: set<nat>, off: nat)
    requires TableOk(slots, own, off)
    ensures Spans(Found(slots, b)) <= own
  {
    hide Span, Spans, Picks;
    var gs := Found(slots, b);
    forall p | p in Spans(gs)
      ensures p in own
    {
      InSpans(gs, p);
    }
  }

  lemma NothingAtZero(bs: seq<Block>)
    ensures AllocAt(bs, 0) == {}
  {
  }

  lemma AllocAtIs(bs: seq<Block>, i: nat)
    requires Laid(bs) && i < |bs|
    ensures AllocAt(bs, bs[i].addr + HEADER) == if bs[i].used then {bs[i]} else {}
  {
    forall b | b in Allocs(bs) && b.addr == bs[i].addr
      ensures b == bs[i]
    {
      var j :| 0 <= j < |bs| && bs[j] == b;
    }
  }

  lemma LiveAt(bs: seq<Block>, ptr: nat) returns (o: Block)
    requires AllocAt(bs, ptr) != {}
    ensures o in Allocs(bs) && o.addr + HEADER == ptr
  {
    o :| o in AllocAt(bs, ptr);
  }

  lemma LiveFacts(bs: seq<Block>, o: Block)
    requires Laid(bs) && o in Allocs(bs)
    ensures AllocAt(bs, o.addr + HEADER) == {o}
    ensures exists j :: 0 <= j < |bs| && bs[j].addr + HEADER == o.addr + HEADER
  {
    var j :| 0 <= j < |bs| && bs[j] == o;
    AllocAtIs(bs, j);
  }

  lemma NewElsewhere(bs: seq<Block>, o: Block, b: Block)
    requires Laid(bs) && o in Allocs(bs) && b in Allocs(bs) && o != b
    ensures o.addr != b.addr
  {
    var i :| 0 <= i < |bs| && bs[i] == o;
    var j :| 0 <= j < |bs| && bs[j] == b;
  }

  lemma WholeIs(phys: nat, n: nat, off: nat)
    requires phys % PAGE == 0 && n > 0
    ensures Whole(Group(phys / PAGE, n), off) == Block(phys + off, n * PAGE - HEADER, false)
  {
  }

  /** No two blocks of the list start at the same address. */
  lemma OneHeader(bs: seq<Block>, i: nat)
    requires Laid(bs) && i < |bs|
    ensures forall j :: 0 <= j < |bs| && bs[j].addr == bs[i].addr ==> j == i
  {
  }

  lemma TookFacts(was: seq<Block>, bs: seq<Block>, o: bool, p: bool, b: Block, ptr: nat, size: nat)
    requires Took(was, bs, o, p, b, ptr, size)
    ensures b !in Allocs(was) && Allocs(bs) == Allocs(was) + {b} && ptr == b.addr + HEADER && b.size >= size
  {
  }

  /** Copying a block's payload into a larger one moves it, and leaves the payloads of the others alone. */
  lemma CopyKeeps(bs: seq<Block>, o: Block, b: Block, mem: nat -> int)
    requires Laid(bs) && o in Allocs(bs) && b in Allocs(bs) && o != b
    ensures var now := Copied(mem, b.addr + HEADER, o.addr + HEADER, o.size);
      && Moved(mem, o.addr + HEADER, now, b.addr + HEADER, {o})
      && (o.size <= b.size ==> Untouched(mem, now, Allocs(bs) - {b}))
  {
    hide Laid;
    var now := Copied(mem, b.addr + HEADER, o.addr + HEADER, o.size);
    forall c | o.size <= b.size && c in Allocs(bs) - {b}
      ensures SameBytes(mem, c.addr + HEADER, now, c.addr + HEADER, c.size)
    {
      AllocsApart(bs, b, c);
    }
  }

  lemma RoomyIs(bs: seq<Block>, o: Block, ptr: nat, size: nat)
    requires AllocAt(bs, ptr) == {o}
    ensures Roomy(bs, ptr, size) <==> o.size >= size
  {
    hide AllocAt;
    assert o in AllocAt(bs, ptr);
  }

  lemma AllocsApart(bs: seq<Block>, b: Block, c: Block)
    requires Laid(bs) && b in Allocs(bs) && c in Allocs(bs) && b != c
    ensures Apart(b, c)
  {
    var i :| 0 <= i < |bs| && bs[i] == b;
    var j :| 0 <= j < |bs| && bs[j] == c;
  }

  lemma UntouchedFewer(was: nat -> int, now: nat -> int, cs: set<Block>, ds: set<Block>)
    requires Untouched(was, now, cs) && ds <= cs
    ensures Untouched(was, now, ds)
  {
    hide SameBytes;
  }

  lemma NothingKept(mem: nat -> int)
    ensures forall cs :: Untouched(mem, mem, cs)
    ensures forall cs, ptr: nat :: Moved(mem, ptr, mem, ptr, cs)
  {
  }

  lemma WholeShape(g: Group, off: nat)
    requires g.npages > 0
    ensures !Whole(g, off).used && Whole(g, off).size == PAGE * g.npages - HEADER
  {
  }
}
