/** Page frames as a sequence of used marks: what the bitmap of kernel/src/mm/pmm.c stands for. */
module PageMarks {
  /** Allocation starts at this page, one mebibyte up. */
  const FIRST := 256

  type Marks = seq<bool>

  function ClearCount(u: Marks): (n: nat)
    ensures n <= |u|
  {
    if u == [] then 0 else ClearCount(u[..|u| - 1]) + if u[|u| - 1] then 0 else 1
  }

  /** What is counted: the pages that are not marked. */
  lemma {:induction false} ClearCounted(u: Marks)
    ensures ClearCount(u) == |set p: nat | p < |u| && !u[p]|
  {
    var s := set p: nat | p < |u| && !u[p];
    if u == [] {
      assert s == {};
    } else {
      ClearCounted(u[..|u| - 1]);
      ClearOneMore(u);
    }
  }

  lemma ClearOneMore(u: Marks)
    requires u != []
    ensures var t := u[..|u| - 1];
      |set p: nat | p < |u| && !u[p]| == |set p: nat | p < |t| && !t[p]| + if u[|u| - 1] then 0 else 1
  {
    var n, t := |u| - 1, u[..|u| - 1];
    var less, more := set p: nat | p < |t| && !t[p], set p: nat | p < |u| && !u[p];
    assert more == less + if u[n] then {} else {n};
    assert n !in less;
  }

  /** One if the mark is clear. */
  function Clear(b: bool): nat { if b then 0 else 1 }

  lemma {:induction false} ClearCountUpdate(u: Marks, i: nat, b: bool)
    requires i < |u|
    ensures ClearCount(u[i := b]) + Clear(u[i]) == ClearCount(u) + Clear(b)
  {
    var v := u[i := b];
    var n := |u| - 1;
    if i < n {
      ClearCountUpdate(u[..n], i, b);
      assert v[..n] == u[..n][i := b];
    } else {
      assert v[..n] == u[..n];
    }
  }

  /** The marks of `n` pages from `i` on set to `b`, as far as there are pages. */
  function Fill(u: Marks, i: nat, n: nat, b: bool): (r: Marks)
    ensures |r| == |u| && forall k :: 0 <= k < |u| ==> r[k] == if i <= k < i + n then b else u[k]
  {
    seq(|u|, k requires 0 <= k < |u| => if i <= k < i + n then b else u[k])
  }

  lemma FillStep(u: Marks, i: nat, n: nat, b: bool)
    ensures i + n < |u| ==> Fill(u, i, n + 1, b) == Fill(u, i, n, b)[i + n := b]
    ensures i + n >= |u| ==> Fill(u, i, n + 1, b) == Fill(u, i, n, b)
    ensures Fill(u, i, 0, b) == u
  {
  }

  /** `n` pages from `i` on exist and are free. */
  predicate FreeRun(u: Marks, i: nat, n: nat) {
    i + n <= |u| && forall k :: i <= k < i + n ==> !u[k]
  }

  predicate UsedRun(u: Marks, i: nat, n: nat) {
    i + n <= |u| && forall k :: i <= k < i + n ==> u[k]
  }

  /** Taking a free run costs exactly its length, and giving a used run back regains it. */
  lemma {:induction false} FillCount(u: Marks, i: nat, n: nat, b: bool)
    requires if b then FreeRun(u, i, n) else UsedRun(u, i, n)
    ensures ClearCount(Fill(u, i, n, b)) == if b then ClearCount(u) - n else ClearCount(u) + n
    ensures b ==> n <= ClearCount(u)
  {
    hide ClearCount, Fill;
    FillStep(u, i, 0, b);
    if n > 0 {
      FillCount(u, i, n - 1, b);
      FillStep(u, i, n - 1, b);
      ClearCountUpdate(Fill(u, i, n - 1, b), i + n - 1, b);
    }
  }

  /** Freeing any run regains at most its length, and all of it if and only if every page of it was used. */
  lemma {:induction false} FillFrees(u: Marks, i: nat, n: nat)
    requires i + n <= |u|
    ensures ClearCount(u) <= ClearCount(Fill(u, i, n, false)) <= ClearCount(u) + n
    ensures ClearCount(Fill(u, i, n, false)) == ClearCount(u) + n <==> UsedRun(u, i, n)
  {
    hide ClearCount, Fill;
    FillStep(u, i, 0, false);
    if n > 0 {
      FillFrees(u, i, n - 1);
      FillStep(u, i, n - 1, false);
      ClearCountUpdate(Fill(u, i, n - 1, false), i + n - 1, false);
    }
  }

  lemma {:induction false} NoneClear(n: nat)
    ensures ClearCount(seq(n, _ => true)) == 0
  {
    if n > 0 {
      NoneClear(n - 1);
      assert seq(n, _ => true)[..n - 1] == seq(n - 1, _ => true);
    }
  }

  /** Taking a run and giving it back leaves the marks as they were. */
  lemma TakeThenGive(u: Marks, i: nat, n: nat)
    requires FreeRun(u, i, n)
    ensures Fill(Fill(u, i, n, true), i, n, false) == u && UsedRun(Fill(u, i, n, true), i, n)
  {
  }

  /** A client's pages are marked used. */
  ghost predicate Held(own: set<nat>, u: Marks) {
    forall p :: p in own ==> p < |u| && u[p]
  }

  /** `p` is the start of the lowest free run of `n` pages at or above the first page. */
  ghost predicate LowestRun(u: Marks, p: nat, n: nat) {
    FIRST <= p && FreeRun(u, p, n) && forall q :: FIRST <= q < p ==> !FreeRun(u, q, n)
  }

  ghost predicate NoRun(u: Marks, n: nat) {
    forall q :: FIRST <= q ==> !FreeRun(u, q, n)
  }
}

/** The memory map of the boot loader, and the marks that pmm_init makes of it. */
module MemoryMap {
  import opened Words
  import opened PageMarks

  datatype Region = Region(base: nat, length: nat, usable: bool)

  function Pages(r: Region): nat { r.length / PAGE }

  function Start(r: Region): nat { r.base / PAGE }

  predicate Covers(r: Region, p: nat) {
    r.usable && Start(r) <= p < Start(r) + Pages(r)
  }

  /** Usable regions are made of whole pages. */
  predicate Aligned(map_: seq<Region>) {
    forall i :: 0 <= i < |map_| && map_[i].usable ==> map_[i].base % PAGE == 0 && map_[i].length % PAGE == 0
  }

  /** No page lies in two of the first `n` regions. */
  ghost predicate Disjoint(map_: seq<Region>, n: nat)
    requires n <= |map_|
  {
    forall j :: 0 <= j < n ==> Apart(map_, j)
  }

  /** Region `j` shares no page with an earlier one. */
  ghost predicate Apart(map_: seq<Region>, j: nat)
    requires j < |map_|
  {
    forall i, p: nat :: 0 <= i < j && Covers(map_[i], p) ==> !Covers(map_[j], p)
  }

  /** The pages of the first `n` regions, each region counted on its own. */
  function Total(map_: seq<Region>, n: nat): nat
    requires n <= |map_|
  {
    if n == 0 then 0 else Total(map_, n - 1) + if map_[n - 1].usable then Pages(map_[n - 1]) else 0
  }

  /** The marks once the first `n` regions have been opened. */
  function Opened(map_: seq<Region>, n: nat, total: nat): (u: Marks)
    requires n <= |map_|
    ensures |u| == total
  {
    if n == 0 then seq(total, _ => true)
    else if map_[n - 1].usable then Fill(Opened(map_, n - 1, total), Start(map_[n - 1]), Pages(map_[n - 1]), false)
    else Opened(map_, n - 1, total)
  }

  /** A page is free exactly if one of the regions covers it. */
  lemma {:induction false} OpenedAt(map_: seq<Region>, n: nat, total: nat, p: nat)
    requires n <= |map_| && p < total
    ensures !Opened(map_, n, total)[p] <==> exists j :: 0 <= j < n && Covers(map_[j], p)
  {
    if n > 0 {
      OpenedAt(map_, n - 1, total, p);
      if Covers(map_[n - 1], p) {
      } else if !Opened(map_, n, total)[p] {
        var j :| 0 <= j < n - 1 && Covers(map_[j], p);
      }
    }
  }

  /** The next region finds all its pages still marked used if and only if it shares none with an earlier one. */
  lemma NextUnopened(map_: seq<Region>, n: nat, total: nat)
    requires n < |map_| && map_[n].usable && Start(map_[n]) + Pages(map_[n]) <= total
    ensures UsedRun(Opened(map_, n, total), Start(map_[n]), Pages(map_[n])) <==> Apart(map_, n)
  {
    hide Opened;
    var u := Opened(map_, n, total);
    forall p: nat | p < total
      ensures !u[p] <==> exists j :: 0 <= j < n && Covers(map_[j], p)
    {
      OpenedAt(map_, n, total, p);
    }
    if Apart(map_, n) {
      forall p: nat | Start(map_[n]) <= p < Start(map_[n]) + Pages(map_[n])
        ensures u[p]
      {
        assert Covers(map_[n], p);
      }
    } else {
      var i, p: nat :| 0 <= i < n && Covers(map_[i], p) && Covers(map_[n], p);
      assert !u[p];
    }
  }

  /** Counting region by region never misses a free page, and is right if and only if no two regions overlap. */
  lemma {:induction false} TotalCounts(map_: seq<Region>, n: nat, total: nat)
    requires n <= |map_|
    requires forall i :: 0 <= i < |map_| && map_[i].usable ==> Start(map_[i]) + Pages(map_[i]) <= total
    ensures ClearCount(Opened(map_, n, total)) <= Total(map_, n)
    ensures ClearCount(Opened(map_, n, total)) == Total(map_, n) <==> Disjoint(map_, n)
  {
    hide ClearCount, Apart, Fill;
    if n == 0 {
      NoneClear(total);
    } else {
      TotalCounts(map_, n - 1, total);
      if map_[n - 1].usable {
        FillFrees(Opened(map_, n - 1, total), Start(map_[n - 1]), Pages(map_[n - 1]));
        NextUnopened(map_, n - 1, total);
      } else {
        UnusableApart(map_, n - 1);
      }
    }
  }

  lemma UnusableApart(map_: seq<Region>, j: nat)
    requires j < |map_| && !map_[j].usable
    ensures Apart(map_, j)
  {
  }

  /** A region given twice is counted twice. */
  lemma OverlapMiscounts(r: Region, total: nat)
    requires r.usable && Pages(r) > 0 && Start(r) + Pages(r) <= total
    ensures ClearCount(Opened([r, r], 2, total)) < Total([r, r], 2)
  {
    hide Opened, Total, ClearCount;
    TotalCounts([r, r], 2, total);
    assert Covers([r, r][0], Start(r)) && Covers([r, r][1], Start(r));
    assert !Apart([r, r], 1);
  }
}

/** kernel/src/mm/pmm.c: the frame allocator on its bitmap. */
module Pmm {
  import opened Words
  import opened PageMarks
  import opened MemoryMap

  function Bit(b: bv8, k: nat): bool
    requires k < 8
  {
    (b >> k) & 1 == 1
  }

  function SetBit(b: bv8, k: nat): bv8
    requires k < 8
  {
    b | (1 << k)
  }

  function ClearBit(b: bv8, k: nat): bv8
    requires k < 8
  {
    b & !(1 << k)
  }

  /** The eight single-bit values. */
  function Mask(k: nat): bv8
    requires k < 8
  {
    if k == 0 then 1 else if k == 1 then 2 else if k == 2 then 4 else if k == 3 then 8
    else if k == 4 then 16 else if k == 5 then 32 else if k == 6 then 64 else 128
  }

  lemma MaskIsShift(k: nat)
    requires k < 8
    ensures 1 << k == Mask(k)
  {
    if k < 4 {
      assert k == 0 || k == 1 || k == 2 || k == 3;
    } else {
      assert k == 4 || k == 5 || k == 6 || k == 7;
    }
  }

  lemma BitIsMask(b: bv8, k: nat)
    requires k < 8
    ensures Bit(b, k) <==> b & Mask(k) != 0
  {
    if k < 4 {
      assert k == 0 || k == 1 || k == 2 || k == 3;
    } else {
      assert k == 4 || k == 5 || k == 6 || k == 7;
    }
  }

  lemma MasksApart(k: nat, j: nat)
    requires k < 8 && j < 8 && j != k
    ensures Mask(k) & Mask(j) == 0 && Mask(k) != 0
  {
  }

  lemma BitLogic(b: bv8, m: bv8, n: bv8)
    ensures m & n == 0 ==> (b | m) & n == b & n && (b & !m) & n == b & n
    ensures (b | m) & m == m && (b & !m) & m == 0
  {
  }

  /** Setting or clearing a bit does that, and leaves the other seven alone. */
  lemma BitsChanged(b: bv8, k: nat, j: nat)
    requires k < 8 && j < 8
    ensures Bit(SetBit(b, k), j) == (j == k || Bit(b, j))
    ensures Bit(ClearBit(b, k), j) == (j != k && Bit(b, j))
  {
    hide Bit, Mask;
    MaskIsShift(k);
    BitIsMask(b, j);
    BitIsMask(SetBit(b, k), j);
    BitIsMask(ClearBit(b, k), j);
    BitLogic(b, Mask(k), Mask(j));
    MasksApart(k, if j != k then j else if k == 0 then 1 else 0);
  }

  /** The marks that the bytes of a bitmap hold for pages 0 to n. */
  function MarksOf(bytes: seq<bv8>, n: nat): (u: Marks)
    requires n <= 8 * |bytes|
    ensures |u| == n
  {
    seq(n, p requires 0 <= p < n => Bit(bytes[p / 8], p % 8))
  }

  lemma MarksSet(bytes: seq<bv8>, n: nat, page: nat)
    requires page < n <= 8 * |bytes|
    ensures MarksOf(bytes[page / 8 := SetBit(bytes[page / 8], page % 8)], n) == MarksOf(bytes, n)[page := true]
  {
    hide Bit, SetBit, ClearBit;
    var r := bytes[page / 8 := SetBit(bytes[page / 8], page % 8)];
    forall p | 0 <= p < n
      ensures MarksOf(r, n)[p] == MarksOf(bytes, n)[page := true][p]
    {
      BitsChanged(bytes[p / 8], page % 8, p % 8);
    }
  }

  lemma MarksClear(bytes: seq<bv8>, n: nat, page: nat)
    requires page < n <= 8 * |bytes|
    ensures MarksOf(bytes[page / 8 := ClearBit(bytes[page / 8], page % 8)], n) == MarksOf(bytes, n)[page := false]
  {
    hide Bit, SetBit, ClearBit;
    var r := bytes[page / 8 := ClearBit(bytes[page / 8], page % 8)];
    forall p | 0 <= p < n
      ensures MarksOf(r, n)[p] == MarksOf(bytes, n)[page := false][p]
    {
      BitsChanged(bytes[p / 8], page % 8, p % 8);
    }
  }

  class Allocator {
    var bitmap: array<bv8>
    var totalPages: nat
    var freePages: nat

    ghost predicate Sized()
      reads this`bitmap, this`totalPages
    {
      totalPages <= 8 * bitmap.Length
    }

    /** The free counter is the number of clear bits. */
    ghost predicate Valid()
      reads this, bitmap
    {
      Sized() && freePages == ClearCount(Used())
    }

    ghost function Used(): (u: Marks)
      requires Sized()
      reads this`bitmap, this`totalPages, bitmap
      ensures |u| == totalPages
    {
      MarksOf(bitmap[..], totalPages)
    }

    method BmSet(page: nat)
      requires Sized() && page < totalPages
      modifies bitmap
      ensures Used() == old(Used())[page := true]
    {
      hide MarksOf, SetBit, ClearBit;
      MarksSet(bitmap[..], totalPages, page);
      ghost var bytes := bitmap[..];
      bitmap[page / 8] := SetBit(bitmap[page / 8], page % 8);
      assert bitmap[..] == bytes[page / 8 := SetBit(bytes[page / 8], page % 8)];
    }

    method BmClear(page: nat)
      requires Sized() && page < totalPages
      modifies bitmap
      ensures Used() == old(Used())[page := false]
    {
      hide MarksOf, SetBit, ClearBit;
      MarksClear(bitmap[..], totalPages, page);
      ghost var bytes := bitmap[..];
      bitmap[page / 8] := ClearBit(bitmap[page / 8], page % 8);
      assert bitmap[..] == bytes[page / 8 := ClearBit(bytes[page / 8], page % 8)];
    }

    method BmGet(page: nat) returns (r: bool)
      requires Sized() && page < totalPages
      ensures r == Used()[page]
    {
      r := (bitmap[page / 8] >> (page % 8)) & 1 == 1;
    }

    method FindPage() returns (page: nat)
      requires Sized()
      ensures page < totalPages ==> LowestRun(Used(), page, 1)
      ensures page >= totalPages ==> NoRun(Used(), 1)
    {
      page := FIRST;
      while page < totalPages
        invariant FIRST <= page && forall q :: FIRST <= q < page ==> !FreeRun(Used(), q, 1)
      {
        var used := BmGet(page);
        if !used {
          return;
        }
        page := page + 1;
      }
    }

    /** pmm_alloc_page. */
    method AllocPage() returns (phys: nat)
      requires Valid()
      modifies this`freePages, bitmap
      ensures Valid()
      ensures phys == 0 ==> NoRun(old(Used()), 1) && Used() == old(Used())
      ensures phys != 0 ==>
        phys % PAGE == 0 && LowestRun(old(Used()), phys / PAGE, 1) && Used() == Fill(old(Used()), phys / PAGE, 1, true)
    {
      hide ClearCount, Used, Fill;
      var page := FindPage();
      if page < totalPages {
        FillStep(Used(), page, 0, true);
        ClearCountUpdate(Used(), page, true);
        BmSet(page);
        freePages := freePages - 1;
        return page * PAGE;
      }
      phys := 0;
    }

    /** pmm_free_page: a page that is already free, or does not exist, is left alone. */
    method FreePage(phys: nat)
      requires Valid()
      modifies this`freePages, bitmap
      ensures Valid() && Used() == Fill(old(Used()), phys / PAGE, 1, false)
    {
      hide ClearCount, Used, Fill;
      var page := phys / PAGE;
      FillStep(Used(), page, 0, false);
      FreeIfUsed(page);
    }

    method FreeIfUsed(page: nat)
      requires Valid()
      modifies this`freePages, bitmap
      ensures Valid() && Used() == if page < totalPages then old(Used())[page := false] else old(Used())
    {
      hide ClearCount, Used, Fill;
      if page < totalPages {
        ClearCountUpdate(Used(), page, false);
        var used := BmGet(page);
        if used {
          BmClear(page);
          freePages := freePages + 1;
        }
      }
    }

    /** The inner loop of the search: are the pages free? */
    method RunFree(i: nat, count: nat) returns (free: bool)
      requires Sized() && i + count <= totalPages
      ensures free == FreeRun(Used(), i, count)
    {
      hide Used;
      free := true;
      var j := 0;
      while j < count
        invariant 0 <= j <= count && FreeRun(Used(), i, j)
      {
        var used := BmGet(i + j);
        if used {
          return false;
        }
        j := j + 1;
      }
    }

    method FindRun(count: nat) returns (i: nat)
      requires Sized() && 0 < count <= totalPages
      ensures i + count <= totalPages ==> LowestRun(Used(), i, count)
      ensures i + count > totalPages ==> NoRun(Used(), count)
    {
      hide Used;
      i := FIRST;
      while i <= totalPages - count
        invariant FIRST <= i && forall q :: FIRST <= q < i ==> !FreeRun(Used(), q, count)
      {
        var free := RunFree(i, count);
        if free {
          return;
        }
        i := i + 1;
      }
    }

    method SetRun(i: nat, count: nat)
      requires Sized() && i + count <= totalPages
      modifies bitmap
      ensures Used() == Fill(old(Used()), i, count, true)
    {
      hide Used, Fill;
      ghost var u := Used();
      FillStep(u, i, 0, true);
      var j := 0;
      while j < count
        invariant 0 <= j <= count && Used() == Fill(u, i, j, true)
      {
        FillStep(u, i, j, true);
        BmSet(i + j);
        j := j + 1;
      }
    }

    /** pmm_alloc_pages_contiguous: the lowest free run, and nothing only if there is none. */
    method AllocPages(count: nat) returns (phys: nat)
      requires Valid()
      modifies this`freePages, bitmap
      ensures Valid()
      ensures phys == 0 ==> (count == 0 || NoRun(old(Used()), count)) && Used() == old(Used())
      ensures phys != 0 ==>
        count > 0 && phys % PAGE == 0 && LowestRun(old(Used()), phys / PAGE, count)
        && Used() == Fill(old(Used()), phys / PAGE, count, true)
    {
      hide ClearCount, Used, Fill;
      if count == 0 || count > totalPages {
        return 0;
      }
      var i := FindRun(count);
      if i + count > totalPages {
        return 0;
      }
      FillCount(Used(), i, count, true);
      SetRun(i, count);
      freePages := freePages - count;
      return i * PAGE;
    }

    /** pmm_free_pages: each page that exists and is used becomes free. */
    method FreePages(phys: nat, count: nat)
      requires Valid()
      modifies this`freePages, bitmap
      ensures Valid() && Used() == Fill(old(Used()), phys / PAGE, count, false)
    {
      hide Used, Fill, ClearCount;
      ghost var u := Used();
      var page := phys / PAGE;
      FillStep(u, page, 0, false);
      var j := 0;
      while j < count
        invariant 0 <= j <= count && Valid() && Used() == Fill(u, page, j, false)
      {
        FillStep(u, page, j, false);
        FreeIfUsed(page + j);
        j := j + 1;
      }
    }

    /** The end of the highest usable region. */
    static method Highest(map_: seq<Region>) returns (highest: nat)
      ensures forall i :: 0 <= i < |map_| && map_[i].usable ==> map_[i].base + map_[i].length <= highest
      ensures highest == 0 || exists i :: 0 <= i < |map_| && map_[i].usable && map_[i].base + map_[i].length == highest
    {
      highest := 0;
      for i := 0 to |map_|
        invariant forall j :: 0 <= j < i && map_[j].usable ==> map_[j].base + map_[j].length <= highest
        invariant highest == 0 || exists j :: 0 <= j < i && map_[j].usable && map_[j].base + map_[j].length == highest
      {
        var end := map_[i].base + map_[i].length;
        if map_[i].usable {
          if end > highest {
            highest := end;
          }
        }
      }
    }

    /** The first usable region above one mebibyte with room for the bitmap. */
    static method PlaceBitmap(map_: seq<Region>, bytes: nat) returns (k: nat)
      ensures k < |map_| ==> Roomy(map_[k], bytes) && forall j :: 0 <= j < k ==> !Roomy(map_[j], bytes)
      ensures k >= |map_| ==> forall j :: 0 <= j < |map_| ==> !Roomy(map_[j], bytes)
    {
      k := 0;
      while k < |map_|
        invariant 0 <= k <= |map_| && forall j :: 0 <= j < k ==> !Roomy(map_[j], bytes)
      {
        if map_[k].usable && map_[k].base >= 0x100000 && map_[k].length >= bytes {
          return;
        }
        k := k + 1;
      }
    }

    /** The pages of one region are given out; each adds one to the counter, whatever its mark was. */
    method Open(start: nat, count: nat)
      requires Sized() && start + count <= totalPages
      modifies this`freePages, bitmap
      ensures Used() == Fill(old(Used()), start, count, false) && freePages == old(freePages) + count
    {
      hide Used, Fill;
      ghost var u := Used();
      FillStep(u, start, 0, false);
      var p := 0;
      while p < count
        invariant 0 <= p <= count && Used() == Fill(u, start, p, false) && freePages == old(freePages) + p
      {
        FillStep(u, start, p, false);
        BmClear(start + p);
        freePages := freePages + 1;
        p := p + 1;
      }
    }

    method OpenRegions(map_: seq<Region>)
      requires Sized() && freePages == 0 && Used() == Opened(map_, 0, totalPages)
      requires forall i :: 0 <= i < |map_| && map_[i].usable ==> Start(map_[i]) + Pages(map_[i]) <= totalPages
      modifies this`freePages, bitmap
      ensures Used() == Opened(map_, |map_|, totalPages) && freePages == Total(map_, |map_|)
    {
      hide Used, Fill;
      for i := 0 to |map_|
        invariant Used() == Opened(map_, i, totalPages) && freePages == Total(map_, i)
      {
        if map_[i].usable {
          Open(map_[i].base / PAGE, map_[i].length / PAGE);
        }
      }
    }

    /** The bitmap's own pages are taken out again; the counter follows the marks. */
    method MarkOwn(start: nat, count: nat)
      requires Sized() && ClearCount(Used()) <= freePages && start + count <= totalPages
      modifies this`freePages, bitmap
      ensures Used() == Fill(old(Used()), start, count, true)
      ensures freePages - ClearCount(Used()) == old(freePages - ClearCount(Used()))
    {
      hide Used, Fill, ClearCount;
      ghost var u := Used();
      FillStep(u, start, 0, true);
      var p := 0;
      while p < count
        invariant 0 <= p <= count && Used() == Fill(u, start, p, true)
        invariant freePages - ClearCount(Used()) == old(freePages - ClearCount(Used()))
      {
        FillStep(u, start, p, true);
        ClearCountUpdate(Used(), start + p, true);
        var used := BmGet(start + p);
        if !used {
          BmSet(start + p);
          freePages := freePages - 1;
        }
        p := p + 1;
      }
    }

    /** The marks after start-up: usable pages are free, except those of the bitmap itself. */
    ghost predicate Booted(map_: seq<Region>, k: nat)
      requires k < |map_| && Sized()
      reads this`bitmap, this`totalPages, bitmap
    {
      forall p :: 0 <= p < totalPages ==>
        (!Used()[p] <==>
            (exists j :: 0 <= j < |map_| && Covers(map_[j], p))
            && !(Start(map_[k]) <= p < Start(map_[k]) + OwnPages(totalPages)))
    }

    /** pmm_init. It gives up when no region can take the bitmap. The counter is the number of clear bits if and only
        if no two usable regions overlap. */
    method Init(map_: seq<Region>) returns (k: nat)
      requires Aligned(map_) && freePages == 0
      modifies this
      ensures forall i, p: nat :: 0 <= i < |map_| && Covers(map_[i], p) ==> p < totalPages
      ensures k >= |map_| ==> freePages == 0 && forall j :: 0 <= j < |map_| ==> !Roomy(map_[j], BitmapBytes(totalPages))
      ensures k < |map_| ==> fresh(bitmap) && Sized() && Roomy(map_[k], BitmapBytes(totalPages)) && Booted(map_, k)
      ensures k < |map_| ==> (Valid() <==> Disjoint(map_, |map_|)) && ClearCount(Used()) <= freePages
    {
      var highest := Highest(map_);
      totalPages := highest / PAGE;
      FitsBelow(map_, highest);
      var bytes := (totalPages + 7) / 8;
      k := PlaceBitmap(map_, bytes);
      if k >= |map_| {
        return;
      }
      bitmap := new bv8[bytes];
      Fillup(map_, k);
    }

    /** The second half of pmm_init, on a bitmap of arbitrary contents. */
    method Fillup(map_: seq<Region>, k: nat)
      requires Aligned(map_) && freePages == 0 && Sized() && k < |map_| && Roomy(map_[k], BitmapBytes(totalPages))
      requires forall i :: 0 <= i < |map_| && map_[i].usable ==> Start(map_[i]) + Pages(map_[i]) <= totalPages
      modifies this`freePages, bitmap
      ensures Booted(map_, k) && (Valid() <==> Disjoint(map_, |map_|)) && ClearCount(Used()) <= freePages
    {
      hide Used, ClearCount, Aligned, Opened, Disjoint, Total;
      SetRun(0, totalPages);
      AllUsed(Used(), map_);
      OpenRegions(map_);
      TotalCounts(map_, |map_|, totalPages);
      OwnFits(map_, k, totalPages);
      MarkOwn(map_[k].base / PAGE, (BitmapBytes(totalPages) + PAGE - 1) / PAGE);
      forall p | 0 <= p < totalPages
        ensures !Used()[p] <==>
          (exists j :: 0 <= j < |map_| && Covers(map_[j], p))
          && !(Start(map_[k]) <= p < Start(map_[k]) + OwnPages(totalPages))
      {
        OpenedAt(map_, |map_|, totalPages, p);
      }
    }
  }

  function BitmapBytes(total: nat): nat { (total + 7) / 8 }

  function OwnPages(total: nat): nat { (BitmapBytes(total) + PAGE - 1) / PAGE }

  lemma AllUsed(u: Marks, map_: seq<Region>)
    requires forall i :: 0 <= i < |u| ==> u[i]
    ensures u == Opened(map_, 0, |u|)
  {
  }

  lemma FitsBelow(map_: seq<Region>, highest: nat)
    requires forall i :: 0 <= i < |map_| && map_[i].usable ==> map_[i].base + map_[i].length <= highest
    ensures forall i :: 0 <= i < |map_| && map_[i].usable ==> Start(map_[i]) + Pages(map_[i]) <= highest / PAGE
  {
  }

  lemma OwnFits(map_: seq<Region>, k: nat, total: nat)
    requires Aligned(map_) && k < |map_| && Roomy(map_[k], BitmapBytes(total))
    requires Start(map_[k]) + Pages(map_[k]) <= total
    ensures Start(map_[k]) + OwnPages(total) <= total
  {
  }

  predicate Roomy(r: Region, bytes: nat) { r.usable && r.base >= 0x100000 && r.length >= bytes }
}
