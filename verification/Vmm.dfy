/** kernel/src/mm/vmm.c: page tables updated in place, with tables from the frame allocator.
    A pagemap is named by the frame of its root table; frame 0 stands for a null pointer. */
module Vmm {
  import opened Words
  import opened VmmSpec
  import M = PageMarks
  import Pmm

  /** One page taken from the frame allocator. */
  lemma TakenPage(held: set<nat>, u: M.Marks, p: nat)
    requires M.Held(held, u) && M.LowestRun(u, p, 1)
    ensures p !in held && p != 0 && M.Held(held + {p}, M.Fill(u, p, 1, true))
  {
  }

  /** Pages only became used, and tables were only made of pages that had been free. */
  ghost predicate TookFree(t: Tables, v: Tables, a: M.Marks, b: M.Marks) {
    && |a| == |b| && (forall q :: 0 <= q < |a| && a[q] ==> b[q])
    && (forall f :: f in v && f !in t ==> f < |a| && !a[f])
  }

  lemma TookNone(t: Tables, a: M.Marks)
    ensures TookFree(t, t, a, a)
  {
  }

  lemma TookBoth(t: Tables, v: Tables, w: Tables, a: M.Marks, b: M.Marks, c: M.Marks)
    requires TookFree(t, v, a, b) && TookFree(v, w, b, c)
    ensures TookFree(t, w, a, c)
  {
  }

  lemma TookSameKeys(t: Tables, v: Tables, w: Tables, a: M.Marks, b: M.Marks)
    requires TookFree(t, v, a, b) && v.Keys == w.Keys
    ensures TookFree(t, w, a, b)
  {
    assert forall f :: f in w ==> f in v.Keys;
  }

  lemma TookOne(t: Tables, v: Tables, a: M.Marks, c: nat)
    requires v.Keys == t.Keys + {c} && M.LowestRun(a, c, 1)
    ensures TookFree(t, v, a, M.Fill(a, c, 1, true))
  {
    assert forall f :: f in v ==> f in v.Keys;
  }

  /** Tables were added and nothing else happened. */
  ghost predicate Extended(t: Tables, v: Tables, o: Owners, m: Owners, a: M.Marks, b: M.Marks) {
    SameMaps(t, v, o) && TookFree(t, v, a, b) && forall q :: IsRoot(o, q) ==> IsRoot(m, q)
  }

  lemma ExtendBoth(t: Tables, v: Tables, w: Tables, o: Owners, m: Owners, n: Owners, a: M.Marks, b: M.Marks, c: M.Marks)
    requires Extended(t, v, o, m, a, b) && Extended(v, w, m, n, b, c)
    ensures Extended(t, w, o, n, a, c)
  {
    hide SameMaps, TookFree, IsRoot;
    SameThenSame(t, v, w, o, m);
    TookBoth(t, v, w, a, b, c);
  }

  class Paging {
    var tables: Tables
    ghost var owner: Owners
    const pmm: Pmm.Allocator

    ghost predicate Valid()
      reads this, pmm, pmm.bitmap
    {
      && pmm.Valid() && Tree(tables, owner) && 0 !in tables
      && M.Held(tables.Keys, pmm.Used())
    }

    /** Start from the boot loader's root table, at a frame that is not free. */
    constructor (a: Pmm.Allocator, boot: nat, table: seq<nat>)
      requires a.Valid() && boot != 0 && M.Held({boot}, a.Used()) && |table| == ENTRIES
      requires forall i :: 0 <= i < ENTRIES ==> if i < USER_HALF then table[i] == 0 else !User(table[i])
      ensures Valid() && pmm == a && IsRoot(owner, boot) && forall p: Path :: UserPath(p) ==> Leaf(tables, boot, p) == 0
    {
      pmm, tables, owner := a, map[boot := table], map[boot := Node(boot, [])];
      PlantTree(map[], map[], boot, table);
    }

    /** alloc_table: a page of zeroes. */
    method AllocTable() returns (c: nat)
      requires Valid()
      modifies pmm`freePages, pmm.bitmap
      ensures pmm.Valid()
      ensures c == 0 ==> M.NoRun(pmm.Used(), 1) && pmm.Used() == old(pmm.Used()) && pmm.freePages == old(pmm.freePages)
      ensures c != 0 ==>
        c !in tables && M.Held(tables.Keys + {c}, pmm.Used()) && pmm.freePages == old(pmm.freePages) - 1
      ensures c != 0 ==> M.LowestRun(old(pmm.Used()), c, 1) && pmm.Used() == M.Fill(old(pmm.Used()), c, 1, true)
    {
      hide Tree, M.Fill, M.ClearCount, M.Held, Pmm.Allocator.Used;
      var phys := pmm.AllocPage();
      if phys == 0 {
        return 0;
      }
      c := phys / PAGE;
      TakenPage(tables.Keys, old(pmm.Used()), c);
      M.FillCount(old(pmm.Used()), c, 1, true);
    }

    /** get_or_create: the next table on the way, made if it is missing. No translation changes. */
    method GetOrCreate(f: nat, i: nat, ghost r: nat, ghost p: seq<nat>) returns (child: nat)
      requires Valid() && IsRoot(owner, r) && UserPath(p) && |p| < 3 && Walk(tables, r, p) == At(f) && Usable(p, i)
      modifies this`tables, this`owner, pmm`freePages, pmm.bitmap
      ensures Valid() && SameMaps(old(tables), tables, old(owner))
      ensures forall q :: IsRoot(old(owner), q) ==> IsRoot(owner, q)
      ensures child == 0 ==> M.NoRun(pmm.Used(), 1)
      ensures child != 0 ==> Walk(tables, r, p + [i]) == At(child)
      ensures |tables| + pmm.freePages == old(|tables| + pmm.freePages)
      ensures TookFree(old(tables), tables, old(pmm.Used()), pmm.Used())
    {
      hide Tree, Walk, M.Held, M.NoRun, M.LowestRun, M.Fill, SameMaps, Pmm.Allocator.Used, M.ClearCount, IsRoot,
           TookFree;
      TookNone(tables, pmm.Used());
      EntryFacts(tables, owner, r, p, f, i);
      var e := tables[f][i];
      if e % 2 == 1 {
        SameItself(tables, owner);
        WalkSnoc(tables, r, p, i);
        return e / PAGE;
      }
      child := CreateTable(f, i, r, p);
    }

    /** A new, empty table hooked in at an entry that was not present. */
    method CreateTable(f: nat, i: nat, ghost r: nat, ghost p: seq<nat>) returns (c: nat)
      requires Valid() && IsRoot(owner, r) && UserPath(p) && |p| < 3 && Walk(tables, r, p) == At(f) && Usable(p, i)
      requires f in owner && owner[f] == Node(r, p) && f in tables && |tables[f]| == ENTRIES && !Present(tables[f][i])
      modifies this`tables, this`owner, pmm`freePages, pmm.bitmap
      ensures Valid() && SameMaps(old(tables), tables, old(owner))
      ensures forall q :: IsRoot(old(owner), q) ==> IsRoot(owner, q)
      ensures c == 0 ==> M.NoRun(pmm.Used(), 1)
      ensures c != 0 ==> Walk(tables, r, p + [i]) == At(c)
      ensures |tables| + pmm.freePages == old(|tables| + pmm.freePages)
      ensures TookFree(old(tables), tables, old(pmm.Used()), pmm.Used())
    {
      hide Tree, Walk, M.Held, M.NoRun, M.LowestRun, M.Fill, SameMaps, Pmm.Allocator.Used, M.ClearCount, IsRoot,
           TookFree, Present, UserPath;
      TookNone(tables, pmm.Used());
      SameItself(tables, owner);
      UserPathSnoc(p, i);
      c := AllocTable();
      if c == 0 {
        return;
      }
      OwnersAreTables(tables, owner);
      HookTree(tables, owner, f, i, c);
      HookSame(tables, owner, f, i, c);
      HookWalk(tables, owner, f, i, c, r, p + [i]);
      HookRoots(owner, c, Node(r, p + [i]));
      HookKeys(tables, f, i, c);
      tables := tables[c := seq(ENTRIES, _ => 0)];
      var table: seq<nat> := tables[f][i := PAGE * c + 7];
      tables := tables[f := table];
      owner := owner[c := Node(r, p + [i])];
      TookOne(old(tables), tables, old(pmm.Used()), c);
    }

    /** One level of vmm_map: get_or_create at the path's index `k`. */
    method Descend(f: nat, p: Path, k: nat, ghost r: nat) returns (child: nat)
      requires Valid() && IsRoot(owner, r) && UserPath(p) && k < 3 && Walk(tables, r, p[..k]) == At(f)
      modifies this`tables, this`owner, pmm`freePages, pmm.bitmap
      ensures Valid() && Extended(old(tables), tables, old(owner), owner, old(pmm.Used()), pmm.Used())
      ensures IsRoot(owner, r)
      ensures child == 0 ==> M.NoRun(pmm.Used(), 1)
      ensures child != 0 ==> Walk(tables, r, p[..k + 1]) == At(child)
      ensures |tables| + pmm.freePages == old(|tables| + pmm.freePages)
    {
      hide Tree, Walk, M.Held, M.NoRun, SameMaps, Pmm.Allocator.Used, M.ClearCount, TookFree;
      assert p[..k + 1] == p[..k] + [p[k]];
      child := GetOrCreate(f, p[k], r, p[..k]);
    }

    /** The remaining tables on the way to a page, made where they are missing. */
    method DescendFrom(f: nat, p: Path, k: nat, ghost r: nat) returns (pt: nat)
      requires Valid() && IsRoot(owner, r) && UserPath(p) && k < 3 && Walk(tables, r, p[..k]) == At(f)
      modifies this`tables, this`owner, pmm`freePages, pmm.bitmap
      ensures Valid() && Extended(old(tables), tables, old(owner), owner, old(pmm.Used()), pmm.Used())
      ensures IsRoot(owner, r)
      ensures pt == 0 ==> M.NoRun(pmm.Used(), 1)
      ensures pt != 0 ==> Walk(tables, r, p[..3]) == At(pt)
      ensures |tables| + pmm.freePages == old(|tables| + pmm.freePages)
      decreases 3 - k
    {
      ValidSized();
      hide Valid, Walk, M.NoRun, Extended, Pmm.Allocator.Used, Pmm.Allocator.Sized, UserPath, IsRoot;
      ghost var t, o, a := tables, owner, pmm.Used();
      pt := Descend(f, p, k, r);
      ValidSized();
      if pt != 0 && k < 2 {
        ghost var t1, o1, a1 := tables, owner, pmm.Used();
        pt := DescendFrom(pt, p, k + 1, r);
        ValidSized();
        ExtendBoth(t, t1, tables, o, o1, owner, a, a1, pmm.Used());
      }
    }

    /** vmm_map: exactly that page of that pagemap, or no translation at all. */
    method Map(pm: nat, virt: nat, phys: nat, flags: nat) returns (ok: bool)
      requires Valid() && (pm == 0 || IsRoot(owner, pm)) && UserPath(PathOf(virt / PAGE))
      modifies this`tables, this`owner, pmm`freePages, pmm.bitmap
      ensures Valid() && forall q :: IsRoot(old(owner), q) ==> IsRoot(owner, q)
      ensures ok ==> OnePage(old(tables), tables, old(owner), pm, PathOf(virt / PAGE), MakeEntry(phys, flags))
      ensures !ok ==> SameMaps(old(tables), tables, old(owner)) && (pm == 0 || M.NoRun(pmm.Used(), 1))
      ensures |tables| + pmm.freePages == old(|tables| + pmm.freePages)
      ensures TookFree(old(tables), tables, old(pmm.Used()), pmm.Used())
    {
      hide Tree, Walk, M.Held, M.NoRun, SameMaps, OnePage, Pmm.Allocator.Used, M.ClearCount, MakeEntry, PathOf,
           IsRoot, UserPath, TookFree, Store;
      ghost var t, o := tables, owner;
      TookNone(tables, pmm.Used());
      if pm == 0 {
        SameItself(tables, owner);
        return false;
      }
      var p := PathOf(virt / PAGE);
      WalkRoot(tables, pm, p);
      var pt := DescendFrom(pm, p, 0, pm);
      if pt == 0 {
        return false;
      }
      ghost var t1, o1 := tables, owner;
      ArriveAt(tables, owner, pm, p, pt);
      StoreOnePage(tables, owner, pt, p[3], MakeEntry(phys, flags));
      StoreKeys(tables, pt, p[3], MakeEntry(phys, flags));
      tables := Store(tables, pt, p[3], MakeEntry(phys, flags));
      SameThenOne(t, t1, tables, o, o1, pm, p, MakeEntry(phys, flags));
      TookSameKeys(t, t1, tables, old(pmm.Used()), pmm.Used());
      ok := true;
    }

    /** The three presence tests on the way to a page. */
    method FindTable(pm: nat, p: Path) returns (found: bool, pt: nat)
      requires Valid() && IsRoot(owner, pm) && UserPath(p)
      ensures Walk(tables, pm, p[..3]) == if found then At(pt) else None
    {
      hide Tree, Walk, M.Held, Pmm.Allocator.Used, M.ClearCount, IsRoot, UserPath, Advance;
      WalkRoot(tables, pm, p);
      Onward(tables, owner, pm, p, 0, pm);
      var e1 := tables[pm][p[0]];
      if !(e1 % 2 == 1) {
        return false, 0;
      }
      Onward(tables, owner, pm, p, 1, e1 / PAGE);
      var e2 := tables[e1 / PAGE][p[1]];
      if !(e2 % 2 == 1) {
        return false, 0;
      }
      Onward(tables, owner, pm, p, 2, e2 / PAGE);
      var e3 := tables[e2 / PAGE][p[2]];
      if !(e3 % 2 == 1) {
        return false, 0;
      }
      return true, e3 / PAGE;
    }

    /** vmm_virt_to_phys: the leaf entry above bit 11, whatever else it holds, and the offset. */
    method VirtToPhys(pm: nat, virt: nat) returns (phys: nat)
      requires Valid() && (pm == 0 || IsRoot(owner, pm)) && UserPath(PathOf(virt / PAGE))
      ensures phys == if pm == 0 then 0 else Translation(tables, pm, virt)
    {
      hide Tree, Walk, M.Held, Pmm.Allocator.Used, M.ClearCount, PathOf, IsRoot, UserPath, Leaf;
      if pm == 0 {
        return 0;
      }
      var p := PathOf(virt / PAGE);
      var found, pt := FindTable(pm, p);
      if !found {
        AbsentLeaf(tables, pm, p);
        return 0;
      }
      ArriveAt(tables, owner, pm, p, pt);
      var e := tables[pt][p[3]];
      if !(e % 2 == 1) {
        return 0;
      }
      return (e - e % PAGE) + virt % PAGE;
    }

    /** vmm_unmap: that page is gone, and nothing else. */
    method Unmap(pm: nat, virt: nat)
      requires Valid() && (pm == 0 || IsRoot(owner, pm)) && UserPath(PathOf(virt / PAGE))
      modifies this`tables
      ensures Valid() && |tables| == |old(tables)|
      ensures pm != 0 ==> OnePage(old(tables), tables, owner, pm, PathOf(virt / PAGE), 0)
      ensures pm == 0 ==> tables == old(tables)
    {
      hide Tree, Walk, M.Held, OnePage, Pmm.Allocator.Used, M.ClearCount, PathOf, IsRoot, UserPath, Leaf, SameMaps,
           Store;
      if pm == 0 {
        return;
      }
      var p := PathOf(virt / PAGE);
      var found, pt := FindTable(pm, p);
      if !found {
        AbsentLeaf(tables, pm, p);
        SameIsZero(tables, owner, pm, p);
        return;
      }
      ArriveAt(tables, owner, pm, p, pt);
      StoreOnePage(tables, owner, pt, p[3], 0);
      StoreKeys(tables, pt, p[3], 0);
      tables := Store(tables, pt, p[3], 0);
    }

    /** The body of the loop of vmm_protect. */
    method ProtectPage(pm: nat, p: Path, flags: nat) returns (ok: bool)
      requires Valid() && IsRoot(owner, pm) && UserPath(p)
      modifies this`tables
      ensures Valid() && |tables| == |old(tables)| && ok == Present(old(Leaf(tables, pm, p)))
      ensures ok ==> OnePage(old(tables), tables, owner, pm, p, Reflag(old(Leaf(tables, pm, p)), flags))
      ensures !ok ==> tables == old(tables)
    {
      hide Tree, Walk, M.Held, OnePage, Pmm.Allocator.Used, M.ClearCount, IsRoot, UserPath, Leaf, Store, Reflag;
      var found, pt := FindTable(pm, p);
      if !found {
        AbsentLeaf(tables, pm, p);
        return false;
      }
      ArriveAt(tables, owner, pm, p, pt);
      var e := tables[pt][p[3]];
      if !(e % 2 == 1) {
        return false;
      }
      StoreOnePage(tables, owner, pt, p[3], Reflag(e, flags));
      StoreKeys(tables, pt, p[3], Reflag(e, flags));
      tables := Store(tables, pt, p[3], Reflag(e, flags));
      ok := true;
    }

    /** vmm_protect: page by page up to the first one that is not present. */
    method Protect(pm: nat, virt: nat, len: nat, flags: nat) returns (ok: bool, ghost k: nat)
      requires Valid() && (pm == 0 || IsRoot(owner, pm))
      requires len > 0 ==> virt + len <= WRAP64 && UserRange(virt / PAGE, PageSpan(virt, len))
      modifies this`tables
      ensures Valid() && |tables| == |old(tables)|
      ensures pm == 0 || len == 0 ==> !ok && tables == old(tables)
      ensures pm != 0 && len > 0 ==>
        && (ok <==> forall j :: 0 <= j < PageSpan(virt, len) ==> Present(Leaf(old(tables), pm, PageAt(virt / PAGE, j))))
        && k <= PageSpan(virt, len) && (ok <==> k == PageSpan(virt, len))
        && Rewritten(old(tables), tables, owner, pm, virt / PAGE, k, e => Reflag(e, flags))
    {
      hide Valid, Leaf, UserRange, Rewritten, PathOf, IsRoot, PageAt, Present;
      k := 0;
      if pm == 0 || len == 0 {
        return false, 0;
      }
      ok, k := ProtectPages(pm, virt / PAGE, (virt + len - 1) / PAGE, flags);
    }

    /** The loop of vmm_protect, over page numbers. */
    method ProtectPages(pm: nat, start: nat, end: nat, flags: nat) returns (ok: bool, ghost k: nat)
      requires Valid() && IsRoot(owner, pm) && start <= end && UserRange(start, end - start + 1)
      modifies this`tables
      ensures Valid() && |tables| == |old(tables)|
      ensures ok <==> forall j :: 0 <= j < end - start + 1 ==> Present(Leaf(old(tables), pm, PageAt(start, j)))
      ensures k <= end - start + 1 && (ok <==> k == end - start + 1)
      ensures Rewritten(old(tables), tables, owner, pm, start, k, e => Reflag(e, flags))
    {
      hide Valid, Leaf, UserRange, Rewritten, PathOf, IsRoot, Reflag, OnePage, Present;
      k := 0;
      var page := start;
      ghost var g, n := (e: nat) => Reflag(e, flags), end - start + 1;
      RewriteNone(tables, owner, pm, start, g);
      while true
        invariant Valid() && |tables| == |old(tables)| && page == start + k && k < n
        invariant Rewritten(old(tables), tables, owner, pm, start, k, g)
        invariant forall j :: 0 <= j < k ==> Present(Leaf(old(tables), pm, PageAt(start, j)))
        decreases n - k
      {
        NotYet(old(tables), tables, owner, pm, start, n, k, g);
        ghost var u := tables;
        ok := ProtectPage(pm, PathOf(page), flags);
        if !ok {
          return;
        }
        RewriteMore(old(tables), u, tables, owner, pm, start, n, k, g);
        k := k + 1;
        if page == end {
          break;
        }
        page := page + 1;
      }
    }

    /** The four tests of vmm_check_user_range for one page. */
    method CheckPage(pm: nat, p: Path, write: bool) returns (ok: bool)
      requires Valid() && IsRoot(owner, pm) && forall k :: 0 <= k < 4 ==> p[k] < ENTRIES
      ensures ok <==> UserPage(tables, pm, p, write)
    {
      hide Tree, Walk, M.Held, Pmm.Allocator.Used, M.ClearCount, Leaf, Advance, IsRoot;
      RootEntry(tables, owner, pm, p);
      var e1 := tables[pm][p[0]];
      if !(e1 % 2 == 1) || !(e1 / 4 % 2 == 1) {
        return false;
      }
      WalkRoot(tables, pm, p);
      Onward(tables, owner, pm, p, 0, pm);
      Onward(tables, owner, pm, p, 1, e1 / PAGE);
      var e2 := tables[e1 / PAGE][p[1]];
      if !(e2 % 2 == 1) || !(e2 / 4 % 2 == 1) {
        AbsentLeaf(tables, pm, p);
        return false;
      }
      Onward(tables, owner, pm, p, 2, e2 / PAGE);
      var e3 := tables[e2 / PAGE][p[2]];
      if !(e3 % 2 == 1) || !(e3 / 4 % 2 == 1) {
        AbsentLeaf(tables, pm, p);
        return false;
      }
      var pt := e3 / PAGE;
      ArriveAt(tables, owner, pm, p, pt);
      var e4 := tables[pt][p[3]];
      ok := e4 % 2 == 1 && e4 / 4 % 2 == 1 && (write ==> e4 / 2 % 2 == 1);
    }

    /** vmm_check_user_range: for every address and length, wrapping or not. */
    method CheckUserRange(pm: nat, virt: nat, len: nat, write: bool) returns (ok: bool)
      requires Valid() && (pm == 0 || IsRoot(owner, pm)) && virt < WRAP64 && len < WRAP64
      ensures ok <==>
        && pm != 0 && len > 0 && virt + len < WRAP64
        && forall j :: 0 <= j < PageSpan(virt, len) ==> UserPage(tables, pm, PageAt(virt / PAGE, j), write)
    {
      hide Valid, UserPage, IsRoot;
      if pm == 0 || len == 0 {
        return false;
      }
      if (virt + len) % WRAP64 < virt {
        return false;
      }
      var page, end := virt / PAGE, (virt + len - 1) / PAGE;
      ghost var start, n, k := page, PageSpan(virt, len), 0;
      hide PathOf;
      while true
        invariant page == start + k && 0 <= k < n && end == start + n - 1
        invariant forall j :: 0 <= j < k ==> UserPage(tables, pm, PageAt(start, j), write)
        decreases n - k
      {
        ok := CheckPage(pm, PathOf(page), write);
        if !ok {
          assert !UserPage(tables, pm, PageAt(start, k), write);
          return false;
        }
        k := k + 1;
        if page == end {
          break;
        }
        page := page + 1;
      }
      ok := true;
    }

    /** The body of the loop of vmm_unmap_range. */
    method UnmapPage(pm: nat, p: Path, free: bool)
      requires Valid() && IsRoot(owner, pm) && UserPath(p)
      requires free && Present(Leaf(tables, pm, p)) ==> FrameOf(Leaf(tables, pm, p)) / PAGE !in tables
      modifies this`tables, pmm`freePages, pmm.bitmap
      ensures Valid() && tables.Keys == old(tables).Keys
      ensures OnePage(old(tables), tables, owner, pm, p, Gone(old(Leaf(tables, pm, p))))
      ensures pmm.Used() ==
        (if free && Present(old(Leaf(tables, pm, p)))
           then M.Fill(old(pmm.Used()), FrameOf(old(Leaf(tables, pm, p))) / PAGE, 1, false)
         else old(pmm.Used()))
    {
      hide Tree, Walk, M.Held, OnePage, Pmm.Allocator.Used, M.ClearCount, IsRoot, UserPath, Leaf, Store, FrameOf,
           M.Fill;
      var found, pt := FindTable(pm, p);
      SameIsSelf(tables, owner, pm, p);
      if !found {
        AbsentLeaf(tables, pm, p);
        return;
      }
      ArriveAt(tables, owner, pm, p, pt);
      var e := tables[pt][p[3]];
      if e % 2 == 1 {
        StoreOnePage(tables, owner, pt, p[3], 0);
        StoreKeys(tables, pt, p[3], 0);
        if free {
          HeldElsewhere(tables.Keys, pmm.Used(), FrameOf(e) / PAGE);
          pmm.FreePage(FrameOf(e));
        }
        tables := Store(tables, pt, p[3], 0);
      }
    }

    /** vmm_unmap_range: every page of the range is gone, and its frame free if that was asked for. */
    method UnmapRange(pm: nat, virt: nat, len: nat, free: bool)
      requires Valid() && (pm == 0 || IsRoot(owner, pm))
      requires len > 0 ==> virt + len <= WRAP64 && UserRange(virt / PAGE, PageSpan(virt, len))
      requires free && pm != 0 && len > 0 ==> forall j :: 0 <= j < PageSpan(virt, len) ==>
        DataLeaf(tables, Leaf(tables, pm, PageAt(virt / PAGE, j)))
      modifies this`tables, pmm`freePages, pmm.bitmap
      ensures Valid() && tables.Keys == old(tables).Keys
      ensures pm == 0 || len == 0 ==> tables == old(tables) && pmm.Used() == old(pmm.Used())
      ensures pm != 0 && len > 0 ==>
        && Rewritten(old(tables), tables, owner, pm, virt / PAGE, PageSpan(virt, len), Gone)
        && Cleared(old(tables), tables, pm, virt / PAGE, PageSpan(virt, len))
        && (forall a: nat :: virt <= a < virt + len ==> Translation(tables, pm, a) == 0)
        && if free then Released(old(tables), pm, virt / PAGE, PageSpan(virt, len), old(pmm.Used()), pmm.Used())
          else pmm.Used() == old(pmm.Used())
    {
      hide Valid, Leaf, UserRange, Rewritten, IsRoot, Gone, Pmm.Allocator.Used, Released, DataLeaf, PageAt, Cleared,
           Translation;
      ValidSized();
      if pm == 0 || len == 0 {
        return;
      }
      UnmapPages(pm, virt / PAGE, (virt + len - 1) / PAGE, free);
      GoneIsCleared(old(tables), tables, owner, pm, virt / PAGE, PageSpan(virt, len));
      forall a: nat | virt <= a < virt + len
        ensures Translation(tables, pm, a) == 0
      {
        ClearedAddress(old(tables), tables, pm, virt, len, a);
      }
    }

    /** The loop of vmm_unmap_range, over page numbers. */
    method UnmapPages(pm: nat, start: nat, end: nat, free: bool)
      requires Valid() && IsRoot(owner, pm) && start <= end && UserRange(start, end - start + 1)
      requires free ==> forall j :: 0 <= j < end - start + 1 ==> DataLeaf(tables, Leaf(tables, pm, PageAt(start, j)))
      modifies this`tables, pmm`freePages, pmm.bitmap
      ensures Valid() && tables.Keys == old(tables).Keys
      ensures Unmapped(old(tables), pm, start, end - start + 1, free, old(pmm.Used()))
    {
      hide Valid, Leaf, UserRange, Rewritten, IsRoot, Gone, Pmm.Allocator.Used, Released, DataLeaf, Unmapped, PageAt;
      ValidSized();
      ghost var n, k := end - start + 1, 0;
      var page := start;
      UnmappedNone(pm, start, free);
      while true
        invariant Valid() && tables.Keys == old(tables).Keys && page == start + k && 0 <= k < n
        invariant Unmapped(old(tables), pm, start, k, free, old(pmm.Used()))
        decreases n - k
      {
        assert free ==> DataLeaf(old(tables), Leaf(old(tables), pm, PageAt(start, k)));
        UnmapStep(pm, page, free, old(tables), start, n, k, old(pmm.Used()));
        k := k + 1;
        if page == end {
          break;
        }
        page := page + 1;
      }
    }

    /** How far vmm_unmap_range has come. */
    ghost predicate Unmapped(t: Tables, pm: nat, start: nat, k: nat, free: bool, u: M.Marks)
      reads this, pmm, pmm.bitmap
    {
      && pmm.Sized() && Rewritten(t, tables, owner, pm, start, k, Gone)
      && if free then Released(t, pm, start, k, u, pmm.Used()) else pmm.Used() == u
    }

    lemma UnmappedNone(pm: nat, start: nat, free: bool)
      requires pmm.Sized()
      ensures Unmapped(tables, pm, start, 0, free, pmm.Used())
    {
      hide Rewritten, Pmm.Allocator.Used, Released;
      RewriteNone(tables, owner, pm, start, Gone);
      ReleasedNone(tables, pm, start, pmm.Used());
    }

    method UnmapStep(pm: nat, page: nat, free: bool, ghost t: Tables, ghost start: nat, ghost n: nat, ghost k: nat,
                     ghost u: M.Marks)
      requires Valid() && IsRoot(owner, pm) && UserRange(start, n) && k < n && page == start + k
      requires t.Keys == tables.Keys
      requires Unmapped(t, pm, start, k, free, u) && (free ==> DataLeaf(t, Leaf(t, pm, PageAt(start, k))))
      modifies this`tables, pmm`freePages, pmm.bitmap
      ensures Valid() && tables.Keys == old(tables.Keys) && Unmapped(t, pm, start, k + 1, free, u)
    {
      hide Valid, Leaf, UserRange, Rewritten, PathOf, IsRoot, OnePage, Pmm.Allocator.Used, M.Fill, Released, FrameOf;
      ghost var before, marks := tables, pmm.Used();
      NotYet(t, tables, owner, pm, start, n, k, Gone);
      UnmapPage(pm, PathOf(page), free);
      ValidSized();
      RewriteMore(t, before, tables, owner, pm, start, n, k, Gone);
      if free {
        ReleasedMore(t, pm, start, k, u, marks, pmm.Used());
      }
    }

    lemma ValidSized()
      requires Valid()
      ensures pmm.Sized()
    {
    }

    /** vmm_create_pagemap: an empty user half, and the kernel half of the active pagemap. */
    method CreatePagemap(active: nat) returns (pm: nat)
      requires Valid() && IsRoot(owner, active)
      modifies this`tables, this`owner, pmm`freePages, pmm.bitmap
      ensures Valid() && (forall q :: IsRoot(old(owner), q) ==> IsRoot(owner, q))
      ensures SameMaps(old(tables), tables, old(owner))
      ensures pm == 0 ==> M.NoRun(pmm.Used(), 1) && tables == old(tables)
      ensures pm != 0 ==> IsRoot(owner, pm) && !IsRoot(old(owner), pm) && forall p: Path :: UserPath(p) ==>
        Leaf(tables, pm, p) == 0
      ensures pm != 0 ==> forall i :: USER_HALF <= i < ENTRIES ==> Entry(tables, pm, i) == Entry(tables, active, i)
    {
      hide Tree, M.Held, M.NoRun, SameMaps, Pmm.Allocator.Used, M.ClearCount, Leaf;
      RootTable(tables, owner, active);
      OwnersAreTables(tables, owner);
      var c := AllocTable();
      if c == 0 {
        SameItself(tables, owner);
        return 0;
      }
      var table: seq<nat> := seq(ENTRIES, _ => 0);
      for i := USER_HALF to ENTRIES
        invariant |table| == ENTRIES
        invariant forall j :: 0 <= j < USER_HALF ==> table[j] == 0
        invariant forall j :: USER_HALF <= j < i ==> table[j] == tables[active][j]
      {
        table := table[i := tables[active][i]];
      }
      PlantTree(tables, owner, c, table);
      assert tables[c := table].Keys == tables.Keys + {c};
      tables := tables[c := table];
      owner := owner[c := Node(c, [])];
      pm := c;
    }

    /** The innermost loop of vmm_destroy_pagemap, over the entries of one leaf table: exactly the frames that the
        mask finds in its present entries become free. */
    method FreeLeaves(pt: nat)
      requires Valid() && pt in tables && |tables[pt]| == ENTRIES
      modifies pmm`freePages, pmm.bitmap
      ensures pmm.Valid() && |pmm.Used()| == |old(pmm.Used())|
      ensures forall q :: 0 <= q < |pmm.Used()| ==>
        (pmm.Used()[q] <==> old(pmm.Used())[q] && !MaskedIn(tables[pt], ENTRIES, q))
    {
      hide Tree, M.Held, Pmm.Allocator.Used, M.ClearCount, HighPart;
      ghost var u := pmm.Used();
      var l := 0;
      while l < ENTRIES
        invariant 0 <= l <= ENTRIES && pmm.Valid() && |pmm.Used()| == |u|
        invariant forall q :: 0 <= q < |u| ==> (pmm.Used()[q] <==> u[q] && !MaskedIn(tables[pt], l, q))
      {
        MaskedMore(tables[pt], l);
        if tables[pt][l] % 2 == 1 {
          pmm.FreePage(HighPart(tables[pt][l]));
        }
        l := l + 1;
      }
    }

    /** SYS_MPROTECT on the active pagemap: all of the range or nothing. */
    method Mprotect(active: nat, addr: nat, len: nat, prot: nat) returns (rax: int)
      requires Valid() && IsRoot(owner, active) && active != 0 && addr < WRAP64 && len < WRAP64
      modifies this`tables
      ensures Valid()
      ensures rax ==
        (if addr % PAGE != 0 then -22 else if len == 0 || Reachable(old(tables), active, addr, len) then 0 else -12)
      ensures rax != 0 || len == 0 ==> tables == old(tables)
      ensures rax == 0 && len > 0 ==>
        && Rewritten(old(tables), tables, owner, active, addr / PAGE, PageSpan(addr, len),
                     e => Reflag(e, ProtFlags(prot)))
        && Protected(old(tables), tables, active, addr / PAGE, PageSpan(addr, len), prot)
    {
      hide Valid, UserPage, IsRoot, Rewritten, Leaf, Reflag, ProtFlags, Protected;
      if addr % PAGE != 0 {
        return -22;
      }
      if len == 0 {
        return 0;
      }
      var checked := CheckUserRange(active, addr, len, false);
      if !checked {
        return -12;
      }
      ReachablePages(tables, active, addr, len);
      var ok, k := Protect(active, addr, len, ProtFlags(prot));
      if !ok {
        return -12;
      }
      ReflagProtects(old(tables), tables, owner, active, addr / PAGE, PageSpan(addr, len), prot);
      rax := 0;
    }
  }

  /** What the tables say about the entry at which a walk arrives. */
  lemma EntryFacts(t: Tables, owner: Owners, r: nat, p: seq<nat>, f: nat, i: nat)
    requires Tree(t, owner) && IsRoot(owner, r) && UserPath(p) && |p| <= 3 && Walk(t, r, p) == At(f) && Usable(p, i)
    requires 0 !in t
    ensures f in owner && owner[f] == Node(r, p) && f in t && |t[f]| == ENTRIES
    ensures |p| < 3 ==> UserPath(p + [i])
    ensures |p| < 3 && Present(t[f][i]) ==> t[f][i] / PAGE in t && t[f][i] / PAGE != 0 && User(t[f][i])
  {
    hide Walk, User, Entry;
    WalkOwned(t, owner, r, p);
    assert TableOk(t, owner, f);
    hide TableOk, Tree;
    OwnersAreTables(t, owner);
    if |p| < 3 {
      ChildOwned(t, owner, f, i);
    }
  }

  lemma UserPathSnoc(p: seq<nat>, i: nat)
    requires UserPath(p) && Usable(p, i)
    ensures UserPath(p + [i])
  {
  }

  lemma OwnersAreTables(t: Tables, owner: Owners)
    requires Tree(t, owner)
    ensures forall f :: f in owner ==> f in t
  {
    forall f | f in owner
      ensures f in t
    {
      assert TableOk(t, owner, f);
    }
  }

  lemma SameItself(t: Tables, owner: Owners)
    ensures SameMaps(t, t, owner)
  {
  }

  lemma HookRoots(owner: Owners, c: nat, n: Node)
    requires c !in owner
    ensures forall q :: IsRoot(owner, q) ==> IsRoot(owner[c := n], q)
  {
  }

  lemma HookKeys(t: Tables, f: nat, i: nat, c: nat)
    requires f in t && i < |t[f]| && c !in t
    ensures Hook(t, f, i, c).Keys == t.Keys + {c} && |Hook(t, f, i, c)| == |t| + 1
  {
    assert Hook(t, f, i, c).Keys == t.Keys + {c};
    assert |t.Keys + {c}| == |t| + 1;
  }

  lemma WalkRoot(t: Tables, r: nat, p: Path)
    ensures Walk(t, r, p[..0]) == At(r)
  {
  }

  lemma ArriveAt(t: Tables, owner: Owners, r: nat, p: Path, f: nat)
    requires Tree(t, owner) && IsRoot(owner, r) && UserPath(p) && Walk(t, r, p[..3]) == At(f)
    ensures f in owner && owner[f] == Node(r, p[..3]) && f in t && |t[f]| == ENTRIES && p[3] < ENTRIES
    ensures p[..3] + [p[3]] == p
    ensures Leaf(t, r, p) == t[f][p[3]]
  {
    WalkOwned(t, owner, r, p[..3]);
    assert TableOk(t, owner, f);
  }

  lemma StoreKeys(t: Tables, f: nat, i: nat, e: nat)
    requires f in t && i < |t[f]|
    ensures Store(t, f, i, e).Keys == t.Keys && |Store(t, f, i, e)| == |t|
  {
    assert Store(t, f, i, e).Keys == t.Keys;
  }

  /** What the entry at index `k` of a path says about the rest of the walk. */
  lemma Onward(t: Tables, owner: Owners, r: nat, p: Path, k: nat, f: nat)
    requires Tree(t, owner) && IsRoot(owner, r) && UserPath(p) && k < 3 && Walk(t, r, p[..k]) == At(f)
    ensures f in t && |t[f]| == ENTRIES && p[k] < ENTRIES
    ensures Walk(t, r, p[..k + 1]) == if Present(t[f][p[k]]) then At(t[f][p[k]] / PAGE) else None
    ensures Walk(t, r, p[..k + 1]) == None ==> Walk(t, r, p[..3]) == None
    ensures Present(t[f][p[k]]) ==> User(t[f][p[k]])
  {
    hide Tree, Entry, User, Walk;
    var q := p[..k];
    WalkOwned(t, owner, r, q);
    assert p[..k + 1] == q + [p[k]] && Usable(q, p[k]);
    ChildOwned(t, owner, f, p[k]);
    WalkSnoc(t, r, q, p[k]);
    if Walk(t, r, p[..k + 1]) == None {
      NoneStays(t, r, p, k + 1);
    }
  }

  lemma {:induction false} NoneStays(t: Tables, r: nat, p: Path, k: nat)
    requires k <= 3 && Walk(t, r, p[..k]) == None
    ensures Walk(t, r, p[..3]) == None
    decreases 3 - k
  {
    if k < 3 {
      assert p[..k + 1] == p[..k] + [p[k]];
      WalkSnoc(t, r, p[..k], p[k]);
      NoneStays(t, r, p, k + 1);
    }
  }

  lemma AbsentLeaf(t: Tables, r: nat, p: Path)
    requires Walk(t, r, p[..3]) == None
    ensures Leaf(t, r, p) == 0
  {
  }

  lemma SameIsZero(t: Tables, owner: Owners, r: nat, p: Path)
    requires Leaf(t, r, p) == 0
    ensures OnePage(t, t, owner, r, p, 0)
  {
  }

  /** An entry of the root that user code may use leads into the user half. */
  lemma RootEntry(t: Tables, owner: Owners, r: nat, p: Path)
    requires Tree(t, owner) && IsRoot(owner, r) && forall k :: 0 <= k < 4 ==> p[k] < ENTRIES
    ensures r in t && |t[r]| == ENTRIES
    ensures User(t[r][p[0]]) ==> UserPath(p)
    ensures !Present(t[r][p[0]]) ==> Leaf(t, r, p) == 0
    ensures UserPath(p) && Present(t[r][p[0]]) ==> User(t[r][p[0]])
  {
    assert TableOk(t, owner, r);
    WalkRoot(t, r, p);
    if UserPath(p) {
      Onward(t, owner, r, p, 0, r);
    } else {
      assert p[0] >= USER_HALF;
    }
    if !Present(t[r][p[0]]) {
      RootAbsent(t, r, p);
    }
  }

  lemma RootAbsent(t: Tables, r: nat, p: Path)
    requires !Present(Entry(t, r, p[0]))
    ensures Leaf(t, r, p) == 0
  {
    assert p[..1] == [] + [p[0]];
    WalkSnoc(t, r, [], p[0]);
    NoneStays(t, r, p, 1);
  }

  /** The leaf entry that unmapping leaves. */
  function Gone(e: nat): nat { if Present(e) then 0 else e }

  /** No page of the range is present any more; entries that were not present are left alone. */
  ghost predicate Cleared(t: Tables, u: Tables, root: nat, start: nat, n: nat) {
    forall j :: 0 <= j < n ==>
      var was, now := Leaf(t, root, PageAt(start, j)), Leaf(u, root, PageAt(start, j));
      now % 2 == 0 && now == if was % 2 == 1 then 0 else was
  }

  lemma GoneIsCleared(t: Tables, u: Tables, owner: Owners, root: nat, start: nat, n: nat)
    requires Rewritten(t, u, owner, root, start, n, Gone) && UserRange(start, n) && IsRoot(owner, root)
    ensures Cleared(t, u, root, start, n)
  {
    hide Leaf, PageAt, UserPath;
    forall j | 0 <= j < n
      ensures Leaf(u, root, PageAt(start, j)) == Gone(Leaf(t, root, PageAt(start, j)))
    {
      assert UserPath(PageAt(start, j)) && InRange(PageAt(start, j), start, n);
    }
  }

  /** The physical address that vmm_virt_to_phys gives for a virtual one; 0 if the page is not present. */
  function Translation(t: Tables, root: nat, virt: nat): nat {
    var e := Leaf(t, root, PathOf(virt / PAGE));
    if Present(e) then HighPart(e) + virt % PAGE else 0
  }

  lemma ClearedAddress(t: Tables, u: Tables, root: nat, virt: nat, len: nat, a: nat)
    requires len > 0 && Cleared(t, u, root, virt / PAGE, PageSpan(virt, len)) && virt <= a < virt + len
    ensures Translation(u, root, a) == 0
  {
    hide Leaf, PathOf;
    var j := a / PAGE - virt / PAGE;
    assert PageAt(virt / PAGE, j) == PathOf(a / PAGE);
  }

  /** A leaf whose frame is not a page table. */
  ghost predicate DataLeaf(t: Tables, e: nat) { Present(e) ==> FrameOf(e) / PAGE !in t }

  lemma SameIsSelf(t: Tables, owner: Owners, r: nat, p: Path)
    ensures OnePage(t, t, owner, r, p, Leaf(t, r, p))
  {
  }

  lemma HeldElsewhere(held: set<nat>, u: M.Marks, q: nat)
    requires M.Held(held, u) && q !in held
    ensures M.Held(held, M.Fill(u, q, 1, false))
  {
  }

  /** Exactly the frames that the first `n` pages of the range were mapped to have become free. */
  ghost predicate Released(t: Tables, root: nat, start: nat, n: nat, u: M.Marks, v: M.Marks) {
    |v| == |u| && forall q :: 0 <= q < |u| ==> (v[q] <==> u[q] && !Mapped(t, root, start, n, q))
  }

  ghost predicate Mapped(t: Tables, root: nat, start: nat, n: nat, q: nat) {
    exists j :: 0 <= j < n && MappedTo(Leaf(t, root, PageAt(start, j)), q)
  }

  ghost predicate MappedTo(e: nat, q: nat) { Present(e) && FrameOf(e) / PAGE == q }

  lemma ReleasedNone(t: Tables, root: nat, start: nat, u: M.Marks)
    ensures Released(t, root, start, 0, u, u)
  {
  }

  lemma ReleasedMore(t: Tables, root: nat, start: nat, k: nat, u: M.Marks, v: M.Marks, w: M.Marks)
    requires Released(t, root, start, k, u, v)
    requires
      var e := Leaf(t, root, PageAt(start, k));
      w == if Present(e) then M.Fill(v, FrameOf(e) / PAGE, 1, false) else v
    ensures Released(t, root, start, k + 1, u, w)
  {
    hide Leaf, PageAt, FrameOf;
    forall q | 0 <= q < |u|
      ensures w[q] <==> u[q] && !Mapped(t, root, start, k + 1, q)
    {
      MappedGrows(t, root, start, k, q);
    }
  }

  lemma MappedGrows(t: Tables, root: nat, start: nat, k: nat, q: nat)
    ensures Mapped(t, root, start, k + 1, q) <==>
      Mapped(t, root, start, k, q) || MappedTo(Leaf(t, root, PageAt(start, k)), q)
  {
    hide Leaf, PageAt, MappedTo;
  }

  lemma RootTable(t: Tables, owner: Owners, r: nat)
    requires Tree(t, owner) && IsRoot(owner, r)
    ensures r in t && |t[r]| == ENTRIES && forall i :: USER_HALF <= i < ENTRIES ==> !User(t[r][i])
  {
    assert TableOk(t, owner, r);
  }

  /** Every page of the range is open to user code and the range does not wrap. */
  ghost predicate Reachable(t: Tables, root: nat, addr: nat, len: nat)
    requires len > 0
  {
    addr + len < WRAP64 && forall j :: 0 <= j < PageSpan(addr, len) ==> UserPage(t, root, PageAt(addr / PAGE, j), false)
  }

  lemma ReachablePages(t: Tables, root: nat, addr: nat, len: nat)
    requires len > 0 && Reachable(t, root, addr, len)
    ensures UserRange(addr / PAGE, PageSpan(addr, len))
    ensures forall j :: 0 <= j < PageSpan(addr, len) ==> Present(Leaf(t, root, PageAt(addr / PAGE, j)))
  {
    hide Leaf, PageAt;
  }

  /** Present and user, writable for PROT_WRITE, no-execute without PROT_EXEC; the argument is 32 bits wide. */
  function ProtFlags(prot: nat): nat {
    5 + (if prot / 2 % 2 == 1 then 2 else 0) + (if prot / 4 % 2 == 0 then NX else 0)
  }

  /** What a successful SYS_MPROTECT does to a page of its range: same frame, still a present user page, and
      writable and executable as asked. */
  lemma MprotectLeaf(e: nat, prot: nat)
    ensures ProtectedEntry(e, Reflag(e, ProtFlags(prot)), prot)
  {
    hide Reflag, FrameOf, ProtFlags, Present, User, Writable;
    ReflagKeepsFrame(e, ProtFlags(prot));
    LowBits(Reflag(e, ProtFlags(prot)));
    LowBits(ProtFlags(prot));
    ProtBits(prot);
  }

  /** Every page of the range has the frame it had, is a present user page, and can be written if and only if
      bit 1 of `prot` asks for it and executed if and only if bit 2 does. */
  ghost predicate Protected(t: Tables, u: Tables, root: nat, start: nat, n: nat, prot: nat) {
    forall j :: 0 <= j < n ==>
      ProtectedEntry(Leaf(t, root, PageAt(start, j)), Leaf(u, root, PageAt(start, j)), prot)
  }

  ghost predicate ProtectedEntry(was: nat, now: nat, prot: nat) {
    && FrameOf(now) == FrameOf(was) && Present(now) && User(now)
    && (Writable(now) <==> prot / 2 % 2 == 1) && (now / NX % 2 == 0 <==> prot / 4 % 2 == 1)
  }

  lemma ReflagProtects(t: Tables, u: Tables, owner: Owners, root: nat, start: nat, n: nat, prot: nat)
    requires Rewritten(t, u, owner, root, start, n, e => Reflag(e, ProtFlags(prot)))
    requires UserRange(start, n) && IsRoot(owner, root)
    ensures Protected(t, u, root, start, n, prot)
  {
    hide Leaf, PageAt, UserPath, Reflag, ProtFlags, FrameOf, Present, User, Writable;
    forall j | 0 <= j < n
      ensures Leaf(u, root, PageAt(start, j)) == Reflag(Leaf(t, root, PageAt(start, j)), ProtFlags(prot))
    {
      assert UserPath(PageAt(start, j)) && InRange(PageAt(start, j), start, n);
    }
    forall e: nat
      ensures ProtectedEntry(e, Reflag(e, ProtFlags(prot)), prot)
    {
      MprotectLeaf(e, prot);
    }
  }

  lemma ProtBits(prot: nat)
    ensures var f := ProtFlags(prot);
      Present(f) && User(f) && (Writable(f) <==> prot / 2 % 2 == 1) && (f / NX % 2 == 0 <==> prot / 4 % 2 == 1)
  {
    FlagBits(5);
    FlagBits(7);
  }

  lemma FlagBits(l: nat)
    requires l == 5 || l == 7
    ensures Present(l) && User(l) && (Writable(l) <==> l == 7) && l / NX % 2 == 0
    ensures Present(l + NX) && User(l + NX) && (Writable(l + NX) <==> l == 7) && (l + NX) / NX % 2 == 1
  {
  }

  lemma LowBits(e: nat)
    ensures Present(e) == Present(e % PAGE) && User(e) == User(e % PAGE) && Writable(e) == Writable(e % PAGE)
  {
    hide Present, User, Writable;
    assert e == PAGE * (e / PAGE) + e % PAGE;
    LowFlags(e / PAGE, e % PAGE);
  }

  lemma LowFlags(q: nat, l: nat)
    ensures Present(PAGE * q + l) == Present(l)
    ensures User(PAGE * q + l) == User(l)
    ensures Writable(PAGE * q + l) == Writable(l)
  {
    ShiftedBit(2048 * q, l, 1);
    ShiftedBit(1024 * q, l, 2);
    ShiftedBit(512 * q, l, 4);
  }

  /** Adding an even multiple of a power of two leaves the bit below it alone. */
  lemma ShiftedBit(k: nat, l: nat, unit: nat)
    requires unit == 1 || unit == 2 || unit == 4
    ensures (2 * unit * k + l) / unit % 2 == l / unit % 2
  {
    if unit == 1 {
      assert (2 * k + l) % 2 == l % 2;
    } else if unit == 2 {
      assert (4 * k + l) / 2 == 2 * k + l / 2;
    } else {
      assert (8 * k + l) / 4 == 2 * k + l / 4;
    }
  }

  /** An entry under the mask that vmm_virt_to_phys and vmm_destroy_pagemap use: bit 63 stays. */
  function HighPart(e: nat): nat { e - e % PAGE }

  /** For a page mapped by vmm_map the mask gives the frame exactly when the page is executable. */
  lemma HighPartExact(phys: nat, flags: nat)
    requires phys < PHYS_LIMIT
    ensures HighPart(MakeEntry(phys, flags)) == phys - phys % PAGE <==> flags / NX % 2 == 0
    ensures flags / NX % 2 == 1 ==> HighPart(MakeEntry(phys, flags)) == phys - phys % PAGE + NX
  {
    var w := phys - phys % PAGE + flags % PAGE;
    assert phys == PAGE * (phys / PAGE) + phys % PAGE;
    assert w == PAGE * (phys / PAGE) + flags % PAGE;
    assert w < PHYS_LIMIT && (w + NX) % PAGE == w % PAGE;
  }

  /** A page of user data is mapped no-execute, and its translation comes out wrong. */
  lemma HighPartWrong()
    ensures HighPart(MakeEntry(0x20_0000, 7 + NX)) == 0x20_0000 + NX
  {
    HighPartExact(0x20_0000, 7 + NX);
  }

  /** One of the first `n` entries is present and names page `q` under the mask. */
  ghost predicate MaskedIn(t: seq<nat>, n: nat, q: nat)
    requires n <= |t|
  {
    exists l :: 0 <= l < n && MaskedTo(t[l], q)
  }

  ghost predicate MaskedTo(e: nat, q: nat) { Present(e) && HighPart(e) / PAGE == q }

  lemma MaskedMore(t: seq<nat>, n: nat)
    requires n < |t|
    ensures forall q: nat :: MaskedIn(t, n + 1, q) <==> MaskedIn(t, n, q) || MaskedTo(t[n], q)
  {
    hide MaskedTo;
  }

  /** Through that mask the frame of a page mapped by vmm_map is freed if and only if the page is present and
      executable: the frame of a no-execute page is leaked, and no other frame is freed in its place. */
  lemma HighPartLeaks(phys: nat, flags: nat, q: nat)
    requires phys < PHYS_LIMIT && q < NX / PAGE
    ensures MaskedTo(MakeEntry(phys, flags), q) <==> flags % 2 == 1 && flags / NX % 2 == 0 && q == phys / PAGE
  {
    hide HighPart, MakeEntry;
    HighPartExact(phys, flags);
    MakeEntryReads(phys, flags);
    LowBits(MakeEntry(phys, flags));
    LowBits(flags);
    assert phys - phys % PAGE == PAGE * (phys / PAGE);
  }
}
