/** What a loaded segment looks like through the page tables (kernel/src/loader/elf_loader.c; "Program Header"
    and "Program Loading", chapter 5 of the System V gABI). */
module ElfSpec {
  import opened Words
  import opened VmmSpec
  import opened Bytes

  datatype Phdr = Phdr(kind: nat, flags: nat, offset: nat, vaddr: nat, filesz: nat, memsz: nat)

  const PT_LOAD := 1
  const PT_INTERP := 3

  /** Contents of the frames that are not page tables. */
  type Data = map<nat, seq<byte>>

  function Low(ph: Phdr, bias: nat): nat { bias + ph.vaddr }

  function FirstPage(ph: Phdr, bias: nat): nat { Low(ph, bias) / PAGE }

  /** How many pages the segment occupies. */
  function PageTotal(ph: Phdr, bias: nat): nat {
    if ph.memsz == 0 then 0 else PageSpan(Low(ph, bias), ph.memsz)
  }

  /** The byte that belongs at address `a` of a segment's pages. */
  function SegByte(file: seq<byte>, ph: Phdr, bias: nat, a: nat): byte {
    if Low(ph, bias) <= a < Low(ph, bias) + ph.filesz && ph.offset + (a - Low(ph, bias)) < |file|
    then file[ph.offset + (a - Low(ph, bias))] else 0
  }

  /** One page of the segment. */
  function Image(file: seq<byte>, ph: Phdr, bias: nat, page: nat): (r: seq<byte>)
    ensures |r| == PAGE && forall x :: 0 <= x < PAGE ==> r[x] == SegByte(file, ph, bias, PAGE * page + x)
  {
    seq<byte>(PAGE, x requires 0 <= x < PAGE => SegByte(file, ph, bias, PAGE * page + x))
  }

  /** The page is mapped with these flags to a frame with these contents. */
  ghost predicate Holds(t: Tables, d: Data, r: nat, p: Path, img: seq<byte>, flags: nat) {
    var e := Leaf(t, r, p);
    && Present(e) && FrameOf(e) / PAGE in d && d[FrameOf(e) / PAGE] == img
    && e % PAGE == flags % PAGE && e / NX % 2 == flags / NX % 2
  }

  /** The user half ends here. */
  const USER_TOP := 0x8000_0000_0000

  lemma PagesBelowTop(a: nat, b: nat)
    requires a < b && b < USER_TOP / PAGE
    ensures UserPath(PathOf(a)) && UserPath(PathOf(b)) && PathOf(a) != PathOf(b)
  {
    BelowTop(a);
    BelowTop(b);
    Digits(a);
    Digits(b);
  }

  lemma BelowTop(a: nat)
    requires a < USER_TOP / PAGE
    ensures UserPath(PathOf(a)) && Window(a) == 0
  {
    var b := a / 512;
    var c := b / 512;
    assert b < 0x400_0000 && c < 0x2_0000 && c / 512 < 256;
  }

  /** Outside `n` pages of one pagemap nothing changed, and old frames keep their contents. */
  ghost predicate Confined(t: Tables, u: Tables, d: Data, f: Data, owner: Owners, root: nat, start: nat, n: nat) {
    && (forall r, p: Path :: IsRoot(owner, r) && UserPath(p) && !(r == root && InRange(p, start, n)) ==>
         Leaf(u, r, p) == Leaf(t, r, p))
    && (forall x :: x in d ==> x in f && f[x] == d[x])
  }

  /** The first `n` pages of the segment are in place. */
  ghost predicate InPlace(t: Tables, d: Data, root: nat, file: seq<byte>, ph: Phdr, bias: nat, n: nat, flags: nat) {
    forall j :: 0 <= j < n ==>
      Holds(t, d, root, PageAt(FirstPage(ph, bias), j), Image(file, ph, bias, FirstPage(ph, bias) + j), flags)
  }

  /** A page that a change stays away from keeps its contents. */
  lemma HoldsKept(t: Tables, u: Tables, d: Data, f: Data, owner: Owners, root: nat, start: nat, n: nat, p: Path,
                  img: seq<byte>, flags: nat)
    requires Confined(t, u, d, f, owner, root, start, n) && IsRoot(owner, root) && UserPath(p) && !InRange(p, start, n)
    requires Holds(t, d, root, p, img, flags)
    ensures Holds(u, f, root, p, img, flags)
  {
    hide Leaf, FrameOf;
  }

  /** Reading a byte through the page tables. */
  ghost function ByteAt(t: Tables, d: Data, root: nat, va: nat): int {
    var e := Leaf(t, root, PathOf(va / PAGE));
    var f := FrameOf(e) / PAGE;
    if Present(e) && f in d && va % PAGE < |d[f]| then d[f][va % PAGE] else -1
  }

  /** Pages in place, byte by byte: the file's bytes on the file part, zero on the rest of every page. */
  lemma InPlaceBytes(t: Tables, d: Data, root: nat, file: seq<byte>, ph: Phdr, bias: nat, flags: nat, va: nat)
    requires InPlace(t, d, root, file, ph, bias, PageTotal(ph, bias), flags)
    requires FirstPage(ph, bias) <= va / PAGE < FirstPage(ph, bias) + PageTotal(ph, bias)
    ensures ByteAt(t, d, root, va) == SegByte(file, ph, bias, va)
  {
    hide Leaf, FrameOf, PathOf, SegByte;
    var j := va / PAGE - FirstPage(ph, bias);
    assert Holds(t, d, root, PageAt(FirstPage(ph, bias), j), Image(file, ph, bias, FirstPage(ph, bias) + j), flags);
  }

  /** How much of the file part lies before page `k` of the segment. */
  function Consumed(ph: Phdr, bias: nat, k: nat): (c: nat)
    ensures c <= ph.filesz
  {
    var gone: int := PAGE * (FirstPage(ph, bias) + k) - Low(ph, bias);
    if k == 0 || gone < 0 then 0 else if gone < ph.filesz then gone else ph.filesz
  }

  /** Where in page `k` the segment's bytes start, and how many of the file's come there. */
  function Offset(ph: Phdr, bias: nat, k: nat): (at: nat)
    ensures at < PAGE
  {
    if k == 0 then Low(ph, bias) % PAGE else 0
  }

  function Chunk(ph: Phdr, bias: nat, k: nat): (n: nat)
    ensures Offset(ph, bias, k) + n <= PAGE
  {
    var left, space := ph.filesz - Consumed(ph, bias, k), PAGE - Offset(ph, bias, k);
    if left < space then left else space
  }

  lemma ConsumedStep(ph: Phdr, bias: nat, k: nat)
    ensures Consumed(ph, bias, k) + Chunk(ph, bias, k) == Consumed(ph, bias, k + 1)
  {
  }

  /** The chunk of page `k`, put at its offset, makes up the page. */
  lemma ChunkIsImage(file: seq<byte>, ph: Phdr, bias: nat, k: nat, x: nat)
    requires x < PAGE
    requires Chunk(ph, bias, k) > 0 ==> ph.offset + Consumed(ph, bias, k) + Chunk(ph, bias, k) <= |file|
    ensures var at, n := Offset(ph, bias, k), Chunk(ph, bias, k);
      SegByte(file, ph, bias, PAGE * (FirstPage(ph, bias) + k) + x) ==
        if at <= x < at + n then file[ph.offset + Consumed(ph, bias, k) + (x - at)] else 0
  {
  }

  /** One page more is in place. */
  lemma OneMoreInPlace(t: Tables, u: Tables, d: Data, f: Data, owner: Owners, root: nat, file: seq<byte>, ph: Phdr,
                       bias: nat, k: nat, flags: nat)
    requires InPlace(t, d, root, file, ph, bias, k, flags) && IsRoot(owner, root)
    requires Confined(t, u, d, f, owner, root, FirstPage(ph, bias) + k, 1) && FirstPage(ph, bias) + k < USER_TOP / PAGE
    requires Holds(u, f, root, PageAt(FirstPage(ph, bias), k), Image(file, ph, bias, FirstPage(ph, bias) + k), flags)
    ensures InPlace(u, f, root, file, ph, bias, k + 1, flags)
  {
    hide PageAt, Holds, Image, FirstPage, UserPath, Confined, InRange, IsRoot;
    var start := FirstPage(ph, bias);
    forall j | 0 <= j < k
      ensures Holds(u, f, root, PageAt(start, j), Image(file, ph, bias, start + j), flags)
    {
      PageElsewhere(start, j, k);
      HoldsKept(t, u, d, f, owner, root, start + k, 1, PageAt(start, j), Image(file, ph, bias, start + j), flags);
    }
  }

  lemma PageElsewhere(start: nat, j: nat, k: nat)
    requires j < k && start + k < USER_TOP / PAGE
    ensures UserPath(PageAt(start, j)) && !InRange(PageAt(start, j), start + k, 1)
  {
    hide PathOf, UserPath;
    PagesBelowTop(start + j, start + k);
    OnlyOne(PageAt(start, j), start + k);
  }

  lemma OnlyOne(p: Path, page: nat)
    ensures InRange(p, page, 1) <==> p == PathOf(page)
  {
    assert PageAt(page, 0) == PathOf(page);
  }

  lemma OnePageConfined(t: Tables, u: Tables, d: Data, f: Data, owner: Owners, root: nat, page: nat, e: nat)
    requires OnePage(t, u, owner, root, PathOf(page), e) && forall x :: x in d ==> x in f && f[x] == d[x]
    ensures Confined(t, u, d, f, owner, root, page, 1)
  {
    hide PathOf, Leaf, UserPath;
    forall r, p: Path | IsRoot(owner, r) && UserPath(p) && !(r == root && InRange(p, page, 1))
      ensures Leaf(u, r, p) == Leaf(t, r, p)
    {
      OnlyOne(p, page);
    }
  }

  lemma ConfinedGrows(t: Tables, u: Tables, v: Tables, d: Data, f: Data, g: Data, o: Owners, m: Owners, root: nat,
                      start: nat, k: nat)
    requires Confined(t, u, d, f, o, root, start, k) && Confined(u, v, f, g, m, root, start + k, 1)
    requires forall q :: IsRoot(o, q) ==> IsRoot(m, q)
    ensures Confined(t, v, d, g, o, root, start, k + 1)
  {
    hide PathOf, Leaf, UserPath, IsRoot, InRange;
    RangeGrows(start, k);
    assert PageAt(start, k) == PathOf(start + k);
    forall r, p: Path | IsRoot(o, r) && UserPath(p) && !(r == root && InRange(p, start, k + 1))
      ensures Leaf(v, r, p) == Leaf(t, r, p)
    {
      OnlyOne(p, start + k);
    }
  }

  lemma ConfinedNone(t: Tables, u: Tables, d: Data, o: Owners, root: nat, start: nat, n: nat)
    requires SameMaps(t, u, o)
    ensures Confined(t, u, d, d, o, root, start, n)
  {
    hide Leaf, UserPath, InRange, IsRoot;
  }

  /** A wider range of pages, and no change after. */
  lemma ConfinedWider(t: Tables, u: Tables, v: Tables, d: Data, f: Data, o: Owners, m: Owners, root: nat, start: nat,
                      k: nat, n: nat)
    requires Confined(t, u, d, f, o, root, start, k) && k <= n && SameMaps(u, v, m)
    requires forall q :: IsRoot(o, q) ==> IsRoot(m, q)
    ensures Confined(t, v, d, f, o, root, start, n)
  {
    hide Leaf, UserPath, IsRoot, PathOf;
    forall r, p: Path | IsRoot(o, r) && UserPath(p) && !(r == root && InRange(p, start, n))
      ensures Leaf(v, r, p) == Leaf(t, r, p)
    {
      RangeWider(p, start, k, n);
    }
  }

  lemma RangeWider(p: Path, start: nat, k: nat, n: nat)
    requires k <= n
    ensures InRange(p, start, k) ==> InRange(p, start, n)
  {
  }
}

/** elf_map_segment and the segment loop of elf_load. The file is a byte string; its bytes are read with
    32-bit offsets. */
module Elf {
  import opened Words
  import opened VmmSpec
  import opened Bytes
  import opened ElfSpec
  import M = PageMarks
  import Pmm
  import Vmm

  /** vfs_read: as many bytes as there are. */
  function ReadFile(file: seq<byte>, off: nat, count: nat): (r: seq<byte>)
    ensures |r| <= count && (off + count <= |file| ==> |r| == count)
    ensures |r| == count > 0 ==> off + count <= |file| && forall i :: 0 <= i < count ==> r[i] == file[off + i]
  {
    if off >= |file| then [] else if off + count <= |file| then file[off..off + count] else file[off..]
  }

  /** elf_segment_flags. */
  function SegmentFlags(flags: nat): nat {
    5 + (if flags / 2 % 2 == 1 then 2 else 0) + (if flags % 2 == 0 then NX else 0)
  }

  /** The pages are present and open to users, writable if and only if bit 1 of the header's flags asks for it, and
      executable if and only if bit 0 does. */
  ghost predicate Grants(e: nat, flags: nat) {
    && Present(e) && User(e)
    && (Writable(e) <==> flags / 2 % 2 == 1)
    && (e / NX % 2 == 0 <==> flags % 2 == 1)
  }

  /** Each right by itself; so write and execute together only if the header asks for both. */
  lemma WriteXorExecute(flags: nat)
    ensures Grants(SegmentFlags(flags), flags)
  {
    Vmm.FlagBits(5);
    Vmm.FlagBits(7);
  }

  /** Every leaf of the segment grants what its header asks for. */
  ghost predicate Granted(t: Tables, root: nat, ph: Phdr, bias: nat) {
    forall j :: 0 <= j < PageTotal(ph, bias) ==> Grants(Leaf(t, root, PageAt(FirstPage(ph, bias), j)), ph.flags)
  }

  lemma InPlaceGranted(t: Tables, d: Data, root: nat, file: seq<byte>, ph: Phdr, bias: nat)
    requires InPlace(t, d, root, file, ph, bias, PageTotal(ph, bias), SegmentFlags(ph.flags))
    ensures Granted(t, root, ph, bias)
  {
    hide Leaf, PageAt, Image, FirstPage, PageTotal, SegmentFlags, Present, User, Writable;
    var f := SegmentFlags(ph.flags);
    WriteXorExecute(ph.flags);
    Vmm.LowBits(f);
    forall j | 0 <= j < PageTotal(ph, bias)
      ensures Grants(Leaf(t, root, PageAt(FirstPage(ph, bias), j)), ph.flags)
    {
      var e := Leaf(t, root, PageAt(FirstPage(ph, bias), j));
      assert Holds(t, d, root, PageAt(FirstPage(ph, bias), j), Image(file, ph, bias, FirstPage(ph, bias) + j), f);
      Vmm.LowBits(e);
    }
  }

  /** The frame allocator has at most one frame left to give. */
  ghost predicate Scarce(u: M.Marks) {
    forall p, q :: M.FIRST <= p < q < |u| ==> u[p] || u[q]
  }

  lemma NoneIsScarce(u: M.Marks, f: nat)
    requires M.NoRun(u, 1)
    ensures Scarce(u) && Scarce(M.Fill(u, f, 1, false))
  {
    forall p | M.FIRST <= p < |u|
      ensures u[p]
    {
      assert !M.FreeRun(u, p, 1);
    }
  }

  /** The frame is marked free, if there is such a frame. */
  ghost predicate Free(pmm: Pmm.Allocator, f: nat)
    reads pmm, pmm.bitmap
  {
    pmm.Sized() && (f < pmm.totalPages ==> !pmm.Used()[f])
  }

  class Loader {
    const vm: Vmm.Paging
    var data: Data

    ghost predicate Valid()
      reads this, vm, vm.pmm, vm.pmm.bitmap
    {
      && vm.Valid() && data.Keys !! vm.tables.Keys && M.Held(data.Keys, vm.pmm.Used())
      && PAGE * vm.pmm.totalPages <= PHYS_LIMIT
    }

    constructor (v: Vmm.Paging)
      requires v.Valid() && PAGE * v.pmm.totalPages <= PHYS_LIMIT
      ensures Valid() && vm == v && data == map[]
    {
      vm, data := v, map[];
    }

    /** The page's contents go to a new frame, which is then mapped; failing that, the frame is given back. */
    method MapPage(pm: nat, page: nat, contents: seq<byte>, flags: nat, phys: nat) returns (ok: bool)
      requires Valid() && IsRoot(vm.owner, pm) && UserPath(PathOf(page)) && flags % 2 == 1
      requires phys % PAGE == 0 && phys < PHYS_LIMIT && phys / PAGE !in data && phys / PAGE !in vm.tables
      requires M.Held({phys / PAGE}, vm.pmm.Used())
      modifies this`data, vm`tables, vm`owner, vm.pmm`freePages, vm.pmm.bitmap
      ensures Valid() && forall q :: IsRoot(old(vm.owner), q) ==> IsRoot(vm.owner, q)
      ensures ok ==>
        OnePage(old(vm.tables), vm.tables, old(vm.owner), pm, PathOf(page), MakeEntry(phys, flags))
        && data == old(data)[phys / PAGE := contents]
      ensures !ok ==>
        SameMaps(old(vm.tables), vm.tables, old(vm.owner)) && data == old(data) && Free(vm.pmm, phys / PAGE)
      ensures !ok ==> Scarce(vm.pmm.Used())
    {
      hide Valid, SameMaps, OnePage, MakeEntry, PathOf, IsRoot, UserPath, M.Held, Free, Pmm.Allocator.Used, M.NoRun,
           M.Fill, Scarce, Pmm.Allocator.Sized;
      ok := MapFrame(pm, page, flags, phys);
      if ok {
        Adopt(phys / PAGE, contents);
      } else {
        ValidSized();
        NoneIsScarce(vm.pmm.Used(), phys / PAGE);
        GiveBack(phys);
      }
    }

    /** vmm_map, as far as the loader's own frames are concerned: they do not become page tables. */
    method MapFrame(pm: nat, page: nat, flags: nat, phys: nat) returns (ok: bool)
      requires Valid() && IsRoot(vm.owner, pm) && UserPath(PathOf(page))
      requires phys / PAGE !in vm.tables && M.Held({phys / PAGE}, vm.pmm.Used())
      modifies vm`tables, vm`owner, vm.pmm`freePages, vm.pmm.bitmap
      ensures Valid() && forall q :: IsRoot(old(vm.owner), q) ==> IsRoot(vm.owner, q)
      ensures phys / PAGE !in vm.tables && M.Held({phys / PAGE}, vm.pmm.Used())
      ensures ok ==> OnePage(old(vm.tables), vm.tables, old(vm.owner), pm, PathOf(page), MakeEntry(phys, flags))
      ensures !ok ==> SameMaps(old(vm.tables), vm.tables, old(vm.owner)) && M.NoRun(vm.pmm.Used(), 1)
    {
      hide SameMaps, OnePage, MakeEntry, PathOf, IsRoot, UserPath, M.NoRun, Pmm.Allocator.Used, Vmm.Paging.Valid,
           Vmm.TookFree, M.Held;
      PmmFacts();
      RootExists(pm);
      ghost var t, a := vm.tables, vm.pmm.Used();
      assert page * PAGE / PAGE == page;
      ok := vm.Map(pm, page * PAGE, phys, flags);
      AfterMap(t, a, phys / PAGE);
    }

    /** The frame's contents are from now on part of the model. */
    method Adopt(f: nat, contents: seq<byte>)
      requires Valid() && f !in vm.tables && M.Held({f}, vm.pmm.Used())
      modifies this`data
      ensures Valid() && data == old(data)[f := contents]
    {
      hide M.Held, Tree, Pmm.Allocator.Used, M.ClearCount;
      HeldBoth(data.Keys, {f}, vm.pmm.Used());
      assert (data[f := contents]).Keys == data.Keys + {f};
      data := data[f := contents];
    }

    lemma ValidSized()
      requires Valid()
      ensures vm.pmm.Sized()
    {
    }

    lemma RootExists(pm: nat)
      requires vm.Valid() && IsRoot(vm.owner, pm)
      ensures pm != 0
    {
      hide Tree;
      Vmm.OwnersAreTables(vm.tables, vm.owner);
    }

    lemma PmmFacts()
      requires vm.Valid()
      ensures vm.pmm.Valid() && vm.pmm.Sized()
    {
    }

    /** Mapping a page keeps the loader's own frames out of the page tables. */
    lemma AfterMap(t: Tables, a: M.Marks, f: nat)
      requires vm.Valid() && PAGE * vm.pmm.totalPages <= PHYS_LIMIT && vm.pmm.Sized()
      requires Vmm.TookFree(t, vm.tables, a, vm.pmm.Used())
      requires data.Keys !! t.Keys && M.Held(data.Keys, a) && f !in t && M.Held({f}, a)
      ensures Valid() && f !in vm.tables && M.Held({f}, vm.pmm.Used())
    {
      hide M.Held, Vmm.Paging.Valid;
      KeepsHeld(t, vm.tables, a, vm.pmm.Used(), data.Keys);
      KeepsHeld(t, vm.tables, a, vm.pmm.Used(), {f});
    }

    /** pmm_free_page for a frame that ended up unused. */
    method GiveBack(phys: nat)
      requires Valid() && phys / PAGE !in data && phys / PAGE !in vm.tables
      modifies vm.pmm`freePages, vm.pmm.bitmap
      ensures Valid() && Free(vm.pmm, phys / PAGE) && vm.pmm.Used() == M.Fill(old(vm.pmm.Used()), phys / PAGE, 1, false)
    {
      hide M.Held, Tree, Pmm.Allocator.Used, M.ClearCount;
      Vmm.HeldElsewhere(vm.tables.Keys, vm.pmm.Used(), phys / PAGE);
      Vmm.HeldElsewhere(data.Keys, vm.pmm.Used(), phys / PAGE);
      vm.pmm.FreePage(phys);
    }

    /** A new frame for one page. */
    method NewFrame() returns (phys: nat)
      requires Valid()
      modifies vm.pmm`freePages, vm.pmm.bitmap
      ensures Valid() && phys % PAGE == 0 && (phys == 0 ==> M.NoRun(vm.pmm.Used(), 1))
      ensures phys != 0 ==>
        phys < PHYS_LIMIT && phys / PAGE !in data && phys / PAGE !in vm.tables && M.Held({phys / PAGE}, vm.pmm.Used())
    {
      hide M.Held, M.Fill, Tree, Pmm.Allocator.Used, M.ClearCount;
      phys := vm.pmm.AllocPage();
      if phys != 0 {
        ghost var f, a := phys / PAGE, old(vm.pmm.Used());
        Vmm.TakenPage(vm.tables.Keys, a, f);
        Vmm.TakenPage(data.Keys, a, f);
        HeldParts(vm.tables.Keys, {f}, vm.pmm.Used());
        HeldParts(data.Keys, {f}, vm.pmm.Used());
        TakenBelow(a, f);
      }
    }

    /** The body of the page loop: `count` bytes of the file, from offset `off`, at offset `at` of the page. */
    method LoadPage(pm: nat, file: seq<byte>, page: nat, at: nat, off: nat, count: nat, flags: nat)
      returns (ok: bool, ghost phys: nat)
      requires Valid() && IsRoot(vm.owner, pm) && UserPath(PathOf(page)) && flags % 2 == 1 && at + count <= PAGE
      modifies this`data, vm`tables, vm`owner, vm.pmm`freePages, vm.pmm.bitmap
      ensures Valid() && forall q :: IsRoot(old(vm.owner), q) ==> IsRoot(vm.owner, q)
      ensures !ok ==> SameMaps(old(vm.tables), vm.tables, old(vm.owner)) && data == old(data)
      ensures ok && count > 0 ==> off % WRAP32 + count <= |file|
      ensures !ok ==> Scarce(vm.pmm.Used()) || (count > 0 && off % WRAP32 + count > |file|)
      ensures ok ==>
        && phys % PAGE == 0 && phys < PHYS_LIMIT && phys / PAGE !in old(data)
        && OnePage(old(vm.tables), vm.tables, old(vm.owner), pm, PathOf(page), MakeEntry(phys, flags))
        && data == old(data)[phys / PAGE := Patch(at, ReadFile(file, off % WRAP32, count))]
    {
      hide Valid, SameMaps, OnePage, MakeEntry, PathOf, IsRoot, UserPath, Patch, M.Held, Scarce, M.NoRun, M.Fill,
           Pmm.Allocator.Used, Pmm.Allocator.Sized;
      Vmm.SameItself(vm.tables, vm.owner);
      var frame := NewFrame();
      phys := frame;
      ValidSized();
      if frame == 0 {
        NoneIsScarce(vm.pmm.Used(), 0);
        return false, 0;
      }
      var contents := Repeat<byte>(0, PAGE);
      PatchNothing(at);
      var bytes := ReadFile(file, off % WRAP32, count);
      if count > 0 {
        if |bytes| != count {
          GiveBack(frame);
          return false, 0;
        }
        contents := Patch(at, bytes);
      }
      ok := MapPage(pm, page, contents, flags, frame);
    }

    /** One round of the page loop, for page `k` of the segment. */
    method SegmentPage(pm: nat, file: seq<byte>, ph: Phdr, bias: nat, k: nat, off: nat, left: nat, flags: nat)
      returns (ok: bool, count: nat)
      requires Valid() && IsRoot(vm.owner, pm) && FirstPage(ph, bias) + k < USER_TOP / PAGE && flags % 2 == 1
      requires off == ph.offset + Consumed(ph, bias, k) && left == ph.filesz - Consumed(ph, bias, k)
      requires ph.offset + ph.filesz <= WRAP32
      modifies this`data, vm`tables, vm`owner, vm.pmm`freePages, vm.pmm.bitmap
      ensures Valid() && (forall q :: IsRoot(old(vm.owner), q) ==> IsRoot(vm.owner, q)) && count == Chunk(ph, bias, k)
      ensures !ok ==> SameMaps(old(vm.tables), vm.tables, old(vm.owner)) && data == old(data)
      ensures ok ==>
        && Confined(old(vm.tables), vm.tables, old(data), data, old(vm.owner), pm, FirstPage(ph, bias) + k, 1)
        && Holds(vm.tables, data, pm, PageAt(FirstPage(ph, bias), k),
                 Image(file, ph, bias, FirstPage(ph, bias) + k), flags)
        && (count > 0 ==> off + count <= |file|)
      ensures !ok ==> Scarce(vm.pmm.Used()) || (count > 0 && off + count > |file|)
    {
      hide Valid, SameMaps, OnePage, MakeEntry, PathOf, IsRoot, UserPath, M.Held, Patch, ReadFile, Confined, Image,
           Holds, Consumed, Scarce, Pmm.Allocator.Used, Pmm.Allocator.Sized;
      var page := FirstPage(ph, bias) + k;
      var start := if k == 0 then Low(ph, bias) - Low(ph, bias) / PAGE * PAGE else 0;
      var space := PAGE - start;
      count := if left < space then left else space;
      BelowTop(page);
      ghost var d := data;
      ghost var phys;
      ok, phys := LoadPage(pm, file, page, start, off, count, flags);
      if ok {
        OnePageConfined(old(vm.tables), vm.tables, d, data, old(vm.owner), pm, page, MakeEntry(phys, flags));
        PatchIsImage(file, ph, bias, k, off % WRAP32);
        NewHolds(old(vm.tables), vm.tables, data, old(vm.owner), pm, page, phys, flags);
      }
    }

    /** elf_map_segment. */
    method MapSegment(pm: nat, file: seq<byte>, ph: Phdr, bias: nat) returns (ok: bool)
      requires Valid() && IsRoot(vm.owner, pm) && SegmentFits(ph, bias)
      modifies this`data, vm`tables, vm`owner, vm.pmm`freePages, vm.pmm.bitmap
      ensures Valid() && forall q :: IsRoot(old(vm.owner), q) ==> IsRoot(vm.owner, q)
      ensures Confined(old(vm.tables), vm.tables, old(data), data, old(vm.owner), pm,
                       FirstPage(ph, bias), PageTotal(ph, bias))
      ensures ok ==> InPlace(vm.tables, data, pm, file, ph, bias, PageTotal(ph, bias), SegmentFlags(ph.flags))
      ensures ok ==> Supplied(ph, file) && Granted(vm.tables, pm, ph, bias)
      ensures !ok ==> !Supplied(ph, file) || Scarce(vm.pmm.Used())
    {
      hide Valid, SameMaps, IsRoot, Confined, InPlace, Consumed, Chunk, Granted, Scarce, Pmm.Allocator.Used,
           Pmm.Allocator.Sized;
      ghost var t, d, o, start, n := vm.tables, data, vm.owner, FirstPage(ph, bias), PageTotal(ph, bias);
      Vmm.SameItself(t, o);
      ConfinedNone(t, t, d, o, pm, start, n);
      ConfinedNone(t, t, d, o, pm, start, 0);
      InPlaceNone(t, d, pm, file, ph, bias, SegmentFlags(ph.flags));
      if ph.memsz == 0 {
        InPlaceGranted(t, d, pm, file, ph, bias);
        return true;
      }
      if ph.filesz > ph.memsz {
        return false;
      }
      LastPage(ph, bias);
      var off, left, flags := ph.offset, ph.filesz, SegmentFlags(ph.flags);
      var k := 0;
      ConsumedNone(ph, bias);
      while Low(ph, bias) / PAGE + k < (Low(ph, bias) + ph.memsz + PAGE - 1) / PAGE
        invariant 0 <= k <= n && Valid() && (forall q :: IsRoot(o, q) ==> IsRoot(vm.owner, q))
        invariant off == ph.offset + Consumed(ph, bias, k) && left == ph.filesz - Consumed(ph, bias, k)
        invariant Consumed(ph, bias, k) > 0 ==> ph.offset + Consumed(ph, bias, k) <= |file|
        invariant Confined(t, vm.tables, d, data, o, pm, start, k)
        invariant InPlace(vm.tables, data, pm, file, ph, bias, k, flags)
      {
        ghost var u, e, m := vm.tables, data, vm.owner;
        var done, count := SegmentPage(pm, file, ph, bias, k, off, left, flags);
        if !done {
          ConfinedWider(t, u, vm.tables, d, data, o, m, pm, start, k, n);
          ChunkBound(ph, bias, k);
          return false;
        }
        ConfinedGrows(t, u, vm.tables, d, e, data, o, m, pm, start, k);
        OneMoreInPlace(u, vm.tables, e, data, m, pm, file, ph, bias, k, flags);
        ConsumedStep(ph, bias, k);
        off, left := off + count, left - count;
        k := k + 1;
      }
      InPlaceGranted(vm.tables, data, pm, file, ph, bias);
      ok := true;
    }

    /** The segment loop of elf_load: afterwards every loadable segment is in place, and `highest` is the
        first page boundary at or above all of them. */
    method LoadSegments(pm: nat, file: seq<byte>, phs: seq<Phdr>, bias: nat) returns (ok: bool, highest: nat)
      requires Valid() && IsRoot(vm.owner, pm) && Separate(phs, bias)
      modifies this`data, vm`tables, vm`owner, vm.pmm`freePages, vm.pmm.bitmap
      ensures Valid() && forall q :: IsRoot(old(vm.owner), q) ==> IsRoot(vm.owner, q)
      ensures ok ==> AllInPlace(vm.tables, data, pm, file, phs, bias, |phs|)
      ensures ok ==> forall i :: 0 <= i < |phs| && phs[i].kind == PT_LOAD ==> Granted(vm.tables, pm, phs[i], bias)
      ensures ok ==> highest % PAGE == 0 && forall i :: 0 <= i < |phs| && phs[i].kind == PT_LOAD ==>
        Low(phs[i], bias) + phs[i].memsz <= highest
      ensures ok ==> highest == 0 || exists i ::
        0 <= i < |phs| && phs[i].kind == PT_LOAD && highest < Low(phs[i], bias) + phs[i].memsz + PAGE
      ensures ok ==> forall i :: 0 <= i < |phs| ==> Loadable(phs[i], file)
      ensures !ok ==> Scarce(vm.pmm.Used()) || exists i :: 0 <= i < |phs| && !Loadable(phs[i], file)
      ensures Elsewhere(old(vm.tables), vm.tables, old(data), data, old(vm.owner), pm, phs, bias, |phs|)
    {
      hide Valid, SameMaps, IsRoot, Confined, InPlace, Separate, SegmentFits, AllInPlace, Elsewhere, Supplied, Granted,
           Scarce, Pmm.Allocator.Used, Pmm.Allocator.Sized, PageTotal;
      ghost var o, t0, d0 := vm.owner, vm.tables, data;
      highest := 0;
      ElsewhereNone(t0, d0, o, pm, phs, bias);
      AllInPlaceNone(vm.tables, data, pm, file, phs, bias);
      for i := 0 to |phs|
        invariant Valid() && forall q :: IsRoot(o, q) ==> IsRoot(vm.owner, q)
        invariant AllInPlace(vm.tables, data, pm, file, phs, bias, i)
        invariant Elsewhere(t0, vm.tables, d0, data, o, pm, phs, bias, i)
        invariant forall j :: 0 <= j < i && phs[j].kind == PT_LOAD ==> Low(phs[j], bias) + phs[j].memsz <= highest
        invariant highest == 0 || exists j ::
          0 <= j < i && phs[j].kind == PT_LOAD && highest == Low(phs[j], bias) + phs[j].memsz
        invariant forall j :: 0 <= j < i ==> Loadable(phs[j], file)
      {
        ghost var t, d, m := vm.tables, data, vm.owner;
        if phs[i].kind == PT_LOAD {
          SeparateFits(phs, bias, i);
          var done := MapSegment(pm, file, phs[i], bias);
          ElsewhereMore(t0, t, vm.tables, d0, d, data, o, m, pm, phs, bias, i);
          if !done {
            ElsewhereWider(t0, vm.tables, d0, data, o, pm, phs, bias, i + 1, |phs|);
            return false, 0;
          }
          AllInPlaceMore(t, vm.tables, d, data, m, pm, file, phs, bias, i);
          var end := bias + phs[i].vaddr + phs[i].memsz;
          if end > highest {
            highest := end;
          }
        } else if phs[i].kind == PT_INTERP {
          ElsewhereWider(t0, vm.tables, d0, data, o, pm, phs, bias, i, |phs|);
          return false, 0;
        } else {
          ElsewhereWider(t0, vm.tables, d0, data, o, pm, phs, bias, i, i + 1);
          AllInPlaceSkip(vm.tables, data, pm, file, phs, bias, i);
        }
      }
      AllGranted(vm.tables, data, pm, file, phs, bias);
      ok, highest := true, (highest + PAGE - 1) / PAGE * PAGE;
    }
  }

  /** A zeroed page with bytes copied to offset `at`. */
  function Patch(at: nat, bytes: seq<byte>): (r: seq<byte>)
    requires at + |bytes| <= PAGE
    ensures |r| == PAGE
    ensures forall x :: 0 <= x < PAGE ==> r[x] == if at <= x < at + |bytes| then bytes[x - at] else 0
  {
    Splice(Repeat<byte>(0, PAGE), at, bytes)
  }

  lemma PatchNothing(at: nat)
    requires at <= PAGE
    ensures Patch(at, []) == Repeat<byte>(0, PAGE)
  {
  }

  lemma HeldParts(h: set<nat>, k: set<nat>, u: M.Marks)
    requires M.Held(h + k, u)
    ensures M.Held(h, u) && M.Held(k, u)
  {
  }

  lemma TakenBelow(a: M.Marks, f: nat)
    requires M.LowestRun(a, f, 1)
    ensures f < |a|
  {
  }

  /** Held pages stay held, and no table is made of them. */
  lemma KeepsHeld(t: Tables, v: Tables, a: M.Marks, b: M.Marks, held: set<nat>)
    requires Vmm.TookFree(t, v, a, b) && M.Held(held, a) && held !! t.Keys
    ensures M.Held(held, b) && held !! v.Keys
  {
    forall f | f in held
      ensures f !in v
    {
    }
  }

  lemma HeldBoth(h: set<nat>, k: set<nat>, u: M.Marks)
    requires M.Held(h, u) && M.Held(k, u)
    ensures M.Held(h + k, u)
  {
  }

  /** A segment of user pages, with file offsets that 32 bits hold. */
  predicate SegmentFits(ph: Phdr, bias: nat) {
    ph.offset + ph.filesz <= WRAP32 && Low(ph, bias) + ph.memsz <= USER_TOP
  }

  /** The file has all the bytes that the segment takes from it. */
  predicate Supplied(ph: Phdr, file: seq<byte>) {
    ph.memsz > 0 ==> ph.filesz <= ph.memsz && (ph.filesz > 0 ==> ph.offset + ph.filesz <= |file|)
  }

  /** A program header that elf_load can serve: no interpreter, and a segment's bytes are in the file. */
  predicate Loadable(ph: Phdr, file: seq<byte>) {
    ph.kind != PT_INTERP && (ph.kind == PT_LOAD ==> Supplied(ph, file))
  }

  lemma PatchIsImage(file: seq<byte>, ph: Phdr, bias: nat, k: nat, off: nat)
    requires Chunk(ph, bias, k) > 0 ==> off == ph.offset + Consumed(ph, bias, k) && off + Chunk(ph, bias, k) <= |file|
    ensures |ReadFile(file, off, Chunk(ph, bias, k))| == Chunk(ph, bias, k)
    ensures Patch(Offset(ph, bias, k), ReadFile(file, off, Chunk(ph, bias, k))) ==
      Image(file, ph, bias, FirstPage(ph, bias) + k)
  {
    hide Consumed, Chunk, Offset, SegByte, FirstPage;
    var bytes := ReadFile(file, off, Chunk(ph, bias, k));
    var r, s := Patch(Offset(ph, bias, k), bytes), Image(file, ph, bias, FirstPage(ph, bias) + k);
    forall x | 0 <= x < PAGE
      ensures r[x] == s[x]
    {
      ChunkIsImage(file, ph, bias, k, x);
    }
  }

  lemma NewHolds(t: Tables, u: Tables, d: Data, owner: Owners, root: nat, page: nat, phys: nat, flags: nat)
    requires OnePage(t, u, owner, root, PathOf(page), MakeEntry(phys, flags)) && IsRoot(owner, root)
    requires UserPath(PathOf(page))
    requires phys % PAGE == 0 && phys < PHYS_LIMIT && phys / PAGE in d && flags % 2 == 1
    ensures Holds(u, d, root, PathOf(page), d[phys / PAGE], flags)
  {
    hide PathOf, Leaf, MakeEntry, FrameOf, UserPath;
    MakeEntryReads(phys, flags);
    Vmm.LowBits(MakeEntry(phys, flags));
    Vmm.LowBits(flags);
  }

  lemma InPlaceNone(t: Tables, d: Data, root: nat, file: seq<byte>, ph: Phdr, bias: nat, flags: nat)
    ensures InPlace(t, d, root, file, ph, bias, 0, flags)
    ensures ph.memsz == 0 ==> PageTotal(ph, bias) == 0
  {
  }

  lemma ChunkBound(ph: Phdr, bias: nat, k: nat)
    ensures Consumed(ph, bias, k) + Chunk(ph, bias, k) <= ph.filesz
  {
  }

  lemma ConsumedNone(ph: Phdr, bias: nat)
    ensures Consumed(ph, bias, 0) == 0
  {
  }

  /** The page loop ends after the segment's last page, below the top of the user half, with the file part
      read in full. */
  lemma LastPage(ph: Phdr, bias: nat)
    requires ph.memsz > 0 && SegmentFits(ph, bias) && ph.filesz <= ph.memsz
    ensures (Low(ph, bias) + ph.memsz + PAGE - 1) / PAGE == FirstPage(ph, bias) + PageTotal(ph, bias) <= USER_TOP / PAGE
    ensures Consumed(ph, bias, PageTotal(ph, bias)) == ph.filesz
  {
  }

  /** The loadable segments fit and share no page. */
  ghost predicate Separate(phs: seq<Phdr>, bias: nat) {
    && (forall i :: 0 <= i < |phs| && phs[i].kind == PT_LOAD ==> SegmentFits(phs[i], bias))
    && (forall i, j :: 0 <= i < j < |phs| && phs[i].kind == PT_LOAD && phs[j].kind == PT_LOAD ==>
         PagesApart(FirstPage(phs[i], bias), PageTotal(phs[i], bias), FirstPage(phs[j], bias), PageTotal(phs[j], bias)))
  }

  predicate PagesApart(a: nat, m: nat, b: nat, n: nat) { a + m <= b || b + n <= a }

  ghost predicate AllInPlace(t: Tables, d: Data, root: nat, file: seq<byte>, phs: seq<Phdr>, bias: nat, n: nat)
    requires n <= |phs|
  {
    forall i :: 0 <= i < n && phs[i].kind == PT_LOAD ==>
      InPlace(t, d, root, file, phs[i], bias, PageTotal(phs[i], bias), SegmentFlags(phs[i].flags))
  }

  /** Page `p` belongs to one of the first `n` loadable segments. */
  ghost predicate InSegments(p: Path, phs: seq<Phdr>, bias: nat, n: nat)
    requires n <= |phs|
  {
    exists i :: 0 <= i < n && InSegment(p, phs[i], bias)
  }

  ghost predicate InSegment(p: Path, ph: Phdr, bias: nat) {
    ph.kind == PT_LOAD && InRange(p, FirstPage(ph, bias), PageTotal(ph, bias))
  }

  /** Outside the first `n` loadable segments of one pagemap nothing changed, and old frames keep their contents. */
  ghost predicate Elsewhere(t: Tables, u: Tables, d: Data, f: Data, owner: Owners, root: nat, phs: seq<Phdr>,
                            bias: nat, n: nat)
    requires n <= |phs|
  {
    && (forall r, p: Path :: IsRoot(owner, r) && UserPath(p) && !(r == root && InSegments(p, phs, bias, n)) ==>
         Leaf(u, r, p) == Leaf(t, r, p))
    && (forall x :: x in d ==> x in f && f[x] == d[x])
  }

  lemma ElsewhereNone(t: Tables, d: Data, owner: Owners, root: nat, phs: seq<Phdr>, bias: nat)
    ensures Elsewhere(t, t, d, d, owner, root, phs, bias, 0)
  {
  }

  lemma ElsewhereWider(t: Tables, u: Tables, d: Data, f: Data, owner: Owners, root: nat, phs: seq<Phdr>, bias: nat,
                       k: nat, n: nat)
    requires k <= n <= |phs| && Elsewhere(t, u, d, f, owner, root, phs, bias, k)
    ensures Elsewhere(t, u, d, f, owner, root, phs, bias, n)
  {
    hide Leaf, UserPath, IsRoot, InSegment;
    forall r, p: Path | IsRoot(owner, r) && UserPath(p) && !(r == root && InSegments(p, phs, bias, n))
      ensures Leaf(u, r, p) == Leaf(t, r, p)
    {
      assert InSegments(p, phs, bias, k) ==> InSegments(p, phs, bias, n);
    }
  }

  lemma ElsewhereMore(t: Tables, u: Tables, v: Tables, d: Data, f: Data, g: Data, o: Owners, m: Owners, root: nat,
                      phs: seq<Phdr>, bias: nat, n: nat)
    requires n < |phs| && phs[n].kind == PT_LOAD && Elsewhere(t, u, d, f, o, root, phs, bias, n)
    requires Confined(u, v, f, g, m, root, FirstPage(phs[n], bias), PageTotal(phs[n], bias))
    requires forall q :: IsRoot(o, q) ==> IsRoot(m, q)
    ensures Elsewhere(t, v, d, g, o, root, phs, bias, n + 1)
  {
    hide Leaf, UserPath, IsRoot, InRange, FirstPage, PageTotal;
    forall r, p: Path | IsRoot(o, r) && UserPath(p) && !(r == root && InSegments(p, phs, bias, n + 1))
      ensures Leaf(v, r, p) == Leaf(t, r, p)
    {
      assert InSegments(p, phs, bias, n) ==> InSegments(p, phs, bias, n + 1);
      assert InSegment(p, phs[n], bias) ==> InSegments(p, phs, bias, n + 1);
    }
  }

  lemma AllGranted(t: Tables, d: Data, root: nat, file: seq<byte>, phs: seq<Phdr>, bias: nat)
    requires AllInPlace(t, d, root, file, phs, bias, |phs|)
    ensures forall i :: 0 <= i < |phs| && phs[i].kind == PT_LOAD ==> Granted(t, root, phs[i], bias)
  {
    hide InPlace, Granted, PageTotal, SegmentFlags;
    forall i | 0 <= i < |phs| && phs[i].kind == PT_LOAD
      ensures Granted(t, root, phs[i], bias)
    {
      InPlaceGranted(t, d, root, file, phs[i], bias);
    }
  }

  lemma AllInPlaceNone(t: Tables, d: Data, root: nat, file: seq<byte>, phs: seq<Phdr>, bias: nat)
    ensures AllInPlace(t, d, root, file, phs, bias, 0)
  {
  }

  lemma AllInPlaceSkip(t: Tables, d: Data, root: nat, file: seq<byte>, phs: seq<Phdr>, bias: nat, n: nat)
    requires n < |phs| && phs[n].kind != PT_LOAD && AllInPlace(t, d, root, file, phs, bias, n)
    ensures AllInPlace(t, d, root, file, phs, bias, n + 1)
  {
    hide InPlace;
  }

  lemma SeparateFits(phs: seq<Phdr>, bias: nat, i: nat)
    requires Separate(phs, bias) && i < |phs| && phs[i].kind == PT_LOAD
    ensures SegmentFits(phs[i], bias)
  {
  }

  /** A segment mapped later leaves the earlier ones in place. */
  lemma AllInPlaceMore(t: Tables, u: Tables, d: Data, f: Data, owner: Owners, root: nat, file: seq<byte>,
                       phs: seq<Phdr>, bias: nat, n: nat)
    requires Separate(phs, bias) && n < |phs| && phs[n].kind == PT_LOAD && IsRoot(owner, root)
    requires AllInPlace(t, d, root, file, phs, bias, n)
    requires Confined(t, u, d, f, owner, root, FirstPage(phs[n], bias), PageTotal(phs[n], bias))
    requires InPlace(u, f, root, file, phs[n], bias, PageTotal(phs[n], bias), SegmentFlags(phs[n].flags))
    ensures AllInPlace(u, f, root, file, phs, bias, n + 1)
  {
    hide InPlace, Confined, IsRoot, SegmentFits, PagesApart, FirstPage, PageTotal, SegmentFlags;
    forall i | 0 <= i < n && phs[i].kind == PT_LOAD
      ensures InPlace(u, f, root, file, phs[i], bias, PageTotal(phs[i], bias), SegmentFlags(phs[i].flags))
    {
      InPlaceKept(t, u, d, f, owner, root, file, phs[i], phs[n], bias, SegmentFlags(phs[i].flags));
    }
  }

  lemma InPlaceKept(t: Tables, u: Tables, d: Data, f: Data, owner: Owners, root: nat, file: seq<byte>, ph: Phdr,
                    other: Phdr, bias: nat, flags: nat)
    requires SegmentFits(ph, bias) && SegmentFits(other, bias) && IsRoot(owner, root)
    requires PagesApart(FirstPage(ph, bias), PageTotal(ph, bias), FirstPage(other, bias), PageTotal(other, bias))
    requires InPlace(t, d, root, file, ph, bias, PageTotal(ph, bias), flags)
    requires Confined(t, u, d, f, owner, root, FirstPage(other, bias), PageTotal(other, bias))
    ensures InPlace(u, f, root, file, ph, bias, PageTotal(ph, bias), flags)
  {
    hide Holds, Image, UserPath, Confined, IsRoot, InRange, PageAt, FirstPage, PageTotal, SegmentFits, PagesApart;
    var a, m, b, n := FirstPage(ph, bias), PageTotal(ph, bias), FirstPage(other, bias), PageTotal(other, bias);
    TopPage(ph, bias);
    TopPage(other, bias);
    forall j | 0 <= j < m
      ensures Holds(u, f, root, PageAt(a, j), Image(file, ph, bias, a + j), flags)
    {
      ApartPage(a, m, b, n, j);
      HoldsKept(t, u, d, f, owner, root, b, n, PageAt(a, j), Image(file, ph, bias, a + j), flags);
    }
  }

  lemma TopPage(ph: Phdr, bias: nat)
    requires SegmentFits(ph, bias)
    ensures PageTotal(ph, bias) > 0 ==> FirstPage(ph, bias) + PageTotal(ph, bias) <= USER_TOP / PAGE
  {
  }

  lemma ApartPage(a: nat, m: nat, b: nat, n: nat, j: nat)
    requires PagesApart(a, m, b, n) && j < m && a + m <= USER_TOP / PAGE && (n > 0 ==> b + n <= USER_TOP / PAGE)
    ensures UserPath(PageAt(a, j)) && !InRange(PageAt(a, j), b, n)
  {
    hide PathOf, UserPath;
    BelowTop(a + j);
    forall i | 0 <= i < n
      ensures PageAt(b, i) != PageAt(a, j)
    {
      if a + j < b + i {
        PagesBelowTop(a + j, b + i);
      } else {
        PagesBelowTop(b + i, a + j);
      }
    }
  }

  /** A successful load, read back through the page tables: at every address of a loadable segment's pages
      the file's byte where the file part reaches, and zero elsewhere. */
  lemma LoadedBytes(t: Tables, d: Data, root: nat, file: seq<byte>, phs: seq<Phdr>, bias: nat, i: nat, va: nat)
    requires AllInPlace(t, d, root, file, phs, bias, |phs|) && i < |phs| && phs[i].kind == PT_LOAD
    requires Supplied(phs[i], file) && phs[i].memsz > 0
    requires (bias + phs[i].vaddr) / PAGE <= va / PAGE <= (bias + phs[i].vaddr + phs[i].memsz - 1) / PAGE
    ensures ByteAt(t, d, root, va) ==
      var at := va - (bias + phs[i].vaddr);
      if 0 <= at < phs[i].filesz then file[phs[i].offset + at] else 0
  {
    hide InPlace, ByteAt;
    InPlaceBytes(t, d, root, file, phs[i], bias, SegmentFlags(phs[i].flags), va);
  }
}
