/** Four-level page tables as a flat map (kernel/src/mm/vmm.c; 4-level paging, section 4.5 of the Intel SDM,
    volume 3A). A table is a frame of 512 entries; entries are 64-bit words taken apart by arithmetic. */
module VmmSpec {
  import opened Words

  const ENTRIES := 512
  const USER_HALF := 256
  const NX := 0x8000_0000_0000_0000
  const PHYS_LIMIT := 0x10_0000_0000_0000

  type Tables = map<nat, seq<nat>>

  /** Where a table belongs: the pagemap and the indices that lead to it. */
  datatype Node = Node(root: nat, path: seq<nat>)

  type Owners = map<nat, Node>

  datatype Found = None | At(frame: nat)

  predicate Present(e: nat) { e % 2 == 1 }

  predicate Writable(e: nat) { e / 2 % 2 == 1 }

  predicate User(e: nat) { e / 4 % 2 == 1 }

  /** Entry `i` of a table, nothing when there is none. */
  function Entry(t: Tables, f: nat, i: nat): nat {
    if f in t && i < |t[f]| then t[f][i] else 0
  }

  /** The table that the indices lead to from a root. */
  function Walk(t: Tables, root: nat, path: seq<nat>): Found
    decreases |path|
  {
    if path == [] then At(root) else Advance(t, Walk(t, root, path[..|path| - 1]), path[|path| - 1])
  }

  /** One index further. */
  function Advance(t: Tables, w: Found, i: nat): Found {
    match w
    case None => None
    case At(f) =>
      var e := Entry(t, f, i);
      if Present(e) then At(e / PAGE) else None
  }

  lemma WalkSnoc(t: Tables, root: nat, p: seq<nat>, i: nat)
    ensures Walk(t, root, p + [i]) == Advance(t, Walk(t, root, p), i)
  {
    assert (p + [i])[..|p|] == p;
  }

  /** The four indices of a page, outermost first. */
  type Path = p: seq<nat> | |p| == 4 witness [0, 0, 0, 0]

  /** The flat map: the leaf entry of a page, zero when a table on the way is missing. */
  function Leaf(t: Tables, root: nat, p: Path): nat {
    match Walk(t, root, p[..3])
    case None => 0
    case At(f) => Entry(t, f, p[3])
  }

  /** An index that the user half of a table at this depth may use. */
  predicate Usable(path: seq<nat>, i: nat) { i < ENTRIES && (path == [] ==> i < USER_HALF) }

  /** A present entry is what get_or_create makes: present, writable, user, and leading to its own table. */
  ghost predicate EntryOk(e: nat, owner: Owners, child: Node) {
    Present(e) ==> e % PAGE == 7 && e / PAGE in owner && owner[e / PAGE] == child
  }

  ghost predicate TableOk(t: Tables, owner: Owners, f: nat)
    requires f in owner
  {
    && f in t && |t[f]| == ENTRIES && |owner[f].path| <= 3
    && (owner[f].path == [] ==> owner[f].root == f)
    && (|owner[f].path| < 3 ==> forall i :: 0 <= i < ENTRIES && Usable(owner[f].path, i) ==>
         EntryOk(t[f][i], owner, Node(owner[f].root, owner[f].path + [i])))
    && (owner[f].path == [] ==> forall i :: USER_HALF <= i < ENTRIES ==> !User(t[f][i]))
  }

  /** Every table is reached along one path from one root only; the kernel half is closed to users. */
  ghost predicate Tree(t: Tables, owner: Owners) {
    forall f :: f in owner ==> TableOk(t, owner, f)
  }

  ghost predicate IsRoot(owner: Owners, r: nat) { r in owner && owner[r] == Node(r, []) }

  ghost predicate UserPath(path: seq<nat>) {
    (forall k :: 0 <= k < |path| ==> path[k] < ENTRIES) && (path != [] ==> path[0] < USER_HALF)
  }

  /** A present entry leads to the table that belongs there. */
  lemma ChildOwned(t: Tables, owner: Owners, f: nat, i: nat)
    requires Tree(t, owner) && f in owner && |owner[f].path| < 3 && Usable(owner[f].path, i)
    ensures f in t && |t[f]| == ENTRIES && Entry(t, f, i) == t[f][i]
    ensures Present(t[f][i]) ==>
      && t[f][i] % PAGE == 7 && User(t[f][i]) && t[f][i] / PAGE in owner
      && owner[t[f][i] / PAGE] == Node(owner[f].root, owner[f].path + [i])
  {
    assert TableOk(t, owner, f);
    assert EntryOk(t[f][i], owner, Node(owner[f].root, owner[f].path + [i]));
  }

  lemma {:induction false} WalkOwned(t: Tables, owner: Owners, root: nat, path: seq<nat>)
    requires Tree(t, owner) && IsRoot(owner, root) && |path| <= 3 && UserPath(path)
    ensures Walk(t, root, path).At? ==>
      Walk(t, root, path).frame in owner && owner[Walk(t, root, path).frame] == Node(root, path)
    decreases |path|
  {
    hide Tree, Entry, User;
    if path != [] {
      var p, i := path[..|path| - 1], path[|path| - 1];
      WalkOwned(t, owner, root, p);
      assert Usable(p, i) && p + [i] == path;
      if Walk(t, root, p).At? {
        ChildOwned(t, owner, Walk(t, root, p).frame, i);
      }
    }
  }

  /** Changing entries of leaf tables only leaves every walk as it was. */
  lemma {:induction false} WalkFramed(t: Tables, u: Tables, owner: Owners, root: nat, path: seq<nat>)
    requires Tree(t, owner) && IsRoot(owner, root) && |path| <= 3 && UserPath(path)
    requires forall f, i :: f in owner && |owner[f].path| < 3 && Usable(owner[f].path, i) ==>
      Entry(u, f, i) == Entry(t, f, i)
    ensures Walk(u, root, path) == Walk(t, root, path)
    decreases |path|
  {
    if path != [] {
      var p := path[..|path| - 1];
      WalkFramed(t, u, owner, root, p);
      WalkOwned(t, owner, root, p);
    }
  }

  /** The tables after a new, empty one has been hooked in at entry `i` of table `f`. */
  function Hook(t: Tables, f: nat, i: nat, c: nat): Tables
    requires f in t && i < |t[f]|
  {
    t[c := seq(ENTRIES, _ => 0)][f := t[f][i := PAGE * c + 7]]
  }

  lemma HookEntry(t: Tables, f: nat, i: nat, c: nat, g: nat, j: nat)
    requires f in t && i < |t[f]| && c !in t
    ensures Entry(Hook(t, f, i, c), g, j) ==
      (if g == c then 0 else if g == f && j == i then PAGE * c + 7 else Entry(t, g, j))
  {
  }

  lemma HookTree(t: Tables, owner: Owners, f: nat, i: nat, c: nat)
    requires Tree(t, owner) && f in owner && |owner[f].path| < 3 && Usable(owner[f].path, i) && c !in t
    ensures f in t && i < |t[f]|
    ensures Tree(Hook(t, f, i, c), owner[c := Node(owner[f].root, owner[f].path + [i])])
  {
    assert TableOk(t, owner, f);
    var u, o := Hook(t, f, i, c), owner[c := Node(owner[f].root, owner[f].path + [i])];
    forall g | g in o
      ensures TableOk(u, o, g)
    {
      if g in owner {
        assert TableOk(t, owner, g);
      }
    }
  }

  lemma {:induction false} HookWalk(t: Tables, owner: Owners, f: nat, i: nat, c: nat, r: nat, q: seq<nat>)
    requires Tree(t, owner) && f in owner && |owner[f].path| < 3 && Usable(owner[f].path, i) && c !in t
    requires Walk(t, owner[f].root, owner[f].path) == At(f) && !Present(Entry(t, f, i))
    requires IsRoot(owner, r) && |q| <= 3 && UserPath(q)
    ensures f in t && i < |t[f]|
    ensures Walk(Hook(t, f, i, c), r, q) ==
      (if r == owner[f].root && q == owner[f].path + [i] then At(c) else Walk(t, r, q))
    decreases |q|
  {
    assert TableOk(t, owner, f);
    var u := Hook(t, f, i, c);
    if q != [] {
      var p, j := q[..|q| - 1], q[|q| - 1];
      HookWalk(t, owner, f, i, c, r, p);
      WalkOwned(t, owner, r, p);
      assert q == p + [j];
      HookStep(t, owner, f, i, c, r, p, j);
    }
  }

  /** One step further along a walk in the tables with the new one. */
  lemma HookStep(t: Tables, owner: Owners, f: nat, i: nat, c: nat, r: nat, p: seq<nat>, j: nat)
    requires f in t && i < |t[f]| && f in owner && c !in t && !Present(Entry(t, f, i))
    requires Walk(t, owner[f].root, owner[f].path) == At(f)
    requires Walk(t, r, p).At? ==>
      Walk(t, r, p).frame in owner && owner[Walk(t, r, p).frame] == Node(r, p) && Walk(t, r, p).frame in t
    requires Walk(Hook(t, f, i, c), r, p) ==
      (if r == owner[f].root && p == owner[f].path + [i] then At(c) else Walk(t, r, p))
    requires r == owner[f].root && p == owner[f].path + [i] ==> Walk(t, r, p) == None
    ensures Walk(Hook(t, f, i, c), r, p + [j]) ==
      (if r == owner[f].root && p + [j] == owner[f].path + [i] then At(c) else Walk(t, r, p + [j]))
  {
    hide Walk, Hook, Entry, Advance;
    WalkSnoc(Hook(t, f, i, c), r, p, j);
    WalkSnoc(t, r, p, j);
    SnocSame(p, j, owner[f].path, i);
    HookAdvance(t, f, i, c, Walk(t, r, p), j);
  }

  /** The entry that get_or_create stores leads to its table, and a zero leads nowhere. */
  lemma LinkReads(c: nat)
    ensures Present(PAGE * c + 7) && (PAGE * c + 7) / PAGE == c && !Present(0)
  {
  }

  lemma HookAdvance(t: Tables, f: nat, i: nat, c: nat, w: Found, j: nat)
    requires f in t && i < |t[f]| && c !in t && !Present(Entry(t, f, i)) && (w.At? ==> w.frame in t)
    ensures Advance(Hook(t, f, i, c), w, j) == if w == At(f) && j == i then At(c) else Advance(t, w, j)
    ensures Advance(Hook(t, f, i, c), At(c), j) == None && Advance(t, None, j) == None
    ensures Advance(t, At(f), i) == None
  {
    hide Hook, Entry, Present;
    LinkReads(c);
    HookEntry(t, f, i, c, c, j);
    if w.At? {
      HookEntry(t, f, i, c, w.frame, j);
    }
  }

  lemma SnocSame(p: seq<nat>, j: nat, q: seq<nat>, i: nat)
    ensures p + [j] == q + [i] <==> p == q && j == i
  {
    assert (p + [j])[..|p|] == p && (q + [i])[..|q|] == q;
    assert (p + [j])[|p|] == j && (q + [i])[|q|] == i;
  }

  /** Every pagemap's flat map and kernel half are as before. */
  ghost predicate SameMaps(t: Tables, u: Tables, owner: Owners) {
    && (forall r, p: Path :: IsRoot(owner, r) && UserPath(p) ==> Leaf(u, r, p) == Leaf(t, r, p))
    && (forall r, i :: IsRoot(owner, r) && USER_HALF <= i < ENTRIES ==> Entry(u, r, i) == Entry(t, r, i))
  }

  /** The same, except that one page of one pagemap now has entry `e`. */
  ghost predicate OnePage(t: Tables, u: Tables, owner: Owners, root: nat, at: Path, e: nat) {
    && (forall r, p: Path :: IsRoot(owner, r) && UserPath(p) ==>
         Leaf(u, r, p) == if r == root && p == at then e else Leaf(t, r, p))
    && (forall r, i :: IsRoot(owner, r) && USER_HALF <= i < ENTRIES ==> Entry(u, r, i) == Entry(t, r, i))
  }

  lemma HookSame(t: Tables, owner: Owners, f: nat, i: nat, c: nat)
    requires Tree(t, owner) && f in owner && |owner[f].path| < 3 && Usable(owner[f].path, i) && c !in t
    requires Walk(t, owner[f].root, owner[f].path) == At(f) && !Present(Entry(t, f, i))
    ensures f in t && i < |t[f]| && SameMaps(t, Hook(t, f, i, c), owner)
  {
    assert TableOk(t, owner, f);
    var u := Hook(t, f, i, c);
    hide Hook;
    forall r, p: Path | IsRoot(owner, r) && UserPath(p)
      ensures Leaf(u, r, p) == Leaf(t, r, p)
    {
      HookLeaf(t, owner, f, i, c, r, p);
    }
    forall r, j | IsRoot(owner, r) && USER_HALF <= j < ENTRIES
      ensures Entry(u, r, j) == Entry(t, r, j)
    {
      assert TableOk(t, owner, r);
      HookEntry(t, f, i, c, r, j);
    }
  }

  lemma HookLeaf(t: Tables, owner: Owners, f: nat, i: nat, c: nat, r: nat, p: Path)
    requires Tree(t, owner) && f in owner && |owner[f].path| < 3 && Usable(owner[f].path, i) && c !in t
    requires Walk(t, owner[f].root, owner[f].path) == At(f) && !Present(Entry(t, f, i))
    requires IsRoot(owner, r) && UserPath(p)
    ensures f in t && i < |t[f]| && Leaf(Hook(t, f, i, c), r, p) == Leaf(t, r, p)
  {
    assert TableOk(t, owner, f);
    hide Hook, Entry;
    var q := p[..3];
    HookWalk(t, owner, f, i, c, r, q);
    WalkOwned(t, owner, r, q);
    if r == owner[f].root && q == owner[f].path + [i] {
      assert q[..|q| - 1] == owner[f].path;
      HookEntry(t, f, i, c, c, p[3]);
    } else if Walk(t, r, q).At? {
      var g := Walk(t, r, q).frame;
      assert TableOk(t, owner, g);
      HookEntry(t, f, i, c, g, p[3]);
    }
  }

  /** Storing into a leaf table. */
  function Store(t: Tables, f: nat, i: nat, e: nat): Tables
    requires f in t && i < |t[f]|
  {
    var table: seq<nat> := t[f][i := e];
    t[f := table]
  }

  lemma StoreTree(t: Tables, owner: Owners, f: nat, i: nat, e: nat)
    requires Tree(t, owner) && f in owner && |owner[f].path| == 3 && i < ENTRIES
    ensures f in t && i < |t[f]| && Tree(Store(t, f, i, e), owner)
  {
    hide User, EntryOk;
    assert TableOk(t, owner, f);
    forall g | g in owner
      ensures TableOk(Store(t, f, i, e), owner, g)
    {
      assert TableOk(t, owner, g);
    }
  }

  lemma StoreOnePage(t: Tables, owner: Owners, f: nat, i: nat, e: nat)
    requires Tree(t, owner) && f in owner && |owner[f].path| == 3 && i < ENTRIES
    requires Walk(t, owner[f].root, owner[f].path) == At(f)
    ensures f in t && i < |t[f]| && Tree(Store(t, f, i, e), owner)
    ensures OnePage(t, Store(t, f, i, e), owner, owner[f].root, owner[f].path + [i], e)
  {
    hide Tree, Leaf, Walk, UserPath;
    StoreTree(t, owner, f, i, e);
    var u := Store(t, f, i, e);
    forall r, p: Path | IsRoot(owner, r) && UserPath(p)
      ensures Leaf(u, r, p) == if r == owner[f].root && p == owner[f].path + [i] then e else Leaf(t, r, p)
    {
      StoreLeaf(t, owner, f, i, e, r, p);
    }
  }

  lemma StoreLeaf(t: Tables, owner: Owners, f: nat, i: nat, e: nat, r: nat, p: Path)
    requires Tree(t, owner) && f in owner && |owner[f].path| == 3 && i < ENTRIES
    requires Walk(t, owner[f].root, owner[f].path) == At(f) && IsRoot(owner, r) && UserPath(p)
    ensures f in t && i < |t[f]|
    ensures Leaf(Store(t, f, i, e), r, p) == if r == owner[f].root && p == owner[f].path + [i] then e else Leaf(t, r, p)
  {
    assert TableOk(t, owner, f);
    var q := p[..3];
    WalkFramed(t, Store(t, f, i, e), owner, r, q);
    WalkOwned(t, owner, r, q);
    assert p == q + [p[3]];
    assert (owner[f].path + [i])[..3] == owner[f].path;
  }

  lemma SameThenSame(t: Tables, u: Tables, v: Tables, o: Owners, m: Owners)
    requires SameMaps(t, u, o) && SameMaps(u, v, m) && forall r :: IsRoot(o, r) ==> IsRoot(m, r)
    ensures SameMaps(t, v, o)
  {
  }

  lemma SameThenOne(t: Tables, u: Tables, v: Tables, o: Owners, m: Owners, root: nat, at: Path, e: nat)
    requires SameMaps(t, u, o) && OnePage(u, v, m, root, at, e) && forall r :: IsRoot(o, r) ==> IsRoot(m, r)
    ensures OnePage(t, v, o, root, at, e)
  {
  }

  /** A new pagemap: an empty user half and a closed kernel half. */
  lemma PlantTree(t: Tables, owner: Owners, c: nat, table: seq<nat>)
    requires Tree(t, owner) && c !in t && |table| == ENTRIES
    requires forall i :: 0 <= i < ENTRIES ==> if i < USER_HALF then table[i] == 0 else !User(table[i])
    ensures Tree(t[c := table], owner[c := Node(c, [])])
    ensures SameMaps(t, t[c := table], owner)
    ensures forall p: Path :: UserPath(p) ==> Leaf(t[c := table], c, p) == 0
  {
    var u, o := t[c := table], owner[c := Node(c, [])];
    forall g | g in o
      ensures TableOk(u, o, g)
    {
      if g != c {
        assert TableOk(t, owner, g);
      }
    }
    forall r, p: Path | IsRoot(owner, r) && UserPath(p)
      ensures Leaf(u, r, p) == Leaf(t, r, p)
    {
      PlantLeaf(t, owner, c, table, r, p);
    }
    forall r, i | IsRoot(owner, r) && USER_HALF <= i < ENTRIES
      ensures Entry(u, r, i) == Entry(t, r, i)
    {
      assert TableOk(t, owner, r);
    }
    forall p: Path | UserPath(p)
      ensures Leaf(u, c, p) == 0
    {
      BareLeaf(u, c, p);
    }
  }

  lemma PlantLeaf(t: Tables, owner: Owners, c: nat, table: seq<nat>, r: nat, p: Path)
    requires Tree(t, owner) && c !in t && IsRoot(owner, r) && UserPath(p)
    ensures Leaf(t[c := table], r, p) == Leaf(t, r, p)
  {
    assert forall f :: f in owner ==> TableOk(t, owner, f);
    WalkFramed(t, t[c := table], owner, r, p[..3]);
    WalkOwned(t, owner, r, p[..3]);
  }

  lemma BareLeaf(t: Tables, c: nat, p: Path)
    requires c in t && p[0] < |t[c]| && t[c][p[0]] == 0
    ensures Leaf(t, c, p) == 0
  {
    var a, b, d := p[..1], p[..2], p[..3];
    assert a[..0] == [] && b[..1] == a && d[..2] == b;
    assert Walk(t, c, a) == None && Walk(t, c, b) == None && Walk(t, c, d) == None;
  }

  /** The indices of a page number, nine bits each. */
  function PathOf(page: nat): (p: Path)
    ensures forall k :: 0 <= k < 4 ==> p[k] < ENTRIES
  {
    [page / 512 / 512 / 512 % 512, page / 512 / 512 % 512, page / 512 % 512, page % 512]
  }

  /** The entry that vmm_map stores: frame address, low flags, no-execute bit. */
  function MakeEntry(phys: nat, flags: nat): nat {
    WithNx(phys - phys % PAGE + flags % PAGE, flags)
  }

  function WithNx(e: nat, flags: nat): nat {
    if flags / NX % 2 == 1 && e / NX % 2 == 0 then e + NX else e
  }

  /** The frame address of an entry under VMM_PHYS_MASK. */
  function FrameOf(e: nat): nat { e % PHYS_LIMIT / PAGE * PAGE }

  /** The entry that vmm_protect leaves: the same frame with new flags. */
  function Reflag(e: nat, flags: nat): nat { WithNx(FrameOf(e) + flags % PAGE, flags) }

  /** A frame number below 2^40 and low flags below 4096, put together and read back. */
  lemma WordReads(q: nat, low: nat, flags: nat)
    requires q < 0x100_0000_0000 && low < PAGE
    ensures var e := WithNx(PAGE * q + low, flags);
      e % PAGE == low && FrameOf(e) == PAGE * q && e / NX % 2 == flags / NX % 2
  {
    var w := PAGE * q + low;
    assert w < PHYS_LIMIT && w / PAGE == q;
    assert (w + NX) % PHYS_LIMIT == w;
  }

  lemma ReflagKeepsFrame(e: nat, flags: nat)
    ensures FrameOf(Reflag(e, flags)) == FrameOf(e) && Reflag(e, flags) % PAGE == flags % PAGE
    ensures Reflag(e, flags) / NX % 2 == flags / NX % 2
  {
    hide WithNx;
    WordReads(e % PHYS_LIMIT / PAGE, flags % PAGE, flags);
  }

  /** What vmm_map stores is read back: frame, low flags and no-execute bit. */
  lemma MakeEntryReads(phys: nat, flags: nat)
    requires phys < PHYS_LIMIT
    ensures var e := MakeEntry(phys, flags);
      FrameOf(e) == phys - phys % PAGE && e % PAGE == flags % PAGE && e / NX % 2 == flags / NX % 2
  {
    hide WithNx, FrameOf;
    WordReads(phys / PAGE, flags % PAGE, flags);
  }

  function PageAt(start: nat, j: nat): Path { PathOf(start + j) }

  ghost predicate InRange(p: Path, start: nat, n: nat) {
    exists j :: 0 <= j < n && p == PageAt(start, j)
  }

  ghost predicate UserRange(start: nat, n: nat) {
    forall j :: 0 <= j < n ==> UserPath(PageAt(start, j))
  }

  /** What lies above the four indices. */
  function Window(page: nat): nat { page / 512 / 512 / 512 / 512 }

  lemma Digits(a: nat)
    ensures var p := PathOf(a);
      a == 0x10_0000_0000 * Window(a) + 0x800_0000 * p[0] + 0x4_0000 * p[1] + 512 * p[2] + p[3]
  {
    var b := a / 512;
    var c := b / 512;
    var d := c / 512;
    assert a == 512 * b + a % 512;
    assert b == 512 * c + b % 512;
    assert c == 512 * d + c % 512;
    assert d == 512 * (d / 512) + d % 512;
  }

  lemma MiddleIndex(w: nat)
    ensures PathOf(0x10_0000_0000 * w + 0x8_0000_0000)[0] == USER_HALF
  {
    var m := 0x10_0000_0000 * w + 0x8_0000_0000;
    assert m / 512 == 0x800_0000 * w + 0x400_0000;
    assert m / 512 / 512 == 0x4_0000 * w + 0x2_0000;
    assert m / 512 / 512 / 512 == 512 * w + 256;
  }

  /** Pages with the same indices are a whole window apart, with a page of the kernel half in between. */
  lemma MiddlePage(a: nat, b: nat)
    requires a < b && PathOf(a) == PathOf(b) && PathOf(a)[0] < USER_HALF
    ensures var m := 0x10_0000_0000 * Window(a) + 0x8_0000_0000;
      a < m < b && PathOf(m)[0] == USER_HALF
  {
    hide PathOf, Window;
    Digits(a);
    Digits(b);
    MiddleIndex(Window(a));
  }

  /** No page occurs twice in a range that stays in the user half: addresses that share their indices have
      kernel-half addresses between them. */
  lemma RangeInjective(start: nat, n: nat, i: nat, j: nat)
    requires UserRange(start, n) && i < j < n
    ensures PageAt(start, i) != PageAt(start, j)
  {
    var a, b := start + i, start + j;
    assert UserPath(PageAt(start, i));
    hide PathOf, Window;
    if PathOf(a) == PathOf(b) {
      MiddlePage(a, b);
      InUserRange(start, n, 0x10_0000_0000 * Window(a) + 0x8_0000_0000);
    }
  }

  lemma InUserRange(start: nat, n: nat, m: nat)
    requires UserRange(start, n) && start <= m < start + n
    ensures PathOf(m)[0] < USER_HALF
  {
    assert UserPath(PageAt(start, m - start));
  }

  /** The leaf entries of `n` pages rewritten by `g`, and nothing else changed. */
  ghost predicate Rewritten(t: Tables, u: Tables, owner: Owners, root: nat, start: nat, n: nat, g: nat -> nat) {
    && (forall r, p: Path :: IsRoot(owner, r) && UserPath(p) ==>
         Leaf(u, r, p) == if r == root && InRange(p, start, n) then g(Leaf(t, r, p)) else Leaf(t, r, p))
    && (forall r, i :: IsRoot(owner, r) && USER_HALF <= i < ENTRIES ==> Entry(u, r, i) == Entry(t, r, i))
  }

  lemma RewriteNone(t: Tables, owner: Owners, root: nat, start: nat, g: nat -> nat)
    ensures Rewritten(t, t, owner, root, start, 0, g)
  {
  }

  lemma RewriteMore(t: Tables, u: Tables, v: Tables, owner: Owners, root: nat, start: nat, n: nat, k: nat,
                    g: nat -> nat)
    requires Rewritten(t, u, owner, root, start, k, g) && k < n && UserRange(start, n) && IsRoot(owner, root)
    requires OnePage(u, v, owner, root, PageAt(start, k), g(Leaf(u, root, PageAt(start, k))))
    ensures Rewritten(t, v, owner, root, start, k + 1, g)
  {
    hide Leaf, PageAt, UserPath;
    RangeFresh(start, n, k);
    RangeGrows(start, k);
    assert UserPath(PageAt(start, k));
  }

  lemma RangeFresh(start: nat, n: nat, k: nat)
    requires UserRange(start, n) && k < n
    ensures !InRange(PageAt(start, k), start, k)
  {
    forall j | 0 <= j < k
      ensures PageAt(start, k) != PageAt(start, j)
    {
      RangeInjective(start, n, j, k);
    }
  }

  lemma RangeGrows(start: nat, k: nat)
    ensures forall p: Path :: InRange(p, start, k + 1) <==> InRange(p, start, k) || p == PageAt(start, k)
  {
    hide PageAt;
  }

  /** The leaf of a page that is not yet rewritten is the old one. */
  lemma NotYet(t: Tables, u: Tables, owner: Owners, root: nat, start: nat, n: nat, k: nat, g: nat -> nat)
    requires Rewritten(t, u, owner, root, start, k, g) && k < n && UserRange(start, n) && IsRoot(owner, root)
    ensures Leaf(u, root, PageAt(start, k)) == Leaf(t, root, PageAt(start, k)) && UserPath(PageAt(start, k))
  {
    hide Leaf, PageAt;
    assert UserPath(PageAt(start, k));
    RangeFresh(start, n, k);
  }

  /** A page that user code can reach: present and open to users, and writable if that is asked for. */
  ghost predicate UserPage(t: Tables, root: nat, p: Path, write: bool) {
    UserPath(p) && Present(Leaf(t, root, p)) && User(Leaf(t, root, p)) && (write ==> Writable(Leaf(t, root, p)))
  }

  /** How many pages the bytes [virt, virt + len) touch. */
  function PageSpan(virt: nat, len: nat): (n: nat)
    requires len > 0
    ensures n > 0
  {
    (virt + len - 1) / PAGE - virt / PAGE + 1
  }

  /** Those are the pages that share a byte with the range. */
  lemma SpanPages(virt: nat, len: nat, page: nat)
    requires len > 0
    ensures virt / PAGE <= page < virt / PAGE + PageSpan(virt, len)
      <==> PAGE * page < virt + len && virt < PAGE * page + PAGE
  {
  }

  /** The walk as the processor does it: four entries, picked by nine bits of the address each. */
  lemma LeafIsWalk(t: Tables, root: nat, virt: nat)
    ensures
      var e4 := Entry(t, root, virt / 0x80_0000_0000 % 512);
      var e3 := Entry(t, e4 / PAGE, virt / 0x4000_0000 % 512);
      var e2 := Entry(t, e3 / PAGE, virt / 0x20_0000 % 512);
      Leaf(t, root, PathOf(virt / PAGE)) ==
        if Present(e4) && Present(e3) && Present(e2) then Entry(t, e2 / PAGE, virt / PAGE % 512) else 0
  {
    var p := PathOf(virt / PAGE);
    hide Entry, PathOf;
    Indices(virt);
    assert p[..1] == [] + [p[0]] && p[..2] == p[..1] + [p[1]] && p[..3] == p[..2] + [p[2]];
    WalkSnoc(t, root, [], p[0]);
    WalkSnoc(t, root, p[..1], p[1]);
    WalkSnoc(t, root, p[..2], p[2]);
  }

  lemma Indices(virt: nat)
    ensures PathOf(virt / PAGE) ==
      [virt / 0x80_0000_0000 % 512, virt / 0x4000_0000 % 512, virt / 0x20_0000 % 512, virt / PAGE % 512]
  {
    var page := virt / PAGE;
    assert page / 512 == virt / 0x20_0000;
    assert page / 512 / 512 == virt / 0x4000_0000;
    assert page / 512 / 512 / 512 == virt / 0x80_0000_0000;
  }
}
