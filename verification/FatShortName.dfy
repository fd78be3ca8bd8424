/** 8.3 names made from long ones (kernel/src/fs/fat32.c: to_short_name, base_upper, int_to_dec and the
    tilde candidates of gen_short_name), and why one of 999 candidates is free. */
module FatShortName {
  import opened Sets
  import opened Bytes
  import opened FatDirEntry
  import opened FatListing

  const SPACE: byte := 0x20
  const DOT: byte := 0x2E
  const TILDE: byte := 0x7E
  const CANDIDATES := 999

  function Upper(c: byte): byte { if 0x61 <= c <= 0x7A then c - 32 else c }

  /** Position of the first dot, or the length. */
  function DotAt(name: seq<byte>): (d: nat)
    ensures d <= |name| && (forall i :: 0 <= i < d ==> name[i] != DOT) && (d < |name| ==> name[d] == DOT)
  {
    if name == [] || name[0] == DOT then 0 else 1 + DotAt(name[1..])
  }

  function Ext(name: seq<byte>): seq<byte> {
    var d := DotAt(name);
    if d < |name| then name[d + 1..] else []
  }

  /** The first `n` characters in upper case, padded with spaces. */
  function Field(s: seq<byte>, n: nat): (r: seq<byte>)
    ensures |r| == n
  {
    seq(n, i requires 0 <= i < n => if i < |s| then Upper(s[i]) else SPACE)
  }

  function ShortOf(name: seq<byte>): (r: seq<byte>)
    ensures |r| == 11
  {
    Field(name[..DotAt(name)], 8) + Field(Ext(name), 3)
  }

  lemma FieldAt(s: seq<byte>, n: nat, i: nat)
    requires i < n
    ensures Field(s, n)[i] == if i < |s| then Upper(s[i]) else SPACE
  {
  }

  /** Where the first eight characters of the short form come from. */
  lemma ShortBase(name: seq<byte>, i: nat)
    requires i < 8
    ensures ShortOf(name)[i] == if i < DotAt(name) then Upper(name[i]) else SPACE
  {
    hide DotAt, Upper, Field;
    FieldAt(name[..DotAt(name)], 8, i);
  }

  /** Where the last three come from. */
  lemma ShortExt(name: seq<byte>, i: nat)
    requires i < 3
    ensures var at := DotAt(name) + 1 + i; ShortOf(name)[8 + i] == if at < |name| then Upper(name[at]) else SPACE
  {
    hide DotAt, Upper, Field, Ext;
    ExtAt(name, i);
    FieldAt(Ext(name), 3, i);
  }

  lemma ExtAt(name: seq<byte>, i: nat)
    ensures i < |Ext(name)| <==> DotAt(name) + 1 + i < |name|
    ensures i < |Ext(name)| ==> Ext(name)[i] == name[DotAt(name) + 1 + i]
  {
    hide DotAt;
  }

  method ToShortName(name: seq<byte>) returns (name8: seq<byte>, ext3: seq<byte>)
    ensures |name8| == 8 && |ext3| == 3 && name8 + ext3 == ShortOf(name)
  {
    name8, ext3 := Repeat(SPACE, 8), Repeat(SPACE, 3);
    var d := DotAt(name);
    var i := 0;
    while i < |name| && name[i] != DOT && i < 8
      invariant 0 <= i <= 8 && i <= d && |name8| == 8
      invariant forall j :: 0 <= j < 8 ==> name8[j] == if j < i then Upper(name[j]) else SPACE
    {
      name8 := name8[i := Upper(name[i])];
      i := i + 1;
    }
    assert name8 == Field(name[..d], 8);
    while i < |name| && name[i] != DOT
      invariant 0 <= i <= d
    {
      i := i + 1;
    }
    if i < |name| {
      i := i + 1;
      var e := 0;
      while i < |name| && e < 3
        invariant 0 <= e <= 3 && i == d + 1 + e && i <= |name| && |ext3| == 3
        invariant forall j :: 0 <= j < 3 ==> ext3[j] == if j < e then Upper(name[d + 1 + j]) else SPACE
      {
        ext3 := ext3[e := Upper(name[i])];
        e, i := e + 1, i + 1;
      }
    }
    assert ext3 == Field(Ext(name), 3);
  }

  /** The characters before the first dot, upper-case, without spaces. */
  function BaseOf(name: seq<byte>): seq<byte> {
    if name == [] || name[0] == DOT then []
    else (if name[0] == SPACE then [] else [Upper(name[0])]) + BaseOf(name[1..])
  }

  /** The base of a name is put together from its characters: spaces give nothing, a dot ends it. */
  lemma {:induction false} BaseParts(a: seq<byte>, b: seq<byte>)
    requires forall i :: 0 <= i < |a| ==> a[i] != DOT
    ensures BaseOf(a + b) == BaseOf(a) + BaseOf(b)
  {
    hide Upper;
    if a == [] {
      assert a + b == b;
    } else {
      assert (a + b)[1..] == a[1..] + b;
      BaseParts(a[1..], b);
    }
  }

  lemma BaseOne(c: byte, b: seq<byte>)
    ensures c != DOT ==> BaseOf([c]) == if c == SPACE then [] else [Upper(c)]
    ensures BaseOf([DOT] + b) == []
  {
    hide Upper;
    assert [c][1..] == [];
  }

  method BaseUpper(name: seq<byte>, max: nat) returns (out: seq<byte>)
    ensures out == if |BaseOf(name)| <= max then BaseOf(name) else BaseOf(name)[..max]
  {
    hide BaseOf;
    out := [];
    var i := 0;
    assert name[0..] == name;
    while i < |name| && name[i] != DOT && |out| < max
      invariant 0 <= i <= |name| && |out| <= max && out + BaseOf(name[i..]) == BaseOf(name)
    {
      BaseStep(name, i);
      if name[i] != SPACE {
        out := out + [Upper(name[i])];
      }
      i := i + 1;
    }
    BaseStep(name, i);
  }

  /** What position `i` adds to the base. */
  lemma BaseStep(name: seq<byte>, i: nat)
    requires i <= |name|
    ensures i == |name| || name[i] == DOT ==> BaseOf(name[i..]) == []
    ensures i < |name| && name[i] == SPACE ==> BaseOf(name[i..]) == BaseOf(name[i + 1..])
    ensures i < |name| && name[i] != SPACE && name[i] != DOT ==>
      BaseOf(name[i..]) == [Upper(name[i])] + BaseOf(name[i + 1..])
  {
    assert i < |name| ==> name[i..][1..] == name[i + 1..];
  }

  /** Decimal digits. */
  function Decimal(v: nat): (r: seq<byte>)
    ensures |r| >= 1 && forall i :: 0 <= i < |r| ==> 0x30 <= r[i] <= 0x39
  {
    if v < 10 then [0x30 + v] else Decimal(v / 10) + [0x30 + v % 10]
  }

  method IntToDec(v: nat) returns (out: seq<byte>)
    requires v < 100_000_000
    ensures out == Decimal(v)
  {
    hide Decimal, Pow10;
    DecimalStep(v, []);
    assert Decimal(v) + [] == Decimal(v);
    if v == 0 {
      return [0x30];
    }
    PowersOfTen(v, 8);
    var w, tail: seq<byte> := v, [];
    while w > 0 && |tail| < 8
      invariant 0 <= w && 0 <= |tail| <= 8 && w < Pow10(8 - |tail|)
      invariant Decimal(v) == if w > 0 then Decimal(w) + tail else tail
    {
      DecimalStep(w, tail);
      PowersOfTen(w, 8 - |tail|);
      tail := [0x30 + w % 10] + tail;
      w := w / 10;
    }
    PowersOfTen(w, 0);
    out := tail;
  }

  /** The last digit moves from the number to the tail. */
  lemma DecimalStep(w: nat, tail: seq<byte>)
    ensures Decimal(w) + tail == (if w >= 10 then Decimal(w / 10) else []) + ([0x30 + w % 10] + tail)
  {
  }

  lemma PowersOfTen(w: nat, n: nat)
    ensures n > 0 && w < Pow10(n) ==> w / 10 < Pow10(n - 1)
    ensures Pow10(0) == 1 && Pow10(8) == 100_000_000
  {
    assert Pow10(1) == 10 && Pow10(2) == 100 && Pow10(3) == 1000 && Pow10(4) == 10_000;
    assert Pow10(5) == 100_000 && Pow10(6) == 1_000_000 && Pow10(7) == 10_000_000;
  }

  function Pow10(n: nat): nat { if n == 0 then 1 else 10 * Pow10(n - 1) }

  lemma DecimalShape(n: nat)
    requires 1 <= n <= CANDIDATES
    ensures n < 10 ==> Decimal(n) == [0x30 + n]
    ensures 10 <= n < 100 ==> Decimal(n) == [0x30 + n / 10, 0x30 + n % 10]
    ensures 100 <= n ==> Decimal(n) == [0x30 + n / 100, 0x30 + n / 10 % 10, 0x30 + n % 10]
  {
    if 10 <= n < 100 {
      assert Decimal(n / 10) == [0x30 + n / 10];
    } else if 100 <= n {
      assert n / 10 / 10 == n / 100;
      assert Decimal(n / 10) == Decimal(n / 10 / 10) + [0x30 + n / 10 % 10];
    }
  }

  lemma {:induction false} DecimalInjective(n: nat, m: nat)
    requires Decimal(n) == Decimal(m)
    ensures n == m
  {
    var s, t := Decimal(n), Decimal(m);
    if n >= 10 && m >= 10 {
      assert s[..|s| - 1] == Decimal(n / 10) && t[..|t| - 1] == Decimal(m / 10);
      assert s[|s| - 1] == t[|t| - 1];
      DecimalInjective(n / 10, m / 10);
    }
  }

  /** How many characters of the base a candidate keeps. */
  function Keep(base: seq<byte>, tag: seq<byte>): nat
    requires |tag| <= 3
  {
    if 7 - |tag| > |base| then |base| else 7 - |tag|
  }

  function TagOf(n: nat): (tag: seq<byte>)
    requires 1 <= n <= CANDIDATES
    ensures 1 <= |tag| <= 3 && forall i :: 0 <= i < |tag| ==> 0x30 <= tag[i] <= 0x39
  {
    DecimalShape(n);
    Decimal(n)
  }

  /** Candidate number `n`: base, tilde, number, padding. */
  function Candidate(base: seq<byte>, n: nat): (r: seq<byte>)
    requires 1 <= n <= CANDIDATES
    ensures |r| == 8
  {
    var tag := TagOf(n);
    var k := Keep(base, tag);
    base[..k] + [TILDE] + tag + Repeat(SPACE, 7 - k - |tag|)
  }

  /** Different numbers give different candidates, whatever the base contains. */
  lemma CandidatesDiffer(base: seq<byte>, n: nat, m: nat)
    requires 1 <= n <= CANDIDATES && 1 <= m <= CANDIDATES && n != m
    ensures Candidate(base, n) != Candidate(base, m)
  {
    if |TagOf(n)| <= |TagOf(m)| {
      CandidatesDifferOrdered(base, n, m);
    } else {
      CandidatesDifferOrdered(base, m, n);
    }
  }

  lemma CandidatesDifferOrdered(base: seq<byte>, n: nat, m: nat)
    requires 1 <= n <= CANDIDATES && 1 <= m <= CANDIDATES && n != m && |TagOf(n)| <= |TagOf(m)|
    ensures Candidate(base, n) != Candidate(base, m)
  {
    var s, t := TagOf(n), TagOf(m);
    var a, b := Candidate(base, n), Candidate(base, m);
    var j, k := Keep(base, s), Keep(base, t);
    if |s| == |t| {
      assert a[k + 1..k + 1 + |s|] == s && b[k + 1..k + 1 + |t|] == t;
      if s == t {
        DecimalInjective(n, m);
      }
    } else if |base| <= k {
      assert a[k + 1 + |s|] == SPACE && b[k + 1 + |s|] == t[|s|];
    } else if j < 7 - |s| {
      assert a[7] == SPACE && b[7] == t[|t| - 1];
    } else {
      assert a[7 - |s|] == TILDE && b[7 - |s|] == t[|t| - |s| - 1];
    }
  }

  /** A directory, cluster by cluster. short_name_exists stops at an end mark only within its cluster. */
  type Clusters = seq<seq<Entry>>

  predicate Live(cluster: seq<Entry>, k: nat)
    requires k < |cluster|
  {
    !IsFree(cluster[k]) && !IsLfn(cluster[k]) && forall j :: 0 <= j < k ==> !IsEnd(cluster[j])
  }

  ghost predicate Present(dir: Clusters, short: seq<byte>) {
    exists c, k :: 0 <= c < |dir| && 0 <= k < |dir[c]| && Live(dir[c], k) && dir[c][k][..11] == short
  }

  /** Where the live short entries are. */
  ghost function LiveSet(dir: Clusters): set<(nat, nat)> {
    set c: nat, k: nat | c < |dir| && k < |dir[c]| && Live(dir[c], k) :: (c, k)
  }

  /** Candidates 1 to m all present take up m different live entries. */
  lemma {:induction false} TakenEntries(dir: Clusters, base: seq<byte>, ext: seq<byte>, m: nat)
    returns (taken: set<(nat, nat)>)
    requires m <= CANDIDATES && |ext| == 3
    requires forall n :: 1 <= n <= m ==> Present(dir, Candidate(base, n) + ext)
    ensures taken <= LiveSet(dir) && |taken| == m
    ensures forall p :: p in taken ==> exists n :: 1 <= n <= m && dir[p.0][p.1][..11] == Candidate(base, n) + ext
  {
    hide Candidate, Live;
    if m == 0 {
      taken := {};
    } else {
      taken := TakenEntries(dir, base, ext, m - 1);
      assert Present(dir, Candidate(base, m) + ext);
      var c: nat, k: nat :| c < |dir| && k < |dir[c]| && Live(dir[c], k) && dir[c][k][..11] == Candidate(base, m) + ext;
      forall n | 1 <= n <= m - 1
        ensures dir[c][k][..11] != Candidate(base, n) + ext
      {
        NamesDiffer(base, n, m, ext);
      }
      taken := taken + {(c, k)};
    }
  }

  lemma NamesDiffer(base: seq<byte>, n: nat, m: nat, ext: seq<byte>)
    requires 1 <= n <= CANDIDATES && 1 <= m <= CANDIDATES && n != m
    ensures Candidate(base, n) + ext != Candidate(base, m) + ext
  {
    hide Candidate;
    CandidatesDiffer(base, n, m);
    assert (Candidate(base, n) + ext)[..8] == Candidate(base, n);
    assert (Candidate(base, m) + ext)[..8] == Candidate(base, m);
  }

  /** In a directory with fewer than 999 live short entries some candidate is free. */
  lemma CandidateFree(dir: Clusters, base: seq<byte>, ext: seq<byte>)
    requires |ext| == 3 && |LiveSet(dir)| < CANDIDATES
    ensures exists n :: 1 <= n <= CANDIDATES && !Present(dir, Candidate(base, n) + ext)
  {
    if forall n :: 1 <= n <= CANDIDATES ==> Present(dir, Candidate(base, n) + ext) {
      var taken := TakenEntries(dir, base, ext, CANDIDATES);
      SubsetSize(taken, LiveSet(dir));
      assert false;
    }
  }

  /** The plain 8.3 name of a leaf shows unless the leaf starts with 0xE5, or starts with a space or dot (or is
      empty) and has no extension to fall back on. */
  predicate PlainShown(leaf: seq<byte>) {
    if leaf == [] || leaf[0] == SPACE || leaf[0] == DOT then Ext(leaf) != [] && Ext(leaf)[0] != SPACE
    else leaf[0] != 0xE5
  }

  /** A tilde name of a leaf shows unless the base it is made of starts with 0xE5. */
  predicate TildeShown(leaf: seq<byte>) {
    BaseOf(leaf) == [] || BaseOf(leaf)[0] != 0xE5
  }

  lemma ShortOfShown(leaf: seq<byte>, e: Entry)
    requires forall i :: 0 <= i < |leaf| ==> leaf[i] != 0
    requires e[..11] == ShortOf(leaf) && !IsLfn(e) && !IsVolume(e)
    ensures IsShown(e) <==> PlainShown(leaf)
    ensures !IsEnd(e)
  {
    var s := ShortOf(leaf);
    assert e[0] == e[..11][0] == s[0] && s[8] == Field(Ext(leaf), 3)[0];
    var d := DotAt(leaf);
    assert leaf != [] && leaf[0] != DOT ==> d > 0 && leaf[..d][0] == leaf[0];
  }

  lemma {:induction false} BaseStarts(leaf: seq<byte>)
    requires forall i :: 0 <= i < |leaf| ==> leaf[i] != 0
    ensures forall i :: 0 <= i < |BaseOf(leaf)| ==>
      BaseOf(leaf)[i] != 0 && BaseOf(leaf)[i] != SPACE && BaseOf(leaf)[i] != DOT
    ensures leaf != [] && leaf[0] != SPACE && leaf[0] != DOT ==> BaseOf(leaf) != [] && BaseOf(leaf)[0] == Upper(leaf[0])
  {
    if leaf != [] && leaf[0] != DOT {
      BaseStarts(leaf[1..]);
    }
  }

  lemma CandidateShown(leaf: seq<byte>, n: nat, e: Entry)
    requires 1 <= n <= CANDIDATES && forall i :: 0 <= i < |leaf| ==> leaf[i] != 0
    requires e[..8] == Candidate(BaseOf(leaf), n) && !IsLfn(e) && !IsVolume(e)
    ensures IsShown(e) <==> TildeShown(leaf)
    ensures !IsEnd(e)
  {
    hide BaseOf, Candidate, IsShown;
    BaseStarts(leaf);
    CandidateHead(BaseOf(leaf), n);
    assert e[0] == e[..8][0];
    HeadShown(e);
  }

  lemma CandidateHead(base: seq<byte>, n: nat)
    requires 1 <= n <= CANDIDATES
    ensures Candidate(base, n)[0] == if base == [] then TILDE else base[0]
  {
    hide Decimal;
  }

  lemma HeadShown(e: Entry)
    requires !IsLfn(e) && !IsVolume(e) && e[0] != 0 && e[0] != SPACE && e[0] != DOT
    ensures IsShown(e) <==> e[0] != 0xE5
  {
    assert e[..11][0] == e[0];
  }

  /** A leaf that starts with none of space, dot and 0xE5 gets a short name that shows, whichever it is. */
  lemma OrdinaryLeaf(leaf: seq<byte>)
    requires leaf != [] && leaf[0] != SPACE && leaf[0] != DOT && leaf[0] != 0xE5
    requires forall i :: 0 <= i < |leaf| ==> leaf[i] != 0
    ensures PlainShown(leaf) && TildeShown(leaf)
  {
    hide BaseOf;
    BaseStarts(leaf);
  }

  /** Leaves for which only one of the two names shows: a space and an A, and a space, 0xE5 and an extension. */
  lemma HiddenLeaves()
    ensures !PlainShown([0x20, 0x41]) && TildeShown([0x20, 0x41])
    ensures PlainShown([0x20, 0xE5, 0x2E, 0x54]) && !TildeShown([0x20, 0xE5, 0x2E, 0x54])
  {
    var a: seq<byte>, b: seq<byte> := [0x20, 0x41], [0x20, 0xE5, 0x2E, 0x54];
    assert a[1..] == [0x41] && b[1..] == [0xE5, 0x2E, 0x54] && b[1..][1..] == [0x2E, 0x54];
    assert BaseOf(a[1..]) == [0x41] && BaseOf(a) == [0x41];
    assert BaseOf(b[1..]) == [0xE5] + BaseOf(b[1..][1..]) && BaseOf(b)[0] == 0xE5;
    assert DotAt(b) == 2 && Ext(b) == [0x54];
    assert DotAt(a) == 2 && Ext(a) == [];
  }

  /** The letters from a to z become those from A to Z, and every other character stays. */
  lemma UpperLetters(c: byte)
    ensures 'a' as int <= c <= 'z' as int ==> Upper(c) - 'A' as int == c - 'a' as int
    ensures !('a' as int <= c <= 'z' as int) ==> Upper(c) == c
  {
  }

  /** A character that an 8.3 field gives back as it is. */
  predicate Faithful(c: byte) { c != 0 && c != SPACE && !('a' as int <= c <= 'z' as int) }

  predicate AllFaithful(s: seq<byte>) { forall i :: 0 <= i < |s| ==> Faithful(s[i]) }

  lemma FaithfulParts(a: seq<byte>, b: seq<byte>)
    ensures AllFaithful(a + b) <==> AllFaithful(a) && AllFaithful(b)
  {
    hide Faithful;
    assert forall i :: 0 <= i < |a| ==> a[i] == (a + b)[i];
    assert forall i :: 0 <= i < |b| ==> b[i] == (a + b)[|a| + i];
  }

  lemma {:induction false} UnpaddedField(f: seq<byte>, n: nat)
    requires n <= |f| && (forall i :: 0 <= i < n ==> f[i] != 0 && f[i] != SPACE)
    requires n < |f| ==> f[n] == SPACE
    ensures Unpadded(f) == f[..n]
  {
    if n > 0 {
      UnpaddedField(f[1..], n - 1);
    }
  }

  lemma {:induction false} UnpaddedPrefix(f: seq<byte>)
    ensures Unpadded(f) <= f && forall i :: 0 <= i < |Unpadded(f)| ==> Unpadded(f)[i] != 0 && Unpadded(f)[i] != SPACE
  {
    if !(f == [] || f[0] == 0 || f[0] == SPACE) {
      UnpaddedPrefix(f[1..]);
    }
  }

  /** A stretch of a name comes back from its field exactly if it fits and every character does. */
  lemma FieldReadsBack(s: seq<byte>, n: nat)
    ensures Unpadded(Field(s, n)) == s <==> |s| <= n && AllFaithful(s)
  {
    var f := Field(s, n);
    UnpaddedPrefix(f);
    hide Unpadded;
    if |s| <= n && AllFaithful(s) {
      UnpaddedField(f, |s|);
      assert f[..|s|] == s;
    }
  }

  lemma {:induction false} DotAfter(a: seq<byte>, b: seq<byte>)
    requires forall i :: 0 <= i < |a| ==> a[i] != DOT
    ensures DotAt(a + b) == |a| + DotAt(b)
  {
    if a != [] {
      assert (a + b)[1..] == a[1..] + b;
      DotAfter(a[1..], b);
    } else {
      assert a + b == b;
    }
  }

  /** A name comes back from its short form exactly if it is a plain upper-case 8.3 name. */
  lemma ShortReadsBack(name: seq<byte>)
    ensures ShortText(ShortOf(name)) == name <==>
      && DotAt(name) <= 8 && |Ext(name)| <= 3 && (DotAt(name) < |name| ==> Ext(name) != [])
      && AllFaithful(name)
  {
    hide Unpadded, Field, DotAt, AllFaithful, Faithful;
    var d := DotAt(name);
    var base, ext := name[..d], Ext(name);
    FieldReadsBack(base, 8);
    FieldReadsBack(ext, 3);
    NoDots(base, 8);
    assert ShortOf(name)[..8] == Field(base, 8) && ShortOf(name)[8..] == Field(ext, 3);
    TextSplits(name, Unpadded(Field(base, 8)), Unpadded(Field(ext, 3)));
    NameFaithful(name);
  }

  lemma NameFaithful(name: seq<byte>)
    ensures AllFaithful(name) <==> AllFaithful(name[..DotAt(name)]) && AllFaithful(Ext(name))
  {
    hide DotAt, AllFaithful;
    var d, ext := DotAt(name), Ext(name);
    DotFaithful();
    FaithfulParts([DOT], ext);
    FaithfulParts(name[..d], name[d..]);
    assert name == name[..d] + name[d..];
    assert name[d..] == if d < |name| then [DOT] + ext else [];
  }

  /** A text made of a base without dots and an extension is a given name exactly if they are its parts. */
  lemma TextSplits(name: seq<byte>, b: seq<byte>, e: seq<byte>)
    requires forall i :: 0 <= i < |b| ==> b[i] != DOT
    ensures b + (if e == [] then [] else [DOT] + e) == name <==>
      && b == name[..DotAt(name)] && e == Ext(name) && (DotAt(name) < |name| ==> e != [])
  {
    hide DotAt, Upper;
    var d, tail := DotAt(name), if e == [] then [] else [DOT] + e;
    if b + tail == name {
      DotAfter(b, tail);
      DotFirst(tail);
      assert b == name[..|b|] && tail == name[|b|..];
    }
    if b == name[..d] && e == Ext(name) && (d < |name| ==> e != []) {
      assert name == name[..d] + name[d..];
    }
  }

  lemma DotFirst(t: seq<byte>)
    requires t == [] || t[0] == DOT
    ensures DotAt(t) == 0
  {
  }

  lemma NoDots(s: seq<byte>, n: nat)
    requires forall i :: 0 <= i < |s| ==> s[i] != DOT
    ensures forall i :: 0 <= i < |Unpadded(Field(s, n))| ==> Unpadded(Field(s, n))[i] != DOT
  {
    UnpaddedPrefix(Field(s, n));
    hide Unpadded;
  }

  lemma DotFaithful()
    ensures AllFaithful([DOT]) && AllFaithful([])
  {
  }

  /** A candidate has as much of the base as its eight characters admit, then the tilde and the number. */
  lemma CandidateIs(base: seq<byte>, n: nat)
    requires 1 <= n <= CANDIDATES
    ensures var tag := [TILDE] + Decimal(n); var r := Candidate(base, n);
      && 2 <= |tag| <= 4
      && if |base| + |tag| <= 8 then r == base + tag + Repeat(SPACE, 8 - |base| - |tag|)
         else r == base[..8 - |tag|] + tag
  {
    hide Decimal;
    var tag := TagOf(n);
    assert tag == Decimal(n);
    var k := Keep(base, tag);
    assert base[..k] + [TILDE] + tag == base[..k] + ([TILDE] + tag);
  }

  /** The number that decimal digits stand for. */
  function Value(digits: seq<byte>): int {
    if digits == [] then 0 else 10 * Value(digits[..|digits| - 1]) + (digits[|digits| - 1] as int - 0x30)
  }

  /** The digits of a number stand for it. */
  lemma {:induction false} DecimalValue(v: nat)
    ensures Value(Decimal(v)) == v
  {
    if v >= 10 {
      DecimalValue(v / 10);
      assert Decimal(v)[..|Decimal(v)| - 1] == Decimal(v / 10);
    } else {
      assert Decimal(v)[..0] == [];
    }
  }
}
