/** A directory as a sequence of 32-byte entries and the listing that fat32_scan_dir makes of it
    (Microsoft FAT Specification, sections 6 and 7). */
module FatListing {
  import opened Bytes
  import opened FatDirEntry

  const NAME_MAX := 64        // VFS_NAME_MAX: room for 63 characters and a NUL
  const MAX_LFN := 10         // longest long-name run
  const CHARS := 13           // characters per long-name entry
  const MAX_LEAF := 130       // MAX_LFN * CHARS

  predicate IsEnd(e: Entry) { e[0] == 0x00 }
  predicate IsTomb(e: Entry) { e[0] == 0xE5 }
  predicate IsFree(e: Entry) { IsEnd(e) || IsTomb(e) }
  predicate IsLfn(e: Entry) { e[11] % 0x10 == 0x0F }
  predicate IsVolume(e: Entry) { e[11] / 8 % 2 == 1 }
  predicate IsDir(e: Entry) { e[11] / 0x10 % 2 == 1 }
  function Seq(e: Entry): nat { e[0] % 0x20 }
  predicate IsFirst(e: Entry) { e[0] / 0x40 % 2 == 1 }

  /** Byte offset of character `k` in a long-name entry. */
  function CharOffset(k: nat): (o: nat)
    requires k < CHARS
    ensures 1 <= o && o + 2 <= ENTRY && o != 10 && o != 11 && o != 12 && o != 13 && o != 25 && o != 26 && o != 27
  {
    if k < 5 then 1 + 2 * k else if k < 11 then 4 + 2 * k else 6 + 2 * k
  }

  function CharAt(e: Entry, k: nat): nat
    requires k < CHARS
  {
    LE16(e, CharOffset(k))
  }

  /** The three groups of characters: five, six and two. */
  lemma CharOffsets(k: nat)
    requires k < CHARS
    ensures CharOffset(k) == [1, 3, 5, 7, 9, 14, 16, 18, 20, 22, 24, 28, 30][k]
  {
  }

  /** The checksum that ties a long-name run to its short entry: rotate right, add. */
  function Checksum(short: seq<byte>): (sum: byte) {
    if short == [] then 0
    else
      Rotated(Checksum(short[..|short| - 1]), short[|short| - 1])
  }

  /** The checksum after one more character. */
  function Rotated(sum: byte, b: byte): (r: byte) {
    (Turn(sum) as int + b as int) % 0x100
  }

  lemma ChecksumStep(s: seq<byte>, b: byte)
    ensures Checksum(s + [b]) == Rotated(Checksum(s), b)
  {
    assert (s + [b])[..|s|] == s;
  }

  /** Neither the checksum so far nor the next character is lost. */
  lemma RotatedInjective(s: byte, b: byte, t: byte, c: byte)
    ensures s != t ==> Rotated(s, b) != Rotated(t, b)
    ensures b != c ==> Rotated(s, b) != Rotated(s, c)
  {
    var x, y := Turn(s), Turn(t);
    SumsDiffer(x, b, c);
    SumsDiffer(b, x, y);
  }

  /** A byte rotated right by one bit; turning left again gives it back. */
  function Turn(s: byte): (x: byte)
    ensures s == 2 * (x % 0x80) + x / 0x80
  {
    (if s % 2 == 1 then 0x80 else 0) + s / 2
  }

  lemma SumsDiffer(x: byte, b: byte, c: byte)
    ensures b != c ==> (x as int + b as int) % 0x100 != (x as int + c as int) % 0x100
  {
  }

  /** A name in which one character is changed has another checksum. */
  lemma {:induction false} ChecksumNotices(s: seq<byte>, i: nat, b: byte)
    requires i < |s| && b != s[i]
    ensures Checksum(s[i := b]) != Checksum(s)
  {
    hide Checksum, Rotated;
    var n := |s| - 1;
    assert s == s[..n] + [s[n]];
    ChecksumStep(s[..n], s[n]);
    if i < n {
      ChecksumNotices(s[..n], i, b);
      assert s[i := b] == s[..n][i := b] + [s[n]];
      ChecksumStep(s[..n][i := b], s[n]);
      RotatedInjective(Checksum(s[..n][i := b]), s[n], Checksum(s[..n]), 0);
    } else {
      assert s[i := b] == s[..n] + [b];
      ChecksumStep(s[..n], b);
      RotatedInjective(Checksum(s[..n]), b, 0, s[n]);
    }
  }

  /** The checksum of README.TXT. */
  lemma ChecksumOfReadme()
    ensures Checksum([0x52, 0x45, 0x41, 0x44, 0x4D, 0x45, 0x20, 0x20, 0x54, 0x58, 0x54]) == 0x73
  {
    hide Checksum, Rotated;
    SumsOfReadme();
    EmptyChecksum();
    ChecksumFour([], 0x52, 0x45, 0x41, 0x44);
    var read: seq<byte> := [] + [0x52, 0x45, 0x41, 0x44];
    ChecksumFour(read, 0x4D, 0x45, 0x20, 0x20);
    var name: seq<byte> := read + [0x4D, 0x45, 0x20, 0x20];
    ChecksumStep(name, 0x54);
    ChecksumStep(name + [0x54], 0x58);
    ChecksumStep(name + [0x54] + [0x58], 0x54);
    assert name + [0x54] + [0x58] + [0x54] == [0x52, 0x45, 0x41, 0x44, 0x4D, 0x45, 0x20, 0x20, 0x54, 0x58, 0x54];
  }

  lemma EmptyChecksum()
    ensures Checksum([]) == 0
  {
  }

  lemma SumsOfReadme()
    ensures Rotated(0, 0x52) == 0x52 && Rotated(0x52, 0x45) == 0x6E && Rotated(0x6E, 0x41) == 0x78
    ensures Rotated(0x78, 0x44) == 0x80 && Rotated(0x80, 0x4D) == 0x8D && Rotated(0x8D, 0x45) == 0x0B
    ensures Rotated(0x0B, 0x20) == 0xA5 && Rotated(0xA5, 0x20) == 0xF2 && Rotated(0xF2, 0x54) == 0xCD
    ensures Rotated(0xCD, 0x58) == 0x3E && Rotated(0x3E, 0x54) == 0x73
  {
  }

  lemma ChecksumFour(s: seq<byte>, a: byte, b: byte, c: byte, d: byte)
    ensures Checksum(s + [a, b, c, d]) == Rotated(Rotated(Rotated(Rotated(Checksum(s), a), b), c), d)
  {
    hide Checksum, Rotated;
    ChecksumStep(s, a);
    ChecksumStep(s + [a], b);
    ChecksumStep(s + [a] + [b], c);
    ChecksumStep(s + [a] + [b] + [c], d);
    assert s + [a] + [b] + [c] + [d] == s + [a, b, c, d];
  }

  /** The characters of `s` before its first NUL. */
  function CString(s: seq<byte>): (r: seq<byte>)
    ensures |r| <= |s| && forall i :: 0 <= i < |r| ==> r[i] == s[i] && s[i] != 0
    ensures |r| < |s| ==> s[|r|] == 0
  {
    if s == [] || s[0] == 0 then [] else [s[0]] + CString(s[1..])
  }

  /** Characters before the first NUL or space. */
  function Unpadded(s: seq<byte>): (r: seq<byte>)
    ensures |r| <= |s|
    ensures r == [] <==> s == [] || s[0] == 0 || s[0] == 0x20
  {
    if s == [] || s[0] == 0 || s[0] == 0x20 then [] else [s[0]] + Unpadded(s[1..])
  }

  /** The 8.3 name as text: base, and a dot and extension if there is one. */
  function ShortText(short: seq<byte>): (r: seq<byte>)
    requires |short| == 11
    ensures r == [] <==> (short[0] == 0 || short[0] == 0x20) && (short[8] == 0 || short[8] == 0x20)
    ensures |r| <= 12
  {
    var ext := Unpadded(short[8..]);
    Unpadded(short[..8]) + if ext == [] then [] else [0x2E] + ext
  }

  /** The name buffer after copying in the characters `k` and later of long-name entry `e`. */
  function Gather(buf: seq<byte>, e: Entry, base: nat, k: nat): (r: seq<byte>)
    requires |buf| == NAME_MAX && k <= CHARS
    ensures |r| == NAME_MAX
    decreases CHARS - k
  {
    if k == CHARS || base + k >= NAME_MAX - 1 || CharAt(e, k) == 0 then buf
    else Gather(buf[base + k := CharAt(e, k) % 0x100], e, base, k + 1)
  }

  /** What the scanner remembers of a long-name run: nothing, or the sequence number that must
      come next, the run's checksum and the name gathered so far. */
  datatype Run = NoRun | Run(next: int, sum: byte, name: seq<byte>)

  datatype Listed = Listed(name: seq<byte>, index: nat, isDir: bool, start: nat, size: nat)

  datatype Scanner = Scanner(stopped: bool, run: Run, listing: seq<Listed>) {
    predicate Valid() { run.Run? ==> |run.name| == NAME_MAX }
  }

  function LfnStep(run: Run, e: Entry): (r: Run)
    requires run.Run? ==> |run.name| == NAME_MAX
    ensures r.Run? ==> |r.name| == NAME_MAX
  {
    var cur := if IsFirst(e) then Run(Seq(e), e[13], Repeat(0, NAME_MAX)) else run;
    if cur.NoRun? || Seq(e) != cur.next || e[13] != cur.sum || Seq(e) < 1 || Seq(e) > MAX_LFN then NoRun
    else Run(Seq(e) - 1, cur.sum, Gather(cur.name, e, (Seq(e) - 1) * CHARS, 0))
  }

  function NameOf(run: Run, e: Entry): seq<byte>
    requires run.Run? ==> |run.name| == NAME_MAX
  {
    if run.Run? && run.next == 0 && Checksum(e[..11]) == run.sum then CString(run.name) else ShortText(e[..11])
  }

  /** A short entry that the listing shows. */
  predicate IsShown(e: Entry) {
    !IsFree(e) && !IsLfn(e) && !IsVolume(e) && e[0] != 0x2E && ShortText(e[..11]) != []
  }

  /** Which entries those are, by their bytes: in use, no dot entry, no volume label or long-name entry, and not
      blank both in base and in extension. */
  lemma ShownBytes(e: Entry)
    ensures IsShown(e) <==>
      && e[0] != 0x00 && e[0] != 0xE5 && e[0] != 0x2E && e[11] / 8 % 2 == 0
      && (e[0] != 0x20 || (e[8] != 0x00 && e[8] != 0x20))
  {
    assert e[..11][0] == e[0] && e[..11][8] == e[8];
    assert e[11] % 0x10 == 0x0F ==> e[11] / 8 % 2 == 1;
  }

  /** The directory loop's body for the entry at `index`. */
  function Step(s: Scanner, e: Entry, index: nat): (r: Scanner)
    requires s.Valid()
    ensures r.Valid()
  {
    if s.stopped || IsEnd(e) then s.(stopped := true)
    else if IsTomb(e) then s.(run := NoRun)
    else if IsLfn(e) then s.(run := LfnStep(s.run, e))
    else if !IsShown(e) then s.(run := NoRun)
    else Scanner(false, NoRun, s.listing + [Listed(NameOf(s.run, e), index, IsDir(e), FirstCluster(e), FileSize(e))])
  }

  function Scan(es: seq<Entry>, n: nat, from: Scanner, index: nat): (r: Scanner)
    requires n <= |es| && from.Valid()
    ensures r.Valid()
  {
    if n == 0 then from else Step(Scan(es, n - 1, from, index), es[n - 1], index + n - 1)
  }

  const START := Scanner(false, NoRun, [])

  /** What fat32_scan_dir finds in a directory, one level deep. */
  function Listing(es: seq<Entry>): seq<Listed> { Scan(es, |es|, START, 0).listing }

  lemma {:induction false} ScanConcat(a: seq<Entry>, b: seq<Entry>, n: nat, from: Scanner, index: nat)
    requires from.Valid() && n <= |b|
    ensures Scan(a + b, |a| + n, from, index) == Scan(b, n, Scan(a, |a|, from, index), index + |a|)
  {
    if n == 0 {
      ScanPrefix(a, a + b, |a|, from, index);
    } else {
      ScanConcat(a, b, n - 1, from, index);
    }
  }

  lemma {:induction false} ScanPrefix(a: seq<Entry>, b: seq<Entry>, n: nat, from: Scanner, index: nat)
    requires from.Valid() && n <= |a| && n <= |b| && a[..n] == b[..n]
    ensures Scan(a, n, from, index) == Scan(b, n, from, index)
  {
    if n > 0 {
      assert a[..n][n - 1] == b[..n][n - 1];
      assert a[..n - 1] == a[..n][..n - 1] && b[..n - 1] == b[..n][..n - 1];
      ScanPrefix(a, b, n - 1, from, index);
    }
  }

  lemma StepAppends(s: Scanner, e: Entry, index: nat)
    requires s.Valid()
    ensures var r := Step(s.(listing := []), e, index);
            Step(s, e, index) == r.(listing := s.listing + r.listing)
  {
    hide LfnStep, NameOf, IsShown, IsLfn, IsEnd, IsTomb;
    assert s.listing + [] == s.listing;
    assert forall x: seq<Listed> :: [] + x == x;
  }

  /** The listing found so far is only ever appended to. */
  lemma {:induction false} ScanAppends(es: seq<Entry>, n: nat, from: Scanner, index: nat)
    requires n <= |es| && from.Valid()
    ensures var r := Scan(es, n, from.(listing := []), index);
            Scan(es, n, from, index) == r.(listing := from.listing + r.listing)
  {
    hide Step;
    if n > 0 {
      ScanAppends(es, n - 1, from, index);
      var s := Scan(es, n - 1, from.(listing := []), index);
      StepAppends(s, es[n - 1], index + n - 1);
      StepAppends(s.(listing := from.listing + s.listing), es[n - 1], index + n - 1);
      var t := Step(s.(listing := []), es[n - 1], index + n - 1);
      assert (from.listing + s.listing) + t.listing == from.listing + (s.listing + t.listing);
    }
  }

  /** Free entries add nothing, and leave no run behind unless the scan has stopped. */
  lemma {:induction false} ScanFree(es: seq<Entry>, n: nat, from: Scanner, index: nat)
    requires n <= |es| && from.Valid() && forall i :: 0 <= i < n ==> IsFree(es[i])
    ensures Scan(es, n, from, index).listing == from.listing
    ensures (forall i :: 0 <= i < n ==> IsTomb(es[i])) && n > 0 && !from.stopped ==>
      Scan(es, n, from, index) == Scanner(false, NoRun, from.listing)
    ensures from.stopped || (exists i :: 0 <= i < n && IsEnd(es[i])) ==> Scan(es, n, from, index).stopped
  {
    if n > 0 {
      ScanFree(es, n - 1, from, index);
    }
  }

  lemma {:induction false} ScanStopped(es: seq<Entry>, n: nat, from: Scanner, index: nat)
    requires n <= |es| && from.Valid() && from.stopped
    ensures Scan(es, n, from, index) == from
  {
    if n > 0 {
      ScanStopped(es, n - 1, from, index);
    }
  }

  lemma {:induction false} ScanRuns(es: seq<Entry>, n: nat, from: Scanner, index: nat)
    requires n <= |es| && from.Valid() && !from.stopped && forall i :: 0 <= i < n ==> !IsEnd(es[i])
    ensures !Scan(es, n, from, index).stopped
  {
    if n > 0 {
      ScanRuns(es, n - 1, from, index);
    }
  }

  /** Nothing in use lies behind the first end mark. */
  ghost predicate TailFree(es: seq<Entry>) {
    forall i, j :: 0 <= i < j < |es| && IsEnd(es[i]) ==> IsFree(es[j])
  }

  /** Character `pos` of a leaf as a long-name entry stores it: the name, one NUL, then filler. */
  function StoredChar(leaf: seq<byte>, pos: nat): nat {
    if pos < |leaf| then leaf[pos] else if pos == |leaf| then 0 else 0xFFFF
  }

  /** `e` is entry number `n` of the long-name run for `leaf`. */
  ghost predicate LfnFor(e: Entry, leaf: seq<byte>, sum: byte, n: nat, first: bool) {
    && 1 <= n <= MAX_LFN
    && e[0] == n + (if first then 0x40 else 0) && e[11] == 0x0F && e[13] == sum
    && forall k :: 0 <= k < CHARS ==> CharAt(e, k) == StoredChar(leaf, (n - 1) * CHARS + k)
  }

  /** A whole run, highest number first, and the short entry it belongs to. */
  ghost predicate RunFor(ns: seq<Entry>, leaf: seq<byte>) {
    && 2 <= |ns| <= MAX_LFN + 1 && !IsLfn(ns[|ns| - 1])
    && (forall i :: 0 <= i < |ns| - 1 ==> LfnFor(ns[i], leaf, Checksum(ns[|ns| - 1][..11]), |ns| - 1 - i, i == 0))
    && CHARS * (|ns| - 2) <= |leaf| <= CHARS * (|ns| - 1) && (forall i :: 0 <= i < |leaf| ==> leaf[i] != 0)
  }

  /** A leaf as far as the node name holds it. */
  function Kept(leaf: seq<byte>): seq<byte> {
    if |leaf| < NAME_MAX then leaf else leaf[..NAME_MAX - 1]
  }

  /** The name buffer holds the leaf from character `from` on, and NULs elsewhere. */
  ghost predicate Holds(buf: seq<byte>, leaf: seq<byte>, from: nat) {
    && |buf| == NAME_MAX
    && forall p :: 0 <= p < NAME_MAX ==> buf[p] == if from <= p < |leaf| && p < NAME_MAX - 1 then leaf[p] else 0
  }

  lemma {:induction false} GatherChunk(buf: seq<byte>, e: Entry, leaf: seq<byte>, base: nat, k: nat)
    requires |buf| == NAME_MAX && k <= CHARS && forall i :: 0 <= i < |leaf| ==> leaf[i] != 0
    requires base + k <= |leaf|
    requires forall j :: 0 <= j < CHARS ==> CharAt(e, j) == StoredChar(leaf, base + j)
    ensures var r := Gather(buf, e, base, k);
      forall p :: 0 <= p < NAME_MAX ==>
        r[p] == if base + k <= p < base + CHARS && p < |leaf| && p < NAME_MAX - 1 then leaf[p] else buf[p]
    decreases CHARS - k
  {
    if !(k == CHARS || base + k >= NAME_MAX - 1 || CharAt(e, k) == 0) {
      GatherChunk(buf[base + k := CharAt(e, k) % 0x100], e, leaf, base, k + 1);
    }
  }

  lemma LfnHeader(e: Entry, leaf: seq<byte>, sum: byte, n: nat, first: bool)
    requires LfnFor(e, leaf, sum, n, first)
    ensures Seq(e) == n && IsFirst(e) == first && IsLfn(e) && !IsFree(e)
  {
  }

  lemma LfnStepLeaf(run: Run, e: Entry, leaf: seq<byte>, sum: byte, n: nat, first: bool)
    requires LfnFor(e, leaf, sum, n, first) && forall i :: 0 <= i < |leaf| ==> leaf[i] != 0
    requires (n - 1) * CHARS <= |leaf| && (first ==> |leaf| <= n * CHARS)
    requires !first ==> run.Run? && run.next == n && run.sum == sum && Holds(run.name, leaf, n * CHARS)
    requires run.Run? ==> |run.name| == NAME_MAX
    ensures var r := LfnStep(run, e); r.Run? && r.next == n - 1 && r.sum == sum && Holds(r.name, leaf, (n - 1) * CHARS)
  {
    hide Gather, CharAt, Seq, IsFirst, IsLfn, IsFree, StoredChar;
    LfnHeader(e, leaf, sum, n, first);
    GatherChunk(if first then Repeat(0, NAME_MAX) else run.name, e, leaf, (n - 1) * CHARS, 0);
  }

  /** Scanning the run gathers the leaf, whatever the scanner had seen before. */
  lemma {:induction false} ScanRun(ns: seq<Entry>, leaf: seq<byte>, n: nat, from: Scanner, index: nat)
    requires RunFor(ns, leaf) && from.Valid() && !from.stopped && 1 <= n < |ns|
    ensures var r := Scan(ns, n, from, index);
      && !r.stopped && r.listing == from.listing && r.run.Run?
      && r.run.next == |ns| - 1 - n && r.run.sum == Checksum(ns[|ns| - 1][..11])
      && Holds(r.run.name, leaf, (|ns| - 1 - n) * CHARS)
  {
    hide LfnStep, LfnFor, Holds, IsFree, IsLfn, IsShown, NameOf, Checksum;
    var sum := Checksum(ns[|ns| - 1][..11]);
    if n > 1 {
      ScanRun(ns, leaf, n - 1, from, index);
    }
    LfnHeader(ns[n - 1], leaf, sum, |ns| - n, n == 1);
    FreeKinds(ns[n - 1]);
    LfnStepLeaf(Scan(ns, n - 1, from, index).run, ns[n - 1], leaf, sum, |ns| - n, n == 1);
  }

  lemma FreeKinds(e: Entry)
    ensures IsFree(e) <==> IsEnd(e) || IsTomb(e)
  {
  }

  lemma {:induction false} CStringEnds(s: seq<byte>, n: nat)
    requires n < |s| && s[n] == 0 && forall i :: 0 <= i < n ==> s[i] != 0
    ensures CString(s) == s[..n]
  {
    if n > 0 {
      CStringEnds(s[1..], n - 1);
    }
  }

  lemma HeldName(buf: seq<byte>, leaf: seq<byte>)
    requires Holds(buf, leaf, 0) && forall i :: 0 <= i < |leaf| ==> leaf[i] != 0
    ensures CString(buf) == Kept(leaf)
  {
    CStringEnds(buf, |Kept(leaf)|);
    assert buf[..|Kept(leaf)|] == Kept(leaf);
  }

  function Entered(ns: seq<Entry>, leaf: seq<byte>, at: nat): Listed
    requires ns != []
  {
    var e := ns[|ns| - 1];
    Listed(Kept(leaf), at + |ns| - 1, IsDir(e), FirstCluster(e), FileSize(e))
  }

  /** The whole run and its short entry: one more listing item, under the leaf's own name. */
  lemma ScanEntered(ns: seq<Entry>, leaf: seq<byte>, from: Scanner, index: nat)
    requires RunFor(ns, leaf) && from.Valid() && !from.stopped && IsShown(ns[|ns| - 1])
    ensures Scan(ns, |ns|, from, index) == Scanner(false, NoRun, from.listing + [Entered(ns, leaf, index)])
  {
    hide LfnStep, LfnFor, Checksum, CString, ShortText, Kept;
    ScanRun(ns, leaf, |ns| - 1, from, index);
    HeldName(Scan(ns, |ns| - 1, from, index).run.name, leaf);
  }

  /** A scan in three stretches. */
  lemma ScanThree(a: seq<Entry>, b: seq<Entry>, c: seq<Entry>)
    ensures Scan(a + b + c, |a| + |b| + |c|, START, 0) ==
      Scan(c, |c|, Scan(b, |b|, Scan(a, |a|, START, 0), |a|), |a| + |b|)
  {
    hide Scan;
    ScanConcat(a + b, c, |c|, START, 0);
    ScanConcat(a, b, |b|, START, 0);
  }

  /** What follows adds the same items to whatever was listed before it. */
  lemma ScanTail(c: seq<Entry>, listing: seq<Listed>, index: nat)
    ensures Scan(c, |c|, Scanner(false, NoRun, listing), index).listing ==
      listing + Scan(c, |c|, Scanner(false, NoRun, []), index).listing
  {
    ScanAppends(c, |c|, Scanner(false, NoRun, listing), index);
  }

  /** Where a run of free slots may be taken: no end mark lies before it. */
  ghost predicate Slots(es: seq<Entry>, at: nat, n: nat) {
    && at + n <= |es|
    && (forall i :: at <= i < at + n ==> IsFree(es[i]))
    && (forall i :: 0 <= i < at ==> !IsEnd(es[i]))
  }

  /** The slots of a directory hold nothing that the listing shows. */
  lemma SlotsListing(es: seq<Entry>, at: nat, n: nat)
    requires TailFree(es) && Slots(es, at, n) && n > 0
    ensures !Scan(es, at, START, 0).stopped
    ensures Listing(es) == Scan(es, at, START, 0).listing +
      Scan(es[at + n..], |es| - at - n, Scanner(false, NoRun, []), at + n).listing
  {
    hide Scan;
    var a, b, c := es[..at], es[at..at + n], es[at + n..];
    assert es == a + b + c;
    ScanThree(a, b, c);
    ScanPrefix(a, es, at, START, 0);
    ScanRuns(es, at, START, 0);
    var from := Scan(es, at, START, 0);
    ScanFree(b, n, from, at);
    if forall i :: 0 <= i < n ==> IsTomb(b[i]) {
      ScanTail(c, from.listing, at + n);
    } else {
      var i :| 0 <= i < n && !IsTomb(b[i]);
      assert IsEnd(es[at + i]);
      ScanStopped(c, |c|, Scan(b, n, from, at), at + n);
      ScanFree(c, |c|, Scanner(false, NoRun, []), at + n);
    }
  }

  /** `more` is `some` with `x` inserted somewhere. */
  ghost predicate Gains<T(!new)>(some: seq<T>, more: seq<T>, x: T) {
    exists p :: 0 <= p <= |some| && more == some[..p] + [x] + some[p..]
  }

  /** Writing a long-name run and its short entry into free slots inserts exactly that leaf into the
      listing if the short entry is one that the scan shows, and adds nothing otherwise. */
  lemma InsertListing(es: seq<Entry>, at: nat, ns: seq<Entry>, leaf: seq<byte>)
    requires TailFree(es) && Slots(es, at, |ns|) && RunFor(ns, leaf)
    ensures IsShown(ns[|ns| - 1]) <==> Gains(Listing(es), Listing(Splice(es, at, ns)), Entered(ns, leaf, at))
    ensures !IsEnd(ns[|ns| - 1]) ==> TailFree(Splice(es, at, ns))
  {
    hide Scan, LfnFor, IsShown, Entered;
    var n := |ns|;
    var a, c := es[..at], es[at + n..];
    SlotsListing(es, at, n);
    assert Splice(es, at, ns) == a + ns + c;
    ScanThree(a, ns, c);
    ScanPrefix(a, es, at, START, 0);
    var from := Scan(es, at, START, 0);
    var rest := Scan(c, |c|, Scanner(false, NoRun, []), at + n).listing;
    if IsShown(ns[n - 1]) {
      ScanEntered(ns, leaf, from, at);
      ScanTail(c, from.listing + [Entered(ns, leaf, at)], at + n);
      var p := |from.listing|;
      assert Listing(es)[..p] == from.listing && Listing(es)[p..] == rest;
    } else {
      ScanHidden(ns, leaf, from, at);
      var end := Scan(ns, n, from, at);
      if end.stopped {
        ScanStopped(c, |c|, end, at + n);
      } else {
        ScanTail(c, from.listing, at + n);
      }
    }
    if !IsEnd(ns[n - 1]) {
      InsertKeepsTail(es, at, ns, leaf);
    }
  }

  lemma ScanHidden(ns: seq<Entry>, leaf: seq<byte>, from: Scanner, index: nat)
    requires RunFor(ns, leaf) && from.Valid() && !from.stopped && !IsShown(ns[|ns| - 1])
    ensures var r := Scan(ns, |ns|, from, index);
            r.listing == from.listing && (r.stopped || r == Scanner(false, NoRun, from.listing))
  {
    hide LfnStep, LfnFor, Checksum;
    ScanRun(ns, leaf, |ns| - 1, from, index);
  }

  lemma InsertKeepsTail(es: seq<Entry>, at: nat, ns: seq<Entry>, leaf: seq<byte>)
    requires TailFree(es) && Slots(es, at, |ns|) && RunFor(ns, leaf) && !IsEnd(ns[|ns| - 1])
    ensures TailFree(Splice(es, at, ns))
  {
    hide LfnFor;
    var sum := Checksum(ns[|ns| - 1][..11]);
    forall i | 0 <= i < |ns|
      ensures !IsEnd(ns[i])
    {
      if i < |ns| - 1 {
        LfnHeader(ns[i], leaf, sum, |ns| - 1 - i, i == 0);
      }
    }
  }

  /** Marking a shown entry, and any long-name entries right before it, as removed takes exactly that
      entry out of the listing; whatever else belonged to its run stays behind unseen. */
  lemma RemoveListing(es: seq<Entry>, es': seq<Entry>, r: nat, t: nat)
    requires r <= t < |es| == |es'| && IsShown(es[t])
    requires forall i :: 0 <= i < t ==> !IsEnd(es[i])
    requires forall i :: r <= i < t ==> IsLfn(es[i]) && !IsFree(es[i])
    requires forall i :: r <= i <= t ==> IsTomb(es'[i])
    requires forall i :: 0 <= i < |es| && !(r <= i <= t) ==> es'[i] == es[i]
    ensures var p := |Scan(es, r, START, 0).listing|;
      && p < |Listing(es)| && Listing(es)[p].index == t
      && Listing(es') == Listing(es)[..p] + Listing(es)[p + 1..]
  {
    hide Scan, IsShown, IsLfn, IsTomb, IsFree, Listing, IsEnd;
    var a, b, b', c := es[..r], es[r..t + 1], es'[r..t + 1], es[t + 1..];
    ThreeParts(es, es, r, t + 1);
    ThreeParts(es, es', r, t + 1);
    forall i | 0 <= i < |b|
      ensures b[i] == es[r + i] && b'[i] == es'[r + i]
    {
    }
    ScanPrefix(a, es, r, START, 0);
    RemoveStretch(a, b, b', c);
  }

  /** A sequence in three parts, of which only the middle one differs from another sequence's. */
  lemma ThreeParts<T>(s: seq<T>, s': seq<T>, lo: nat, hi: nat)
    requires lo <= hi <= |s| == |s'| && forall i :: 0 <= i < |s| && !(lo <= i < hi) ==> s'[i] == s[i]
    ensures s' == s[..lo] + s'[lo..hi] + s[hi..]
  {
  }

  lemma RemoveStretch(a: seq<Entry>, b: seq<Entry>, b': seq<Entry>, c: seq<Entry>)
    requires |b'| == |b| > 0 && IsShown(b[|b| - 1]) && forall i :: 0 <= i < |b| ==> IsTomb(b'[i])
    requires forall i :: 0 <= i < |a| ==> !IsEnd(a[i])
    requires forall i :: 0 <= i < |b| - 1 ==> IsLfn(b[i]) && !IsFree(b[i])
    ensures var p := |Scan(a, |a|, START, 0).listing|;
      && p < |Listing(a + b + c)| && Listing(a + b + c)[p].index == |a| + |b| - 1
      && Listing(a + b' + c) == Listing(a + b + c)[..p] + Listing(a + b + c)[p + 1..]
  {
    hide Scan, IsShown, IsLfn, IsTomb, IsFree, IsEnd;
    ScanThree(a, b, c);
    ScanThree(a, b', c);
    ScanRuns(a, |a|, START, 0);
    var from := Scan(a, |a|, START, 0);
    forall i | 0 <= i < |b|
      ensures IsFree(b'[i])
    {
      FreeKinds(b'[i]);
    }
    ScanFree(b', |b'|, from, |a|);
    ScanLfns(b, |b| - 1, from, |a|);
    ShownStep(b, from, |a|);
    var x := Scan(b, |b|, from, |a|).listing[|from.listing|];
    ScanTail(c, from.listing, |a| + |b|);
    ScanTail(c, from.listing + [x], |a| + |b|);
  }

  lemma RemoveKeepsTail(es: seq<Entry>, es': seq<Entry>, r: nat, t: nat)
    requires r <= t < |es| == |es'| && TailFree(es)
    requires forall i :: r <= i <= t ==> IsTomb(es'[i])
    requires forall i :: 0 <= i < |es| && !(r <= i <= t) ==> es'[i] == es[i]
    ensures TailFree(es')
  {
  }

  lemma {:induction false} ScanLfns(b: seq<Entry>, n: nat, from: Scanner, index: nat)
    requires n <= |b| && from.Valid() && !from.stopped && forall i :: 0 <= i < n ==> IsLfn(b[i]) && !IsFree(b[i])
    ensures var r := Scan(b, n, from, index); !r.stopped && r.listing == from.listing
  {
    if n > 0 {
      ScanLfns(b, n - 1, from, index);
    }
  }

  lemma ShownStep(b: seq<Entry>, from: Scanner, index: nat)
    requires b != [] && IsShown(b[|b| - 1]) && from.Valid()
    requires var r := Scan(b, |b| - 1, from, index); !r.stopped && r.listing == from.listing
    ensures var r := Scan(b, |b|, from, index);
      && |r.listing| == |from.listing| + 1 && r.listing[|from.listing|].index == index + |b| - 1
      && r == Scanner(false, NoRun, from.listing + [r.listing[|from.listing|]])
  {
  }
}
