/** Field access in a 32-byte directory entry (Microsoft FAT Specification, section 6). */
module FatDirEntry {
  import opened Bytes

  const ENTRY := 32

  type Entry = e: seq<byte> | |e| == ENTRY witness Repeat(0 as byte, ENTRY)

  function LE16(s: seq<byte>, off: nat): (v: nat)
    requires off + 2 <= |s|
    ensures v < 0x1_0000
  {
    var lo: int, hi: int := s[off], s[off + 1];
    lo + 0x100 * hi
  }

  function Encode16(v: nat): (r: seq<byte>)
    requires v < 0x1_0000
    ensures |r| == 2 && LE16(r, 0) == v
  {
    [v % 0x100, v / 0x100]
  }

  function FirstCluster(e: Entry): (c: word32) {
    0x1_0000 * LE16(e, 20) + LE16(e, 26)
  }

  function FileSize(e: Entry): (s: word32) { LE32(e, 28) }

  function WithCluster(e: Entry, c: word32): (r: Entry)
    ensures FirstCluster(r) == c && FileSize(r) == FileSize(e)
    ensures forall i :: 0 <= i < 20 || 22 <= i < 26 || 28 <= i < ENTRY ==> r[i] == e[i]
  {
    var hi, lo := Encode16(c / 0x1_0000), Encode16(c % 0x1_0000);
    assert LE16(hi, 0) == c / 0x1_0000 && LE16(lo, 0) == c % 0x1_0000;
    Splice(Splice(e, 20, hi), 26, lo)
  }

  function WithSize(e: Entry, s: word32): (r: Entry)
    ensures FileSize(r) == s && FirstCluster(r) == FirstCluster(e)
    ensures forall i :: 0 <= i < 28 ==> r[i] == e[i]
  {
    PutLE32(e, 28, s)
  }

  /** Where the first cluster and the size lie in an entry, byte by byte. */
  lemma FieldBytes(e: Entry)
    ensures FirstCluster(e) ==
      e[26] as int + e[27] as int * 0x100 + e[20] as int * 0x1_0000 + e[21] as int * 0x100_0000
    ensures FileSize(e) ==
      e[28] as int + e[29] as int * 0x100 + e[30] as int * 0x1_0000 + e[31] as int * 0x100_0000
  {
  }
}
