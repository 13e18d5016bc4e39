/**
 512-byte sectors, little-endian words, and the four 16-byte entries of a master
 boot record.
 */
module Sector {

  const SECTOR_SIZE: nat := 512
  const TABLE_OFFSET: nat := 446
  const SIGNATURE_OFFSET: nat := 510
  const ENTRIES: nat := 4
  const ENTRY_SIZE: nat := 16
  const WORD: nat := 0x1_0000_0000

  type Byte = b: nat | b < 256
  type Word = w: nat | w < WORD
  type Block = s: seq<Byte> | |s| == SECTOR_SIZE witness seq(SECTOR_SIZE, _ => 0)

  function Zeros(): (s: Block)
    ensures forall i :: 0 <= i < SECTOR_SIZE ==> s[i] == 0
  {
    seq(SECTOR_SIZE, _ => 0)
  }

  // ------------------------------------------------------- little-endian words

  function Le32(v: Word): (r: seq<Byte>)
    ensures |r| == 4
  {
    [v % 256, v / 256 % 256, v / 0x1_0000 % 256, v / 0x100_0000 % 256]
  }

  function ReadLe32(s: seq<Byte>, off: nat): (v: Word)
    requires off + 4 <= |s|
  {
    (s[off] as int) + 256 * (s[off + 1] as int) + 0x1_0000 * (s[off + 2] as int) + 0x100_0000 * (s[off + 3] as int)
  }

  lemma Le32RoundTrip(v: Word, s: seq<Byte>, off: nat)
    requires off + 4 <= |s| && s[off..off + 4] == Le32(v)
    ensures ReadLe32(s, off) == v
  {
    var b := s[off..off + 4];
    assert b[0] == s[off] && b[1] == s[off + 1] && b[2] == s[off + 2] && b[3] == s[off + 3];
    var q1, q2, q3 := v / 256, v / 0x1_0000, v / 0x100_0000;
    assert q2 == q1 / 256 && q3 == q2 / 256;
    assert v == 256 * q1 + v % 256;
    assert q1 == 256 * q2 + q1 % 256;
    assert q2 == 256 * q3 + q2 % 256;
    assert q3 % 256 == q3;
  }

  // ------------------------------------------------------ partition table view

  datatype Entry = Entry(status: Byte, kind: Byte, start: Word, count: Word)
  {
    /** What both the loader and the boot fix-up skip. */
    predicate InUse() { kind != 0 && count != 0 }
  }

  function Offset(e: nat): (o: nat)
    requires e < ENTRIES
    ensures TABLE_OFFSET <= o && o + ENTRY_SIZE <= SIGNATURE_OFFSET
  {
    TABLE_OFFSET + e * ENTRY_SIZE
  }

  function EntryAt(s: Block, e: nat): (r: Entry)
    requires e < ENTRIES
  {
    var o := Offset(e);
    Entry(s[o], s[o + 4], ReadLe32(s, o + 8), ReadLe32(s, o + 12))
  }

  predicate Signed(s: Block) {
    s[SIGNATURE_OFFSET] == 0x55 && s[SIGNATURE_OFFSET + 1] == 0xAA
  }

  /** The entries in use, in table order, from entry `e` on. */
  function Used(s: Block, e: nat := 0): (r: seq<Entry>)
    requires e <= ENTRIES
    ensures |r| <= ENTRIES - e
    ensures forall i :: 0 <= i < |r| ==> r[i].InUse()
    decreases ENTRIES - e
  {
    if e == ENTRIES then []
    else (if EntryAt(s, e).InUse() then [EntryAt(s, e)] else []) + Used(s, e + 1)
  }
}
