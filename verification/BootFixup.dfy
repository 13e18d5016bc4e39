/**
 The boot fix-up applied to sector 0 after a disk image has been written: exactly
 one active entry, and a lone partition grown to the end of the disk.
 */
module BootFixup {
  import opened Sector
  import opened Partitions

  const MAX_COUNT: nat := 0xFFFF_FFFF

  function DiskSectors(capacityMib: Word): nat { (capacityMib as int) * SECTORS_PER_MIB }

  function FirstUsed(s: Block, e: nat := 0): (r: int)
    requires e <= ENTRIES
    ensures r == -1 || e <= r < ENTRIES
    ensures r == -1 ==> forall i :: e <= i < ENTRIES ==> !EntryAt(s, i).InUse()
    ensures r >= 0 ==> EntryAt(s, r).InUse() && forall i :: e <= i < r ==> !EntryAt(s, i).InUse()
    decreases ENTRIES - e
  {
    if e == ENTRIES then -1 else if EntryAt(s, e).InUse() then e else FirstUsed(s, e + 1)
  }

  predicate Bootable(e: Entry) { e.InUse() && e.status == 0x80 }

  function LastActive(s: Block, n: nat := ENTRIES): (r: int)
    requires n <= ENTRIES
    ensures -1 <= r < n
    ensures r == -1 ==> forall i :: 0 <= i < n ==> !Bootable(EntryAt(s, i))
    ensures r >= 0 ==> Bootable(EntryAt(s, r)) && forall i :: r < i < n ==> !Bootable(EntryAt(s, i))
  {
    if n == 0 then -1 else if Bootable(EntryAt(s, n - 1)) then n - 1 else LastActive(s, n - 1)
  }

  /** Entry `e` is to boot from: the last active one in use, or, when none is active, the
      first in use. */
  predicate BootsFrom(s: Block, e: nat)
    requires e < ENTRIES
  {
    && EntryAt(s, e).InUse()
    && if EntryAt(s, e).status == 0x80
       then forall i :: e < i < ENTRIES && EntryAt(s, i).InUse() ==> EntryAt(s, i).status != 0x80
       else forall i :: 0 <= i < ENTRIES && EntryAt(s, i).InUse() ==> e <= i && EntryAt(s, i).status != 0x80
  }

  function Chosen(s: Block): (r: int)
    ensures -1 <= r < ENTRIES
    ensures r >= 0 ==> BootsFrom(s, r)
    ensures FirstUsed(s) >= 0 ==> r >= 0
  {
    if LastActive(s) >= 0 then LastActive(s) else FirstUsed(s)
  }

  /** Room from `start` to the end of the disk, capped at 2^32 - 1 sectors. */
  function Room(start: Word, capacityMib: Word): (r: Word)
    ensures DiskSectors(capacityMib) > start ==>
              && (r == MAX_COUNT || start + r == DiskSectors(capacityMib))
              && start + r <= DiskSectors(capacityMib)
  {
    var room := DiskSectors(capacityMib) - start;
    if room < 0 then 0 else if room > MAX_COUNT then MAX_COUNT else room
  }

  /** A lone partition that starts past sector 0 and has room to grow. */
  predicate Grows(s: Block, capacityMib: Word) {
    && |Used(s)| == 1 && FirstUsed(s) >= 0
    && var lone := EntryAt(s, FirstUsed(s));
       lone.start > 0 && DiskSectors(capacityMib) > lone.start && Room(lone.start, capacityMib) > lone.count
  }

  function FixedByte(s: Block, capacityMib: Word, i: nat): Byte
    requires i < SECTOR_SIZE
  {
    if i < TABLE_OFFSET || i >= SIGNATURE_OFFSET then s[i]
    else
      var e, j := (i - TABLE_OFFSET) / ENTRY_SIZE, (i - TABLE_OFFSET) % ENTRY_SIZE;
      if j == 0 then (if e == Chosen(s) then 0x80 else 0)
      else if j >= 12 && Grows(s, capacityMib) && e == FirstUsed(s)
      then Le32(Room(EntryAt(s, e).start, capacityMib))[j - 12]
      else s[i]
  }

  /** Sector 0 after storage_fixup_bios_boot_disk. */
  function Fixup(s: Block, capacityMib: Word): (r: Block) {
    if !Signed(s) || FirstUsed(s) < 0 then s
    else seq(SECTOR_SIZE, i requires 0 <= i < SECTOR_SIZE => FixedByte(s, capacityMib, i))
  }

  // ------------------------------------------------------------------- entries

  /** What the fix-up does to entry `e`, read back as an entry. */
  function FixedEntry(s: Block, capacityMib: Word, e: nat): Entry
    requires e < ENTRIES
  {
    var was := EntryAt(s, e);
    Entry(if e == Chosen(s) then 0x80 else 0, was.kind, was.start,
          if Grows(s, capacityMib) && e == FirstUsed(s) then Room(was.start, capacityMib) else was.count)
  }

  lemma FixedByteAt(s: Block, capacityMib: Word, e: nat, j: nat)
    requires e < ENTRIES && j < ENTRY_SIZE
    requires Signed(s) && FirstUsed(s) >= 0
    ensures var b := Fixup(s, capacityMib)[Offset(e) + j];
            if j == 0 then b == (if e == Chosen(s) then 0x80 else 0)
            else if j >= 12 && Grows(s, capacityMib) && e == FirstUsed(s)
            then b == Le32(Room(EntryAt(s, e).start, capacityMib))[j - 12]
            else b == s[Offset(e) + j]
  {
    hide Chosen, Grows, FirstUsed, Le32, EntryAt;
    var i := Offset(e) + j;
    assert (i - TABLE_OFFSET) / ENTRY_SIZE == e && (i - TABLE_OFFSET) % ENTRY_SIZE == j;
  }

  lemma FixupEntry(s: Block, capacityMib: Word, e: nat)
    requires e < ENTRIES && Signed(s) && FirstUsed(s) >= 0
    ensures EntryAt(Fixup(s, capacityMib), e) == FixedEntry(s, capacityMib, e)
  {
    hide Chosen, Grows, FirstUsed, Fixup, Le32;
    var r, o := Fixup(s, capacityMib), Offset(e);
    FixedByteAt(s, capacityMib, e, 0);
    FixedByteAt(s, capacityMib, e, 4);
    FixedByteAt(s, capacityMib, e, 8);
    FixedByteAt(s, capacityMib, e, 9);
    FixedByteAt(s, capacityMib, e, 10);
    FixedByteAt(s, capacityMib, e, 11);
    FixedByteAt(s, capacityMib, e, 12);
    FixedByteAt(s, capacityMib, e, 13);
    FixedByteAt(s, capacityMib, e, 14);
    FixedByteAt(s, capacityMib, e, 15);
    if Grows(s, capacityMib) && e == FirstUsed(s) {
      var room := Room(EntryAt(s, e).start, capacityMib);
      assert r[o + 12..o + 16] == Le32(room);
      Le32RoundTrip(room, r, o + 12);
    }
  }

  // ---------------------------------------------------------------- guarantees

  /** Fixing never changes which entries are in use. */
  lemma FixupInUse(s: Block, capacityMib: Word, e: nat)
    requires e < ENTRIES && Signed(s) && FirstUsed(s) >= 0
    ensures EntryAt(Fixup(s, capacityMib), e).InUse() == EntryAt(s, e).InUse()
  {
    hide Fixup, EntryAt;
    FixupEntry(s, capacityMib, e);
  }

  lemma {:induction false} SameUse(s: Block, r: Block, e: nat)
    requires e <= ENTRIES
    requires forall i :: 0 <= i < ENTRIES ==> EntryAt(r, i).InUse() == EntryAt(s, i).InUse()
    ensures |Used(r, e)| == |Used(s, e)| && FirstUsed(r, e) == FirstUsed(s, e)
    decreases ENTRIES - e
  {
    hide EntryAt;
    if e < ENTRIES {
      SameUse(s, r, e + 1);
    }
  }

  /** No two entries are to boot from. */
  lemma OneBoots(s: Block, d: nat, e: nat)
    requires d < ENTRIES && e < ENTRIES && BootsFrom(s, d) && BootsFrom(s, e)
    ensures d == e
  {
    hide EntryAt;
  }

  /** Afterwards exactly one entry is active: the one in use that was active last, or,
      when no entry in use was active, the first in use.  Every other status is zero. */
  lemma FixupActiveIff(s: Block, capacityMib: Word, e: nat)
    requires e < ENTRIES && Signed(s) && FirstUsed(s) >= 0
    ensures var r := Fixup(s, capacityMib);
            && EntryAt(r, e).status in {0, 0x80}
            && (EntryAt(r, e).status == 0x80 <==>
                  && EntryAt(s, e).InUse()
                  && ((EntryAt(s, e).status == 0x80
                       && forall i :: e < i < ENTRIES && EntryAt(s, i).InUse() ==> EntryAt(s, i).status != 0x80)
                      || ((forall i :: 0 <= i < ENTRIES && EntryAt(s, i).InUse() ==> EntryAt(s, i).status != 0x80)
                          && forall i :: 0 <= i < e ==> !EntryAt(s, i).InUse())))
  {
    hide Fixup, EntryAt, Chosen;
    FixupEntry(s, capacityMib, e);
    if BootsFrom(s, e) {
      OneBoots(s, Chosen(s), e);
    }
  }

  /** So if any entry is in use, exactly one is active afterwards, and it is in use. */
  lemma FixupOneActive(s: Block, capacityMib: Word) returns (a: nat)
    requires Signed(s) && FirstUsed(s) >= 0
    ensures var r := Fixup(s, capacityMib);
            && a < ENTRIES && EntryAt(r, a).InUse()
            && forall e :: 0 <= e < ENTRIES ==> EntryAt(r, e).status == if e == a then 0x80 else 0
  {
    hide Fixup, EntryAt, Chosen;
    a := Chosen(s);
    FixupInUse(s, capacityMib, a);
    forall e: nat | e < ENTRIES
      ensures EntryAt(Fixup(s, capacityMib), e).status == if e == a then 0x80 else 0
    {
      FixupEntry(s, capacityMib, e);
    }
  }

  /** A partition is never shrunk and never moved.  It grows if and only if it is the only
      one, starts past sector 0 and ends before the end of the disk and below the 32-bit
      cap; then it reaches whichever of the two comes first. */
  lemma FixupGrowth(s: Block, capacityMib: Word, e: nat)
    requires e < ENTRIES && Signed(s) && FirstUsed(s) >= 0
    ensures var was, now := EntryAt(s, e), EntryAt(Fixup(s, capacityMib), e);
            var disk := 2048 * (capacityMib as int);
            && now.start == was.start && now.kind == was.kind && now.count >= was.count
            && (now.count != was.count <==>
                  && was.InUse() && (forall i :: 0 <= i < ENTRIES && i != e ==> !EntryAt(s, i).InUse())
                  && was.start > 0 && was.start + was.count < disk && was.count < 0xFFFF_FFFF)
            && (now.count != was.count ==>
                  if disk - was.start < 0xFFFF_FFFF then now.start + now.count == disk else now.count == 0xFFFF_FFFF)
  {
    hide Fixup, EntryAt, Chosen;
    FixupEntry(s, capacityMib, e);
    LoneUsed(s, FirstUsed(s));
  }

  /** One entry is listed as used exactly when no other is in use. */
  lemma LoneUsed(s: Block, f: nat)
    requires f < ENTRIES && EntryAt(s, f).InUse()
    ensures |Used(s)| == 1 <==> forall i :: 0 <= i < ENTRIES && i != f ==> !EntryAt(s, i).InUse()
  {
    hide EntryAt;
    assert |Used(s, 3)| == if EntryAt(s, 3).InUse() then 1 else 0;
    assert |Used(s, 2)| == |Used(s, 3)| + if EntryAt(s, 2).InUse() then 1 else 0;
    assert |Used(s, 1)| == |Used(s, 2)| + if EntryAt(s, 1).InUse() then 1 else 0;
  }

  /** Bytes outside the four entries never change. */
  lemma FixupOutside(s: Block, capacityMib: Word)
    ensures var r := Fixup(s, capacityMib);
            r[..TABLE_OFFSET] == s[..TABLE_OFFSET] && r[SIGNATURE_OFFSET..] == s[SIGNATURE_OFFSET..]
            && Signed(r) == Signed(s)
  {
    hide Chosen, Grows, FirstUsed;
  }

  /** After one fix-up the choices of a second one are settled. */
  lemma FixupSettled(s: Block, capacityMib: Word)
    requires Signed(s) && FirstUsed(s) >= 0
    ensures var r := Fixup(s, capacityMib);
            && Signed(r) && FirstUsed(r) == FirstUsed(s) && |Used(r)| == |Used(s)|
            && Chosen(r) == Chosen(s) && !Grows(r, capacityMib)
  {
    hide Fixup, EntryAt, Used;
    var r := Fixup(s, capacityMib);
    FixupOutside(s, capacityMib);
    forall e: nat | e < ENTRIES
      ensures EntryAt(r, e).InUse() == EntryAt(s, e).InUse()
      ensures EntryAt(r, e) == FixedEntry(s, capacityMib, e)
    {
      FixupInUse(s, capacityMib, e);
      FixupEntry(s, capacityMib, e);
    }
    SameUse(s, r, 0);
  }

  /** Applying the fix-up twice is the same as applying it once. */
  lemma FixupIdempotent(s: Block, capacityMib: Word)
    ensures Fixup(Fixup(s, capacityMib), capacityMib) == Fixup(s, capacityMib)
  {
    var r := Fixup(s, capacityMib);
    if Signed(s) && FirstUsed(s) >= 0 {
      FixupSettled(s, capacityMib);
      FixedAgain(s, capacityMib);
    }
  }

  lemma FixedAgain(s: Block, capacityMib: Word)
    requires Signed(s) && FirstUsed(s) >= 0
    requires var r := Fixup(s, capacityMib);
             Signed(r) && FirstUsed(r) >= 0 && Chosen(r) == Chosen(s) && !Grows(r, capacityMib)
    ensures Fixup(Fixup(s, capacityMib), capacityMib) == Fixup(s, capacityMib)
  {
    hide Chosen, Grows, FirstUsed, EntryAt, Le32;
    var r := Fixup(s, capacityMib);
    var rr := Fixup(r, capacityMib);
    forall i: nat | i < SECTOR_SIZE
      ensures rr[i] == r[i]
    {
      assert rr[i] == FixedByte(r, capacityMib, i) && r[i] == FixedByte(s, capacityMib, i);
    }
  }
}
