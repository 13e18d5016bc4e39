/**
 The mutable partition manager of kernel/drivers/storage.c: the slot array, the
 512-byte sector buffer filled in place, and the sectors of the disk.  Each method
 is proved to have the effect given in PartitionOps, BootFixup and Installer.
 */
module StorageManager {
  import opened Sector
  import opened Partitions
  import opened Mbr
  import opened PartitionOps
  import opened BootFixup
  import opened Installer

  // -------------------------------------------------------- prefixes of tables

  lemma VisibleStep(t: Table, i: nat)
    requires i < SLOTS
    ensures Visible(t[..i + 1]) == Visible(t[..i]) + (if t[i].present then [t[i]] else [])
    ensures Visible(t) == Visible(t[..i + 1]) + Visible(t[i + 1..])
  {
    assert t[..i + 1] == t[..i] + [t[i]];
    VisibleConcat(t[..i], [t[i]]);
    assert t == t[..i + 1] + t[i + 1..];
    VisibleConcat(t[..i + 1], t[i + 1..]);
  }

  lemma TotalStep(t: Table, i: nat)
    requires i < SLOTS
    ensures Total(t[..i + 1]) == Total(t[..i]) + (if t[i].present then t[i].sizeMib else 0)
  {
    assert t[..i + 1] == t[..i] + [t[i]];
    TotalConcat(t[..i], [t[i]]);
  }

  /** Where the layout of `t` stands after its first `i` slots. */
  function NextLba(t: seq<Partition>, next: Word, i: nat): Word
    requires i <= |t|
  {
    if i == 0 then next
    else
      var before := NextLba(t, next, i - 1);
      if t[i - 1].present then (before + MibToSectors(t[i - 1].sizeMib)) % WORD else before
  }

  lemma {:induction false} LayoutAt(t: seq<Partition>, next: Word, i: nat)
    requires i < |t|
    ensures Layout(t, next)[i]
         == if t[i].present
            then t[i].(start := NextLba(t, next, i), count := MibToSectors(t[i].sizeMib))
            else t[i].(start := 0, count := 0)
  {
    if i > 0 {
      var next' := if t[0].present then (next + MibToSectors(t[0].sizeMib)) % WORD else next;
      LayoutAt(t[1..], next', i - 1);
      NextLbaShift(t, next, i);
    }
  }

  lemma {:induction false} NextLbaShift(t: seq<Partition>, next: Word, i: nat)
    requires 0 < i <= |t|
    ensures var next' := if t[0].present then (next + MibToSectors(t[0].sizeMib)) % WORD else next;
            NextLba(t, next, i) == NextLba(t[1..], next', i - 1)
  {
    if i > 1 {
      NextLbaShift(t, next, i - 1);
    }
  }

  // ------------------------------------------------------------ filling entries

  /** `now` is `was` with `bytes` stored at `off`. */
  predicate Stored(now: seq<Byte>, was: seq<Byte>, off: nat, bytes: seq<Byte>) {
    && |now| == |was|
    && forall i :: 0 <= i < |now| ==> now[i] == if off <= i < off + |bytes| then bytes[i - off] else was[i]
  }

  method WriteLe32(sector: array<Byte>, off: nat, v: Word)
    requires off + 4 <= sector.Length
    modifies sector
    ensures Stored(sector[..], old(sector[..]), off, Le32(v))
  {
    sector[off] := v % 256;
    sector[off + 1] := v / 256 % 256;
    sector[off + 2] := v / 0x1_0000 % 256;
    sector[off + 3] := v / 0x100_0000 % 256;
  }

  function EntryHead(p: Partition, active: bool): seq<Byte> {
    [if active then 0x80 else 0, 0xFE, 0xFF, 0xFF, TypeByte(p.kind), 0xFE, 0xFF, 0xFF]
  }

  method WriteHead(sector: array<Byte>, o: nat, p: Partition, active: bool)
    requires o + 8 <= sector.Length
    modifies sector
    ensures Stored(sector[..], old(sector[..]), o, EntryHead(p, active))
  {
    sector[o] := if active then 0x80 else 0;
    sector[o + 1], sector[o + 2], sector[o + 3] := 0xFE, 0xFF, 0xFF;
    sector[o + 4] := TypeByte(p.kind);
    sector[o + 5], sector[o + 6], sector[o + 7] := 0xFE, 0xFF, 0xFF;
  }

  method WriteEntry(sector: array<Byte>, entry: nat, p: Partition, active: bool)
    requires sector.Length == SECTOR_SIZE && entry < ENTRIES
    modifies sector
    ensures Stored(sector[..], old(sector[..]), Offset(entry), EntryBytes(p, active))
  {
    hide Le32;
    var o := Offset(entry);
    WriteHead(sector, o, p, active);
    WriteLe32(sector, o + 8, p.start);
    WriteLe32(sector, o + 12, p.count);
    assert EntryBytes(p, active) == EntryHead(p, active) + Le32(p.start) + Le32(p.count);
  }

  /** Entries written so far, zeros after them, the base everywhere else. */
  predicate Filling(s: seq<Byte>, base: Block, v: seq<Partition>, active: int, entry: nat) {
    && |s| == SECTOR_SIZE && entry <= |v| <= ENTRIES
    && (forall i :: 0 <= i < TABLE_OFFSET ==> s[i] == base[i])
    && (forall i :: TABLE_OFFSET + entry * ENTRY_SIZE <= i < SIGNATURE_OFFSET ==> s[i] == 0)
    && (forall e :: 0 <= e < entry ==> s[Offset(e)..Offset(e) + ENTRY_SIZE] == EntryBytes(v[e], e == active))
  }

  lemma FillingDone(s: seq<Byte>, base: Block, v: seq<Partition>)
    requires Filling(s, base, v, ActiveIndex(v), |v|) && s[SIGNATURE_OFFSET] == 0x55 && s[SIGNATURE_OFFSET + 1] == 0xAA
    ensures s == Committed(base, v)
  {
    hide EntryBytes, ActiveIndex;
    forall i: nat | i < SECTOR_SIZE
      ensures s[i] == CommittedByte(base, v, i)
    {
      if TABLE_OFFSET <= i < SIGNATURE_OFFSET {
        var e, j := (i - TABLE_OFFSET) / ENTRY_SIZE, (i - TABLE_OFFSET) % ENTRY_SIZE;
        assert i == Offset(e) + j;
        assert s[i] == s[Offset(e)..Offset(e) + ENTRY_SIZE][j];
      }
    }
  }

  lemma FillingStep(now: seq<Byte>, was: seq<Byte>, base: Block, v: seq<Partition>, active: int, entry: nat)
    requires entry < |v| && Filling(was, base, v, active, entry)
    requires Stored(now, was, Offset(entry), EntryBytes(v[entry], entry == active))
    ensures Filling(now, base, v, active, entry + 1)
  {
    hide EntryBytes;
    forall e: nat | e <= entry
      ensures now[Offset(e)..Offset(e) + ENTRY_SIZE] == EntryBytes(v[e], e == active)
    {
      if e < entry {
        assert now[Offset(e)..Offset(e) + ENTRY_SIZE] == was[Offset(e)..Offset(e) + ENTRY_SIZE];
      }
    }
  }

  /** A slot number found in the tail that starts at slot `base`. */
  function Shifted(slot: int, base: nat): int {
    if slot < 0 then -1 else slot + base
  }

  // ---------------------------------------------------------------- the manager

  class Manager {
    const parts: array<Partition>
    const capacityMib: Word
    const media: array<Block>

    ghost predicate Valid()
      reads this
    {
      parts.Length == SLOTS && media.Length >= 1
    }

    ghost function Value(): (d: Disk)
      requires Valid()
      reads this, parts, media
    {
      Disk(parts[..], capacityMib, media[0])
    }

    constructor (capacityMib: Word, media: array<Block>)
      requires media.Length >= 1
      ensures Valid() && fresh(parts) && this.media == media && this.capacityMib == capacityMib
      ensures forall i :: 0 <= i < SLOTS ==> parts[i] == Empty
    {
      this.capacityMib, this.media := capacityMib, media;
      parts := new Partition[SLOTS](_ => Empty);
    }

    method UsedSum() returns (total: Word)
      requires Valid()
      ensures total == UsedMib(parts[..])
    {
      hide Total;
      total := 0;
      assert Total(parts[..][..0]) == 0 by { EmptyTotal(); }
      for i := 0 to SLOTS
        invariant total == Total(parts[..][..i]) % WORD
      {
        TotalStep(parts[..], i);
        if parts[i].present {
          total := (total + parts[i].sizeMib) % WORD;
        }
      }
      assert parts[..][..SLOTS] == parts[..];
    }

    method FindFreeSlot() returns (slot: int)
      requires Valid()
      ensures slot == FreeSlot(parts[..])
    {
      for i := 0 to SLOTS
        invariant FreeSlot(parts[..]) == FreeSlot(parts[..], i)
      {
        if !parts[i].present {
          return i;
        }
      }
      return -1;
    }

    method CountPresent() returns (n: nat)
      requires Valid()
      ensures n == |Visible(parts[..])|
    {
      hide Visible;
      n := 0;
      VisiblePrefix(parts[..][..0], 0);
      for i := 0 to SLOTS
        invariant n == |Visible(parts[..][..i])|
      {
        VisibleStep(parts[..], i);
        if parts[i].present {
          n := n + 1;
        }
      }
      assert parts[..][..SLOTS] == parts[..];
    }

    method CountOfKind(kind: Kind) returns (n: nat)
      requires Valid()
      ensures n == CountKind(parts[..], kind)
    {
      n := 0;
      for i := 0 to SLOTS
        invariant n + CountKind(parts[..][i..], kind) == CountKind(parts[..], kind)
      {
        assert parts[..][i..][1..] == parts[..][i + 1..] && parts[..][i..][0] == parts[i];
        if parts[i].present && parts[i].kind == kind {
          n := n + 1;
        }
      }
    }

    /** Walk to the index-th visible partition. */
    method FindVisible(index: int) returns (slot: int)
      requires Valid()
      ensures slot == VisibleSlot(parts[..], index)
    {
      hide Visible;
      var seen := 0;
      ghost var t: Table := parts[..];
      assert t[0..] == t;
      for i := 0 to SLOTS
        invariant VisibleSlot(t, index) == Shifted(VisibleSlot(t[i..], index - seen), i)
      {
        assert t[i..][1..] == t[i + 1..] && t[i..][0] == parts[i];
        if parts[i].present {
          if seen == index {
            return i;
          }
          seen := seen + 1;
        }
      }
      return -1;
    }

    method RecomputeLayout()
      requires Valid()
      modifies parts
      ensures parts[..] == Layout(old(parts[..]), FIRST_LBA)
    {
      hide Layout;
      ghost var t: Table := parts[..];
      var next: Word := FIRST_LBA;
      for i := 0 to SLOTS
        invariant next == NextLba(t, FIRST_LBA, i)
        invariant forall j :: 0 <= j < i ==> parts[j] == Layout(t, FIRST_LBA)[j]
        invariant forall j :: i <= j < SLOTS ==> parts[j] == t[j]
      {
        LayoutAt(t, FIRST_LBA, i);
        if !parts[i].present {
          parts[i] := parts[i].(start := 0, count := 0);
        } else {
          parts[i] := parts[i].(start := next, count := MibToSectors(parts[i].sizeMib));
          next := (next + parts[i].count) % WORD;
        }
      }
    }

    /** The entry number of the first visible partition of a kind. */
    method FirstEntryOfKind(kind: Kind) returns (entry: int)
      requires Valid()
      ensures entry == FirstOfKind(Visible(parts[..]), kind)
    {
      hide Visible;
      ghost var v := Visible(parts[..]);
      entry := 0;
      VisiblePrefix(parts[..][..0], 0);
      for i := 0 to SLOTS
        invariant entry == |Visible(parts[..][..i])| <= |v|
        invariant FirstOfKind(v, kind) == FirstOfKind(v, kind, entry)
      {
        VisibleStep(parts[..], i);
        if parts[i].present {
          assert v[entry] == parts[i];
          if parts[i].kind == kind {
            return;
          }
          entry := entry + 1;
        }
      }
      assert parts[..][..SLOTS] == parts[..];
      entry := -1;
    }

    /** Write one entry per visible partition into a cleared table. */
    method FillEntries(sector: array<Byte>, active: int, ghost base: Block)
      requires Valid() && |Visible(parts[..])| <= ENTRIES
      requires sector.Length == SECTOR_SIZE && Filling(sector[..], base, Visible(parts[..]), active, 0)
      modifies sector
      ensures Filling(sector[..], base, Visible(parts[..]), active, |Visible(parts[..])|)
    {
      hide Visible, Filling, EntryBytes;
      ghost var v := Visible(parts[..]);
      var entry := 0;
      VisiblePrefix(parts[..][..0], 0);
      for i := 0 to SLOTS
        invariant entry == |Visible(parts[..][..i])| <= |v|
        invariant Filling(sector[..], base, v, active, entry)
      {
        VisibleStep(parts[..], i);
        if parts[i].present {
          assert v[entry] == parts[i];
          ghost var was := sector[..];
          WriteEntry(sector, entry, parts[i], entry == active);
          FillingStep(sector[..], was, base, v, active, entry);
          entry := entry + 1;
        }
      }
      assert parts[..][..SLOTS] == parts[..];
    }

    /** storage_commit_mbr_partitions. */
    method CommitMbr(io: Io) returns (r: int)
      requires Valid()
      modifies parts, media
      ensures Value() == Commit(old(Value()), io).disk
      ensures r == if Commit(old(Value()), io).ok then 0 else -1
      ensures media[1..] == old(media[1..])
    {
      hide Visible, Layout, Filling, Committed;
      ghost var t: Table := parts[..];
      var presentCount := CountPresent();
      if presentCount > ENTRIES {
        return -1;
      }
      RecomputeLayout();
      LayoutVisible(t, FIRST_LBA);
      ghost var base := BaseSector(old(Value()), io);
      var sector := ReadSector(io.readOk);
      ClearTable(sector, base);
      var activeSlot := FirstEntryOfKind(System);
      if activeSlot < 0 {
        activeSlot := FirstEntryOfKind(Efi);
      }
      FillingStart(sector[..], base, Visible(parts[..]), activeSlot);
      FillEntries(sector, activeSlot, base);
      Sign(sector, base, Visible(parts[..]), activeSlot);
      if !io.writeOk {
        return -1;
      }
      media[0] := sector[..];
      return 0;
    }

    /** storage_load_mbr_partitions. */
    method LoadMbr(io: Io)
      requires Valid()
      modifies parts
      ensures Value() == Reload(old(Value()), io)
    {
      hide Used;
      if !io.readOk {
        return;
      }
      var s := media[0];
      if s[SIGNATURE_OFFSET] != 0x55 || s[SIGNATURE_OFFSET + 1] != 0xAA {
        return;
      }
      for i := 0 to SLOTS
        invariant forall j :: 0 <= j < i ==> parts[j] == Empty
      {
        parts[i] := Empty;
      }
      var partSlot := 0;
      ghost var done: seq<Entry> := [];
      for e := 0 to ENTRIES
        invariant partSlot == |done| <= e
        invariant done + Used(s, e) == Used(s)
        invariant forall j :: 0 <= j < partSlot ==> parts[j] == FromEntry(done[j], j)
        invariant forall j :: partSlot <= j < SLOTS ==> parts[j] == Empty
      {
        UsedStep(s, e);
        var entry := EntryAt(s, e);
        if entry.kind != 0 && entry.count != 0 {
          parts[partSlot] := FromEntry(entry, partSlot);
          partSlot := partSlot + 1;
          done := done + [entry];
        }
      }
      UsedStep(s, ENTRIES);
      assert parts[..] == Loaded(s);
    }

    /** Put the saved slots back. */
    method Restore(saved: seq<Partition>)
      requires Valid() && |saved| == SLOTS
      modifies parts
      ensures parts[..] == saved
    {
      for i := 0 to SLOTS
        invariant forall j :: 0 <= j < i ==> parts[j] == saved[j]
      {
        parts[i] := saved[i];
      }
    }

    /** Commit the edited slots; on failure put the old ones back. */
    method CommitEdit(saved: Table, io: Io) returns (r: int)
      requires Valid()
      modifies parts, media
      ensures var d := old(Value()).(parts := saved);
              var outcome := CommitOrRestore(d, old(parts[..]), io);
              Value() == outcome.disk && r == if outcome.ok then 0 else -1
      ensures media[1..] == old(media[1..])
    {
      hide Commit;
      r := CommitMbr(io);
      CommitFailureKeepsDisk(old(Value()), io);
      if r != 0 {
        Restore(saved);
      }
    }

    method CreatePartition(kind: Kind, sizeMib: Word, io: Io) returns (r: int)
      requires Valid()
      modifies parts, media
      ensures var outcome := Create(old(Value()), kind, sizeMib, io);
              Value() == outcome.disk && r == if outcome.ok then 0 else -1
      ensures media[1..] == old(media[1..])
    {
      hide CommitOrRestore, UsedMib, CountKind;
      if sizeMib == 0 {
        return -1;
      }
      var used := UsedSum();
      if (used + sizeMib) % WORD > capacityMib {
        return -1;
      }
      var slot := FindFreeSlot();
      if slot < 0 {
        return -1;
      }
      var saved := parts[..];
      var ordinal := CountOfKind(kind);
      parts[slot] := parts[slot].(present := true, kind := kind, sizeMib := sizeMib, name := Default(kind, ordinal));
      assert parts[..] == saved[slot := Described(saved[slot], kind, sizeMib, Default(kind, ordinal))];
      r := CommitEdit(saved, io);
    }

    method UpdatePartition(index: int, kind: Kind, sizeMib: Word, io: Io) returns (r: int)
      requires Valid()
      modifies parts, media
      ensures var outcome := Update(old(Value()), index, kind, sizeMib, io);
              Value() == outcome.disk && r == if outcome.ok then 0 else -1
      ensures media[1..] == old(media[1..])
    {
      hide CommitOrRestore, UsedMib, Visible;
      if sizeMib == 0 {
        return -1;
      }
      var saved := parts[..];
      var slot := FindVisible(index);
      if slot < 0 {
        return -1;
      }
      var used := UsedSum();
      var usedWithout := (used - parts[slot].sizeMib) % WORD;
      if (usedWithout + sizeMib) % WORD > capacityMib {
        return -1;
      }
      parts[slot] := parts[slot].(kind := kind, sizeMib := sizeMib, name := Default(kind, index));
      assert parts[..] == saved[slot := Described(saved[slot], kind, sizeMib, Default(kind, index))];
      r := CommitEdit(saved, io);
    }

    method DeletePartition(index: int, io: Io) returns (r: int)
      requires Valid()
      modifies parts, media
      ensures var outcome := Delete(old(Value()), index, io);
              Value() == outcome.disk && r == if outcome.ok then 0 else -1
      ensures media[1..] == old(media[1..])
    {
      hide CommitOrRestore, Visible;
      var saved := parts[..];
      var slot := FindVisible(index);
      if slot < 0 {
        return -1;
      }
      parts[slot] := Empty;
      assert parts[..] == saved[slot := Empty];
      r := CommitEdit(saved, io);
    }

    /** storage_fixup_bios_boot_disk. */
    method FixupBootDisk(io: Io, reload: Io) returns (r: int)
      requires Valid()
      modifies parts, media
      ensures var outcome := FixupDisk(old(Value()), io, reload);
              Value() == outcome.disk && r == if outcome.ok then 0 else -1
      ensures media[1..] == old(media[1..])
    {
      hide Used, EntryAt, Fixup, Grows, Reload;
      if !io.readOk {
        return -1;
      }
      ghost var s := media[0];
      if media[0][SIGNATURE_OFFSET] != 0x55 || media[0][SIGNATURE_OFFSET + 1] != 0xAA {
        return 0;
      }
      var first, active, count := SurveyEntries(media[0]);
      if first < 0 {
        return 0;
      }
      if active < 0 {
        active := first;
      }
      var sector := ReadSector(true);
      GrowLone(sector, s, first, count, capacityMib);
      ghost var grown := sector[..];
      MarkActive(sector, active);
      FixupDone(s, capacityMib, grown, sector[..]);
      if !io.writeOk {
        return -1;
      }
      media[0] := sector[..];
      LoadMbr(reload);
      return 0;
    }

    /** storage_write_disk_image.  The backend refuses sector write number `refuseAt`
        (if there are that many) and any sector it does not have. */
    method WriteDiskImage(data: array<Byte>, refuseAt: nat, io: Io, reload: Io) returns (r: int)
      requires Valid() && media.Length <= WORD
      modifies parts, media
      ensures var n := ImageSectors(data.Length);
              && (data.Length == 0 || n > DiskSectors(capacityMib) ==>
                    r == -1 && media[..] == old(media[..]) && parts[..] == old(parts[..]))
              && (r == 0 ==>
                    && n <= DiskSectors(capacityMib)
                    && ImageDisk(old(Value()), Chunk(data[..], LastWrite(n, 0)), io, reload) == Outcome(Value(), true)
                    && media[0] == Fixup(Chunk(data[..], LastWrite(n, 0)), capacityMib)
                    && (forall l :: 0 < l < media.Length ==>
                          media[l] == if l < n then Chunk(data[..], LastWrite(n, l)) else old(media[l])))
              && (r != 0 ==>
                    && r == -1 && parts[..] == old(parts[..])
                    && exists k :: 0 <= k <= n && Imaged(media[..], old(media[..]), data[..], k))
    {
      hide Fixup, Chunk, LastWrite;
      assert Imaged(media[..], old(media[..]), data[..], 0);
      if data.Length == 0 {
        return -1;
      }
      var imageSectors := (data.Length + (SECTOR_SIZE - 1)) / SECTOR_SIZE;
      if imageSectors > DiskSectors(capacityMib) {
        return -1;
      }
      for k := 0 to imageSectors
        invariant Imaged(media[..], old(media[..]), data[..], k)
        invariant parts[..] == old(parts[..])
      {
        var block := BuildChunk(data, k);
        var lba := k % WORD;
        if k >= refuseAt || lba >= media.Length {
          assert Imaged(media[..], old(media[..]), data[..], k);
          return -1;
        }
        ghost var was := media[..];
        media[lba] := block;
        assert media[..] == was[lba := Chunk(data[..], k)];
        ImagedStep(media[..], was, old(media[..]), data[..], k);
      }
      ghost var written, d := media[..], Value();
      assert d == old(Value()).(mbr := Chunk(data[..], LastWrite(imageSectors, 0)));
      FixupDiskSector(d, io, reload);
      FailureChangesNothing(d, OpFixup(io, reload));
      r := FixupBootDisk(io, reload);
      assert forall l :: 0 < l < media.Length ==> media[l] == written[l] by {
        assert forall l :: 0 < l < media.Length ==> media[l] == media[1..][l - 1];
      }
      if r != 0 {
        assert media[..] == written;
        assert Imaged(media[..], old(media[..]), data[..], imageSectors);
      }
    }

    method EnsureEfi(io: Io) returns (ok: bool)
      requires Valid()
      modifies parts, media
      ensures Outcome(Value(), ok) == PlanEfi(old(Value()), io) && media[1..] == old(media[1..])
    {
      hide Create, CountKind;
      var n := CountOfKind(Efi);
      if n > 0 {
        return false;
      }
      var r := CreatePartition(Efi, EFI_MIB, io);
      return r == 0;
    }

    method EnsureSystem(hasSystem: bool, io: Io) returns (ok: bool)
      requires Valid()
      modifies parts, media
      ensures Outcome(Value(), ok) == PlanSystem(old(Value()), !hasSystem, io) && media[1..] == old(media[1..])
    {
      hide Create;
      if hasSystem {
        return false;
      }
      var systemSize := capacityMib / 2;
      if systemSize < MIN_SYSTEM_MIB {
        systemSize := MIN_SYSTEM_MIB;
      }
      if systemSize > MAX_PART_MIB {
        systemSize := MAX_PART_MIB;
      }
      var r := CreatePartition(System, systemSize, io);
      return r == 0;
    }

    method EnsureData(hasData: bool, io: Io) returns (ok: bool)
      requires Valid()
      modifies parts, media
      ensures Outcome(Value(), ok) == PlanData(old(Value()), !hasData, io) && media[1..] == old(media[1..])
    {
      hide Create, UsedMib;
      var used := UsedSum();
      var freeMib := if capacityMib > used then capacityMib - used else 0;
      if hasData || freeMib < MIN_DATA_MIB {
        return false;
      }
      var r := CreatePartition(Data, if freeMib > MAX_PART_MIB then MAX_PART_MIB else freeMib, io);
      return r == 0;
    }

    /** storage_ensure_install_partitions. */
    method EnsureInstallPartitions(io1: Io, io2: Io, io3: Io) returns (changed: nat)
      requires Valid()
      modifies parts, media
      ensures Plan(Value(), changed) == EnsureInstall(old(Value()), io1, io2, io3)
      ensures media[1..] == old(media[1..])
    {
      hide PlanEfi, PlanSystem, PlanData, CountKind;
      var systems := CountOfKind(System);
      var datas := CountOfKind(Data);
      changed := 0;
      var ok := EnsureEfi(io1);
      if ok {
        changed := changed + 1;
      }
      ok := EnsureSystem(systems > 0, io2);
      if ok {
        changed := changed + 1;
      }
      ok := EnsureData(datas > 0, io3);
      if ok {
        changed := changed + 1;
      }
    }

    /** storage_prepare_user_partition. */
    method PrepareUserPartition(io1: Io, io2: Io, io3: Io) returns (r: int)
      requires Valid()
      modifies parts, media
      ensures Prepared(Value(), r) == PrepareUser(old(Value()), io1, io2, io3)
      ensures media[1..] == old(media[1..])
    {
      hide Create, Update, CountKind, UsedMib, Visible, Clamp;
      var dataCount := CountOfKind(Data);
      if dataCount > 0 {
        return 0;
      }
      var systemCount := CountOfKind(System);
      var presentCount := CountPresent();
      var used := UsedSum();
      var freeMib := if capacityMib > used then capacityMib - used else 0;
      if freeMib >= MIN_DATA_MIB {
        r := CreatePartition(Data, if freeMib > 32768 then 32768 else freeMib, io1);
        return if r == 0 then 1 else -1;
      }
      if presentCount != 1 || systemCount == 0 {
        return 0;
      }
      var slot := FindVisible(0);
      var original := parts[slot].sizeMib;
      var dataSize := SplitData(original);
      if original <= dataSize + MIN_SYSTEM_MIB {
        return 0;
      }
      r := UpdatePartition(0, System, original - dataSize, io1);
      if r != 0 {
        return -1;
      }
      r := CreatePartition(Data, dataSize, io2);
      if r != 0 {
        var _ := UpdatePartition(0, System, original, io3);
        return -1;
      }
      return 1;
    }

    /** Copy sector 0, or zeros when it cannot be read. */
    method ReadSector(ok: bool) returns (sector: array<Byte>)
      requires Valid()
      ensures fresh(sector) && sector.Length == SECTOR_SIZE
      ensures sector[..] == if ok then media[0] else Zeros()
    {
      var block := media[0];
      sector := new Byte[SECTOR_SIZE](i requires 0 <= i < SECTOR_SIZE => if ok then block[i] else 0);
    }
  }

  // ------------------------------------------------------------- boot fix-up

  /** Success means that sector 0 is the fixed-up sector, written or already so. */
  lemma FixupDiskSector(d: Disk, io: Io, reload: Io)
    ensures FixupDisk(d, io, reload).ok ==>
              FixupDisk(d, io, reload).disk.mbr == Fixup(d.mbr, d.capacityMib)
  {
  }

  /** First pass: first entry in use, last active one in use, number in use. */
  method SurveyEntries(s: Block) returns (first: int, active: int, count: nat)
    ensures first == FirstUsed(s) && active == LastActive(s) && count == |Used(s)|
  {
    hide EntryAt;
    first, active, count := -1, -1, 0;
    for e := 0 to ENTRIES
      invariant first == -1 ==> FirstUsed(s) == FirstUsed(s, e)
      invariant first >= 0 ==> FirstUsed(s) == first
      invariant -1 <= first && active == LastActive(s, e)
      invariant count + |Used(s, e)| == |Used(s)|
    {
      var entry := EntryAt(s, e);
      if entry.kind != 0 && entry.count != 0 {
        if first < 0 {
          first := e;
        }
        if entry.status == 0x80 {
          active := e;
        }
        count := count + 1;
      }
    }
  }

  /** The sector after a lone partition has been grown, before entries are marked. */
  predicate GrownFrom(g: seq<Byte>, s: Block, capacityMib: Word) {
    if Grows(s, capacityMib)
    then Stored(g, s, Offset(FirstUsed(s)) + 12, Le32(Room(EntryAt(s, FirstUsed(s)).start, capacityMib)))
    else g == s
  }

  method GrowLone(sector: array<Byte>, ghost s: Block, first: int, count: nat, capacityMib: Word)
    requires sector.Length == SECTOR_SIZE && sector[..] == s
    requires first == FirstUsed(s) >= 0 && count == |Used(s)|
    modifies sector
    ensures GrownFrom(sector[..], s, capacityMib)
  {
    hide Used, Le32;
    var block: Block := sector[..];
    var start := EntryAt(block, first).start;
    if count == 1 && start > 0 && DiskSectors(capacityMib) > start {
      var maxSectors := DiskSectors(capacityMib) - start;
      if maxSectors > MAX_COUNT {
        maxSectors := MAX_COUNT;
      }
      if maxSectors > EntryAt(block, first).count {
        WriteLe32(sector, Offset(first) + 12, maxSectors);
      }
    }
  }

  /** Second pass: clear every status byte except that of the active entry in use. */
  method MarkActive(sector: array<Byte>, active: int)
    requires sector.Length == SECTOR_SIZE
    modifies sector
    ensures Marked(sector[..], old(sector[..]), active, ENTRIES)
  {
    hide EntryAt;
    ghost var g: Block := sector[..];
    for e := 0 to ENTRIES
      invariant Marked(sector[..], g, active, e)
    {
      var block: Block := sector[..];
      SameEntry(block, g, active, e);
      var entry := EntryAt(block, e);
      if entry.kind == 0 || entry.count == 0 {
        sector[Offset(e)] := 0;
      } else {
        sector[Offset(e)] := if e == active then 0x80 else 0;
      }
    }
  }

  /** Status bytes of the first `n` entries have been rewritten. */
  predicate Marked(now: seq<Byte>, g: seq<Byte>, active: int, n: nat)
    requires n <= ENTRIES
  {
    && |now| == |g| == SECTOR_SIZE
    && forall i :: 0 <= i < SECTOR_SIZE ==>
         now[i] == if TABLE_OFFSET <= i < TABLE_OFFSET + n * ENTRY_SIZE && (i - TABLE_OFFSET) % ENTRY_SIZE == 0
                   then StatusByte(g, (i - TABLE_OFFSET) / ENTRY_SIZE, active)
                   else g[i]
  }

  function StatusByte(g: Block, e: nat, active: int): Byte
    requires e < ENTRIES
  {
    if EntryAt(g, e).InUse() && e == active then 0x80 else 0
  }

  /** Entries not yet marked still read as before. */
  lemma SameEntry(now: Block, g: Block, active: int, e: nat)
    requires e < ENTRIES && Marked(now, g, active, e)
    ensures EntryAt(now, e) == EntryAt(g, e)
  {
    hide StatusByte;
    var o := Offset(e);
    assert forall j :: o <= j < o + ENTRY_SIZE ==> now[j] == g[j];
  }

  lemma GrownInUse(g: Block, s: Block, capacityMib: Word, e: nat)
    requires e < ENTRIES && GrownFrom(g, s, capacityMib)
    ensures EntryAt(g, e).InUse() == EntryAt(s, e).InUse()
  {
    hide Le32, Used;
    if Grows(s, capacityMib) {
      var o, room := Offset(FirstUsed(s)), Room(EntryAt(s, FirstUsed(s)).start, capacityMib);
      if e == FirstUsed(s) {
        assert g[o + 12..o + 16] == Le32(room);
        Le32RoundTrip(room, g, o + 12);
      } else {
        assert forall j :: Offset(e) <= j < Offset(e) + ENTRY_SIZE ==> g[j] == s[j];
      }
    }
  }

  lemma FixupDone(s: Block, capacityMib: Word, g: seq<Byte>, now: seq<Byte>)
    requires Signed(s) && FirstUsed(s) >= 0
    requires GrownFrom(g, s, capacityMib) && |g| == SECTOR_SIZE && Marked(now, g, Chosen(s), ENTRIES)
    ensures now == Fixup(s, capacityMib)
  {
    hide Le32, Used, EntryAt, Chosen, FirstUsed, Grows;
    forall i: nat | i < SECTOR_SIZE
      ensures now[i] == FixedByte(s, capacityMib, i)
    {
      if TABLE_OFFSET <= i < SIGNATURE_OFFSET {
        var e, j := (i - TABLE_OFFSET) / ENTRY_SIZE, (i - TABLE_OFFSET) % ENTRY_SIZE;
        assert i == Offset(e) + j;
        GrownInUse(g, s, capacityMib, e);
      }
    }
  }

  // -------------------------------------------------------------- disk images

  function ImageSectors(size: nat): nat { (size + (SECTOR_SIZE - 1)) / SECTOR_SIZE }

  /** Sector `k` of an image, padded with zeros. */
  function Chunk(data: seq<Byte>, k: nat): Block {
    seq(SECTOR_SIZE, i requires 0 <= i < SECTOR_SIZE =>
      if k * SECTOR_SIZE + i < |data| then data[k * SECTOR_SIZE + i] else 0)
  }

  /** Cutting an image into sectors loses nothing and adds only zeros, in the least number
      of sectors that will do. */
  lemma ImageRoundTrip(data: seq<Byte>, j: nat)
    ensures Chunk(data, j / 512)[j % 512] == if j < |data| then data[j] else 0
    ensures |data| <= 512 * ImageSectors(|data|) < |data| + 512
  {
    assert j / SECTOR_SIZE * SECTOR_SIZE + j % SECTOR_SIZE == j;
  }

  /** Block addresses are 32 bits wide: the last of the first `n` image sectors that
      goes to address `l`.  For images of at most 2^32 sectors this is `l` itself. */
  function LastWrite(n: nat, l: nat): (k: nat)
    ensures l < n <= WORD ==> k == l
    ensures l < n && l < WORD ==> k % WORD == l && k < n <= k + WORD
  {
    if l < n then l + (n - 1 - l) / WORD * WORD else l
  }

  /** The first `k` sectors of the image are on disk, the rest is as it was. */
  predicate Imaged(now: seq<Block>, was: seq<Block>, data: seq<Byte>, k: nat) {
    && |now| == |was|
    && forall l :: 0 <= l < |now| ==> now[l] == if l < k then Chunk(data, LastWrite(k, l)) else was[l]
  }

  lemma LastWriteStep(k: nat, l: nat)
    requires l < WORD
    ensures l == k % WORD ==> LastWrite(k + 1, l) == k
    ensures l != k % WORD && l < k ==> LastWrite(k + 1, l) == LastWrite(k, l)
  {
    if l == k % WORD {
      assert k - l == k / WORD * WORD;
    } else if l < k {
      assert (k - l) % WORD != 0 by {
        assert k == k / WORD * WORD + k % WORD;
      }
      assert (k - l) / WORD == (k - 1 - l) / WORD;
    }
  }

  lemma ImagedStep(now: seq<Block>, before: seq<Block>, was: seq<Block>, data: seq<Byte>, k: nat)
    requires Imaged(before, was, data, k) && |before| <= WORD && k % WORD < |before|
    requires now == before[k % WORD := Chunk(data, k)]
    ensures Imaged(now, was, data, k + 1)
  {
    hide Chunk, LastWrite;
    forall l: nat | l < |now|
      ensures now[l] == if l < k + 1 then Chunk(data, LastWrite(k + 1, l)) else was[l]
    {
      LastWriteStep(k, l);
    }
  }

  /** Clear a sector buffer and copy one chunk of the image into it. */
  method BuildChunk(data: array<Byte>, k: nat) returns (block: Block)
    requires k < ImageSectors(data.Length)
    ensures block == Chunk(data[..], k)
  {
    var srcOffset := k * SECTOR_SIZE;
    var remaining := data.Length - srcOffset;
    var chunk := if remaining > SECTOR_SIZE then SECTOR_SIZE else remaining;
    var sector := new Byte[SECTOR_SIZE];
    for i := 0 to SECTOR_SIZE
      invariant forall j :: 0 <= j < i ==> sector[j] == 0
    {
      sector[i] := 0;
    }
    for i := 0 to chunk
      invariant forall j :: 0 <= j < i ==> sector[j] == data[srcOffset + j]
      invariant forall j :: i <= j < SECTOR_SIZE ==> sector[j] == 0
    {
      sector[i] := data[srcOffset + i];
    }
    block := sector[..];
  }

  lemma UsedStep(s: Block, e: nat)
    requires e <= ENTRIES
    ensures e == ENTRIES ==> Used(s, e) == []
    ensures e < ENTRIES ==> Used(s, e) == (if EntryAt(s, e).InUse() then [EntryAt(s, e)] else []) + Used(s, e + 1)
    ensures |Used(s)| <= ENTRIES
  {
  }

  lemma CommitFailureKeepsDisk(d: Disk, io: Io)
    ensures !Commit(d, io).ok ==> Commit(d, io).disk.mbr == d.mbr
    ensures Commit(d, io).disk.capacityMib == d.capacityMib
  {
    hide Committed;
  }

  lemma FillingStart(s: seq<Byte>, base: Block, v: seq<Partition>, active: int)
    requires |s| == SECTOR_SIZE && |v| <= ENTRIES
    requires forall i :: 0 <= i < TABLE_OFFSET ==> s[i] == base[i]
    requires forall i :: TABLE_OFFSET <= i < SIGNATURE_OFFSET ==> s[i] == 0
    ensures Filling(s, base, v, active, 0)
  {
  }

  method ClearTable(sector: array<Byte>, ghost base: Block)
    requires sector.Length == SECTOR_SIZE && sector[..] == base
    modifies sector
    ensures forall j :: 0 <= j < TABLE_OFFSET ==> sector[j] == base[j]
    ensures forall j :: TABLE_OFFSET <= j < SIGNATURE_OFFSET ==> sector[j] == 0
  {
    for i := TABLE_OFFSET to SIGNATURE_OFFSET
      invariant forall j :: 0 <= j < TABLE_OFFSET ==> sector[j] == base[j]
      invariant forall j :: TABLE_OFFSET <= j < i ==> sector[j] == 0
    {
      sector[i] := 0;
    }
  }

  method Sign(sector: array<Byte>, ghost base: Block, ghost v: seq<Partition>, ghost active: int)
    requires sector.Length == SECTOR_SIZE && Filling(sector[..], base, v, active, |v|) && active == ActiveIndex(v)
    modifies sector
    ensures sector[..] == Committed(base, v)
  {
    hide EntryBytes, Committed, ActiveIndex;
    sector[SIGNATURE_OFFSET] := 0x55;
    sector[SIGNATURE_OFFSET + 1] := 0xAA;
    assert Filling(sector[..], base, v, active, |v|);
    FillingDone(sector[..], base, v);
  }
}
