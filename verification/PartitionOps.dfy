/**
 Creating, updating, deleting and reloading partitions, against a backend that may
 fail to read sector 0 or refuse to write it.
 */
module PartitionOps {
  import opened Sector
  import opened Partitions
  import opened Mbr
  import opened BootFixup

  /** One disk: the in-memory slots, the recorded capacity, and sector 0. */
  datatype Disk = Disk(parts: Table, capacityMib: Word, mbr: Block)

  /** What the backend answers to one read and one write of sector 0. */
  datatype Io = Io(readOk: bool, writeOk: bool)

  datatype Outcome = Outcome(disk: Disk, ok: bool)

  // ------------------------------------------------------------------ lookups

  /** The 32-bit sum kept by storage_partition_used_mib. */
  function UsedMib(t: seq<Partition>): Word { Total(t) % WORD }

  function FreeSlot(t: Table, from: nat := 0): (r: int)
    requires from <= SLOTS
    ensures r == -1 || from <= r < SLOTS
    ensures r == -1 ==> forall i :: from <= i < SLOTS ==> t[i].present
    ensures r >= 0 ==> !t[r].present && forall i :: from <= i < r ==> t[i].present
    decreases SLOTS - from
  {
    if from == SLOTS then -1 else if !t[from].present then from else FreeSlot(t, from + 1)
  }

  /** The slot of the `index`-th visible partition, or -1. */
  function VisibleSlot(t: seq<Partition>, index: int): (r: int)
    ensures -1 <= r < |t|
    ensures r >= 0 ==> t[r].present && 0 <= index < |Visible(t)| && Visible(t)[index] == t[r]
    ensures r == -1 <==> !(0 <= index < |Visible(t)|)
  {
    if t == [] then -1
    else if t[0].present && index == 0 then 0
    else
      var rest := VisibleSlot(t[1..], if t[0].present then index - 1 else index);
      if rest < 0 then -1 else rest + 1
  }

  function CountKind(t: seq<Partition>, kind: Kind): (n: nat)
    ensures n <= |t|
    ensures n == 0 <==> forall i :: 0 <= i < |t| ==> !(t[i].present && t[i].kind == kind)
  {
    if t == [] then 0
    else
      assert forall i :: 1 <= i < |t| ==> t[i] == t[1..][i - 1];
      assert forall i :: 0 <= i < |t[1..]| ==> t[1..][i] == t[i + 1];
      (if t[0].present && t[0].kind == kind then 1 else 0) + CountKind(t[1..], kind)
  }

  /** The count goes up by one with each present partition of the kind. */
  lemma {:induction false} CountKindStep(t: seq<Partition>, p: Partition, kind: Kind)
    ensures CountKind(t + [p], kind) == CountKind(t, kind) + if p.present && p.kind == kind then 1 else 0
    ensures CountKind([], kind) == 0
  {
    if t == [] {
      assert t + [p] == [p] && [p][1..] == [];
    } else {
      assert (t + [p])[1..] == t[1..] + [p];
      CountKindStep(t[1..], p, kind);
    }
  }

  // --------------------------------------------------------------- operations

  /** An unreadable sector 0 is taken to be all zeros. */
  function BaseSector(d: Disk, io: Io): Block {
    if io.readOk then d.mbr else Zeros()
  }

  /** Like the source, a refused commit has already moved the in-memory layout. */
  function Commit(d: Disk, io: Io): Outcome {
    if |Visible(d.parts)| > ENTRIES then Outcome(d, false)
    else
      var t := Layout(d.parts, FIRST_LBA);
      if !io.writeOk then Outcome(Disk(t, d.capacityMib, d.mbr), false)
      else Outcome(Disk(t, d.capacityMib, Committed(BaseSector(d, io), Visible(t))), true)
  }

  /** Commit an edited table, or put the old one back. */
  function CommitOrRestore(d: Disk, edited: Table, io: Io): Outcome {
    var r := Commit(d.(parts := edited), io);
    if r.ok then r else Outcome(r.disk.(parts := d.parts), false)
  }

  function Described(p: Partition, kind: Kind, sizeMib: Word, name: Label): Partition {
    p.(present := true, kind := kind, sizeMib := sizeMib, name := name)
  }

  function Create(d: Disk, kind: Kind, sizeMib: Word, io: Io): Outcome {
    if sizeMib == 0 || (UsedMib(d.parts) + sizeMib) % WORD > d.capacityMib then Outcome(d, false)
    else
      var slot := FreeSlot(d.parts);
      if slot < 0 then Outcome(d, false)
      else
        var p := Described(d.parts[slot], kind, sizeMib, Default(kind, CountKind(d.parts, kind)));
        CommitOrRestore(d, d.parts[slot := p], io)
  }

  function Update(d: Disk, index: int, kind: Kind, sizeMib: Word, io: Io): Outcome {
    if sizeMib == 0 then Outcome(d, false)
    else
      var slot := VisibleSlot(d.parts, index);
      if slot < 0 then Outcome(d, false)
      else
        var usedWithout := (UsedMib(d.parts) - d.parts[slot].sizeMib) % WORD;
        if (usedWithout + sizeMib) % WORD > d.capacityMib then Outcome(d, false)
        else
          var p := Described(d.parts[slot], kind, sizeMib, Default(kind, index));
          CommitOrRestore(d, d.parts[slot := p], io)
  }

  function Delete(d: Disk, index: int, io: Io): Outcome {
    var slot := VisibleSlot(d.parts, index);
    if slot < 0 then Outcome(d, false)
    else CommitOrRestore(d, d.parts[slot := Empty], io)
  }

  function Reload(d: Disk, io: Io): Disk {
    if !io.readOk || !Signed(d.mbr) then d else d.(parts := Loaded(d.mbr))
  }

  /** storage_fixup_bios_boot_disk: nothing is written, and nothing reloaded, when the
      sector is unsigned or has no entry in use. */
  function FixupDisk(d: Disk, io: Io, reload: Io): Outcome {
    if !io.readOk then Outcome(d, false)
    else if !Signed(d.mbr) || FirstUsed(d.mbr) < 0 then Outcome(d, true)
    else if !io.writeOk then Outcome(d, false)
    else Outcome(Reload(d.(mbr := Fixup(d.mbr, d.capacityMib)), reload), true)
  }

  /** What storage_write_disk_image does once the sectors are written, sector 0 among
      them. */
  function ImageDisk(d: Disk, sector: Block, io: Io, reload: Io): Outcome {
    FixupDisk(d.(mbr := sector), io, reload)
  }

  // -------------------------------------------------------------- transactions

  datatype Op =
    | OpCreate(kind: Kind, sizeMib: Word, io: Io)
    | OpUpdate(index: int, kind: Kind, sizeMib: Word, io: Io)
    | OpDelete(index: int, io: Io)
    | OpReload(io: Io)
    | OpFixup(io: Io, reload: Io)
    | OpImage(sector: Block, io: Io, reload: Io)
  {
    predicate IsEdit() { OpCreate? || OpUpdate? || OpDelete? }
  }

  function Apply(d: Disk, op: Op): Outcome {
    match op
    case OpCreate(kind, size, io) => Create(d, kind, size, io)
    case OpUpdate(index, kind, size, io) => Update(d, index, kind, size, io)
    case OpDelete(index, io) => Delete(d, index, io)
    case OpReload(io) => Outcome(Reload(d, io), true)
    case OpFixup(io, reload) => FixupDisk(d, io, reload)
    case OpImage(sector, io, reload) => ImageDisk(d, sector, io, reload)
  }

  /** A call that reports failure has changed neither memory nor disk; a failed image
      write leaves its sectors behind, but memory alone. */
  lemma FailureChangesNothing(d: Disk, op: Op)
    ensures !Apply(d, op).ok ==>
              Apply(d, op).disk == if op.OpImage? then d.(mbr := op.sector) else d
  {
    hide Committed, Fixup, Layout, Visible;
  }

  /** The table an edit hands to the commit. */
  function Edited(d: Disk, op: Op): Table
    requires op.IsEdit()
  {
    match op
    case OpCreate(kind, size, _) =>
      var slot := FreeSlot(d.parts);
      if slot < 0 then d.parts
      else d.parts[slot := Described(d.parts[slot], kind, size, Default(kind, CountKind(d.parts, kind)))]
    case OpUpdate(index, kind, size, _) =>
      var slot := VisibleSlot(d.parts, index);
      if slot < 0 then d.parts else d.parts[slot := Described(d.parts[slot], kind, size, Default(kind, index))]
    case OpDelete(index, _) =>
      var slot := VisibleSlot(d.parts, index);
      if slot < 0 then d.parts else d.parts[slot := Empty]
  }

  /** What a successful edit has done: the edited table, laid out, is in memory and in
      sector 0. */
  lemma EditEffect(d: Disk, op: Op)
    requires op.IsEdit() && Apply(d, op).ok
    ensures var r := Apply(d, op).disk;
            && r.parts == Layout(Edited(d, op), FIRST_LBA)
            && r.capacityMib == d.capacityMib
            && |Visible(Edited(d, op))| <= ENTRIES
            && Visible(r.parts) == Layout(Visible(Edited(d, op)), FIRST_LBA)
            && Total(r.parts) == Total(Edited(d, op))
            && r.mbr == Committed(BaseSector(d, op.io), Visible(r.parts))
  {
    hide Committed, CommitOrRestore, UsedMib, CountKind, Visible, Layout, Total;
    CommitOrRestoreEffect(d, Edited(d, op), op.io);
    assert Apply(d, op) == CommitOrRestore(d, Edited(d, op), op.io);
  }

  lemma CommitOrRestoreEffect(d: Disk, edited: Table, io: Io)
    ensures var r := CommitOrRestore(d, edited, io);
            r.ok ==>
              && r.disk.parts == Layout(edited, FIRST_LBA)
              && r.disk.capacityMib == d.capacityMib
              && |Visible(edited)| <= ENTRIES
              && Visible(r.disk.parts) == Layout(Visible(edited), FIRST_LBA)
              && Total(r.disk.parts) == Total(edited)
              && r.disk.mbr == Committed(BaseSector(d, io), Visible(r.disk.parts))
  {
    hide Committed;
    LayoutVisible(edited, FIRST_LBA);
  }

  /** Rewriting the index-th visible partition rewrites just that element of the list. */
  lemma {:induction false} VisibleSet(t: seq<Partition>, index: nat, p: Partition)
    requires index < |Visible(t)| && p.present
    ensures Visible(t[VisibleSlot(t, index) := p]) == Visible(t)[index := p]
  {
    var slot := VisibleSlot(t, index);
    if t[0].present && index == 0 {
      assert t[0 := p][1..] == t[1..];
    } else {
      var index' := if t[0].present then index - 1 else index;
      VisibleSet(t[1..], index', p);
      assert t[slot := p][1..] == t[1..][slot - 1 := p];
      assert t[slot := p][0] == t[0];
    }
  }

  /** As many partitions are visible before that slot as its index says. */
  lemma {:induction false} SlotIndex(t: seq<Partition>, index: nat)
    requires index < |Visible(t)|
    ensures |Visible(t[..VisibleSlot(t, index)])| == index
  {
    var slot, rest := VisibleSlot(t, index), t[1..];
    if slot > 0 {
      SlotIndex(rest, if t[0].present then index - 1 else index);
      assert t[..slot] == [t[0]] + rest[..slot - 1];
      VisibleCons(t[0], rest[..slot - 1]);
    }
  }

  /** Deleting the slot of the index-th visible partition removes just that element. */
  lemma VisibleRemoved(t: seq<Partition>, index: nat)
    requires index < |Visible(t)|
    ensures Visible(t[VisibleSlot(t, index) := Empty]) == Visible(t)[..index] + Visible(t)[index + 1..]
  {
    var slot := VisibleSlot(t, index);
    hide Visible, VisibleSlot;
    SlotIndex(t, index);
    var front, back := t[..slot], t[slot + 1..];
    assert t == front + ([t[slot]] + back) && t[slot := Empty] == front + ([Empty] + back);
    VisibleConcat(front, [t[slot]] + back);
    VisibleConcat(front, [Empty] + back);
    VisibleCons(t[slot], back);
    VisibleCons(Empty, back);
    assert Visible(t) == Visible(front) + ([t[slot]] + Visible(back));
  }

  /** Filling the lowest free slot puts an element in at that place. */
  lemma VisibleInserted(t: Table, slot: nat, p: Partition)
    requires slot == FreeSlot(t) && p.present
    ensures slot <= |Visible(t)|
    ensures Visible(t[slot := p]) == Visible(t)[..slot] + [p] + Visible(t)[slot..]
  {
    hide Visible, FreeSlot;
    var front, back := t[..slot], t[slot + 1..];
    assert t == front + ([t[slot]] + back) && t[slot := p] == front + ([p] + back);
    VisibleConcat(front, [t[slot]] + back);
    VisibleConcat(front, [p] + back);
    VisibleCons(t[slot], back);
    VisibleCons(p, back);
    VisiblePrefix(front, slot);
    assert Visible(t) == front + Visible(back) && |front| == slot;
  }

  lemma VisibleCons(p: Partition, rest: seq<Partition>)
    ensures Visible([p] + rest) == (if p.present then [p] else []) + Visible(rest)
  {
    assert ([p] + rest)[1..] == rest;
  }

  /** Kind, size and label of each element, without what the layout decides. */
  predicate SameItems(v: seq<Partition>, w: seq<Partition>) {
    |v| == |w| && forall i :: 0 <= i < |v| ==>
      v[i].kind == w[i].kind && v[i].sizeMib == w[i].sizeMib && v[i].name == w[i].name
  }

  /** A partition as it is asked for. */
  function Item(kind: Kind, sizeMib: Word, ordinal: nat): Partition {
    Partition(true, kind, sizeMib, 0, 0, Default(kind, ordinal))
  }

  /** What a successful edit does to the list the user sees: a create puts the new partition
      in at the lowest free slot, labelled by how many of its kind there were; an update
      replaces the index-th element; a delete removes it; all others stay as they are. */
  lemma EditList(d: Disk, op: Op)
    requires op.IsEdit() && Apply(d, op).ok
    ensures var v, w := Visible(d.parts), Visible(Apply(d, op).disk.parts);
            match op
            case OpCreate(kind, size, _) =>
              var at := FreeSlot(d.parts);
              && 0 <= at <= |v|
              && SameItems(w, v[..at] + [Item(kind, size, CountKind(d.parts, kind))] + v[at..])
            case OpUpdate(index, kind, size, _) =>
              && 0 <= index < |v| && SameItems(w, v[index := Item(kind, size, index)])
            case OpDelete(index, _) =>
              && 0 <= index < |v| && SameItems(w, v[..index] + v[index + 1..])
  {
    hide Committed, CommitOrRestore, UsedMib, CountKind, Visible, Layout, Total;
    EditEffect(d, op);
    LaidOutItems(Visible(Edited(d, op)));
    match op
    case OpCreate(kind, size, _) =>
      var slot := FreeSlot(d.parts);
      VisibleInserted(d.parts, slot, Described(d.parts[slot], kind, size, Default(kind, CountKind(d.parts, kind))));
    case OpUpdate(index, kind, size, _) =>
      var slot := VisibleSlot(d.parts, index);
      VisibleSet(d.parts, index, Described(d.parts[slot], kind, size, Default(kind, index)));
    case OpDelete(index, _) =>
      VisibleRemoved(d.parts, index);
  }

  lemma LaidOutItems(v: seq<Partition>)
    requires forall i :: 0 <= i < |v| ==> v[i].present
    ensures SameItems(Layout(v, FIRST_LBA), v)
  {
    hide Layout;
    forall i: nat | i < |v|
      ensures var q := Layout(v, FIRST_LBA)[i];
              q.kind == v[i].kind && q.sizeMib == v[i].sizeMib && q.name == v[i].name
    {
      LayoutKeeps(v, FIRST_LBA, i);
    }
  }

  /** A successful edit keeps the bootstrap code if it could be read, clears it otherwise,
      and leaves a signed sector. */
  lemma EditBootstrap(d: Disk, op: Op, i: nat)
    requires op.IsEdit() && Apply(d, op).ok && i < 446
    ensures var s := Apply(d, op).disk.mbr;
            s[i] == (if op.io.readOk then d.mbr[i] else 0) && s[510] == 0x55 && s[511] == 0xAA
  {
    hide Apply, Visible, Layout, Total, Edited, EntryAt;
    EditEffect(d, op);
    CommitTheorem(BaseSector(d, op.io), Visible(Apply(d, op).disk.parts));
    var s := Apply(d, op).disk.mbr;
    assert s[..TABLE_OFFSET][i] == BaseSector(d, op.io)[..TABLE_OFFSET][i];
  }

  /** When the fix-up, and the end of an image write, report success. */
  lemma FixupReports(d: Disk, io: Io, reload: Io)
    ensures FixupDisk(d, io, reload).ok <==>
              && io.readOk
              && (io.writeOk || d.mbr[510] != 0x55 || d.mbr[511] != 0xAA
                  || forall e :: 0 <= e < ENTRIES ==> EntryAt(d.mbr, e).kind == 0 || EntryAt(d.mbr, e).count == 0)
    ensures ImageDisk(d, d.mbr, io, reload) == FixupDisk(d, io, reload)
  {
    hide EntryAt, Fixup, Loaded;
  }

  /** A reload rebuilds the table from sector 0 exactly when it can be read and is signed. */
  lemma ReloadEffect(d: Disk, io: Io, e: nat)
    requires e < ENTRIES
    ensures var r := Reload(d, io);
            && r.mbr == d.mbr && r.capacityMib == d.capacityMib
            && (!io.readOk || d.mbr[510] != 0x55 || d.mbr[511] != 0xAA ==> r == d)
            && (io.readOk && d.mbr[510] == 0x55 && d.mbr[511] == 0xAA ==>
                  && |Visible(r.parts)| == UsedBefore(d.mbr, ENTRIES)
                  && (EntryAt(d.mbr, e).kind != 0 && EntryAt(d.mbr, e).count != 0 ==>
                        var p := r.parts[UsedBefore(d.mbr, e)];
                        p.present && p.start == EntryAt(d.mbr, e).start && p.count == EntryAt(d.mbr, e).count))
  {
    hide EntryAt, Loaded, Visible;
    LoadedFrom(d.mbr, e);
    if EntryAt(d.mbr, e).InUse() {
      UsedBeforeGrows(d.mbr, e + 1, ENTRIES);
    }
  }

  lemma {:induction false} UsedBeforeGrows(s: Block, e: nat, f: nat)
    requires e <= f <= ENTRIES
    ensures UsedBefore(s, e) <= UsedBefore(s, f)
  {
    hide EntryAt;
    if e < f {
      UsedBeforeGrows(s, e, f - 1);
    }
  }

  lemma CapacityFixed(d: Disk, op: Op)
    ensures Apply(d, op).disk.capacityMib == d.capacityMib
  {
    hide Committed, Layout, Visible, Fixup;
  }

  function Final(d: Disk, ops: seq<Op>): Disk
    decreases |ops|
  {
    if ops == [] then d else Final(Apply(d, ops[0]).disk, ops[1..])
  }

  // -------------------------------------------------------- the capacity check

  /** The total a successful edit is meant to reach. */
  function Intended(d: Disk, op: Op): int {
    match op
    case OpCreate(_, size, _) => Total(d.parts) + size
    case OpUpdate(index, _, size, _) =>
      var slot := VisibleSlot(d.parts, index);
      if slot < 0 then Total(d.parts) else Total(d.parts) - d.parts[slot].sizeMib + size
    case OpDelete(index, _) =>
      var slot := VisibleSlot(d.parts, index);
      if slot < 0 then Total(d.parts) else Total(d.parts) - d.parts[slot].sizeMib
    case _ => Total(d.parts)
  }

  /** What a caller can check before an edit: it names something, the result has at most
      four partitions and a 32-bit total within the capacity, and the backend accepts. */
  predicate Succeeds(d: Disk, op: Op)
    requires op.IsEdit()
  {
    var n := |Visible(d.parts)|;
    op.io.writeOk &&
    match op
    case OpCreate(_, size, _) => size > 0 && n < ENTRIES && Intended(d, op) % WORD <= d.capacityMib
    case OpUpdate(index, _, size, _) =>
      size > 0 && 0 <= index < n <= ENTRIES && Intended(d, op) % WORD <= d.capacityMib
    case OpDelete(index, _) => 0 <= index < n <= ENTRIES + 1
  }

  lemma EditSucceedsIff(d: Disk, op: Op)
    requires op.IsEdit()
    ensures Apply(d, op).ok <==> Succeeds(d, op)
  {
    hide Committed, Layout, Visible, Total, CountKind, Succeeds, Create, Update, Delete;
    match op
    case OpCreate(_, _, _) => CreateSucceedsIff(d, op);
    case OpUpdate(_, _, _, _) => UpdateSucceedsIff(d, op);
    case OpDelete(_, _) => DeleteSucceedsIff(d, op);
  }

  /** 32-bit sums may be reduced at any point. */
  lemma Reduced(x: int, y: int)
    ensures (x % WORD + y) % WORD == (x + y) % WORD
  {
    assert x == x / WORD * WORD + x % WORD;
  }

  lemma CreateSucceedsIff(d: Disk, op: Op)
    requires op.OpCreate?
    ensures Create(d, op.kind, op.sizeMib, op.io).ok <==> Succeeds(d, op)
  {
    hide Committed, Layout, Visible, Total, CountKind;
    Reduced(Total(d.parts), op.sizeMib);
    var slot := FreeSlot(d.parts);
    if slot < 0 {
      VisiblePrefix(d.parts, SLOTS);
    } else {
      VisibleUpdate(d.parts, slot, Edited(d, op)[slot]);
    }
  }

  lemma UpdateSucceedsIff(d: Disk, op: Op)
    requires op.OpUpdate?
    ensures Update(d, op.index, op.kind, op.sizeMib, op.io).ok <==> Succeeds(d, op)
  {
    hide Committed, Layout, Visible, Total, CountKind;
    var slot := VisibleSlot(d.parts, op.index);
    if slot >= 0 {
      var size: int := d.parts[slot].sizeMib;
      Reduced(Total(d.parts), -size);
      Reduced(Total(d.parts) - size, op.sizeMib);
      VisibleUpdate(d.parts, slot, Edited(d, op)[slot]);
    }
  }

  lemma DeleteSucceedsIff(d: Disk, op: Op)
    requires op.OpDelete?
    ensures Delete(d, op.index, op.io).ok <==> Succeeds(d, op)
  {
    hide Committed, Layout, Visible, Total, CountKind;
    var slot := VisibleSlot(d.parts, op.index);
    if slot >= 0 {
      VisibleUpdate(d.parts, slot, Empty);
    }
  }

  /** A successful edit reaches exactly the intended total. */
  lemma EditTotal(d: Disk, op: Op)
    requires op.IsEdit() && Apply(d, op).ok
    ensures Total(Apply(d, op).disk.parts) == Intended(d, op)
  {
    hide CommitOrRestore, Committed, Total, Layout, Visible;
    EditEffect(d, op);
    match op
    case OpCreate(kind, size, _) =>
      var slot := FreeSlot(d.parts);
      TotalUpdate(d.parts, slot, Described(d.parts[slot], kind, size, Default(kind, CountKind(d.parts, kind))));
    case OpUpdate(index, kind, size, _) =>
      var slot := VisibleSlot(d.parts, index);
      TotalUpdate(d.parts, slot, Described(d.parts[slot], kind, size, Default(kind, index)));
    case OpDelete(index, _) =>
      TotalUpdate(d.parts, VisibleSlot(d.parts, index), Empty);
  }

  lemma {:induction false} TotalAtLeast(t: seq<Partition>, i: nat)
    requires i < |t| && t[i].present
    ensures Total(t) >= t[i].sizeMib
  {
    if i > 0 {
      TotalAtLeast(t[1..], i - 1);
    }
  }

  /** The capacity check is done on 32-bit sums.  On a disk whose contents fit, a
      successful call leaves contents that fit if and only if the intended total did
      not wrap around. */
  lemma FitsIffNoWrap(d: Disk, op: Op)
    requires Total(d.parts) <= d.capacityMib && op.IsEdit() && Apply(d, op).ok
    ensures Total(Apply(d, op).disk.parts) <= d.capacityMib <==> Intended(d, op) < WORD
  {
    hide Apply, Total, Visible;
    EditTotal(d, op);
    EditSucceedsIff(d, op);
    if op.OpDelete? {
      TotalAtLeast(d.parts, VisibleSlot(d.parts, op.index));
    }
  }

  /** A concrete wrap: on a 4 GiB disk holding 1 MiB, a partition of 2^32 - 1 MiB is
      accepted. */
  lemma WrappedCreateIsAccepted(d: Disk, io: Io)
    requires d.capacityMib == 4096 && io.writeOk
    requires d.parts == seq(SLOTS, i => if i == 0 then Partition(true, Data, 1, 2048, 2048, NoLabel) else Empty)
    ensures var r := Create(d, Data, WORD - 1, io);
            r.ok && Total(r.disk.parts) == WORD > d.capacityMib
  {
    hide Committed;
    VisiblePrefix(d.parts, 1);
    assert Visible(d.parts) == [d.parts[0]];
    TotalVisible(d.parts);
    assert Total([d.parts[0]]) == 1 + Total([]);
    assert FreeSlot(d.parts) == 1 by {
      assert d.parts[0].present && !d.parts[1].present;
    }
    var p := Described(d.parts[1], Data, WORD - 1, Default(Data, CountKind(d.parts, Data)));
    VisibleUpdate(d.parts, 1, p);
    EditTotal(d, OpCreate(Data, WORD - 1, io));
  }
}
