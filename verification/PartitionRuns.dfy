/**
 What every run of the partition operations keeps: memory and sector 0 agree, the
 partitions fit, and they are laid out without gaps.
 */
module PartitionRuns {
  import opened Sector
  import opened Partitions
  import opened Mbr
  import opened BootFixup
  import opened PartitionOps

  // ----------------------------------------------------------------- coherence

  predicate SameExtents(v: seq<Partition>, u: seq<Entry>) {
    |v| == |u| && forall i :: 0 <= i < |v| ==> v[i].start == u[i].start && v[i].count == u[i].count
  }

  /** Memory and sector 0 show the same list of (start, count). */
  predicate Coherent(d: Disk) {
    SameExtents(Visible(d.parts), Used(d.mbr))
  }

  /** No size is a multiple of 2 TiB, whose 32-bit sector count is zero. */
  predicate Showable(v: seq<Partition>) {
    forall i :: 0 <= i < |v| ==> v[i].sizeMib % MIB_LIMIT != 0
  }

  lemma CountVanishes(mib: Word)
    ensures MibToSectors(mib) == 0 <==> mib % MIB_LIMIT == 0
  {
    var q, r := mib / MIB_LIMIT, mib % MIB_LIMIT;
    assert mib * SECTORS_PER_MIB == q * WORD + r * SECTORS_PER_MIB;
    assert r * SECTORS_PER_MIB < WORD;
  }

  lemma {:induction false} LayoutCount(v: seq<Partition>, next: Word, i: nat)
    requires i < |v| && forall j :: 0 <= j < |v| ==> v[j].present
    ensures Layout(v, next)[i].count == MibToSectors(v[i].sizeMib)
  {
    if i > 0 {
      LayoutCount(v[1..], (next + MibToSectors(v[0].sizeMib)) % WORD, i - 1);
    }
  }

  /** A laid-out list is visible to a reader of the sector just when it is showable. */
  lemma CountableIffShowable(v: seq<Partition>)
    requires forall j :: 0 <= j < |v| ==> v[j].present
    ensures Countable(Layout(v, FIRST_LBA)) <==> Showable(v)
  {
    hide Layout, MibToSectors;
    forall i: nat | i < |v|
      ensures Layout(v, FIRST_LBA)[i].count == 0 <==> v[i].sizeMib % MIB_LIMIT == 0
    {
      LayoutCount(v, FIRST_LBA, i);
      CountVanishes(v[i].sizeMib);
    }
  }

  lemma {:induction false} UsedBound(s: Block, n: nat, e: nat)
    requires e <= n <= ENTRIES && forall i :: n <= i < ENTRIES ==> !EntryAt(s, i).InUse()
    ensures |Used(s, e)| <= n - e
    decreases n - e
  {
    hide EntryAt;
    if e == n {
      UsedNone(s, e);
    } else {
      UsedBound(s, n, e + 1);
    }
  }

  /** One unused entry among the first `n` leaves fewer than `n` used ones. */
  lemma {:induction false} UsedFewer(s: Block, n: nat, e: nat, j: nat)
    requires e <= j < n <= ENTRIES && !EntryAt(s, j).InUse()
    requires forall i :: n <= i < ENTRIES ==> !EntryAt(s, i).InUse()
    ensures |Used(s, e)| < n - e
    decreases j - e
  {
    hide EntryAt;
    if e == j {
      UsedBound(s, n, e + 1);
    } else {
      UsedFewer(s, n, e + 1, j);
    }
  }

  /** What was written can be read back as the same list exactly when every count is
      non-zero. */
  lemma CommittedIffCountable(base: Block, v: seq<Partition>)
    requires |v| <= ENTRIES
    ensures SameExtents(v, Used(Committed(base, v))) <==> Countable(v)
  {
    hide Committed, Used, EntryAt, ActiveIndex;
    if Countable(v) {
      CommittedUsed(base, v);
    } else {
      var j :| 0 <= j < |v| && v[j].count == 0;
      var s := Committed(base, v);
      forall e: nat | e < ENTRIES && (e == j || |v| <= e)
        ensures !EntryAt(s, e).InUse()
      {
        CommittedEntry(base, v, e);
      }
      UsedFewer(s, |v|, 0, j);
    }
  }

  /** The exact condition: after a successful edit memory and sector 0 agree if and only
      if no present size is a multiple of 2 TiB. */
  lemma EditCoherentIff(d: Disk, op: Op)
    requires op.IsEdit() && Apply(d, op).ok
    ensures Coherent(Apply(d, op).disk) <==> Showable(Visible(Edited(d, op)))
  {
    hide Committed, Used, Layout, Visible, Apply, Edited, Showable, Countable;
    EditEffect(d, op);
    CountableIffShowable(Visible(Edited(d, op)));
    CommittedIffCountable(BaseSector(d, op.io), Visible(Apply(d, op).disk.parts));
  }

  // ------------------------------------------------------ one step of a run

  /** Memory and sector 0 agree on at most four partitions. */
  predicate Sound(d: Disk) {
    Coherent(d) && |Visible(d.parts)| <= ENTRIES && Showable(Visible(d.parts))
  }

  /** The fix-up rewrites sector 0 and reads it back. */
  predicate Rewrites(sector: Block, io: Io) {
    io.readOk && io.writeOk && Signed(sector) && FirstUsed(sector) >= 0
  }

  /** When a step leaves memory and sector 0 in agreement: an edit unless it asks for a
      multiple of 2 TiB; a fix-up unless it grows a partition and cannot read it back;
      an image when it is read back, or describes the extents that memory shows. */
  predicate Keeps(d: Disk, op: Op) {
    match op
    case OpCreate(_, size, _) => size % MIB_LIMIT != 0
    case OpUpdate(_, _, size, _) => size % MIB_LIMIT != 0
    case OpDelete(_, _) => true
    case OpReload(_) => true
    case OpFixup(io, reload) => Rewrites(d.mbr, io) && Grows(d.mbr, d.capacityMib) ==> reload.readOk
    case OpImage(sector, io, reload) =>
      (Rewrites(sector, io) && reload.readOk)
      || SameExtents(Visible(d.parts), Used(if Rewrites(sector, io) then Fixup(sector, d.capacityMib) else sector))
  }

  lemma {:induction false} VisibleMembers(t: seq<Partition>, p: Partition)
    ensures p in Visible(t) <==> p in t && p.present
  {
    if t != [] {
      VisibleMembers(t[1..], p);
      assert t == [t[0]] + t[1..];
    }
  }

  lemma EditShowable(t: Table, slot: nat, p: Partition)
    requires Showable(Visible(t)) && slot < SLOTS
    ensures Showable(Visible(t[slot := p])) <==> (p.present ==> p.sizeMib % MIB_LIMIT != 0)
  {
    hide Visible;
    var r: Table := t[slot := p];
    forall q | q in Visible(r)
      ensures q == p || q.sizeMib % MIB_LIMIT != 0
    {
      VisibleMembers(r, q);
      VisibleMembers(t, q);
    }
    VisibleMembers(r, p);
    assert r[slot] == p;
  }

  lemma LayoutShowable(t: Table)
    requires Showable(Visible(t))
    ensures Showable(Visible(Layout(t, FIRST_LBA)))
  {
    hide Layout, Visible;
    LayoutVisible(t, FIRST_LBA);
    forall i: nat | i < |Visible(t)|
      ensures Layout(Visible(t), FIRST_LBA)[i].sizeMib == Visible(t)[i].sizeMib
    {
      LayoutKeeps(Visible(t), FIRST_LBA, i);
    }
  }

  /** On a sound disk the condition is about the size asked for alone. */
  lemma EditKeepsIff(d: Disk, op: Op)
    requires Sound(d) && op.IsEdit() && Apply(d, op).ok
    ensures Showable(Visible(Edited(d, op))) <==> Keeps(d, op)
  {
    hide Visible, Showable, CommitOrRestore, Coherent;
    match op
    case OpCreate(kind, size, _) =>
      var slot := FreeSlot(d.parts);
      EditShowable(d.parts, slot, Described(d.parts[slot], kind, size, Default(kind, CountKind(d.parts, kind))));
    case OpUpdate(index, kind, size, _) =>
      var slot := VisibleSlot(d.parts, index);
      EditShowable(d.parts, slot, Described(d.parts[slot], kind, size, Default(kind, index)));
    case OpDelete(index, _) =>
      EditShowable(d.parts, VisibleSlot(d.parts, index), Empty);
  }

  /** A table rebuilt from sector 0 agrees with it, whatever the sector holds. */
  lemma LoadedSound(d: Disk)
    requires d.parts == Loaded(d.mbr)
    ensures Sound(d) && Sized(Visible(d.parts))
  {
    hide Used;
    LoadedVisible(d.mbr);
  }

  /** The list of used entries after a fix-up: the same extents unless one was grown. */
  lemma {:induction false} FixupExtents(s: Block, capacityMib: Word, e: nat)
    requires e <= ENTRIES && Signed(s) && FirstUsed(s) >= 0 && !Grows(s, capacityMib)
    ensures var a, b := Used(s, e), Used(Fixup(s, capacityMib), e);
            |a| == |b| && forall i :: 0 <= i < |a| ==> a[i].start == b[i].start && a[i].count == b[i].count
    decreases ENTRIES - e
  {
    hide Fixup, EntryAt, Grows, Chosen, FirstUsed;
    if e < ENTRIES {
      FixupExtents(s, capacityMib, e + 1);
      FixupEntry(s, capacityMib, e);
    }
  }

  /** A lone partition that grows changes its count. */
  lemma FixupGrows(s: Block, capacityMib: Word)
    requires Signed(s) && Grows(s, capacityMib)
    ensures var a, b := Used(s), Used(Fixup(s, capacityMib));
            |a| == 1 && |b| == 1 && a[0].count != b[0].count
  {
    hide Fixup, EntryAt, Chosen;
    FixupSettled(s, capacityMib);
    FirstOfUsed(s, 0);
    FirstOfUsed(Fixup(s, capacityMib), 0);
    FixupEntry(s, capacityMib, FirstUsed(s));
  }

  lemma {:induction false} FirstOfUsed(s: Block, e: nat)
    requires e <= ENTRIES && FirstUsed(s, e) >= 0
    ensures |Used(s, e)| > 0 && Used(s, e)[0] == EntryAt(s, FirstUsed(s, e))
    decreases ENTRIES - e
  {
    hide EntryAt;
    if !EntryAt(s, e).InUse() {
      FirstOfUsed(s, e + 1);
    }
  }

  lemma FixupCoherentIff(d: Disk, io: Io, reload: Io)
    requires Sound(d)
    ensures var r := FixupDisk(d, io, reload).disk;
            && (Coherent(r) <==> Keeps(d, OpFixup(io, reload)))
            && |Visible(r.parts)| <= ENTRIES && Showable(Visible(r.parts))
  {
    hide Fixup, EntryAt, Used, Visible, Chosen, Loaded, Grows;
    if Rewrites(d.mbr, io) {
      var d1 := d.(mbr := Fixup(d.mbr, d.capacityMib));
      FixupOutside(d.mbr, d.capacityMib);
      if reload.readOk {
        LoadedSound(d1.(parts := Loaded(d1.mbr)));
      } else if Grows(d.mbr, d.capacityMib) {
        FixupGrows(d.mbr, d.capacityMib);
      } else {
        FixupExtents(d.mbr, d.capacityMib, 0);
      }
    }
  }

  lemma ImageCoherentIff(d: Disk, sector: Block, io: Io, reload: Io)
    requires |Visible(d.parts)| <= ENTRIES && Showable(Visible(d.parts))
    ensures var r := ImageDisk(d, sector, io, reload).disk;
            && (Coherent(r) <==> Keeps(d, OpImage(sector, io, reload)))
            && |Visible(r.parts)| <= ENTRIES && Showable(Visible(r.parts))
  {
    hide Fixup, EntryAt, Used, Visible, Chosen, Loaded, Showable, FirstUsed;
    FixupOutside(sector, d.capacityMib);
    if Rewrites(sector, io) && reload.readOk {
      var d1 := d.(mbr := Fixup(sector, d.capacityMib));
      LoadedSound(d1.(parts := Loaded(d1.mbr)));
    }
  }

  /** A failed edit changes nothing; anything else keeps agreement exactly under its
      condition. */
  predicate Harmless(d: Disk, op: Op) {
    (op.IsEdit() && !Succeeds(d, op)) || Keeps(d, op)
  }

  lemma StepCoherentIff(d: Disk, op: Op)
    requires Sound(d)
    ensures Coherent(Apply(d, op).disk) <==> Harmless(d, op)
    ensures Harmless(d, op) ==> Sound(Apply(d, op).disk)
  {
    hide Coherent, Visible, Showable, Create, Update, Delete, FixupDisk, ImageDisk, Loaded, Keeps, Succeeds;
    match op
    case OpReload(io) =>
      if io.readOk && Signed(d.mbr) {
        LoadedSound(d.(parts := Loaded(d.mbr)));
      }
      KeepsReload(d, op);
    case OpFixup(io, reload) => FixupCoherentIff(d, io, reload);
    case OpImage(sector, io, reload) => ImageCoherentIff(d, sector, io, reload);
    case _ =>
      FailureChangesNothing(d, op);
      EditSucceedsIff(d, op);
      if Apply(d, op).ok {
        EditStep(d, op);
      }
  }

  lemma KeepsReload(d: Disk, op: Op)
    requires op.OpReload?
    ensures Keeps(d, op)
  {
  }

  lemma EditStep(d: Disk, op: Op)
    requires Sound(d) && op.IsEdit() && Apply(d, op).ok
    ensures Coherent(Apply(d, op).disk) <==> Keeps(d, op)
    ensures Keeps(d, op) ==> Sound(Apply(d, op).disk)
  {
    hide Coherent, Visible, Showable, Apply, Keeps, Edited, Committed, Layout;
    EditCoherentIff(d, op);
    EditKeepsIff(d, op);
    EditEffect(d, op);
    if Keeps(d, op) {
      LayoutShowable(Edited(d, op));
    }
  }

  // --------------------------------------------------------------------- runs

  /** Memory and sector 0 agree now and after every step. */
  predicate AlwaysCoherent(d: Disk, ops: seq<Op>)
    decreases |ops|
  {
    Coherent(d) && (ops == [] || AlwaysCoherent(Apply(d, ops[0]).disk, ops[1..]))
  }

  predicate AlwaysHarmless(d: Disk, ops: seq<Op>)
    decreases |ops|
  {
    ops == [] || (Harmless(d, ops[0]) && AlwaysHarmless(Apply(d, ops[0]).disk, ops[1..]))
  }

  /** Over every run of creates, updates, deletes, reloads, fix-ups and image writes, with
      any pattern of read and write failures: memory and sector 0 agree throughout if and
      only if every step is harmless, and then no more than four partitions exist. */
  lemma {:induction false} RunCoherentIff(d: Disk, ops: seq<Op>)
    requires Sound(d)
    ensures AlwaysCoherent(d, ops) <==> AlwaysHarmless(d, ops)
    ensures AlwaysHarmless(d, ops) ==> Sound(Final(d, ops))
    decreases |ops|
  {
    hide Harmless, Apply;
    if ops != [] {
      StepCoherentIff(d, ops[0]);
      var d1 := Apply(d, ops[0]).disk;
      if Harmless(d, ops[0]) {
        RunCoherentIff(d1, ops[1..]);
      }
    }
  }

  /** Harmless or not, no run ever has more than the four partitions sector 0 can hold. */
  lemma {:induction false} RunAtMostFour(d: Disk, ops: seq<Op>)
    requires |Visible(d.parts)| <= ENTRIES
    ensures |Visible(Final(d, ops).parts)| <= ENTRIES
    decreases |ops|
  {
    hide Apply, Visible;
    if ops != [] {
      StepAtMostFour(d, ops[0]);
      RunAtMostFour(Apply(d, ops[0]).disk, ops[1..]);
    }
  }

  lemma StepAtMostFour(d: Disk, op: Op)
    requires |Visible(d.parts)| <= ENTRIES
    ensures |Visible(Apply(d, op).disk.parts)| <= ENTRIES
  {
    hide Visible, Used, Loaded, Fixup, Committed, Layout, CommitOrRestore, FirstUsed;
    FailureChangesNothing(d, op);
    if op.IsEdit() {
      if Apply(d, op).ok {
        EditEffect(d, op);
      }
    } else {
      LoadedVisible(d.mbr);
      LoadedVisible(Fixup(d.mbr, d.capacityMib));
      if op.OpImage? {
        LoadedVisible(Fixup(op.sector, d.capacityMib));
      }
    }
  }

  /** Partition edits below 2 TiB and reloads. */
  predicate Ordinary(op: Op) {
    op.OpDelete? || op.OpReload? || ((op.OpCreate? || op.OpUpdate?) && op.sizeMib < MIB_LIMIT)
  }

  lemma OrdinaryHarmless(d: Disk, op: Op)
    requires Ordinary(op)
    ensures Harmless(d, op)
  {
    if op.OpCreate? || op.OpUpdate? {
      assert op.sizeMib == 0 ==> !Succeeds(d, op);
    }
  }

  lemma SoundCoherent(d: Disk)
    requires Sound(d)
    ensures Coherent(d) && |Visible(d.parts)| <= ENTRIES
  {
  }

  /** In particular runs of ordinary operations always agree. */
  lemma {:induction false} RunSound(d: Disk, ops: seq<Op>)
    requires Sound(d) && forall i :: 0 <= i < |ops| ==> Ordinary(ops[i])
    ensures AlwaysCoherent(d, ops) && Sound(Final(d, ops))
    decreases |ops|
  {
    hide Apply, Sound, Harmless, Ordinary;
    SoundCoherent(d);
    if ops != [] {
      OrdinaryHarmless(d, ops[0]);
      StepCoherentIff(d, ops[0]);
      RunSound(Apply(d, ops[0]).disk, ops[1..]);
    }
  }

  /** A member of the failing family: on a large disk a partition of exactly 2 TiB is
      created with a sector count of zero, and sector 0 does not show it. */
  lemma TwoTiBIsInvisible(d: Disk, io: Io)
    requires d.capacityMib >= MIB_LIMIT && io.writeOk && d.parts == seq(SLOTS, _ => Empty)
    ensures var r := Create(d, Data, MIB_LIMIT, io);
            r.ok && |Visible(r.disk.parts)| == 1 && !Coherent(r.disk)
  {
    hide Committed, Used, Coherent, Showable;
    VisiblePrefix(d.parts, 0);
    TotalVisible(d.parts);
    assert FreeSlot(d.parts) == 0;
    var op := OpCreate(Data, MIB_LIMIT, io);
    var p := Described(d.parts[0], Data, MIB_LIMIT, Default(Data, CountKind(d.parts, Data)));
    var edited: Table := d.parts[0 := p];
    assert Edited(d, op) == edited;
    VisiblePrefix(edited, 1);
    assert Visible(edited) == [p];
    EditEffect(d, op);
    EditCoherentIff(d, op);
    NotShowable(Visible(edited), 0);
  }

  lemma NotShowable(v: seq<Partition>, i: nat)
    requires i < |v| && v[i].sizeMib % MIB_LIMIT == 0
    ensures !Showable(v)
  {
  }

  /** An image without a partition table leaves the old partitions in memory. */
  lemma BlankImageIsNotReloaded(d: Disk, io: Io, reload: Io)
    requires io.readOk && Visible(d.parts) != []
    ensures var r := ImageDisk(d, Zeros(), io, reload);
            r.ok && r.disk.parts == d.parts && !Coherent(r.disk)
  {
    hide Visible;
    UsedNone(Zeros(), 0);
  }

  // -------------------------------------------------- layout over whole runs

  /** Everything fits the recorded capacity and is laid out without gaps. */
  predicate Fitting(d: Disk) {
    && Sound(d)
    && Total(d.parts) <= d.capacityMib
    && Packed(Visible(d.parts), FIRST_LBA, SECTORS_PER_MIB * (1 + Total(d.parts)))
  }

  /** From any agreeing disk whose contents fit, packed or not, one successful edit that
      does not wrap leaves everything packed. */
  lemma EditFits(d: Disk, op: Op)
    requires Sound(d) && Total(d.parts) <= d.capacityMib && d.capacityMib + 1 < MIB_LIMIT
    requires op.IsEdit() && Intended(d, op) < WORD && Apply(d, op).ok
    ensures Fitting(Apply(d, op).disk)
  {
    hide Apply, Committed, Coherent, Packed, Total, Edited, Layout, Visible;
    FitsIffNoWrap(d, op);
    CapacityFixed(d, op);
    EditEffect(d, op);
    LayoutTheorem(Edited(d, op), d.capacityMib);
    if op.OpCreate? || op.OpUpdate? {
      SizeWithinTotal(d, op);
    }
    EditStep(d, op);
  }

  /** The size asked for is positive and part of the intended total. */
  lemma SizeWithinTotal(d: Disk, op: Op)
    requires Total(d.parts) <= d.capacityMib && Apply(d, op).ok && (op.OpCreate? || op.OpUpdate?)
    requires Intended(d, op) < WORD
    ensures 0 < op.sizeMib <= d.capacityMib
  {
    hide CommitOrRestore, Total, Visible, CountKind;
    EditTotal(d, op);
    FitsIffNoWrap(d, op);
    if op.OpUpdate? {
      TotalAtLeast(d.parts, VisibleSlot(d.parts, op.index));
    }
  }

  /** Reloading what was committed shows the same extents and sizes. */
  lemma ReloadExtents(d: Disk, i: nat)
    requires Fitting(d) && i < |Visible(d.parts)|
    ensures |Visible(Loaded(d.mbr))| == |Visible(d.parts)|
    ensures var v, w := Visible(d.parts)[i], Visible(Loaded(d.mbr))[i];
            w.start == v.start && w.count == v.count && w.sizeMib == v.sizeMib
  {
    hide Used, Visible, Total;
    LoadedVisible(d.mbr);
    assert Visible(d.parts)[i].count == SECTORS_PER_MIB * Visible(d.parts)[i].sizeMib;
    assert Visible(Loaded(d.mbr))[i] == FromEntry(Used(d.mbr)[i], i);
  }

  /** Packing depends on extents and sizes only. */
  lemma SamePacking(v: seq<Partition>, w: seq<Partition>, lba: nat, end: nat)
    requires Packed(v, lba, end) && |v| == |w|
    requires forall i :: 0 <= i < |v| ==>
               w[i].start == v[i].start && w[i].count == v[i].count && w[i].sizeMib == v[i].sizeMib
    ensures Packed(w, lba, end)
  {
  }

  lemma LoadedCount(d: Disk)
    requires Coherent(d)
    ensures |Visible(Loaded(d.mbr))| == |Visible(d.parts)|
  {
    hide Used, Visible;
    LoadedVisible(d.mbr);
  }

  lemma {:induction false} SameTotal(v: seq<Partition>, w: seq<Partition>)
    requires |v| == |w| && forall i :: 0 <= i < |v| ==> v[i].present && w[i].present && v[i].sizeMib == w[i].sizeMib
    ensures Total(v) == Total(w)
  {
    if v != [] {
      SameTotal(v[1..], w[1..]);
    }
  }

  lemma ReloadFitting(d: Disk, io: Io)
    requires Fitting(d)
    ensures Fitting(Reload(d, io))
  {
    hide Used, Visible, Total, Packed, Loaded, Coherent, Showable;
    if io.readOk && Signed(d.mbr) {
      LoadedSound(d.(parts := Loaded(d.mbr)));
      var v, w := Visible(d.parts), Visible(Loaded(d.mbr));
      LoadedCount(d);
      forall i: nat | i < |v|
        ensures w[i].start == v[i].start && w[i].count == v[i].count && w[i].sizeMib == v[i].sizeMib
      {
        ReloadExtents(d, i);
      }
      SamePacking(v, w, FIRST_LBA, SECTORS_PER_MIB * (1 + Total(d.parts)));
      SameTotal(v, w);
      TotalVisible(d.parts);
      TotalVisible(Loaded(d.mbr));
    }
  }

  /** Edits whose intended totals do not wrap, and reloads. */
  predicate NoWrap(d: Disk, ops: seq<Op>)
    decreases |ops|
  {
    ops == []
    || ((ops[0].IsEdit() || ops[0].OpReload?) && Intended(d, ops[0]) < WORD
        && NoWrap(Apply(d, ops[0]).disk, ops[1..]))
  }

  lemma StepFitting(d: Disk, op: Op)
    requires Fitting(d) && d.capacityMib + 1 < MIB_LIMIT && Intended(d, op) < WORD
    requires op.IsEdit() || op.OpReload?
    ensures Fitting(Apply(d, op).disk)
  {
    hide Fitting, Intended, Create, Update, Delete, Reload;
    if op.OpReload? {
      ReloadFitting(d, op.io);
    } else {
      FailureChangesNothing(d, op);
      if Apply(d, op).ok {
        FittingSound(d);
        EditFits(d, op);
      }
    }
  }

  lemma FittingSound(d: Disk)
    requires Fitting(d)
    ensures Sound(d) && Total(d.parts) <= d.capacityMib
  {
  }

  /** Over every run on a disk below 2 TiB - 1 MiB, with any pattern of failures, the
      visible partitions are aligned, contiguous and disjoint from LBA 2048, end
      exactly 1 MiB past their total size, and match sector 0. */
  lemma {:induction false} RunFitting(d: Disk, ops: seq<Op>)
    requires Fitting(d) && d.capacityMib + 1 < MIB_LIMIT && NoWrap(d, ops)
    ensures Fitting(Final(d, ops))
    decreases |ops|
  {
    hide Fitting, Intended, Apply;
    if ops != [] {
      StepFitting(d, ops[0]);
      CapacityFixed(d, ops[0]);
      RunFitting(Apply(d, ops[0]).disk, ops[1..]);
    }
  }

  /** A run that starts from a load: nothing has changed yet, or everything is packed. */
  lemma {:induction false} RunFromLoad(d: Disk, ops: seq<Op>)
    requires d.parts == Loaded(d.mbr) && Total(d.parts) <= d.capacityMib && d.capacityMib + 1 < MIB_LIMIT
    requires NoWrap(d, ops)
    ensures Final(d, ops) == d || Fitting(Final(d, ops))
    decreases |ops|
  {
    hide Fitting, Intended, Create, Update, Delete, Loaded, Sound;
    if ops != [] {
      var op := ops[0];
      FailureChangesNothing(d, op);
      CapacityFixed(d, op);
      if op.OpReload? || !Apply(d, op).ok {
        RunFromLoad(d, ops[1..]);
      } else {
        LoadedSound(d);
        EditFits(d, op);
        RunFitting(Apply(d, op).disk, ops[1..]);
      }
    }
  }

  /** An empty table over a sector without used entries is the first fitting state. */
  lemma BlankFitting(d: Disk)
    requires d.parts == seq(SLOTS, _ => Empty) && Used(d.mbr) == []
    ensures Fitting(d)
  {
    hide Used;
    VisiblePrefix(d.parts, 0);
    TotalVisible(d.parts);
  }
}
