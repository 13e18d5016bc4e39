/**
 Planning the partitions of an installation: the full plan for a new disk, and
 making room for user data on an existing one.
 */
module Installer {
  import opened Sector
  import opened Partitions
  import opened Mbr
  import opened PartitionOps

  const EFI_MIB: nat := 256
  const MIN_SYSTEM_MIB: nat := 8192
  const MIN_DATA_MIB: nat := 4096
  const MAX_PART_MIB: nat := 65536

  predicate HasKind(t: seq<Partition>, kind: Kind) { CountKind(t, kind) > 0 }

  function Clamp(x: nat, lo: nat, hi: nat): (r: nat)
    requires lo <= hi
    ensures lo <= r <= hi
  {
    if x < lo then lo else if x > hi then hi else x
  }

  function SystemSize(capacityMib: Word): (r: Word)
    ensures MIN_SYSTEM_MIB <= r <= MAX_PART_MIB
    ensures capacityMib < 16384 ==> r == 8192
    ensures 16384 <= capacityMib < 131072 ==> 2 * r <= capacityMib <= 2 * r + 1
    ensures capacityMib >= 131072 ==> r == 65536
  {
    Clamp(capacityMib / 2, MIN_SYSTEM_MIB, MAX_PART_MIB)
  }

  function FreeMib(d: Disk): (r: Word)
    ensures r <= d.capacityMib
  {
    if d.capacityMib > UsedMib(d.parts) then d.capacityMib - UsedMib(d.parts) else 0
  }

  // ------------------------------------------------------------ the full plan

  function PlanEfi(d: Disk, io: Io): Outcome {
    if HasKind(d.parts, Efi) then Outcome(d, false) else Create(d, Efi, EFI_MIB, io)
  }

  function PlanSystem(d: Disk, wanted: bool, io: Io): Outcome {
    if !wanted then Outcome(d, false) else Create(d, System, SystemSize(d.capacityMib), io)
  }

  function PlanData(d: Disk, wanted: bool, io: Io): Outcome {
    if !wanted || FreeMib(d) < MIN_DATA_MIB then Outcome(d, false)
    else Create(d, Data, if FreeMib(d) > MAX_PART_MIB then MAX_PART_MIB else FreeMib(d), io)
  }

  datatype Plan = Plan(disk: Disk, changed: nat)

  function Tally(ok: bool): nat { if ok then 1 else 0 }

  /** storage_ensure_install_partitions; the wanted kinds are looked up before anything
      is created. */
  function EnsureInstall(d: Disk, io1: Io, io2: Io, io3: Io): Plan {
    var r1 := PlanEfi(d, io1);
    var r2 := PlanSystem(r1.disk, !HasKind(d.parts, System), io2);
    var r3 := PlanData(r2.disk, !HasKind(d.parts, Data), io3);
    Plan(r3.disk, Tally(r1.ok) + Tally(r2.ok) + Tally(r3.ok))
  }

  // ------------------------------------------------- when a create succeeds

  /** Room for one more partition of this size, as the 32-bit check sees it. */
  predicate Fits(d: Disk, sizeMib: nat) {
    |Visible(d.parts)| < ENTRIES && (UsedMib(d.parts) + sizeMib) % WORD <= d.capacityMib
  }

  lemma CreateSucceeds(d: Disk, kind: Kind, sizeMib: Word, io: Io)
    requires sizeMib > 0
    ensures var r := Create(d, kind, sizeMib, io);
            && (r.ok <==> Fits(d, sizeMib) && io.writeOk)
            && (!r.ok ==> r.disk == d)
            && (r.ok ==> |Visible(r.disk.parts)| == |Visible(d.parts)| + 1)
            && (r.ok ==> Total(r.disk.parts) == Total(d.parts) + sizeMib)
            && (r.ok ==> UsedMib(r.disk.parts) == (UsedMib(d.parts) + sizeMib) % WORD)
            && r.disk.capacityMib == d.capacityMib
            && (forall k: Kind :: HasKind(r.disk.parts, k) <==> HasKind(d.parts, k) || (r.ok && k == kind))
  {
    hide Committed, Layout, Visible, Total, CountKind;
    var slot := FreeSlot(d.parts);
    if slot < 0 {
      VisiblePrefix(d.parts, SLOTS);
    } else {
      var p := Described(d.parts[slot], kind, sizeMib, Default(kind, CountKind(d.parts, kind)));
      var edited: Table := d.parts[slot := p];
      VisibleUpdate(d.parts, slot, p);
      TotalUpdate(d.parts, slot, p);
      CommitOrRestoreEffect(d, edited, io);
      forall k: Kind
        ensures HasKind(Layout(edited, FIRST_LBA), k) <==> HasKind(d.parts, k) || k == kind
      {
        KindsUpdate(d.parts, slot, p, k);
        LayoutKinds(edited, k);
      }
    }
  }

  lemma KindsUpdate(t: Table, slot: nat, p: Partition, k: Kind)
    requires slot < SLOTS && !t[slot].present && p.present
    ensures HasKind(t[slot := p], k) <==> HasKind(t, k) || p.kind == k
  {
    if HasKind(t, k) {
      var i :| 0 <= i < SLOTS && t[i].present && t[i].kind == k;
      assert t[slot := p][i] == t[i];
    }
    if p.kind == k {
      assert t[slot := p][slot] == p;
    }
  }

  lemma LayoutKinds(t: Table, k: Kind)
    ensures HasKind(Layout(t, FIRST_LBA), k) <==> HasKind(t, k)
  {
    hide Layout;
    var r := Layout(t, FIRST_LBA);
    forall i: nat | i < SLOTS
      ensures r[i].present == t[i].present && r[i].kind == t[i].kind
    {
      LayoutKeeps(t, FIRST_LBA, i);
    }
  }

  // -------------------------------------------------------- planning is settled

  predicate Accepts(io: Io) { io.writeOk }

  /** Every kind is there or has no room. */
  predicate Settled(d: Disk) {
    && (HasKind(d.parts, Efi) || !Fits(d, EFI_MIB))
    && (HasKind(d.parts, System) || !Fits(d, SystemSize(d.capacityMib)))
    && (HasKind(d.parts, Data) || FreeMib(d) < MIN_DATA_MIB || |Visible(d.parts)| >= ENTRIES)
  }

  /** Refusals cannot make a settled disk change either. */
  lemma SettledStays(d: Disk, io1: Io, io2: Io, io3: Io)
    requires Settled(d)
    ensures EnsureInstall(d, io1, io2, io3) == Plan(d, 0)
  {
    hide Create, CountKind, Visible, UsedMib, HasKind;
    CreateSucceeds(d, Efi, EFI_MIB, io1);
    CreateSucceeds(d, System, SystemSize(d.capacityMib), io2);
    if FreeMib(d) >= MIN_DATA_MIB {
      CreateSucceeds(d, Data, if FreeMib(d) > MAX_PART_MIB then MAX_PART_MIB else FreeMib(d), io3);
    }
  }

  /** With an accepting backend a call does nothing if and only if the disk is settled. */
  lemma NothingToDoIff(d: Disk, io1: Io, io2: Io, io3: Io)
    requires Accepts(io1) && Accepts(io2) && Accepts(io3)
    ensures EnsureInstall(d, io1, io2, io3).changed == 0 <==> Settled(d)
    ensures Settled(d) ==> EnsureInstall(d, io1, io2, io3).disk == d
  {
    hide Create, CountKind, Visible, UsedMib, HasKind, Fits;
    if Settled(d) {
      SettledStays(d, io1, io2, io3);
    } else {
      CreateSucceeds(d, Efi, EFI_MIB, io1);
      if HasKind(d.parts, Efi) || !Fits(d, EFI_MIB) {
        CreateSucceeds(d, System, SystemSize(d.capacityMib), io2);
        if HasKind(d.parts, System) || !Fits(d, SystemSize(d.capacityMib)) {
          DataFits(d);
          CreateSucceeds(d, Data, if FreeMib(d) > MAX_PART_MIB then MAX_PART_MIB else FreeMib(d), io3);
        }
      }
    }
  }

  /** What is free always fits. */
  lemma DataFits(d: Disk)
    ensures FreeMib(d) >= MIN_DATA_MIB && |Visible(d.parts)| < ENTRIES ==>
              Fits(d, if FreeMib(d) > MAX_PART_MIB then MAX_PART_MIB else FreeMib(d))
  {
    hide Visible, Total;
  }

  /** 32-bit addition without a division. */
  function Plus(a: Word, b: Word): (r: Word)
    ensures r == (a + b) % WORD
  {
    if a + b < WORD then a + b else a + b - WORD
  }

  /** What planning depends on: the 32-bit sum, the capacity, the number of partitions and
      which kinds there are. */
  datatype Gauge = Gauge(used: Word, capacity: Word, count: nat, efi: bool, system: bool, data: bool)
  {
    predicate Room(sizeMib: Word) { count < ENTRIES && Plus(used, sizeMib) <= capacity }
    function Free(): Word { if capacity > used then capacity - used else 0 }
    function Add(sizeMib: Word): Gauge { this.(used := Plus(used, sizeMib), count := count + 1) }

    function WithEfi(): Gauge { if efi || !Room(EFI_MIB) then this else Add(EFI_MIB).(efi := true) }

    function WithSystem(): Gauge {
      if system || !Room(SystemSize(capacity)) then this else Add(SystemSize(capacity)).(system := true)
    }

    function WithData(): Gauge {
      var size := if Free() > MAX_PART_MIB then MAX_PART_MIB else Free();
      if data || Free() < MIN_DATA_MIB || !Room(size) then this else Add(size).(data := true)
    }

    predicate AtRest() {
      && (efi || !Room(EFI_MIB))
      && (system || !Room(SystemSize(capacity)))
      && (data || Free() < MIN_DATA_MIB || count >= ENTRIES)
    }

    /** System has no room before Data is created, but afterwards its sum wraps. */
    predicate LateSystem() {
      var g := WithEfi();
      && !system && !data && g.count <= 2
      && g.used + MIN_DATA_MIB <= capacity < g.used + MAX_PART_MIB
      && g.used + MAX_PART_MIB < WORD <= capacity + MAX_PART_MIB
    }

    /** EFI has no room at first, but System wraps the sum and so makes some, more than
        Data takes. */
    predicate LateEfi() {
      var sum := used + SystemSize(capacity);
      && !efi && !system && count <= 2
      && capacity < used + EFI_MIB < WORD <= sum <= WORD + capacity
      && var left := capacity - (sum - WORD);
         if !data && left >= MIN_DATA_MIB then count <= 1 && left >= MAX_PART_MIB + EFI_MIB else left >= EFI_MIB
    }
  }

  function Read(d: Disk): Gauge {
    Gauge(UsedMib(d.parts), d.capacityMib, |Visible(d.parts)|,
          HasKind(d.parts, Efi), HasKind(d.parts, System), HasKind(d.parts, Data))
  }

  lemma EfiGauge(d: Disk, io: Io)
    requires Accepts(io)
    ensures Read(PlanEfi(d, io).disk) == Read(d).WithEfi()
  {
    hide Create, CountKind, Visible, UsedMib, HasKind;
    CreateSucceeds(d, Efi, EFI_MIB, io);
  }

  lemma SystemGauge(d: Disk, io: Io)
    requires Accepts(io)
    ensures Read(PlanSystem(d, !HasKind(d.parts, System), io).disk) == Read(d).WithSystem()
  {
    hide Create, CountKind, Visible, UsedMib, HasKind, SystemSize;
    CreateSucceeds(d, System, SystemSize(d.capacityMib), io);
  }

  lemma DataGauge(d: Disk, io: Io)
    requires Accepts(io)
    ensures Read(PlanData(d, !HasKind(d.parts, Data), io).disk) == Read(d).WithData()
  {
    hide Create, CountKind, Visible, UsedMib, HasKind;
    if FreeMib(d) >= MIN_DATA_MIB {
      CreateSucceeds(d, Data, if FreeMib(d) > MAX_PART_MIB then MAX_PART_MIB else FreeMib(d), io);
    }
  }

  /** With an accepting backend a call takes the gauge through its three stages. */
  lemma PlanGauge(d: Disk, io1: Io, io2: Io, io3: Io)
    requires Accepts(io1) && Accepts(io2) && Accepts(io3)
    ensures Read(EnsureInstall(d, io1, io2, io3).disk) == Read(d).WithEfi().WithSystem().WithData()
  {
    hide PlanEfi, PlanSystem, PlanData, CountKind, Visible, UsedMib, HasKind, SystemSize, Plus, Gauge.WithData;
    EfiGauge(d, io1);
    var d1 := PlanEfi(d, io1).disk;
    SystemGauge(d1, io2);
    var d2 := PlanSystem(d1, !HasKind(d1.parts, System), io2).disk;
    DataGauge(d2, io3);
    assert Read(d1).system == HasKind(d1.parts, System) == HasKind(d.parts, System);
    assert Read(d2).data == HasKind(d2.parts, Data) == HasKind(d.parts, Data);
  }

  lemma RestIff(g: Gauge)
    ensures g.WithEfi().WithSystem().WithData().AtRest() <==> !g.LateSystem() && !g.LateEfi()
  {
    if g.efi || g.Room(EFI_MIB) {
      EfiThere(g.WithEfi());
    } else {
      EfiRefused(g);
    }
  }

  /** With EFI there only System can come late. */
  lemma EfiThere(g: Gauge)
    requires g.efi
    ensures g.WithSystem().WithData().AtRest() <==> !g.LateSystem()
  {
  }

  lemma EfiRefused(g: Gauge)
    requires !g.efi && !g.Room(EFI_MIB)
    ensures g.WithSystem().WithData().AtRest() <==> !g.LateSystem() && !g.LateEfi()
  {
  }

  lemma SettledGauge(d: Disk)
    ensures Settled(d) <==> Read(d).AtRest()
  {
    hide Visible, UsedMib, HasKind, SystemSize;
  }

  /** The exact condition on the disk before the first call: one call settles it if and
      only if neither System nor EFI comes too late. */
  lemma SettledAfterIff(d: Disk, io1: Io, io2: Io, io3: Io)
    requires Accepts(io1) && Accepts(io2) && Accepts(io3)
    ensures Settled(EnsureInstall(d, io1, io2, io3).disk) <==> !Read(d).LateSystem() && !Read(d).LateEfi()
  {
    hide EnsureInstall, Settled, Read, Gauge.WithEfi, Gauge.WithSystem, Gauge.WithData, Gauge.AtRest,
      Gauge.LateSystem, Gauge.LateEfi;
    PlanGauge(d, io1, io2, io3);
    RestIff(Read(d));
    SettledGauge(EnsureInstall(d, io1, io2, io3).disk);
  }

  /** A second call straight after the first returns 0 if and only if that holds, and then
      changes nothing. */
  lemma SecondCallIff(d: Disk, a1: Io, a2: Io, a3: Io, b1: Io, b2: Io, b3: Io)
    requires Accepts(a1) && Accepts(a2) && Accepts(a3) && Accepts(b1) && Accepts(b2) && Accepts(b3)
    ensures var first := EnsureInstall(d, a1, a2, a3).disk;
            && (EnsureInstall(first, b1, b2, b3).changed == 0 <==> !Read(d).LateSystem() && !Read(d).LateEfi())
            && (EnsureInstall(first, b1, b2, b3).changed == 0 ==> EnsureInstall(first, b1, b2, b3).disk == first)
  {
    hide EnsureInstall, Settled, Read;
    SettledAfterIff(d, a1, a2, a3);
    NothingToDoIff(EnsureInstall(d, a1, a2, a3).disk, b1, b2, b3);
  }

  /** In particular it does on any disk whose 32-bit sum is clear of the wrap by an EFI
      and two of the largest partitions, whatever the second backend accepts. */
  lemma EnsureInstallSettles(d: Disk, a1: Io, a2: Io, a3: Io, b1: Io, b2: Io, b3: Io)
    requires Accepts(a1) && Accepts(a2) && Accepts(a3)
    requires UsedMib(d.parts) + EFI_MIB + 2 * MAX_PART_MIB < WORD
    ensures var first := EnsureInstall(d, a1, a2, a3).disk;
            EnsureInstall(first, b1, b2, b3) == Plan(first, 0)
  {
    hide EnsureInstall, Settled, UsedMib, Visible, HasKind;
    SettledAfterIff(d, a1, a2, a3);
    SettledStays(EnsureInstall(d, a1, a2, a3).disk, b1, b2, b3);
  }

  /** Two partitions in the first slots. */
  function TwoSlots(a: Partition, b: Partition): (t: Table) {
    seq(SLOTS, i => if i == 0 then a else if i == 1 then b else Empty)
  }

  lemma TwoSlotsGauge(d: Disk, a: Partition, b: Partition)
    requires d.parts == TwoSlots(a, b) && a.present && b.present
    ensures Read(d) == Gauge((a.sizeMib + b.sizeMib) % WORD, d.capacityMib, 2,
                             a.kind == Efi || b.kind == Efi, a.kind == System || b.kind == System,
                             a.kind == Data || b.kind == Data)
  {
    var t := d.parts;
    VisiblePrefix(t, 2);
    assert Visible(t) == [a, b];
    TotalVisible(t);
    assert Total([a, b]) == a.sizeMib + Total([b]) && Total([b]) == b.sizeMib + Total([]);
    forall k: Kind
      ensures HasKind(t, k) <==> a.kind == k || b.kind == k
    {
      assert t[0] == a && t[1] == b;
    }
  }

  /** A table where System comes late: 50000 MiB are free, too little for System; once Data
      has taken them the sum for System wraps and the second call creates it. */
  lemma WrapUnsettles(d: Disk, io: Io)
    requires d.capacityMib == WORD - 20000 && Accepts(io)
    requires d.parts == TwoSlots(Partition(true, Efi, 256, 2048, 524288, NoLabel),
                                 Partition(true, Swap, WORD - 70256, 526336, 4151083008, NoLabel))
    ensures var first := EnsureInstall(d, io, io, io).disk;
            EnsureInstall(first, io, io, io).changed > 0
  {
    hide EnsureInstall, Read;
    TwoSlotsGauge(d, d.parts[0], d.parts[1]);
    SecondCallIff(d, io, io, io, io, io, io);
  }

  /** A table where EFI comes late: it has no room at first, then System wraps the sum. */
  lemma WrapMakesRoom(d: Disk, io: Io)
    requires d.capacityMib == WORD - 1000 && Accepts(io)
    requires d.parts == TwoSlots(Partition(true, Data, 900, 2048, 1843200, NoLabel),
                                 Partition(true, Swap, WORD - 2000, 1845248, 4290871296, NoLabel))
    ensures var first := EnsureInstall(d, io, io, io).disk;
            EnsureInstall(first, io, io, io).changed > 0
  {
    hide EnsureInstall, Read;
    TwoSlotsGauge(d, d.parts[0], d.parts[1]);
    SecondCallIff(d, io, io, io, io, io, io);
  }

  // ----------------------------------------------------------- a blank disk

  /** The first `n` slots are taken and the others are free. */
  predicate Compact(t: Table, n: nat) {
    n <= SLOTS && (forall i :: 0 <= i < n ==> t[i].present) && forall i :: n <= i < SLOTS ==> !t[i].present
  }

  /** On a compact table a create appends. */
  lemma CreateAppends(d: Disk, n: nat, kind: Kind, sizeMib: Word, io: Io)
    requires 0 < sizeMib && Compact(d.parts, n) && n < ENTRIES && Accepts(io) && Fits(d, sizeMib)
    ensures var r := Create(d, kind, sizeMib, io);
            && r.ok && Compact(r.disk.parts, n + 1)
            && r.disk.parts[n].kind == kind && r.disk.parts[n].sizeMib == sizeMib
            && forall i :: 0 <= i < n ==>
                 r.disk.parts[i].kind == d.parts[i].kind && r.disk.parts[i].sizeMib == d.parts[i].sizeMib
  {
    hide Committed, Visible, Total, Layout, UsedMib, CountKind;
    CreateSucceeds(d, kind, sizeMib, io);
    var r := Create(d, kind, sizeMib, io);
    var p := Described(d.parts[n], kind, sizeMib, Default(kind, CountKind(d.parts, kind)));
    var edited: Table := d.parts[n := p];
    assert FreeSlot(d.parts) == n;
    assert r == CommitOrRestore(d, edited, io);
    forall i: nat | i < SLOTS
      ensures var q := r.disk.parts[i];
              q.present == edited[i].present && q.kind == edited[i].kind && q.sizeMib == edited[i].sizeMib
    {
      LayoutKeeps(edited, FIRST_LBA, i);
    }
  }

  lemma BlankTable(t: Table)
    requires Compact(t, 0)
    ensures Visible(t) == [] && Total(t) == 0 && UsedMib(t) == 0 && forall k: Kind :: !HasKind(t, k)
  {
    hide Total;
    VisiblePrefix(t, 0);
    TotalVisible(t);
    assert Total([]) == 0 by { EmptyTotal(); }
  }

  lemma EmptyTotal()
    ensures Total([]) == 0
  {
  }

  const FULL_PLAN_MIB: nat := EFI_MIB + MIN_SYSTEM_MIB + MIN_DATA_MIB

  /** A blank disk gets exactly EFI, System and Data, and the call returns 3, if and only
      if it has at least 12544 MiB. */
  lemma EnsureInstallBlank(d: Disk, io1: Io, io2: Io, io3: Io)
    requires Compact(d.parts, 0) && Accepts(io1) && Accepts(io2) && Accepts(io3)
    ensures FULL_PLAN_MIB == 12544
    ensures var plan := EnsureInstall(d, io1, io2, io3);
            var t := plan.disk.parts;
            && (plan.changed == 3 <==> d.capacityMib >= FULL_PLAN_MIB)
            && (plan.changed == 3 ==>
                  && Compact(t, 3)
                  && t[0].kind == Efi && t[0].sizeMib == 256
                  && t[1].kind == System && t[1].sizeMib == SystemSize(d.capacityMib)
                  && t[2].kind == Data && 4096 <= t[2].sizeMib <= 65536
                  && Total(t) == t[0].sizeMib + t[1].sizeMib + t[2].sizeMib <= d.capacityMib
                  && (t[2].sizeMib == 65536 || Total(t) == d.capacityMib))
  {
    hide Create, Visible, Total, Compact, CountKind, HasKind;
    BlankTable(d.parts);
    if d.capacityMib >= FULL_PLAN_MIB {
      BlankInstalled(d, io1, io2, io3);
    } else {
      BlankTooSmall(d, io1, io2, io3);
    }
  }

  lemma BlankTooSmall(d: Disk, io1: Io, io2: Io, io3: Io)
    requires UsedMib(d.parts) == 0 && d.capacityMib < FULL_PLAN_MIB
    requires forall k: Kind :: !HasKind(d.parts, k)
    ensures EnsureInstall(d, io1, io2, io3).changed < 3
  {
    hide Create, Visible, UsedMib, CountKind, HasKind;
    CreateSucceeds(d, Efi, EFI_MIB, io1);
    var d1 := Create(d, Efi, EFI_MIB, io1).disk;
    assert SystemSize(d.capacityMib) == MIN_SYSTEM_MIB;
    CreateSucceeds(d1, System, MIN_SYSTEM_MIB, io2);
  }

  lemma BlankInstalled(d: Disk, io1: Io, io2: Io, io3: Io)
    requires Compact(d.parts, 0) && d.capacityMib >= FULL_PLAN_MIB
    requires Visible(d.parts) == [] && Total(d.parts) == 0 && UsedMib(d.parts) == 0
    requires forall k: Kind :: !HasKind(d.parts, k)
    requires Accepts(io1) && Accepts(io2) && Accepts(io3)
    ensures var plan := EnsureInstall(d, io1, io2, io3);
            var t := plan.disk.parts;
            && plan.changed == 3 && Compact(t, 3)
            && t[0].kind == Efi && t[0].sizeMib == EFI_MIB
            && t[1].kind == System && t[1].sizeMib == SystemSize(d.capacityMib)
            && t[2].kind == Data && MIN_DATA_MIB <= t[2].sizeMib <= MAX_PART_MIB
            && Total(t) == EFI_MIB + t[1].sizeMib + t[2].sizeMib <= d.capacityMib
            && (t[2].sizeMib == MAX_PART_MIB || Total(t) == d.capacityMib)
  {
    hide Create, Visible, Total, Compact, CountKind, HasKind, UsedMib;
    CreateAppends(d, 0, Efi, EFI_MIB, io1);
    CreateSucceeds(d, Efi, EFI_MIB, io1);
    var d1 := Create(d, Efi, EFI_MIB, io1).disk;
    CreateAppends(d1, 1, System, SystemSize(d.capacityMib), io2);
    CreateSucceeds(d1, System, SystemSize(d.capacityMib), io2);
    var d2 := Create(d1, System, SystemSize(d.capacityMib), io2).disk;
    assert FreeMib(d2) == d.capacityMib - EFI_MIB - SystemSize(d.capacityMib) >= MIN_DATA_MIB;
    var size := if FreeMib(d2) > MAX_PART_MIB then MAX_PART_MIB else FreeMib(d2);
    CreateAppends(d2, 2, Data, size, io3);
    CreateSucceeds(d2, Data, size, io3);
  }

  // ------------------------------------------------------ room for user data

  datatype Prepared = Prepared(disk: Disk, code: int)

  function SplitData(systemMib: Word): (r: Word)
    ensures MIN_DATA_MIB <= r <= 16384
    ensures systemMib < 16384 ==> r == 4096
    ensures 16384 <= systemMib < 65536 ==> 4 * r <= systemMib <= 4 * r + 3
    ensures systemMib >= 65536 ==> r == 16384
  {
    Clamp(systemMib / 4, MIN_DATA_MIB, 16384)
  }

  /** Split a lone System partition in two, putting it back if the second half cannot
      be created. */
  function Split(d: Disk, io1: Io, io2: Io, io3: Io): Prepared
    requires |Visible(d.parts)| == 1
  {
    var system := Visible(d.parts)[0].sizeMib;
    var data := SplitData(system);
    if system <= data + MIN_SYSTEM_MIB then Prepared(d, 0)
    else
      var r1 := Update(d, 0, System, system - data, io1);
      if !r1.ok then Prepared(r1.disk, -1)
      else
        var r2 := Create(r1.disk, Data, data, io2);
        if r2.ok then Prepared(r2.disk, 1)
        else Prepared(Update(r2.disk, 0, System, system, io3).disk, -1)
  }

  /** storage_prepare_user_partition. */
  function PrepareUser(d: Disk, io1: Io, io2: Io, io3: Io): Prepared {
    if HasKind(d.parts, Data) then Prepared(d, 0)
    else if FreeMib(d) >= MIN_DATA_MIB then
      var r := Create(d, Data, if FreeMib(d) > 32768 then 32768 else FreeMib(d), io1);
      Prepared(r.disk, if r.ok then 1 else -1)
    else if |Visible(d.parts)| == 1 && HasKind(d.parts, System) then Split(d, io1, io2, io3)
    else Prepared(d, 0)
  }

  predicate Lone(d: Disk, kind: Kind, sizeMib: nat) {
    |Visible(d.parts)| == 1 && Visible(d.parts)[0].kind == kind && Visible(d.parts)[0].sizeMib == sizeMib
  }

  lemma LoneTotal(t: Table)
    requires |Visible(t)| == 1
    ensures Total(t) == Visible(t)[0].sizeMib
  {
    TotalVisible(t);
    assert Visible(t)[1..] == [];
  }

  /** Resizing a lone partition depends on the capacity and the backend only. */
  lemma ResizeLone(d: Disk, sizeMib: Word, io: Io)
    requires |Visible(d.parts)| == 1 && 0 < sizeMib
    ensures var r := Update(d, 0, System, sizeMib, io);
            && (r.ok <==> sizeMib <= d.capacityMib && io.writeOk)
            && (!r.ok ==> r.disk == d)
            && (r.ok ==> Lone(r.disk, System, sizeMib))
            && r.disk.capacityMib == d.capacityMib
  {
    hide Committed, Layout, Visible, Total;
    LoneTotal(d.parts);
    var slot := VisibleSlot(d.parts, 0);
    var p := Described(d.parts[slot], System, sizeMib, Default(System, 0));
    VisibleSet(d.parts, 0, p);
    CommitOrRestoreEffect(d, d.parts[slot := p], io);
    LayoutKeeps(Visible(d.parts[slot := p]), FIRST_LBA, 0);
  }

  predicate Holds(t: Table, kind: Kind, sizeMib: nat) {
    exists i :: 0 <= i < SLOTS && t[i].present && t[i].kind == kind && t[i].sizeMib == sizeMib
  }

  lemma VisibleHolds(t: Table, k: nat)
    requires k < |Visible(t)|
    ensures Holds(t, Visible(t)[k].kind, Visible(t)[k].sizeMib)
  {
    assert VisibleSlot(t, k) >= 0;
  }

  /** A create keeps what is there and adds what was asked for. */
  lemma CreateHolds(d: Disk, kind: Kind, sizeMib: Word, io: Io, k: Kind, size: nat)
    requires Create(d, kind, sizeMib, io).ok
    ensures var t := Create(d, kind, sizeMib, io).disk.parts;
            Holds(t, kind, sizeMib) && (Holds(d.parts, k, size) ==> Holds(t, k, size))
  {
    hide Committed, Layout, Visible, Total, CountKind;
    var slot := FreeSlot(d.parts);
    var p := Described(d.parts[slot], kind, sizeMib, Default(kind, CountKind(d.parts, kind)));
    var edited: Table := d.parts[slot := p];
    CommitOrRestoreEffect(d, edited, io);
    LayoutKeeps(edited, FIRST_LBA, slot);
    if Holds(d.parts, k, size) {
      var i :| 0 <= i < SLOTS && d.parts[i].present && d.parts[i].kind == k && d.parts[i].sizeMib == size;
      LayoutKeeps(edited, FIRST_LBA, i);
    }
  }

  /** Splitting a lone partition of `system` MiB.  Success conserves the total: System
      keeps more than 8192 MiB, Data gets 4096 to 16384.  A refusal before anything was
      written changes nothing; after the shrink was written, the old size is restored
      exactly when it fits the recorded capacity and the backend accepts that write. */
  lemma SplitTheorem(d: Disk, io1: Io, io2: Io, io3: Io)
    requires |Visible(d.parts)| == 1
    ensures var system := Visible(d.parts)[0].sizeMib;
            var data := SplitData(system);
            var r := Split(d, io1, io2, io3);
            && r.code in {1, 0, -1}
            && (r.code == 0 <==> system <= data + MIN_SYSTEM_MIB)
            && (r.code == 0 ==> r.disk == d)
            && (r.code == 1 ==>
                  && Total(r.disk.parts) == Total(d.parts) == system
                  && |Visible(r.disk.parts)| == 2
                  && system - data > MIN_SYSTEM_MIB
                  && Holds(r.disk.parts, System, system - data) && Holds(r.disk.parts, Data, data))
            && (r.code == -1 ==>
                  || r.disk == d
                  || Lone(r.disk, System, if system <= d.capacityMib && io3.writeOk then system else system - data))
            && (system <= d.capacityMib && io1.writeOk && io2.writeOk ==> r.code >= 0)
  {
    hide Create, Update, Visible, Total, Holds;
    LoneTotal(d.parts);
    var system := Visible(d.parts)[0].sizeMib;
    var data := SplitData(system);
    if system > data + MIN_SYSTEM_MIB {
      ResizeLone(d, system - data, io1);
      var r1 := Update(d, 0, System, system - data, io1);
      if r1.ok {
        LoneTotal(r1.disk.parts);
        VisibleHolds(r1.disk.parts, 0);
        CreateSucceeds(r1.disk, Data, data, io2);
        var r2 := Create(r1.disk, Data, data, io2);
        if r2.ok {
          CreateHolds(r1.disk, Data, data, io2, System, system - data);
        } else {
          ResizeLone(r1.disk, system, io3);
        }
      }
    }
  }

  /** With at least 4096 MiB free, and no Data yet, the call creates a Data partition of
      all that is free, up to 32768 MiB, if there is an entry left and the backend accepts;
      otherwise it fails and changes nothing. */
  lemma PrepareUserCreates(d: Disk, io1: Io, io2: Io, io3: Io)
    requires !HasKind(d.parts, Data) && UsedMib(d.parts) + 4096 <= d.capacityMib
    ensures var r, free := PrepareUser(d, io1, io2, io3), d.capacityMib - UsedMib(d.parts);
            var size := if free < 32768 then free else 32768;
            && (r.code == 1 <==> |Visible(d.parts)| < 4 && io1.writeOk)
            && (r.code != 1 ==> r == Prepared(d, -1))
            && (r.code == 1 ==>
                  && Holds(r.disk.parts, Data, size) && Total(r.disk.parts) == Total(d.parts) + size
                  && |Visible(r.disk.parts)| == |Visible(d.parts)| + 1
                  && forall k: Kind, n: nat :: Holds(d.parts, k, n) ==> Holds(r.disk.parts, k, n))
  {
    hide Create, Visible, Total, CountKind, UsedMib, Holds, HasKind;
    var size := if FreeMib(d) > 32768 then 32768 else FreeMib(d);
    CreateSucceeds(d, Data, size, io1);
    if Create(d, Data, size, io1).ok {
      CreateHolds(d, Data, size, io1, Data, size);
      forall k: Kind, n: nat | Holds(d.parts, k, n)
        ensures Holds(Create(d, Data, size, io1).disk.parts, k, n)
      {
        CreateHolds(d, Data, size, io1, k, n);
      }
    }
  }

  /** With less free, a lone System partition of more than 12288 MiB is split: a quarter of
      it, but at least 4096 and at most 16384 MiB, becomes Data, provided it fits the
      recorded capacity and the backend accepts both writes. */
  lemma PrepareUserSplits(d: Disk, io1: Io, io2: Io, io3: Io)
    requires !HasKind(d.parts, Data) && UsedMib(d.parts) + 4096 > d.capacityMib
    requires |Visible(d.parts)| == 1 && Visible(d.parts)[0].kind == System
    ensures var r, system := PrepareUser(d, io1, io2, io3), Visible(d.parts)[0].sizeMib;
            && (system <= 12288 ==> r == Prepared(d, 0))
            && (system > 12288 && system <= d.capacityMib && io1.writeOk && io2.writeOk ==>
                  && r.code == 1 && Total(r.disk.parts) == system && |Visible(r.disk.parts)| == 2
                  && exists data: nat :: data <= system && Holds(r.disk.parts, Data, data) && Holds(r.disk.parts, System, system - data)
                       && QuarterOf(system, data))
            && (system > 12288 && !io1.writeOk ==> r == Prepared(d, -1))
  {
    hide Create, Update, Visible, Total, CountKind, UsedMib, Holds, SplitData, HasKind;
    LoneKind(d.parts);
    SplitTheorem(d, io1, io2, io3);
    var system := Visible(d.parts)[0].sizeMib;
    assert QuarterOf(system, SplitData(system));
    if system > SplitData(system) + MIN_SYSTEM_MIB {
      ResizeLone(d, system - SplitData(system), io1);
    }
  }

  predicate QuarterOf(systemMib: nat, dataMib: nat) {
    && (systemMib < 16384 ==> dataMib == 4096)
    && (16384 <= systemMib < 65536 ==> 4 * dataMib <= systemMib <= 4 * dataMib + 3)
    && (systemMib >= 65536 ==> dataMib == 16384)
  }

  lemma LoneKind(t: Table)
    requires |Visible(t)| == 1
    ensures HasKind(t, Visible(t)[0].kind)
    ensures forall k: Kind :: HasKind(t, k) ==> k == Visible(t)[0].kind
  {
    var slot := VisibleSlot(t, 0);
    forall i: nat | i < SLOTS && t[i].present
      ensures i == slot
    {
      OnlyVisible(t, slot, i);
    }
  }

  lemma OnlyVisible(t: Table, i: nat, j: nat)
    requires i < SLOTS && j < SLOTS && t[i].present && t[j].present && |Visible(t)| == 1
    ensures i == j
  {
    if i != j {
      VisibleUpdate(t, i, Empty);
      var t': Table := t[i := Empty];
      VisibleUpdate(t', j, Empty);
    }
  }

  /** In every other case it returns 0 and changes nothing. */
  lemma PrepareUserIdle(d: Disk, io1: Io, io2: Io, io3: Io)
    requires HasKind(d.parts, Data)
          || (UsedMib(d.parts) + 4096 > d.capacityMib
              && !(|Visible(d.parts)| == 1 && Visible(d.parts)[0].kind == System))
    ensures PrepareUser(d, io1, io2, io3) == Prepared(d, 0)
  {
    hide Create, Update, Visible, Total, CountKind, UsedMib, Split, HasKind;
    if |Visible(d.parts)| == 1 {
      LoneKind(d.parts);
    }
  }

  /** Success of either kind leaves a Data partition, so asking again does nothing. */
  lemma PrepareUserSettles(d: Disk, io1: Io, io2: Io, io3: Io, b1: Io, b2: Io, b3: Io)
    ensures var r := PrepareUser(d, io1, io2, io3);
            r.code == 1 ==> PrepareUser(r.disk, b1, b2, b3) == Prepared(r.disk, 0)
  {
    hide Create, Update, Visible, Total, CountKind, UsedMib;
    var r := PrepareUser(d, io1, io2, io3);
    if r.code == 1 {
      if FreeMib(d) >= MIN_DATA_MIB {
        var size := if FreeMib(d) > 32768 then 32768 else FreeMib(d);
        CreateSucceeds(d, Data, size, io1);
      } else {
        SplitTheorem(d, io1, io2, io3);
        HoldsKind(r.disk.parts, Data, SplitData(Visible(d.parts)[0].sizeMib));
      }
    }
  }

  lemma HoldsKind(t: Table, kind: Kind, sizeMib: nat)
    requires Holds(t, kind, sizeMib)
    ensures HasKind(t, kind)
  {
  }
}
