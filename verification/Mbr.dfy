/**
 Writing the partition table to sector 0 and reading it back.
 */
module Mbr {
  import opened Sector
  import opened Partitions

  function TypeByte(kind: Kind): Byte {
    match kind
    case Efi => 0xEF
    case Swap => 0x82
    case _ => 0x83
  }

  function FirstOfKind(v: seq<Partition>, kind: Kind, from: nat := 0): (r: int)
    requires from <= |v|
    ensures r == -1 || from <= r < |v|
    ensures r == -1 ==> forall i :: from <= i < |v| ==> v[i].kind != kind
    ensures r >= 0 ==> v[r].kind == kind && forall i :: from <= i < r ==> v[i].kind != kind
    decreases |v| - from
  {
    if from == |v| then -1 else if v[from].kind == kind then from else FirstOfKind(v, kind, from + 1)
  }

  /** The entry marked active: the first System partition, else the first EFI one. */
  function ActiveIndex(v: seq<Partition>): (r: int)
    ensures -1 <= r < |v|
  {
    var s := FirstOfKind(v, System);
    if s >= 0 then s else FirstOfKind(v, Efi)
  }

  function EntryOf(p: Partition, active: bool): Entry {
    Entry(if active then 0x80 else 0, TypeByte(p.kind), p.start, p.count)
  }

  function EntryBytes(p: Partition, active: bool): (r: seq<Byte>)
    ensures |r| == ENTRY_SIZE
  {
    [if active then 0x80 else 0, 0xFE, 0xFF, 0xFF, TypeByte(p.kind), 0xFE, 0xFF, 0xFF]
    + Le32(p.start) + Le32(p.count)
  }

  /** Byte `i` of the sector that storage_commit_mbr_partitions writes. */
  function CommittedByte(base: Block, v: seq<Partition>, i: nat): Byte
    requires i < SECTOR_SIZE
  {
    if i < TABLE_OFFSET then base[i]
    else if i == SIGNATURE_OFFSET then 0x55
    else if i == SIGNATURE_OFFSET + 1 then 0xAA
    else
      var e, j := (i - TABLE_OFFSET) / ENTRY_SIZE, (i - TABLE_OFFSET) % ENTRY_SIZE;
      if e < |v| then EntryBytes(v[e], e == ActiveIndex(v))[j] else 0
  }

  function Committed(base: Block, v: seq<Partition>): (s: Block) {
    seq(SECTOR_SIZE, i requires 0 <= i < SECTOR_SIZE => CommittedByte(base, v, i))
  }

  // ----------------------------------------------------------- what was written

  function SlotBytes(v: seq<Partition>, e: nat): (r: seq<Byte>)
    ensures |r| == ENTRY_SIZE
  {
    if e < |v| then EntryBytes(v[e], e == ActiveIndex(v)) else seq(ENTRY_SIZE, _ => 0)
  }

  /** The sixteen bytes of every entry, in full. */
  lemma CommittedSlice(base: Block, v: seq<Partition>, e: nat)
    requires e < ENTRIES
    ensures Committed(base, v)[Offset(e)..Offset(e) + ENTRY_SIZE] == SlotBytes(v, e)
  {
    hide EntryBytes, ActiveIndex;
    var s, o := Committed(base, v), Offset(e);
    var slice := s[o..o + ENTRY_SIZE];
    forall j: nat | j < ENTRY_SIZE
      ensures slice[j] == SlotBytes(v, e)[j]
    {
      assert slice[j] == s[o + j] == CommittedByte(base, v, o + j);
      assert (o + j - TABLE_OFFSET) / ENTRY_SIZE == e && (o + j - TABLE_OFFSET) % ENTRY_SIZE == j;
    }
  }

  lemma EntryFromSlice(s: Block, e: nat, bytes: seq<Byte>)
    requires e < ENTRIES && |bytes| == ENTRY_SIZE && s[Offset(e)..Offset(e) + ENTRY_SIZE] == bytes
    ensures EntryAt(s, e) == Entry(bytes[0], bytes[4], ReadLe32(bytes, 8), ReadLe32(bytes, 12))
  {
    var o := Offset(e);
    assert forall j: nat :: j < ENTRY_SIZE ==> bytes[j] == s[o + j];
  }

  lemma CommittedEntry(base: Block, v: seq<Partition>, e: nat)
    requires e < ENTRIES
    ensures EntryAt(Committed(base, v), e)
         == if e < |v| then EntryOf(v[e], e == ActiveIndex(v)) else Entry(0, 0, 0, 0)
  {
    hide Committed, ActiveIndex, EntryAt;
    CommittedSlice(base, v, e);
    var bytes := SlotBytes(v, e);
    EntryFromSlice(Committed(base, v), e, bytes);
    if e < |v| {
      assert bytes[8..12] == Le32(v[e].start) && bytes[12..16] == Le32(v[e].count);
      Le32RoundTrip(v[e].start, bytes, 8);
      Le32RoundTrip(v[e].count, bytes, 12);
    }
  }

  /** Commit leaves the bootstrap code alone, signs the sector, describes each visible
      partition in its own entry and clears the other entries. */
  lemma CommitTheorem(base: Block, v: seq<Partition>)
    requires |v| <= ENTRIES
    ensures var s := Committed(base, v);
            && s[..TABLE_OFFSET] == base[..TABLE_OFFSET]
            && Signed(s)
            && forall e :: 0 <= e < ENTRIES ==>
                 EntryAt(s, e) == if e < |v| then EntryOf(v[e], e == ActiveIndex(v)) else Entry(0, 0, 0, 0)
  {
    hide EntryAt, ActiveIndex, EntryBytes;
    forall e: nat | e < ENTRIES
      ensures EntryAt(Committed(base, v), e)
           == if e < |v| then EntryOf(v[e], e == ActiveIndex(v)) else Entry(0, 0, 0, 0)
    {
      CommittedEntry(base, v, e);
    }
  }

  /** At most one entry is marked active: the first System partition, else the first
      EFI partition, else none. */
  lemma ActiveTheorem(base: Block, v: seq<Partition>, e: nat)
    requires |v| <= ENTRIES && e < ENTRIES
    ensures var status := EntryAt(Committed(base, v), e).status;
            && status in {0, 0x80}
            && (status == 0x80 <==>
                  && e < |v|
                  && (forall i :: 0 <= i < e ==> v[i].kind != v[e].kind)
                  && (v[e].kind == System
                      || (v[e].kind == Efi && forall i :: 0 <= i < |v| ==> v[i].kind != System)))
  {
    hide EntryAt, Committed;
    CommittedEntry(base, v, e);
  }

  // -------------------------------------------------------------------- loading

  function KindOf(e: Entry, slot: nat): Kind {
    if e.kind == 0xEF then Efi
    else if e.kind in {0x0B, 0x0C, 0x0E} then System
    else if e.kind == 0x82 then Swap
    else if e.kind == 0x83 && slot == 0 && e.start <= 4096 then System
    else Data
  }

  function LoadedSize(count: Word): (r: Word)
    ensures count > 0 ==> 1 <= r < MIB_LIMIT
  {
    if count / SECTORS_PER_MIB == 0 then 1 else count / SECTORS_PER_MIB
  }

  function FromEntry(e: Entry, slot: nat): Partition {
    var kind := KindOf(e, slot);
    Partition(true, kind, LoadedSize(e.count), e.start, e.count, Default(kind, slot))
  }

  /** The table that storage_load_mbr_partitions builds from a signed sector. */
  function Loaded(s: Block): (t: Table) {
    seq(SLOTS, k requires 0 <= k < SLOTS => if k < |Used(s)| then FromEntry(Used(s)[k], k) else Empty)
  }

  lemma {:induction false} VisiblePrefix(t: seq<Partition>, n: nat)
    requires n <= |t|
    requires forall k :: 0 <= k < n ==> t[k].present
    requires forall k :: n <= k < |t| ==> !t[k].present
    ensures Visible(t) == t[..n]
  {
    if t != [] {
      if n > 0 {
        VisiblePrefix(t[1..], n - 1);
        assert t[..n] == [t[0]] + t[1..][..n - 1];
      } else {
        VisiblePrefix(t[1..], 0);
      }
    }
  }

  lemma LoadedVisible(s: Block)
    ensures Visible(Loaded(s)) == Loaded(s)[..|Used(s)|]
  {
    VisiblePrefix(Loaded(s), |Used(s)|);
  }

  /** Number of entries before `e` with a type and a sector count. */
  function UsedBefore(s: Block, e: nat): (n: nat)
    requires e <= ENTRIES
    ensures n <= e
  {
    if e == 0 then 0
    else UsedBefore(s, e - 1) + if EntryAt(s, e - 1).kind != 0 && EntryAt(s, e - 1).count != 0 then 1 else 0
  }

  lemma {:induction false} UsedFrom(s: Block, e: nat)
    requires e <= ENTRIES
    ensures UsedBefore(s, e) + |Used(s, e)| == |Used(s)|
    ensures Used(s)[UsedBefore(s, e)..] == Used(s, e)
  {
    hide EntryAt;
    if e > 0 {
      UsedFrom(s, e - 1);
    }
  }

  /** Entries without a type or a sector count are skipped; the others become partitions
      in table order, whatever the rest of the sector holds. */
  lemma LoadedFrom(s: Block, e: nat)
    requires e < ENTRIES
    ensures var entry, t := EntryAt(s, e), Loaded(s);
            && |Visible(t)| == UsedBefore(s, ENTRIES)
            && (forall k :: 0 <= k < SLOTS ==> (t[k].present <==> k < |Visible(t)|))
            && (entry.kind != 0 && entry.count != 0 ==>
                  var p := t[UsedBefore(s, e)];
                  && p.start == entry.start && p.count == entry.count
                  && (p.sizeMib == entry.count / 2048 || (p.sizeMib == 1 && entry.count < 2048))
                  && p.name == Default(p.kind, UsedBefore(s, e)))
  {
    hide EntryAt, Visible;
    LoadedVisible(s);
    UsedFrom(s, e);
    UsedFrom(s, ENTRIES);
    if EntryAt(s, e).InUse() {
      LoadedEntry(s, e);
    }
  }

  /** The kind of every loaded partition, by its type byte: the three FAT types and a
      leading Linux type near the start of the disk are System. */
  lemma LoadedKindIff(s: Block, e: nat)
    requires e < ENTRIES && EntryAt(s, e).kind != 0 && EntryAt(s, e).count != 0
    ensures var entry, k := EntryAt(s, e), UsedBefore(s, e);
            var kind := Loaded(s)[k].kind;
            && (kind == Efi <==> entry.kind == 0xEF)
            && (kind == Swap <==> entry.kind == 0x82)
            && (kind == System <==>
                  || entry.kind == 0x0B || entry.kind == 0x0C || entry.kind == 0x0E
                  || (entry.kind == 0x83 && k == 0 && entry.start <= 4096))
            && (kind == Data <==> kind != Efi && kind != Swap && kind != System)
  {
    hide EntryAt, Used, UsedBefore;
    LoadedEntry(s, e);
  }

  lemma LoadedEntry(s: Block, e: nat)
    requires e < ENTRIES && EntryAt(s, e).InUse()
    ensures UsedBefore(s, e) < |Used(s)| && Used(s)[UsedBefore(s, e)] == EntryAt(s, e)
  {
    hide EntryAt;
    UsedFrom(s, e);
    assert Used(s)[UsedBefore(s, e)..][0] == Used(s, e)[0];
  }

  /** Where an entry lies in the sector, byte by byte. */
  lemma EntryLayout(s: Block, e: nat)
    requires e < ENTRIES
    ensures var o, entry := 446 + 16 * e, EntryAt(s, e);
            && o + 16 <= 510 && entry.status == s[o] && entry.kind == s[o + 4]
            && entry.start == (s[o + 8] as int) + 0x100 * (s[o + 9] as int)
                              + 0x1_0000 * (s[o + 10] as int) + 0x100_0000 * (s[o + 11] as int)
            && entry.count == (s[o + 12] as int) + 0x100 * (s[o + 13] as int)
                              + 0x1_0000 * (s[o + 14] as int) + 0x100_0000 * (s[o + 15] as int)
            && (Signed(s) <==> s[510] == 0x55 && s[511] == 0xAA)
  {
  }

  /** The bytes commit writes for a partition, with the fixed CHS fields. */
  lemma CommittedBytes(base: Block, v: seq<Partition>, e: nat)
    requires e < ENTRIES && e < |v|
    ensures var s, o := Committed(base, v), 446 + 16 * e;
            && s[o + 1] == s[o + 5] == 0xFE && s[o + 2] == s[o + 3] == s[o + 6] == s[o + 7] == 0xFF
            && s[o + 4] == (match v[e].kind case Efi => 0xEF case Swap => 0x82 case _ => 0x83)
            && EntryAt(s, e).start == v[e].start && EntryAt(s, e).count == v[e].count
            && s[510] == 0x55 && s[511] == 0xAA
  {
    hide ActiveIndex, EntryAt, Le32, Committed;
    CommittedEntry(base, v, e);
    CommittedSlice(base, v, e);
    var s, o := Committed(base, v), Offset(e);
    var slice := s[o..o + ENTRY_SIZE];
    assert forall j: nat :: j < ENTRY_SIZE ==> s[o + j] == slice[j];
    assert slice[1] == 0xFE && slice[2] == 0xFF && slice[3] == 0xFF && slice[4] == TypeByte(v[e].kind);
    assert slice[5] == 0xFE && slice[6] == 0xFF && slice[7] == 0xFF;
    CommittedSigned(base, v);
  }

  lemma CommittedSigned(base: Block, v: seq<Partition>)
    ensures Signed(Committed(base, v))
  {
  }

  // -------------------------------------------------------------- commit, load

  lemma {:induction false} UsedDense(s: Block, n: nat, e: nat)
    requires e <= n <= ENTRIES
    requires forall i :: e <= i < ENTRIES ==> (EntryAt(s, i).InUse() <==> i < n)
    ensures |Used(s, e)| == n - e
    ensures forall i :: 0 <= i < n - e ==> Used(s, e)[i] == EntryAt(s, e + i)
    decreases ENTRIES - e
  {
    if e < ENTRIES {
      if e < n {
        UsedDense(s, n, e + 1);
        assert Used(s, e) == [EntryAt(s, e)] + Used(s, e + 1);
      } else {
        UsedNone(s, e);
      }
    }
  }

  lemma {:induction false} UsedNone(s: Block, e: nat)
    requires e <= ENTRIES && forall i :: e <= i < ENTRIES ==> !EntryAt(s, i).InUse()
    ensures Used(s, e) == []
    decreases ENTRIES - e
  {
    if e < ENTRIES {
      UsedNone(s, e + 1);
    }
  }

  /** Every visible partition has a sector count an entry can hold and be seen by. */
  predicate Countable(v: seq<Partition>) {
    forall i :: 0 <= i < |v| ==> v[i].count > 0
  }

  lemma CommittedUsed(base: Block, v: seq<Partition>)
    requires |v| <= ENTRIES && Countable(v)
    ensures var u := Used(Committed(base, v));
            |u| == |v| && forall i :: 0 <= i < |v| ==> u[i] == EntryOf(v[i], i == ActiveIndex(v))
  {
    hide Committed, EntryAt, Used;
    var s := Committed(base, v);
    forall e: nat | e < ENTRIES
      ensures EntryAt(s, e).InUse() <==> e < |v|
      ensures e < |v| ==> EntryAt(s, e) == EntryOf(v[e], e == ActiveIndex(v))
    {
      CommittedEntry(base, v, e);
    }
    UsedDense(s, |v|, 0);
  }

  /** What becomes of a kind on its way through the type byte. */
  function NormalKind(kind: Kind, k: nat): Kind {
    match kind
    case Efi => Efi
    case Swap => Swap
    case _ => if k == 0 then System else Data
  }

  /** A laid-out list of partitions after one trip to disk and back. */
  function Normal(v: seq<Partition>): (t: Table) {
    seq(SLOTS, k requires 0 <= k < SLOTS =>
      if k < |v| then v[k].(kind := NormalKind(v[k].kind, k), name := Default(NormalKind(v[k].kind, k), k))
      else Empty)
  }

  /** Sizes that survive the trip: non-zero and below 2 TiB. */
  predicate Sized(v: seq<Partition>) {
    forall i :: 0 <= i < |v| ==> 1 <= v[i].sizeMib < MIB_LIMIT
  }

  lemma {:induction false} LayoutCounts(v: seq<Partition>, next: Word)
    requires Sized(v) && forall i :: 0 <= i < |v| ==> v[i].present
    ensures var r := Layout(v, next);
            forall i :: 0 <= i < |v| ==>
              r[i].present && r[i].count == SECTORS_PER_MIB * v[i].sizeMib && r[i].sizeMib == v[i].sizeMib
              && r[i].kind == v[i].kind && r[i].name == v[i].name
  {
    if v != [] {
      assert MibToSectors(v[0].sizeMib) == SECTORS_PER_MIB * v[0].sizeMib;
      LayoutCounts(v[1..], (next + MibToSectors(v[0].sizeMib)) % WORD);
    }
  }

  /** Commit then load: starts, counts and sizes come back exactly, compacted in slot
      order; EFI and Swap stay, anything else is System when first and Data after. */
  lemma CommitLoad(base: Block, t: Table)
    requires |Visible(t)| <= ENTRIES && Sized(Visible(t))
    ensures var v := Layout(Visible(t), FIRST_LBA);
            Loaded(Committed(base, v)) == Normal(v)
  {
    hide Committed, Used;
    var v := Layout(Visible(t), FIRST_LBA);
    LayoutCounts(Visible(t), FIRST_LBA);
    CommittedUsed(base, v);
    var u := Used(Committed(base, v));
    forall k: nat | k < |v|
      ensures FromEntry(u[k], k) == Normal(v)[k]
    {
      assert v[k].count == SECTORS_PER_MIB * v[k].sizeMib;
      assert v[0].start == FIRST_LBA;
    }
  }

  /** Layout looks at nothing but sizes. */
  lemma {:induction false} LayoutBySize(a: seq<Partition>, b: seq<Partition>, next: Word)
    requires |a| == |b|
    requires forall i :: 0 <= i < |a| ==> a[i].present && b[i].present && a[i].sizeMib == b[i].sizeMib
    ensures var x, y := Layout(a, next), Layout(b, next);
            forall i :: 0 <= i < |a| ==> x[i].start == y[i].start && x[i].count == y[i].count
  {
    if a != [] {
      var next' := (next + MibToSectors(a[0].sizeMib)) % WORD;
      LayoutBySize(a[1..], b[1..], next');
      assert Layout(a, next)[1..] == Layout(a[1..], next') && Layout(b, next)[1..] == Layout(b[1..], next');
    }
  }

  /** Once normalised, another layout, commit and load changes nothing. */
  lemma CommitLoadIdempotent(base: Block, base': Block, t: Table)
    requires |Visible(t)| <= ENTRIES && Sized(Visible(t))
    ensures var once := Loaded(Committed(base, Layout(Visible(t), FIRST_LBA)));
            Loaded(Committed(base', Layout(Visible(once), FIRST_LBA))) == once
  {
    hide Committed, Used, Layout, Loaded;
    var v := Layout(Visible(t), FIRST_LBA);
    LayoutCounts(Visible(t), FIRST_LBA);
    CommitLoad(base, t);
    var once := Normal(v);
    VisiblePrefix(once, |v|);
    var w := Visible(once);
    LayoutCounts(w, FIRST_LBA);
    LayoutBySize(Visible(t), w, FIRST_LBA);
    CommitLoad(base', once);
    var v' := Layout(w, FIRST_LBA);
    assert |w| == |v| && |v'| == |w|;
    forall k: nat | k < |v|
      ensures v'[k] == once[k] == w[k]
    {
      LayoutKeeps(w, FIRST_LBA, k);
      assert v'[k].start == v[k].start && v'[k].count == v[k].count;
    }
    assert Normal(v') == once;
  }

  /** The size condition cannot be dropped: a table whose sizes do come back had
      sizes in range to begin with. */
  lemma SizesComeBackOnlyIfSized(base: Block, t: Table)
    requires var once := Loaded(Committed(base, Layout(Visible(t), FIRST_LBA)));
             |Visible(once)| == |Visible(t)|
             && forall i :: 0 <= i < |Visible(t)| ==> Visible(once)[i].sizeMib == Visible(t)[i].sizeMib
    ensures Sized(Visible(t))
  {
    hide Committed, Used, Layout;
    var s := Committed(base, Layout(Visible(t), FIRST_LBA));
    LoadedVisible(s);
    forall i: nat | i < |Visible(t)|
      ensures 1 <= Visible(t)[i].sizeMib < MIB_LIMIT
    {
      assert Visible(Loaded(s))[i] == FromEntry(Used(s)[i], i);
    }
  }
}
