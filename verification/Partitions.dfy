/**
 The in-memory partition table of kernel/drivers/storage.c and its layout pass.
 */
module Partitions {
  import opened Sector

  const SLOTS: nat := 8
  const SECTORS_PER_MIB: nat := 2048
  const FIRST_LBA: nat := 2048
  /** 2^21 MiB: the size whose sector count no longer fits 32 bits. */
  const MIB_LIMIT: nat := 0x20_0000

  datatype Kind = Unknown | Efi | System | Data | Swap

  /** Default labels are determined by kind and ordinal; the text is not modelled. */
  datatype Label = NoLabel | Default(kind: Kind, ordinal: nat)

  datatype Partition = Partition(
    present: bool, kind: Kind, sizeMib: Word, start: Word, count: Word, name: Label)

  const Empty: Partition := Partition(false, Unknown, 0, 0, 0, NoLabel)

  type Table = t: seq<Partition> | |t| == SLOTS witness seq(SLOTS, _ => Empty)

  /** The partitions a user sees, in slot order. */
  function Visible(t: seq<Partition>): (r: seq<Partition>)
    ensures |r| <= |t|
    ensures forall i :: 0 <= i < |r| ==> r[i].present
  {
    if t == [] then [] else (if t[0].present then [t[0]] else []) + Visible(t[1..])
  }

  lemma {:induction false} VisibleConcat(a: seq<Partition>, b: seq<Partition>)
    ensures Visible(a + b) == Visible(a) + Visible(b)
  {
    if a == [] {
      assert a + b == b;
    } else {
      assert (a + b)[1..] == a[1..] + b;
      VisibleConcat(a[1..], b);
    }
  }

  /** Sum of the present sizes, as a number: the 32-bit sum of the source is this
      modulo 2^32. */
  function Total(t: seq<Partition>): nat {
    if t == [] then 0 else (if t[0].present then t[0].sizeMib else 0) + Total(t[1..])
  }

  lemma {:induction false} TotalConcat(a: seq<Partition>, b: seq<Partition>)
    ensures Total(a + b) == Total(a) + Total(b)
  {
    if a == [] {
      assert a + b == b;
    } else {
      assert (a + b)[1..] == a[1..] + b;
      TotalConcat(a[1..], b);
    }
  }

  lemma {:induction false} TotalVisible(t: seq<Partition>)
    ensures Total(Visible(t)) == Total(t)
  {
    if t != [] {
      TotalVisible(t[1..]);
      TotalConcat(if t[0].present then [t[0]] else [], Visible(t[1..]));
    }
  }

  /** Replacing one slot. */
  lemma TotalUpdate(t: Table, i: nat, p: Partition)
    requires i < SLOTS
    ensures Total(t[i := p]) + (if t[i].present then t[i].sizeMib else 0)
         == Total(t) + (if p.present then p.sizeMib else 0)
  {
    assert t == t[..i] + ([t[i]] + t[i + 1..]);
    assert t[i := p] == t[..i] + ([p] + t[i + 1..]);
    TotalConcat(t[..i], [t[i]] + t[i + 1..]);
    TotalConcat(t[..i], [p] + t[i + 1..]);
  }

  lemma VisibleUpdate(t: Table, i: nat, p: Partition)
    requires i < SLOTS
    ensures |Visible(t[i := p])| + (if t[i].present then 1 else 0)
         == |Visible(t)| + (if p.present then 1 else 0)
  {
    assert t == t[..i] + ([t[i]] + t[i + 1..]);
    assert t[i := p] == t[..i] + ([p] + t[i + 1..]);
    VisibleConcat(t[..i], [t[i]] + t[i + 1..]);
    VisibleConcat(t[..i], [p] + t[i + 1..]);
  }

  // -------------------------------------------------------------------- layout

  function MibToSectors(mib: Word): Word { mib * SECTORS_PER_MIB % WORD }

  /** storage_recompute_partition_layout, 32-bit wrap-around included. */
  function Layout(t: seq<Partition>, next: Word): (r: seq<Partition>)
    ensures |r| == |t|
  {
    if t == [] then []
    else if !t[0].present then [t[0].(start := 0, count := 0)] + Layout(t[1..], next)
    else
      var count := MibToSectors(t[0].sizeMib);
      [t[0].(start := next, count := count)] + Layout(t[1..], (next + count) % WORD)
  }

  /** Layout moves partitions, it does not change what they are. */
  lemma {:induction false} LayoutKeeps(t: seq<Partition>, next: Word, i: nat)
    requires i < |t|
    ensures var p := Layout(t, next)[i];
            p == t[i].(start := p.start, count := p.count)
  {
    if i > 0 {
      if !t[0].present {
        LayoutKeeps(t[1..], next, i - 1);
      } else {
        LayoutKeeps(t[1..], (next + MibToSectors(t[0].sizeMib)) % WORD, i - 1);
      }
    }
  }

  /** Empty slots do not influence the layout of the visible partitions. */
  lemma {:induction false} LayoutVisible(t: seq<Partition>, next: Word)
    ensures Visible(Layout(t, next)) == Layout(Visible(t), next)
    ensures Total(Layout(t, next)) == Total(t)
  {
    if t != [] {
      var next' := if t[0].present then (next + MibToSectors(t[0].sizeMib)) % WORD else next;
      LayoutVisible(t[1..], next');
      assert Layout(t, next)[1..] == Layout(t[1..], next');
      if t[0].present {
        assert Visible(t) == [t[0]] + Visible(t[1..]);
        assert Visible(t)[1..] == Visible(t[1..]);
      } else {
        assert Visible(t) == Visible(t[1..]);
      }
    }
  }

  /** Aligned, contiguous from `lba`, ending at `end`. */
  predicate Packed(v: seq<Partition>, lba: nat, end: nat) {
    && (v == [] ==> end == lba)
    && (v != [] ==> v[0].start == lba && v[|v| - 1].start + v[|v| - 1].count == end)
    && (forall i :: 0 <= i < |v| ==> v[i].count == SECTORS_PER_MIB * v[i].sizeMib)
    && (forall i :: 0 <= i < |v| ==> v[i].start % SECTORS_PER_MIB == 0)
    && (forall i :: 0 <= i < |v| - 1 ==> v[i].start + v[i].count == v[i + 1].start)
  }

  lemma PackedCons(p: Partition, rest: seq<Partition>, lba: nat, end: nat)
    requires p.start == lba && p.count == SECTORS_PER_MIB * p.sizeMib && lba % SECTORS_PER_MIB == 0
    requires Packed(rest, lba + p.count, end)
    ensures Packed([p] + rest, lba, end)
  {
    var v := [p] + rest;
    assert forall i :: 0 < i < |v| ==> v[i] == rest[i - 1];
  }

  lemma {:induction false} LayoutPacked(v: seq<Partition>, mib: nat)
    requires forall i :: 0 <= i < |v| ==> v[i].present
    requires SECTORS_PER_MIB * (mib + Total(v)) < WORD
    ensures Packed(Layout(v, SECTORS_PER_MIB * mib), SECTORS_PER_MIB * mib, SECTORS_PER_MIB * (mib + Total(v)))
  {
    if v != [] {
      var size := v[0].sizeMib;
      assert MibToSectors(size) == SECTORS_PER_MIB * size;
      assert (SECTORS_PER_MIB * mib + SECTORS_PER_MIB * size) % WORD == SECTORS_PER_MIB * (mib + size);
      LayoutPacked(v[1..], mib + size);
      PackedCons(v[0].(start := SECTORS_PER_MIB * mib, count := SECTORS_PER_MIB * size),
                 Layout(v[1..], SECTORS_PER_MIB * (mib + size)), SECTORS_PER_MIB * mib,
                 SECTORS_PER_MIB * (mib + Total(v)));
    }
  }

  /** Packed partitions never overlap. */
  lemma {:induction false} PackedDisjoint(v: seq<Partition>, lba: nat, end: nat, i: nat, j: nat)
    requires Packed(v, lba, end) && i < j < |v|
    ensures v[i].start + v[i].count <= v[j].start
    decreases j
  {
    if i < j - 1 {
      PackedDisjoint(v, lba, end, i, j - 1);
    }
  }

  /** The layout theorem.  Any table whose sizes add up to at most the capacity, on a
      disk below 2 TiB - 1 MiB, is laid out from LBA 2048 without gaps or overlap.
      The first MiB is not counted against the capacity, so the end lies exactly
      1 MiB above the used total: inside the disk just when a MiB is to spare. */
  lemma LayoutTheorem(t: Table, capacityMib: nat)
    requires Total(t) <= capacityMib && capacityMib + 1 < MIB_LIMIT
    ensures var v := Visible(Layout(t, FIRST_LBA));
            var end := SECTORS_PER_MIB * (1 + Total(t));
            && Packed(v, FIRST_LBA, end)
            && (forall i, j :: 0 <= i < j < |v| ==> v[i].start + v[i].count <= v[j].start)
            && end <= SECTORS_PER_MIB * (capacityMib + 1)
            && (end <= SECTORS_PER_MIB * capacityMib <==> Total(t) < capacityMib)
  {
    hide Layout, Visible, Total, Packed;
    var v := Visible(Layout(t, FIRST_LBA));
    LayoutVisible(t, FIRST_LBA);
    TotalVisible(t);
    LayoutPacked(Visible(t), 1);
    forall i, j | 0 <= i < j < |v|
      ensures v[i].start + v[i].count <= v[j].start
    {
      PackedDisjoint(v, FIRST_LBA, SECTORS_PER_MIB * (1 + Total(t)), i, j);
    }
  }
}
