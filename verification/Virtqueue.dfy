/**
 Split virtqueue recycling (section 2.6 of VirtIO 1.1) as the input and network
 receive drivers use it: the driver offers all 16 buffers, the device takes them,
 fills them and returns them in any order, and the driver hands each returned
 buffer to its handler and offers it again.

 Driver and device are interleaved at the level of single ring accesses.
 */
module Virtqueue {

  const QUEUE_SIZE: nat := 16
  const INDEX_WRAP: nat := 0x1_0000

  type Id = n: nat | n < QUEUE_SIZE

  /** Where one poll of the driver stands inside its loop. */
  datatype Phase =
    | Idle
    | Loop                // about to test last_used_idx against the limit
    | InHand(id: Id)      // event handled, descriptor not yet stored
    | Stored(id: Id)      // descriptor written to the avail ring
    | Offered(id: Id)     // avail index published

  /** History of one descriptor: which ring entry, counted without wrap-around, it
      currently occupies. */
  datatype Place = AtAvail(k: nat) | AtDevice | AtUsed(k: nat) | AtDriver

  datatype Queue<E> = Queue(
    // shared memory
    avail: seq<Id>, availIdx: nat,
    used: seq<Id>, usedIdx: nat,
    bufs: seq<E>,
    // driver
    lastUsed: nat, limit: nat, phase: Phase,
    // device
    devIdx: nat, held: set<Id>,
    // history, never read by a step
    completed: seq<E>, handled: seq<E>, taken: nat, goal: nat, place: seq<Place>)

  datatype Step<E> =
    | Snapshot | Leave | Handle | Store | Offer | Advance
    | Take | Write(id: Id, event: E) | Complete(id: Id)
  {
    predicate ByDriver() { Snapshot? || Leave? || Handle? || Store? || Offer? || Advance? }
  }

  predicate Shaped<E>(q: Queue<E>) {
    |q.avail| == |q.used| == |q.bufs| == |q.place| == QUEUE_SIZE
  }

  /** init_virtio_input_device: every descriptor is offered. */
  function Initial<E>(empty: E): (q: Queue<E>) {
    var ids := seq(QUEUE_SIZE, i requires 0 <= i < QUEUE_SIZE => i as Id);
    Queue(ids, QUEUE_SIZE, ids, 0, seq(QUEUE_SIZE, _ => empty),
          0, 0, Idle, 0, {}, [], [], 0, 0,
          seq(QUEUE_SIZE, i requires 0 <= i < QUEUE_SIZE => AtAvail(i)))
  }

  predicate Enabled<E>(q: Queue<E>, s: Step<E>) {
    match s
    case Snapshot => q.phase.Idle? || q.phase.Loop?
    case Leave => q.phase.Loop? && q.lastUsed == q.limit
    case Handle => q.phase.Loop? && q.lastUsed != q.limit
    case Store => q.phase.InHand?
    case Offer => q.phase.Stored?
    case Advance => q.phase.Offered?
    case Take => q.devIdx != q.availIdx
    case Write(id, _) => id in q.held
    case Complete(id) => id in q.held
  }

  function Inc(idx: nat): nat { (idx + 1) % INDEX_WRAP }

  function Apply<E>(q: Queue<E>, s: Step<E>): (r: Queue<E>)
    requires Shaped(q) && Enabled(q, s)
    ensures Shaped(r)
  {
    match s
    case Snapshot => q.(limit := q.usedIdx, phase := Loop, goal := |q.completed|)
    case Leave => q.(phase := Idle)
    case Handle =>
      var id := q.used[q.lastUsed % QUEUE_SIZE];
      q.(handled := q.handled + [q.bufs[id]], phase := InHand(id), place := q.place[id := AtDriver])
    case Store =>
      q.(avail := q.avail[q.availIdx % QUEUE_SIZE := q.phase.id], phase := Stored(q.phase.id))
    case Offer =>
      q.(availIdx := Inc(q.availIdx), phase := Offered(q.phase.id),
         place := q.place[q.phase.id := AtAvail(QUEUE_SIZE + |q.handled| - 1)])
    case Advance =>
      q.(lastUsed := Inc(q.lastUsed), phase := Loop)
    case Take =>
      var id := q.avail[q.devIdx % QUEUE_SIZE];
      q.(devIdx := Inc(q.devIdx), held := q.held + {id}, taken := q.taken + 1, place := q.place[id := AtDevice])
    case Write(id, event) =>
      q.(bufs := q.bufs[id := event])
    case Complete(id) =>
      q.(used := q.used[q.usedIdx % QUEUE_SIZE := id], usedIdx := Inc(q.usedIdx), held := q.held - {id},
         completed := q.completed + [q.bufs[id]], place := q.place[id := AtUsed(|q.completed|)])
  }

  // -------------------------------------------------------- unbounded counters

  /** Entries ever made available, returned to the loop head, and handled-or-in-progress. */
  function AvailCount<E>(q: Queue<E>): int {
    QUEUE_SIZE + |q.handled| - if q.phase.InHand? || q.phase.Stored? then 1 else 0
  }

  function DoneCount<E>(q: Queue<E>): int {
    |q.handled| - if q.phase.InHand? || q.phase.Stored? || q.phase.Offered? then 1 else 0
  }

  /** The ring entry that the k-th offer, or the k-th completion, went through. */
  function AvailAt<E>(q: Queue<E>, k: nat): Id
    requires Shaped(q)
  {
    q.avail[k % QUEUE_SIZE]
  }

  function UsedAt<E>(q: Queue<E>, k: nat): Id
    requires Shaped(q)
  {
    q.used[k % QUEUE_SIZE]
  }

  // ----------------------------------------------------------------- invariant

  predicate Counted<E>(q: Queue<E>) {
    && 0 <= DoneCount(q)
    && |q.handled| <= |q.completed| <= q.taken <= AvailCount(q)
    && q.availIdx == AvailCount(q) % INDEX_WRAP
    && q.usedIdx == |q.completed| % INDEX_WRAP
    && q.devIdx == q.taken % INDEX_WRAP
    && q.lastUsed == DoneCount(q) % INDEX_WRAP
    && |q.held| == q.taken - |q.completed|
    && (!q.phase.Idle? ==> q.limit == q.goal % INDEX_WRAP && |q.handled| <= q.goal <= |q.completed|)
  }

  /** Each descriptor is in exactly one place, and the rings agree. */
  predicate Placed<E>(q: Queue<E>)
    requires Shaped(q) && Counted(q)
  {
    && (forall k: nat :: q.taken <= k < AvailCount(q) ==> q.place[AvailAt(q, k)] == AtAvail(k))
    && (forall k: nat :: |q.handled| <= k < |q.completed| ==> q.place[UsedAt(q, k)] == AtUsed(k))
    && (forall id: Id :: id in q.held <==> q.place[id] == AtDevice)
    && (forall id: Id :: (q.phase == InHand(id) || q.phase == Stored(id)) <==> q.place[id] == AtDriver)
    && (forall id: Id :: q.place[id].AtAvail? ==>
          q.taken <= q.place[id].k < AvailCount(q) && AvailAt(q, q.place[id].k) == id)
    && (forall id: Id :: q.place[id].AtUsed? ==>
          |q.handled| <= q.place[id].k < |q.completed| && UsedAt(q, q.place[id].k) == id)
    && (q.phase.Stored? ==> AvailAt(q, AvailCount(q)) == q.phase.id)
  }

  /** What was handled is what was completed, in order, and returned buffers still
      hold what the device put there. */
  predicate Delivered<E(==)>(q: Queue<E>)
    requires Shaped(q)
  {
    && |q.handled| <= |q.completed|
    && q.handled == q.completed[..|q.handled|]
    && forall k: nat :: |q.handled| <= k < |q.completed| ==> q.bufs[UsedAt(q, k)] == q.completed[k]
  }

  predicate Inv<E(==)>(q: Queue<E>) {
    Shaped(q) && Counted(q) && Placed(q) && Delivered(q)
  }

  // -------------------------------------------------- 16-bit index arithmetic

  lemma Slot(x: nat)
    ensures (x % INDEX_WRAP) % QUEUE_SIZE == x % QUEUE_SIZE
  {
    assert x == (x / INDEX_WRAP * 4096) * QUEUE_SIZE + x % INDEX_WRAP;
  }

  lemma IncCount(x: nat)
    ensures Inc(x % INDEX_WRAP) == (x + 1) % INDEX_WRAP
  {
  }

  lemma SlotsDiffer(j: nat, k: nat)
    requires j < k < j + QUEUE_SIZE
    ensures j % QUEUE_SIZE != k % QUEUE_SIZE
  {
  }

  lemma IndexDiffers(j: nat, k: nat)
    requires j <= k < j + INDEX_WRAP
    ensures j % INDEX_WRAP == k % INDEX_WRAP <==> j == k
    ensures (k % INDEX_WRAP - j % INDEX_WRAP) % INDEX_WRAP == k - j
  {
  }

  // -------------------------------------------------------------- preservation

  lemma InitialInv<E>(empty: E)
    ensures Inv(Initial(empty))
  {
    var q := Initial(empty);
    assert Counted(q);
    assert forall k: nat :: k < QUEUE_SIZE ==> AvailAt(q, k) == k;
  }

  lemma StepCounted<E>(q: Queue<E>, s: Step<E>)
    requires Inv(q) && Enabled(q, s)
    ensures Counted(Apply(q, s))
  {
    hide Placed, Delivered;
    match s
    case Offer => IncCount(AvailCount(q));
    case Advance => IncCount(DoneCount(q));
    case Complete(_) => IncCount(|q.completed|);
    case Take =>
      IncCount(q.taken);
      TakenFresh(q);
    case _ =>
  }

  /** What the device takes next it does not hold yet. */
  lemma TakenFresh<E>(q: Queue<E>)
    requires Inv(q) && Enabled(q, Take)
    ensures q.avail[q.devIdx % QUEUE_SIZE] == AvailAt(q, q.taken) && AvailAt(q, q.taken) !in q.held
  {
    hide Delivered;
    Slot(q.taken);
    assert q.place[AvailAt(q, q.taken)] == AtAvail(q.taken);
  }

  /** The driver only ever overwrites an avail entry the device is done with. */
  lemma StoreHarmless<E>(q: Queue<E>, k: nat)
    requires Inv(q) && q.phase.InHand? && q.taken <= k < AvailCount(q)
    ensures AvailAt(Apply(q, Store), k) == AvailAt(q, k)
  {
    Slot(AvailCount(q));
    SlotsDiffer(k, AvailCount(q));
  }

  /** The device only ever overwrites a used entry the driver is done with. */
  lemma CompleteHarmless<E>(q: Queue<E>, id: Id, k: nat)
    requires Inv(q) && id in q.held && |q.handled| <= k < |q.completed|
    ensures UsedAt(Apply(q, Complete(id)), k) == UsedAt(q, k)
  {
    Slot(|q.completed|);
    Held(q, id);
    SlotsDiffer(k, |q.completed|);
  }

  lemma Held<E>(q: Queue<E>, id: Id)
    requires Counted(q) && id in q.held
    ensures |q.completed| < q.taken
  {
    assert q.held == (q.held - {id}) + {id};
  }

  lemma HandlePlaced<E>(q: Queue<E>)
    requires Inv(q) && Enabled(q, Handle)
    ensures Counted(Apply(q, Handle)) && Placed(Apply(q, Handle))
    ensures |q.handled| < |q.completed|
    ensures q.used[q.lastUsed % QUEUE_SIZE] == UsedAt(q, |q.handled|)
  {
    hide Delivered;
    StepCounted(q, Handle);
    Slot(|q.handled|);
    var r := Apply(q, Handle);
    assert UsedAt(q, |q.handled|) == q.used[q.lastUsed % QUEUE_SIZE] == r.phase.id;
    assert q.place[r.phase.id] == AtUsed(|q.handled|);
    assert forall k: nat :: AvailAt(r, k) == AvailAt(q, k);
    assert forall k: nat :: UsedAt(r, k) == UsedAt(q, k);
  }

  lemma StorePlaced<E>(q: Queue<E>)
    requires Inv(q) && Enabled(q, Store)
    ensures Counted(Apply(q, Store)) && Placed(Apply(q, Store))
  {
    hide Delivered;
    StepCounted(q, Store);
    Slot(AvailCount(q));
    forall k: nat | q.taken <= k < AvailCount(q)
      ensures AvailAt(Apply(q, Store), k) == AvailAt(q, k)
    {
      StoreHarmless(q, k);
    }
  }

  lemma OfferPlaced<E>(q: Queue<E>)
    requires Inv(q) && Enabled(q, Offer)
    ensures Counted(Apply(q, Offer)) && Placed(Apply(q, Offer))
  {
    hide Delivered;
    StepCounted(q, Offer);
    var r := Apply(q, Offer);
    assert AvailAt(r, AvailCount(q)) == AvailAt(q, AvailCount(q)) == q.phase.id;
    assert forall k: nat :: AvailAt(r, k) == AvailAt(q, k);
    assert forall k: nat :: UsedAt(r, k) == UsedAt(q, k);
  }

  lemma TakePlaced<E>(q: Queue<E>)
    requires Inv(q) && Enabled(q, Take)
    ensures Counted(Apply(q, Take)) && Placed(Apply(q, Take))
  {
    hide Delivered;
    StepCounted(q, Take);
    TakenFresh(q);
    hide Counted;
    var r, id := Apply(q, Take), AvailAt(q, q.taken);
    assert q.place[id] == AtAvail(q.taken) && r.place == q.place[id := AtDevice];
    assert AvailCount(r) == AvailCount(q) && q.taken < AvailCount(q);
    assert forall k: nat :: AvailAt(r, k) == AvailAt(q, k);
    assert forall k: nat :: UsedAt(r, k) == UsedAt(q, k);
  }

  lemma CompletePlaced<E>(q: Queue<E>, id: Id)
    requires Inv(q) && Enabled(q, Complete(id))
    ensures Counted(Apply(q, Complete(id))) && Placed(Apply(q, Complete(id)))
  {
    hide Delivered;
    StepCounted(q, Complete(id));
    Slot(|q.completed|);
    var r := Apply(q, Complete(id));
    assert UsedAt(r, |q.completed|) == id;
    assert forall k: nat :: AvailAt(r, k) == AvailAt(q, k);
    forall k: nat | |q.handled| <= k < |q.completed|
      ensures UsedAt(r, k) == UsedAt(q, k)
    {
      CompleteHarmless(q, id, k);
    }
    hide Counted;
    assert q.place[id] == AtDevice && r.place == q.place[id := AtUsed(|q.completed|)];
    assert AvailCount(r) == AvailCount(q);
  }

  lemma StepPlaced<E>(q: Queue<E>, s: Step<E>)
    requires Inv(q) && Enabled(q, s)
    ensures Counted(Apply(q, s)) && Placed(Apply(q, s))
  {
    StepCounted(q, s);
    match s
    case Handle => HandlePlaced(q);
    case Store => StorePlaced(q);
    case Offer => OfferPlaced(q);
    case Take => TakePlaced(q);
    case Complete(id) => CompletePlaced(q, id);
    case _ =>
      var r := Apply(q, s);
      assert forall k: nat :: AvailAt(r, k) == AvailAt(q, k);
      assert forall k: nat :: UsedAt(r, k) == UsedAt(q, k);
  }

  lemma StepDelivered<E>(q: Queue<E>, s: Step<E>)
    requires Inv(q) && Enabled(q, s)
    ensures Delivered(Apply(q, s))
  {
    var r := Apply(q, s);
    match s
    case Handle =>
      HandlePlaced(q);
      assert forall k: nat :: UsedAt(r, k) == UsedAt(q, k);
      assert r.handled == q.completed[..|q.handled|] + [q.completed[|q.handled|]];
    case Complete(id) =>
      Slot(|q.completed|);
      assert UsedAt(r, |q.completed|) == id;
      forall k: nat | |q.handled| <= k < |q.completed|
        ensures UsedAt(r, k) == UsedAt(q, k)
      {
        CompleteHarmless(q, id, k);
      }
      assert r.completed[..|q.handled|] == q.completed[..|q.handled|];
    case Write(id, _) =>
      forall k: nat | |q.handled| <= k < |q.completed|
        ensures UsedAt(r, k) == UsedAt(q, k) != id
      {
        assert q.place[UsedAt(q, k)] == AtUsed(k);
      }
    case _ =>
      assert forall k: nat :: UsedAt(r, k) == UsedAt(q, k);
  }

  lemma StepInv<E>(q: Queue<E>, s: Step<E>)
    requires Inv(q) && Enabled(q, s)
    ensures Inv(Apply(q, s))
  {
    StepPlaced(q, s);
    StepDelivered(q, s);
  }
}
