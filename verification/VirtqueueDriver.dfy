/**
 The polling loops of the input drivers and of the network receive path, over
 mutable rings, proved to take exactly the driver steps of Virtqueue while the device
 works on between any two accesses.
 */
module VirtqueueDriver {
  import opened Virtqueue
  import opened VirtqueueRuns

  /** What a device that keeps to the protocol does with a schedule of steps: steps
      that are not its own, or not enabled, do not happen. */
  function Perform<E(!new)>(q: Queue<E>, steps: seq<Step<E>>): (r: Queue<E>)
    requires Inv(q)
    ensures Inv(r) && r.phase == q.phase && r.handled == q.handled && r.lastUsed == q.lastUsed
    ensures r.goal == q.goal && r.limit == q.limit
    ensures q.completed <= r.completed
    decreases |steps|
  {
    hide Placed, Delivered, Counted;
    if steps == [] then q
    else if DeviceMay(q, steps[0]) then
      StepInv(q, steps[0]);
      Perform(Apply(q, steps[0]), steps[1..])
    else
      Perform(q, steps[1..])
  }

  predicate DeviceMay<E>(q: Queue<E>, s: Step<E>) { !s.ByDriver() && Enabled(q, s) }

  /** A schedule says what the device does before each access of the driver: `device[n]`
      before the n-th one, and nothing once the schedule is used up. */
  type Schedule<E> = seq<seq<Step<E>>>

  function During<E(!new)>(q: Queue<E>, device: Schedule<E>, n: nat): (r: Queue<E>)
    requires Inv(q)
    ensures Inv(r) && r.phase == q.phase && r.handled == q.handled && r.lastUsed == q.lastUsed
    ensures r.goal == q.goal && r.limit == q.limit && q.completed <= r.completed
    ensures n >= |device| ==> r == q
  {
    if n < |device| then Perform(q, device[n]) else q
  }

  /** One access of an iteration. */
  function Amid<E(!new)>(q: Queue<E>, s: Step<E>, device: Schedule<E>, n: nat): (r: Queue<E>)
    requires Inv(q) && Enabled(q, s) && (s.Handle? || s.Store? || s.Offer? || s.Advance?)
    ensures Inv(r) && r.goal == q.goal && r.limit == q.limit
    ensures q.completed <= r.completed && q.handled <= r.handled
    ensures |r.handled| == |q.handled| + One(s.Handle?)
    ensures match s
            case Handle => r.phase.InHand?
            case Store => r.phase.Stored?
            case Offer => r.phase.Offered?
            case _ => r.phase.Loop?
    ensures n >= |device| ==> r.completed == q.completed && r.usedIdx == q.usedIdx
  {
    hide Placed, Delivered, Counted, During;
    var q0 := During(q, device, n);
    StepInv(q0, s);
    Apply(q0, s)
  }

  /** One iteration of a poll loop. */
  function Recycle<E(!new)>(q: Queue<E>, device: Schedule<E>, n: nat): (r: Queue<E>)
    requires Inv(q) && Enabled(q, Handle)
    ensures Inv(r) && r.phase.Loop? && r.goal == q.goal && r.limit == q.limit
    ensures q.completed <= r.completed && q.handled <= r.handled && |r.handled| == |q.handled| + 1
    ensures n >= |device| ==> r.completed == q.completed && r.usedIdx == q.usedIdx
  {
    hide Inv, Amid;
    var q1 := Amid(q, Handle, device, n);
    var q2 := Amid(q1, Store, device, n + 1);
    var q3 := Amid(q2, Offer, device, n + 2);
    Amid(q3, Advance, device, n + 3)
  }

  /** Reading used.idx. */
  function Look<E(!new)>(q: Queue<E>): (r: Queue<E>)
    requires Inv(q) && (q.phase.Idle? || q.phase.Loop?)
    ensures Inv(r) && r.phase.Loop? && r.goal == |q.completed| && r.limit == q.usedIdx
    ensures r.completed == q.completed && r.handled == q.handled && r.lastUsed == q.lastUsed
  {
    StepInv(q, Snapshot);
    Apply(q, Snapshot)
  }

  /** The rest of a poll that does not read used.idx again. */
  function Drain<E(!new)>(q: Queue<E>, device: Schedule<E>, n: nat): (r: Queue<E>)
    requires Inv(q) && q.phase.Loop?
    ensures Inv(r) && r.phase.Idle?
    ensures |r.handled| == q.goal && q.completed <= r.completed
    decreases q.goal - |q.handled|
  {
    hide Placed, Delivered, Recycle;
    if q.lastUsed == q.limit then
      StepInv(q, Leave);
      LeaveReached(q);
      Apply(q, Leave)
    else
      HandlePlaced(q);
      Drain(Recycle(q, device, n), device, n + 4)
  }

  /** The rest of a poll that reads used.idx before every iteration. */
  function Reread<E(!new)>(q: Queue<E>, device: Schedule<E>, n: nat): (r: Queue<E>)
    requires Inv(q) && (q.phase.Idle? || q.phase.Loop?)
    ensures Inv(r) && r.phase.Idle?
    ensures q.handled <= r.handled == r.completed && q.completed <= r.completed
    decreases if n < |device| then |device| - n else 0, |q.completed| - |q.handled|
  {
    hide Placed, Delivered, During, Recycle;
    var q1 := Look(During(q, device, n));
    if q1.lastUsed == q1.limit then
      LeaveReached(q1);
      StepInv(q1, Leave);
      Apply(q1, Leave)
    else
      HandlePlaced(q1);
      Reread(Recycle(q1, device, n + 1), device, n + 5)
  }

  lemma DrainStep<E(!new)>(q: Queue<E>, device: Schedule<E>, n: nat)
    requires Inv(q) && q.phase.Loop? && q.lastUsed != q.limit
    ensures Drain(q, device, n) == Drain(Recycle(q, device, n), device, n + 4)
    ensures |q.handled| < q.goal
  {
    hide Placed, Delivered, Recycle;
    HandlePlaced(q);
  }

  lemma DrainEnd<E(!new)>(q: Queue<E>, device: Schedule<E>, n: nat)
    requires Inv(q) && Enabled(q, Leave)
    ensures Drain(q, device, n) == Apply(q, Leave)
  {
    hide Inv;
  }

  lemma RereadStep<E(!new)>(q: Queue<E>, device: Schedule<E>, n: nat)
    requires Inv(q) && (q.phase.Idle? || q.phase.Loop?)
    ensures var q1 := Look(During(q, device, n));
            Reread(q, device, n) ==
              if q1.lastUsed == q1.limit then Apply(q1, Leave) else Reread(Recycle(q1, device, n + 1), device, n + 5)
  {
    hide Inv, During, Recycle, Look;
  }

  /** While the device is quiet, reading used.idx again and again is as good as once. */
  lemma {:induction false} QuietReread<E(!new)>(q: Queue<E>, n: nat, m: nat)
    requires Inv(q) && (q.phase.Idle? || q.phase.Loop?)
    ensures Reread(q, [], n) == Drain(Look(q), [], m)
    decreases |q.completed| - |q.handled|
  {
    hide Placed, Delivered, Counted, Recycle;
    var q1 := Look(q);
    if q1.lastUsed != q1.limit {
      HandlePlaced(q1);
      var q2 := Recycle(q1, [], n + 1);
      assert q2 == Recycle(q1, [], m) by {
        QuietRecycle(q1, n + 1, m);
      }
      QuietReread(q2, n + 5, m + 4);
      assert Look(q2) == q2;
    }
  }

  lemma QuietRecycle<E(!new)>(q: Queue<E>, n: nat, m: nat)
    requires Inv(q) && Enabled(q, Handle)
    ensures Recycle(q, [], n) == Recycle(q, [], m)
  {
    hide Inv, Apply;
  }

  class Driver<E(!new)> {
    const avail: array<Id>
    const used: array<Id>
    const bufs: array<E>
    var availIdx: nat
    var usedIdx: nat
    var lastUsed: nat
    ghost var limit: nat
    ghost var phase: Phase
    var devIdx: nat
    var held: set<Id>
    ghost var completed: seq<E>
    ghost var handled: seq<E>
    ghost var taken: nat
    ghost var goal: nat
    ghost var place: seq<Place>

    ghost function Value(): Queue<E>
      reads this, avail, used, bufs
    {
      Queue(avail[..], availIdx, used[..], usedIdx, bufs[..], lastUsed, limit, phase,
            devIdx, held, completed, handled, taken, goal, place)
    }

    ghost predicate Valid()
      reads this, avail, used, bufs
    {
      avail != used && avail as object != bufs && used as object != bufs && Inv(Value())
    }

    constructor (empty: E)
      ensures Valid() && Value() == Initial(empty)
      ensures fresh(avail) && fresh(used) && fresh(bufs)
    {
      var ring := new Id[QUEUE_SIZE](_ => 0);
      for i := 0 to QUEUE_SIZE
        invariant forall j :: 0 <= j < i ==> ring[j] == j
      {
        ring[i] := i;
      }
      avail := ring;
      used := new Id[QUEUE_SIZE](i requires 0 <= i < QUEUE_SIZE => i);
      bufs := new E[QUEUE_SIZE](_ => empty);
      availIdx, usedIdx, lastUsed := QUEUE_SIZE, 0, 0;
      limit, phase, devIdx, held := 0, Idle, 0, {};
      completed, handled, taken, goal := [], [], 0, 0;
      place := Initial(empty).place;
      new;
      InitialInv(empty);
      assert Value() == Initial(empty);
    }

    /** The other party: one step of the device on the shared rings and buffers. */
    method DeviceStep(s: Step<E>)
      requires Valid() && DeviceMay(Value(), s)
      modifies this, used, bufs
      ensures Valid() && Value() == Apply(old(Value()), s)
    {
      hide Placed, Delivered, Counted;
      ghost var q := Value();
      StepInv(q, s);
      match s
      case Take =>
        var id := avail[devIdx % QUEUE_SIZE];
        place := place[id := AtDevice];
        devIdx, held, taken := Inc(devIdx), held + {id}, taken + 1;
      case Write(id, event) =>
        bufs[id] := event;
        assert bufs[..] == q.bufs[id := event];
      case Complete(id) =>
        place, completed := place[id := AtUsed(|completed|)], completed + [bufs[id]];
        used[usedIdx % QUEUE_SIZE] := id;
        assert used[..] == q.used[q.usedIdx % QUEUE_SIZE := id];
        usedIdx, held := Inc(usedIdx), held - {id};
      assert Value() == Apply(q, s);
    }

    method DeviceSteps(steps: seq<Step<E>>)
      requires Valid()
      modifies this, used, bufs
      ensures Valid() && Value() == Perform(old(Value()), steps)
    {
      hide Inv;
      for i := 0 to |steps|
        invariant Valid() && Perform(Value(), steps[i..]) == Perform(old(Value()), steps)
      {
        var s := steps[i];
        assert steps[i..][0] == s && steps[i..][1..] == steps[i + 1..];
        if (s.Take? && devIdx != availIdx) || ((s.Write? || s.Complete?) && s.id in held) {
          DeviceStep(s);
        }
      }
    }

    method DeviceAt(device: Schedule<E>, n: nat)
      requires Valid()
      modifies this, used, bufs
      ensures Valid() && Value() == During(old(Value()), device, n)
    {
      hide Inv, Perform;
      if n < |device| {
        DeviceSteps(device[n]);
      }
    }

    /** Read the entry and its event. */
    method TakeEvent(device: Schedule<E>, n: nat) returns (descIdx: Id, event: E)
      requires Valid() && Enabled(Value(), Handle)
      modifies this, used, bufs
      ensures Valid() && Value() == Amid(old(Value()), Handle, device, n) && phase == InHand(descIdx)
      ensures handled == old(handled) + [event]
    {
      hide Placed, Delivered, Counted, During;
      DeviceAt(device, n);
      ghost var q := Value();
      StepInv(q, Handle);
      descIdx := used[lastUsed % QUEUE_SIZE];
      event := bufs[descIdx];
      handled, phase, place := handled + [event], InHand(descIdx), place[descIdx := AtDriver];
      assert Value() == Apply(q, Handle);
    }

    /** Put the descriptor back on the avail ring. */
    method StoreDescriptor(descIdx: Id, device: Schedule<E>, n: nat)
      requires Valid() && phase == InHand(descIdx)
      modifies this, avail, used, bufs
      ensures Valid() && Value() == Amid(old(Value()), Store, device, n) && phase == Stored(descIdx)
    {
      hide Placed, Delivered, Counted, During;
      DeviceAt(device, n);
      ghost var q := Value();
      StepInv(q, Store);
      avail[availIdx % QUEUE_SIZE] := descIdx;
      phase := Stored(descIdx);
      assert avail[..] == q.avail[availIdx % QUEUE_SIZE := descIdx];
      assert Value() == Apply(q, Store);
    }

    method OfferDescriptor(device: Schedule<E>, n: nat)
      requires Valid() && phase.Stored?
      modifies this, used, bufs
      ensures Valid() && Value() == Amid(old(Value()), Offer, device, n)
    {
      hide Placed, Delivered, Counted, During;
      DeviceAt(device, n);
      ghost var q := Value();
      StepInv(q, Offer);
      availIdx := Inc(availIdx);
      place := place[phase.id := AtAvail(QUEUE_SIZE + |handled| - 1)];
      phase := Offered(phase.id);
      assert Value() == Apply(q, Offer);
    }

    method AdvanceUsed(device: Schedule<E>, n: nat)
      requires Valid() && phase.Offered?
      modifies this, used, bufs
      ensures Valid() && Value() == Amid(old(Value()), Advance, device, n)
    {
      hide Placed, Delivered, Counted, During;
      DeviceAt(device, n);
      ghost var q := Value();
      StepInv(q, Advance);
      lastUsed := Inc(lastUsed);
      phase := Loop;
      assert Value() == Apply(q, Advance);
    }

    /** Body of the loop. */
    method HandleOne(device: Schedule<E>, n: nat) returns (event: E)
      requires Valid() && Enabled(Value(), Handle)
      modifies this, avail, used, bufs
      ensures Valid() && Value() == Recycle(old(Value()), device, n)
      ensures handled == old(handled) + [event]
    {
      hide Inv, Amid;
      var descIdx: Id;
      descIdx, event := TakeEvent(device, n);
      StoreDescriptor(descIdx, device, n + 1);
      OfferDescriptor(device, n + 2);
      AdvanceUsed(device, n + 3);
    }

    /** mouse_poll / keyboard_poll for one device: used.idx is read once. */
    method Poll(device: Schedule<E>) returns (events: seq<E>)
      requires Valid() && phase.Idle?
      modifies this, avail, used, bufs
      ensures Valid() && Value() == Drain(Look(old(Value())), device, 0)
      ensures handled == old(handled) + events == old(completed) <= completed
      ensures |events| == old((usedIdx - lastUsed) % INDEX_WRAP)
    {
      hide Placed, Delivered, Counted, Recycle, Drain;
      Backlog(Value());
      ghost var start := Look(Value());
      var currentUsed := usedIdx;
      limit, phase, goal := currentUsed, Loop, |completed|;
      events := [];
      var n := 0;
      while lastUsed != currentUsed
        invariant Valid() && phase.Loop? && limit == currentUsed
        invariant Drain(Value(), device, n) == Drain(start, device, 0)
        invariant handled == old(handled) + events && old(completed) <= completed && goal == |old(completed)|
        decreases goal - |handled|
      {
        DrainStep(Value(), device, n);
        var event := HandleOne(device, n);
        events := events + [event];
        n := n + 4;
      }
      LeaveReached(Value());
      DrainEnd(Value(), device, n);
      phase := Idle;
    }

    /** The loop test, reading used.idx. */
    method TestUsed(device: Schedule<E>, n: nat) returns (waiting: bool)
      requires Valid() && (phase.Idle? || phase.Loop?)
      modifies this, used, bufs
      ensures Valid() && Value() == Look(During(old(Value()), device, n))
      ensures waiting == (lastUsed != limit)
    {
      hide Placed, Delivered, Counted, During;
      DeviceAt(device, n);
      ghost var q1 := Look(Value());
      limit, phase, goal := usedIdx, Loop, |completed|;
      assert Value() == q1;
      waiting := lastUsed != usedIdx;
    }

    /** virtio_net_poll: used.idx is read again before every iteration. */
    method PollRereading(device: Schedule<E>) returns (events: seq<E>)
      requires Valid() && phase.Idle?
      modifies this, avail, used, bufs
      ensures Valid() && Value() == Reread(old(Value()), device, 0)
      ensures old(completed) <= completed == handled == old(handled) + events
    {
      hide Inv, Recycle, During, Look, Reread;
      events := [];
      var n := 0;
      while true
        invariant Valid() && (phase.Idle? || phase.Loop?)
        invariant Reread(Value(), device, n) == Reread(old(Value()), device, 0)
        invariant handled == old(handled) + events
        decreases if n < |device| then |device| - n else 0, |completed| - |handled|
      {
        RereadStep(Value(), device, n);
        var waiting := TestUsed(device, n);
        if !waiting {
          break;
        }
        HandlePlaced(Value());
        var event := HandleOne(device, n + 1);
        events := events + [event];
        n := n + 5;
      }
      phase := Idle;
    }
  }
}
