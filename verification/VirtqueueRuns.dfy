/**
 Whole runs of the virtqueue: conservation of descriptors, and exactly-once,
 in-order delivery by every poll.
 */
module VirtqueueRuns {
  import opened Virtqueue

  /** `states` is a run of `steps`, driver and device steps in any order. */
  ghost predicate Run<E(!new)>(states: seq<Queue<E>>, steps: seq<Step<E>>) {
    && |states| == |steps| + 1
    && forall n :: 0 <= n < |steps| ==>
         && Shaped(states[n]) && Enabled(states[n], steps[n])
         && states[n + 1] == Apply(states[n], steps[n])
  }

  lemma {:induction false} RunInv<E(!new)>(states: seq<Queue<E>>, steps: seq<Step<E>>, n: nat)
    requires Run(states, steps) && Inv(states[0]) && n < |states|
    ensures Inv(states[n])
  {
    if n > 0 {
      RunInv(states, steps, n - 1);
      StepInv(states[n - 1], steps[n - 1]);
    }
  }

  // ------------------------------------------------------------- conservation

  /** Offered and not yet taken by the device. */
  ghost predicate OnAvail<E>(q: Queue<E>, id: Id)
    requires Shaped(q)
  {
    exists k: nat :: q.taken <= k < AvailCount(q) && AvailAt(q, k) == id
  }

  /** Returned and not yet handled by the driver. */
  ghost predicate OnUsed<E>(q: Queue<E>, id: Id)
    requires Shaped(q)
  {
    exists k: nat :: |q.handled| <= k < |q.completed| && UsedAt(q, k) == id
  }

  predicate OnHand<E>(q: Queue<E>, id: Id) {
    q.phase == InHand(id) || q.phase == Stored(id)
  }

  function One(b: bool): int { if b then 1 else 0 }

  /** Every descriptor is in exactly one of the four places; between iterations of
      the poll loop the last of them is empty. */
  lemma ExactlyOnePlace<E(!new)>(states: seq<Queue<E>>, steps: seq<Step<E>>, n: nat, empty: E, id: Id)
    requires Run(states, steps) && states[0] == Initial(empty) && n < |states|
    ensures var q := states[n];
            && Shaped(q)
            && One(OnAvail(q, id)) + One(id in q.held) + One(OnUsed(q, id)) + One(OnHand(q, id)) == 1
            && (q.phase.Idle? || q.phase.Loop? ==> !OnHand(q, id))
  {
    InitialInv(empty);
    RunInv(states, steps, n);
    var q := states[n];
    match q.place[id]
    case AtAvail(k) => assert AvailAt(q, k) == id;
    case AtUsed(k) => assert UsedAt(q, k) == id;
    case _ =>
  }

  /** No entry occurs twice inside a window. */
  lemma WindowsDistinct<E(!new)>(q: Queue<E>, j: nat, k: nat)
    requires Inv(q) && j < k
    ensures q.taken <= j && k < AvailCount(q) ==> AvailAt(q, j) != AvailAt(q, k)
    ensures |q.handled| <= j && k < |q.completed| ==> UsedAt(q, j) != UsedAt(q, k)
  {
    if q.taken <= j && k < AvailCount(q) {
      assert q.place[AvailAt(q, j)] == AtAvail(j) && q.place[AvailAt(q, k)] == AtAvail(k);
    }
    if |q.handled| <= j && k < |q.completed| {
      assert q.place[UsedAt(q, j)] == AtUsed(j) && q.place[UsedAt(q, k)] == AtUsed(k);
    }
  }

  /** The same count in the 16-bit indices the two parties really hold: the three
      windows add up to the queue size at every poll boundary, across wrap-around. */
  lemma WindowsAddUp<E(!new)>(q: Queue<E>)
    requires Inv(q) && (q.phase.Idle? || q.phase.Loop?)
    ensures (q.availIdx - q.devIdx) % INDEX_WRAP + |q.held| + (q.usedIdx - q.lastUsed) % INDEX_WRAP == QUEUE_SIZE
  {
    IndexDiffers(q.taken, AvailCount(q));
    IndexDiffers(DoneCount(q), |q.completed|);
  }

  // ---------------------------------------------------------------- delivery

  /** Driver work left before the current poll is over. */
  function Rank<E>(q: Queue<E>): int {
    4 * (q.goal - DoneCount(q)) -
    match q.phase
    case InHand(_) => 1
    case Stored(_) => 2
    case Offered(_) => 3
    case _ => 0
  }

  lemma StepRank<E(!new)>(q: Queue<E>, s: Step<E>)
    requires Inv(q) && Enabled(q, s) && !s.Snapshot? && !s.Leave? && !q.phase.Idle?
    ensures var r := Apply(q, s);
            && !r.phase.Idle? && r.goal == q.goal && r.limit == q.limit
            && Rank(r) == Rank(q) - One(s.ByDriver())
            && q.completed <= r.completed
  {
  }

  function DriverSteps<E>(steps: seq<Step<E>>, n: nat): nat
    requires n <= |steps|
  {
    if n == 0 then 0 else DriverSteps(steps, n - 1) + One(steps[n - 1].ByDriver())
  }

  lemma {:induction false} PollRank<E(!new)>(states: seq<Queue<E>>, steps: seq<Step<E>>, n: nat)
    requires Run(states, steps) && Inv(states[0]) && !states[0].phase.Idle? && n < |states|
    requires forall m :: 0 <= m < n ==> !steps[m].Snapshot? && !steps[m].Leave?
    ensures Inv(states[n]) && !states[n].phase.Idle?
    ensures states[n].goal == states[0].goal && states[n].limit == states[0].limit
    ensures Rank(states[n]) + DriverSteps(steps, n) == Rank(states[0])
    ensures states[0].completed <= states[n].completed
  {
    if n > 0 {
      PollRank(states, steps, n - 1);
      StepInv(states[n - 1], steps[n - 1]);
      StepRank(states[n - 1], steps[n - 1]);
    }
  }

  /** The loop test can only fail once the goal is reached. */
  lemma LeaveReached<E(!new)>(r: Queue<E>)
    requires Inv(r) && Enabled(r, Leave)
    ensures |r.handled| == r.goal <= |r.completed| && r.handled == r.completed[..r.goal]
  {
    hide Placed;
    IndexDiffers(DoneCount(r), r.goal);
  }

  /** What a poll finds waiting, from the 16-bit indices alone. */
  lemma Backlog<E(!new)>(q: Queue<E>)
    requires Inv(q) && (q.phase.Idle? || q.phase.Loop?)
    ensures (q.usedIdx - q.lastUsed) % INDEX_WRAP == |q.completed| - |q.handled| <= QUEUE_SIZE
  {
    hide Placed;
    IndexDiffers(DoneCount(q), |q.completed|);
  }

  /** One poll, with the device running freely.  It starts by reading used.idx
      (`states[0]`), or reads it again at the head of its loop; as long as it has not left its loop it has taken at most 64
      driver steps, so it terminates; and when its loop test fails it has handled
      exactly the entries between last_used_idx and used.idx as they were at the
      start, at most 16, and these are the oldest unhandled completions in order. */
  lemma PollExact<E(!new)>(q: Queue<E>, states: seq<Queue<E>>, steps: seq<Step<E>>)
    requires Inv(q) && (q.phase.Idle? || q.phase.Loop?)
    requires Run(states, steps) && states[0] == Apply(q, Snapshot)
    requires forall m :: 0 <= m < |steps| ==> !steps[m].Snapshot? && !steps[m].Leave?
    ensures (q.usedIdx - q.lastUsed) % INDEX_WRAP <= QUEUE_SIZE
    ensures DriverSteps(steps, |steps|) <= 4 * ((q.usedIdx - q.lastUsed) % INDEX_WRAP)
    ensures var r := states[|steps|];
            Enabled(r, Leave) ==>
              && |r.handled| == |q.handled| + (q.usedIdx - q.lastUsed) % INDEX_WRAP
              && r.handled == q.completed
  {
    hide Placed, Delivered;
    StepInv(q, Snapshot);
    PollRank(states, steps, |steps|);
    var r := states[|steps|];
    Backlog(q);
    if Enabled(r, Leave) {
      LeaveReached(r);
    }
  }

  /** While the limit has not been reached the driver always has a step to take. */
  lemma PollProgress<E(!new)>(q: Queue<E>)
    requires Inv(q) && !q.phase.Idle?
    ensures exists s: Step<E> :: s.ByDriver() && Enabled(q, s)
  {
    var s: Step<E> := match q.phase
      case InHand(_) => Store
      case Stored(_) => Offer
      case Offered(_) => Advance
      case _ => if q.lastUsed == q.limit then Leave else Handle;
    assert s.ByDriver() && Enabled(q, s);
  }

  /** Exactly-once, in-order delivery over every run. */
  lemma DeliveredInOrder<E(!new)>(states: seq<Queue<E>>, steps: seq<Step<E>>, n: nat, empty: E)
    requires Run(states, steps) && states[0] == Initial(empty) && n < |states|
    ensures states[n].handled <= states[n].completed
    ensures |states[n].completed| - |states[n].handled| <= QUEUE_SIZE
  {
    InitialInv(empty);
    RunInv(states, steps, n);
  }
}
