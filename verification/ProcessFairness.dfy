/**
 Round-robin fairness: how long a runnable process can be passed over.
 */
module ProcessFairness {
  import opened ProcessTable
  import opened ProcessInvariant

  /** A process, not the kernel, has the CPU, and slot `t` could be given it. */
  predicate Waiting(k: Kernel, t: nat) {
    && 0 <= k.currentPid < MAX_PROCESSES
    && t < MAX_PROCESSES && t != k.currentPid
    && Eligible(k.procs[t], true)
  }

  predicate Switched(k: Kernel, k': Kernel) { k.currentPid != k'.currentPid }

  lemma {:induction false} CountAtLeast(t: Table, i: nat, j: nat, n: nat)
    requires i < n <= MAX_PROCESSES && t[i].state in {Ready, Running}
    ensures CountReady(t, n) >= 1
    ensures j < n && j != i && t[j].state in {Ready, Running} ==> CountReady(t, n) >= 2
  {
    if n - 1 == i {
      if j < n - 1 && t[j].state in {Ready, Running} {
        CountAtLeast(t, j, j, n - 1);
      }
    } else {
      CountAtLeast(t, i, j, n - 1);
    }
  }

  /** Going to a slot strictly nearer than `t` brings the scan closer to `t`. */
  lemma NearerSwitch(cur: int, next: nat, t: nat)
    requires 0 <= cur < MAX_PROCESSES && next < MAX_PROCESSES && t < MAX_PROCESSES
    requires Distance(cur, next) <= Distance(cur, t) && next != t
    ensures Distance(next, t) < Distance(cur, t)
  {
  }

  /** The scan stops no later than at an eligible slot. */
  lemma PickNoLater(k: Kernel, needContext: bool, t: nat)
    requires k.WellFormed() && Waiting(k, t)
    ensures var next := NextReady(k.procs, k.currentPid, needContext);
            && next >= 0 && Distance(k.currentPid, next) <= Distance(k.currentPid, t)
            && next != k.currentPid
  {
    NextReadyNearest(k.procs, k.currentPid, needContext, 0, t);
    assert Distance(k.currentPid, t) < MAX_PROCESSES - 1;
  }

  lemma SwitchRank(k: Kernel, k': Kernel, needContext: bool, t: nat)
    requires k.WellFormed() && Waiting(k, t) && Waiting(k', t)
    requires k'.currentPid == NextReady(k.procs, k.currentPid, needContext)
    ensures Switched(k, k') && Distance(k'.currentPid, t) < Distance(k.currentPid, t)
  {
    PickNoLater(k, needContext, t);
    NearerSwitch(k.currentPid, k'.currentPid, t);
  }

  lemma YieldRank(k: Kernel, t: nat)
    requires Inv(k) && Waiting(k, t) && Waiting(Yield(k), t)
    ensures Switched(k, Yield(k)) && Distance(Yield(k).currentPid, t) < Distance(k.currentPid, t)
    ensures Yield(k).ticks == k.ticks
  {
    var k0 := k.(procs := SetState(k.procs, k.currentPid, Ready));
    PickNoLater(k0, false, t);
    SwitchRank(k0, Yield(k), false, t);
  }

  lemma ScheduleRank(k: Kernel, t: nat)
    requires Inv(k) && Waiting(k, t) && Waiting(Schedule(k), t)
    ensures Switched(k, Schedule(k)) && Distance(Schedule(k).currentPid, t) < Distance(k.currentPid, t)
    ensures Schedule(k).ticks == k.ticks
  {
    PickNoLater(k, false, t);
    SwitchRank(k, Schedule(k), false, t);
  }

  /** Every twentieth tick takes the CPU away; the others only count. */
  lemma TickRank(k: Kernel, t: nat)
    requires Inv(k) && Waiting(k, t) && Waiting(Tick(k), t)
    ensures k.ticks + 1 < TIME_SLICE_TICKS ==> Tick(k) == k.(ticks := k.ticks + 1)
    ensures k.ticks + 1 == TIME_SLICE_TICKS ==>
              && Tick(k).ticks == 0 && Switched(k, Tick(k))
              && Distance(Tick(k).currentPid, t) < Distance(k.currentPid, t)
  {
    if k.ticks + 1 == TIME_SLICE_TICKS {
      CountAtLeast(k.procs, k.currentPid, t, MAX_PROCESSES);
      PickNoLater(k, true, t);
      SwitchRank(k, Tick(k), true, t);
    }
  }

  /** One step of any kind, while `t` keeps waiting. */
  lemma StepRank(k: Kernel, op: Op, t: nat)
    requires Inv(k) && Enabled(k, op) && Waiting(k, t) && Waiting(Apply(k, op), t)
    ensures var k' := Apply(k, op);
            && Distance(k'.currentPid, t) + (if Switched(k, k') then 1 else 0) <= Distance(k.currentPid, t)
            && (op.OpYield? ==> Switched(k, k'))
            && (if op.OpTick? then 1 else 0) + k.ticks
               <= (if Switched(k, k') then TIME_SLICE_TICKS else 0) + k'.ticks
  {
    match op
    case OpSchedule => ScheduleRank(k, t);
    case OpYield => YieldRank(k, t);
    case OpTick => TickRank(k, t);
    case _ =>
  }

  // --------------------------------------------------------------------- runs

  function Switches(states: seq<Kernel>, n: nat): nat
    requires n < |states|
  {
    if n == 0 then 0
    else Switches(states, n - 1) + if Switched(states[n - 1], states[n]) then 1 else 0
  }

  function Ticks(ops: seq<Op>, n: nat): nat
    requires n <= |ops|
  {
    if n == 0 then 0 else Ticks(ops, n - 1) + if ops[n - 1].OpTick? then 1 else 0
  }

  function Yields(ops: seq<Op>, n: nat): nat
    requires n <= |ops|
  {
    if n == 0 then 0 else Yields(ops, n - 1) + if ops[n - 1].OpYield? then 1 else 0
  }

  lemma {:induction false} WaitingRank(states: seq<Kernel>, ops: seq<Op>, t: nat, n: nat)
    requires Run(states, ops) && Inv(states[0]) && n < |states|
    requires forall m :: 0 <= m <= n ==> Waiting(states[m], t)
    ensures Waiting(states[0], t) && Waiting(states[n], t)
    ensures Inv(states[n])
    ensures Distance(states[n].currentPid, t) + Switches(states, n) <= Distance(states[0].currentPid, t)
    ensures Ticks(ops, n) + states[0].ticks <= TIME_SLICE_TICKS * Switches(states, n) + states[n].ticks
    ensures Yields(ops, n) <= Switches(states, n)
  {
    if n > 0 {
      WaitingRank(states, ops, t, n - 1);
      StepKeeps(states[n - 1], ops[n - 1]);
      StepRank(states[n - 1], ops[n - 1], t);
    }
  }

  /** Bounded bypass.  However processes are created, started, killed, saved and
      switched, a slot that stays runnable is passed over by at most 14 switches,
      so it is dispatched by the 15th; and it waits through fewer than 300 timer
      ticks and at most 14 yields. */
  lemma BoundedBypass(states: seq<Kernel>, ops: seq<Op>, t: nat)
    requires Run(states, ops) && Inv(states[0])
    requires forall m :: 0 <= m < |states| ==> Waiting(states[m], t)
    ensures Switches(states, |ops|) <= 14
    ensures Yields(ops, |ops|) <= 14
    ensures Ticks(ops, |ops|) <= 299
  {
    WaitingRank(states, ops, t, |ops|);
    assert Waiting(states[0], t);
    assert Distance(states[0].currentPid, t) != MAX_PROCESSES - 1;
  }

  /** The same, as a promise: 15 switches or 300 ticks without returning to the
      kernel are enough for a runnable slot to get the CPU. */
  lemma EventuallyDispatched(states: seq<Kernel>, ops: seq<Op>, t: nat) returns (n: nat)
    requires Run(states, ops) && Inv(states[0]) && t < MAX_PROCESSES
    requires forall m :: 0 <= m < |states| ==>
               0 <= states[m].currentPid < MAX_PROCESSES
               && (states[m].currentPid != t ==> Eligible(states[m].procs[t], true))
    requires Switches(states, |ops|) >= 15 || Ticks(ops, |ops|) >= 300
    ensures n < |states| && states[n].currentPid == t
  {
    if m :| 0 <= m < |states| && states[m].currentPid == t {
      n := m;
    } else {
      BoundedBypass(states, ops, t);
      assert false;
    }
  }
}
