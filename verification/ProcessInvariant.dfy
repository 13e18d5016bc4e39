/**
 What every run of the process operations keeps, and why the stored parent links
 never form a cycle.
 */
module ProcessInvariant {
  import opened ProcessTable

  datatype Op =
    | OpReserve
    | OpRelease(slot: nat)
    | OpPublish(slot: nat, sp: nat, pc: nat)
    | OpStart(pid: int)
    | OpSchedule
    | OpYield
    | OpTick
    | OpExit(status: int)
    | OpKill(pid: int)
    | OpSaveContext(slot: nat, sp: nat, pc: nat)

  /** `pid` is still inside its process_create, so nobody has been told about it. */
  predicate Unreturned(k: Kernel, pid: int) {
    exists s :: s in k.pending && s < MAX_PROCESSES && k.procs[s].pid == pid
  }

  /** When a step may happen.  The two ends of one process_create run in the same
      context, and process_start / process_kill only see pids already returned. */
  ghost predicate Enabled(k: Kernel, op: Op)
    requires k.WellFormed()
  {
    match op
    case OpRelease(slot) => slot in k.pending && slot < MAX_PROCESSES && k.pending[slot] == k.RunningPid()
    case OpPublish(slot, _, _) => slot in k.pending && slot < MAX_PROCESSES && k.pending[slot] == k.RunningPid()
    case OpStart(pid) => !Unreturned(k, pid)
    case OpKill(pid) => !Unreturned(k, pid)
    case OpSaveContext(slot, _, _) => slot < MAX_PROCESSES
    case _ => true
  }

  ghost function Apply(k: Kernel, op: Op): (r: Kernel)
    requires k.WellFormed() && Enabled(k, op)
  {
    match op
    case OpReserve => Reserve(k)
    case OpRelease(slot) => Release(k, slot)
    case OpPublish(slot, sp, pc) => Publish(k, slot, sp, pc)
    case OpStart(pid) => Start(k, pid)
    case OpSchedule => Schedule(k)
    case OpYield => Yield(k)
    case OpTick => Tick(k)
    case OpExit(status) => Exit(k, status)
    case OpKill(pid) => Kill(k, pid)
    case OpSaveContext(slot, sp, pc) => SaveContext(k, slot, sp, pc)
  }

  // ------------------------------------------------------------ the invariant

  /** Pids identify slots, are drawn below `nextPid`, and lie above their slot
      number; stored parents lie below the pid that stores them. */
  ghost predicate Identified(t: Table, nextPid: int) {
    && nextPid >= 1
    && (forall i :: 0 <= i < MAX_PROCESSES ==> 0 <= t[i].pid < nextPid)
    && (forall i, j :: 0 <= i < j < MAX_PROCESSES && t[i].pid != 0 ==> t[i].pid != t[j].pid)
    && (forall i :: 0 <= i < MAX_PROCESSES && t[i].Live() ==> t[i].pid > i)
    && (forall i :: 0 <= i < MAX_PROCESSES && t[i].Live() ==> -1 <= t[i].parentPid < t[i].pid && t[i].parentPid < MAX_PROCESSES)
  }

  /** The running process and the table agree. */
  ghost predicate Dispatched(k: Kernel) {
    && k.WellFormed()
    && k.currentProcess == k.currentPid
    && k.ticks < TIME_SLICE_TICKS
    && (k.currentPid >= 0 ==> k.procs[k.currentPid].state in {Ready, Running})
    && (forall i :: 0 <= i < MAX_PROCESSES && k.procs[i].state == Running ==> i == k.currentPid)
  }

  /** Reserved slots are unreachable until published, and were numbered after
      their creator. */
  ghost predicate Reserved(k: Kernel) {
    forall s :: s in k.pending ==>
      && s < MAX_PROCESSES
      && k.procs[s].state == Blocked
      && k.procs[s].parentPid == -1
      && k.pending[s] < k.procs[s].pid
  }

  ghost predicate Inv(k: Kernel) {
    Dispatched(k) && Identified(k.procs, k.nextPid) && Reserved(k)
  }

  lemma BootInv()
    ensures Inv(Boot)
  {
  }

  // ---------------------------------------------------- chains climb in pid

  /** Along a chain every pid is larger than the root. */
  lemma {:induction false} ChainClimbs(t: Table, nextPid: int, root: int, path: seq<nat>)
    requires Identified(t, nextPid) && Chain(t, root, path)
    ensures t[path[|path| - 1]].pid > root
    ensures t[path[|path| - 1]].parentPid >= root
    decreases |path|
  {
    if |path| > 1 {
      var shorter := path[..|path| - 1];
      assert path[|path| - 1] < MAX_PROCESSES && t[path[|path| - 1]].Live();
      ChainClimbs(t, nextPid, root, shorter);
    }
  }

  /** Links are acyclic: no live slot descends from its own pid. */
  lemma LinksAcyclic(t: Table, nextPid: int, i: nat)
    requires Identified(t, nextPid) && i < MAX_PROCESSES && t[i].Live()
    ensures !Descends(t, t[i].pid, i)
  {
    forall path | ChainTo(t, t[i].pid, path, i)
      ensures false
    {
      ChainClimbs(t, nextPid, t[i].pid, path);
    }
  }

  /** Which slots a kill can reach at all: stored parents are slot numbers, so nothing
      whose stored parent lies below the killed pid descends from it, and nothing ever
      descends from a pid of 16 or more. */
  lemma ReachLimited(t: Table, nextPid: int, root: int, i: nat)
    requires Identified(t, nextPid) && Descends(t, root, i)
    ensures i < MAX_PROCESSES && root <= t[i].parentPid < MAX_PROCESSES
  {
    var path :| ChainTo(t, root, path, i);
    ChainClimbs(t, nextPid, root, path);
    assert t[path[|path| - 1]].Live();
  }

  /** The comment above the call in process_exit promises that all children are killed.
      The stored links do not deliver that: a process never reaps a slot that stores
      its own slot number as parent, because its pid is larger than that number. */
  lemma OwnChildrenAreSpared(k: Kernel, parent: nat, child: nat, status: int)
    requires Inv(k) && parent < MAX_PROCESSES && child < MAX_PROCESSES && parent != child
    requires k.procs[parent].Live() && k.procs[child].Live() && k.procs[child].parentPid == parent
    ensures !Descends(k.procs, k.procs[parent].pid, child)
    ensures k.currentPid == parent ==> Exit(k, status).procs[child] == k.procs[child]
    ensures KillTarget(k, k.procs[parent].pid) >= 0 ==>
              Kill(k, k.procs[parent].pid).procs[child] == k.procs[child]
  {
    if Descends(k.procs, k.procs[parent].pid, child) {
      ReachLimited(k.procs, k.nextPid, k.procs[parent].pid, child);
    }
    if KillTarget(k, k.procs[parent].pid) >= 0 {
      assert KillTarget(k, k.procs[parent].pid) == parent;
    }
  }

  /** The same as a run: a process that publishes a child and then exits leaves the
      child READY. */
  lemma ChildOutlivesCreator(k: Kernel, slot: nat, sp: nat, pc: nat, status: int)
    requires Inv(k) && Enabled(k, OpPublish(slot, sp, pc)) && k.currentPid >= 0
    ensures var k' := Exit(Publish(k, slot, sp, pc), status);
            k'.procs[slot].state == Ready && k'.procs[slot].pid == k.procs[slot].pid
  {
    var k1 := Publish(k, slot, sp, pc);
    PublishKeeps(k, slot, sp, pc);
    if Descends(k1.procs, k1.procs[k1.currentPid].pid, slot) {
      ReachLimited(k1.procs, k1.nextPid, k1.procs[k1.currentPid].pid, slot);
    }
  }

  /** A killed pid is gone, as is everything that descended from it except possibly the
      running process. */
  lemma KillRemoves(k: Kernel, pid: int, i: nat)
    requires Inv(k) && KillTarget(k, pid) >= 0 && i < MAX_PROCESSES
    ensures FindPid(Kill(k, pid).procs, pid) == -1
    ensures Descends(k.procs, pid, i) && i != k.currentPid ==> !Kill(k, pid).procs[i].Live()
    ensures !Descends(k.procs, pid, i) && k.procs[i].pid != pid ==> Kill(k, pid).procs[i] == k.procs[i]
  {
    hide Descends, Reserved, Dispatched;
    var slot, t := KillTarget(k, pid), Kill(k, pid).procs;
    assert k.procs[slot].pid == pid && t[slot] == KillDescendants(k.procs, k.currentPid, pid)[slot].Killed();
    forall j: nat | j < MAX_PROCESSES
      ensures t[j].Live() ==> t[j].pid != pid
    {
      if j != slot {
        assert t[j] == k.procs[j] || !t[j].Live();
        assert k.procs[j].pid != pid;
      }
    }
  }

  /** An exited process is gone and the kernel runs. */
  lemma ExitRemoves(k: Kernel, status: int)
    requires Inv(k) && k.currentPid >= 0
    ensures var k' := Exit(k, status);
            && k'.currentPid == k'.currentProcess == -1
            && FindPid(k'.procs, k.procs[k.currentPid].pid) == -1
            && k'.procs[k.currentPid].exitStatus == status
  {
  }

  /** A slot without a parent is nobody's descendant. */
  lemma OrphanSafe(t: Table, nextPid: int, root: int, i: nat)
    requires Identified(t, nextPid) && root >= 0
    requires i < MAX_PROCESSES && t[i].parentPid == -1
    ensures !Descends(t, root, i)
  {
    forall path | ChainTo(t, root, path, i)
      ensures false
    {
      ChainClimbs(t, nextPid, root, path);
    }
  }

  /** Chains that survive a kill were chains before it. */
  lemma {:induction false} SurvivingChain(t: Table, cur: int, root: int, path: seq<nat>)
    requires Chain(KillDescendants(t, cur, root), root, path)
    ensures Chain(t, root, path) && forall k :: 0 <= k < |path| ==> path[k] == cur
    decreases |path|
  {
    var r := KillDescendants(t, cur, root);
    forall k | 0 <= k < |path|
      ensures r[path[k]] == t[path[k]]
    {
    }
    assert Chain(t, root, path);
    if |path| > 1 {
      SurvivingChain(t, cur, root, path[..|path| - 1]);
    }
    assert ChainTo(t, root, path, path[|path| - 1]);
  }

  /** After a kill nothing live descends from the root any more, except possibly
      the running slot itself. */
  lemma SubtreeGone(t: Table, cur: int, root: int, i: nat)
    requires Descends(KillDescendants(t, cur, root), root, i)
    ensures i == cur
  {
    var path :| ChainTo(KillDescendants(t, cur, root), root, path, i);
    SurvivingChain(t, cur, root, path);
  }

  // ------------------------------------------------------------- preservation

  lemma KillDescendantsKeeps(k: Kernel, root: int)
    requires Inv(k) && root >= 0
    ensures Inv(k.(procs := KillDescendants(k.procs, k.currentPid, root)))
  {
    forall s | s in k.pending
      ensures !Descends(k.procs, root, s)
    {
      OrphanSafe(k.procs, k.nextPid, root, s);
    }
  }

  lemma FreeKeeps(k: Kernel, slot: nat)
    requires Inv(k) && slot < MAX_PROCESSES && slot != k.currentPid && slot !in k.pending
    ensures Inv(k.(procs := k.procs[slot := k.procs[slot].Killed()]))
  {
  }

  lemma KillKeeps(k: Kernel, pid: int)
    requires Inv(k) && !Unreturned(k, pid)
    ensures Inv(Kill(k, pid))
  {
    hide KillDescendants, Inv;
    var slot := KillTarget(k, pid);
    if slot >= 0 {
      KillDescendantsKeeps(k, pid);
      FreeKeeps(k.(procs := KillDescendants(k.procs, k.currentPid, pid)), slot);
    }
  }

  /** The condition is exact: killing a pid whose process_create has not returned frees a
      slot that is still being built. */
  lemma KillKeepsIff(k: Kernel, pid: int)
    requires Inv(k)
    ensures Inv(Kill(k, pid)) <==> !Unreturned(k, pid)
  {
    if Unreturned(k, pid) {
      var s :| s in k.pending && s < MAX_PROCESSES && k.procs[s].pid == pid;
      UnreturnedKill(k, pid, s);
    } else {
      KillKeeps(k, pid);
    }
  }

  lemma UnreturnedKill(k: Kernel, pid: int, s: nat)
    requires Inv(k) && s in k.pending && s < MAX_PROCESSES && k.procs[s].pid == pid
    ensures !Reserved(Kill(k, pid))
  {
    hide Descends, Dispatched;
    assert k.procs[s].state == Blocked && k.procs[s].pid > s;
    assert FindPid(k.procs, pid) == s by {
      var f := FindPid(k.procs, pid);
      assert f >= 0 && k.procs[f].pid == pid;
    }
    assert s != k.currentPid by { NotRunning(k, s); }
    assert Kill(k, pid).procs[s].state == Free;
  }

  lemma NotRunning(k: Kernel, s: nat)
    requires Dispatched(k) && s < MAX_PROCESSES && k.procs[s].state == Blocked
    ensures s != k.currentPid
  {
  }

  lemma ExitKeeps(k: Kernel, status: int)
    requires Inv(k)
    ensures Inv(Exit(k, status))
  {
    if k.currentPid >= 0 {
      KillDescendantsKeeps(k, k.procs[k.currentPid].pid);
    }
  }

  /** Lowest-free-slot allocation hands out pids above the slot number: the slot
      below the new one is live, so its pid is at least the new slot number. */
  lemma ReserveKeeps(k: Kernel)
    requires Inv(k)
    ensures Inv(Reserve(k))
  {
    hide Identified, LowestFree;
    var slot := LowestFree(k.procs);
    if slot >= 0 {
      FreshIdentified(k.procs, k.nextPid, slot);
      RunningKnown(k);
    }
  }

  lemma FreshIdentified(t: Table, nextPid: int, slot: nat)
    requires Identified(t, nextPid) && slot < MAX_PROCESSES && forall i :: 0 <= i < slot ==> t[i].Live()
    ensures Identified(t[slot := Process(nextPid, Blocked, -1, false, 0, 0, 0)], nextPid + 1)
  {
    if slot > 0 {
      assert t[slot - 1].Live();
    }
  }

  lemma RunningKnown(k: Kernel)
    requires Inv(k)
    ensures k.RunningPid() < k.nextPid
  {
  }

  lemma PublishKeeps(k: Kernel, slot: nat, sp: nat, pc: nat)
    requires Inv(k) && Enabled(k, OpPublish(slot, sp, pc))
    ensures Inv(Publish(k, slot, sp, pc))
  {
    if k.currentPid >= 0 {
      assert k.procs[k.currentPid].pid > k.currentPid;
    }
  }

  lemma ReleaseKeeps(k: Kernel, slot: nat)
    requires Inv(k) && Enabled(k, OpRelease(slot))
    ensures Inv(Release(k, slot))
  {
  }

  lemma StartKeeps(k: Kernel, pid: int)
    requires Inv(k) && !Unreturned(k, pid)
    ensures Inv(Start(k, pid))
  {
  }

  lemma SwitchKeeps(k: Kernel, next: nat)
    requires Inv(k) && next < MAX_PROCESSES && k.procs[next].state == Ready
    ensures Inv(SwitchTo(k, next))
  {
  }

  lemma ScheduleKeeps(k: Kernel)
    requires Inv(k)
    ensures Inv(Schedule(k))
  {
    var next := NextReady(k.procs, k.currentPid, false);
    if next >= 0 && next != k.currentPid {
      SwitchKeeps(k, next);
    }
  }

  lemma YieldKeeps(k: Kernel)
    requires Inv(k)
    ensures Inv(Yield(k))
  {
    ScheduleKeeps(if k.currentPid >= 0 then k.(procs := SetState(k.procs, k.currentPid, Ready)) else k);
  }

  lemma TickKeeps(k: Kernel)
    requires Inv(k)
    ensures Inv(Tick(k))
  {
    var next := NextReady(k.procs, k.currentPid, true);
    if next >= 0 && next != k.currentPid {
      SwitchKeeps(k.(ticks := 0), next);
    }
  }

  lemma StepKeeps(k: Kernel, op: Op)
    requires Inv(k) && Enabled(k, op)
    ensures Inv(Apply(k, op))
  {
    match op
    case OpReserve => ReserveKeeps(k);
    case OpPublish(slot, sp, pc) => PublishKeeps(k, slot, sp, pc);
    case OpExit(status) => ExitKeeps(k, status);
    case OpKill(pid) => KillKeeps(k, pid);
    case OpRelease(slot) => ReleaseKeeps(k, slot);
    case OpStart(pid) => StartKeeps(k, pid);
    case OpSchedule => ScheduleKeeps(k);
    case OpYield => YieldKeeps(k);
    case OpTick => TickKeeps(k);
    case OpSaveContext(_, _, _) =>
  }

  // -------------------------------------------------------------------- runs

  /** `states` is a run of `ops`: each step is enabled and leads to the next state. */
  ghost predicate Run(states: seq<Kernel>, ops: seq<Op>) {
    && |states| == |ops| + 1
    && forall n :: 0 <= n < |ops| ==>
         && states[n].WellFormed()
         && Enabled(states[n], ops[n])
         && states[n + 1] == Apply(states[n], ops[n])
  }

  /** Safety over whole runs from boot. */
  lemma {:induction false} RunKeepsInv(states: seq<Kernel>, ops: seq<Op>, n: nat)
    requires Run(states, ops) && states[0] == Boot && n < |states|
    ensures Inv(states[n])
  {
    if n == 0 {
      BootInv();
    } else {
      RunKeepsInv(states, ops, n - 1);
      StepKeeps(states[n - 1], ops[n - 1]);
    }
  }

  /** The broken promise of process_exit as a run from boot: the kernel creates pid 1 and
      schedules it, pid 1 creates pid 2 and exits, and pid 2 is still READY. */
  lemma OrphanRun(sp: nat, pc: nat, status: int) returns (states: seq<Kernel>)
    ensures var ops := [OpReserve, OpPublish(0, sp, pc), OpSchedule, OpReserve, OpPublish(1, sp, pc), OpExit(status)];
            && Run(states, ops) && states[0] == Boot
            && states[5].currentPid == 0 && states[5].procs[0].pid == 1
            && states[6].currentPid == -1 && !states[6].procs[0].Live()
            && states[6].procs[1].pid == 2 && states[6].procs[1].state == Ready
  {
    hide Descends, Inv;
    var k1 := Reserve(Boot);
    assert LowestFree(Boot.procs) == 0 by {
      assert !Boot.procs[0].Live();
    }
    var k2 := Publish(k1, 0, sp, pc);
    assert NextReady(k2.procs, -1, false) == 0;
    var k3 := Schedule(k2);
    assert k3.currentPid == 0 && k3.procs[0].pid == 1 && k3.procs[0].state == Running;
    assert LowestFree(k3.procs) == 1 by {
      assert k3.procs[0].Live() && !k3.procs[1].Live();
    }
    var k4 := Reserve(k3);
    var k5 := Publish(k4, 1, sp, pc);
    BootInv();
    ReserveKeeps(Boot);
    PublishKeeps(k1, 0, sp, pc);
    ScheduleKeeps(k2);
    ReserveKeeps(k3);
    ChildOutlivesCreator(k4, 1, sp, pc, status);
    states := [Boot, k1, k2, k3, k4, k5, Exit(k5, status)];
  }
}
