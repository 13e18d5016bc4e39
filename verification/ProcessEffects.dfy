/**
 What each process operation achieves, said of the table slot by slot.
 */
module ProcessEffects {
  import opened ProcessTable
  import opened ProcessInvariant
  import opened ProcessFairness

  /** Everything but the state of slot `i` is as it was. */
  predicate SameButState(k: Kernel, k': Kernel, i: nat)
    requires i < MAX_PROCESSES
  {
    k'.procs[i] == k.procs[i].(state := k'.procs[i].state)
  }

  // ---------------------------------------------------------------- life and death

  /** process_exit frees exactly its own slot and every slot that descends from its pid
      through stored links; freed descendants lose pid and stack. */
  lemma ExitSubtree(k: Kernel, status: int, i: nat)
    requires Inv(k) && k.currentPid >= 0 && i < MAX_PROCESSES && i != k.currentPid
    ensures var p, p' := k.procs[i], Exit(k, status).procs[i];
            if Descends(k.procs, k.procs[k.currentPid].pid, i)
            then p.Live() && p'.state == Free && p'.pid == 0 && !p'.hasStack
            else p' == p
    ensures !Exit(k, status).procs[k.currentPid].Live()
  {
    if Descends(k.procs, k.procs[k.currentPid].pid, i) {
      var path :| ChainTo(k.procs, k.procs[k.currentPid].pid, path, i);
      assert k.procs[path[|path| - 1]].Live();
    }
  }

  /** The same for process_kill. */
  lemma KillSubtree(k: Kernel, pid: int, i: nat)
    requires Inv(k) && KillTarget(k, pid) >= 0 && i < MAX_PROCESSES
    ensures var p, p' := k.procs[i], Kill(k, pid).procs[i];
            if i != k.currentPid && (Descends(k.procs, pid, i) || (p.Live() && p.pid == pid))
            then p'.state == Free && p'.pid == 0 && !p'.hasStack
            else p' == p
    ensures Kill(k, pid).(procs := k.procs) == k
  {
    hide Descends, Reserved;
    assert k.procs[KillTarget(k, pid)].pid == pid != 0;
  }

  /** Whose children die: those of the creator whose slot number is the pid of the process
      that exits.  That creator is somebody else, for its own pid is larger. */
  lemma StrangersChildDies(k: Kernel, status: int, child: nat)
    requires Inv(k) && k.currentPid >= 0 && child < MAX_PROCESSES && child != k.currentPid
    requires k.procs[child].Live() && k.procs[child].parentPid == k.procs[k.currentPid].pid
    ensures !Exit(k, status).procs[child].Live()
    ensures k.procs[child].parentPid != k.currentPid
  {
    assert ChainTo(k.procs, k.procs[k.currentPid].pid, [child], child);
  }

  /** Pids 1 and 2 of the kernel in these states, whatever is in slot 2, and nobody else. */
  function Three(a: State, b: State, c: Process, cur: int, next: int, pending: map<nat, int>, sp: nat, pc: nat): Kernel {
    Kernel(seq(MAX_PROCESSES, i => if i == 0 then Process(1, a, -1, true, 0, sp, pc)
                                   else if i == 1 then Process(2, b, -1, true, 0, sp, pc)
                                   else if i == 2 then c else EmptySlot),
           cur, cur, next, 0, pending)
  }

  lemma FirstFree(t: Table, n: nat)
    requires n < MAX_PROCESSES && !t[n].Live() && forall i :: 0 <= i < n ==> t[i].Live()
    ensures LowestFree(t) == n
  {
  }

  lemma BootTwo(sp: nat, pc: nat)
    ensures var k2 := Publish(Reserve(Boot), 0, sp, pc);
            && Reserve(Boot).pending == map[0 := 0] && Reserve(Boot).currentPid == -1
            && k2.currentPid == -1 && Reserve(k2).pending == map[1 := 0] && Reserve(k2).currentPid == -1
            && Publish(Reserve(k2), 1, sp, pc) == Three(Ready, Ready, EmptySlot, -1, 3, map[], sp, pc)
  {
    FirstFree(Boot.procs, 0);
    var k2 := Publish(Reserve(Boot), 0, sp, pc);
    FirstFree(k2.procs, 1);
    var k4 := Publish(Reserve(k2), 1, sp, pc);
    assert k4.procs == Three(Ready, Ready, EmptySlot, -1, 3, map[], sp, pc).procs;
    assert k4.pending == map[];
  }

  /** The two processes take turns until pid 2 runs. */
  lemma TurnTwo(sp: nat, pc: nat)
    ensures var k5 := Schedule(Three(Ready, Ready, EmptySlot, -1, 3, map[], sp, pc));
            && k5 == Three(Running, Ready, EmptySlot, 0, 3, map[], sp, pc)
            && Yield(k5) == Three(Ready, Running, EmptySlot, 1, 3, map[], sp, pc)
  {
    var k4 := Three(Ready, Ready, EmptySlot, -1, 3, map[], sp, pc);
    assert NextReady(k4.procs, -1, false) == 0;
    var k5 := Three(Running, Ready, EmptySlot, 0, 3, map[], sp, pc);
    assert Schedule(k4).procs == k5.procs;
    assert NextReady(SetState(k5.procs, 0, Ready), 0, false) == 1;
    assert Yield(k5).procs == Three(Ready, Running, EmptySlot, 1, 3, map[], sp, pc).procs;
  }

  function Child(state: State, sp: nat, pc: nat): Process { Process(3, state, 1, true, 0, sp, pc) }

  lemma CreateThird(sp: nat, pc: nat)
    ensures var k7 := Reserve(Three(Ready, Running, EmptySlot, 1, 3, map[], sp, pc));
            && k7.pending == map[2 := 2] && k7.currentPid == 1 && k7.procs[1].pid == 2
            && Publish(k7, 2, sp, pc) == Three(Ready, Running, Child(Ready, sp, pc), 1, 4, map[], sp, pc)
  {
    var k6 := Three(Ready, Running, EmptySlot, 1, 3, map[], sp, pc);
    FirstFree(k6.procs, 2);
    var k8 := Publish(Reserve(k6), 2, sp, pc);
    assert k8.procs == Three(Ready, Running, Child(Ready, sp, pc), 1, 4, map[], sp, pc).procs;
    assert k8.pending == map[];
  }

  /** What a yield to another slot does, once it is known which. */
  lemma YieldTo(k: Kernel, next: nat)
    requires 0 <= k.currentPid < MAX_PROCESSES && next < MAX_PROCESSES && next != k.currentPid
    requires NextReady(SetState(k.procs, k.currentPid, Ready), k.currentPid, false) == next
    ensures Yield(k) == k.(procs := SetState(SetState(k.procs, k.currentPid, Ready), next, Running),
                           currentPid := next, currentProcess := next)
  {
    hide NextReady;
  }

  /** Two yields later pid 1 runs again. */
  lemma TurnThree(sp: nat, pc: nat)
    ensures var k9 := Yield(Three(Ready, Running, Child(Ready, sp, pc), 1, 4, map[], sp, pc));
            && k9 == Three(Ready, Ready, Child(Running, sp, pc), 2, 4, map[], sp, pc)
            && Yield(k9) == Three(Running, Ready, Child(Ready, sp, pc), 0, 4, map[], sp, pc)
  {
    hide Yield, NextReady;
    var k8 := Three(Ready, Running, Child(Ready, sp, pc), 1, 4, map[], sp, pc);
    var k9 := Three(Ready, Ready, Child(Running, sp, pc), 2, 4, map[], sp, pc);
    var k10 := Three(Running, Ready, Child(Ready, sp, pc), 0, 4, map[], sp, pc);
    var t8, t9 := SetState(k8.procs, 1, Ready), SetState(k9.procs, 2, Ready);
    ScanNext(t8);
    ScanWraps(t9);
    YieldTo(k8, 2);
    assert SetState(t8, 2, Running) == k9.procs;
    YieldTo(k9, 0);
    assert SetState(t9, 0, Running) == k10.procs;
  }

  lemma ScanNext(t: Table)
    requires t[2].state == Ready
    ensures NextReady(t, 1, false) == 2
  {
  }

  /** With slots 0 to 2 READY and the rest empty, the scan after slot 2 comes back to 0. */
  lemma ScanWraps(t: Table)
    requires t[0].state == Ready && forall i :: 3 <= i < MAX_PROCESSES ==> t[i].state == Free
    ensures NextReady(t, 2, false) == 0
  {
    NextReadyNearest(t, 2, false, 0, 0);
    assert Distance(2, 0) == 13;
  }

  lemma RunExtend(states: seq<Kernel>, ops: seq<Op>, op: Op)
    requires Run(states, ops) && states[|ops|].WellFormed() && Enabled(states[|ops|], op)
    ensures Run(states + [Apply(states[|ops|], op)], ops + [op])
  {
    hide Enabled, Apply;
  }

  /** Up to the point where pid 2 has created pid 3. */
  lemma ThirdCreated(sp: nat, pc: nat) returns (states: seq<Kernel>)
    ensures var ops := [OpReserve, OpPublish(0, sp, pc), OpReserve, OpPublish(1, sp, pc), OpSchedule, OpYield,
                        OpReserve, OpPublish(2, sp, pc)];
            && Run(states, ops) && states[0] == Boot
            && states[8] == Three(Ready, Running, Child(Ready, sp, pc), 1, 4, map[], sp, pc)
  {
    hide Reserve, Publish, Schedule, Yield;
    BootTwo(sp, pc);
    TurnTwo(sp, pc);
    CreateThird(sp, pc);
    var k1 := Reserve(Boot);
    var k2 := Publish(k1, 0, sp, pc);
    var k3 := Reserve(k2);
    var k4 := Publish(k3, 1, sp, pc);
    var k5 := Schedule(k4);
    var k6 := Yield(k5);
    var k7 := Reserve(k6);
    states := [Boot, k1, k2, k3, k4, k5, k6, k7, Publish(k7, 2, sp, pc)];
  }

  /** A run from boot: pid 2 creates pid 3, and when pid 1 exits pid 3 dies with it. */
  lemma StrangerRun(sp: nat, pc: nat, status: int) returns (states: seq<Kernel>)
    ensures var ops := [OpReserve, OpPublish(0, sp, pc), OpReserve, OpPublish(1, sp, pc), OpSchedule, OpYield,
                        OpReserve, OpPublish(2, sp, pc)] + [OpYield] + [OpYield] + [OpExit(status)];
            && Run(states, ops) && states[0] == Boot
            && states[8] == Three(Ready, Running, Child(Ready, sp, pc), 1, 4, map[], sp, pc)
            && states[10] == Three(Running, Ready, Child(Ready, sp, pc), 0, 4, map[], sp, pc)
            && !states[11].procs[2].Live() && states[11].procs[1] == states[10].procs[1]
  {
    hide Inv, Run, Yield, Exit;
    var ops := [OpReserve, OpPublish(0, sp, pc), OpReserve, OpPublish(1, sp, pc), OpSchedule, OpYield,
                OpReserve, OpPublish(2, sp, pc)];
    states := ThirdCreated(sp, pc);
    TurnThree(sp, pc);
    RunLength(states, ops);
    RunExtend(states, ops, OpYield);
    states, ops := states + [Yield(states[8])], ops + [OpYield];
    RunExtend(states, ops, OpYield);
    states, ops := states + [Yield(states[9])], ops + [OpYield];
    RunKeepsInv(states, ops, 10);
    StrangerKilled(states[10], sp, pc, status);
    RunExtend(states, ops, OpExit(status));
    states := states + [Exit(states[10], status)];
  }

  lemma RunLength(states: seq<Kernel>, ops: seq<Op>)
    requires Run(states, ops)
    ensures |states| == |ops| + 1
  {
  }

  lemma StrangerKilled(k: Kernel, sp: nat, pc: nat, status: int)
    requires Inv(k) && k == Three(Running, Ready, Child(Ready, sp, pc), 0, 4, map[], sp, pc)
    ensures !Exit(k, status).procs[2].Live() && Exit(k, status).procs[1] == k.procs[1]
  {
    StrangersChildDies(k, status, 2);
    NobodysChild(k, 1);
    ExitSubtree(k, status, 1);
  }

  lemma NobodysChild(k: Kernel, i: nat)
    requires Inv(k) && k.currentPid >= 0 && i < MAX_PROCESSES && k.procs[i].parentPid == -1
    ensures !Descends(k.procs, k.procs[k.currentPid].pid, i)
  {
    OrphanSafe(k.procs, k.nextPid, k.procs[k.currentPid].pid, i);
  }

  // ----------------------------------------------------------------------- creation

  /** A reservation succeeds exactly when some slot is free; it takes the lowest one under
      the next pid and leaves the other slots alone. */
  lemma ReserveTakes(k: Kernel, i: nat)
    requires Inv(k) && i < MAX_PROCESSES
    ensures var k' := Reserve(k);
            var lowest := !k.procs[i].Live() && forall j :: 0 <= j < i ==> k.procs[j].Live();
            && (lowest ==> k'.procs[i].state == Blocked && k'.procs[i].pid == k.nextPid && k'.nextPid == k.nextPid + 1)
            && (!lowest ==> k'.procs[i] == k.procs[i])
            && ((forall j :: 0 <= j < MAX_PROCESSES ==> k.procs[j].Live()) ==> k' == k)
  {
  }

  /** Publishing makes the reserved process READY; what it stores as parent is the slot
      number of the running process, or -1 for the kernel. */
  lemma PublishStores(k: Kernel, slot: nat, sp: nat, pc: nat, i: nat)
    requires Inv(k) && Enabled(k, OpPublish(slot, sp, pc)) && i < MAX_PROCESSES
    ensures var k' := Publish(k, slot, sp, pc);
            && k'.procs[slot].state == Ready && k'.procs[slot].pid == k.procs[slot].pid
            && k'.procs[slot].parentPid == k.currentPid
            && k'.procs[slot].sp == sp && k'.procs[slot].pc == pc
            && (i != slot ==> k'.procs[i] == k.procs[i])
            && k'.currentPid == k.currentPid && !Unreturned(k', k.procs[slot].pid)
  {
    var k' := Publish(k, slot, sp, pc);
    forall s | s in k'.pending && s < MAX_PROCESSES
      ensures k'.procs[s].pid != k.procs[slot].pid
    {
      assert k.procs[slot].pid != 0;
    }
  }

  /** Giving up after a reservation frees the slot and its pid for good. */
  lemma ReleaseFrees(k: Kernel, slot: nat, i: nat)
    requires Inv(k) && Enabled(k, OpRelease(slot)) && i < MAX_PROCESSES
    ensures var k' := Release(k, slot);
            && !k'.procs[slot].Live() && FindPid(k'.procs, k.procs[slot].pid) == -1 && k'.nextPid == k.nextPid
            && (i != slot ==> k'.procs[i] == k.procs[i])
  {
    assert k.procs[slot].pid != 0;
  }

  /** process_start makes the process of that pid READY, and only that one. */
  lemma StartMakesReady(k: Kernel, pid: int, i: nat)
    requires Inv(k) && i < MAX_PROCESSES
    ensures var k' := Start(k, pid);
            && (k.procs[i].Live() && k.procs[i].pid == pid ==> k'.procs[i].state == Ready)
            && (!(k.procs[i].Live() && k.procs[i].pid == pid) ==> k'.procs[i] == k.procs[i])
            && SameButState(k, k', i) && k'.(procs := k.procs) == k
  {
    var slot := FindPid(k.procs, pid);
    if slot >= 0 {
      assert k.procs[slot].pid == pid > slot;
    }
  }

  // --------------------------------------------------------------------- dispatching

  /** The CPU goes from `k` to slot `next`: it is RUNNING, whoever was RUNNING before is
      READY, and nothing else has changed. */
  predicate Dispatches(k: Kernel, k': Kernel, next: nat)
    requires next < MAX_PROCESSES
  {
    && k'.currentPid == k'.currentProcess == next && k'.procs[next].state == Running
    && k'.nextPid == k.nextPid && k'.pending == k.pending
    && (forall i :: 0 <= i < MAX_PROCESSES ==> SameButState(k, k', i))
    && (forall i :: 0 <= i < MAX_PROCESSES && i != next ==>
          k'.procs[i].state == if k.procs[i].state == Running then Ready else k.procs[i].state)
  }

  /** What each scheduler may pick: READY, and for the timer with a saved stack pointer and
      program counter. */
  predicate Runnable(p: Process, needContext: bool) {
    p.state == Ready && (needContext ==> p.sp != 0 && p.pc != 0)
  }

  /** Slot `s` is the nearest runnable one after the current slot. */
  predicate Nearest(k: Kernel, needContext: bool, s: nat)
    requires k.WellFormed() && s < MAX_PROCESSES
  {
    && Runnable(k.procs[s], needContext)
    && forall i :: 0 <= i < MAX_PROCESSES && Runnable(k.procs[i], needContext) ==>
         Distance(k.currentPid, s) <= Distance(k.currentPid, i)
  }

  /** The scan finds the nearest one. */
  lemma ScanNearest(k: Kernel, needContext: bool, s: nat)
    requires k.WellFormed() && s < MAX_PROCESSES && Nearest(k, needContext, s)
    ensures NextReady(k.procs, k.currentPid, needContext) == s
  {
    NextReadyNearest(k.procs, k.currentPid, needContext, 0, s);
  }

  /** process_schedule dispatches the nearest READY slot after the current one, wherever
      it is called from; with none it keeps a RUNNING process or goes to the kernel. */
  lemma ScheduleDispatches(k: Kernel, s: nat)
    requires Inv(k) && s < MAX_PROCESSES
    ensures Nearest(k, false, s) ==> Dispatches(k, Schedule(k), s)
    ensures (forall i :: 0 <= i < MAX_PROCESSES ==> k.procs[i].state != Ready) ==>
              && Schedule(k).procs == k.procs
              && Schedule(k).currentPid == if k.currentPid >= 0 && k.procs[k.currentPid].state == Running
                                           then k.currentPid else -1
  {
    if Nearest(k, false, s) {
      ScanNearest(k, false, s);
    }
  }

  /** process_yield prefers any other READY slot to the one that yields. */
  lemma YieldDispatches(k: Kernel, s: nat)
    requires Inv(k) && s < MAX_PROCESSES && Nearest(k, false, s) && s != k.currentPid
    ensures Yield(k).currentPid == s && Yield(k).procs[s].state == Running
    ensures k.currentPid >= 0 ==> Yield(k).procs[k.currentPid].state == Ready
    ensures forall i :: 0 <= i < MAX_PROCESSES && i != s && i != k.currentPid ==> Yield(k).procs[i] == k.procs[i]
  {
    var k0 := if k.currentPid >= 0 then k.(procs := SetState(k.procs, k.currentPid, Ready)) else k;
    ScanNearest(k0, false, s);
  }

  /** Twenty ticks make a slice; its end dispatches the nearest READY slot with a saved
      context, from a process and from the kernel alike. */
  lemma TickDispatches(k: Kernel, s: nat)
    requires Inv(k) && s < MAX_PROCESSES && s != k.currentPid
    requires Nearest(k, true, s) && (k.currentPid >= 0 ==> k.procs[k.currentPid].state == Running)
    ensures k.ticks < 19 ==> Tick(k) == k.(ticks := k.ticks + 1)
    ensures k.ticks == 19 ==> Tick(k).ticks == 0 && Dispatches(k, Tick(k), s)
  {
    if k.ticks == 19 {
      ScanNearest(k, true, s);
      CountAtLeast(k.procs, s, if k.currentPid >= 0 then k.currentPid else s, MAX_PROCESSES);
    }
  }

  /** The timer dispatches nobody without a saved context. */
  lemma TickNeedsContext(k: Kernel)
    requires Inv(k) && Tick(k).currentPid != k.currentPid
    ensures var s := Tick(k).currentPid;
            0 <= s < MAX_PROCESSES && k.procs[s].state == Ready && k.procs[s].sp != 0 && k.procs[s].pc != 0
    ensures k.ticks == 19
  {
  }

  /** process_kill finds a target exactly for the pid of a live process other than the
      running one. */
  lemma KillTargetIff(k: Kernel, pid: int)
    requires Inv(k)
    ensures KillTarget(k, pid) >= 0 <==>
              exists i :: 0 <= i < MAX_PROCESSES && i != k.currentPid && k.procs[i].Live() && k.procs[i].pid == pid
  {
    var slot := FindPid(k.procs, pid);
    if slot >= 0 {
      assert k.procs[slot].pid == pid > slot;
    }
  }
}
