/**
 The process table of kernel/core/process.c as a value, and the effect of every
 kernel entry point on it.  The imperative form is class Manager in
 ProcessManager.dfy; each of its methods is proved to have the effect stated here.
 */
module ProcessTable {

  const MAX_PROCESSES: nat := 16
  const TIME_SLICE_TICKS: nat := 20

  datatype State = Free | Ready | Running | Blocked | Zombie

  /** One slot.  `parentPid` holds what the source stores: the *slot index* of the
      creator (or -1), even though it is later compared with pids.  `sp` and `pc`
      are the two words of the saved context that the scheduler inspects. */
  datatype Process = Process(
    pid: int,
    state: State,
    parentPid: int,
    hasStack: bool,
    exitStatus: int,
    sp: nat,
    pc: nat)
  {
    predicate Live() { state != Free }

    /** What kill_children and process_kill write into a slot. */
    function Killed(): Process {
      this.(state := Free, pid := 0, hasStack := false)
    }
  }

  type Table = t: seq<Process> | |t| == MAX_PROCESSES
    witness seq(MAX_PROCESSES, _ => EmptySlot)

  const EmptySlot: Process := Process(0, Free, -1, false, 0, 0, 0)

  /** The whole state.  `currentProcess` is the source's pointer, as a slot index
      with -1 for NULL.  `pending` records each slot whose process_create has
      reserved it but not yet published it, with the pid of the creating process
      (0 for the kernel): the creator's program counter sits between the two steps. */
  datatype Kernel = Kernel(
    procs: Table,
    currentPid: int,
    currentProcess: int,
    nextPid: int,
    ticks: nat,
    pending: map<nat, int>)
  {
    predicate WellFormed() {
      -1 <= currentPid < MAX_PROCESSES
    }

    /** The pid of whoever is executing, 0 for the kernel itself. */
    function RunningPid(): int
      requires WellFormed()
    {
      if currentPid < 0 then 0 else procs[currentPid].pid
    }
  }

  const Boot: Kernel := Kernel(seq(MAX_PROCESSES, _ => EmptySlot), -1, -1, 1, 0, map[])

  function SetState(t: Table, i: nat, s: State): (r: Table)
    requires i < MAX_PROCESSES
  {
    t[i := t[i].(state := s)]
  }

  // ------------------------------------------------------------- searching

  function LowestFree(t: Table, from: nat := 0): (r: int)
    requires from <= MAX_PROCESSES
    ensures r == -1 || from <= r < MAX_PROCESSES
    ensures r == -1 ==> forall i :: from <= i < MAX_PROCESSES ==> t[i].Live()
    ensures r >= 0 ==> !t[r].Live() && forall i :: from <= i < r ==> t[i].Live()
    decreases MAX_PROCESSES - from
  {
    if from == MAX_PROCESSES then -1
    else if t[from].state == Free then from
    else LowestFree(t, from + 1)
  }

  function FindPid(t: Table, pid: int, from: nat := 0): (r: int)
    requires from <= MAX_PROCESSES
    ensures r == -1 || from <= r < MAX_PROCESSES
    ensures r == -1 ==> forall i :: from <= i < MAX_PROCESSES && t[i].Live() ==> t[i].pid != pid
    ensures r >= 0 ==> t[r].Live() && t[r].pid == pid
    ensures r >= 0 ==> forall i :: from <= i < r && t[i].Live() ==> t[i].pid != pid
    decreases MAX_PROCESSES - from
  {
    if from == MAX_PROCESSES then -1
    else if t[from].pid == pid && t[from].state != Free then from
    else FindPid(t, pid, from + 1)
  }

  function CountReady(t: Table, n: nat := MAX_PROCESSES): (c: nat)
    requires n <= MAX_PROCESSES
    ensures c <= n
  {
    if n == 0 then 0
    else CountReady(t, n - 1) + if t[n - 1].state in {Ready, Running} then 1 else 0
  }

  /** How many slots the round-robin scan starting after `cur` looks at before `t`. */
  function Distance(cur: int, t: nat): (d: nat)
    requires -1 <= cur < MAX_PROCESSES && t < MAX_PROCESSES
    ensures d == t - cur - 1 + if t > cur then 0 else MAX_PROCESSES
    ensures (cur + 1 + d) % MAX_PROCESSES == t
  {
    (t - cur - 1) % MAX_PROCESSES
  }

  /** The cooperative scheduler takes any READY slot; the timer path also wants a
      saved context. */
  predicate Eligible(p: Process, needContext: bool) {
    p.state == Ready && (needContext ==> p.sp != 0 && p.pc != 0)
  }

  /** The round-robin scan from the slot after `cur`; `i` slots already rejected. */
  function NextReady(t: Table, cur: int, needContext: bool, i: nat := 0): (r: int)
    requires -1 <= cur < MAX_PROCESSES && i <= MAX_PROCESSES
    ensures r == -1 || (0 <= r < MAX_PROCESSES && Eligible(t[r], needContext))
    decreases MAX_PROCESSES - i
  {
    if i == MAX_PROCESSES then -1
    else
      var idx := (cur + 1 + i) % MAX_PROCESSES;
      if Eligible(t[idx], needContext) then idx else NextReady(t, cur, needContext, i + 1)
  }

  /** The scan finds the eligible slot nearest after `cur`, if there is any. */
  lemma {:induction false} NextReadyNearest(t: Table, cur: int, needContext: bool, i: nat, s: nat)
    requires -1 <= cur < MAX_PROCESSES && s < MAX_PROCESSES && i <= Distance(cur, s)
    requires Eligible(t[s], needContext)
    ensures var r := NextReady(t, cur, needContext, i);
            r >= 0 && i <= Distance(cur, r) <= Distance(cur, s)
    decreases MAX_PROCESSES - i
  {
    var idx := (cur + 1 + i) % MAX_PROCESSES;
    assert Distance(cur, idx) == i;
    if !Eligible(t[idx], needContext) {
      assert idx != s;
      NextReadyNearest(t, cur, needContext, i + 1, s);
    }
  }

  // ------------------------------------------------------- stored parent links

  /** A chain of live slots: the first names `root` as its parent, each later one
      names the pid of its predecessor. */
  ghost predicate Chain(t: Table, root: int, path: seq<nat>) {
    && |path| > 0
    && (forall k :: 0 <= k < |path| ==> path[k] < MAX_PROCESSES && t[path[k]].Live())
    && t[path[0]].parentPid == root
    && (forall k :: 0 < k < |path| ==> t[path[k]].parentPid == t[path[k - 1]].pid)
  }

  ghost predicate ChainTo(t: Table, root: int, path: seq<nat>, i: nat) {
    Chain(t, root, path) && path[|path| - 1] == i
  }

  ghost predicate Descends(t: Table, root: int, i: nat) {
    exists path :: ChainTo(t, root, path, i)
  }

  /** kill_children: exactly the descendants of `root`, except the running slot. */
  ghost function KillDescendants(t: Table, current: int, root: int): (r: Table) {
    seq(MAX_PROCESSES, i requires 0 <= i < MAX_PROCESSES =>
      if i != current && Descends(t, root, i) then t[i].Killed() else t[i])
  }

  // ---------------------------------------------------------- kernel operations

  /** First atomic half of process_create. */
  function Reserve(k: Kernel): (r: Kernel)
    requires k.WellFormed()
  {
    var slot := LowestFree(k.procs);
    if slot < 0 then k
    else k.(
      procs := k.procs[slot := Process(k.nextPid, Blocked, -1, false, 0, 0, 0)],
      nextPid := k.nextPid + 1,
      pending := k.pending[slot := k.RunningPid()])
  }

  /** process_create giving up after the reservation. */
  function Release(k: Kernel, slot: nat): (r: Kernel)
    requires slot < MAX_PROCESSES
  {
    k.(procs := k.procs[slot := EmptySlot], pending := k.pending - {slot})
  }

  /** Second atomic half of process_create. */
  function Publish(k: Kernel, slot: nat, sp: nat, pc: nat): (r: Kernel)
    requires slot < MAX_PROCESSES
  {
    k.(
      procs := k.procs[slot := k.procs[slot].(state := Ready, parentPid := k.currentPid,
                                              hasStack := true, exitStatus := 0, sp := sp, pc := pc)],
      pending := k.pending - {slot})
  }

  function Start(k: Kernel, pid: int): (r: Kernel) {
    var slot := FindPid(k.procs, pid);
    if slot < 0 then k else k.(procs := SetState(k.procs, slot, Ready))
  }

  function SwitchTo(k: Kernel, next: nat): (r: Kernel)
    requires k.WellFormed() && next < MAX_PROCESSES
  {
    var t := if k.currentPid >= 0 && k.procs[k.currentPid].state == Running
             then SetState(k.procs, k.currentPid, Ready) else k.procs;
    k.(procs := SetState(t, next, Running), currentPid := next, currentProcess := next)
  }

  function Schedule(k: Kernel): (r: Kernel)
    requires k.WellFormed()
  {
    var next := NextReady(k.procs, k.currentPid, false);
    if next < 0 then
      if k.currentPid >= 0 && k.procs[k.currentPid].state != Running
      then k.(currentPid := -1, currentProcess := -1) else k
    else if next == k.currentPid then k.(procs := SetState(k.procs, next, Running))
    else SwitchTo(k, next)
  }

  function Yield(k: Kernel): (r: Kernel)
    requires k.WellFormed()
  {
    Schedule(if k.currentPid >= 0 then k.(procs := SetState(k.procs, k.currentPid, Ready)) else k)
  }

  /** One timer interrupt (both the ARM64 and the x86 path). */
  function Tick(k: Kernel): (r: Kernel)
    requires k.WellFormed()
  {
    if k.ticks + 1 < TIME_SLICE_TICKS then k.(ticks := k.ticks + 1)
    else
      var k0 := k.(ticks := 0);
      var ready := CountReady(k.procs);
      if (k.currentPid >= 0 && ready <= 1) || (k.currentPid < 0 && ready == 0) then k0
      else
        var next := NextReady(k.procs, k.currentPid, true);
        if next < 0 || next == k.currentPid then k0 else SwitchTo(k0, next)
  }

  ghost function Exit(k: Kernel, status: int): (r: Kernel)
    requires k.WellFormed()
  {
    if k.currentPid < 0 then k
    else
      var t := KillDescendants(k.procs, k.currentPid, k.procs[k.currentPid].pid);
      k.(procs := t[k.currentPid := t[k.currentPid].(exitStatus := status, state := Free)],
         currentPid := -1, currentProcess := -1)
  }

  /** process_kill refuses an unknown pid and the running process. */
  function KillTarget(k: Kernel, pid: int): (r: int)
    ensures -1 <= r < MAX_PROCESSES
    ensures r >= 0 ==> r != k.currentPid && pid > 0 && k.procs[r].Live() && k.procs[r].pid == pid
  {
    if pid <= 0 then -1
    else
      var slot := FindPid(k.procs, pid);
      if slot < 0 || slot == k.currentPid then -1 else slot
  }

  ghost function Kill(k: Kernel, pid: int): (r: Kernel)
  {
    var slot := KillTarget(k, pid);
    if slot < 0 then k
    else
      var t := KillDescendants(k.procs, k.currentPid, pid);
      k.(procs := t[slot := t[slot].Killed()])
  }

  /** Context words are written by the switch assembly: any value, any live slot. */
  function SaveContext(k: Kernel, slot: nat, sp: nat, pc: nat): (r: Kernel)
    requires slot < MAX_PROCESSES
  {
    k.(procs := k.procs[slot := k.procs[slot].(sp := sp, pc := pc)])
  }
}
