/**
 The stateful process table: loops over the slots and the explicit work stack of
 kernel/core/process.c, proved against the value model of ProcessTable.
 */
module ProcessManager {
  import opened ProcessTable
  import opened ProcessInvariant

  // --------------------------------------------- bookkeeping of kill_children

  lemma ExtendChain(t: Table, root: int, j: nat, i: nat)
    requires i < MAX_PROCESSES && j < MAX_PROCESSES && t[i].Live()
    requires Descends(t, root, j) && t[i].parentPid == t[j].pid
    ensures Descends(t, root, i)
  {
    var path :| ChainTo(t, root, path, j);
    assert ChainTo(t, root, path + [i], i);
  }

  /** `e` is a parent value the traversal was entitled to look at. */
  ghost predicate Sourced(t: Table, root: int, found: set<nat>, e: int) {
    e == root || exists j :: j in found && j < MAX_PROCESSES && t[j].pid == e
  }

  /** Pushed slots are descendants whose own pid is popped or waiting. */
  ghost predicate Pushed(t: Table, root: int, stack: seq<int>, done: set<int>, found: set<nat>) {
    forall i :: i in found ==>
      && i < MAX_PROCESSES && t[i].Live() && Descends(t, root, i)
      && t[i].pid > root && t[i].parentPid in done
      && (t[i].pid in done || t[i].pid in stack)
  }

  /** No parent value is ever waiting twice or looked at twice. */
  ghost predicate Waiting(t: Table, root: int, stack: seq<int>, done: set<int>, found: set<nat>) {
    && (forall e :: e in done || e in stack ==> Sourced(t, root, found, e))
    && (forall e :: e in stack ==> e !in done)
    && (forall a, b :: 0 <= a < b < |stack| ==> stack[a] != stack[b])
    && (root in done || root in stack)
  }

  /** State of the traversal: `done` are the parents already popped, `found` the
      slots already pushed. */
  ghost predicate Traversal(t: Table, root: int, stack: seq<int>, done: set<int>, found: set<nat>) {
    && Pushed(t, root, stack, done, found)
    && Waiting(t, root, stack, done, found)
    && |stack| + |done| == |found| + 1
  }

  /** The table so far: found slots are freed, except the running one. */
  ghost predicate Marked(t: Table, cur: int, now: Table, found: set<nat>) {
    forall i: nat :: i < MAX_PROCESSES ==> now[i] == if i in found && i != cur then t[i].Killed() else t[i]
  }

  /** Children of every popped parent have been pushed. */
  ghost predicate Closed(t: Table, done: set<int>, found: set<nat>) {
    forall i: nat :: i < MAX_PROCESSES && t[i].Live() && t[i].parentPid in done ==> i in found
  }

  lemma {:induction false} FoundBound(found: set<nat>, n: nat)
    requires forall i :: i in found ==> i < n
    ensures |found| <= n
  {
    if n > 0 {
      FoundBound(found - {n - 1}, n - 1);
    }
  }

  lemma PopStep(t: Table, root: int, stack: seq<int>, done: set<int>, found: set<nat>)
    requires |stack| > 0 && Traversal(t, root, stack, done, found)
    ensures var top := |stack| - 1;
            Traversal(t, root, stack[..top], done + {stack[top]}, found)
  {
    var top := |stack| - 1;
    var e := stack[top];
    assert stack == stack[..top] + [e];
    assert e in stack && e !in done;
    assert |done + {e}| == |done| + 1;
    assert forall x :: x in stack ==> x == e || x in stack[..top];
  }

  /** The parent just popped leads to a slot not seen before. */
  lemma PushFresh(t: Table, nextPid: int, root: int, done: set<int>, found: set<nat>, i: nat)
    requires Identified(t, nextPid)
    requires forall j :: j in found ==> j < MAX_PROCESSES && Descends(t, root, j) && t[j].pid > root
    requires i < MAX_PROCESSES && t[i].Live() && i !in found
    requires Sourced(t, root, found, t[i].parentPid)
    ensures Descends(t, root, i) && t[i].pid > root
    ensures !Sourced(t, root, found, t[i].pid)
  {
    var q := t[i].parentPid;
    if q == root {
      assert ChainTo(t, root, [i], i);
    } else {
      var j :| j in found && j < MAX_PROCESSES && t[j].pid == q;
      ExtendChain(t, root, j, i);
    }
  }

  lemma PushWaiting(t: Table, root: int, stack: seq<int>, done: set<int>, found: set<nat>, i: nat)
    requires Waiting(t, root, stack, done, found)
    requires i < MAX_PROCESSES && !Sourced(t, root, found, t[i].pid)
    ensures Waiting(t, root, stack + [t[i].pid], done, found + {i})
  {
    var stack' := stack + [t[i].pid];
    forall e | e in done || e in stack'
      ensures Sourced(t, root, found + {i}, e)
    {
      if e != t[i].pid {
        assert Sourced(t, root, found, e);
      }
    }
    assert t[i].pid !in stack && t[i].pid !in done;
  }

  lemma PushStep(t: Table, nextPid: int, root: int, stack: seq<int>, done: set<int>, found: set<nat>, i: nat)
    requires Identified(t, nextPid)
    requires Traversal(t, root, stack, done, found)
    requires i < MAX_PROCESSES && t[i].Live() && t[i].parentPid in done && i !in found
    ensures |stack| < MAX_PROCESSES
    ensures Traversal(t, root, stack + [t[i].pid], done, found + {i})
  {
    FoundBound(found + {i}, MAX_PROCESSES);
    Nonempty(done, t[i].parentPid);
    PushFresh(t, nextPid, root, done, found, i);
    PushWaiting(t, root, stack, done, found, i);
    PushFound(t, root, stack, done, found, i);
  }

  lemma PushFound(t: Table, root: int, stack: seq<int>, done: set<int>, found: set<nat>, i: nat)
    requires Pushed(t, root, stack, done, found)
    requires i < MAX_PROCESSES && t[i].Live() && Descends(t, root, i) && t[i].pid > root && t[i].parentPid in done
    ensures Pushed(t, root, stack + [t[i].pid], done, found + {i})
  {
    assert t[i].pid in stack + [t[i].pid];
  }

  lemma Nonempty(s: set<int>, x: int)
    requires x in s
    ensures |s| >= 1
  {
    assert s == (s - {x}) + {x};
  }

  /** When the stack is empty, everything reachable has been found. */
  lemma {:induction false} AllFound(t: Table, root: int, done: set<int>, found: set<nat>, path: seq<nat>)
    requires Closed(t, done, found) && root in done
    requires forall i :: i in found ==> i < MAX_PROCESSES && t[i].pid in done
    requires Chain(t, root, path)
    ensures path[|path| - 1] in found
    decreases |path|
  {
    if |path| > 1 {
      AllFound(t, root, done, found, path[..|path| - 1]);
      assert path[|path| - 2] in found;
    }
    assert path[|path| - 1] < MAX_PROCESSES;
  }

  lemma TraversalComplete(t: Table, cur: int, root: int, now: Table, done: set<int>, found: set<nat>)
    requires Traversal(t, root, [], done, found) && Closed(t, done, found) && Marked(t, cur, now, found)
    ensures now == KillDescendants(t, cur, root)
  {
    forall i: nat | i < MAX_PROCESSES
      ensures i in found <==> Descends(t, root, i)
    {
      if Descends(t, root, i) {
        var path :| ChainTo(t, root, path, i);
        AllFound(t, root, done, found, path);
      }
    }
  }

  // ------------------------------------------------------------------ the table

  class Manager {
    const table: array<Process>
    var currentPid: int
    var currentProcess: int
    var nextPid: int
    var preemptTicks: nat
    ghost var pending: map<nat, int>

    ghost predicate Valid()
      reads this
    {
      table.Length == MAX_PROCESSES && -1 <= currentPid < MAX_PROCESSES
    }

    ghost function Value(): (k: Kernel)
      requires Valid()
      reads this, table
    {
      Kernel(table[..], currentPid, currentProcess, nextPid, preemptTicks, pending)
    }

    constructor ()
      ensures Valid() && fresh(table) && Value() == Boot
    {
      table := new Process[MAX_PROCESSES](_ => EmptySlot);
      currentPid, currentProcess, nextPid, preemptTicks := -1, -1, 1, 0;
      pending := map[];
      new;
      assert table[..] == Boot.procs;
    }

    method FindFreeSlot() returns (slot: int)
      requires Valid()
      ensures slot == LowestFree(table[..])
    {
      for i := 0 to MAX_PROCESSES
        invariant LowestFree(table[..]) == LowestFree(table[..], i)
      {
        if table[i].state == Free {
          return i;
        }
      }
      return -1;
    }

    method FindProcess(pid: int) returns (slot: int)
      requires Valid()
      ensures slot == FindPid(table[..], pid)
    {
      for i := 0 to MAX_PROCESSES
        invariant FindPid(table[..], pid) == FindPid(table[..], pid, i)
      {
        if table[i].pid == pid && table[i].state != Free {
          return i;
        }
      }
      return -1;
    }

    method CountRunnable() returns (count: nat)
      requires Valid()
      ensures count == CountReady(table[..])
    {
      count := 0;
      for i := 0 to MAX_PROCESSES
        invariant count == CountReady(table[..], i)
      {
        if table[i].state == Ready || table[i].state == Running {
          count := count + 1;
        }
      }
    }

    method PickNextReady(needContext: bool) returns (next: int)
      requires Valid()
      ensures next == NextReady(table[..], currentPid, needContext)
    {
      var start := if currentPid >= 0 then currentPid + 1 else 0;
      for i := 0 to MAX_PROCESSES
        invariant NextReady(table[..], currentPid, needContext)
               == NextReady(table[..], currentPid, needContext, i)
      {
        var idx := (start + i) % MAX_PROCESSES;
        assert idx == (currentPid + 1 + i) % MAX_PROCESSES && table[..][idx] == table[idx];
        if table[idx].state == Ready && (!needContext || (table[idx].sp != 0 && table[idx].pc != 0)) {
          assert Eligible(table[..][idx], needContext);
          return idx;
        }
      }
      return -1;
    }

    method ReserveSlot() returns (slot: int, pid: int)
      requires Valid()
      modifies this, table
      ensures Valid() && Value() == Reserve(old(Value()))
      ensures slot == LowestFree(old(table[..]))
      ensures pid == if slot < 0 then -1 else old(nextPid)
    {
      slot := FindFreeSlot();
      if slot < 0 {
        return slot, -1;
      }
      pid := nextPid;
      nextPid := nextPid + 1;
      pending := pending[slot := old(Value()).RunningPid()];
      table[slot] := Process(pid, Blocked, -1, false, 0, 0, 0);
    }

    method ReleaseSlot(slot: nat)
      requires Valid() && slot < MAX_PROCESSES
      modifies `pending, table
      ensures Valid() && Value() == Release(old(Value()), slot)
    {
      table[slot] := EmptySlot;
      pending := pending - {slot};
    }

    method PublishSlot(slot: nat, sp: nat, pc: nat) returns (pid: int)
      requires Valid() && slot < MAX_PROCESSES
      modifies `pending, table
      ensures Valid() && Value() == Publish(old(Value()), slot, sp, pc)
      ensures pid == old(table[slot].pid)
    {
      table[slot] := table[slot].(parentPid := currentPid, exitStatus := 0, hasStack := true, sp := sp, pc := pc);
      table[slot] := table[slot].(state := Ready);
      pending := pending - {slot};
      return table[slot].pid;
    }

    method StartProcess(pid: int) returns (r: int)
      requires Valid()
      modifies table
      ensures Valid() && Value() == Start(old(Value()), pid)
      ensures r == 0 <==> FindPid(old(table[..]), pid) >= 0
      ensures r == 0 || r == -1
    {
      var slot := FindProcess(pid);
      if slot < 0 {
        return -1;
      }
      table[slot] := table[slot].(state := Ready);
      return 0;
    }

    method SwitchContext(next: nat)
      requires Valid() && next < MAX_PROCESSES
      modifies `currentPid, `currentProcess, table
      ensures Valid() && Value() == SwitchTo(old(Value()), next)
    {
      if currentPid >= 0 && table[currentPid].state == Running {
        table[currentPid] := table[currentPid].(state := Ready);
      }
      table[next] := table[next].(state := Running);
      currentPid := next;
      currentProcess := next;
    }

    method ScheduleNext()
      requires Valid()
      modifies `currentPid, `currentProcess, table
      ensures Valid() && Value() == Schedule(old(Value()))
    {
      var next := PickNextReady(false);
      if next < 0 {
        if currentPid >= 0 && table[currentPid].state != Running {
          currentPid := -1;
          currentProcess := -1;
        }
      } else if next == currentPid {
        table[next] := table[next].(state := Running);
      } else {
        SwitchContext(next);
      }
    }

    method YieldCpu()
      requires Valid()
      modifies `currentPid, `currentProcess, table
      ensures Valid() && Value() == Yield(old(Value()))
    {
      if currentPid >= 0 {
        table[currentPid] := table[currentPid].(state := Ready);
      }
      ScheduleNext();
    }

    method TimerInterrupt()
      requires Valid()
      modifies this, table
      ensures Valid() && Value() == Tick(old(Value()))
    {
      preemptTicks := preemptTicks + 1;
      if preemptTicks < TIME_SLICE_TICKS {
        return;
      }
      preemptTicks := 0;
      var ready := CountRunnable();
      if currentPid >= 0 && ready <= 1 {
        return;
      }
      if currentPid < 0 && ready == 0 {
        return;
      }
      var next := PickNextReady(true);
      if next < 0 || next == currentPid {
        return;
      }
      SwitchContext(next);
    }

    /** The inner loop of kill_children: push and free the children of one parent.
        A push is skipped when the work stack is full; the assertion before that
        guard shows that it never is. */
    method KillDirectChildren(currentParent: int, work: array<int>, top0: nat, ghost t: Table, ghost root: int,
                              ghost done: set<int>, ghost found0: set<nat>)
      returns (top: nat, ghost found: set<nat>)
      requires Valid() && work.Length == MAX_PROCESSES && top0 <= MAX_PROCESSES
      requires Identified(t, nextPid) && currentParent in done
      requires Traversal(t, root, work[..top0], done, found0) && Marked(t, currentPid, table[..], found0)
      requires Closed(t, done - {currentParent}, found0)
      requires forall j: nat :: j < MAX_PROCESSES && j in found0 ==> t[j].parentPid != currentParent
      modifies table, work
      ensures Valid() && top <= MAX_PROCESSES
      ensures Traversal(t, root, work[..top], done, found) && Marked(t, currentPid, table[..], found)
      ensures Closed(t, done, found)
    {
      hide Traversal, Identified;
      top, found := top0, found0;
      for i := 0 to MAX_PROCESSES
        invariant top <= MAX_PROCESSES && found0 <= found
        invariant Traversal(t, root, work[..top], done, found)
        invariant Marked(t, currentPid, table[..], found)
        invariant forall j: nat :: j < i && t[j].Live() && t[j].parentPid == currentParent ==> j in found
        invariant forall j: nat :: i <= j < MAX_PROCESSES && j in found ==> t[j].parentPid != currentParent
      {
        if table[i].state != Free && table[i].parentPid == currentParent {
          PushStep(t, nextPid, root, work[..top], done, found, i);
          ghost var pushed := work[..top] + [t[i].pid];
          var childPid := table[i].pid;
          assert top < MAX_PROCESSES;
          if top < MAX_PROCESSES {
            work[top] := childPid;
            top := top + 1;
          }
          assert work[..top] == pushed;
          if i != currentPid {
            table[i] := table[i].(hasStack := false);
            table[i] := table[i].(state := Free, pid := 0);
          }
          found := found + {i};
        }
      }
    }

    /** kill_children: iterative kill of a subtree with a fixed work stack of
        MAX_PROCESSES entries. */
    method KillChildren(root: int)
      requires Valid() && root >= 0
      requires Identified(table[..], nextPid)
      modifies table
      ensures Valid() && table[..] == KillDescendants(old(table[..]), currentPid, root)
    {
      hide Descends;
      ghost var t: Table := table[..];
      var work := new int[MAX_PROCESSES];
      var top := 0;
      work[top] := root;
      top := top + 1;
      ghost var done: set<int>, found: set<nat> := {}, {};
      assert work[..top] == [root];

      while top > 0
        invariant 0 <= top <= MAX_PROCESSES
        invariant fresh(work) && work.Length == MAX_PROCESSES
        invariant Traversal(t, root, work[..top], done, found)
        invariant Marked(t, currentPid, table[..], found)
        invariant Closed(t, done, found)
        decreases MAX_PROCESSES + 1 - |done|
      {
        ghost var stack := work[..top];
        PopStep(t, root, stack, done, found);
        top := top - 1;
        var currentParent := work[top];
        assert currentParent == stack[top] && currentParent in stack;
        assert done + {currentParent} - {currentParent} == done;
        done := done + {currentParent};
        assert work[..top] == stack[..top];
        top, found := KillDirectChildren(currentParent, work, top, t, root, done, found);
        FoundBound(found, MAX_PROCESSES);
      }
      assert work[..top] == [];
      TraversalComplete(t, currentPid, root, table[..], done, found);
    }

    /** process_exit: the running process takes its whole subtree with it. */
    method ExitProcess(status: int)
      requires Valid() && Inv(Value())
      modifies `currentPid, `currentProcess, table
      ensures Valid() && Value() == Exit(old(Value()), status)
      ensures Inv(Value())
    {
      ExitKeeps(Value(), status);
      if currentPid < 0 {
        return;
      }
      var slot := currentPid;
      KillChildren(table[slot].pid);
      table[slot] := table[slot].(exitStatus := status, state := Zombie);
      table[slot] := table[slot].(state := Free);
      currentPid := -1;
      currentProcess := -1;
    }

    /** process_kill: -1 leaves everything alone, 0 removes the target and its subtree. */
    method KillProcess(pid: int) returns (r: int)
      requires Valid() && Inv(Value())
      modifies table
      ensures Valid() && Value() == Kill(old(Value()), pid)
      ensures r == if KillTarget(old(Value()), pid) < 0 then -1 else 0
      ensures Inv(Value()) <==> !old(Unreturned(Value(), pid))
    {
      KillKeepsIff(Value(), pid);
      if pid <= 0 {
        return -1;
      }
      var slot := FindProcess(pid);
      if slot < 0 {
        return -1;
      }
      if slot == currentPid {
        return -1;
      }
      KillChildren(pid);
      table[slot] := table[slot].(hasStack := false);
      table[slot] := table[slot].(state := Free, pid := 0);
      return 0;
    }
  }
}
