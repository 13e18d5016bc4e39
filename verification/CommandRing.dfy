/**
 The xHCI command ring (section 4.9.3 of the xHCI specification): 63 command
 slots and a link TRB, with ownership carried by a cycle bit.  The driver side is
 drivers/usb/xhci.c, store by store; the controller is modelled as the specification
 describes it, and may look at the ring between any two stores once the doorbell has
 been rung for the first time.
 */
module CommandRing {

  const SLOTS: nat := 63
  const TRB_TYPE_LINK: nat := 6

  datatype Trb = Trb(param: nat, status: nat, control: nat)
  {
    predicate Cycle() { control % 2 == 1 }
    predicate Toggle() { control / 2 % 2 == 1 }
    function Type(): nat { control / 1024 % 64 }

    /** A command as its issuer means it: bit 0 belongs to the ring. */
    predicate IsCommand() { !Cycle() && Type() != TRB_TYPE_LINK }

    /** `control | (cycle ? 1 : 0)`. */
    function Tagged(cycle: bool): (r: Trb) {
      this.(control := if cycle && control % 2 == 0 then control + 1 else control)
    }

    /** The command inside a tagged TRB. */
    function Untagged(): (r: Trb) {
      this.(control := control - control % 2)
    }
  }

  function LinkTrb(base: nat, cycle: bool): Trb {
    Trb(base, 0, TRB_TYPE_LINK * 1024 + (if cycle then 1 else 0) + 2)
  }

  /** Where the driver stands inside xhci_ring_cmd. */
  datatype Phase =
    | Ready
    | Filled(cmd: Trb)    // param and status of the command stored, control not yet
    | Wrap                // the last command slot published, the link still old
    | LinkFilled          // param and status of the link stored, control not yet
    | Ringing             // everything stored, doorbell not yet rung

  datatype Ring = Ring(
    // memory
    trbs: seq<Trb>, base: nat,
    // driver
    enqueue: nat, cycle: bool, phase: Phase,
    // controller: whether a doorbell started it, next TRB to look at, consumer cycle state
    started: bool, dequeue: nat, ccs: bool,
    // history
    issued: seq<Trb>, consumed: seq<Trb>)

  predicate Wrapping(r: Ring) { r.phase.Wrap? || r.phase.LinkFilled? }

  predicate Shaped(r: Ring) {
    |r.trbs| == SLOTS + 1 && r.enqueue <= SLOTS && (Wrapping(r) <==> r.enqueue == SLOTS)
  }

  /** xhci_setup_rings: indices and cycle states; the page is whatever was allocated. */
  predicate SetUp(r: Ring) {
    && |r.trbs| == SLOTS + 1
    && r.enqueue == 0 && r.cycle && r.phase.Ready? && !r.started && r.dequeue == 0 && r.ccs
    && r.issued == [] && r.consumed == []
  }

  // -------------------------------------------------------------------- steps

  datatype Step =
    | WriteBody(cmd: Trb) | WriteControl(cmd: Trb) | WriteLinkBody | WriteLinkControl | Doorbell
    | Look

  predicate Enabled(r: Ring, s: Step) {
    match s
    case WriteBody(_) => r.phase.Ready?
    case WriteControl(cmd) => r.phase == Filled(cmd)
    case WriteLinkBody => r.phase.Wrap?
    case WriteLinkControl => r.phase.LinkFilled?
    case Doorbell => r.phase.Ringing?
    case Look => true
  }

  function Apply(r: Ring, s: Step): (r': Ring)
    requires Shaped(r) && Enabled(r, s)
    ensures Shaped(r')
  {
    match s
    case WriteBody(cmd) =>
      r.(trbs := r.trbs[r.enqueue := r.trbs[r.enqueue].(param := cmd.param, status := cmd.status)],
         phase := Filled(cmd))
    case WriteControl(cmd) =>
      r.(trbs := r.trbs[r.enqueue := r.trbs[r.enqueue].(control := cmd.Tagged(r.cycle).control)],
         issued := r.issued + [cmd], enqueue := r.enqueue + 1,
         phase := if r.enqueue + 1 >= SLOTS then Wrap else Ringing)
    case WriteLinkBody =>
      r.(trbs := r.trbs[SLOTS := r.trbs[SLOTS].(param := r.base, status := 0)], phase := LinkFilled)
    case WriteLinkControl =>
      r.(trbs := r.trbs[SLOTS := r.trbs[SLOTS].(control := LinkTrb(r.base, r.cycle).control)],
         enqueue := 0, cycle := !r.cycle, phase := Ringing)
    case Doorbell => r.(started := true, phase := Ready)
    case Look => Fetch(r)
  }

  /** One look of the controller at its dequeue pointer: nothing to do, follow a
      link, or consume a command.  A link to anywhere but the ring start leads out
      of the ring, and before the first doorbell there is no look. */
  function Fetch(r: Ring): (r': Ring)
    requires Shaped(r)
    ensures Shaped(r')
  {
    if !r.started || r.dequeue > SLOTS || r.trbs[r.dequeue].Cycle() != r.ccs then r
    else
      var t := r.trbs[r.dequeue];
      if t.Type() == TRB_TYPE_LINK
      then r.(dequeue := if t.param == r.base then 0 else SLOTS + 1,
              ccs := if t.Toggle() then !r.ccs else r.ccs)
      else r.(dequeue := r.dequeue + 1, consumed := r.consumed + [t.Untagged()])
  }

  /** Storing a command and making it visible. */
  function Publish(r: Ring, cmd: Trb): (r': Ring)
    requires Shaped(r) && r.phase.Ready?
    ensures Shaped(r')
  {
    Apply(Apply(r, WriteBody(cmd)), WriteControl(cmd))
  }

  /** xhci_ring_cmd as a whole, when the controller does not look in between. */
  function Enqueue(r: Ring, cmd: Trb): (r': Ring)
    requires Shaped(r) && r.phase.Ready?
    ensures Shaped(r') && r'.phase.Ready?
  {
    var trbs := r.trbs[r.enqueue := cmd.Tagged(r.cycle)];
    var r1 := r.(issued := r.issued + [cmd], started := true);
    if r.enqueue + 1 >= SLOTS
    then r1.(trbs := trbs[SLOTS := LinkTrb(r.base, r.cycle)], enqueue := 0, cycle := !r.cycle)
    else r1.(trbs := trbs, enqueue := r.enqueue + 1)
  }

  /** The single stores of a call, one after the other. */
  function Stores(r: Ring, cmd: Trb): (r': Ring)
    requires Shaped(r) && r.phase.Ready?
  {
    var r2 := Publish(r, cmd);
    var r3 := if r2.phase.Wrap? then Apply(Apply(r2, WriteLinkBody), WriteLinkControl) else r2;
    Apply(r3, Doorbell)
  }

  lemma StoresAreEnqueue(r: Ring, cmd: Trb)
    requires Shaped(r) && r.phase.Ready?
    ensures Stores(r, cmd) == Enqueue(r, cmd)
  {
    assert Stores(r, cmd).trbs == Enqueue(r, cmd).trbs;
  }

  // ----------------------------------------------------------------- invariant

  /** The cycle bit of pass k of the ring: 1, 0, 1, ... */
  predicate PassCycle(n: nat) { n / SLOTS % 2 == 0 }

  predicate AtLink(r: Ring) { r.dequeue == SLOTS }

  function Pending(r: Ring): int { |r.issued| - |r.consumed| }

  /** When a call is safe.  Two commands short of a full ring always is; with one
      more it depends on whether the controller has already followed the link. */
  predicate Safe(r: Ring) {
    Pending(r) <= SLOTS - 2 || (Pending(r) == SLOTS - 1 && !AtLink(r))
  }

  predicate Driver(r: Ring) {
    && Shaped(r)
    && (if Wrapping(r)
        then |r.issued| > 0 && |r.issued| % SLOTS == 0 && r.cycle == !PassCycle(|r.issued|)
        else r.enqueue == |r.issued| % SLOTS && r.cycle == PassCycle(|r.issued|))
    && (forall i :: 0 <= i < |r.issued| ==> r.issued[i].IsCommand())
    && (r.phase.Filled? ==>
          && r.phase.cmd.IsCommand() && Safe(r)
          && r.trbs[r.enqueue].param == r.phase.cmd.param && r.trbs[r.enqueue].status == r.phase.cmd.status)
    && (r.phase.LinkFilled? ==> r.trbs[SLOTS].param == r.base && r.trbs[SLOTS].status == 0)
  }

  /** The controller runs from the first doorbell on. */
  predicate Begun(r: Ring) {
    if r.started then |r.issued| > 0
    else |r.consumed| == 0 && r.dequeue == 0 && |r.issued| == if r.phase.Ringing? then 1 else 0
  }

  predicate Controller(r: Ring) {
    if AtLink(r)
    then |r.consumed| % SLOTS == 0 && |r.consumed| > 0 && r.ccs == !PassCycle(|r.consumed|)
    else r.dequeue == |r.consumed| % SLOTS && r.ccs == PassCycle(|r.consumed|)
  }

  /** Slots ahead of the driver carry the opposite cycle of their next pass.  The very
      first slot need not: it is written before the controller is started. */
  predicate Stale(r: Ring)
    requires Shaped(r)
  {
    forall j: nat :: |r.issued| <= j < |r.issued| + SLOTS && j > 0 ==> r.trbs[j % SLOTS].Cycle() != PassCycle(j)
  }

  /** Slots between controller and driver hold the pending commands. */
  predicate Stored(r: Ring)
    requires Shaped(r)
  {
    forall k: nat :: |r.consumed| <= k < |r.issued| ==> r.trbs[k % SLOTS] == r.issued[k].Tagged(PassCycle(k))
  }

  /** What the link slot may hold before the driver first writes it: nothing to see, or
      already the link it is going to be. */
  predicate LinkOk(t: Trb, base: nat) {
    t.Cycle() ==> t.Type() == TRB_TYPE_LINK && t.param == base && t.Toggle()
  }

  /** How often the link has been written. */
  function LinksWritten(r: Ring): int {
    |r.issued| / SLOTS - if Wrapping(r) then 1 else 0
  }

  predicate Linked(r: Ring)
    requires Shaped(r)
  {
    var w := LinksWritten(r);
    if w <= 0 then LinkOk(r.trbs[SLOTS], r.base)
    else r.trbs[SLOTS] == LinkTrb(r.base, w % 2 == 1)
  }

  /** The driver has not lapped the controller, counting the link. */
  predicate Roomy(r: Ring) {
    0 <= Pending(r) <= if AtLink(r) then SLOTS - 1 else SLOTS
  }

  predicate Inv(r: Ring) {
    && Driver(r) && Begun(r) && Controller(r) && Stale(r) && Stored(r) && Linked(r) && Roomy(r)
    && r.consumed <= r.issued
  }

  // ------------------------------------------------------- pass arithmetic

  lemma SlotStep(n: nat)
    ensures n % SLOTS + 1 < SLOTS ==> (n + 1) % SLOTS == n % SLOTS + 1 && PassCycle(n + 1) == PassCycle(n)
    ensures n % SLOTS + 1 == SLOTS ==> (n + 1) % SLOTS == 0 && PassCycle(n + 1) == !PassCycle(n)
  {
    assert n == n / SLOTS * SLOTS + n % SLOTS;
    if n % SLOTS + 1 < SLOTS {
      assert (n + 1) / SLOTS == n / SLOTS;
    } else {
      assert (n + 1) / SLOTS == n / SLOTS + 1;
    }
  }

  lemma NextPass(n: nat)
    ensures (n + SLOTS) % SLOTS == n % SLOTS
    ensures PassCycle(n + SLOTS) == !PassCycle(n)
  {
    assert (n + SLOTS) / SLOTS == n / SLOTS + 1;
  }

  lemma SlotsDiffer(j: nat, k: nat)
    requires j < k < j + SLOTS
    ensures j % SLOTS != k % SLOTS
  {
  }

  /** Within one pass of a pass boundary the cycle does not change. */
  lemma SamePass(c: nat, p: nat)
    requires c % SLOTS == 0 && c <= p < c + SLOTS
    ensures PassCycle(p) == PassCycle(c)
  {
    assert p / SLOTS == c / SLOTS;
  }

  lemma TagRoundTrip(cmd: Trb, cycle: bool)
    requires cmd.IsCommand()
    ensures cmd.Tagged(cycle).Cycle() == cycle
    ensures cmd.Tagged(cycle).Untagged() == cmd
    ensures cmd.Tagged(cycle).Type() != TRB_TYPE_LINK
  {
    assert (cmd.control + 1) / 1024 == cmd.control / 1024;
  }

  lemma LinkShape(base: nat, cycle: bool)
    ensures var t := LinkTrb(base, cycle);
            t.Type() == TRB_TYPE_LINK && t.Toggle() && t.Cycle() == cycle && t.param == base
  {
  }

  // ------------------------------------------------------------- preservation

  /** A page the driver can start from: no cycle bit in slots 1 to 62, and nothing in the
      link slot that a controller could mistake. */
  predicate Benign(r: Ring) {
    && |r.trbs| == SLOTS + 1
    && (forall i :: 1 <= i < SLOTS ==> !r.trbs[i].Cycle())
    && LinkOk(r.trbs[SLOTS], r.base)
  }

  /** A ring just set up is in step with its controller exactly when its page is benign. */
  lemma SetUpIff(r: Ring)
    requires SetUp(r)
    ensures Inv(r) <==> Benign(r)
  {
    forall j: nat | j < SLOTS
      ensures PassCycle(j) && j % SLOTS == j
    {
    }
    if Inv(r) {
      forall i: nat | 1 <= i < SLOTS
        ensures !r.trbs[i].Cycle()
      {
        assert r.trbs[i % SLOTS].Cycle() != PassCycle(i);
      }
    }
  }

  lemma WriteBodyInv(r: Ring, cmd: Trb)
    requires Inv(r) && r.phase.Ready? && cmd.IsCommand() && Safe(r)
    ensures Inv(Apply(r, WriteBody(cmd)))
  {
    var p := |r.issued|;
    var r' := Apply(r, WriteBody(cmd));
    forall k: nat | |r.consumed| <= k < p
      ensures r'.trbs[k % SLOTS] == r.trbs[k % SLOTS]
    {
      SlotsDiffer(k, p);
    }
  }

  lemma WriteControlStale(r: Ring)
    requires Inv(r) && r.phase.Filled?
    ensures Stale(Apply(r, WriteControl(r.phase.cmd)))
  {
    var p := |r.issued|;
    var r' := Apply(r, WriteControl(r.phase.cmd));
    TagRoundTrip(r.phase.cmd, r.cycle);
    NextPass(p);
    forall j: nat | p + 1 <= j < p + 1 + SLOTS
      ensures r'.trbs[j % SLOTS].Cycle() != PassCycle(j)
    {
      if j < p + SLOTS {
        SlotsDiffer(p, j);
        assert r'.trbs[j % SLOTS] == r.trbs[j % SLOTS];
      }
    }
  }

  lemma WriteControlStored(r: Ring)
    requires Inv(r) && r.phase.Filled?
    ensures Stored(Apply(r, WriteControl(r.phase.cmd)))
  {
    var p := |r.issued|;
    var r' := Apply(r, WriteControl(r.phase.cmd));
    forall k: nat | |r.consumed| <= k < p
      ensures r'.trbs[k % SLOTS] == r.trbs[k % SLOTS]
    {
      SlotsDiffer(k, p);
    }
    assert r'.trbs[p % SLOTS] == r.phase.cmd.Tagged(PassCycle(p));
  }

  lemma WriteControlInv(r: Ring)
    requires Inv(r) && r.phase.Filled?
    ensures Inv(Apply(r, WriteControl(r.phase.cmd)))
  {
    WriteControlStale(r);
    WriteControlStored(r);
    hide Stale, Stored;
    SlotStep(|r.issued|);
    assert (|r.issued| + 1) / SLOTS == |r.issued| / SLOTS + if |r.issued| % SLOTS + 1 == SLOTS then 1 else 0;
  }

  lemma WriteLinkInv(r: Ring)
    requires Inv(r) && Wrapping(r)
    ensures Inv(Apply(r, if r.phase.Wrap? then WriteLinkBody else WriteLinkControl))
  {
    var r' := Apply(r, if r.phase.Wrap? then WriteLinkBody else WriteLinkControl);
    assert forall i :: 0 <= i < SLOTS ==> r'.trbs[i] == r.trbs[i];
    if r.phase.LinkFilled? {
      assert r.cycle == (|r.issued| / SLOTS % 2 == 1);
      assert r'.trbs[SLOTS] == LinkTrb(r.base, r.cycle);
    }
  }

  /** At the link the controller follows it if it is the one of this pass; while that is
      still to be written, it waits or finds the same link already there. */
  lemma FetchAtLink(r: Ring)
    requires Inv(r) && AtLink(r)
    ensures var r' := Fetch(r);
            r' == r || r' == r.(dequeue := 0, ccs := !r.ccs)
    ensures if Wrapping(r) then Pending(r) == 0 else Fetch(r).dequeue == 0
  {
    hide Stale, Stored;
    var c, p := |r.consumed|, |r.issued|;
    assert c == c / SLOTS * SLOTS && p / SLOTS == c / SLOTS by {
      assert p == c / SLOTS * SLOTS + (p - c);
    }
    var w := c / SLOTS;
    assert r.ccs == (w % 2 == 1);
    if !Wrapping(r) {
      LinkShape(r.base, w % 2 == 1);
    } else {
      LinkShape(r.base, (w - 1) % 2 == 1);
    }
  }

  /** Away from the link it consumes the oldest pending command, or waits. */
  lemma FetchCommand(r: Ring)
    requires Inv(r) && !AtLink(r)
    ensures Fetch(r) ==
              if r.started && Pending(r) > 0
              then r.(dequeue := r.dequeue + 1, consumed := r.consumed + [r.issued[|r.consumed|]])
              else r
  {
    var c := |r.consumed|;
    if r.started && Pending(r) > 0 {
      TagRoundTrip(r.issued[c], r.ccs);
      assert r.trbs[r.dequeue] == r.issued[c].Tagged(r.ccs);
    } else if r.started {
      assert r.trbs[c % SLOTS].Cycle() != PassCycle(c);
    }
  }

  /** Nothing the controller does changes what the driver left in memory. */
  lemma ControllerMoves(r: Ring, dequeue: nat, ccs: bool, consumed: seq<Trb>)
    requires Inv(r) && r.consumed <= consumed
    ensures var r' := r.(dequeue := dequeue, ccs := ccs, consumed := consumed);
            Stale(r') && Stored(r') && Linked(r')
  {
  }

  /** What the controller sees: the oldest pending command, the link as soon as it is
      written, or nothing. */
  lemma FetchInv(r: Ring)
    requires Inv(r)
    ensures Inv(Fetch(r)) && Fetch(r).issued == r.issued
    ensures AtLink(r) ==> Fetch(r).consumed == r.consumed
    ensures AtLink(r) ==> if Wrapping(r) then Pending(r) == 0 else Fetch(r).dequeue == 0
    ensures r.started && !AtLink(r) && Pending(r) > 0 ==>
              Fetch(r).consumed == r.consumed + [r.issued[|r.consumed|]] && Fetch(r).dequeue == r.dequeue + 1
    ensures !AtLink(r) && Pending(r) == 0 ==> Fetch(r) == r
  {
    if AtLink(r) {
      FetchAtLink(r);
    } else {
      FetchCommand(r);
    }
    var r' := Fetch(r);
    hide Fetch, Stale, Stored, Linked;
    ControllerMoves(r, r'.dequeue, r'.ccs, r'.consumed);
    SlotStep(|r.consumed|);
  }

  // ------------------------------------------------------------- whole calls

  /** A safe call keeps ring, link and controller in step. */
  lemma EnqueueInv(r: Ring, cmd: Trb)
    requires Inv(r) && r.phase.Ready? && cmd.IsCommand() && Safe(r)
    ensures Inv(Enqueue(r, cmd))
  {
    hide Begun, Controller, Stale, Stored, Linked, Roomy;
    StoresAreEnqueue(r, cmd);
    WriteBodyInv(r, cmd);
    WriteControlInv(Apply(r, WriteBody(cmd)));
    var r2 := Publish(r, cmd);
    if r2.phase.Wrap? {
      WriteLinkInv(r2);
      WriteLinkInv(Apply(r2, WriteLinkBody));
      DoorbellInv(Apply(Apply(r2, WriteLinkBody), WriteLinkControl));
    } else {
      DoorbellInv(r2);
    }
  }

  lemma DoorbellInv(r: Ring)
    requires Inv(r) && r.phase.Ringing?
    ensures Inv(Apply(r, Doorbell))
  {
  }

  /** The controller is waiting for a TRB although commands are pending, and goes on
      waiting until the driver writes again. */
  predicate Stuck(r: Ring) {
    Shaped(r) && r.started && Fetch(r) == r && Pending(r) > 0
  }

  /** The condition is exact: a call that is not safe leaves the controller waiting
      in front of a whole ring of pending commands. */
  lemma UnsafeEnqueueSticks(r: Ring, cmd: Trb)
    requires Inv(r) && r.phase.Ready? && cmd.IsCommand() && !Safe(r)
    ensures Stuck(Enqueue(r, cmd))
  {
    var c, p := |r.consumed|, |r.issued|;
    var r' := Enqueue(r, cmd);
    TagRoundTrip(cmd, r.cycle);
    LinkShape(r.base, r.cycle);
    SlotStep(p);
    if AtLink(r) {
      assert p == c + SLOTS - 1;
      SamePass(c, p);
      assert p % SLOTS == SLOTS - 1;
      assert r'.trbs[SLOTS].Cycle() == r.cycle == PassCycle(c) != r.ccs;
    } else {
      assert p == c + SLOTS;
      NextPass(c);
      assert r'.trbs[r.dequeue] == cmd.Tagged(r.cycle);
    }
  }

  // --------------------------------------------------------------------- runs

  /** Each command is well-formed and at most 61 are unconsumed when its call begins. */
  predicate Allowed(r: Ring, s: Step) {
    Enabled(r, s) && (s.WriteBody? ==> s.cmd.IsCommand() && Pending(r) <= 61)
  }

  predicate Run(states: seq<Ring>, steps: seq<Step>) {
    && |states| == |steps| + 1
    && forall n :: 0 <= n < |steps| ==>
         Shaped(states[n]) && Allowed(states[n], steps[n]) && states[n + 1] == Apply(states[n], steps[n])
  }

  /** The commands published so far. */
  function Issued(steps: seq<Step>, n: nat): seq<Trb>
    requires n <= |steps|
  {
    if n == 0 then []
    else if steps[n - 1].WriteControl? then Issued(steps, n - 1) + [steps[n - 1].cmd]
    else Issued(steps, n - 1)
  }

  lemma StepInv(r: Ring, s: Step)
    requires Inv(r) && Allowed(r, s)
    ensures Inv(Apply(r, s))
  {
    hide Inv;
    match s
    case WriteBody(cmd) => WriteBodyInv(r, cmd);
    case WriteControl(_) => WriteControlInv(r);
    case WriteLinkBody => WriteLinkInv(r);
    case WriteLinkControl => WriteLinkInv(r);
    case Doorbell => DoorbellInv(r);
    case Look => FetchInv(r);
  }

  /** A run, driver stores and controller looks in any order, keeps the invariant. */
  lemma {:induction false} RunInv(states: seq<Ring>, steps: seq<Step>, n: nat)
    requires Run(states, steps) && Inv(states[0]) && n < |states|
    ensures Inv(states[n])
  {
    hide Inv;
    if n > 0 {
      RunInv(states, steps, n - 1);
      StepInv(states[n - 1], steps[n - 1]);
    }
  }

  lemma {:induction false} RunIssued(states: seq<Ring>, steps: seq<Step>, n: nat)
    requires Run(states, steps) && states[0].issued == [] && n < |states|
    ensures states[n].issued == Issued(steps, n)
  {
    if n > 0 {
      RunIssued(states, steps, n - 1);
    }
  }

  /** The controller has consumed a prefix of what was issued, and once it is started two
      more looks consume the next command. */
  predicate InOrder(r: Ring, issued: seq<Trb>) {
    && r.consumed <= issued
    && (r.started && Pending(r) > 0 ==>
          Shaped(r) &&
          var r' := Fetch(Fetch(r));
          |r'.consumed| > |r.consumed| && r'.consumed <= issued)
  }

  /** The ring is a FIFO across any number of wraps. */
  lemma RefinesFifo(states: seq<Ring>, steps: seq<Step>, n: nat)
    requires Run(states, steps) && SetUp(states[0]) && Benign(states[0]) && n < |states|
    ensures InOrder(states[n], Issued(steps, n))
  {
    SetUpIff(states[0]);
    RunInv(states, steps, n);
    RunIssued(states, steps, n);
    InvInOrder(states[n]);
  }

  lemma InvInOrder(r: Ring)
    requires Inv(r)
    ensures InOrder(r, r.issued)
  {
    hide Controller, Stale, Stored, Linked, Fetch;
    FetchInv(r);
    FetchInv(Fetch(r));
    FetchFrame(r);
  }

  lemma FetchFrame(r: Ring)
    requires Shaped(r)
    ensures var r' := Fetch(r); r'.started == r.started && r'.phase == r.phase && r.consumed <= r'.consumed
  {
  }

  // --------------------------------------------------- the bound cannot be raised

  function Pump(r: Ring, cmd: Trb, n: nat): (r': Ring)
    requires Shaped(r) && r.phase.Ready?
    ensures Shaped(r') && r'.phase.Ready?
  {
    if n == 0 then r else Fetch(Enqueue(Pump(r, cmd, n - 1), cmd))
  }

  function Fill(r: Ring, cmd: Trb, n: nat): (r': Ring)
    requires Shaped(r) && r.phase.Ready?
    ensures Shaped(r') && r'.phase.Ready?
  {
    if n == 0 then r else Enqueue(Fill(r, cmd, n - 1), cmd)
  }

  lemma {:induction false} PumpReaches(r: Ring, cmd: Trb, n: nat)
    requires SetUp(r) && Benign(r) && cmd.IsCommand() && n <= SLOTS
    ensures var r' := Pump(r, cmd, n);
            Inv(r') && Pending(r') == 0 && r'.dequeue == |r'.consumed| == n
  {
    hide Driver, Controller, Stale, Stored, Linked, Fetch;
    if n == 0 {
      SetUpIff(r);
    } else {
      PumpReaches(r, cmd, n - 1);
      EnqueueInv(Pump(r, cmd, n - 1), cmd);
      FetchInv(Enqueue(Pump(r, cmd, n - 1), cmd));
    }
  }

  lemma {:induction false} FillReaches(r: Ring, cmd: Trb, n: nat)
    requires Inv(r) && r.phase.Ready? && AtLink(r) && Pending(r) == 0 && cmd.IsCommand() && n <= SLOTS - 1
    ensures var r' := Fill(r, cmd, n);
            Inv(r') && AtLink(r') && Pending(r') == n
  {
    hide Stale, Stored, Linked;
    if n > 0 {
      FillReaches(r, cmd, n - 1);
      EnqueueInv(Fill(r, cmd, n - 1), cmd);
    }
  }

  /** From set-up: send and consume 63 commands one at a time, then send 62 more
      before the controller looks again.  The ring is still sound, but a 63rd
      command overwrites the link the controller is about to follow. */
  lemma SixtyTwoUnconsumedIsTooMany(r: Ring, cmd: Trb)
    requires SetUp(r) && Benign(r) && cmd.IsCommand()
    ensures var full := Fill(Pump(r, cmd, SLOTS), cmd, SLOTS - 1);
            Inv(full) && Pending(full) == 62 && Stuck(Enqueue(full, cmd))
  {
    PumpReaches(r, cmd, SLOTS);
    FillReaches(Pump(r, cmd, SLOTS), cmd, SLOTS - 1);
    UnsafeEnqueueSticks(Fill(Pump(r, cmd, SLOTS), cmd, SLOTS - 1), cmd);
  }

  // -------------------------------------------------------- a page not cleared

  /** A state after `n` commands of the first pass have been issued and consumed. */
  predicate Pumped(r: Ring, x: Ring, cmd: Trb, n: nat)
    requires |r.trbs| == SLOTS + 1
  {
    && Shaped(x) && |x.issued| == |x.consumed| == x.enqueue == x.dequeue == n && x.cycle && x.ccs
    && x.phase.Ready? && (n > 0 ==> x.started && x.trbs[0] == cmd.Tagged(true))
    && x.base == r.base && (forall i :: n <= i <= SLOTS ==> x.trbs[i] == r.trbs[i])
  }

  /** Pumping commands through a ring just set up, whatever its page holds: each is
      consumed, and the rest of the page is untouched. */
  lemma {:induction false} PumpUntilStale(r: Ring, cmd: Trb, n: nat)
    requires SetUp(r) && cmd.IsCommand() && n < SLOTS
    ensures Pumped(r, Pump(r, cmd, n), cmd, n)
  {
    if n > 0 {
      PumpUntilStale(r, cmd, n - 1);
      TagRoundTrip(cmd, true);
    }
  }

  /** A stale cycle bit in any command slot after the first makes the controller consume
      a command that nobody issued, as soon as it gets there. */
  lemma StaleBitIsConsumed(r: Ring, cmd: Trb, n: nat)
    requires SetUp(r) && cmd.IsCommand()
    requires 1 <= n < SLOTS && r.trbs[n].Cycle() && r.trbs[n].Type() != TRB_TYPE_LINK
    ensures var r' := Fetch(Pump(r, cmd, n));
            |r'.consumed| == |r'.issued| + 1 && !(r'.consumed <= r'.issued)
  {
    PumpUntilStale(r, cmd, n);
  }

  /** So does one in the link slot, when the controller looks between the store of the
      63rd command and the store of the link. */
  lemma StaleLinkIsConsumed(r: Ring, cmd: Trb)
    requires SetUp(r) && cmd.IsCommand()
    requires r.trbs[SLOTS].Cycle() && r.trbs[SLOTS].Type() != TRB_TYPE_LINK
    ensures var x := Pump(r, cmd, SLOTS - 1);
            var r' := Fetch(Fetch(Publish(x, cmd)));
            |r'.consumed| == |r'.issued| + 1 && !(r'.consumed <= r'.issued)
  {
    PumpUntilStale(r, cmd, SLOTS - 1);
    TagRoundTrip(cmd, true);
  }

  /** Every run from here stays in order. */
  ghost predicate AlwaysInOrder(r: Ring) {
    forall states, steps, n ::
      Run(states, steps) && states[0] == r && 0 <= n < |states| ==> InOrder(states[n], Issued(steps, n))
  }

  /** Some run leads from `r` to `x`. */
  ghost predicate Reached(r: Ring, x: Ring) {
    exists states, steps :: Run(states, steps) && states[0] == r && states[|steps|] == x
  }

  lemma Start(r: Ring)
    ensures Reached(r, r)
  {
    assert Run([r], []);
  }

  lemma Extend(r: Ring, x: Ring, s: Step)
    requires Reached(r, x) && Shaped(x) && Allowed(x, s)
    ensures Reached(r, Apply(x, s))
  {
    hide Apply, Enabled;
    var states, steps :| Run(states, steps) && states[0] == r && states[|steps|] == x;
    assert Run(states + [Apply(x, s)], steps + [s]);
  }

  lemma OutOfOrder(r: Ring, x: Ring)
    requires SetUp(r) && Reached(r, x) && !InOrder(x, x.issued)
    ensures !AlwaysInOrder(r)
  {
    var states, steps :| Run(states, steps) && states[0] == r && states[|steps|] == x;
    RunIssued(states, steps, |steps|);
    assert !InOrder(states[|steps|], Issued(steps, |steps|));
  }

  /** Publishing a command is two steps of a run. */
  lemma Published(r: Ring, x: Ring, cmd: Trb)
    requires Reached(r, x) && Shaped(x) && x.phase.Ready? && cmd.IsCommand() && Pending(x) <= 61
    ensures Reached(r, Publish(x, cmd))
  {
    hide Reached;
    Extend(r, x, WriteBody(cmd));
    Extend(r, Apply(x, WriteBody(cmd)), WriteControl(cmd));
  }

  lemma Finished(r: Ring, x: Ring)
    requires Reached(r, x) && Shaped(x) && x.phase.Wrap?
    ensures Reached(r, Apply(Apply(Apply(x, WriteLinkBody), WriteLinkControl), Doorbell))
  {
    hide Reached;
    Extend(r, x, WriteLinkBody);
    Extend(r, Apply(x, WriteLinkBody), WriteLinkControl);
    Extend(r, Apply(Apply(x, WriteLinkBody), WriteLinkControl), Doorbell);
  }

  lemma {:induction false} PumpRun(r: Ring, cmd: Trb, n: nat)
    requires SetUp(r) && cmd.IsCommand() && n < SLOTS
    ensures Reached(r, Pump(r, cmd, n))
  {
    hide Reached, Fetch, Publish, Apply, Enqueue;
    if n == 0 {
      Start(r);
    } else {
      PumpRun(r, cmd, n - 1);
      var x := Pump(r, cmd, n - 1);
      PumpUntilStale(r, cmd, n - 1);
      Published(r, x, cmd);
      RungBell(x, cmd);
      Extend(r, Publish(x, cmd), Doorbell);
      LookIsFetch(Enqueue(x, cmd));
      Extend(r, Enqueue(x, cmd), Look);
    }
  }

  lemma RungBell(x: Ring, cmd: Trb)
    requires Shaped(x) && x.phase.Ready? && x.enqueue + 1 < SLOTS
    ensures var y := Publish(x, cmd);
            y.phase.Ringing? && Apply(y, Doorbell) == Enqueue(x, cmd)
  {
    StoresAreEnqueue(x, cmd);
  }

  lemma LookIsFetch(x: Ring)
    requires Shaped(x)
    ensures Apply(x, Look) == Fetch(x)
  {
  }

  const NoOp := Trb(0, 0, 0)

  /** A link followed out of the ring, or with the wrong cycle state afterwards, leaves
      the controller deaf to the next command. */
  predicate Deaf(x: Ring) {
    && Shaped(x) && x.phase.Ready? && x.started && Pending(x) == 0
    && (x.dequeue == SLOTS + 1 || (x.dequeue == 0 < x.enqueue && x.trbs[0].Cycle() != x.ccs))
  }

  lemma DeafBreaks(r: Ring, x: Ring)
    requires SetUp(r) && Reached(r, x) && Deaf(x)
    ensures !AlwaysInOrder(r)
  {
    hide Reached, AlwaysInOrder;
    Published(r, x, NoOp);
    var y := Publish(x, NoOp);
    assert Pending(y) == 1 && Fetch(y) == y;
    OutOfOrder(r, y);
  }

  /** Any stale bit after slot 0 breaks the order in some run: the controller consumes what
      nobody issued, consumes a command twice, or waits for commands that are there. */
  lemma StaleBitBreaks(r: Ring, n: nat)
    requires SetUp(r) && 1 <= n < SLOTS && r.trbs[n].Cycle()
    ensures !AlwaysInOrder(r)
  {
    hide Pump, Reached, Enqueue, AlwaysInOrder;
    PumpRun(r, NoOp, n);
    var x := Pump(r, NoOp, n);
    PumpUntilStale(r, NoOp, n);
    TagRoundTrip(NoOp, true);
    Extend(r, x, Look);
    if r.trbs[n].Type() != TRB_TYPE_LINK {
      OutOfOrder(r, Fetch(x));
    } else if r.trbs[n].param == r.base && !r.trbs[n].Toggle() {
      Extend(r, Fetch(x), Look);
      OutOfOrder(r, Fetch(Fetch(x)));
    } else {
      DeafBreaks(r, Fetch(x));
    }
  }

  /** The controller right in front of the old link, with the 63rd command consumed. */
  lemma AtOldLink(r: Ring) returns (x: Ring)
    requires SetUp(r)
    ensures Reached(r, x) && Shaped(x) && x.phase.Wrap? && x.started && AtLink(x) && x.ccs && x.cycle
    ensures |x.issued| == |x.consumed| == SLOTS && x.base == r.base
    ensures x.trbs[SLOTS] == r.trbs[SLOTS] && x.trbs[0] == NoOp.Tagged(true)
  {
    hide Pump, Reached, Enqueue;
    PumpRun(r, NoOp, SLOTS - 1);
    var y := Pump(r, NoOp, SLOTS - 1);
    PumpUntilStale(r, NoOp, SLOTS - 1);
    TagRoundTrip(NoOp, true);
    Published(r, y, NoOp);
    x := Publish(y, NoOp);
    Extend(r, x, Look);
    x := Fetch(x);
  }

  /** Any other TRB with a cycle bit in the link slot breaks the order too. */
  lemma StaleLinkBreaks(r: Ring)
    requires SetUp(r) && !LinkOk(r.trbs[SLOTS], r.base)
    ensures !AlwaysInOrder(r)
  {
    hide Reached, AlwaysInOrder;
    var x := AtOldLink(r);
    TagRoundTrip(NoOp, true);
    Extend(r, x, Look);
    var y := Fetch(x);
    if r.trbs[SLOTS].Type() != TRB_TYPE_LINK {
      OutOfOrder(r, y);
    } else if r.trbs[SLOTS].param == r.base {
      Extend(r, y, Look);
      OutOfOrder(r, Fetch(y));
    } else {
      Finished(r, y);
      DeafBreaks(r, Apply(Apply(Apply(y, WriteLinkBody), WriteLinkControl), Doorbell));
    }
  }

  /** The exact condition on the allocated page: from set-up, every run is a FIFO if and
      only if the page is benign. */
  lemma FifoIffBenign(r: Ring)
    requires SetUp(r)
    ensures AlwaysInOrder(r) <==> Benign(r)
  {
    if Benign(r) {
      forall states, steps, n | Run(states, steps) && states[0] == r && 0 <= n < |states|
        ensures InOrder(states[n], Issued(steps, n))
      {
        RefinesFifo(states, steps, n);
      }
    } else if n :| 1 <= n < SLOTS && r.trbs[n].Cycle() {
      StaleBitBreaks(r, n);
    } else {
      StaleLinkBreaks(r);
    }
  }

  // ---------------------------------------------------- a control word with bit 0

  function Looks(r: Ring, n: nat): (r': Ring)
    requires Shaped(r)
    ensures Shaped(r')
    decreases n
  {
    if n == 0 then r else Looks(Fetch(r), n - 1)
  }

  /** While older commands or a link are ahead, looking and enqueueing commute. */
  lemma FetchEnqueueCommute(r: Ring, cmd: Trb)
    requires Inv(r) && r.phase.Ready? && Safe(r) && (AtLink(r) || Pending(r) > 0)
    ensures Fetch(Enqueue(r, cmd)) == Enqueue(Fetch(r), cmd)
  {
    hide Stale, Stored, Linked;
    var c, p := |r.consumed|, |r.issued|;
    if AtLink(r) {
      assert p < c + SLOTS - 1;
      assert p % SLOTS != SLOTS - 1 by {
        assert p == c / SLOTS * SLOTS + (p - c);
      }
    } else {
      SlotsDiffer(c, p);
    }
  }

  /** A command whose control word has bit 0 set, issued on an even pass, keeps the bit;
      the controller consumes everything before it and then waits in front of it. */
  lemma {:induction false} OddControlSticks(r: Ring, cmd: Trb) returns (n: nat)
    requires Inv(r) && r.phase.Ready? && Safe(r) && cmd.Cycle() && !r.cycle
    ensures var r' := Looks(Enqueue(r, cmd), n);
            Stuck(r') && r'.consumed == r.issued && r'.issued == r.issued + [cmd]
    decreases Pending(r), AtLink(r)
  {
    if AtLink(r) || Pending(r) > 0 {
      FetchInv(r);
      FetchEnqueueCommute(r, cmd);
      var m := OddControlSticks(Fetch(r), cmd);
      n := m + 1;
    } else {
      n := 0;
    }
  }

  // ------------------------------------------------------------- mutable ring

  class Xhci {
    const cmdRing: array<Trb>
    const cmdRingPhys: nat
    var cmdRingEnqueue: nat
    var cmdRingCycle: bool
    ghost var phase: Phase
    ghost var started: bool
    ghost var dequeue: nat
    ghost var ccs: bool
    ghost var issued: seq<Trb>
    ghost var consumed: seq<Trb>

    ghost function Value(): Ring
      reads this, cmdRing
    {
      Ring(cmdRing[..], cmdRingPhys, cmdRingEnqueue, cmdRingCycle, phase, started, dequeue, ccs,
           issued, consumed)
    }

    /** Takes over an allocated page as it is. */
    constructor (page: array<Trb>, phys: nat)
      requires page.Length == SLOTS + 1
      ensures SetUp(Value()) && cmdRing == page && cmdRingPhys == phys
      ensures Inv(Value()) <==> Benign(Value())
    {
      cmdRing := page;
      cmdRingPhys := phys;
      cmdRingEnqueue, cmdRingCycle, phase := 0, true, Ready;
      started, dequeue, ccs, issued, consumed := false, 0, true, [], [];
      new;
      SetUpIff(Value());
    }

    method RingCommand(param: nat, status: nat, control: nat)
      requires Shaped(Value()) && phase.Ready?
      modifies `cmdRingEnqueue, `cmdRingCycle, `phase, `started, `issued, cmdRing
      ensures Value() == Enqueue(old(Value()), Trb(param, status, control))
      ensures old(Inv(Value()) && Safe(Value())) && Trb(param, status, control).IsCommand() ==> Inv(Value())
    {
      hide Inv, Enqueue, Safe;
      ghost var cmd := Trb(param, status, control);
      if Inv(Value()) && Safe(Value()) && cmd.IsCommand() {
        EnqueueInv(Value(), cmd);
      }
      StoresAreEnqueue(Value(), cmd);
      StoreCommand(param, status, control);
      if cmdRingEnqueue >= SLOTS {
        StoreLink();
      }
      started, phase := true, Ready;
    }

    /** The command TRB, its control word last. */
    method StoreCommand(param: nat, status: nat, control: nat)
      requires Shaped(Value()) && phase.Ready?
      modifies `cmdRingEnqueue, `phase, `issued, cmdRing
      ensures Value() == Publish(old(Value()), Trb(param, status, control))
    {
      ghost var cmd, r := Trb(param, status, control), Value();
      var at := cmdRingEnqueue;
      cmdRing[at] := cmdRing[at].(param := param, status := status);
      cmdRing[at] := cmdRing[at].(control := if cmdRingCycle && control % 2 == 0 then control + 1 else control);
      cmdRingEnqueue := cmdRingEnqueue + 1;
      issued := issued + [cmd];
      phase := if at + 1 >= SLOTS then Wrap else Ringing;
      assert cmdRing[..] == Publish(r, cmd).trbs;
    }

    /** The link TRB, its control word last, and the start of the next pass. */
    method StoreLink()
      requires Shaped(Value()) && phase.Wrap?
      modifies `cmdRingEnqueue, `cmdRingCycle, `phase, cmdRing
      ensures Value() == Apply(Apply(old(Value()), WriteLinkBody), WriteLinkControl)
    {
      ghost var r := Value();
      cmdRing[SLOTS] := cmdRing[SLOTS].(param := cmdRingPhys, status := 0);
      cmdRing[SLOTS] := cmdRing[SLOTS].(control := TRB_TYPE_LINK * 1024 + (if cmdRingCycle then 1 else 0) + 2);
      cmdRingEnqueue := 0;
      cmdRingCycle := !cmdRingCycle;
      phase := Ringing;
      assert cmdRing[..] == Apply(Apply(r, WriteLinkBody), WriteLinkControl).trbs;
    }
  }
}
