# OS8 kernel cores: a Dafny model

OS8 is a hobby kernel. This project models the parts of it whose correctness does
not show in any single function, and proves what holds over all their inputs and runs:

- **Processes** (`ProcessTable`, `ProcessInvariant`, `ProcessEffects`, `ProcessManager`,
  `ProcessFairness`): the 16-slot table with create, start, yield, exit, kill and timer
  preemption; the invariant of all runs; termination and exact effect of the iterative
  subtree kill; what each operation achieves; bounded bypass of the round-robin scheduler.
- **Virtqueues** (`Virtqueue`, `VirtqueueRuns`, `VirtqueueDriver`): driver and device
  interleaved at single ring accesses with 16-bit indices; conservation of descriptors
  and exactly-once, in-order delivery.
- **xHCI command ring** (`CommandRing`): driver and controller interleaved at single
  stores; cycle bits and link TRB refine a FIFO, and the exact bound up to which they do.
- **Partition manager** (`Sector`, `Partitions`, `Mbr`, `PartitionOps`, `PartitionRuns`,
  `BootFixup`, `Installer`, `StorageManager`): layout, transactional commit to sector 0, reload,
  boot fix-up, image writing, install planning, with explicit 32-bit arithmetic.
- **Kernel log and formatter** (`Numerals`, `Formatter`, `Conversions`, `KernelLog`): the
  bounded formatter against an unbounded rendering, what that rendering reads back as,
  and the overwriting log ring against the history of all messages.
- **Internet checksum** (`Checksum`) and **Wi-Fi scan list** (`Wifi`).

Value modules hold datatypes, the effect of each operation as a function, and the laws
about it. The classes `ProcessManager.Manager`, `VirtqueueDriver.Driver`,
`CommandRing.Xhci`, `StorageManager.Manager`, `KernelLog.Log` and `Wifi.Adapter` carry
the in-place form of the code; their methods are proved to have the modelled effect.
What hardware or a backend decides is a parameter: the order of device steps, saved
context words, and which sector reads and writes succeed (`Io`, `refuseAt`).

Assumptions about the surroundings:

- The two atomic halves of `process_create` run in the same context, and runs
  hand `process_start` and `process_kill` only pids that `process_create` has returned
  (for kill this is the exact condition, `KillKeepsIff`).
- A virtio device returns only descriptors it has taken, each once; memory accesses
  are seen in program order. An xHCI controller follows section 4.9.3 of the xHCI
  specification, and a command's type is not Link.
- An xHCI controller does not look at the command ring before the first doorbell
  (section 4.6.1 of the xHCI specification), which the driver rings after its first
  command is stored.
- The page allocated for the command ring has no cycle bit set after slot 0. The source
  does not clear it; `FifoIffBenign` gives the exact condition and shows that the driver
  depends on it.
- `long` is 64 bits wide in the formatter, and arguments match the format.

Where the code does not do what it says, the model follows the code:

- `process_exit` announces that it kills all children. Parents are stored as slot numbers
  and compared with pids, and a pid is always larger than its slot number, so the children
  stored under its slot survive (`OwnChildrenAreSpared`, `OrphanRun`); `ReachLimited`
  gives the reach a kill does have, and `StrangersChildDies` whose children die instead.
- The capacity check of create and update adds 32-bit sizes and accepts a wrapped sum
  (`WrappedCreateIsAccepted`, `FitsIffNoWrap`), and it ignores the first MiB of the disk,
  so a full disk is overrun by exactly 1 MiB (`LayoutTheorem`).
- A size that is a multiple of 2 TiB becomes an entry nobody can see
  (`TwoTiBIsInvisible`); `EditCoherentIff` and `RunCoherentIff` show that among the edits
  only these sizes part memory from sector 0.
- Writing an image that has no partition table leaves the old partitions in memory
  (`BlankImageIsNotReloaded`, exact condition `ImageCoherentIff`).
- Install planning is settled after one call, except where the 32-bit sum of sizes wraps
  (`WrapUnsettles`, `WrapMakesRoom`, exact condition `SecondCallIff`).
- A command ring of 63 slots takes 62 unconsumed commands only if the controller has
  already followed the link (`UnsafeEnqueueSticks`).
- The Wi-Fi list stops merging once it is full, even for names it shows
  (`SeventeenthReportIsLost`), and lists a name of 32 characters once per report
  (`LongNameIsListedTwice`); the exact condition of both is `ScanMergesIff`.

## Model

| member | source | states |
|---|---|---|
| ProcessManager.Manager.KillChildren | kernel/core/process.c:739-775 | terminates on every table that keeps the pid discipline; frees exactly the live slots that descend from the given pid through stored links, except the running one, and changes nothing else |
| ProcessManager.Manager.KillDirectChildren | kernel/core/process.c:751-773 | the inner loop pushes each child of one parent exactly once and the `stack_top < MAX_PROCESSES` guard never fails |
| ProcessManager.TraversalComplete | kernel/core/process.c:747-774 | an empty work stack means that everything reachable by a chain of stored links was found, and nothing else |
| ProcessManager.PushStep | kernel/core/process.c:754-759 | a child found during the scan was never pushed before (also when it is the running slot, which is not freed) and there is room for it |
| ProcessInvariant.SubtreeGone | kernel/core/process.c:739-775 | after a kill no live slot descends from the killed pid, except possibly the running one |
| ProcessInvariant.LinksAcyclic | kernel/core/process.c:281 | no live slot descends from its own pid |
| ProcessInvariant.ChainClimbs | kernel/core/process.c:753 | along a chain of stored links pids climb above the root and stored parents do not drop below it |
| ProcessInvariant.ReachLimited | kernel/core/process.c:753 | a kill reaches only slots whose stored parent is at least the killed pid, so nothing at all once that pid is 16 or more |
| ProcessInvariant.OwnChildrenAreSpared | kernel/core/process.c:432-433 | the comment promises that all children die; proved false of the stored links: a slot that stores its creator's slot number is never freed by that creator's exit, with any status, or kill |
| ProcessInvariant.ChildOutlivesCreator | kernel/core/process.c:281 | a process that publishes a child and then exits leaves the child READY |
| ProcessInvariant.OrphanRun | kernel/core/process.c:417-447 | a run from boot that breaks that promise: pid 1 creates pid 2 and exits, and pid 2 is still READY |
| ProcessInvariant.KillRemoves | kernel/core/process.c:778-823 | after a successful kill the pid is gone, its descendants other than the running process are dead, and every other slot is unchanged |
| ProcessInvariant.ExitRemoves | kernel/core/process.c:435-447 | after an exit the pid is gone, the status is recorded and the kernel runs |
| ProcessEffects.ExitSubtree | kernel/core/process.c:417-447 | an exit frees its own slot and exactly the live slots that descend from its pid through stored links, which lose pid and stack; every other slot is unchanged |
| ProcessEffects.KillSubtree | kernel/core/process.c:778-823 | a kill frees exactly the slot of that pid and its descendants other than the running process, and changes nothing else |
| ProcessEffects.KillTargetIff | kernel/core/process.c:778-795 | a kill has a target if and only if the pid belongs to a live process other than the running one |
| ProcessEffects.StrangersChildDies | kernel/core/process.c:753 | what dies with a process are the children of whoever sits in the slot whose number is its pid, which is never itself |
| ProcessEffects.StrangerRun | kernel/core/process.c:417-447 | a run from boot: pid 2 creates pid 3, pid 1 exits and pid 3 dies |
| ProcessEffects.ReserveTakes | kernel/core/process.c:185-205 | the lowest free slot becomes BLOCKED under the next pid and no other slot changes; with none free nothing changes |
| ProcessEffects.PublishStores | kernel/core/process.c:275-350 | the slot becomes READY under its pid with the running slot number as stored parent |
| ProcessEffects.ReleaseFrees | kernel/core/process.c:107-119 | the slot is free again and its pid gone |
| ProcessEffects.StartMakesReady | kernel/core/process.c:401-414 | exactly the process of that pid becomes READY |
| ProcessEffects.ScheduleDispatches | kernel/core/process.c:490-552 | from a process or the kernel, the nearest READY slot runs and whoever ran is READY; with none READY the table stays as it is |
| ProcessEffects.YieldDispatches | kernel/core/process.c:478-487 | a yield hands over to the nearest other READY slot |
| ProcessEffects.TickDispatches | kernel/core/process.c:624-725 | nineteen ticks count, the twentieth dispatches the nearest READY slot with a saved context, from a process or the kernel |
| ProcessEffects.TickNeedsContext | kernel/core/process.c:634-647 | the timer never dispatches a slot without saved stack pointer and program counter |
| ProcessInvariant.RunKeepsInv | kernel/core/process.c:73-95 | safety over all runs from boot: current_process and current_pid agree, only the current slot is RUNNING, nonzero pids are distinct and below next_pid, every live slot k has pid > k, every live slot stores a parent below its pid |
| ProcessInvariant.StepKeeps | kernel/core/process.c:180-823 | each operation, taken at any point where it is enabled, keeps that invariant |
| ProcessInvariant.ReserveKeeps | kernel/core/process.c:98-105 | lowest-free-slot allocation hands out pids larger than the slot number |
| ProcessInvariant.PublishKeeps | kernel/core/process.c:275-341 | the slot number stored as parent is below the pid of the new process |
| ProcessInvariant.KillKeeps | kernel/core/process.c:778-823 | process_kill keeps the invariant |
| ProcessInvariant.KillKeepsIff | kernel/core/process.c:778-823 | process_kill keeps the invariant if and only if the pid is not one whose process_create has yet to return; otherwise it frees a slot still being built |
| ProcessInvariant.ExitKeeps | kernel/core/process.c:417-447 | process_exit keeps the invariant |
| ProcessInvariant.KillDescendantsKeeps | kernel/core/process.c:739-775 | killing a subtree keeps the invariant and never touches a slot still being created |
| ProcessTable.LowestFree | kernel/core/process.c:98-105 | the result is free and every slot below it is live; -1 only when all are live |
| ProcessTable.FindPid | kernel/core/process.c:127-137 | the first live slot with that pid, -1 only when there is none |
| ProcessTable.NextReadyNearest | kernel/core/process.c:634-647 | the round-robin scan returns the eligible slot at the smallest cyclic distance |
| ProcessFairness.BoundedBypass | kernel/core/process.c:478-552 | over every run without return to the kernel, a slot that stays READY with a saved context is passed over by at most 14 switches, 14 yields and 299 timer ticks |
| ProcessFairness.EventuallyDispatched | kernel/core/process.c:634-687 | 15 switches or 300 ticks are enough for such a slot to be dispatched |
| ProcessFairness.StepRank | kernel/core/process.c:490-552 | every operation keeps or shrinks the cyclic distance; every yield and every twentieth tick shrinks it |
| ProcessFairness.TickRank | kernel/core/process.c:624-687 | ticks only count until the slice is used up, and then switch |
| ProcessManager.Manager.FindFreeSlot | kernel/core/process.c:98-105 | returns the lowest free slot |
| ProcessManager.Manager.FindProcess | kernel/core/process.c:127-137 | returns the slot of a live pid, or -1 |
| ProcessManager.Manager.CountRunnable | kernel/core/process.c:142-153 | counts READY and RUNNING slots |
| ProcessManager.Manager.PickNextReady | kernel/core/process.c:634-647 | the scan loop finds the same slot as the round-robin function |
| ProcessManager.Manager.ReserveSlot | kernel/core/process.c:185-205 | reserves the lowest free slot, BLOCKED, under a fresh pid; -1 and no change when full |
| ProcessManager.Manager.ReleaseSlot | kernel/core/process.c:107-119 | gives a reserved slot back |
| ProcessManager.Manager.PublishSlot | kernel/core/process.c:275-350 | makes the slot READY with the running slot number as stored parent and returns its pid |
| ProcessManager.Manager.StartProcess | kernel/core/process.c:401-414 | makes the named live process READY, -1 when there is none |
| ProcessManager.Manager.ScheduleNext | kernel/core/process.c:490-552 | switches to the nearest READY slot, keeps a lone running process, or goes back to the kernel |
| ProcessManager.Manager.YieldCpu | kernel/core/process.c:478-487 | gives the CPU up and reschedules |
| ProcessManager.Manager.TimerInterrupt | kernel/core/process.c:624-725 | the quantum, the ready count and the switch of both timer paths |
| ProcessManager.Manager.ExitProcess | kernel/core/process.c:417-447 | frees the running slot and its subtree, returns to the kernel, keeps the invariant |
| ProcessManager.Manager.KillProcess | kernel/core/process.c:778-823 | -1 for an unknown, non-positive or running pid with no change; otherwise frees the slot and its subtree; keeps the invariant if and only if the pid has been returned |
| VirtqueueRuns.ExactlyOnePlace | drivers/input/virtio_input.c:418-430 | in every interleaving of driver and device steps each descriptor is in exactly one of: avail window, device, used window, driver's hand; between iterations the last is empty |
| VirtqueueRuns.WindowsAddUp | drivers/input/virtio_input.c:541-545 | the windows computed from the 16-bit indices add up to 16, across wrap-around |
| VirtqueueRuns.WindowsDistinct | drivers/input/virtio_input.c:541-542 | no descriptor occurs twice in a window |
| Virtqueue.StoreHarmless | drivers/input/virtio_input.c:541-543 | recycling never overwrites an avail entry the device has not consumed |
| Virtqueue.CompleteHarmless | drivers/input/virtio_input.c:469-470 | the device never overwrites a used entry the driver has not handled |
| Virtqueue.StepInv | drivers/network/virtio_net.c:190-208 | every driver and every device step keeps counters, places and delivery |
| VirtqueueRuns.PollExact | drivers/input/virtio_input.c:465-546 | from each reading of used.idx, with the device running freely, the driver takes at most four steps per entry, handles exactly (used.idx - last_used_idx) mod 2^16 <= 16 entries, and when its test fails has handled every completion up to that reading, in order |
| VirtqueueRuns.PollProgress | drivers/input/virtio_input.c:468-546 | a poll that is not over always has a next step |
| VirtqueueRuns.DeliveredInOrder | drivers/input/virtio_input.c:692-794 | over every run the events handled are a prefix of the events completed, at most 16 behind |
| VirtqueueRuns.RunInv | drivers/network/virtio_net.c:309-318 | the invariant holds in every state of every run |
| VirtqueueDriver.Driver.constructor | drivers/input/virtio_input.c:418-430 | all 16 descriptors are offered, in order |
| VirtqueueDriver.Driver.HandleOne | drivers/input/virtio_input.c:469-545 | one loop iteration, with any device steps before each of its accesses, reads the event before its buffer is offered again |
| VirtqueueDriver.Driver.Poll | drivers/input/virtio_input.c:465-546 | the loop with one reading of used.idx, with any device steps before each access: it returns exactly the events that were waiting when it started, at the state the protocol steps lead to |
| VirtqueueDriver.Driver.PollRereading | drivers/network/virtio_net.c:190-208 | the loop that re-reads used.idx, with any device steps before each access: it terminates once the device is done and has then handled every completion, including those that arrived during the loop, once and in order |
| VirtqueueDriver.QuietReread | drivers/network/virtio_net.c:190-208 | while the device is quiet, re-reading used.idx has the same effect as reading it once |
| VirtqueueDriver.Driver.DeviceSteps | drivers/network/virtio_net.c:190-208 | the other party of these loops: the enabled device steps of a schedule, on the shared rings |
| CommandRing.RefinesFifo | drivers/usb/xhci.c:314-338 | with the stores of xhci_ring_cmd and the looks of the controller interleaved in any order, and at most 61 unconsumed commands when a call begins: the controller has consumed a prefix of the commands published, over any number of wraps, and two more looks consume the next one |
| CommandRing.FifoIffBenign | drivers/usb/xhci.c:391-401 | set-up takes the allocated page as it is; every run from it is a FIFO if and only if slots 1 to 62 have no cycle bit set and the link slot has none either or already holds a toggling link to the ring start |
| CommandRing.StaleBitIsConsumed | drivers/usb/xhci.c:391-398 | a stale cycle bit in slots 1 to 62 makes the controller consume a command nobody issued |
| CommandRing.StaleLinkIsConsumed | drivers/usb/xhci.c:319-330 | so does one in the link slot, when the controller looks between the store of the 63rd command and the store of the link |
| CommandRing.StaleBitBreaks | drivers/usb/xhci.c:391-398 | every page with such a bit in slots 1 to 62 breaks the order in some run: a command nobody issued, one consumed twice, or one that is there and not consumed |
| CommandRing.StaleLinkBreaks | drivers/usb/xhci.c:324-330 | and so does every other TRB with a cycle bit in the link slot |
| CommandRing.SetUpIff | drivers/usb/xhci.c:391-398 | the invariant holds at set-up exactly for the pages of FifoIffBenign |
| CommandRing.EnqueueInv | drivers/usb/xhci.c:314-338 | a safe call keeps ring, link and controller in step |
| CommandRing.StoresAreEnqueue | drivers/usb/xhci.c:314-338 | the single stores of a call, without a look in between, add up to it |
| CommandRing.StepInv | drivers/usb/xhci.c:314-338 | each single store, the doorbell and each look keep the invariant |
| CommandRing.FetchInv | drivers/usb/xhci.c:324-334 | the controller sees the oldest pending command, then the link at the end of a pass, and nothing when there is nothing |
| CommandRing.UnsafeEnqueueSticks | drivers/usb/xhci.c:324-334 | any other enqueue leaves the controller stuck with commands pending: the safety condition is exact |
| CommandRing.SixtyTwoUnconsumedIsTooMany | drivers/usb/xhci.c:324-334 | a run from set-up that reaches 62 unconsumed commands and is broken by the next one: 61 cannot be raised |
| CommandRing.OddControlSticks | drivers/usb/xhci.c:319 | a control word with bit 0 set, issued on an even pass by any safe call: the controller consumes everything before it and then makes no progress, however often it looks, until the driver writes again |
| CommandRing.RunInv | drivers/usb/xhci.c:314-338 | every allowed run keeps the invariant |
| CommandRing.Xhci.RingCommand | drivers/usb/xhci.c:314-338 | xhci_ring_cmd on the mutable ring: the tagged TRB, the link on wrap, the toggled cycle, the doorbell |
| CommandRing.Xhci.constructor | drivers/usb/xhci.c:391-398 | enqueue 0, cycle 1, the page unchanged; in step with the controller exactly for the pages of FifoIffBenign |
| Partitions.LayoutTheorem | kernel/drivers/storage.c:1665-1682 | sizes within the capacity are laid out aligned, contiguous and disjoint from LBA 2048; the end is 2048 * (1 + used MiB), inside the disk exactly when used < capacity |
| Partitions.LayoutPacked | kernel/drivers/storage.c:1671-1681 | the 32-bit layout pass equals the exact one when nothing wraps |
| Partitions.PackedDisjoint | kernel/drivers/storage.c:1677-1680 | packed partitions do not overlap |
| Partitions.LayoutVisible | kernel/drivers/storage.c:1671-1676 | empty slots do not influence the layout |
| Mbr.CommitTheorem | kernel/drivers/storage.c:1699-1760 | bytes 0..445 are kept, the signature is 55 AA, each visible partition has its entry, the other entries are zero |
| Mbr.CommittedBytes | kernel/drivers/storage.c:1737-1760 | type byte by kind, the fixed CHS bytes, start and count, and the signature, at their offsets |
| Mbr.CommittedSlice | kernel/drivers/storage.c:1737-1756 | all sixteen bytes of every entry, zero beyond the last partition |
| Mbr.EntryLayout | kernel/drivers/storage.c:1782-1787 | where status, type, little-endian start and count of each entry lie in the sector |
| Mbr.ActiveTheorem | kernel/drivers/storage.c:1715-1735 | an entry is active if and only if it is the first System partition, or the first EFI partition when there is no System |
| Mbr.CommitLoad | kernel/drivers/storage.c:1763-1818 | commit then load returns starts, counts and sizes exactly, compacted; EFI and Swap survive, anything else is System when first and Data after |
| Mbr.CommitLoadIdempotent | kernel/drivers/storage.c:1684-1818 | a second commit and load changes nothing more |
| Mbr.SizesComeBackOnlyIfSized | kernel/drivers/storage.c:1804-1806 | the size condition of that law is necessary: sizes that come back were between 1 MiB and 2 TiB |
| Mbr.LoadedKindIff | kernel/drivers/storage.c:1790-1803 | for every sector: a loaded partition is EFI iff its type is 0xEF, Swap iff 0x82, System iff 0x0B, 0x0C, 0x0E, or 0x83 as the first partition at or below LBA 4096, else Data |
| Mbr.LoadedFrom | kernel/drivers/storage.c:1782-1817 | for every sector: exactly the entries with a type and a count are loaded, in order, with their start, count, size of at least 1 MiB, and label |
| Sector.Le32RoundTrip | kernel/drivers/storage.c:312-322 | little-endian words read back as written |
| PartitionOps.FailureChangesNothing | kernel/drivers/storage.c:2265-2387 | a create, update, delete or fix-up that fails leaves all slots and sector 0 as they were; a failed image write leaves the slots |
| PartitionRuns.RunCoherentIff | kernel/drivers/storage.c:2265-2387 | over every run of creates, updates, deletes, reloads, fix-ups and image writes, with any pattern of read and write failures: memory and sector 0 show the same (start, count) list after every step if and only if every step meets its condition below, and then at most four partitions exist |
| PartitionRuns.RunAtMostFour | kernel/drivers/storage.c:1684-1697 | harmless or not, no run ever has more than four partitions |
| PartitionRuns.StepCoherentIff | kernel/drivers/storage.c:1496-2387 | one step keeps that agreement if and only if, judged before the call, it is an edit that cannot succeed, or: asks for no multiple of 2 TiB (edits); does not grow a partition it cannot read back (fix-up); is read back or describes the extents in memory (image) |
| PartitionRuns.EditCoherentIff | kernel/drivers/storage.c:2294-2300 | from any disk, a successful edit ends in agreement if and only if no present size is a multiple of 2 TiB |
| PartitionRuns.FixupCoherentIff | kernel/drivers/storage.c:1496-1569 | the fix-up keeps agreement unless it grows a partition and the reload cannot read |
| PartitionRuns.ImageCoherentIff | kernel/drivers/storage.c:1571-1605 | after an image write there is agreement exactly when the image was signed, had an entry in use and was read back; an image that is not read back leaves memory alone, so there the condition is that its entries describe the extents in memory |
| PartitionRuns.RunSound | kernel/drivers/storage.c:2265-2387 | in particular, every run of edits below 2 TiB and reloads keeps it |
| PartitionRuns.LoadedSound | kernel/drivers/storage.c:1763-1818 | a load from any signed sector establishes it |
| PartitionRuns.TwoTiBIsInvisible | kernel/drivers/storage.c:293-295 | a partition of exactly 2 TiB is created with sector count 0 and sector 0 does not show it |
| PartitionRuns.BlankImageIsNotReloaded | kernel/drivers/storage.c:1508-1511 | writing an image without a partition table succeeds and leaves the old partitions in memory |
| PartitionOps.FitsIffNoWrap | kernel/drivers/storage.c:2276-2278 | a successful create, update or delete leaves a total within the capacity if and only if the intended total did not wrap 32 bits |
| PartitionOps.WrappedCreateIsAccepted | kernel/drivers/storage.c:2276-2278 | a concrete wrap: 2^32 - 1 MiB accepted on a 4 GiB disk |
| PartitionRuns.RunFitting | kernel/drivers/storage.c:2284-2379 | over every run of edits and reloads without wrap on a disk below 2 TiB - 1 MiB the layout stays packed from LBA 2048, ends 1 MiB past the total, and matches sector 0 |
| PartitionRuns.EditFits | kernel/drivers/storage.c:2265-2387 | one successful edit of any agreeing disk whose contents fit, packed or not, leaves such a layout |
| PartitionRuns.RunFromLoad | kernel/drivers/storage.c:1763-2387 | a run that starts from a load has changed nothing yet or has such a layout |
| PartitionRuns.BlankFitting | kernel/drivers/storage.c:1665-1682 | an empty table over a sector without used entries is such a layout |
| PartitionOps.EditTotal | kernel/drivers/storage.c:2294-2300 | a successful edit reaches exactly the intended total |
| PartitionOps.EditSucceedsIff | kernel/drivers/storage.c:2265-2387 | a create, update or delete succeeds if and only if it names something, leaves at most four partitions and a 32-bit total within the capacity, and the backend accepts |
| PartitionOps.FreeSlot | kernel/drivers/storage.c:254-262 | the lowest empty slot |
| PartitionOps.VisibleSlot | kernel/drivers/storage.c:2325-2333 | the slot of the index-th visible partition, -1 exactly when there is none |
| BootFixup.FixupIdempotent | kernel/drivers/storage.c:1496-1569 | the boot fix-up applied twice equals once, on every sector |
| BootFixup.FixupActiveIff | kernel/drivers/storage.c:1530-1562 | afterwards an entry is active if and only if it is in use and either was the last active one in use, or no entry in use was active and it is the first in use |
| BootFixup.FixupOneActive | kernel/drivers/storage.c:1552-1562 | so exactly one entry is active, and it is in use |
| BootFixup.FixupGrowth | kernel/drivers/storage.c:1540-1550 | no partition moves or shrinks; one grows if and only if it is alone, starts past sector 0 and ends before the disk and the 2^32 - 1 cap, and then it reaches the nearer of the two |
| BootFixup.FixupOutside | kernel/drivers/storage.c:1552-1564 | bytes outside the partition table are kept |
| BootFixup.FixupEntry | kernel/drivers/storage.c:1516-1562 | what the fix-up does to each entry |
| Installer.EnsureInstallBlank | kernel/drivers/storage.c:2400-2451 | with an accepting backend a blank disk gets exactly EFI of 256 MiB, System, and Data of all that is left up to 65536 MiB, and the call returns 3, if and only if it has at least 12544 MiB |
| Installer.SystemSize | kernel/drivers/storage.c:2424-2430 | half the capacity, but at least 8192 and at most 65536 MiB |
| Installer.SplitData | kernel/drivers/storage.c:2502-2508 | a quarter of the partition, but at least 4096 and at most 16384 MiB |
| Installer.SecondCallIff | kernel/drivers/storage.c:2400-2451 | with accepting backends a second call straight after the first returns 0 if and only if, on the disk before the first, neither System nor EFI comes late: two conditions on the 32-bit sum, the capacity, the number of partitions and the kinds present |
| Installer.SettledAfterIff | kernel/drivers/storage.c:2400-2451 | under the same condition each kind is there or has no room after one call |
| Installer.EnsureInstallSettles | kernel/drivers/storage.c:2400-2451 | in particular, with the 32-bit sum clear of the wrap by 131328 MiB, a second call changes nothing whatever the backend accepts |
| Installer.NothingToDoIff | kernel/drivers/storage.c:2400-2451 | a call does nothing if and only if each kind is there or has no room |
| Installer.SettledStays | kernel/drivers/storage.c:2400-2451 | on such a disk it does nothing whatever the backend accepts |
| Installer.WrapUnsettles | kernel/drivers/storage.c:2276-2278 | a table where System had no room and a second call creates it, because the sum wraps once Data is there |
| Installer.WrapMakesRoom | kernel/drivers/storage.c:2276-2278 | a table where EFI had no room and a second call creates it, because System wrapped the sum |
| Installer.SplitTheorem | kernel/drivers/storage.c:2499-2531 | splitting a lone System partition conserves the total with System > 8192 and Data in 4096..16384; after a refused second write the old size is restored exactly when it fits the capacity and the backend accepts it |
| Installer.PrepareUserSettles | kernel/drivers/storage.c:2453-2534 | a successful call leaves a Data partition, so a second call returns 0 and changes nothing |
| Installer.PrepareUserCreates | kernel/drivers/storage.c:2482-2497 | with no Data and at least 4096 MiB free: Data of all that is free up to 32768 MiB is created and 1 returned if and only if an entry is left and the backend accepts, else -1 and no change |
| Installer.PrepareUserSplits | kernel/drivers/storage.c:2499-2531 | with less free, a lone System partition is split when it has more than 12288 MiB |
| Installer.PrepareUserIdle | kernel/drivers/storage.c:2478-2479 | in every other case the call returns 0 and changes nothing |
| Installer.CreateSucceeds | kernel/drivers/storage.c:2265-2309 | a create of any positive size succeeds if and only if there is an entry left, the 32-bit total fits and the backend accepts; what the table holds then |
| PartitionOps.VisibleSet | kernel/drivers/storage.c:2341-2344 | an update changes exactly the index-th visible partition |
| PartitionOps.EditList | kernel/drivers/storage.c:2265-2387 | the list a user sees after an edit: kind, size and label of every partition, with one inserted at the lowest free slot, replaced, or removed |
| PartitionOps.EditBootstrap | kernel/drivers/storage.c:1700-1713 | an edit keeps the bootstrap code if sector 0 could be read and clears it otherwise, and signs the sector |
| PartitionOps.ReloadEffect | kernel/drivers/storage.c:1763-1818 | a reload rebuilds the table exactly when sector 0 can be read and is signed |
| PartitionOps.FixupReports | kernel/drivers/storage.c:1496-1569 | the fix-up succeeds if and only if sector 0 can be read and there is nothing to fix or it can be written |
| StorageManager.Manager.UsedSum | kernel/drivers/storage.c:243-252 | the 32-bit sum of the present sizes |
| StorageManager.Manager.RecomputeLayout | kernel/drivers/storage.c:1665-1682 | the in-place pass computes the layout function |
| StorageManager.Manager.FirstEntryOfKind | kernel/drivers/storage.c:1715-1735 | the entry number of the first visible partition of a kind |
| StorageManager.Manager.FillEntries | kernel/drivers/storage.c:1737-1756 | writes one 16-byte entry per visible partition and leaves the rest of the table zero |
| StorageManager.Manager.CommitMbr | kernel/drivers/storage.c:1684-1761 | the sector buffer filled in place is the committed sector; more than four partitions or a refused write leave sector 0 alone |
| StorageManager.Manager.LoadMbr | kernel/drivers/storage.c:1763-1818 | rebuilds the slots from the used entries; unreadable or unsigned sectors change nothing |
| StorageManager.Manager.CreatePartition | kernel/drivers/storage.c:2265-2309 | creates, or fails with everything as before; other sectors untouched |
| StorageManager.Manager.UpdatePartition | kernel/drivers/storage.c:2311-2353 | updates, or fails with everything as before; other sectors untouched |
| StorageManager.Manager.DeletePartition | kernel/drivers/storage.c:2355-2387 | deletes, or fails with everything as before; other sectors untouched |
| StorageManager.Manager.FixupBootDisk | kernel/drivers/storage.c:1496-1569 | the two passes over the entries compute the fix-up, write it and reload |
| StorageManager.Manager.WriteDiskImage | kernel/drivers/storage.c:1571-1605 | on success sectors 1.. hold the zero-padded image, sector 0 its fix-up, later sectors are untouched and the slots are the image's partitions if it was read back, else the old ones; after a refusal the slots are unchanged and the disk holds the first k sectors of the image; oversized or empty images change nothing |
| StorageManager.Manager.EnsureInstallPartitions | kernel/drivers/storage.c:2400-2451 | carries out the install plan |
| StorageManager.Manager.PrepareUserPartition | kernel/drivers/storage.c:2453-2534 | adds or splits off a Data partition as planned |
| StorageManager.SurveyEntries | kernel/drivers/storage.c:1516-1533 | first entry in use, last active entry in use, number in use |
| StorageManager.BuildChunk | kernel/drivers/storage.c:1588-1595 | one sector of the image, zero-padded |
| StorageManager.ImageRoundTrip | kernel/drivers/storage.c:1579-1595 | the sectors of an image hold its bytes in order and then zeros, and are as few as possible |
| Formatter.Format | kernel/core/printk.c:82-221 | the buffer holds the first size - 1 characters of the unbounded rendering, NUL-terminated, and nothing beyond it is written; a format needs to be well formed only as far as it is reached |
| Formatter.WithinIsPrefix | kernel/core/printk.c:88-90 | rendering as far as there is room agrees with the unbounded rendering |
| Formatter.EmitConversion | kernel/core/printk.c:125-214 | each conversion contributes its piece, cut at the end of the buffer |
| Formatter.EmitNumber | kernel/core/printk.c:137-141 | padded numbers through the digit buffer |
| Formatter.ParseSpec | kernel/core/printk.c:96-123 | flags, width and length modifier |
| Formatter.CutAppend | kernel/core/printk.c:88-90 | truncation commutes with appending |
| Conversions.SignedConversion | kernel/core/printk.c:127-142 | %d and %i, with any flag, width and length: the argument in two's complement of 32 or 64 bits, a sign if negative, decimal digits that read back, padded on the left with zeros or blanks |
| Conversions.UnsignedConversion | kernel/core/printk.c:144-176 | %u, %x and %X: the low 32 or all 64 bits in base 10 or 16 and the right letter case, padded likewise |
| Conversions.PointerConversion | kernel/core/printk.c:178-189 | %p: 0x and sixteen hexadecimal digits that read back |
| Conversions.PlainConversions | kernel/core/printk.c:191-214 | %s, %c, %% and unknown characters |
| Conversions.ParseWritten | kernel/core/printk.c:95-123 | flag, width, length and character of a conversion are parsed back as written |
| Conversions.RenderConcat | kernel/core/printk.c:88-217 | formats one after the other print their texts one after the other, so single conversions determine the output of every complete format |
| Conversions.RenderText | kernel/core/printk.c:89-92 | text without a percent sign is printed as it is |
| Numerals.Itoa | kernel/core/printk.c:37-71 | the digit buffer is never overrun and holds the terminated numeral |
| Numerals.Reverse | kernel/core/printk.c:25-35 | reverses the first len characters in place and nothing else |
| Numerals.NumeralRoundTrip | kernel/core/printk.c:54-61 | digits read back in base 10 or 16 give the number, with no leading zero |
| Numerals.DigitsFit | kernel/core/printk.c:86 | no 64-bit number has more than 20 digits |
| KernelLog.Log.Append | kernel/core/printk.c:223-238 | the ring keeps showing the last 65536 characters of everything appended |
| KernelLog.AppendStep | kernel/core/printk.c:229-237 | one character, with or without overwriting the oldest |
| KernelLog.Log.Size | kernel/core/printk.c:298-301 | min(total appended, 65536) |
| KernelLog.Log.Read | kernel/core/printk.c:303-322 | exactly the requested slice of the retained tail, and nothing else written |
| KernelLog.Log.Printk | kernel/core/printk.c:244-267 | the level prefix is stripped and the rendering, cut at 1023 characters, is appended to the log |
| KernelLog.LevelStripped | kernel/core/printk.c:250-254 | exactly the prefixes <0> to <7> are stripped |
| Checksum.SelfVerifies | drivers/network/vbox_net.c:144-151 | for a buffer of any length, even or odd, storing the checksum in a zeroed field at an even offset makes it check to 0 |
| Checksum.NeverCarries | drivers/network/vbox_net.c:46-49 | adding the checksum never carries out of the 32-bit sum, whatever the summation lost |
| Checksum.OnlyTheChecksumVerifies | drivers/network/vbox_net.c:49 | no other value, up to the two zeros of ones-complement arithmetic, verifies, as long as adding it does not carry out of 32 bits |
| Checksum.ShortBufferVerifiesIff | drivers/network/vbox_net.c:35-50 | in every buffer below 131072 bytes a field verifies if and only if it is the checksum, up to the two zeros, and the buffer is not all zero |
| Checksum.FoldMod | drivers/network/vbox_net.c:46-47 | the folding loop keeps the sum modulo 65535 and is zero only for zero |
| Checksum.OneWord | drivers/network/vbox_net.c:39-49 | two bytes are one little-endian word and the checksum its complement |
| Checksum.SumConcat | drivers/network/vbox_net.c:39-42 | even pieces of a buffer add up |
| Checksum.OddTail | drivers/network/vbox_net.c:43-44 | an odd last byte counts as the low byte of a word |
| Checksum.ComputeChecksum | drivers/network/vbox_net.c:35-50 | the two loops compute the checksum |
| Checksum.Seal | drivers/network/vbox_net.c:251-252 | clear, compute and store: the region checks to 0 and only the field changed |
| Wifi.AddMerges | drivers/network/wifi.c:586-615 | an accepted report keeps one entry per name with the maximum clamped signal and the OR of the secure flags |
| Wifi.RoomForAll | drivers/network/wifi.c:591-592 | a named report is accepted if and only if fewer than 16 distinct names were reported so far |
| Wifi.ScanMergesIff | drivers/network/wifi.c:586-615 | for every sequence of reports, the list is the merge of all of them, under names cut to the field, if and only if no cut name was reported again while there was room and no report said something new after the sixteenth name |
| Wifi.ScanMergesAll | drivers/network/wifi.c:586-615 | a scan with fewer than 16 distinct names, all shorter than 32 characters, merges every report |
| Wifi.LongNameIsListedTwice | drivers/network/wifi.c:594-607 | a name of 32 or more characters reported twice is listed twice under one cut name |
| Wifi.AddMergesIff | drivers/network/wifi.c:586-615 | one more report keeps a merge if and only if there is room and its name fits or is new, or the list is full and it says nothing new about a listed name |
| Wifi.SeventeenthReportIsLost | drivers/network/wifi.c:591-592 | after sixteen names, from an empty list, a stronger report of any of them is lost |
| Wifi.LostUpdate | drivers/network/wifi.c:591-592 | a scan of 17 concrete reports that loses one |
| Wifi.MaxSignalIsMax | drivers/network/wifi.c:596-597 | the merged signal is the largest reported one |
| Wifi.ClampSignal | drivers/network/wifi.c:150-156 | signals between 0 and 100 are kept, others cut to the nearer end |
| Wifi.CopyText | drivers/network/wifi.c:124-140 | names below 32 characters are kept, others cut to 31 |
| Wifi.SwapMerges | drivers/network/wifi.c:337-339 | exchanging entries keeps the merge |
| Wifi.SwapRepresents | drivers/network/wifi.c:337-339 | and keeps it a non-merge when reports were lost |
| Wifi.DefaultSelection | drivers/network/wifi.c:345-364 | -1 exactly for an empty list, the connected network when visible, else the first |
| Wifi.Adapter.AddResult | drivers/network/wifi.c:586-615 | merges or appends, -1 <= selected < count kept, the list keeps representing all reports of the scan |
| Wifi.Adapter.SortVisible | drivers/network/wifi.c:329-343 | non-increasing signal, same entries, still representing the reports |
| Wifi.Adapter.FinishScan | drivers/network/wifi.c:617-620 | sorted; the merge of all reports since the scan began, under names cut to the field, if and only if none was lost, in particular below 16 names that fit; selection on the connected network if visible |
| Wifi.Adapter.BeginScan | drivers/network/wifi.c:366-377 | empty list, nothing selected |
| Wifi.Adapter.SelectNetwork | drivers/network/wifi.c:571-576 | only indices of a finished, non-empty list are accepted |
| Wifi.Adapter.SetDefaultSelection | drivers/network/wifi.c:345-364 | the loop computes the default selection |
| Wifi.Adapter.ReportConnected | drivers/network/wifi.c:631-642 | the connected network becomes the selection when it is visible |
| Wifi.Adapter.ReportDisconnected | drivers/network/wifi.c:644-653 | forgets the connection and selects the first network |

## Left out

- True parent/child lineage, `process_exec_args` and reclaiming stacks after exit: slots become free at once and only the stored links are well defined.
- ELF loading, names, load addresses, ASLR, the switch assembly and spinlocks: context words are arbitrary inputs, table effects only.
- Overflow of the `int` pid counter after 2^31 creations: pids are unbounded.
- Decoding of mouse and keyboard events and the length filter before `net_rx`: every handled event is handed over as a whole.
- Virtio-net transmit and NVMe queues: the one has no ring-full check, the other reads its phase tag from a different bit than the standard.
- Memory barriers, MMIO, interrupts' acknowledgement, PCI probing, timeouts, GPU, framebuffer, UART, Bluetooth, Raspberry Pi and EFI code.
- More than one disk, disk kinds and index checks, partition label text (labels are kind and ordinal), and writing an image from a file.
- ProcessManager.Manager.TimerInterrupt: the ARM64 and x86 paths have the same table effect and are one method.
- Formatter.Format: a format that is reached and ends inside a conversion or lacks its argument, and the most negative signed number, have no defined behaviour in the source and are outside its precondition; field widths are unbounded.
- Building of ARP, ICMP, IP and TCP headers, and TCP checksums, which omit the pseudo-header.
- Wi-Fi status texts, connecting with a password, and the command-line profile parser.
- GUI, launcher, embedded applications, FAT32, APFS and VFS stubs.
