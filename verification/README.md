# Paging, a flat file system and a request buffer: models and proofs

This Dafny project models three programs of an operating-systems course and proves what they keep.

**The virtual-memory simulator** (`p3`). A trace of requests `(pid, page, read or write, byte)` is
served from a few frames of physical memory, a page table, an inverted page table, a swap disk and
one of four replacement policies: ZERO, FIFO, LRU and CLOCK. A page holds one byte.

- `LinkedList` and `VirtualMemory` follow the C: linked nodes, arrays and counters updated in
  place. `VirtualMemory.VM.RunTrace` proves that a whole run computes exactly the pure run
  `Machine.RunAll` and that every output line is the one a flat memory would give.
- `Replacement` is the pure step of the policies on frame numbers, `Machine` adds memory, swap,
  dirty bits and statistics. `DirtyBits` says exactly when a page is dirty.
- `QueuePaging` strips FIFO and LRU down to a queue of pages; `PagingTheorems` proves that the
  modular counter and the list of frames implement that queue, and carries the results over.
- `Competitiveness` compares any policy with schedules that know the whole trace, by cutting the
  trace into phases; `ClockTheorems` proves what a phase costs CLOCK.
- `PolicyLimits`, `TightBound`, `ClockLimits` and `CompetitiveLimits` hold the exact boundaries: which
  policies are conservative, which are competitive, and that the bounds are reached. `FifoFrames`,
  `ClockFrames` and `AnomalyLimits` settle for every policy and every two numbers of frames whether
  Belady's anomaly occurs. `SimulatorTheorems` reads results off the statistics of the simulator.

**The file-system simulator** (`p4`), over one directory of regular files: `create`, `cat`, `rm`,
`ln`, `cp`, from a freshly formatted disk.

- `FlatFs` is the specification: names lead to file numbers, numbers to byte strings. `FsTheorems`
  proves what all runs of it keep, `FsEffects` what each command does and which refusal it answers with.
- `BitAllocator` and `Blocks` are the byte-packed bitmaps with their counters and the integers in
  an indirect block. `FsLayout` says how files lie on the disk and who owns which block.
- `FileSystem.FS` follows the C, in place. `FileSystem.FS.RunScript` proves that any script of
  commands gives the replies and the final state of the specification.

**The request buffer of the web server** (`p2/webserver_multi.c`): one listener and any number of
consumers over two semaphores, a mutex and an array, as a transition system in which every
interleaving is a run. `RequestBuffer` proves what every run keeps, `RequestDelivery` which
connections the buffer delivers and when, `RequestRuns` what does happen: a consumer serves one
connection after the other, an exit is final, and the server can come to a halt.

## Main results

1. *Paging is invisible.* Under every policy, number of frames and trace, each read returns the
   byte last written to its page, or 'A' (`Machine.PagingIsInvisible`), and the in-place simulator
   does the same (`VirtualMemory.VM.RunTrace`). A page is dirty exactly
   when it was written to after its last load, or loaded for a write (`DirtyBits.DirtyIff`); writing
   back dirty victims only, `DirtyBits.DirtyWrites` counts what is left.
2. *FIFO, LRU and CLOCK are competitive.* With k frames FIFO and LRU miss at most
   `k * (Faults + k - h) / (k - h + 1)` times against any schedule with h <= k frames
   (`PagingTheorems.Competitive`), and for every h no smaller factor than k will do, whatever
   constant is added (`TightBound.NoSmallerFactor`). For CLOCK the same holds with 2k - 1 for k
   (`ClockTheorems.ClockCompetitive`), because a window of k distinct pages costs it at most 2k - 1
   misses from any state (`ClockTheorems.ClockWindowCost`). That many do occur
   (`ClockLimits.ClockWindowReached`), and against schedules with as many frames, h = k, the factor
   2k - 1 is the smallest (`ClockLimits.ClockNoSmallerFactor`). ZERO is not competitive at all unless
   h = 1 (`CompetitiveLimits.CompetitiveIff`); then no policy misses more often than the schedule
   faults (`CompetitiveLimits.OneFrame`).
3. *Exact boundaries.* A policy is conservative if and only if it is FIFO or LRU or there is one
   frame (`PolicyLimits.ConservativeIff`). For k <= K frames, some trace costs more misses with K than
   with k if and only if the policy is FIFO and k < K < 2k - 1, or it is CLOCK and 2 <= k < K
   (`AnomalyLimits.AnomalyIff`). The smallest case for FIFO is the trace
   `p3/example_inputs/belady_input.txt`, with nine misses on three frames and ten on four; with 2k - 1
   frames or more not only FIFO but also LRU is never worse than FIFO with k
   (`FifoFrames.EnoughFrames`).
4. *The file system is its specification*, byte for byte, across the boundary between direct and
   indirect blocks (`FileSystem.FS.RunScript`), with no block shared or lost
   (`FsLayout.NoSharing`, `FsLayout.UsedIffOwned`) and exact counters (in `FileSystem.FS.Valid`).
5. *Commands are all or nothing.* A command that fails leaves every table as it was, and the
   branches for an allocation that fails half way are never taken (`FileSystem.FS.Execute`).
   `FsTheorems.SucceedsIff` says exactly when a command succeeds, `FsEffects.RefusesIff` which refusal
   it answers with when it does not.
6. *Space never runs out.* With 21 directory entries the checks for free blocks and free inodes
   cannot refuse anything: 1084 blocks and 491 inodes are always free
   (`FsTheorems.SpaceNeverRunsOut`), and no more than that in the worst case
   (`FsTheorems.LeastSpace`).
7. *The buffer's tokens add up and every index is in bounds in every interleaving*
   (`RequestBuffer.RunInv`), and the server stops exactly when all consumers are dead, the buffer is
   full and the listener holds one more connection (`RequestBuffer.StuckIff`), which can happen with
   any number of consumers (`RequestRuns.CanHalt`). As long as clients come one at a time a single
   consumer serves them all, in order (`RequestRuns.ServesAll`).
8. *Delivery is right exactly when clients come one at a time.* All runs with at most m connections
   under way at a time fetch only accepted connections, each at most once, if and only if m <= 1 or
   there are no consumers (`RequestDelivery.DeliversAtATimeIff`), whatever the array contains at
   first and although all descriptors differ; the same holds for m connections in the whole run
   (`RequestDelivery.DeliversIff`). With
   two a single consumer can serve a connection that never was (`RequestDelivery.MadeUp`), and two
   consumers can serve the same one (`RequestBuffer.ServedTwice`). In every run in which at most one
   thread at a time is between its wait and its post, whatever the number of connections, the array
   is a stack and nothing is lost or repeated (`RequestDelivery.CalmRunDelivers`).

## Where the code and its documents differ

- `p3/output.txt` shows runs without any swapping. The handler reads the swap disk on every miss
  (`p3/pagetable.c:120`), so the model follows the code: swap reads equal misses.
- `p3/pagetable.c:93-97` writes every victim back, dirty or not; the commented-out alternative
  would write to the place of the wrong page. `Machine.DirtyOnlyIsEnough` shows what a correct
  alternative would save.
- `hard_link` checks for free blocks and a free inode although it needs neither
  (`p4/file.c:148-154`). The specification does the same; by result 6 it never matters.
- `curDirInode` receives a block number at mounting time (`p4/fs.c:67`); the model treats it as one.
- The link count of the root directory is never set (`p4/fs.c:69-72`). The invariant on link counts
  leaves it out.
- `semfull` is read after the semaphore was waited for (`p2/webserver_multi.c:35-40`), so what
  is read depends on which threads have waited in the meantime. As long as they do not overlap the
  buffer is a stack, not a queue (`RequestDelivery.CalmIsStack`); result 8 says how few connections
  it takes to break that.

## Model

| member | source | states |
|---|---|---|
| `Replacement.SweepStopsAtFirstClear` | p3/pagetable.c:21-38 | CLOCK turns A + [v] + B, all of A set and v clear, into [v] + B + A with A's bits cleared |
| `Replacement.SweepAllSet` | p3/pagetable.c:29-38 | when every bit is set the old head is the victim and all bits end up clear |
| `Replacement.SweepShape` | p3/pagetable.c:21-38 | for any list: which rotation the sweep makes, as a function of the longest prefix with set bits |
| `Replacement.SweepRotates` | p3/pagetable.c:29-38 | the sweep permutes the frames by a rotation and ends with a clear head |
| `Replacement.RotatedRefCount` | p3/pagetable.c:29-36 | each turn of the loop lowers the number of set bits by one, which is why it ends |
| `Replacement.WithRefAt` | p3/clock_list.c:86-98 | setting a reference bit changes one entry, that of the frame hit, and no frame |
| `Replacement.EvictLists` | p3/pagetable.c:80-89 | what an eviction leaves of the list, the CLOCK list and the counter under each policy |
| `Replacement.Miss` | p3/pagetable.c:73-133 | the page comes into the next free frame while there is one, else into the victim's frame, and no other frame changes |
| `Replacement.Touch` | p3/pagetable.c:163-182 | after any access the page is resident and the replacement structures still list each frame once |
| `Replacement.HitValid` | p3/pagetable.c:147-157 | a hit keeps the list a listing of each allocated frame exactly once |
| `Replacement.MissValid` | p3/pagetable.c:77-109 | so does a miss, under every policy |
| `Replacement.Run` | p3/vm.c:96-151 | every reachable replacement state is valid |
| `Replacement.RunConcat` | p3/vm.c:96-151 | two traces one after the other: final states compose, misses add up |
| `QueuePaging.SafeStep` | p3/pagetable.c:73-182 | within a window of at most k distinct pages an access never drops a page the window loaded or used |
| `QueuePaging.SafeWindow` | p3/pagetable.c:73-182 | the pages missed in such a window all stay at the end of the queue |
| `QueuePaging.NoSecondMiss` | p3/pagetable.c:73-182 | in such a window no page misses twice |
| `QueuePaging.LruHoldsMostRecent` | p3/pagetable.c:147-150 | the LRU queue is the k last elements of the order of last use |
| `PagingTheorems.QueueHolds` | p3/pagetable.c:8-19 | the queue consists of the resident pages, each once |
| `PagingTheorems.TouchIsQueueStep` | p3/pagetable.c:12-19 | the modular counter (FIFO) and the list of frames (LRU) both implement one step of the queue of pages |
| `PagingTheorems.RunIsQueueRun` | p3/pagetable.c:163-182 | over whole traces: same queue, same number of misses, the same accesses miss |
| `PagingTheorems.LruStack` | p3/pagetable.c:135-161 | LRU with k frames holds the k most recently used pages, the list is in order of last use, the victim is the least recently used |
| `PagingTheorems.LoadsEndInQueue` | p3/pagetable.c:12-15 | the FIFO queue is the last k pages that were loaded |
| `PagingTheorems.FifoHoldsLastLoaded` | p3/pagetable.c:12-15 | FIFO holds the k pages loaded last and the modular counter names the frame loaded earliest |
| `PagingTheorems.MissesOnce` | p3/pagetable.c:12-19 | FIFO and LRU: from any state, in a window of at most k distinct pages each page misses at most once |
| `PagingTheorems.WindowCost` | p3/pagetable.c:73-182 | such a window costs at most as many misses as it has distinct pages |
| `PagingTheorems.LastIsResident` | p3/pagetable.c:163-182 | a window of a single page misses at most on its first access, under every policy |
| `PagingTheorems.SlotsSweep` | p3/pagetable.c:21-38 | the sweep on frame numbers is the same sweep on the pages they hold |
| `PagingTheorems.ClockTouchIsQueueStep` | p3/pagetable.c:21-38 | CLOCK on frames implements a queue of pages with reference bits: a hit sets a bit, a miss sweeps, drops the head and appends with a clear bit |
| `Competitiveness.StaysFaults` | p3/pagetable.c:163-182 | within a phase a page that the other schedule did not hold at its start costs that schedule a fault |
| `Competitiveness.TurnFaults` | p3/pagetable.c:163-182 | when a phase of k pages ends a schedule with h frames has paid k - h + 1 faults for it |
| `Competitiveness.PhasesBound` | p3/pagetable.c:163-182 | any policy whose windows of k distinct pages cost at most c: (k - h + 1) * misses <= c * (faults + k - h) |
| `PagingTheorems.Competitive` | p3/pagetable.c:73-182 | (k - h + 1) * misses <= k * (faults + k - h) for FIFO and LRU with k frames against any schedule with h <= k frames, on every trace |
| `TightBound.BoundIsReached` | p3/pagetable.c:73-182 | for every h <= k and any number of rounds there is a trace with k * (rounds + 1) misses that a schedule with h frames serves with k + rounds * (k - h + 1) faults |
| `TightBound.NoSmallerFactor` | p3/pagetable.c:73-182 | no bound (k - h + 1) * misses <= a * faults + b with a < k holds for FIFO or LRU against h frames |
| `ClockTheorems.WeightFalls` | p3/pagetable.c:21-38 | each replacement that spares a page brings it closer to being a victim, counting one pass over it if its bit is set |
| `ClockTheorems.SomeOutside` | p3/pagetable.c:80-89 | while a page of the window is missing and memory is full, some resident page is outside the window |
| `ClockTheorems.WindowWithin` | p3/pagetable.c:73-182 | after any window every page outside it that is still resident leaves room for the rest of the 2k - 1 misses |
| `ClockTheorems.ClockWindowCost` | p3/pagetable.c:73-182 | from any valid state a window of at most k distinct pages costs CLOCK at most 2k - 1 misses |
| `ClockTheorems.ClockCompetitive` | p3/pagetable.c:73-182 | (k - h + 1) * misses <= (2k - 1) * (faults + k - h) for CLOCK against any schedule with h <= k frames |
| `ClockLimits.ClockWindowReached` | p3/pagetable.c:21-38 | for every k a reachable state and a window of k distinct pages that costs exactly 2k - 1 misses |
| `ClockLimits.ClockBoundIsReached` | p3/pagetable.c:73-182 | traces with k + rounds * (2k - 1) misses that a schedule with k frames serves with k + rounds faults |
| `ClockLimits.ClockNoSmallerFactor` | p3/pagetable.c:73-182 | no bound misses <= a * faults + b with a < 2k - 1 holds for CLOCK against as many frames |
| `PolicyLimits.NotConservative` | p3/pagetable.c:107 | with two frames or more ZERO and CLOCK are not conservative: from a reachable state two new pages throw each other out |
| `PolicyLimits.ConservativeIff` | p3/pagetable.c:12-38 | a policy is conservative exactly when it is FIFO or LRU or there is one frame only |
| `PolicyLimits.ZeroInclusion` | p3/pagetable.c:65-65 | what ZERO holds with k frames it holds with more, frame for frame beyond the first |
| `PolicyLimits.Inclusion` | p3/pagetable.c:135-182 | what LRU or ZERO holds with k frames it also holds with more |
| `PolicyLimits.FewerMisses` | p3/pagetable.c:163-182 | so more frames never cost more misses, on any trace |
| `FifoFrames.AroundRun` | p3/pagetable.c:12-15 | while a page stays under FIFO, every page accessed was there before or stands behind it in the queue |
| `FifoFrames.FewWhileStaying` | p3/pagetable.c:12-15 | so at most 2k - 1 different pages are accessed while one stays in k frames |
| `FifoFrames.MissedIsHit` | p3/pagetable.c:73-182 | with 2k - 1 frames or more a page that has missed since FIFO with k loaded it does not miss again while it stays there |
| `FifoFrames.KeepsAhead` | p3/pagetable.c:73-182 | each miss of the larger memory that is a hit with k frames is paid for by an earlier hit there that was a miss with k |
| `FifoFrames.EnoughFrames` | p3/pagetable.c:12-19 | FIFO and LRU with K >= 2k - 1 frames never miss more often than FIFO with k |
| `FifoFrames.FewFrames` | p3/pagetable.c:12-15 | for all k < K < 2k - 1 the trace 1..K, 1..k-1, K+1, 1..K, K+1 costs FIFO 2K + 2 misses with K frames and 2K + 1 with k |
| `FifoFrames.FifoAnomaly` | p3/example_inputs/belady_input.txt:1-13 | FIFO misses 9 times with 3 frames and 10 times with 4 on this trace |
| `ClockFrames.PairsLarge` | p3/pagetable.c:153 | a memory that holds all pages has every bit set after each page was accessed twice |
| `ClockFrames.AmongNext` | p3/pagetable.c:21-38 | loading a page: the queue keeps other pages of before, all different, and ends with the new one |
| `ClockFrames.ClockAnomaly` | p3/pagetable.c:21-38 | for all 2 <= k < K a trace that costs CLOCK K + 2 misses with K frames and K + 1 with k |
| `AnomalyLimits.OneFrameIsWorst` | p3/pagetable.c:163-182 | no policy with any number of frames misses more often than any policy with one frame |
| `AnomalyLimits.AnomalyIff` | p3/pagetable.c:63-71 | for k <= K: some trace costs more misses with K frames than with k exactly when FIFO and k < K < 2k - 1, or CLOCK and 2 <= k < K |
| `AnomalyLimits.OneMoreFrameIff` | p3/pagetable.c:63-71 | one more frame can do harm exactly under FIFO from three frames on and under CLOCK from two on |
| `AnomalyLimits.NoAnomalyIff` | p3/pagetable.c:63-71 | a policy is free of the anomaly for all numbers of frames exactly when it is LRU or ZERO |
| `CompetitiveLimits.OneFrame` | p3/pagetable.c:163-182 | no policy misses more often than a schedule with one frame faults |
| `CompetitiveLimits.ZeroUnbounded` | p3/pagetable.c:65 | for 2 <= h <= k no bound misses <= a * faults + b holds for ZERO |
| `CompetitiveLimits.CompetitiveIff` | p3/pagetable.c:63-71 | a policy has such a bound against h <= k frames exactly when it is not ZERO or h is 1 |
| `Machine.Fault` | p3/pagetable.c:73-133 | after a fault the page is resident and the replacement state is that of the pure policy |
| `Machine.FaultParts` | p3/pagetable.c:103-132 | what a fault leaves in each part of the state |
| `Machine.HitStateParts` | p3/pagetable.c:135-161 | a hit changes only the list of the policy and, on a write, the dirty bit |
| `Machine.Translate` | p3/pagetable.c:163-182 | after a translation the page is resident and the state well formed |
| `Machine.RunAll` | p3/vm.c:96-151 | every reachable state is well formed and every request gets one reply |
| `Machine.SwapOutKeepsBytes` | p3/disk.c:34-39 | writing a frame to its own place on the swap disk changes the byte of no page |
| `Machine.TranslateKeepsBytes` | p3/pagetable.c:163-182 | neither a hit nor a fault changes the byte of any page |
| `Machine.TranslateKeepsSynced` | p3/pagetable.c:93-126 | a resident page that is not dirty always has the same byte in its frame and on the swap disk |
| `Machine.WritingSetsDirty` | p3/pagetable.c:114-118 | after a translation for a write the page is dirty |
| `Machine.BytesAfterRun` | p3/vm.c:96-151 | after any trace memory and swap together hold for each page what was last written |
| `Machine.PagingIsInvisible` | p3/vm.c:131-141 | every policy, every number of frames, every trace: a read returns the byte last written to its page, or 'A' |
| `Machine.PoliciesAgree` | p3/vm.c:131-141 | so the replies of any two policies and memory sizes are the same bytes |
| `Machine.FollowsPages` | p3/pagetable.c:163-182 | the replacement state and the miss counter are those of the pure policy run on the pages of the trace |
| `Machine.ServeCounts` | p3/pagetable.c:166-175 | what one request adds to each of the four counters |
| `Machine.Accounting` | p3/pagetable.c:163-182 | hits + misses = requests, swap reads = misses, swap writes = max(0, misses - frames), frames in use = min(misses, frames) |
| `Machine.DirtyOnlyIsEnough` | p3/pagetable.c:93-97 | writing back only dirty victims under their own page gives the same replies with no more swap writes |
| `DirtyBits.DirtyIff` | p3/pagetable.c:114-144 | after any trace a page in memory is dirty exactly when some request wrote to it and it was not loaded after that; a load for the write counts, a load for a read leaves it clean |
| `DirtyBits.ServeMissDirty` | p3/pagetable.c:114-126 | a fault changes one frame: its page is dirty exactly if it came for a write |
| `DirtyBits.DirtyWrites` | p3/pagetable.c:94-97 | writing back dirty victims only: the swap writes are the pages replaced that were written to since their load |
| `DirtyBits.ReadsWriteNothing` | p3/pagetable.c:94-97 | so a trace of reads writes nothing to the swap disk |
| `SimulatorTheorems.MissCountCompetitive` | p3/pagetable.c:174-174 | the competitive bound for the miss counter of the simulator |
| `SimulatorTheorems.ClockMissCountCompetitive` | p3/pagetable.c:174 | the bound for CLOCK, for the miss counter |
| `SimulatorTheorems.HitCountGrows` | p3/pagetable.c:169-169 | under LRU and ZERO the hit counter never falls when frames are added |
| `SimulatorTheorems.StretchMisses` | p3/pagetable.c:174-174 | a stretch of requests to at most k pages adds at most one miss per page, under FIFO and LRU |
| `LinkedList.Node.constructor` | p3/list.c:6-13 | a new node is linked to nothing |
| `LinkedList.InsertTail` | p3/list.c:71-83 | appends the value; both directions of links stay right |
| `LinkedList.InsertHead` | p3/list.c:57-68 | puts the value in front |
| `LinkedList.RemoveHead` | p3/list.c:26-35 | drops the first element; an empty list stays empty |
| `LinkedList.RemoveTail` | p3/list.c:15-24 | drops the last element |
| `LinkedList.Unlink` | p3/list.c:47-49 | takes an inner node out and links its neighbours to each other |
| `LinkedList.RemoveData` | p3/list.c:37-54 | deletes the first occurrence of the value and nothing else |
| `LinkedList.Find` | p3/list.c:85-98 | the position of the first occurrence, or -1 if there is none |
| `LinkedList.UpdateRef` | p3/clock_list.c:86-98 | gives the reference bit of the first entry for the frame the value asked for; nothing else changes, and nothing at all if there is no such entry |
| `LinkedList.WithRefIs` | p3/pagetable.c:153 | the value 1 there is what a hit does |
| `VirtualMemory.VM.constructor` | p3/vm.c:92-94 | a valid simulator in the start state, whatever the inverted table happened to contain |
| `VirtualMemory.VM.InitPageTable` | p3/pt_core.c:49-54 | every entry of every process is invalid |
| `VirtualMemory.VM.InitSwapDisk` | p3/disk.c:19-24 | every page on the swap disk is 'A' |
| `VirtualMemory.VM.GetFreeFrame` | p3/pt_core.c:33-38 | the next frame never used, or -1 once all are in use |
| `VirtualMemory.VM.FifoVictim` | p3/pagetable.c:12-15 | the counter goes up by one; the victim is its new value modulo the number of frames |
| `VirtualMemory.VM.RotateClock` | p3/pagetable.c:30-35 | the head moves to the tail with its bit cleared |
| `VirtualMemory.VM.ClockVictim` | p3/pagetable.c:21-38 | the loop ends and leaves the list swept; the victim is the data of its head |
| `VirtualMemory.VM.FindReplacement` | p3/pagetable.c:63-71 | the victim of the pure policy, and its effect on lists and counter |
| `VirtualMemory.VM.WritePTE` | p3/pt_core.c:14-19 | writes one entry and no other |
| `VirtualMemory.VM.SwapIn` | p3/disk.c:27-32 | copies one byte to the frame, changes no other frame, counts a read |
| `VirtualMemory.VM.SwapOutFrame` | p3/disk.c:34-39 | copies one byte to the page's place, changes no other place, counts a write |
| `VirtualMemory.VM.UnlinkVictim` | p3/pagetable.c:81-89 | the victim is found and unlinked as in the pure policy |
| `VirtualMemory.VM.Vacate` | p3/pagetable.c:91-100 | the victim's byte is on the swap disk and its entry is invalid; all else still agrees with the specification state |
| `VirtualMemory.VM.LinkFrame` | p3/pagetable.c:103-109 | links the frame at the tail, for CLOCK with a clear bit |
| `VirtualMemory.VM.FillFrame` | p3/pagetable.c:120-123 | memory and inverted table agree with the state in which the page is loaded |
| `VirtualMemory.VM.EnterPage` | p3/pagetable.c:124-126 | so does the page table: valid entries are exactly those of the pages in frames |
| `VirtualMemory.VM.LoadPage` | p3/pagetable.c:111-126 | the page is loaded in all tables; the stale entry read at first leaves no trace |
| `VirtualMemory.VM.ReplaceFrame` | p3/pagetable.c:80-101 | the victim of the policy, unlinked, swapped out and invalidated |
| `VirtualMemory.VM.AcquireFrame` | p3/pagetable.c:76-101 | a free frame or the victim of the policy, ready for the new page |
| `VirtualMemory.VM.PageFaultHandler` | p3/pagetable.c:73-133 | the whole fault: all tables agree with the pure fault and the frame is the one it chose |
| `VirtualMemory.VM.MarkDirty` | p3/pagetable.c:141-145 | the dirty bit is set on a write and otherwise kept |
| `VirtualMemory.VM.Requeue` | p3/pagetable.c:148-150 | the frame moves to the tail of the LRU list |
| `VirtualMemory.VM.RecordHit` | p3/pagetable.c:148-155 | what a hit does to the list of the policy |
| `VirtualMemory.VM.EntryOf` | p3/pagetable.c:137-140 | an entry is valid exactly when its page is in a frame, and names that frame |
| `VirtualMemory.VM.IsPageHit` | p3/pagetable.c:135-161 | -1 and no change for a page not resident, else its frame and the pure hit |
| `VirtualMemory.VM.OnMiss` | p3/pagetable.c:174-181 | the miss is counted once and the page is loaded |
| `VirtualMemory.VM.MMU` | p3/pagetable.c:163-182 | the pure translation; reports a hit exactly for resident pages and returns the frame of the page |
| `VirtualMemory.VM.ReadPhysicalMem` | p3/vm.c:14-21 | the byte of the frame, or failure exactly when there is no such frame |
| `VirtualMemory.VM.WritePhysicalMem` | p3/vm.c:23-31 | changes one frame, or nothing when there is no such frame |
| `VirtualMemory.VM.Store` | p3/vm.c:139-140 | writing through a translated address changes the byte of that page's frame only |
| `VirtualMemory.VM.Load` | p3/vm.c:131-132 | reading through a translated address never fails and gives the byte of the page's frame |
| `VirtualMemory.VM.HandleLine` | p3/vm.c:108-150 | an invalid process or page number changes nothing; any other line is served as the specification says |
| `VirtualMemory.VM.TablesAreInverse` | p3/pt_core.c:9-30 | (pid, page) is valid with frame f exactly when f is below nextFreeFrame and the inverted entry of f is (pid, page) |
| `VirtualMemory.VM.DirtyEntries` | p3/pagetable.c:114-144 | in the page table too a valid entry is dirty exactly when its page was written to after, or by, its last load |
| `VirtualMemory.VM.RunTrace` | p3/vm.c:96-151 | the request loop: final state that of the pure run, each line's byte that of a flat memory, its address that of the frame which then holds the page |
| `BitAllocator.ToggledBit` | p4/fs_util.c:20-28 | toggling flips one bit and no other |
| `BitAllocator.PowerBits` | p4/fs_util.c:20-28 | bit i is the one of value 2 to the i |
| `BitAllocator.SameBits` | p4/fs_util.c:25-28 | bytes with equal bits are equal |
| `BitAllocator.SameFlags` | p4/fs_util.c:25-28 | maps with equal flags are equal byte for byte |
| `BitAllocator.ToggledFlags` | p4/fs_util.c:20-23 | toggling a bit of the packed map flips exactly one flag |
| `BitAllocator.CountClear` | p4/fs_util.c:58-72 | the number of clear flags is zero exactly when all are set |
| `BitAllocator.CountUpdate` | p4/fs_util.c:64-79 | how setting a flag changes the number of clear ones |
| `BitAllocator.Allocator.constructor` | p4/fs.c:6-9 | everything is free and counted as free |
| `BitAllocator.Allocator.GetBit` | p4/fs_util.c:25-28 | the flag of that index |
| `BitAllocator.Allocator.ToggleBit` | p4/fs_util.c:20-23 | flips that flag and no other |
| `BitAllocator.Allocator.SetBit` | p4/fs_util.c:30-36 | gives one flag the value asked for; other values than 0 and 1 change nothing |
| `BitAllocator.Allocator.Get` | p4/fs_util.c:58-94 | takes the lowest free number; -1 exactly when the counter is 0; the counter stays the number of clear bits |
| `BitAllocator.Allocator.Release` | p4/fs_util.c:74-102 | frees the number; freeing a free one changes neither map nor counter |
| `Blocks.IntRoundTrip` | p4/file.c:362-375 | an int written as four bytes and read back is the same int |
| `Blocks.DecodeEncode` | p4/file.c:236-254 | 128 block numbers written to a block and read back are the same |
| `FlatFs.IndirectIff` | p4/file.c:297-311 | size > 7680 exactly when more than 15 blocks are needed, and 73216 is exactly what 15 + 128 blocks hold |
| `FlatFs.FirstFree` | p4/fs_util.c:58-72 | the lowest file number not in use |
| `FlatFs.Lookup` | p4/fs.c:102-112 | -1 exactly when no entry has the name, else the number in some entry of that name |
| `FlatFs.SumCostUpdate` | p4/file.c:338-376 | a new file raises the space in use by exactly its cost |
| `FlatFs.SumCostRemove` | p4/file.c:100-118 | a file that goes gives exactly its cost back |
| `FsTheorems.LinksIff` | p4/file.c:156-162 | a file has a link exactly when some entry names it |
| `FsTheorems.WithoutParts` | p4/file.c:83-93 | removing a name takes one link from its file and keeps all other entries, once each |
| `FsTheorems.LookupEntry` | p4/fs.c:102-112 | with distinct names a lookup finds exactly the entry of that name |
| `FsTheorems.FilesHaveNames` | p4/file.c:100-124 | there are never more files than directory entries |
| `FsTheorems.SpaceNeverRunsOut` | p4/file.c:148-195 | in every reachable state at least 1084 blocks and 491 inodes are free: the space checks never refuse |
| `FsTheorems.LeastSpace` | p4/file.c:271-383 | twenty files of 73216 bytes leave exactly 1084 blocks and 491 inodes |
| `FsTheorems.StepInv` | p4/fs.c:120-185 | every command keeps: names distinct, every entry names a live file, every live file has a name, sizes in range |
| `FsTheorems.RunInv` | p4/fs.c:120-185 | so does every script |
| `FsTheorems.FormattedInv` | p4/fs.c:66-78 | it holds on a new disk |
| `FsTheorems.SucceedsIff` | p4/file.c:6-311 | exactly when each command succeeds, in terms of names, kinds, sizes and the 21 entries alone |
| `FsEffects.RefusesIff` | p4/file.c:16-311 | for every command and every refusal exactly when it is the answer: the first that applies in the order of the program; no refusal for want of blocks or inodes ever comes |
| `FsEffects.CreateMakesFile` | p4/file.c:318-378 | a new regular file of the content under the lowest free inode, with one link; every other file, link count and name as it was; free space down by exactly its cost |
| `FsEffects.CopyMakesFile` | p4/file.c:197-262 | the same for a copy, of what its source holds: it is a file of its own, not a link |
| `FsEffects.LinkSharesFile` | p4/file.c:156-162 | no new file: the new name leads to the source's inode, which has one link more; free space as it was |
| `FsEffects.RemoveDropsName` | p4/file.c:83-124 | the name is gone and one link with it; the file and its space go exactly with the last |
| `FsEffects.OnlyCatShows` | p4/file.c:61 | only a cat that succeeds shows anything, the bytes of a regular file, and it changes nothing |
| `FsEffects.NewDisk` | p4/fs.c:66-78 | a new disk has one name, `.`, which is the directory itself |
| `FsTheorems.OthersUntouched` | p4/file.c:6-383 | a command changes what no other name holds, even one that names the same file |
| `FsTheorems.OthersUntouchedRun` | p4/file.c:6-383 | nor does any script that does not aim at the name |
| `FsTheorems.CreateThenCat` | p4/file.c:6-383 | a created file shows its content after any commands on other names |
| `FsTheorems.CopySurvives` | p4/file.c:169-266 | a copy holds what its source held, whatever happens to the source |
| `FsTheorems.LinkSurvives` | p4/file.c:129-167 | a link holds what its source held, also after the source name is removed |
| `FsTheorems.CreateThenRemove` | p4/file.c:67-383 | create then rm is the identity |
| `FsTheorems.LivesWhileNamed` | p4/file.c:100-124 | a file lives exactly as long as some name leads to it |
| `FsLayout.NoSharing` | p4/file.c:338-376 | two different files have no block in common |
| `FsLayout.UsedIffOwned` | p4/fs_util.c:82-102 | a block is marked exactly when it is reserved or part of some file, never both |
| `FsLayout.FitsReachable` | p4/file.c:29-59 | from the inode, direct and indirect blocks lead to exactly the bytes of the file |
| `FsLayout.FitsInUse` | p4/file.c:29-59 | and all of these blocks are marked as used |
| `FsLayout.OldFileKept` | p4/file.c:338-376 | allocating and writing new blocks leaves every older file in place |
| `FsLayout.FileAdded` | p4/file.c:332-378 | the whole layout is consistent after a file has been added |
| `FsLayout.NameAdded` | p4/file.c:156-162 | so it is after a link, the inode counting one link more |
| `FsLayout.NameDropped` | p4/file.c:121-124 | and after one of several names was removed |
| `FsLayout.FileDropped` | p4/file.c:100-120 | and after the last one was, with the file's blocks free again |
| `FsLayout.PlaceSmall` | p4/file.c:339-351 | up to 15 blocks: the blocks taken are the file, each once |
| `FsLayout.PlaceLarge` | p4/file.c:339-376 | beyond: so are they together with the indirect block taken in between |
| `FsLayout.FitsReleasable` | p4/file.c:100-118 | the blocks that rm frees are all in use, all different, and as many as the file cost |
| `FsLayout.LinkCountIs` | p4/file.c:100-100 | the link count of a regular file is the number of its names |
| `FileSystem.FS.constructor` | p4/fs.c:48-78 | formatting gives a valid state that stands for an empty root directory |
| `FileSystem.FS.InitInodeMap` | p4/fs.c:54-58 | all inodes free, counter 512 |
| `FileSystem.FS.InitBlockMap` | p4/fs.c:59-64 | exactly the 131 reserved blocks are in use although the loop writes only the first 512 bits |
| `FileSystem.FS.TakeRoot` | p4/fs.c:66-67 | the root gets inode 0 and block 131 |
| `FileSystem.FS.InitRoot` | p4/fs.c:65-78 | the tables agree with the specification of a new disk |
| `FileSystem.FS.SearchCurDir` | p4/fs.c:102-112 | the number of the first entry of that name, or -1 |
| `FileSystem.FS.ReadDiskBlock` | p4/disk.c:6-15 | a copy of the block, or failure exactly when the number is out of range |
| `FileSystem.FS.WriteDiskBlock` | p4/disk.c:17-26 | changes one block, or nothing when the number is out of range |
| `FileSystem.FS.Memcpy` | p4/file.c:36-41 | copies n bytes and leaves the rest of the buffer |
| `FileSystem.FS.CopyOut` | p4/file.c:34-41 | the buffer holds one block more of the file, or all of it |
| `FileSystem.FS.FileCat` | p4/file.c:6-65 | shows exactly the bytes of the file, or the right error |
| `FileSystem.FS.TakeBlock` | p4/file.c:342-346 | a block that was free and belongs to nobody; -1 is impossible after the check |
| `FileSystem.FS.PutData` | p4/file.c:350-350 | one more part of the content is in place, all older blocks untouched |
| `FileSystem.FS.PutMap` | p4/file.c:375-375 | the indirect block decodes to the map, the data untouched |
| `FileSystem.FS.CreateDirect` | p4/file.c:338-351 | the first 15 blocks hold the first part of the content |
| `FileSystem.FS.CreateIndirect` | p4/file.c:353-376 | the others hold the rest and the indirect block lists them |
| `FileSystem.FS.TakeInode` | p4/file.c:319-323 | the lowest free inode; -1 is impossible after the check |
| `FileSystem.FS.FileCreate` | p4/file.c:271-383 | the new state is that of the specification with the first `size` bytes of the buffer as content; on success exactly the file's blocks and inode were taken; on failure nothing changed |
| `FileSystem.FS.CheckCreate` | p4/file.c:276-311 | the same refusals in the same order as the specification |
| `FileSystem.FS.MakeFile` | p4/file.c:318-382 | after the checks nothing can fail |
| `FileSystem.FS.CopyBlock` | p4/file.c:222-224 | the copy of a block is one more part of the content, the source untouched |
| `FileSystem.FS.CopyDirect` | p4/file.c:211-225 | the first 15 blocks of the copy |
| `FileSystem.FS.CopyIndirect` | p4/file.c:227-255 | the rest, through both indirect maps |
| `FileSystem.FS.FileCopy` | p4/file.c:169-266 | the new state is that of the specification: equal bytes on new blocks; on success exactly the blocks and the inode of the copy were taken, none of them in use before; on failure nothing changed |
| `FileSystem.FS.HardLink` | p4/file.c:129-167 | the new state is that of the specification; on failure nothing changed |
| `FileSystem.FS.AddLink` | p4/file.c:156-162 | after the checks: one more name and one link more, all else as it was |
| `FileSystem.FS.FindEntry` | p4/file.c:83-84 | the position of the entry of that name |
| `FileSystem.FS.ShiftEntries` | p4/file.c:85-90 | the directory without the entry at that position, order kept |
| `FileSystem.FS.RemoveEntry` | p4/file.c:83-93 | the directory without the name |
| `FileSystem.FS.FreeDirect` | p4/file.c:101-107 | the direct blocks are free again, each counted once |
| `FileSystem.FS.FreeIndirect` | p4/file.c:109-118 | the listed blocks and the indirect block are free again, each counted once |
| `FileSystem.FS.FileRemove` | p4/file.c:67-127 | the new state is that of the specification; the last name gives back exactly the file's blocks and inode; on failure nothing changed |
| `FileSystem.FS.RemoveLink` | p4/file.c:121-124 | one link less, all blocks kept |
| `FileSystem.FS.RemoveLast` | p4/file.c:100-120 | blocks and inode given back |
| `FileSystem.FS.CreateAndRemove` | p4/file.c:67-383 | create then rm restores both bitmaps byte for byte and both counters |
| `FileSystem.FS.Execute` | p4/fs.c:120-185 | each command does what the specification says; if it fails no table changes |
| `FileSystem.FS.RunScript` | p4/fs.c:120-185 | any script: every reply and the final state are those of the specification |
| `FsTheorems.SpaceAfterAdd` | p4/file.c:300-311 | a new file costs ceil(size / 512) blocks, one more beyond 7680 bytes, and one inode |
| `FileSystem.SpaceAfterDrop` | p4/file.c:100-120 | removing the last name gives the same back |
| `FsTheorems.FormattedSpace` | p4/fs.c:48-78 | 3964 blocks and 511 inodes are free on a new disk |
| `RequestBuffer.StartInv` | p2/webserver_multi.c:12-17 | the invariant holds at the start, whatever the array contains |
| `RequestBuffer.NextInv` | p2/webserver_multi.c:19-47 | every step of every thread keeps it: tokens in the two semaphores and in the hands of threads make 100, at most one thread holds the mutex, every index is in 0..99 |
| `RequestBuffer.RunInv` | p2/webserver_multi.c:19-47 | so it holds in every interleaving, whichever consumers exit on the way |
| `RequestBuffer.StuckIff` | p2/webserver_multi.c:19-47 | with a connection to be had, no thread can step exactly when all consumers are dead and the listener waits for room in a full buffer |
| `RequestBuffer.ProducePushes` | p2/webserver_multi.c:19-30 | undisturbed, the listener puts the connection on top of those waiting |
| `RequestBuffer.ConsumePops` | p2/webserver_multi.c:32-46 | undisturbed, a consumer takes the connection that came last |
| `RequestBuffer.LockAndTake` | p2/webserver_multi.c:36-43 | from the mutex on, a consumer takes the place that the semaphore value names at that time |
| `RequestBuffer.SameRequestTwice` | p2/webserver_multi.c:35-40 | whenever two requests and two consumers wait, the two can both take the same request |
| `RequestBuffer.ServedTwice` | p2/webserver_multi.c:19-47 | such a run from the start: one connection is served twice, the other by nobody |
| `RequestDelivery.ServedWasFetched` | p2/webserver_multi.c:38-45 | what a consumer serves it took out of the array |
| `RequestDelivery.CalmIsStack` | p2/webserver_multi.c:19-47 | from any state that holds a stack, while one thread at a time is between wait and post: every write pushes, every read pops what came last, the array holds the stack |
| `RequestDelivery.StackConserves` | p2/webserver_multi.c:19-47 | what is accepted is popped, on the stack, or in the listener's hand, each as often as it was accepted |
| `RequestDelivery.CalmRunDelivers` | p2/webserver_multi.c:19-47 | such a run from the start delivers in stack order, loses and repeats nothing; with no thread at work request[..full] is the stack |
| `RequestDelivery.OneAtATimeIsCalm` | p2/webserver_multi.c:19-47 | with one connection under way at a time no two threads are between wait and post together |
| `RequestDelivery.OneAtATimeIsRight` | p2/webserver_multi.c:19-47 | such a run fetches only accepted connections, each at most once, even when descriptors are used again |
| `RequestDelivery.MadeUp` | p2/webserver_multi.c:19-47 | a run with one consumer and two connections: the first is overwritten, and a place never written is served |
| `RequestDelivery.DeliversAtATimeIff` | p2/webserver_multi.c:19-47 | all runs with different descriptors and at most m connections under way at a time fetch only accepted ones, each at most once, exactly when m <= 1 or there are no consumers |
| `RequestDelivery.DeliversIff` | p2/webserver_multi.c:19-47 | the same for at most m connections in the whole run |
| `RequestRuns.ExitedIsGone` | p2/net.c:98-102 | a consumer that has exited takes no step and does not exit again, in any run |
| `RequestRuns.ExitIsFinal` | p2/net.c:98-102 | a consumer exits only while it processes, and no run goes on with it after that |
| `RequestRuns.CloseIsFinal` | p2/webserver_multi.c:78-83 | only a listener waiting for a connection closes, and then it neither accepts nor writes any more |
| `RequestRuns.ComesBack` | p2/webserver_multi.c:33-46 | a consumer that processes a request comes back: with the listener it can serve any next connection, without an exit |
| `RequestRuns.ServesAll` | p2/webserver_multi.c:32-82 | for any list of connections a run in which they come one at a time and one consumer alone serves them all, in order |
| `RequestRuns.CanHalt` | p2/webserver_multi.c:19-47 | for any number n of consumers a run of n + 101 connections after which no thread can step |

## Left out

- LinkedList.RemoveTail: requires a list that does not have exactly one node, because `list_remove_tail` follows a null pointer there; `list_remove` never calls it so, and the proof of `LinkedList.RemoveData` shows that.
- VirtualMemory.VM.constructor: the inverted page table is never initialised in the original; the model starts from arbitrary entries that are in range.
- VirtualMemory.VM.FifoVictim: the counter does not wrap around, and neither do the statistics; the original uses int.
- VirtualMemory.VM.HandleLine: process numbers and addresses are not negative and the request is a read or a write; other types and malformed lines are left to the parsing.
- FileSystem.FS.constructor: the block image of the root directory is an argument, because the layout of the directory structure in memory is not modelled.
- FileSystem.FS.FileCreate: the content is an argument, as the original draws it at random; the buffer is at least as long as its blocks, while the original reads past its buffer of 4 * size + 1 bytes for sizes below 128. What follows the content in the last block is arbitrary.
- FileSystem.FS.FileCat: the not-found test comes before the inode is read; the original reads inode -1 first and throws it away. The same holds for rm, ln and cp. The bytes shown are the file's, whether or not printing them stops at a zero byte.
- FileSystem.FS.ShiftEntries: moves live entries only; the loop of the original also copies the slot after the last entry (`p4/file.c:85-88`). With fewer than 21 entries that slot is not in use; with 21 the original reads past the end of the `dentry` array, which the model does not capture.
- FileSystem.FS.AddEntry: names are strings of any length; the original copies them into 20 bytes without a check.
- FsLayout.LinkCountIs: not for the root directory, whose link count the original never sets. Copying a directory entry is modelled as the code does it: the block is copied as if it were data.
- BitAllocator.Allocator.Get: one class serves inodes and blocks; its counter stands for the one in the superblock.
- RequestBuffer.NextInv: says nothing about which connections are delivered; `RequestDelivery` does.
- RequestDelivery.DeliversAtATimeIff: a connection is under way from its acceptance until its consumer has posted and starts to process it; that it then is answered is not modelled.
- RequestBuffer.StuckIff: progress means that some thread can step; fairness between threads is not modelled. A consumer that exits is not replaced while the listener runs, as in the original.
- The C functions are cut into smaller methods where a proof needs a boundary (`UnlinkVictim`, `Vacate`, `LoadPage`; `CheckCreate`, `MakeFile`, `CreateDirect`, `CreateIndirect` and so on); order and effects of the steps are the original's.
- `clock_list_remove`, `clock_list_insert_head`, `clock_list_remove_tail`: the same code as in `p3/list.c`; the list is generic. `clock_list_find` and `clock_list_check` are not called.
- Reference bits are booleans, dirty and valid bits likewise; the debugging output of all programs is left out.
- ClockLimits.ClockNoSmallerFactor: for schedules with as many frames as CLOCK (h = k) only. For h < k the bound of `ClockTheorems.ClockCompetitive` is proved, not that it is the best; at h = 1 it is not (`CompetitiveLimits.OneFrame`).
- `mkdir`, `rmdir`, `cd`, `ls` and navigation (`p4/directory.c`): `curDirInode` is a block number after mounting and an inode number after `cd`, so there is no single meaning to model.
- Mounting an existing disk image and unmounting: file input and output. `stat`, `df`, `rand_string` and the command parser: printing, random data, parsing.
- Sockets, HTTP processing and thread creation of `p2`, and the other web server there: library calls. A consumer may exit while processing, as `p2/net.c:98-102` does.
- Failing `malloc`, and nodes removed from a list but never freed.
- Word counting (`p1`): its counts add up by a short induction; the rest is processes and pipes.
