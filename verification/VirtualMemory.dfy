/**
 * The virtual-memory simulator with its tables updated in place: page table, inverted page table,
 * frame allocator, physical memory, swap disk and the lists of the replacement policies.
 */
module VirtualMemory {
  import opened Sequences
  import opened Replacement
  import opened Machine
  import opened DirtyBits
  import opened LinkedList

  /** A page table entry. */
  datatype PTE = PTE(pfn: nat, valid: bool, dirty: bool)

  /** A line of the input: process, virtual address and operation. */
  datatype Line = Line(pid: nat, addr: nat, op: Op)

  datatype Outcome = InvalidPid | InvalidVpn | Served(address: nat, byte: char, hit: bool)

  /** The page of an address; a page is 256 bytes of address space but holds one byte. */
  function PageOf(line: Line): Page {
    Page(line.pid, line.addr / 256)
  }

  predicate Accepted(maxPid: nat, maxVpn: nat, line: Line) {
    line.pid < maxPid && PageOf(line).vpn < maxVpn
  }

  /** The requests that the lines with a valid process and page number make. */
  function Requests(maxPid: nat, maxVpn: nat, lines: seq<Line>): seq<Request> {
    if lines == [] then []
    else
      var line := lines[|lines| - 1];
      Requests(maxPid, maxVpn, lines[..|lines| - 1])
        + if Accepted(maxPid, maxVpn, line) then [Request(PageOf(line), line.op)] else []
  }

  /** What the specification says about line i: the byte comes from a flat memory. */
  ghost predicate Expected(policy: Policy, maxPfn: nat, maxPid: nat, maxVpn: nat, lines: seq<Line>, i: nat, r: Outcome)
    requires 1 <= maxPfn && i < |lines|
  {
    var line := lines[i];
    var before := Requests(maxPid, maxVpn, lines[..i]);
    if line.pid >= maxPid then r == InvalidPid
    else if PageOf(line).vpn >= maxVpn then r == InvalidVpn
    else
      && r.Served?
      && r.address % 256 == line.addr % 256
      && (var held := RunAll(Always, policy, maxPfn, before + [Request(PageOf(line), line.op)]).0.core.frames;
          r.address / 256 < |held| <= maxPfn && held[r.address / 256] == PageOf(line))
      && r.byte == (if line.op.Write? then line.op.byte else LastWritten(before, PageOf(line)))
      && (r.hit <==> PageOf(line) in RunAll(Always, policy, maxPfn, before).0.core.frames)
  }

  class VM {
    const policy: Policy
    const maxPfn: nat
    const maxVpn: nat
    const maxPid: nat
    const physicalMem: array<char>
    const swapDisk: array2<char>
    const pageTable: array2<PTE>
    const invertedPageTable: array<Page>
    var nextFreeFrame: nat
    var counter: int
    var head: Node?<nat>
    var clockHead: Node?<Entry<nat>>
    var stats: Stats

    ghost var nodes: seq<Node<nat>>
    ghost var listRepr: set<Node<nat>>
    ghost var clockNodes: seq<Node<Entry<nat>>>
    ghost var clockRepr: set<Node<Entry<nat>>>
    /** The value that the fields stand for. */
    ghost var view: State

    predicate InRange(p: Page) {
      p.pid < maxPid && p.vpn < maxVpn
    }

    ghost predicate Dims() {
      && 1 <= maxPfn
      && physicalMem.Length == maxPfn == invertedPageTable.Length
      && swapDisk.Length0 == maxPid == pageTable.Length0
      && swapDisk.Length1 == maxVpn == pageTable.Length1
    }

    /** Even the entries never written name some page that exists. */
    ghost predicate InvertedInRange()
      requires Dims()
      reads invertedPageTable
    {
      forall f :: 0 <= f < maxPfn ==> InRange(invertedPageTable[f])
    }

    ghost predicate LruHolds(lru: seq<nat>)
      reads this`head, this`nodes, this`listRepr, listRepr
    {
      Linked(head, nodes, listRepr) && Contents(nodes) == lru
    }

    ghost predicate ClockHolds(clock: seq<Entry<nat>>)
      reads this`clockHead, this`clockNodes, this`clockRepr, clockRepr
    {
      Linked(clockHead, clockNodes, clockRepr) && Contents(clockNodes) == clock
    }

    ghost predicate ListsMatch(core: Core)
      reads this`counter, this`head, this`nodes, this`listRepr, this`clockHead, this`clockNodes, this`clockRepr
      reads listRepr, clockRepr
    {
      LruHolds(core.lru) && ClockHolds(core.clock) && counter == core.counter
    }

    /** The inverted table and the memory agree with s on every frame in use, except possibly one. */
    ghost predicate FramesHold(s: State, except: int)
      requires Dims()
      reads physicalMem, invertedPageTable
    {
      && |s.mem| == |s.core.frames| <= maxPfn
      && forall f :: 0 <= f < |s.mem| && f != except ==>
           invertedPageTable[f] == s.core.frames[f] && physicalMem[f] == s.mem[f]
    }

    /** The page table agrees with s: the valid entries are those of the frames in use. */
    ghost predicate EntriesHold(s: State, except: int)
      requires Dims()
      reads pageTable
    {
      && |s.core.frames| == |s.dirty| <= maxPfn
      && (forall f :: 0 <= f < |s.dirty| ==> InRange(s.core.frames[f]))
      && (forall f :: 0 <= f < |s.dirty| && f != except ==>
            var p := s.core.frames[f]; pageTable[p.pid, p.vpn] == PTE(f, true, s.dirty[f]))
      && (forall pid, vpn :: 0 <= pid < maxPid && 0 <= vpn < maxVpn && pageTable[pid, vpn].valid ==>
            var f := pageTable[pid, vpn].pfn;
            f < |s.dirty| && f != except && s.core.frames[f] == Page(pid, vpn))
    }

    ghost predicate SwapHolds(swap: map<Page, char>)
      requires Dims()
      reads swapDisk
    {
      forall pid, vpn :: 0 <= pid < maxPid && 0 <= vpn < maxVpn ==> swapDisk[pid, vpn] == OnSwap(swap, Page(pid, vpn))
    }

    /** Everything but the lists. */
    ghost predicate DataHold(s: State, except: int)
      requires Dims()
      reads physicalMem, swapDisk, pageTable, invertedPageTable
    {
      InvertedInRange() && FramesHold(s, except) && EntriesHold(s, except) && SwapHolds(s.swap)
    }

    ghost predicate Valid()
      reads this, physicalMem, swapDisk, pageTable, invertedPageTable, listRepr, clockRepr
    {
      && Dims()
      && Wf(policy, maxPfn, view)
      && nextFreeFrame == |view.core.frames|
      && ListsMatch(view.core)
      && DataHold(view, -1)
      && stats == view.stats
    }

    constructor (policy: Policy, maxPfn: nat, maxVpn: nat, maxPid: nat, leftover: seq<Page>)
      requires 1 <= maxPfn <= 256 && 1 <= maxVpn <= 256 && 1 <= maxPid <= 256
      requires |leftover| == maxPfn
      requires forall f :: 0 <= f < maxPfn ==> leftover[f].pid < maxPid && leftover[f].vpn < maxVpn
      ensures Valid() && view == START
      ensures this.policy == policy && this.maxPfn == maxPfn && this.maxVpn == maxVpn && this.maxPid == maxPid
      ensures fresh(physicalMem) && fresh(swapDisk) && fresh(pageTable) && fresh(invertedPageTable)
      ensures listRepr == {} && clockRepr == {}
    {
      this.policy, this.maxPfn, this.maxVpn, this.maxPid := policy, maxPfn, maxVpn, maxPid;
      physicalMem := new char[maxPfn];
      invertedPageTable := new Page[maxPfn](f requires 0 <= f < |leftover| => leftover[f]);
      swapDisk := new char[maxPid, maxVpn];
      pageTable := new PTE[maxPid, maxVpn];
      nextFreeFrame := 0;
      counter := -1;
      head, clockHead := null, null;
      nodes, clockNodes, listRepr, clockRepr := [], [], {}, {};
      stats := Stats(0, 0, 0, 0);
      view := START;
      new;
      InitPageTable();
      InitSwapDisk();
    }

    /** Marks every entry invalid. */
    method InitPageTable()
      requires Dims()
      modifies pageTable
      ensures forall pid, vpn :: 0 <= pid < maxPid && 0 <= vpn < maxVpn ==> !pageTable[pid, vpn].valid
    {
      for i := 0 to maxPid
        invariant forall pid, vpn :: 0 <= pid < i && 0 <= vpn < maxVpn ==> !pageTable[pid, vpn].valid
      {
        for j := 0 to maxVpn
          invariant forall pid, vpn :: 0 <= pid < i && 0 <= vpn < maxVpn ==> !pageTable[pid, vpn].valid
          invariant forall vpn :: 0 <= vpn < j ==> !pageTable[i, vpn].valid
        {
          pageTable[i, j] := pageTable[i, j].(valid := false);
        }
      }
    }

    /** Every page of every process starts as 'A'. */
    method InitSwapDisk()
      requires Dims()
      modifies swapDisk
      ensures forall pid, vpn :: 0 <= pid < maxPid && 0 <= vpn < maxVpn ==> swapDisk[pid, vpn] == 'A'
    {
      for i := 0 to maxPid
        invariant forall pid, vpn :: 0 <= pid < i && 0 <= vpn < maxVpn ==> swapDisk[pid, vpn] == 'A'
      {
        for j := 0 to maxVpn
          invariant forall pid, vpn :: 0 <= pid < i && 0 <= vpn < maxVpn ==> swapDisk[pid, vpn] == 'A'
          invariant forall vpn :: 0 <= vpn < j ==> swapDisk[i, vpn] == 'A'
        {
          swapDisk[i, j] := 'A';
        }
      }
    }

    /** The next frame never used before, or -1. */
    method GetFreeFrame() returns (pfn: int)
      modifies this`nextFreeFrame
      ensures old(nextFreeFrame) >= maxPfn ==> pfn == -1 && nextFreeFrame == old(nextFreeFrame)
      ensures old(nextFreeFrame) < maxPfn ==> pfn == old(nextFreeFrame) && nextFreeFrame == old(nextFreeFrame) + 1
    {
      if nextFreeFrame >= maxPfn {
        return -1;
      }
      pfn := nextFreeFrame;
      nextFreeFrame := nextFreeFrame + 1;
    }

    method FifoVictim() returns (pfn: nat)
      requires 1 <= maxPfn && -1 <= counter
      modifies this`counter
      ensures counter == old(counter) + 1 && pfn == counter % maxPfn
    {
      counter := counter + 1;
      pfn := counter % maxPfn;
    }

    /** Moves the head of the CLOCK list to its tail and clears its reference bit. */
    method RotateClock()
      requires Linked(clockHead, clockNodes, clockRepr) && clockNodes != []
      modifies this`clockHead, this`clockNodes, this`clockRepr, clockRepr
      ensures Linked(clockHead, clockNodes, clockRepr)
      ensures Contents(clockNodes) == Rotated(old(Contents(clockNodes)))
      ensures fresh(clockRepr - old(clockRepr))
    {
      hide Linked, Contents;
      HeadData(clockHead, clockNodes, clockRepr);
      var p := clockHead.data.data;
      clockHead, clockNodes := RemoveHead(clockHead, clockNodes, clockRepr);
      clockHead, clockNodes, clockRepr := InsertTail(clockHead, Entry(p, false), clockNodes, clockRepr);
    }

    /** The head of the CLOCK list once the leading reference bits have been cleared. */
    method ClockVictim() returns (pfn: nat)
      requires Linked(clockHead, clockNodes, clockRepr) && clockNodes != []
      modifies this`clockHead, this`clockNodes, this`clockRepr, clockRepr
      ensures Linked(clockHead, clockNodes, clockRepr)
      ensures Contents(clockNodes) == Sweep(old(Contents(clockNodes)))
      ensures clockNodes != [] && pfn == clockNodes[0].data.data
      ensures fresh(clockRepr - old(clockRepr))
    {
      while clockHead.data.ref
        invariant Linked(clockHead, clockNodes, clockRepr) && clockNodes != []
        invariant Sweep(Contents(clockNodes)) == Sweep(old(Contents(clockNodes)))
        invariant fresh(clockRepr - old(clockRepr))
        decreases RefCount(Contents(clockNodes))
      {
        assert Contents(clockNodes)[0] == clockHead.data;
        RotatedRefCount(Contents(clockNodes));
        RotateClock();
      }
      assert Contents(clockNodes)[0] == clockHead.data;
      pfn := clockHead.data.data;
    }

    /** The frame to replace under the policy in use. */
    method FindReplacement() returns (pfn: nat)
      requires Replacement.Valid(policy, maxPfn, view.core) && |view.core.frames| == maxPfn
      requires ListsMatch(view.core)
      modifies this`counter, this`clockHead, this`clockNodes, this`clockRepr, clockRepr
      ensures pfn == Evict(policy, maxPfn, view.core).0
      ensures LruHolds(view.core.lru)
      ensures ClockHolds(if policy.Clock? then Sweep(view.core.clock) else view.core.clock)
      ensures counter == view.core.counter + if policy.Fifo? then 1 else 0
      ensures fresh(clockRepr - old(clockRepr))
    {
      match policy
      case Zero =>
        pfn := 0;
      case Fifo =>
        pfn := FifoVictim();
      case Lru =>
        assert 0 in view.core.lru;
        assert Contents(nodes)[0] == head.data;
        pfn := head.data;
      case Clock =>
        assert 0 in Datas(view.core.clock);
        assert clockNodes != [];
        pfn := ClockVictim();
        assert Contents(clockNodes)[0] == clockNodes[0].data;
    }

    method WritePTE(p: Page, pte: PTE)
      requires Dims() && InRange(p)
      modifies pageTable
      ensures pageTable[p.pid, p.vpn] == pte
      ensures forall pid, vpn :: 0 <= pid < maxPid && 0 <= vpn < maxVpn && Page(pid, vpn) != p ==>
        pageTable[pid, vpn] == old(pageTable[pid, vpn])
    {
      pageTable[p.pid, p.vpn] := pte;
    }

    method SwapIn(p: Page, pfn: nat)
      requires Dims() && InRange(p) && pfn < maxPfn
      modifies this`stats, physicalMem
      ensures stats == old(stats).(swapReads := old(stats).swapReads + 1)
      ensures physicalMem[pfn] == swapDisk[p.pid, p.vpn]
      ensures forall f :: 0 <= f < maxPfn && f != pfn ==> physicalMem[f] == old(physicalMem[f])
    {
      stats := stats.(swapReads := stats.swapReads + 1);
      physicalMem[pfn] := swapDisk[p.pid, p.vpn];
    }

    method SwapOutFrame(p: Page, pfn: nat)
      requires Dims() && InRange(p) && pfn < maxPfn
      modifies this`stats, swapDisk
      ensures stats == old(stats).(swapWrites := old(stats).swapWrites + 1)
      ensures swapDisk[p.pid, p.vpn] == physicalMem[pfn]
      ensures forall pid, vpn :: 0 <= pid < maxPid && 0 <= vpn < maxVpn && Page(pid, vpn) != p ==>
        swapDisk[pid, vpn] == old(swapDisk[pid, vpn])
    {
      stats := stats.(swapWrites := stats.swapWrites + 1);
      swapDisk[p.pid, p.vpn] := physicalMem[pfn];
    }

    /** Takes the head off the list of the policy. */
    method UnlinkHead(ghost lru: seq<nat>, ghost clock: seq<Entry<nat>>)
      requires LruHolds(lru) && ClockHolds(clock)
      requires policy.Lru? ==> lru != []
      requires policy.Clock? ==> clock != []
      modifies this`head, this`nodes, this`clockHead, this`clockNodes, listRepr, clockRepr
      ensures LruHolds(if policy.Lru? then lru[1..] else lru)
      ensures ClockHolds(if policy.Clock? then clock[1..] else clock)
    {
      hide Linked, Contents;
      if policy.Lru? {
        head, nodes := RemoveHead(head, nodes, listRepr);
      } else if policy.Clock? {
        clockHead, clockNodes := RemoveHead(clockHead, clockNodes, clockRepr);
      }
    }

    /** Finds the frame to replace and takes it off the list of the policy. */
    method UnlinkVictim() returns (pfn: nat)
      requires Replacement.Valid(policy, maxPfn, view.core) && |view.core.frames| == maxPfn
      requires ListsMatch(view.core)
      modifies this`counter, this`head, this`nodes, this`clockHead, this`clockNodes, this`clockRepr, listRepr, clockRepr
      ensures pfn == Evict(policy, maxPfn, view.core).0
      ensures ListsMatch(Evict(policy, maxPfn, view.core).1)
      ensures fresh(clockRepr - old(clockRepr))
    {
      EvictLists(policy, maxPfn, view.core);
      hide LruHolds, ClockHolds, Sweep, ListsFrames, Evict, Replacement.Valid;
      pfn := FindReplacement();
      UnlinkHead(view.core.lru, if policy.Clock? then Sweep(view.core.clock) else view.core.clock);
    }

    /** Swaps the page of the frame out and invalidates its entry. */
    method Vacate(pfn: nat)
      requires Dims() && DataHold(view, -1) && pfn < |view.mem| && Distinct(view.core.frames)
      requires stats == view.stats
      modifies this`stats, this`view, swapDisk, pageTable
      ensures view == SwapOut(old(view), pfn) && DataHold(view, pfn) && stats == view.stats
    {
      var p := invertedPageTable[pfn];
      var pte := pageTable[p.pid, p.vpn];
      SwapOutFrame(p, pte.pfn);
      WritePTE(p, pte.(valid := false));
      view := SwapOut(view, pfn);
    }

    /** Links the frame at the tail of the list of the policy. */
    method LinkFrame(pfn: nat, ghost lru: seq<nat>, ghost clock: seq<Entry<nat>>)
      requires LruHolds(lru) && ClockHolds(clock)
      modifies this`head, this`nodes, this`listRepr, this`clockHead, this`clockNodes, this`clockRepr, listRepr
      modifies clockRepr
      ensures LruHolds(if policy.Lru? then lru + [pfn] else lru)
      ensures ClockHolds(if policy.Clock? then clock + [Entry(pfn, false)] else clock)
      ensures fresh(listRepr - old(listRepr)) && fresh(clockRepr - old(clockRepr))
    {
      hide Linked, Contents;
      if policy.Lru? {
        head, nodes, listRepr := InsertTail(head, pfn, nodes, listRepr);
      } else if policy.Clock? {
        clockHead, clockNodes, clockRepr := InsertTail(clockHead, Entry(pfn, false), clockNodes, clockRepr);
      }
    }

    /** Copies the page from the swap disk into the frame and enters it in the inverted table. */
    method FillFrame(p: Page, writing: bool, pfn: nat)
      requires Dims() && InRange(p) && pfn < maxPfn && pfn <= |view.mem| && |view.dirty| == |view.mem|
      requires InvertedInRange() && FramesHold(view, pfn) && SwapHolds(view.swap)
      modifies this`stats, physicalMem, invertedPageTable
      ensures InvertedInRange() && FramesHold(Install(policy, view, pfn, p, writing), -1)
      ensures stats == old(stats).(swapReads := old(stats).swapReads + 1)
    {
      SwapIn(p, pfn);
      invertedPageTable[pfn] := p;
    }

    /** Makes the page table entry of the page just loaded. */
    method EnterPage(p: Page, pte: PTE, writing: bool, pfn: nat)
      requires Dims() && InRange(p) && pfn < maxPfn && pfn <= |view.mem| && |view.core.frames| == |view.mem|
      requires EntriesHold(view, pfn) && p !in view.core.frames
      requires pte == PTE(pfn, true, writing)
      modifies pageTable
      ensures EntriesHold(Install(policy, view, pfn, p, writing), -1)
    {
      hide Enqueue;
      WritePTE(p, pte);
      ghost var s, r := view, Install(policy, view, pfn, p, writing);
      assert forall f :: 0 <= f < |s.dirty| ==> s.core.frames[f] != p;
      assert forall f :: 0 <= f < |s.dirty| && f != pfn ==>
        r.core.frames[f] == s.core.frames[f] && r.dirty[f] == s.dirty[f];
    }

    /** Brings page p into the frame and makes its entries. */
    method LoadPage(p: Page, writing: bool, pfn: nat)
      requires Dims() && InRange(p) && pfn < maxPfn && pfn <= |view.mem|
      requires DataHold(view, pfn) && stats == view.stats && p !in view.core.frames
      modifies this`stats, this`view, physicalMem, pageTable, invertedPageTable
      ensures view == Install(policy, old(view), pfn, p, writing)
      ensures DataHold(view, -1) && stats == view.stats
    {
      var ipte := invertedPageTable[pfn];
      var pte := pageTable[ipte.pid, ipte.vpn];
      pte := pte.(dirty := writing);
      assert |view.mem| == |view.core.frames| == |view.dirty|;
      hide FramesHold, EntriesHold;
      FillFrame(p, writing, pfn);
      EnterPage(p, pte.(valid := true, pfn := pfn), writing, pfn);
      view := Install(policy, view, pfn, p, writing);
    }

    /** A frame not yet in use may be excepted for free. */
    lemma Relax(s: State, f: nat)
      requires Dims() && DataHold(s, -1) && f == |s.mem|
      ensures DataHold(s, f)
    {
    }

    /** No frame is free: unlinks a victim and swaps it out. */
    method ReplaceFrame() returns (pfn: nat)
      requires Dims() && Wf(policy, maxPfn, view) && |view.core.frames| == maxPfn
      requires ListsMatch(view.core) && DataHold(view, -1) && stats == view.stats
      modifies this`counter, this`head, this`nodes, this`clockHead, this`clockNodes, this`clockRepr, this`stats
      modifies this`view
      modifies swapDisk, pageTable, listRepr, clockRepr
      ensures pfn == Evict(policy, maxPfn, old(view.core)).0
      ensures view == SwapOut(old(view), pfn).(core := Evict(policy, maxPfn, old(view.core)).1)
      ensures ListsMatch(view.core) && DataHold(view, pfn) && stats == view.stats
      ensures fresh(clockRepr - old(clockRepr))
    {
      hide Linked, Contents, FramesHold, EntriesHold, SwapHolds, ListsFrames;
      ghost var core := Evict(policy, maxPfn, view.core).1;
      pfn := UnlinkVictim();
      Vacate(pfn);
      ghost var s := view;
      view := view.(core := core);
      hide DataHold;
      Recore(s, core, pfn);
    }

    /** The first free frame or, if there is none, one that has been vacated. */
    method AcquireFrame() returns (pfn: int)
      requires Valid()
      modifies this`nextFreeFrame, this`counter, this`head, this`nodes, this`clockHead, this`clockNodes, this`clockRepr
      modifies this`stats, this`view, swapDisk, pageTable, listRepr, clockRepr
      ensures 0 <= pfn < maxPfn && pfn <= |view.mem|
      ensures view == Vacated(Always, policy, maxPfn, old(view)) && pfn == TargetFrame(policy, maxPfn, old(view.core))
      ensures Dims() && ListsMatch(view.core) && DataHold(view, pfn) && stats == view.stats
      ensures nextFreeFrame == if |view.mem| < maxPfn then |view.mem| + 1 else maxPfn
      ensures fresh(clockRepr - old(clockRepr))
    {
      hide *;
      ValidParts();
      VacatedParts(policy, maxPfn, view);
      if nextFreeFrame < maxPfn {
        Relax(view, nextFreeFrame);
      }
      pfn := GetFreeFrame();
      if pfn < 0 {
        pfn := ReplaceFrame();
      }
    }

    /** The data do not depend on the replacement structures. */
    lemma Recore(s: State, core: Core, f: int)
      requires Dims() && DataHold(s, f) && core.frames == s.core.frames
      ensures DataHold(s.(core := core), f)
    {
    }

    /** Links the frame and loads the page into it. */
    method UseFrame(p: Page, writing: bool, pfn: nat)
      requires Dims() && InRange(p) && pfn < maxPfn && pfn <= |view.mem| == |view.core.frames| == |view.dirty|
      requires ListsMatch(view.core) && DataHold(view, pfn) && stats == view.stats && p !in view.core.frames
      modifies this`head, this`nodes, this`listRepr, this`clockHead, this`clockNodes, this`clockRepr, this`stats
      modifies this`view
      modifies physicalMem, pageTable, invertedPageTable, listRepr, clockRepr
      ensures view == Install(policy, old(view), pfn, p, writing)
      ensures ListsMatch(view.core) && DataHold(view, -1) && stats == view.stats
      ensures fresh(listRepr - old(listRepr)) && fresh(clockRepr - old(clockRepr))
    {
      hide DataHold, LruHolds, ClockHolds, Dims;
      LinkFrame(pfn, view.core.lru, view.core.clock);
      LoadPage(p, writing, pfn);
    }

    /** Handles a page fault: gets a frame, links it and loads the page. */
    method PageFaultHandler(p: Page, writing: bool) returns (pfn: int)
      requires Valid() && InRange(p) && p !in view.core.frames
      modifies this, physicalMem, swapDisk, pageTable, invertedPageTable, listRepr, clockRepr
      ensures Valid() && view == Fault(Always, policy, maxPfn, old(view), p, writing)
      ensures pfn == TargetFrame(policy, maxPfn, old(view.core))
      ensures fresh(listRepr - old(listRepr)) && fresh(clockRepr - old(clockRepr))
    {
      hide *;
      ghost var s := view;
      ValidParts();
      FaultParts(Always, policy, maxPfn, s, p, writing);
      pfn := AcquireFrame();
      UseFrame(p, writing, pfn);
      Assemble();
    }

    lemma ValidParts()
      requires Valid()
      ensures Dims() && Wf(policy, maxPfn, view) && nextFreeFrame == |view.core.frames|
      ensures |view.core.frames| == |view.mem| == |view.dirty| <= maxPfn && Distinct(view.core.frames)
      ensures ListsMatch(view.core) && LruHolds(view.core.lru) && ClockHolds(view.core.clock)
      ensures counter == view.core.counter
      ensures DataHold(view, -1) && InvertedInRange() && FramesHold(view, -1) && EntriesHold(view, -1)
      ensures SwapHolds(view.swap)
      ensures stats == view.stats
    {
    }

    lemma Assemble()
      requires Dims() && Wf(policy, maxPfn, view) && nextFreeFrame == |view.core.frames|
      requires ListsMatch(view.core) && DataHold(view, -1) && stats == view.stats
      ensures Valid()
    {
    }

    /** Sets the dirty bit of the entry on a write. */
    method MarkDirty(p: Page, writing: bool, ghost f: nat)
      requires Dims() && EntriesHold(view, -1) && f < |view.dirty| && view.core.frames[f] == p
      requires Distinct(view.core.frames)
      modifies pageTable
      ensures EntriesHold(view.(dirty := view.dirty[f := view.dirty[f] || writing]), -1)
    {
      var pte := pageTable[p.pid, p.vpn];
      if writing {
        pte := pte.(dirty := true);
        WritePTE(p, pte);
      }
    }

    /** Moves the frame to the tail of the LRU list. */
    method Requeue(pfn: nat, ghost lru: seq<nat>)
      requires LruHolds(lru)
      modifies this`head, this`nodes, this`listRepr, listRepr
      ensures LruHolds(Remove(lru, pfn) + [pfn])
      ensures fresh(listRepr - old(listRepr))
    {
      hide Linked, Contents;
      head, nodes := RemoveData(head, pfn, nodes, listRepr);
      head, nodes, listRepr := InsertTail(head, pfn, nodes, listRepr);
    }

    /** Records the use of a frame in the list of the policy. */
    method RecordHit(pfn: nat, ghost lru: seq<nat>, ghost clock: seq<Entry<nat>>)
      requires LruHolds(lru) && ClockHolds(clock)
      modifies this`head, this`nodes, this`listRepr, this`clockHead, listRepr, clockRepr
      ensures LruHolds(if policy.Lru? then Remove(lru, pfn) + [pfn] else lru)
      ensures ClockHolds(if policy.Clock? then WithRef(clock, pfn) else clock)
      ensures fresh(listRepr - old(listRepr))
    {
      hide Linked, Contents;
      if policy.Lru? {
        Requeue(pfn, lru);
      } else if policy.Clock? {
        WithRefIs(clock, pfn);
        clockHead := UpdateRef(clockHead, pfn, true, clockNodes, clockRepr);
      }
    }

    /** A valid entry names the frame of its page. */
    lemma EntryOf(p: Page)
      requires Valid() && InRange(p)
      ensures p.pid < pageTable.Length0 && p.vpn < pageTable.Length1
      ensures var pte := pageTable[p.pid, p.vpn];
        (pte.valid <==> p in view.core.frames) && (pte.valid ==> pte.pfn == IndexOf(view.core.frames, p))
    {
      var pte := pageTable[p.pid, p.vpn];
      if pte.valid {
        IndexUnique(view.core.frames, pte.pfn);
      }
    }

    /** The frame of a resident page, or -1; a hit updates the entry and the list. */
    method IsPageHit(p: Page, writing: bool) returns (pfn: int)
      requires Valid() && InRange(p)
      modifies this`head, this`nodes, this`listRepr, this`clockHead, this`view, listRepr, clockRepr, pageTable
      ensures p !in old(view.core.frames) ==> pfn == -1 && view == old(view)
      ensures p in old(view.core.frames) ==>
        pfn == IndexOf(old(view.core.frames), p) && view == HitState(policy, old(view), p, writing)
      ensures Valid() && fresh(listRepr - old(listRepr))
    {
      hide *;
      EntryOf(p);
      var pte := pageTable[p.pid, p.vpn];
      if !pte.valid {
        return -1;
      }
      pfn := pte.pfn;
      ghost var s := view;
      ValidParts();
      MarkDirty(p, writing, pfn);
      RecordHit(pfn, s.core.lru, s.core.clock);
      HitStateParts(policy, maxPfn, s, p, writing);
      view := HitState(policy, view, p, writing);
      AssembleHit(s);
    }

    /** The parts of Valid put together again after a hit in state s. */
    lemma AssembleHit(s: State)
      requires Dims() && Wf(policy, maxPfn, view) && nextFreeFrame == |s.core.frames|
      requires view.core.frames == s.core.frames
      requires LruHolds(view.core.lru) && ClockHolds(view.core.clock) && counter == view.core.counter
      requires InvertedInRange() && FramesHold(s, -1) && EntriesHold(s.(dirty := view.dirty), -1) && SwapHolds(s.swap)
      requires view.mem == s.mem && view.swap == s.swap && view.stats == s.stats == stats
      ensures Valid()
    {
    }

    method CountHit()
      requires Valid()
      modifies this`stats, this`view
      ensures Valid() && view == old(view).(stats := old(view.stats).(hits := old(view.stats.hits) + 1))
    {
      stats := stats.(hits := stats.hits + 1);
      view := view.(stats := stats);
    }

    method CountMiss()
      requires Valid()
      modifies this`stats, this`view
      ensures Valid() && view == old(view).(stats := old(view.stats).(misses := old(view.stats.misses) + 1))
    {
      stats := stats.(misses := stats.misses + 1);
      view := view.(stats := stats);
    }

    /** Counts the miss and handles the page fault. */
    method OnMiss(p: Page, writing: bool) returns (pfn: int)
      requires Valid() && InRange(p) && p !in view.core.frames
      modifies this, physicalMem, swapDisk, pageTable, invertedPageTable, listRepr, clockRepr
      ensures Valid()
      ensures view == Translate(Always, policy, maxPfn, old(view), p, writing) && pfn == IndexOf(view.core.frames, p)
      ensures fresh(listRepr - old(listRepr)) && fresh(clockRepr - old(clockRepr))
    {
      hide *;
      ghost var s := view;
      ValidParts();
      CountMiss();
      pfn := PageFaultHandler(p, writing);
      TranslateMiss(Always, policy, maxPfn, s, p, writing);
    }

    /** Translates a page to its frame, loading it on a miss. */
    method MMU(p: Page, writing: bool) returns (pfn: int, hit: bool)
      requires Valid() && InRange(p)
      modifies this, physicalMem, swapDisk, pageTable, invertedPageTable, listRepr, clockRepr
      ensures Valid() && view == Translate(Always, policy, maxPfn, old(view), p, writing)
      ensures hit <==> p in old(view.core.frames)
      ensures pfn == IndexOf(view.core.frames, p)
      ensures fresh(listRepr - old(listRepr)) && fresh(clockRepr - old(clockRepr))
    {
      hide *;
      ghost var s := view;
      ValidParts();
      pfn := IsPageHit(p, writing);
      if pfn >= 0 {
        CountHit();
        TranslateHit(Always, policy, maxPfn, s, p, writing);
        return pfn, true;
      }
      pfn := OnMiss(p, writing);
      hit := false;
    }

    /** The byte at a physical address, if the address names a frame. */
    method ReadPhysicalMem(addr: nat) returns (ok: bool, byte: char)
      requires Dims()
      ensures ok <==> addr / 256 < maxPfn
      ensures ok ==> byte == physicalMem[addr / 256]
    {
      var frameNo := addr / 256;
      if frameNo >= maxPfn {
        return false, ' ';
      }
      return true, physicalMem[frameNo];
    }

    method WritePhysicalMem(addr: nat, byte: char) returns (ok: bool)
      requires Dims()
      modifies physicalMem
      ensures ok <==> addr / 256 < maxPfn
      ensures forall f :: 0 <= f < maxPfn ==> physicalMem[f] == if f == addr / 256 then byte else old(physicalMem[f])
    {
      var frameNo := addr / 256;
      if frameNo >= maxPfn {
        return false;
      }
      physicalMem[frameNo] := byte;
      return true;
    }

    /** Writing the byte of a resident page. */
    method Store(f: nat, addr: nat, byte: char)
      requires Valid() && f < |view.mem| && addr / 256 == f
      modifies this`view, physicalMem
      ensures Valid() && view == old(view).(mem := old(view.mem)[f := byte])
    {
      var ok := WritePhysicalMem(addr, byte);
      assert ok;
      view := view.(mem := view.mem[f := byte]);
    }

    /** Reading the byte of a resident page. */
    method Load(f: nat, addr: nat) returns (byte: char)
      requires Valid() && f < |view.mem| && addr / 256 == f
      ensures byte == view.mem[f]
    {
      var ok;
      ok, byte := ReadPhysicalMem(addr);
      assert ok;
    }

    /** One line of the input. */
    method HandleLine(line: Line) returns (r: Outcome)
      requires Valid()
      modifies this, physicalMem, swapDisk, pageTable, invertedPageTable, listRepr, clockRepr
      ensures Valid() && fresh(listRepr - old(listRepr)) && fresh(clockRepr - old(clockRepr))
      ensures !Accepted(maxPid, maxVpn, line) ==>
        view == old(view) && r == if line.pid < maxPid then InvalidVpn else InvalidPid
      ensures Accepted(maxPid, maxVpn, line) ==>
        var (s, reply) := Serve(Always, policy, maxPfn, old(view), Request(PageOf(line), line.op));
        view == s && r == Served(reply.frame * 256 + line.addr % 256, reply.byte, reply.hit)
    {
      hide *;
      if line.pid > maxPid - 1 {
        RejectedPid(line);
        return InvalidPid;
      }
      var vpn := line.addr / 256;
      var offset := line.addr - vpn * 256;
      if vpn >= maxVpn {
        RejectedVpn(line);
        return InvalidVpn;
      }
      ghost var s := view;
      ValidParts();
      AcceptedParts(line);
      ServeParts(Always, policy, maxPfn, s, Request(PageOf(line), line.op));
      var pfn, hit := MMU(Page(line.pid, vpn), line.op.Write?);
      var physicalAddr := pfn * 256 + offset;
      SameFrame(pfn, offset);
      var byte;
      match line.op {
        case Read =>
          byte := Load(pfn, physicalAddr);
        case Write(b) =>
          byte := b;
          Store(pfn, physicalAddr, b);
      }
      return Served(physicalAddr, byte, hit);
    }

    /** The page table and the inverted table are inverse to each other. */
    lemma TablesAreInverse(pid: nat, vpn: nat, f: nat)
      requires Valid() && pid < maxPid && vpn < maxVpn && f < maxPfn
      ensures pid < pageTable.Length0 && vpn < pageTable.Length1 && f < invertedPageTable.Length
      ensures pageTable[pid, vpn].valid && pageTable[pid, vpn].pfn == f
              <==> f < nextFreeFrame && invertedPageTable[f] == Page(pid, vpn)
    {
      if f < nextFreeFrame {
        var p := view.core.frames[f];
        assert pageTable[p.pid, p.vpn] == PTE(f, true, view.dirty[f]);
      }
    }

    /** A valid entry is dirty exactly when its page was written to after, or by, its last load. */
    lemma DirtyEntries(t: seq<Request>, pid: nat, vpn: nat)
      requires Valid() && 1 <= maxPfn && view == RunAll(Always, policy, maxPfn, t).0
      requires pid < maxPid && vpn < maxVpn
      ensures pid < pageTable.Length0 && vpn < pageTable.Length1
      ensures pageTable[pid, vpn].valid ==>
        (pageTable[pid, vpn].dirty <==> WrittenSinceLoad(t, RunAll(Always, policy, maxPfn, t).1, Page(pid, vpn)))
    {
      hide RunAll, WrittenSinceLoad, Wf;
      ValidParts();
      DirtyIff(Always, policy, maxPfn, t);
      var pte := pageTable[pid, vpn];
      if pte.valid {
        assert view.core.frames[pte.pfn] == Page(pid, vpn);
      }
    }

    /** The request loop, on a simulator that has just been started. */
    method RunTrace(lines: seq<Line>) returns (out: seq<Outcome>)
      requires Valid() && view == START
      modifies this, physicalMem, swapDisk, pageTable, invertedPageTable, listRepr, clockRepr
      ensures Valid() && 1 <= maxPfn && view == RunAll(Always, policy, maxPfn, Requests(maxPid, maxVpn, lines)).0
      ensures |out| == |lines|
      ensures forall i :: 0 <= i < |lines| ==> Expected(policy, maxPfn, maxPid, maxVpn, lines, i, out[i])
    {
      hide *;
      ValidParts();
      DimsParts();
      RunStart(Always, policy, maxPfn, maxPid, maxVpn, lines);
      out := [];
      for n := 0 to |lines|
        invariant Valid()
        invariant fresh(listRepr - old(listRepr)) && fresh(clockRepr - old(clockRepr))
        invariant view == RunAll(Always, policy, maxPfn, Requests(maxPid, maxVpn, lines[..n])).0
        invariant |out| == n
        invariant forall i :: 0 <= i < n ==> Expected(policy, maxPfn, maxPid, maxVpn, lines, i, out[i])
      {
        ghost var s := view;
        ValidParts();
        var r := HandleLine(lines[n]);
        LineExpected(policy, maxPfn, maxPid, maxVpn, lines, n, s, view, r);
        out := out + [r];
      }
      assert lines[..|lines|] == lines;
    }

    lemma DimsParts()
      requires Dims()
      ensures 1 <= maxPfn
    {
    }

    lemma RejectedPid(line: Line)
      requires line.pid >= maxPid
      ensures !Accepted(maxPid, maxVpn, line)
    {
    }

    lemma RejectedVpn(line: Line)
      requires line.addr / 256 >= maxVpn
      ensures !Accepted(maxPid, maxVpn, line)
    {
    }

    lemma AcceptedParts(line: Line)
      requires line.pid < maxPid && line.addr / 256 < maxVpn
      ensures Accepted(maxPid, maxVpn, line) && PageOf(line) == Page(line.pid, line.addr / 256) && InRange(PageOf(line))
      ensures line.addr - line.addr / 256 * 256 == line.addr % 256
    {
    }
  }

  lemma SameFrame(pfn: nat, offset: nat)
    requires offset < 256
    ensures (pfn * 256 + offset) / 256 == pfn && (pfn * 256 + offset) % 256 == offset
  {
  }

  lemma RunStart(wb: WriteBack, policy: Policy, maxPfn: nat, maxPid: nat, maxVpn: nat, lines: seq<Line>)
    requires 1 <= maxPfn
    ensures RunAll(wb, policy, maxPfn, Requests(maxPid, maxVpn, lines[..0])).0 == START
  {
  }

  lemma RequestsSnoc(maxPid: nat, maxVpn: nat, lines: seq<Line>, n: nat)
    requires n < |lines|
    ensures var v, line := Requests(maxPid, maxVpn, lines[..n]), lines[n];
            Requests(maxPid, maxVpn, lines[..n + 1])
            == if Accepted(maxPid, maxVpn, line) then v + [Request(PageOf(line), line.op)] else v
  {
    assert lines[..n + 1][..n] == lines[..n];
  }

  lemma Advance(policy: Policy, k: nat, v: seq<Request>, req: Request)
    requires 1 <= k
    ensures RunAll(Always, policy, k, v + [req]).0 == Serve(Always, policy, k, RunAll(Always, policy, k, v).0, req).0
  {
    hide Serve, Wf;
    assert (v + [req])[..|v|] == v;
  }

  /** The reply to a request after the requests v. */
  lemma ReplyParts(policy: Policy, k: nat, v: seq<Request>, req: Request)
    requires 1 <= k
    ensures var s := RunAll(Always, policy, k, v).0;
            var reply := Serve(Always, policy, k, s, req).1;
      && reply.frame < |RunAll(Always, policy, k, v + [req]).0.core.frames| <= k
      && RunAll(Always, policy, k, v + [req]).0.core.frames[reply.frame] == req.page
      && reply.byte == (if req.op.Write? then req.op.byte else LastWritten(v, req.page))
      && (reply.hit <==> req.page in s.core.frames)
  {
    var s := RunAll(Always, policy, k, v).0;
    BytesAfterRun(Always, policy, k, v, req.page);
    ServeIsFlat(Always, policy, k, s, req, req.page);
    ServeParts(Always, policy, k, s, req);
    Advance(policy, k, v, req);
    hide RunAll, LastWritten, ByteOf;
  }

  /** One line: the state stays in step with the accepted requests, and the outcome is as specified. */
  lemma LineExpected(policy: Policy, maxPfn: nat, maxPid: nat, maxVpn: nat, lines: seq<Line>, n: nat, s: State,
                     s': State, r: Outcome)
    requires 1 <= maxPfn && n < |lines| && Wf(policy, maxPfn, s)
    requires s == RunAll(Always, policy, maxPfn, Requests(maxPid, maxVpn, lines[..n])).0
    requires !Accepted(maxPid, maxVpn, lines[n]) ==>
      s' == s && r == if lines[n].pid < maxPid then InvalidVpn else InvalidPid
    requires Accepted(maxPid, maxVpn, lines[n]) ==>
      var (t, reply) := Serve(Always, policy, maxPfn, s, Request(PageOf(lines[n]), lines[n].op));
      s' == t && r == Served(reply.frame * 256 + lines[n].addr % 256, reply.byte, reply.hit)
    ensures s' == RunAll(Always, policy, maxPfn, Requests(maxPid, maxVpn, lines[..n + 1])).0
    ensures Expected(policy, maxPfn, maxPid, maxVpn, lines, n, r)
  {
    hide Serve, Wf, RunAll, Requests, LastWritten;
    var v := Requests(maxPid, maxVpn, lines[..n]);
    RequestsSnoc(maxPid, maxVpn, lines, n);
    if Accepted(maxPid, maxVpn, lines[n]) {
      var req := Request(PageOf(lines[n]), lines[n].op);
      Advance(policy, maxPfn, v, req);
      ReplyParts(policy, maxPfn, v, req);
      SameFrame(Serve(Always, policy, maxPfn, s, req).1.frame, lines[n].addr % 256);
    }
  }
}
