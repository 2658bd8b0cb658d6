/** Processes on the linked list, in place: `create_process`, `schedule`, `__fork` and the page-fault handler
    against the state machine in `System`. */
module Kernel {
  import opened Words
  import opened Frames
  import opened Pmm
  import opened Mmu
  import opened KernelHeap
  import opened System
  import Memory
  import Paging
  import NewSpace
  import SystemInvariant
  import HeapList
  import HeapGrowth

  /** A process record; its address stands for the pointer value. */
  class Process {
    const addr: nat
    var pid: u32
    var eip: u32
    var esp: u32
    var ebp: u32
    var pageDir: FrameNo
    var status: Status
    var eflags: u32
    var next: Process?

    constructor (addr: nat)
      ensures this.addr == addr
    {
      this.addr := addr;
      pid, eip, esp, ebp, pageDir, status, eflags, next := 0, 0, 0, 0, 0, Ready, 0, null;
    }

    ghost function AsProc(): Proc
      reads this
    {
      Proc(addr, pid, eip, esp, ebp, pageDir, status, eflags)
    }
  }

  ghost function ProcsOf(nodes: seq<Process>): (ps: seq<Proc>)
    reads nodes
    ensures |ps| == |nodes| && forall i :: 0 <= i < |ps| ==> ps[i] == nodes[i].AsProc()
  {
    seq(|nodes|, i requires 0 <= i < |nodes| reads nodes => nodes[i].AsProc())
  }

  /** The nodes follow each other by their `next` fields. */
  ghost predicate Chain(nodes: seq<Process>)
    reads nodes
  {
    && (forall i {:trigger nodes[i].next} :: 0 <= i < |nodes| - 1 ==> nodes[i].next == nodes[i + 1])
    && (nodes != [] ==> nodes[|nodes| - 1].next == null)
  }

  function Head(nodes: seq<Process>): Process? {
    if nodes == [] then null else nodes[0]
  }

  lemma ChainFront(p: Process, nodes: seq<Process>)
    requires Chain(nodes) && p.next == Head(nodes)
    ensures Chain([p] + nodes)
  {
    var all := [p] + nodes;
    forall i | 0 <= i < |all| - 1 ensures all[i].next == all[i + 1] {
      if i > 0 { assert nodes[i - 1].next == nodes[i]; }
    }
  }

  lemma ProcsFront(p: Process, nodes: seq<Process>)
    ensures ProcsOf([p] + nodes) == [p.AsProc()] + ProcsOf(nodes)
  {}

  /** The parts `create_process` is made of. */
  lemma CreateInParts(s: Sys, s1: Sys, s2: Sys, eip: u32, p: Proc)
    requires s1 == AfterMalloc(s, PROCESS_BYTES)
    requires s2 == WithMachine(s1, NewSpace.BuildSpace(s1.m, s1.kernelDir).m)
    requires p == NewProc(PointerOf(SysMalloc(s, PROCESS_BYTES).block), s2.nextPid, eip,
                          NewSpace.BuildSpace(s1.m, s1.kernelDir).frame)
    ensures System.CreateProcess(s, eip) ==
      Sys(s2.m, s2.heap, s2.handed, s2.kernelDir, [p] + s2.procs,
          match s2.current case None => None case Some(i) => Some(i + 1), Wrap(s2.nextPid + 1))
  {}

  /** ... and `__fork`. */
  lemma ForkInParts(s: Sys, s1: Sys)
    requires HasCurrent(s) && s1 == System.CreateProcess(s, s.procs[s.current.value].eip) && s1.procs != []
    ensures System.Fork(s) ==
      if SysMalloc(s, PROCESS_BYTES).block.None? then s1
      else WithMachine(s1, Paging.CopyAddrSpace(s1.m, s.procs[s.current.value].dir, s1.procs[0].dir,
                                                Memory.KERNEL_PD_INDEX))
    ensures PointerOf(SysMalloc(s, PROCESS_BYTES).block) == 0 <==> SysMalloc(s, PROCESS_BYTES).block.None?
  {}

  class Kernel {
    const pmm: PageAllocator
    const mmu: Mmu
    const heap: KernelHeap
    var currentProcess: Process?
    var processList: Process?
    var nextPid: u32
    ghost var nodes: seq<Process>                 // the process list
    ghost var at: nat                             // where in it the current process is
    ghost var handed: seq<HeapList.Block>         // what malloc has handed out

    ghost predicate Valid()
      reads this, pmm, mmu, heap, heap.repr, nodes
    {
      && mmu.pmm == pmm && pmm.Valid() && heap.Valid()
      && Linked()
      && (currentProcess != null ==> at < |nodes| && nodes[at] == currentProcess)
    }

    /** The process list starts at `processList` and follows the `next` fields. */
    ghost predicate Linked()
      reads this, nodes
    {
      processList == Head(nodes) && Chain(nodes)
    }

    ghost function View(): Sys
      requires Valid()
      reads this, pmm, pmm.bitmap, mmu, heap, heap.repr, nodes
    {
      Sys(mmu.View(), heap.View(), handed, mmu.kernelDir, ProcsOf(nodes),
          if currentProcess == null then None else Some(at), nextPid)
    }

    lemma ViewParts()
      requires Valid()
      ensures View().nextPid == nextPid && View().kernelDir == mmu.kernelDir
    {}

    /** In every state the invariant holds in, the heap is ready for the next malloc. */
    lemma HeapIsReady()
      requires Valid() && SystemInvariant.SysInv(View())
      ensures Growable(heap.View(), pmm.View())
    {
      hide SystemInvariant.ProcsDistinct;
      SoundIsGrowable(heap.View(), pmm.View(), handed);
    }

    constructor (pmm: PageAllocator, mmu: Mmu, heap: KernelHeap)
      requires mmu.pmm == pmm && pmm.Valid() && heap.Valid()
      ensures this.pmm == pmm && this.mmu == mmu && this.heap == heap
      ensures Valid() && View() == Sys(mmu.View(), heap.View(), [], mmu.kernelDir, [], None, 1)
    {
      this.pmm, this.mmu, this.heap := pmm, mmu, heap;
      currentProcess, processList, nextPid := null, null, 1;
      nodes, at, handed := [], 0, [];
    }

    /** malloc, with the history of what it handed out. */
    method MallocRecord(size: u32) returns (addr: nat)
      requires Valid() && heap.EndListed()
      requires Growable(heap.View(), pmm.View())
      modifies heap, heap.repr, pmm.bitmap, pmm`own, pmm`failed, `handed
      ensures Valid() && heap.EndListed() && heap.repr >= old(heap.repr) && fresh(heap.repr - old(heap.repr))
      ensures View() == AfterMalloc(old(View()), size)
      ensures addr == PointerOf(SysMalloc(old(View()), size).block)
    {
      hide ProcsOf, Growable, HeapGrowth.Malloc, KernelHeap.Valid, KernelHeap.EndListed;
      var block := heap.Malloc(pmm, size);
      if block == null { return 0; }
      handed := handed + [block.AsBlock()];
      return block.addr + HeapList.HEADER;
    }

    /** `create_process` */
    method CreateProcess(eip: u32, esp: u32, ebp: u32) returns (p: Process)
      requires Valid() && heap.EndListed()
      requires Growable(heap.View(), pmm.View())
      modifies this, mmu`mem, heap, heap.repr, pmm.bitmap, pmm`own, pmm`failed
      ensures Valid() && heap.EndListed() && heap.repr >= old(heap.repr) && fresh(heap.repr - old(heap.repr))
      ensures View() == System.CreateProcess(old(View()), eip)
      ensures fresh(p) && nodes == [p] + old(nodes) && currentProcess == old(currentProcess)
      ensures p.addr == PointerOf(SysMalloc(old(View()), PROCESS_BYTES).block)
    {
      hide ProcsOf, Growable, AfterMalloc, SysMalloc, NewSpace.BuildSpace, NewProc, System.CreateProcess, View,
        KernelHeap.View, KernelHeap.Valid, KernelHeap.EndListed, Mmu.View, Linked;
      ghost var s0 := View();
      var addr := MallocRecord(PROCESS_BYTES);
      ghost var s1 := View();
      ViewParts();
      var dir := BuildSpace();
      ghost var s2 := View();
      ViewParts();
      p := NewRecord(addr, nextPid, eip, dir);
      ghost var record := p.AsProc();
      PushFront(p);
      CreateInParts(s0, s1, s2, eip, record);
    }

    /** The paging part, leaving everything but the machine alone. */
    method BuildSpace() returns (dir: FrameNo)
      requires Valid()
      modifies mmu`mem, pmm.bitmap, pmm`own, pmm`failed
      ensures Valid()
      ensures var s, space := old(View()), NewSpace.BuildSpace(old(View().m), mmu.kernelDir);
        View() == WithMachine(s, space.m) && dir == space.frame
    {
      hide ProcsOf, NewSpace.BuildSpace, KernelHeap.View, KernelHeap.Valid;
      dir := mmu.BuildSpace();
    }

    /** A filled record that is not on the list yet. */
    method NewRecord(addr: nat, pid: u32, eip: u32, dir: FrameNo) returns (p: Process)
      requires Valid()
      ensures Valid() && View() == old(View())
      ensures fresh(p) && p.AsProc() == NewProc(addr, pid, eip, dir) && p.addr == addr
    {
      hide ProcsOf, Mmu.View, KernelHeap.View, KernelHeap.Valid, KernelHeap.EndListed;
      p := new Process(addr);
      FillRecord(p, pid, eip, dir);
    }

    /** Fill a new record field by field. */
    method FillRecord(p: Process, pid: u32, eip: u32, dir: FrameNo)
      modifies p
      ensures p.AsProc() == NewProc(p.addr, pid, eip, dir)
    {
      p.pid := pid;
      p.eip := eip;
      p.pageDir := dir;
      p.esp := NewSpace.STACK_ADDRESS + PAGE_SIZE - 16;
      p.ebp := p.esp;
      p.eflags := EFLAGS;
      p.status := Ready;
    }

    /** Link a finished record at the head of the list, and move on to the next pid. */
    method PushFront(p: Process)
      requires Valid() && p !in nodes
      modifies p`next, `processList, `nodes, `at, `nextPid
      ensures Valid() && nodes == [p] + old(nodes)
      ensures var s := old(View());
        View() == Sys(s.m, s.heap, s.handed, s.kernelDir, [old(p.AsProc())] + s.procs,
                      match s.current case None => None case Some(i) => Some(i + 1), Wrap(s.nextPid + 1))
    {
      hide Chain, ProcsOf, View, Mmu.View, KernelHeap.View, KernelHeap.Valid, KernelHeap.EndListed;
      ghost var ns, ps := nodes, ProcsOf(nodes);
      ViewFields();
      p.next := processList;
      processList := p;
      nextPid := Wrap(nextPid + 1);
      nodes, at := [p] + ns, at + 1;
      ChainFront(p, ns);
      ProcsFront(p, ns);
      ViewFields();
    }

    lemma ViewFields()
      requires Valid()
      ensures View() == Sys(mmu.View(), heap.View(), handed, mmu.kernelDir, ProcsOf(nodes),
                            if currentProcess == null then None else Some(at), nextPid)
    {}

    /** `switch_to_process`, as far as memory is concerned. */
    method SwitchTo(next: Process?, ghost i: nat)
      requires Valid() && (next != null ==> i < |nodes| && nodes[i] == next)
      modifies `currentProcess, `at
      ensures Valid() && (if next == null then currentProcess == old(currentProcess) && at == old(at)
                          else currentProcess == next && at == i)
    {
      if next == null { return; }
      currentProcess, at := next, i;
    }

    /** `schedule` */
    method Schedule()
      requires Valid()
      modifies `currentProcess, `at
      ensures Valid() && View() == System.Schedule(old(View()))
    {
      hide ProcsOf, Mmu.View, KernelHeap.View, KernelHeap.Valid, KernelHeap.EndListed;
      if processList == null { return; }
      ghost var i := 0;
      if currentProcess == null {
        currentProcess, at := processList, 0;
      } else {
        assert at < |nodes| - 1 ==> nodes[at].next == nodes[at + 1];
        i := if at + 1 < |nodes| then at + 1 else 0;
        currentProcess, at := if currentProcess.next != null then currentProcess.next else processList, i;
      }
      SwitchTo(currentProcess, i);
    }

    /** `__fork`: -1 without a current process or without a record for the child, otherwise the child's pid. */
    method Fork() returns (r: int)
      requires Valid() && heap.EndListed()
      requires Growable(heap.View(), pmm.View())
      modifies this, mmu`mem, heap, heap.repr, pmm.bitmap, pmm`own, pmm`failed
      ensures Valid() && heap.EndListed()
      ensures View() == System.Fork(old(View()))
      ensures r == if old(currentProcess) == null || SysMalloc(old(View()), PROCESS_BYTES).block.None? then -1
                   else View().procs[0].pid
    {
      hide ProcsOf, Growable, System.CreateProcess, System.Fork, View, KernelHeap.View, KernelHeap.Valid,
        KernelHeap.EndListed, SysMalloc;
      if currentProcess == null {
        ForkWithoutParent();
        return -1;
      }
      ghost var s := View();
      var parent := currentProcess;
      CurrentParts();
      var child := CreateProcess(parent.eip, parent.esp, parent.ebp);
      ghost var s1 := View();
      ChildParts(child);
      ForkInParts(s, s1);
      if child.addr == 0 { return -1; }
      CopyToChild(parent, child);
      ChildParts(child);
      return if currentProcess == parent then child.pid else 0;
    }

    lemma ForkWithoutParent()
      requires Valid() && currentProcess == null
      ensures System.Fork(View()) == View()
    {}

    /** What the state says about the current process. */
    lemma CurrentParts()
      requires Valid() && currentProcess != null
      ensures var s := View();
        HasCurrent(s) && s.procs[s.current.value].eip == currentProcess.eip
        && s.procs[s.current.value].dir == currentProcess.pageDir
    {}

    lemma ChildParts(child: Process)
      requires Valid() && nodes != [] && nodes[0] == child
      ensures var s := View(); s.procs != [] && s.procs[0].dir == child.pageDir && s.procs[0].pid == child.pid
    {}

    /** The copy, leaving everything but the machine alone. */
    method CopyToChild(parent: Process, child: Process)
      requires Valid()
      modifies mmu`mem, pmm.bitmap, pmm`own, pmm`failed
      ensures Valid()
      ensures View() == WithMachine(old(View()),
        Paging.CopyAddrSpace(old(View().m), parent.pageDir, child.pageDir, Memory.KERNEL_PD_INDEX))
    {
      hide ProcsOf, Paging.CopyAddrSpace, KernelHeap.View, KernelHeap.Valid;
      mmu.CopyAddrSpace(parent.pageDir, child.pageDir);
    }

    lemma NullAnswer(purpose: Owner)
      requires Valid()
      ensures Paging.NewFrame(mmu.View(), purpose).frame == 0 <==> pmm.FreeSet() == {} || 0 in pmm.FreeSet()
    {
      NullIff(pmm.View(), purpose);
    }

    /** `page_fault_handler`: its panics only print, and it goes on to map the page it got.  It reports a protection
        fault exactly for odd error codes, and a lack of memory exactly if no page is free or page 0 is. */
    method PageFault(error: u32, addr: u32) returns (printed: seq<string>)
      requires Valid() && currentProcess != null
      modifies mmu`mem, pmm.bitmap, pmm`own, pmm`failed
      ensures Valid() && View() == System.PageFault(old(View()), error, addr)
      ensures "Protection fault" in printed <==> error % 2 == 1
      ensures "Out of memory" in printed <==> old(pmm.FreeSet()) == {} || 0 in old(pmm.FreeSet())
    {
      hide ProcsOf, Paging.MapPage, Paging.NewFrame, KernelHeap.View, KernelHeap.Valid, Mmu.View;
      var virt: u32 := PAGE_SIZE * FrameOf(addr);
      NullAnswer(Page(currentProcess.pageDir, virt / PAGE_SIZE));
      printed := if Present(error) then ["Protection fault"] else [];
      var page := mmu.AllocFrame(Page(currentProcess.pageDir, virt / PAGE_SIZE));
      if page == 0 {
        printed := printed + ["Out of memory"];
      }
      mmu.MapPage(currentProcess.pageDir, virt, page * PAGE_SIZE, Paging.USER_FLAGS);
    }
  }
}
