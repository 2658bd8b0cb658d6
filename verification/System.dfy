/** The memory and process core as one state machine: what every event does to the whole state. */
module System {
  import opened Words
  import opened Frames
  import opened Memory
  import opened Paging
  import opened NewSpace
  import Access
  import HeapList
  import HeapGrowth

  const PROCESS_BYTES: u32 := 36      // sizeof(process_t)
  const EFLAGS: u32 := 0x202
  const FRAMEBUFFER_FLAGS: u32 := 0xA   // PAGE_RW | PAGE_WRITE_THROUGH

  datatype Status = Ready | Running

  /** A process record; `addr` is the address malloc returned for it. */
  datatype Proc = Proc(addr: nat, pid: u32, eip: u32, esp: u32, ebp: u32, dir: FrameNo, status: Status, eflags: u32)

  /** The state: machine, heap, process list from its head, position of the current process, next pid.
      `handed` records every block malloc has handed out. */
  datatype Sys = Sys(m: Machine, heap: HeapGrowth.Heap, handed: seq<HeapList.Block>, kernelDir: FrameNo,
                     procs: seq<Proc>, current: Option<nat>, nextPid: u32)

  // ----- malloc inside the system -----

  ghost function SysMalloc(s: Sys, size: u32): HeapGrowth.Given {
    HeapGrowth.Malloc(s.heap, s.m.pool, size)
  }

  function PointerOf(b: Option<HeapList.Block>): nat {
    match b
    case None => 0
    case Some(x) => x.addr + HeapList.HEADER
  }

  /** The state after a call of malloc whose result is not looked at further. */
  ghost function AfterMalloc(s: Sys, size: u32): Sys {
    var g := SysMalloc(s, size);
    Sys(Machine(s.m.mem, g.pool), g.heap,
        match g.block case None => s.handed case Some(b) => s.handed + [b],
        s.kernelDir, s.procs, s.current, s.nextPid)
  }

  // ----- Processes -----

  function NewProc(addr: nat, pid: u32, eip: u32, dir: FrameNo): Proc {
    var top: u32 := STACK_ADDRESS + PAGE_SIZE - 16;
    Proc(addr, pid, eip, top, top, dir, Ready, EFLAGS)
  }

  /** `create_process`: a record from the heap, an address space, the head of the list. */
  ghost function CreateProcess(s: Sys, eip: u32): Sys {
    var s1 := AfterMalloc(s, PROCESS_BYTES);
    var space := BuildSpace(s1.m, s.kernelDir);
    var p := NewProc(PointerOf(SysMalloc(s, PROCESS_BYTES).block), s.nextPid, eip, space.frame);
    Sys(space.m, s1.heap, s1.handed, s.kernelDir, [p] + s.procs,
        match s.current case None => None case Some(i) => Some(i + 1), Wrap(s.nextPid + 1))
  }

  /** The process `current_process` points to. */
  predicate HasCurrent(s: Sys) {
    s.current.Some? && s.current.value < |s.procs|
  }

  /** `__fork`: nothing without a current process; otherwise a child with a copy of its user half, unless the
      child's record came back NULL. */
  ghost function Fork(s: Sys): Sys {
    if !HasCurrent(s) then s
    else
      var parent := s.procs[s.current.value];
      var s1 := CreateProcess(s, parent.eip);
      if SysMalloc(s, PROCESS_BYTES).block.None? then s1
      else WithMachine(s1, CopyAddrSpace(s1.m, parent.dir, s1.procs[0].dir, KERNEL_PD_INDEX))
  }

  /** `schedule`: the next process of the list, or its head. */
  function Schedule(s: Sys): Sys {
    if s.procs == [] then s
    else
      var next := match s.current
        case None => 0
        case Some(i) => if i + 1 < |s.procs| then i + 1 else 0;
      s.(current := Some(next))
  }

  function WithMachine(s: Sys, m: Machine): Sys {
    Sys(m, s.heap, s.handed, s.kernelDir, s.procs, s.current, s.nextPid)
  }

  /** `page_fault_handler` for the current process.  Its two panics only print; both are followed by the
      allocation and the mapping. */
  ghost function PageFault(s: Sys, error: u32, addr: u32): Sys {
    if !HasCurrent(s) then s
    else WithMachine(s, MapNew(s.m, s.procs[s.current.value].dir, PAGE_SIZE * FrameOf(addr)))
  }

  /** `map_framebuffer`, the one caller of `map_physical_region`. */
  ghost function MapFramebuffer(s: Sys, addr: u32, size: u32): Sys {
    WithMachine(s, MapPhysicalRegion(s.m, s.kernelDir, addr, size, FRAMEBUFFER_FLAGS))
  }

  /** A word stored by the current process, to any page both entries of which let user code write.  At any other
      address it stores nothing. */
  ghost function Store(s: Sys, addr: u32, w: u32): Sys {
    if !HasCurrent(s) then s
    else
      var d, v: FrameNo := s.procs[s.current.value].dir, addr / PAGE_SIZE;
      if Access.MayWrite(s.m.mem, d, v) then
        WithMachine(s, Machine(SetWord(s.m.mem, FrameOf(Walk(s.m.mem, d, v).value), addr / 4 % ENTRIES, w), s.m.pool))
      else s
  }

  // ----- Events and runs -----

  datatype Event =
    | Create(eip: u32)
    | ForkCurrent
    | Fault(error: u32, addr: u32)
    | MapUser(index: nat, code: u32, codeSize: u32, stack: u32, stackSize: u32)
    | MapFrames(addr: u32, size: u32)
    | StoreWord(addr: u32, w: u32)
    | KernelMalloc(size: u32)
    | Tick

  ghost function Step(s: Sys, e: Event): Sys {
    match e
    case Create(eip) => CreateProcess(s, eip)
    case ForkCurrent => Fork(s)
    case Fault(error, addr) => PageFault(s, error, addr)
    case MapUser(i, code, codeSize, stack, stackSize) =>
      if i < |s.procs| then WithMachine(s, MapUserSpace(s.m, s.procs[i].dir, code, codeSize, stack, stackSize)) else s
    case MapFrames(addr, size) => MapFramebuffer(s, addr, size)
    case StoreWord(addr, w) => Store(s, addr, w)
    case KernelMalloc(size) => AfterMalloc(s, size)
    case Tick => Schedule(s)
  }

  ghost function Run(s: Sys, es: seq<Event>): Sys
    decreases |es|
  {
    if es == [] then s else Run(Step(s, es[0]), es[1..])
  }

  /** Boot: `init_pages`, then `heap_init`; no process yet. */
  ghost function Boot(mem: Mem, free: set<FrameNo>): Sys {
    var a := InitPages(Machine(mem, Pool(free, map[], false)));
    var g := HeapGrowth.HeapInit(a.m.pool);
    Sys(Machine(a.m.mem, g.pool), g.heap, [], a.frame, [], None, 1)
  }
}
