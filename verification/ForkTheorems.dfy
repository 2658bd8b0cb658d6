/** What fork, page faults and stores mean for the memory a process sees, and what fork costs. */
module ForkTheorems {
  import opened Words
  import opened Frames
  import opened Memory
  import opened Paging
  import opened Ownership
  import opened NewSpace
  import opened System
  import opened SystemInvariant
  import opened SystemRuns
  import opened CopyCost
  import opened AddressSpaceCopy
  import opened UserMappings
  import HeapList
  import HeapGrowth

  // ----- fork -----

  /** The user half of the child after fork, page by page.  Where the parent has a page table, the child maps
      exactly the parent's pages, each on a frame that was free, with equal contents, present, writable and
      user; the new process's own stack page survives only where the parent has no table.  The parent keeps
      all its pages and contents. */
  lemma ForkIsDeepCopy(s: Sys, v: FrameNo)
    requires SysInv(s) && HasCurrent(s) && !Fork(s).m.pool.failed && v < USER_PAGES
    ensures var s' := Fork(s);
      var parent, child := s.procs[s.current.value].dir, s'.procs[0].dir;
      && (if Present(Word(s.m.mem, parent, DirIndex(v))) then CopiedPage(s.m, s'.m, parent, child, v)
          else Walk(s'.m.mem, child, v).Some? <==> v == STACK_PAGE)
      && KeptPage(s.m.mem, s'.m.mem, parent, v)
      && s'.procs[s'.current.value] == s.procs[s.current.value]
  {
    hide Inv, HeapGrowth.Sound, ProcsDistinct, CopyAddrSpace, BuildSpace, HeapGrowth.Malloc;
    var p := s.procs[s.current.value];
    var parent, s1, s' := p.dir, CreateProcess(s, p.eip), Fork(s);
    var child := s1.procs[0].dir;
    var sp1 := SpacesOf(s1);
    ForkCopies(s);
    CreateKeeps(s, p.eip);
    ForkKeeps(s);
    DirNotFree(s, s.current.value);
    DirNotFree(s1, s.current.value + 1);
    DirNotFree(s1, 0);
    CopyAddrSpaceCopies(s1.m, sp1, parent, child, KERNEL_PD_INDEX, v);
    ConfinedKeepsPage(s.m, s1.m, SpacesOf(s), child, parent, v);
    ConfinedKeepsPage(s.m, s'.m, SpacesOf(s), child, parent, v);
    assert s1.m.mem[parent] == s.m.mem[parent] by { ParentDirectoryKept(s, s1.m, child, parent); }
    NewProcessPages(s, p.eip, v);
  }

  lemma ParentDirectoryKept(s: Sys, m': Machine, child: FrameNo, parent: FrameNo)
    requires SysInv(s) && Confined(s.m, m', s.kernelDir, child)
    requires parent in Dirs(s.procs) && child in s.m.pool.free
    ensures m'.mem[parent] == s.m.mem[parent]
  {}

  /** A new process starts with its stack page, zeroed, and no other user page; its stack pointer is 16-byte
      aligned inside that page. */
  lemma NewProcessPages(s: Sys, eip: u32, v: FrameNo)
    requires SysInv(s) && !CreateProcess(s, eip).m.pool.failed && v < USER_PAGES
    ensures var s' := CreateProcess(s, eip);
      && (Walk(s'.m.mem, s'.procs[0].dir, v).Some? <==> v == STACK_PAGE)
      && (forall i: nat :: i < ENTRIES ==> Load(s'.m.mem, s'.procs[0].dir, STACK_PAGE, i) == Some(0))
      && s'.procs[0].esp / PAGE_SIZE == STACK_PAGE && s'.procs[0].esp % 16 == 0 && s'.procs[0].ebp == s'.procs[0].esp
      && s'.procs[0].eip == eip
  {
    hide Inv, HeapGrowth.Sound, BuildSpace, HeapGrowth.Malloc;
    var s1 := AfterMalloc(s, PROCESS_BYTES);
    BuildSpaceFails(s1.m, s.kernelDir);
    AfterMallocKeeps(s, PROCESS_BYTES, s.kernelDir);
    BuildSpaceKeeps(s1.m, SpacesOf(s));
  }

  /** The record `create_process` fills in: in front of the list, with the stack pointer 16 bytes below the end of
      the stack page, interrupts enabled, ready, the entry point asked for and the next pid.  It lies in a new heap
      block of at least 36 bytes, right behind the header.  Nothing else of the list changes. */
  lemma NewProcessRecord(s: Sys, eip: u32)
    requires SysInv(s) && !CreateProcess(s, eip).m.pool.failed
    ensures var s' := CreateProcess(s, eip);
      && |s'.procs| == |s.procs| + 1 && s'.procs[1..] == s.procs
      && var p := s'.procs[0];
      && p.esp == 0xBF_FFF0 && p.ebp == 0xBF_FFF0 && p.eflags == 0x202 && p.status == Ready && p.eip == eip
      && p.pid == s.nextPid && s'.nextPid == s.nextPid + 1
      && (if s.current.None? then s'.current.None? else s'.current == Some(s.current.value + 1))
      && |s'.handed| == |s.handed| + 1 && s'.handed[..|s.handed|] == s.handed
      && var b := s'.handed[|s.handed|];
      b.size >= 36 && p.addr == b.addr + 12
  {
    hide Inv, Access.AccessInv, HeapGrowth.Sound, BuildSpace, HeapGrowth.Malloc;
    BuildSpaceFails(AfterMalloc(s, PROCESS_BYTES).m, s.kernelDir);
    RecordFound(s);
    DirsCount(s.procs);
  }

  /** Its address space: the stack page on a frame that was free, open to user code. */
  lemma NewProcessStack(s: Sys, eip: u32)
    requires SysInv(s) && !CreateProcess(s, eip).m.pool.failed
    ensures var s' := CreateProcess(s, eip);
      && |s'.procs| > 0 && s'.procs[0].dir in s.m.pool.free
      && Walk(s'.m.mem, s'.procs[0].dir, 0xBFF).Some?
      && var e := Walk(s'.m.mem, s'.procs[0].dir, 0xBFF).value;
      e == FrameOf(e) * 4096 + 7 && FrameOf(e) in s.m.pool.free
  {
    hide Inv, Access.AccessInv, HeapGrowth.Sound, BuildSpace, HeapGrowth.Malloc, Walk;
    var s1 := AfterMalloc(s, PROCESS_BYTES);
    CreateShape(s, eip);
    CreateKeeps(s, eip);
    BuildSpaceFails(s1.m, s.kernelDir);
    AfterMallocKeeps(s, PROCESS_BYTES, s.kernelDir);
    BuildSpaceFrames(s1.m, SpacesOf(s));
  }

  /** A child is such a process, with its parent's entry point, in front of an unchanged list. */
  lemma ForkRecord(s: Sys)
    requires SysInv(s) && HasCurrent(s) && !Fork(s).m.pool.failed
    ensures var s', parent := Fork(s), s.procs[s.current.value];
      && |s'.procs| == |s.procs| + 1 && s'.procs[1..] == s.procs && s'.current == Some(s.current.value + 1)
      && var p := s'.procs[0];
      && p.esp == 0xBF_FFF0 && p.ebp == 0xBF_FFF0 && p.eflags == 0x202 && p.status == Ready && p.eip == parent.eip
      && p.pid == s.nextPid && s'.nextPid == s.nextPid + 1
  {
    hide SysInv, CreateProcess, CopyAddrSpace;
    ForkCopies(s);
    NewProcessRecord(s, s.procs[s.current.value].eip);
  }

  /** After a fork, parent and child never see each other's stores: whatever is stored by one of them, by faults
      in it or by mappings made for it, the other's user half stays as fork left it. */
  lemma ForkedProcessesAreIsolated(s: Sys, es: seq<Event>)
    requires SysInv(s) && HasCurrent(s)
    requires var s' := Fork(s); !s'.m.pool.failed && !Run(s', es).m.pool.failed
    ensures var s' := Fork(s);
      var parent, child := s.procs[s.current.value].dir, s'.procs[0].dir;
      && parent != child
      && (NeverActedOn(s', es, parent) ==> SameUserView(s.m.mem, Run(s', es).m.mem, parent))
      && (NeverActedOn(s', es, child) ==> SameUserView(s'.m.mem, Run(s', es).m.mem, child))
  {
    hide Inv, Run, Fork, NeverActedOn, HeapGrowth.Sound;
    var s' := Fork(s);
    ForkShape(s);
    ForkKeeps(s);
    DirNotFree(s, s.current.value);
    var parent, child := s.procs[s.current.value].dir, s'.procs[0].dir;
    DirNotFree(s', 0);
    DirsGrow(s, s');
    ConfinedKeepsView(s.m, s'.m, SpacesOf(s), child, parent);
    if NeverActedOn(s', es, parent) {
      Isolation(s', es, parent);
      SameViewTwice(s.m.mem, s'.m.mem, Run(s', es).m.mem, parent);
    }
    if NeverActedOn(s', es, child) { Isolation(s', es, child); }
  }

  lemma SameViewTwice(mem: Mem, mem1: Mem, mem2: Mem, q: FrameNo)
    requires SameUserView(mem, mem1, q) && SameUserView(mem1, mem2, q)
    ensures SameUserView(mem, mem2, q)
  {}

  // ----- The price -----

  /** Frames the heap takes for a process record. */
  function RecordFrames(h: HeapGrowth.Heap): nat {
    if HeapList.FirstFit(h.blocks, PROCESS_BYTES) < |h.blocks| then 0 else 1
  }

  lemma RecordPaid(s: Sys)
    requires SysInv(s)
    ensures Paid(s.m.pool, AfterMalloc(s, PROCESS_BYTES).m.pool, RecordFrames(s.heap))
  {
    hide Inv;
    HeapGrowth.PageRequest(s.heap, s.m.pool, PROCESS_BYTES);
    TakePaid(s.m.pool, HeapPage);
  }

  /** Creating a process takes exactly three frames besides a possible heap page. */
  lemma CreatePaid(s: Sys, eip: u32)
    requires SysInv(s)
    ensures Paid(s.m.pool, CreateProcess(s, eip).m.pool, RecordFrames(s.heap) + 3)
  {
    hide Inv, HeapGrowth.Sound, BuildSpace, HeapGrowth.Malloc;
    var s1 := AfterMalloc(s, PROCESS_BYTES);
    RecordPaid(s);
    BuildSpaceFails(s1.m, s.kernelDir);
    AfterMallocKeeps(s, PROCESS_BYTES, s.kernelDir);
    BuildSpacePaid(s1.m, SpacesOf(s));
    PaidTwice(s.m.pool, s1.m.pool, CreateProcess(s, eip).m.pool, RecordFrames(s.heap), 3);
  }

  lemma {:induction false} CopyFramesKept(m: Machine, m': Machine, sp: Spaces, src: FrameNo, dst: FrameNo, n: nat)
    requires Inv(m, sp) && src in sp.dirs && src != dst && n <= KERNEL_PD_INDEX
    requires Confined(m, m', sp.kernelDir, dst)
    ensures CopyFrames(m'.mem, src, n) == CopyFrames(m.mem, src, n)
  {
    hide Inv, Confined, TableFrames;
    if n > 0 {
      CopyFramesKept(m, m', sp, src, dst, n - 1);
      SourceKept(m, m', sp, src, dst, n - 1);
    }
  }

  /** The copy into a process just created costs what the parent's pages were worth before. */
  lemma CopyPaid(s: Sys, eip: u32)
    requires SysInv(s) && HasCurrent(s) && !CreateProcess(s, eip).m.pool.failed
    ensures var s1, parent := CreateProcess(s, eip), s.procs[s.current.value].dir;
      s1.procs != [] &&
      Paid(s1.m.pool, CopyAddrSpace(s1.m, parent, s1.procs[0].dir, KERNEL_PD_INDEX).pool,
           CopyFrames(s.m.mem, parent, KERNEL_PD_INDEX))
  {
    hide Inv, Access.AccessInv, HeapGrowth.Sound, ProcsDistinct, CopyAddrSpace, CreateProcess, CopyFrames,
      Confined, Dirs;
    var s1, k, parent := CreateProcess(s, eip), s.current.value, s.procs[s.current.value].dir;
    CreateShape(s, eip);
    CreateKeeps(s, eip);
    DirNotFree(s, k);
    DirNotFree(s1, k + 1);
    DirNotFree(s1, 0);
    CopyAddrSpacePaid(s1.m, SpacesOf(s1), parent, s1.procs[0].dir, KERNEL_PD_INDEX);
    CopyFramesKept(s.m, s1.m, SpacesOf(s), parent, s1.procs[0].dir, KERNEL_PD_INDEX);
  }

  /** A fork takes the frames of a new process plus one for each page table of the parent's user half and one
      for each page mapped there, and succeeds if and only if that many are free. */
  lemma ForkPaid(s: Sys)
    requires SysInv(s) && HasCurrent(s)
    ensures Paid(s.m.pool, Fork(s).m.pool,
      RecordFrames(s.heap) + 3 + CopyFrames(s.m.mem, s.procs[s.current.value].dir, KERNEL_PD_INDEX))
  {
    hide SysInv, CopyAddrSpace, CreateProcess, CopyFrames, RecordFrames, SysMalloc;
    var p := s.procs[s.current.value];
    var s1 := CreateProcess(s, p.eip);
    CreateShape(s, p.eip);
    CreatePaid(s, p.eip);
    CopyFails(s1.m, p.dir, s1.procs[0].dir, KERNEL_PD_INDEX);
    if !s1.m.pool.failed {
      RecordHad(s, p.eip);
      CopyPaid(s, p.eip);
    }
    PaidTwice(s.m.pool, s1.m.pool, Fork(s).m.pool, RecordFrames(s.heap) + 3,
              CopyFrames(s.m.mem, p.dir, KERNEL_PD_INDEX));
  }

  // ----- Faults and stores -----

  /** A page fault at any address puts the lowest free frame behind the page, open to user code, whatever the error
      code says, also for a protection fault on a mapped page, whose old frame is then no longer reachable.  The
      process's other pages are kept, the user pages among them with their contents. */
  lemma FaultRemaps(s: Sys, error: u32, addr: u32, v: FrameNo)
    requires SysInv(s) && HasCurrent(s) && !PageFault(s, error, addr).m.pool.failed
    ensures var s', d := PageFault(s, error, addr), s.procs[s.current.value].dir;
      if v == addr / PAGE_SIZE then
        s.m.pool.free != {} && Walk(s'.m.mem, d, v) == Some(Lowest(s.m.pool.free) * 4096 + 7)
      else
        Walk(s'.m.mem, d, v) == Walk(s.m.mem, d, v) && (v < USER_PAGES ==> KeptPage(s.m.mem, s'.m.mem, d, v))
  {
    hide Inv, HeapGrowth.Sound, ProcsDistinct, MapNew, KeptPage;
    var d, virt: u32 := s.procs[s.current.value].dir, PAGE_SIZE * FrameOf(addr);
    DirNotFree(s, s.current.value);
    assert virt / PAGE_SIZE == addr / PAGE_SIZE;
    MapNewRemaps(s.m, SpacesOf(s), d, virt, v);
  }

  /** A store through any mapped page of the user half is what the next load of that word sees; every other word
      of every user page of the process is as before. */
  lemma StoreThenLoad(s: Sys, addr: u32, w: u32, v: FrameNo, i: nat)
    requires SysInv(s) && HasCurrent(s) && addr < KERNEL_BASE && v < USER_PAGES && i < ENTRIES
    requires Walk(s.m.mem, s.procs[s.current.value].dir, addr / PAGE_SIZE).Some?
    ensures var s', d := Store(s, addr, w), s.procs[s.current.value].dir;
      Load(s'.m.mem, d, v, i) ==
        if v == addr / PAGE_SIZE && i == addr / 4 % ENTRIES then Some(w) else Load(s.m.mem, d, v, i)
  {
    hide HeapGrowth.Sound, ProcsDistinct, Access.AccessInv, Access.MayWrite;
    MayWriteIff(s, s.current.value, addr / PAGE_SIZE);
  }
}
