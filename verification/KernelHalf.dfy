/** The upper quarter of the address space: directory entries copied from the kernel at creation stay what they
    were, so that everything mapped under them later is seen alike by the kernel and by every process. */
module KernelHalf {
  import opened Words
  import opened Frames
  import opened Memory
  import opened Paging
  import opened Ownership
  import opened NewSpace
  import opened System
  import opened SystemInvariant
  import opened SystemRuns
  import opened CopyCost
  import HeapGrowth
  import Regions
  import Access
  import Copy = AddressSpaceCopy

  /** Present directory entries of the existing directories are unchanged. */
  ghost predicate EntriesKept(m: Machine, m': Machine, sp: Spaces) {
    forall d: FrameNo, i: nat :: IsDir(sp, d) && i < ENTRIES && Present(Word(m.mem, d, i)) ==>
      Word(m'.mem, d, i) == Word(m.mem, d, i)
  }

  lemma EntriesKeptTwice(m: Machine, m1: Machine, m2: Machine, sp: Spaces)
    requires EntriesKept(m, m1, sp) && EntriesKept(m1, m2, sp)
    ensures EntriesKept(m, m2, sp)
  {}

  lemma MapPageKeepsEntries(m: Machine, sp: Spaces, d: FrameNo, virt: u32, phys: u32, flags: u32)
    requires Inv(m, sp) && IsDir(sp, d) && !MapPage(m, d, virt, phys, flags).pool.failed
    ensures EntriesKept(m, MapPage(m, d, virt, phys, flags), sp)
  {}

  lemma MapNewKeepsEntries(m: Machine, sp: Spaces, d: FrameNo, virt: u32)
    requires Inv(m, sp) && d in sp.dirs && !MapNew(m, d, virt).pool.failed
    ensures EntriesKept(m, MapNew(m, d, virt), sp)
  {
    hide Inv, MapPage;
    var a := NewFrame(m, Page(d, virt / PAGE_SIZE));
    NewFrameKeeps(m, sp, Page(d, virt / PAGE_SIZE), d);
    MapPageKeepsEntries(a.m, sp, d, virt, a.frame * PAGE_SIZE, USER_FLAGS);
  }

  lemma {:induction false} MapCodeKeepsEntries(m: Machine, sp: Spaces, d: FrameNo, code: u32, n: nat)
    requires Inv(m, sp) && d in sp.dirs && !MapCode(m, d, code, n).pool.failed
    ensures EntriesKept(m, MapCode(m, d, code, n), sp)
  {
    hide Inv, MapNew, Wrap;
    if n > 0 {
      var m1, virt := MapCode(m, d, code, n - 1), Wrap(code + (n - 1) * PAGE_SIZE);
      MapNewFails(m1, d, virt);
      MapCodeKeeps(m, sp, d, code, n - 1);
      MapCodeKeepsEntries(m, sp, d, code, n - 1);
      MapNewKeepsEntries(m1, sp, d, virt);
      EntriesKeptTwice(m, m1, MapCode(m, d, code, n), sp);
    }
  }

  lemma {:induction false} MapStackKeepsEntries(m: Machine, sp: Spaces, d: FrameNo, stack: u32, n: nat)
    requires Inv(m, sp) && d in sp.dirs && !MapStack(m, d, stack, n).pool.failed
    ensures EntriesKept(m, MapStack(m, d, stack, n), sp)
  {
    hide Inv, MapNew, Wrap;
    if n > 0 {
      var m1, virt := MapStack(m, d, stack, n - 1), Wrap(stack - n * PAGE_SIZE);
      MapNewFails(m1, d, virt);
      MapStackKeeps(m, sp, d, stack, n - 1);
      MapStackKeepsEntries(m, sp, d, stack, n - 1);
      MapNewKeepsEntries(m1, sp, d, virt);
      EntriesKeptTwice(m, m1, MapStack(m, d, stack, n), sp);
    }
  }

  lemma MapUserKeepsEntries(m: Machine, sp: Spaces, d: FrameNo, code: u32, codeSize: u32, stack: u32, stackSize: u32)
    requires Inv(m, sp) && d in sp.dirs && !MapUserSpace(m, d, code, codeSize, stack, stackSize).pool.failed
    ensures EntriesKept(m, MapUserSpace(m, d, code, codeSize, stack, stackSize), sp)
  {
    hide Inv, MapCode, MapStack, Pages;
    var m1 := MapCode(m, d, code, Pages(codeSize));
    MapStackFails(m1, d, stack, Pages(stackSize));
    MapCodeKeeps(m, sp, d, code, Pages(codeSize));
    MapCodeKeepsEntries(m, sp, d, code, Pages(codeSize));
    MapStackKeepsEntries(m1, sp, d, stack, Pages(stackSize));
    EntriesKeptTwice(m, m1, MapUserSpace(m, d, code, codeSize, stack, stackSize), sp);
  }

  lemma {:induction false} MapRegionKeepsEntries(m: Machine, sp: Spaces, start: u32, flags: u32, n: nat)
    requires Inv(m, sp) && !MapRegion(m, sp.kernelDir, start, flags, n).pool.failed
    ensures EntriesKept(m, MapRegion(m, sp.kernelDir, start, flags, n), sp)
  {
    hide Inv, MapPage, Wrap;
    if n > 0 {
      var m1, addr := MapRegion(m, sp.kernelDir, start, flags, n - 1), Wrap(start + (n - 1) * PAGE_SIZE);
      MapPagePaid(m1, sp.kernelDir, addr, addr, flags);
      MapRegionKeeps(m, sp, start, flags, n - 1);
      MapRegionKeepsEntries(m, sp, start, flags, n - 1);
      MapPageKeepsEntries(m1, sp, sp.kernelDir, addr, addr, flags);
      EntriesKeptTwice(m, m1, MapRegion(m, sp.kernelDir, start, flags, n), sp);
    }
  }

  /** What is confined to a new space, or to no space at all, changes no existing directory. */
  lemma OtherDirectoriesKept(m: Machine, m': Machine, sp: Spaces, d: FrameNo)
    requires Inv(m, sp) && Confined(m, m', sp.kernelDir, d) && !IsDir(sp, d)
    ensures EntriesKept(m, m', sp)
  {}

  /** No event changes a present directory entry of the kernel or of a process that exists. */
  lemma StepKeepsEntries(s: Sys, e: Event)
    requires SysInv(s) && !Step(s, e).m.pool.failed
    ensures EntriesKept(s.m, Step(s, e).m, SpacesOf(s))
  {
    hide Inv, Confined, HeapGrowth.Sound, ProcsDistinct, MapNew, MapUserSpace, MapPhysicalRegion, CreateProcess,
      Fork, Store;
    match e
    case Create(eip) =>
      CreateActs(s, eip);
      CreateKeeps(s, eip);
      NewDirIsNew(s, Actor(s, e));
      OtherDirectoriesKept(s.m, Step(s, e).m, SpacesOf(s), Actor(s, e));
    case ForkCurrent =>
      ForkShape(s);
      if HasCurrent(s) {
        ForkActs(s);
        ForkKeeps(s);
        NewDirIsNew(s, Actor(s, e));
        OtherDirectoriesKept(s.m, Step(s, e).m, SpacesOf(s), Actor(s, e));
      }
    case Fault(error, addr) =>
      if HasCurrent(s) {
        DirNotFree(s, s.current.value);
        MapNewKeepsEntries(s.m, SpacesOf(s), s.procs[s.current.value].dir, PAGE_SIZE * FrameOf(addr));
      }
    case MapUser(i, code, codeSize, stack, stackSize) =>
      if i < |s.procs| {
        DirNotFree(s, i);
        MapUserKeepsEntries(s.m, SpacesOf(s), s.procs[i].dir, code, codeSize, stack, stackSize);
      }
    case MapFrames(addr, size) =>
      MapFramebufferKeepsEntries(s, addr, size);
    case StoreWord(addr, w) =>
      StoreShape(s, addr, w);
      if HasCurrent(s) { StoreKeepsEntries(s, addr, w); }
    case KernelMalloc(size) =>
    case Tick =>
  }

  lemma NewDirIsNew(s: Sys, d: FrameNo)
    requires SysInv(s) && d in s.m.pool.free
    ensures !IsDir(SpacesOf(s), d)
  {}

  lemma MapFramebufferKeepsEntries(s: Sys, addr: u32, size: u32)
    requires SysInv(s) && !MapFramebuffer(s, addr, size).m.pool.failed
    ensures EntriesKept(s.m, MapFramebuffer(s, addr, size).m, SpacesOf(s))
  {
    hide Inv, MapRegion;
    MapRegionKeepsEntries(s.m, SpacesOf(s), RegionStart(addr), FRAMEBUFFER_FLAGS, RegionPages(addr, size));
  }

  lemma StoreKeepsEntries(s: Sys, addr: u32, w: u32)
    requires SysInv(s) && HasCurrent(s)
    ensures EntriesKept(s.m, Store(s, addr, w).m, SpacesOf(s))
  {}

  /** ... nor does any run. */
  lemma {:induction false} RunKeepsEntry(s: Sys, es: seq<Event>, d: FrameNo, i: nat)
    requires SysInv(s) && !Run(s, es).m.pool.failed
    requires IsDir(SpacesOf(s), d) && i < ENTRIES && Present(Word(s.m.mem, d, i))
    ensures Word(Run(s, es).m.mem, d, i) == Word(s.m.mem, d, i)
    decreases |es|
  {
    hide SysInv, Step, Dirs;
    if es != [] {
      RunFails(Step(s, es[0]), es[1..]);
      StepKeeps(s, es[0]);
      StepKeepsEntries(s, es[0]);
      RunKeepsEntry(Step(s, es[0]), es[1..], d, i);
    }
  }

  lemma CreateSharesKernelHalf(s: Sys, eip: u32, i: nat)
    requires SysInv(s) && !CreateProcess(s, eip).m.pool.failed
    requires KERNEL_PD_INDEX <= i < ENTRIES
    ensures var s' := CreateProcess(s, eip);
      Word(s'.m.mem, s'.procs[0].dir, i) == Word(s'.m.mem, s.kernelDir, i) == Word(s.m.mem, s.kernelDir, i)
  {
    hide Inv, HeapGrowth.Sound, ProcsDistinct, BuildSpace, HeapGrowth.Malloc;
    var s0, s1 := AfterMalloc(s, PROCESS_BYTES), CreateProcess(s, eip);
    BuildSpaceFails(s0.m, s.kernelDir);
    AfterMallocKeeps(s, PROCESS_BYTES, s.kernelDir);
    BuildSpaceKeeps(s0.m, SpacesOf(s));
    CreateKeeps(s, eip);
    NewDirIsNew(s, s1.procs[0].dir);
    KernelDirectoryKept(s.m, s1.m, SpacesOf(s), s1.procs[0].dir);
  }

  /** A new process, also a forked one, starts with the kernel's upper half. */
  lemma NewProcessSharesKernelHalf(s: Sys, e: Event, i: nat)
    requires SysInv(s) && !Step(s, e).m.pool.failed && (e.Create? || (e.ForkCurrent? && HasCurrent(s)))
    requires 768 <= i < 1024
    ensures var s' := Step(s, e);
      Word(s'.m.mem, s'.procs[0].dir, i) == Word(s'.m.mem, s.kernelDir, i) == Word(s.m.mem, s.kernelDir, i)
  {
    hide Inv, HeapGrowth.Sound, ProcsDistinct, CreateProcess, CopyAddrSpace;
    if e.Create? {
      CreateSharesKernelHalf(s, e.eip, i);
    } else {
      var p := s.procs[s.current.value];
      var s1 := CreateProcess(s, p.eip);
      CreateShape(s, p.eip);
      ForkCopies(s);
      CreateKeeps(s, p.eip);
      CreateSharesKernelHalf(s, p.eip, i);
      AddressSpaceCopyKeepsHalf(s1, s.current.value + 1, i);
    }
  }

  lemma KernelDirectoryKept(m: Machine, m': Machine, sp: Spaces, d: FrameNo)
    requires Inv(m, sp) && Confined(m, m', sp.kernelDir, d) && d != sp.kernelDir
    ensures m'.mem[sp.kernelDir] == m.mem[sp.kernelDir]
  {}

  lemma AddressSpaceCopyKeepsHalf(s: Sys, parent: nat, i: nat)
    requires SysInv(s) && 0 < parent < |s.procs| && KERNEL_PD_INDEX <= i < ENTRIES
    requires !CopyAddrSpace(s.m, s.procs[parent].dir, s.procs[0].dir, KERNEL_PD_INDEX).pool.failed
    ensures var m' := CopyAddrSpace(s.m, s.procs[parent].dir, s.procs[0].dir, KERNEL_PD_INDEX);
      && Word(m'.mem, s.procs[0].dir, i) == Word(s.m.mem, s.procs[0].dir, i)
      && Word(m'.mem, s.kernelDir, i) == Word(s.m.mem, s.kernelDir, i)
  {
    hide Inv, HeapGrowth.Sound, CopyAddrSpace;
    DirNotFree(s, parent);
    DirNotFree(s, 0);
    Copy.CopyAddrSpaceKeeps(s.m, SpacesOf(s), s.procs[parent].dir, s.procs[0].dir, KERNEL_PD_INDEX);
  }

  /** The shared kernel half: once a process agrees with the kernel on a present entry, then in every later
      state every page under that entry, mapped before or since, is seen by both alike. */
  lemma KernelHalfIsShared(s: Sys, es: seq<Event>, d: FrameNo, v: FrameNo)
    requires SysInv(s) && !Run(s, es).m.pool.failed && d in Dirs(s.procs) && v >= USER_PAGES
    requires Present(Word(s.m.mem, s.kernelDir, DirIndex(v)))
    requires Word(s.m.mem, d, DirIndex(v)) == Word(s.m.mem, s.kernelDir, DirIndex(v))
    ensures var s' := Run(s, es); Walk(s'.m.mem, d, v) == Walk(s'.m.mem, s'.kernelDir, v)
  {
    hide SysInv, Run;
    RunKeeps(s, es);
    RunKeepsEntry(s, es, d, DirIndex(v));
    RunKeepsEntry(s, es, s.kernelDir, DirIndex(v));
  }

  /** What `map_page` does in one directory is seen in another exactly if the two already had the table of that
      page in common. */
  lemma MappingSeenIff(m: Machine, sp: Spaces, d: FrameNo, virt: u32, phys: u32, flags: u32, q: FrameNo)
    requires Inv(m, sp) && IsDir(sp, d) && IsDir(sp, q) && q != d
    requires !MapPage(m, d, virt, phys, flags).pool.failed
    ensures var m', v: FrameNo := MapPage(m, d, virt, phys, flags), virt / PAGE_SIZE;
      Walk(m'.mem, q, v) == if SharesTable(m.mem, d, q, v) then Some(PageEntry(phys, flags)) else Walk(m.mem, q, v)
  {
    hide PageEntry;
    var v: FrameNo := virt / PAGE_SIZE;
    var i := DirIndex(v);
    MapPageRefinesUpdate(m, sp, d, virt, phys, flags, q, v);
    MapPageEntries(m, sp, d, virt, phys, flags, d, i);
    MapPageEntries(m, sp, d, virt, phys, flags, q, i);
    if !Present(Word(m.mem, d, i)) { FreshTable(m, sp, d, virt, phys, flags, q); }
  }

  /** A page the kernel maps is seen by an existing process exactly if the two already had the table in common:
      under an entry that was absent, the mapping stays the kernel's own. */
  lemma KernelMappingSeenIff(m: Machine, sp: Spaces, d: FrameNo, virt: u32, phys: u32, flags: u32)
    requires Inv(m, sp) && d in sp.dirs
    requires !MapPage(m, sp.kernelDir, virt, phys, flags).pool.failed
    ensures var m', v: FrameNo := MapPage(m, sp.kernelDir, virt, phys, flags), virt / PAGE_SIZE;
      && Walk(m'.mem, sp.kernelDir, v) == Some(PageEntry(phys, flags))
      && Walk(m'.mem, d, v) ==
         (if SharesTable(m.mem, sp.kernelDir, d, v) then Some(PageEntry(phys, flags)) else Walk(m.mem, d, v))
  {
    hide PageEntry, MapPage, SharesTable;
    MapPageRefinesUpdate(m, sp, sp.kernelDir, virt, phys, flags, sp.kernelDir, virt / PAGE_SIZE);
    MappingSeenIff(m, sp, sp.kernelDir, virt, phys, flags, d);
  }

  /** A page fault of one process changes the faulting page for the kernel, or for another process, exactly if
      they share its table with the process; that can only be in the kernel half. */
  lemma FaultSeenIff(s: Sys, error: u32, addr: u32, q: FrameNo)
    requires SysInv(s) && HasCurrent(s) && !PageFault(s, error, addr).m.pool.failed
    requires IsDir(SpacesOf(s), q) && q != s.procs[s.current.value].dir
    ensures var s', d, v: FrameNo := PageFault(s, error, addr), s.procs[s.current.value].dir, addr / PAGE_SIZE;
      && Walk(s'.m.mem, q, v) == (if SharesTable(s.m.mem, d, q, v) then Walk(s'.m.mem, d, v) else Walk(s.m.mem, q, v))
      && (SharesTable(s.m.mem, d, q, v) ==> addr >= KERNEL_BASE)
  {
    hide Inv, HeapGrowth.Sound, ProcsDistinct, MapPage, PageEntry, SharesTable;
    var d, virt: u32, sp := s.procs[s.current.value].dir, PAGE_SIZE * FrameOf(addr), SpacesOf(s);
    var v: FrameNo := addr / PAGE_SIZE;
    assert virt / PAGE_SIZE == v;
    DirNotFree(s, s.current.value);
    var a := NewFrame(s.m, Page(d, v));
    NewFrameKeeps(s.m, sp, Page(d, v), d);
    MapPagePaid(a.m, d, virt, a.frame * PAGE_SIZE, USER_FLAGS);
    MapPageRefinesUpdate(a.m, sp, d, virt, a.frame * PAGE_SIZE, USER_FLAGS, d, v);
    MappingSeenIff(a.m, sp, d, virt, a.frame * PAGE_SIZE, USER_FLAGS, q);
    if addr < KERNEL_BASE { UserTablesDiffer(s.m, sp, d, q, v); }
  }

  lemma UserTablesDiffer(m: Machine, sp: Spaces, d: FrameNo, q: FrameNo, v: FrameNo)
    requires Inv(m, sp) && IsDir(sp, d) && IsDir(sp, q) && q != d && v < USER_PAGES
    ensures !SharesTable(m.mem, d, q, v)
  {
    if SharesTable(m.mem, d, q, v) {
      TableFrame(m, sp, d, DirIndex(v));
      TableFrame(m, sp, q, DirIndex(v));
    }
  }

  /** A table allocated by `map_page` is in no other directory. */
  lemma FreshTable(m: Machine, sp: Spaces, d: FrameNo, virt: u32, phys: u32, flags: u32, q: FrameNo)
    requires Inv(m, sp) && IsDir(sp, d) && IsDir(sp, q) && q != d
    requires !MapPage(m, d, virt, phys, flags).pool.failed
    requires !Present(Word(m.mem, d, DirIndex(virt / PAGE_SIZE)))
    ensures !SharesTable(MapPage(m, d, virt, phys, flags).mem, d, q, virt / PAGE_SIZE)
  {
    var i := DirIndex(virt / PAGE_SIZE);
    MapPageEntries(m, sp, d, virt, phys, flags, q, i);
    var t := CreatePageTable(m, Table(d, i)).frame;
    TableEntryParts(t);
    EnsureTableKeeps(m, sp, d, i);
    TableFrame(EnsureTable(m, d, i), sp, d, i);
    if Present(Word(m.mem, q, i)) { TableFrame(m, sp, q, i); }
  }

  /** `map_framebuffer` maps every byte of the frame buffer to itself, writable for the kernel and written through
      (bits 0, 1 and 3). */
  lemma FramebufferMapped(s: Sys, addr: u32, size: u32, b: u32)
    requires SysInv(s) && !MapFramebuffer(s, addr, size).m.pool.failed
    requires 0 < size <= 0xFFFF_F000 && addr <= b < addr + size <= 0x1_0000_0000
    ensures Walk(MapFramebuffer(s, addr, size).m.mem, s.kernelDir, b / 4096) == Some(b / 4096 * 4096 + 11)
  {
    hide Inv, HeapGrowth.Sound, ProcsDistinct, Access.AccessInv, MapPhysicalRegion;
    Regions.MapPhysicalRegionMaps(s.m, SpacesOf(s), addr, size, FRAMEBUFFER_FLAGS, b / 4096);
    assert Or(0xA, 1) == 11;
  }
}
