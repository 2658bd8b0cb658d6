/** Two short runs from boot: a kernel mapping that an existing process does not see, and a page fault of one
    process that changes a page for another. */
module KernelHalfRuns {
  import opened Words
  import opened Frames
  import opened Memory
  import opened Paging
  import opened Ownership
  import opened CopyCost
  import opened System
  import opened SystemInvariant
  import opened KernelHalf
  import opened Prices
  import Regions
  import SystemRuns
  import ForkTheorems
  import ForkRuns
  import HeapGrowth

  const UPPER: u32 := 0xC000_0000
  const UPPER_PAGE: FrameNo := 0xC_0000
  const UPPER_INDEX := 768

  /** At boot no entry of the kernel half is present. */
  lemma BootUpperEmpty(mem: Mem, free: set<FrameNo>)
    requires |free| >= 4
    ensures var s := Boot(mem, free); !Present(Word(s.m.mem, s.kernelDir, UPPER_INDEX))
  {
    hide MapPage, MapRegion, Inv, Regions.FilledTo, Walk;
    var m := Machine(mem, Pool(free, map[], false));
    var a, n := CreatePageTable(m, Directory), IDENTITY_BYTES / PAGE_SIZE;
    SystemRuns.BootSound(mem, free);
    Regions.InitPagesIsIdentity(m, 0);
    Regions.RegionFails(a.m, a.frame, 0, 2, n);
    Regions.NewKernelDir(m);
    Regions.IdentityTables(a.m, a.frame, 2, n);
    EntryEmpty(MapRegion(a.m, a.frame, 0, 2, n).mem, a.frame);
  }

  lemma EntryEmpty(mem: Mem, dir: FrameNo)
    requires Regions.FilledTo(mem, dir, IDENTITY_BYTES / PAGE_SIZE)
    ensures !Present(Word(mem, dir, UPPER_INDEX))
  {}

  lemma BootFrames(mem: Mem, free: set<FrameNo>)
    requires |free| >= 4
    ensures var s := Boot(mem, free);
      && SysInv(s) && !s.m.pool.failed && |s.m.pool.free| == |free| - 4 && s.procs == [] && s.current.None?
  {
    hide SysInv, InitPages;
    var m := Machine(mem, Pool(free, map[], false));
    SystemRuns.BootSound(mem, free);
    Regions.InitPagesIsIdentity(m, 0);
    TakePaid(InitPages(m).m.pool, HeapPage);
  }

  /** With the frames to pay for it an event succeeds, and the invariant holds after it. */
  lemma Afford(s: Sys, e: Event, cost: nat)
    requires SysInv(s) && !s.m.pool.failed && Cost(s, e) <= cost <= |s.m.pool.free|
    ensures var s' := Step(s, e);
      && !s'.m.pool.failed && |s'.m.pool.free| >= |s.m.pool.free| - cost
      && SysInv(s') && s'.kernelDir == s.kernelDir && SpacesOf(s').kernelDir == s.kernelDir
  {
    hide SysInv, Step, Cost;
    StepPaid(s, e);
    StepKeeps(s, e);
  }

  lemma AbsentOne(mem: Mem, d: FrameNo, i: nat)
    ensures |Absent(mem, d, {i})| <= 1
  {
    assert Absent(mem, d, {i}) == {} || Absent(mem, d, {i}) == {i};
  }

  /** One page of frame buffer at 3 GiB is one call of `map_page`. */
  lemma OnePage(s: Sys)
    ensures var e := MapFrames(UPPER, PAGE_SIZE);
      && Step(s, e) == WithMachine(s, MapPage(s.m, s.kernelDir, UPPER, UPPER, FRAMEBUFFER_FLAGS))
      && Cost(s, e) <= 1
  {
    hide MapPage, Absent;
    assert RegionPages(UPPER, PAGE_SIZE) == 1 && RegionStart(UPPER) == UPPER;
    assert MapRegion(s.m, s.kernelDir, UPPER, FRAMEBUFFER_FLAGS, 0) == s.m;
    assert TablesUp(UPPER, 0) == {};
    assert TablesUp(UPPER, 1) == {UPPER_INDEX};
    AbsentOne(s.m.mem, s.kernelDir, UPPER_INDEX);
  }

  lemma CreateCurrent(s: Sys, eip: u32)
    ensures s.current.None? ==> CreateProcess(s, eip).current.None?
  {}

  lemma Created(s: Sys, eip: u32)
    requires SysInv(s) && !s.m.pool.failed && |s.m.pool.free| >= 4
    ensures var s' := Step(s, Create(eip));
      && !s'.m.pool.failed && |s'.m.pool.free| >= |s.m.pool.free| - 4 && SysInv(s') && s'.kernelDir == s.kernelDir
      && |s'.procs| == |s.procs| + 1 && s'.procs[1..] == s.procs && s'.procs[0].dir in Dirs(s'.procs)
      && (s.current.None? ==> s'.current.None?)
      && Word(s'.m.mem, s'.procs[0].dir, UPPER_INDEX) == Word(s'.m.mem, s.kernelDir, UPPER_INDEX)
      && Word(s'.m.mem, s.kernelDir, UPPER_INDEX) == Word(s.m.mem, s.kernelDir, UPPER_INDEX)
  {
    hide SysInv, CreateProcess;
    assert Cost(s, Create(eip)) <= 4;
    Afford(s, Create(eip), 4);
    CreateShape(s, eip);
    CreateCurrent(s, eip);
    CreateSharesKernelHalf(s, eip, UPPER_INDEX);
    DirsGrow(s, Step(s, Create(eip)));
  }

  /** Boot, create a process, then map a page at 3 GiB: the kernel has it, the process does not. */
  lemma KernelMappingIsMissed(mem: Mem, free: set<FrameNo>, eip: u32)
    requires |free| >= 9
    ensures var s := Step(Step(Boot(mem, free), Create(eip)), MapFrames(UPPER, PAGE_SIZE));
      && !s.m.pool.failed && |s.procs| == 1
      && Walk(s.m.mem, s.kernelDir, UPPER_PAGE).Some? && Walk(s.m.mem, s.procs[0].dir, UPPER_PAGE).None?
  {
    hide SysInv, Step, Boot, Cost, MapPage, SharesTable, Inv;
    BootFrames(mem, free);
    BootUpperEmpty(mem, free);
    var s0 := Boot(mem, free);
    Created(s0, eip);
    var s1 := Step(s0, Create(eip));
    OnePage(s1);
    Afford(s1, MapFrames(UPPER, PAGE_SIZE), 1);
    ForkRuns.InvOf(s1);
    KernelMappingSeenIff(s1.m, SpacesOf(s1), s1.procs[0].dir, UPPER, UPPER, FRAMEBUFFER_FLAGS);
    AbsentIsUnshared(s1.m.mem, s1.kernelDir, s1.procs[0].dir);
  }

  lemma AbsentIsUnshared(mem: Mem, d: FrameNo, q: FrameNo)
    requires !Present(Word(mem, q, UPPER_INDEX))
    ensures !SharesTable(mem, d, q, UPPER_PAGE) && Walk(mem, q, UPPER_PAGE).None?
  {}

  lemma SameIsShared(mem: Mem, d: FrameNo, q: FrameNo)
    requires Present(Word(mem, d, UPPER_INDEX)) && Word(mem, q, UPPER_INDEX) == Word(mem, d, UPPER_INDEX)
    ensures SharesTable(mem, d, q, UPPER_PAGE) && Walk(mem, q, UPPER_PAGE) == Walk(mem, d, UPPER_PAGE)
  {}

  /** The state before the fault of the second run: a page at 3 GiB, two processes, the newer one current. */
  ghost function TwoProcesses(mem: Mem, free: set<FrameNo>, eip: u32): Sys {
    Step(Step(Step(Step(Boot(mem, free), MapFrames(UPPER, PAGE_SIZE)), Create(eip)), Create(eip)), Tick)
  }

  lemma TwoProcessesShape(mem: Mem, free: set<FrameNo>, eip: u32)
    requires |free| >= 15
    ensures var s := TwoProcesses(mem, free, eip);
      && SysInv(s) && !s.m.pool.failed && |s.m.pool.free| >= 2 && |s.procs| == 2 && s.current == Some(0)
      && s.procs[0].dir != s.procs[1].dir
      && SharesTable(s.m.mem, s.procs[0].dir, s.procs[1].dir, UPPER_PAGE)
      && Walk(s.m.mem, s.procs[1].dir, UPPER_PAGE) == Some(PageEntry(UPPER, FRAMEBUFFER_FLAGS))
  {
    hide SysInv, Step, Boot, Cost, MapPage, SharesTable, Inv, PageEntry, Walk, Actor;
    BootFrames(mem, free);
    var s0 := Boot(mem, free);
    OnePage(s0);
    Afford(s0, MapFrames(UPPER, PAGE_SIZE), 1);
    var s1 := Step(s0, MapFrames(UPPER, PAGE_SIZE));
    ForkRuns.InvOf(s0);
    MapPageRefinesUpdate(s0.m, SpacesOf(s0), s0.kernelDir, UPPER, UPPER, FRAMEBUFFER_FLAGS, s0.kernelDir, UPPER_PAGE);
    MappedIsPresent(s1.m.mem, s0.kernelDir);
    Created(s1, eip);
    var s2 := Step(s1, Create(eip));
    Created(s2, eip);
    var s3 := Step(s2, Create(eip));
    var p1 := s2.procs[0].dir;
    KernelHalfIsKept(s1, eip);
    KernelHalfIsKept(s2, eip);
    ProcsEntry(s2, eip, p1);
    Ticked(s3);
    SameIsShared(s3.m.mem, s0.kernelDir, s3.procs[0].dir);
    SameIsShared(s3.m.mem, s0.kernelDir, s3.procs[1].dir);
    SameIsShared(s3.m.mem, s3.procs[0].dir, s3.procs[1].dir);
  }

  lemma MappedIsPresent(mem: Mem, d: FrameNo)
    requires Walk(mem, d, UPPER_PAGE).Some?
    ensures Present(Word(mem, d, UPPER_INDEX))
  {}

  /** Creating a process changes nothing the kernel sees at 3 GiB. */
  lemma KernelHalfIsKept(s: Sys, eip: u32)
    requires SysInv(s) && !Step(s, Create(eip)).m.pool.failed
    requires Present(Word(s.m.mem, s.kernelDir, UPPER_INDEX))
    ensures Walk(Step(s, Create(eip)).m.mem, s.kernelDir, UPPER_PAGE) == Walk(s.m.mem, s.kernelDir, UPPER_PAGE)
  {
    hide HeapGrowth.Sound, ProcsDistinct, CreateProcess, Access.AccessInv, PagesOwned;
    var s' := CreateProcess(s, eip);
    CreateShape(s, eip);
    ForkRuns.CreateWritesFresh(s, eip);
    TableFrame(s.m, SpacesOf(s), s.kernelDir, UPPER_INDEX);
    assert s'.m.mem[s.kernelDir] == s.m.mem[s.kernelDir];
  }

  lemma ProcsEntry(s: Sys, eip: u32, d: FrameNo)
    requires SysInv(s) && !Step(s, Create(eip)).m.pool.failed && d in Dirs(s.procs)
    requires Present(Word(s.m.mem, d, UPPER_INDEX))
    ensures Word(Step(s, Create(eip)).m.mem, d, UPPER_INDEX) == Word(s.m.mem, d, UPPER_INDEX)
  {
    hide SysInv, Step;
    StepKeepsEntries(s, Create(eip));
  }

  lemma Ticked(s: Sys)
    requires SysInv(s) && s.current.None? && |s.procs| == 2
    ensures var s' := Step(s, Tick);
      SysInv(s') && s'.m == s.m && s'.procs == s.procs && s'.kernelDir == s.kernelDir && s'.current == Some(0)
    ensures s.procs[0].dir != s.procs[1].dir
  {
    hide Inv, HeapGrowth.Sound, Access.AccessInv;
    TickKeeps(s);
  }

  /** Boot, map a page at 3 GiB, create two processes, let the newer one run and fault there: the other process
      now sees the fresh frame in place of the page it saw before. */
  lemma FaultIsSeenByOthers(mem: Mem, free: set<FrameNo>, eip: u32, error: u32)
    requires |free| >= 15
    ensures var s := TwoProcesses(mem, free, eip);
      var s' := Step(s, Fault(error, UPPER));
      && |s.procs| == 2 && s.current == Some(0) && !s'.m.pool.failed
      && Walk(s.m.mem, s.procs[1].dir, UPPER_PAGE) == Some(PageEntry(UPPER, FRAMEBUFFER_FLAGS))
      && exists f: FrameNo :: f in s.m.pool.free && Walk(s'.m.mem, s.procs[1].dir, UPPER_PAGE) == Some(TableEntry(f))
  {
    hide SysInv, TwoProcesses, SharesTable, Walk, PageEntry, MapNew;
    var s := TwoProcesses(mem, free, eip);
    TwoProcessesShape(mem, free, eip);
    AbsentOne(s.m.mem, s.procs[0].dir, UPPER_INDEX);
    assert Cost(s, Fault(error, UPPER)) <= 2;
    Afford(s, Fault(error, UPPER), 2);
    FaultSeenIff(s, error, UPPER, s.procs[1].dir);
    ForkTheorems.FaultRemaps(s, error, UPPER, UPPER_PAGE);
  }
}
