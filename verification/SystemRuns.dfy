/** Theorems about every run of the system from boot. */
module SystemRuns {
  import opened Words
  import opened Frames
  import opened Memory
  import opened Paging
  import opened Ownership
  import opened NewSpace
  import opened System
  import opened SystemInvariant
  import opened Access
  import Regions
  import HeapList
  import HeapGrowth

  // ----- Boot -----

  /** Boot takes four frames, and exactly then leaves a sound system with no process. */
  lemma BootSound(mem: Mem, free: set<FrameNo>)
    ensures Boot(mem, free).m.pool.failed <==> |free| < 4
    ensures |free| >= 4 ==> SysInv(Boot(mem, free)) && forall f: FrameNo :: f !in free ==>
      Boot(mem, free).m.mem[f] == mem[f] && f !in Boot(mem, free).m.pool.own && f !in Boot(mem, free).m.pool.free
  {
    var m := Machine(mem, Pool(free, map[], false));
    var a := InitPages(m);
    Regions.InitPagesIsIdentity(m, 0);
    if |free| >= 4 {
      var s, sp := Boot(mem, free), Spaces(a.frame, {});
      InitPagesConfined(m);
      HeapGrowth.HeapInitSound(a.m.pool);
      NewHeapFrame(a.m, sp, a.frame);
      BootAccess(m);
      SameMemoryAccess(a.m, s.m, sp);
      assert Dirs(s.procs) == {};
      assert SpacesOf(s) == sp;
    }
  }

  lemma BootAccess(m: Machine)
    requires m.pool.Valid() && !InitPages(m).m.pool.failed
    ensures AccessInv(InitPages(m).m, Spaces(InitPages(m).frame, {}))
  {
    hide MapPage, MapRegion, Inv;
    var a, n := CreatePageTable(m, Directory), IDENTITY_BYTES / PAGE_SIZE;
    Regions.RegionFails(a.m, a.frame, 0, 2, n);
    Regions.NewKernelDir(m);
    EmptyIsOpen(a.m, a.frame);
    assert Or(2, 1) == 3;
    MapRegionAccess(a.m, Spaces(a.frame, {}), 0, 2, n);
  }

  lemma EmptyIsOpen(m: Machine, d: FrameNo)
    requires Regions.FilledTo(m.mem, d, 0)
    ensures AccessInv(m, Spaces(d, {}))
  {}

  lemma InitPagesConfined(m: Machine)
    requires m.pool.Valid() && !InitPages(m).m.pool.failed
    ensures var a := InitPages(m);
      && 0 !in a.m.pool.free && a.m.pool.free <= m.pool.free
      && a.m.pool.own.Keys <= m.pool.own.Keys + m.pool.free
      && (m.pool.own == map[] ==> forall f: FrameNo :: f !in m.pool.free ==> a.m.mem[f] == m.mem[f])
  {
    hide MapPage, MapRegion;
    var a, n := CreatePageTable(m, Directory), IDENTITY_BYTES / PAGE_SIZE;
    Regions.RegionFails(a.m, a.frame, 0, 2, n);
    Regions.NewKernelDir(m);
    MapRegionKeeps(a.m, Spaces(a.frame, {}), 0, 2, n);
  }

  // ----- Runs -----

  lemma {:induction false} MallocFails(h: HeapGrowth.Heap, p: Pool, size: u32)
    ensures p.failed ==> HeapGrowth.Malloc(h, p, size).pool.failed
    decreases |p.free|
  {
    if HeapList.FirstFit(h.blocks, size) == |h.blocks| {
      var t := Take(p, HeapPage);
      if t.frame != 0 {
        assert |t.pool.free| < |p.free|;
        MallocFails(HeapGrowth.Grow(h, t.frame), t.pool, size);
      }
    }
  }

  lemma {:induction false} MapCodeFails(m: Machine, d: FrameNo, code: u32, n: nat)
    ensures m.pool.failed ==> MapCode(m, d, code, n).pool.failed
  {
    hide MapNew, Wrap;
    if n > 0 {
      MapCodeFails(m, d, code, n - 1);
      MapNewFails(MapCode(m, d, code, n - 1), d, Wrap(code + (n - 1) * PAGE_SIZE));
    }
  }

  /** A failed allocation is never forgotten. */
  lemma StepFails(s: Sys, e: Event)
    ensures s.m.pool.failed ==> Step(s, e).m.pool.failed
  {
    hide MapNew, MapCode, MapStack, MapRegion, BuildSpace, CopyAddrSpace, HeapGrowth.Malloc;
    match e
    case Create(eip) => CreateFails(s, eip);
    case ForkCurrent =>
      if HasCurrent(s) {
        var parent := s.procs[s.current.value];
        CreateFails(s, parent.eip);
        var s1 := CreateProcess(s, parent.eip);
        CopyFails(s1.m, parent.dir, s1.procs[0].dir, KERNEL_PD_INDEX);
      }
    case Fault(error, addr) =>
      if HasCurrent(s) { MapNewFails(s.m, s.procs[s.current.value].dir, PAGE_SIZE * FrameOf(addr)); }
    case MapUser(i, code, codeSize, stack, stackSize) =>
      if i < |s.procs| {
        var d := s.procs[i].dir;
        MapCodeFails(s.m, d, code, Pages(codeSize));
        MapStackFails(MapCode(s.m, d, code, Pages(codeSize)), d, stack, Pages(stackSize));
      }
    case MapFrames(addr, size) =>
      Regions.RegionFails(s.m, s.kernelDir, RegionStart(addr), FRAMEBUFFER_FLAGS, RegionPages(addr, size));
    case StoreWord(_, _) =>
    case KernelMalloc(size) => MallocFails(s.heap, s.m.pool, size);
    case Tick =>
  }

  lemma CreateFails(s: Sys, eip: u32)
    ensures s.m.pool.failed ==> CreateProcess(s, eip).m.pool.failed
  {
    hide BuildSpace, HeapGrowth.Malloc;
    MallocFails(s.heap, s.m.pool, PROCESS_BYTES);
    BuildSpaceFails(AfterMalloc(s, PROCESS_BYTES).m, s.kernelDir);
  }

  lemma {:induction false} RunFails(s: Sys, es: seq<Event>)
    ensures s.m.pool.failed ==> Run(s, es).m.pool.failed
    decreases |es|
  {
    if es != [] {
      StepFails(s, es[0]);
      RunFails(Step(s, es[0]), es[1..]);
    }
  }

  /** The invariant holds after every run that did not exhaust the frames; processes never disappear. */
  lemma {:induction false} RunKeeps(s: Sys, es: seq<Event>)
    requires SysInv(s) && !Run(s, es).m.pool.failed
    ensures SysInv(Run(s, es)) && Run(s, es).kernelDir == s.kernelDir && Dirs(s.procs) <= Dirs(Run(s, es).procs)
    decreases |es|
  {
    hide SysInv, Step, Dirs;
    if es != [] {
      RunFails(Step(s, es[0]), es[1..]);
      StepKeeps(s, es[0]);
      RunKeeps(Step(s, es[0]), es[1..]);
    }
  }

  // ----- Rights -----

  /** In every state reached from boot, every directory entry in use lets user code through: it is a frame with the
      present, write and user bits and no other; and so is the entry of every page in the user half of a process. */
  lemma EntriesAreOpen(mem: Mem, free: set<FrameNo>, es: seq<Event>, d: FrameNo, i: nat, v: FrameNo)
    requires !Run(Boot(mem, free), es).m.pool.failed && i < 1024 && v < USER_PAGES
    ensures var s := Run(Boot(mem, free), es);
      && (IsDir(SpacesOf(s), d) && Present(Word(s.m.mem, d, i)) ==>
            Word(s.m.mem, d, i) == FrameOf(Word(s.m.mem, d, i)) * 4096 + 7)
      && (d in Dirs(s.procs) && Walk(s.m.mem, d, v).Some? ==>
            Walk(s.m.mem, d, v).value == FrameOf(Walk(s.m.mem, d, v).value) * 4096 + 7)
  {
    hide Run, Boot;
    RunFromBoot(mem, free, es);
    OpenIn(Run(Boot(mem, free), es), d, i, v);
  }

  lemma OpenIn(s: Sys, d: FrameNo, i: nat, v: FrameNo)
    requires SysInv(s) && i < 1024 && v < USER_PAGES
    ensures IsDir(SpacesOf(s), d) && Present(Word(s.m.mem, d, i)) ==>
      Word(s.m.mem, d, i) == FrameOf(Word(s.m.mem, d, i)) * 4096 + 7
    ensures d in Dirs(s.procs) && Walk(s.m.mem, d, v).Some? ==>
      Walk(s.m.mem, d, v).value == FrameOf(Walk(s.m.mem, d, v).value) * 4096 + 7
  {
    hide Inv, HeapGrowth.Sound, ProcsDistinct, UpperOwned, Walk;
  }

  lemma RunFromBoot(mem: Mem, free: set<FrameNo>, es: seq<Event>)
    requires !Run(Boot(mem, free), es).m.pool.failed
    ensures |free| >= 4 && SysInv(Run(Boot(mem, free), es))
  {
    hide SysInv, Boot;
    BootSound(mem, free);
    if |free| < 4 { RunFails(Boot(mem, free), es); }
    RunKeeps(Boot(mem, free), es);
  }

  // ----- Frame ownership -----

  /** In every reachable state: a frame behind a user page is behind no other page of any process, and is no
      page directory, no page table, no heap page, and not free. */
  lemma FramesAreExclusive(mem: Mem, free: set<FrameNo>, es: seq<Event>, i: nat, a: FrameNo)
    requires |free| >= 4 && !Run(Boot(mem, free), es).m.pool.failed
    requires var s := Run(Boot(mem, free), es);
      i < |s.procs| && a < USER_PAGES && Walk(s.m.mem, s.procs[i].dir, a).Some?
    ensures var s := Run(Boot(mem, free), es);
      var f := FrameOf(Walk(s.m.mem, s.procs[i].dir, a).value);
      && (forall j, b: FrameNo :: 0 <= j < |s.procs| && b < USER_PAGES && !(j == i && b == a) ==>
            Walk(s.m.mem, s.procs[j].dir, b).None? || FrameOf(Walk(s.m.mem, s.procs[j].dir, b).value) != f)
      && f != s.kernelDir && (forall j :: 0 <= j < |s.procs| ==> s.procs[j].dir != f)
      && (forall d: FrameNo, k: nat :: IsDir(SpacesOf(s), d) && k < ENTRIES && Present(Word(s.m.mem, d, k)) ==>
            FrameOf(Word(s.m.mem, d, k)) != f)
      && (forall k :: 0 <= k < |s.handed| ==> s.handed[k].addr / PAGE_SIZE != f)
      && f !in s.m.pool.free && f in s.m.pool.own && s.m.pool.own[f] != HeapPage
  {
    hide Run;
    BootSound(mem, free);
    RunKeeps(Boot(mem, free), es);
    ExclusiveIn(Run(Boot(mem, free), es), i, a);
  }

  lemma ExclusiveIn(s: Sys, i: nat, a: FrameNo)
    requires SysInv(s) && i < |s.procs| && a < USER_PAGES && Walk(s.m.mem, s.procs[i].dir, a).Some?
    ensures var f := FrameOf(Walk(s.m.mem, s.procs[i].dir, a).value);
      && (forall j, b: FrameNo :: 0 <= j < |s.procs| && b < USER_PAGES && !(j == i && b == a) ==>
            Walk(s.m.mem, s.procs[j].dir, b).None? || FrameOf(Walk(s.m.mem, s.procs[j].dir, b).value) != f)
      && f != s.kernelDir && (forall j :: 0 <= j < |s.procs| ==> s.procs[j].dir != f)
      && (forall d: FrameNo, k: nat :: IsDir(SpacesOf(s), d) && k < ENTRIES && Present(Word(s.m.mem, d, k)) ==>
            FrameOf(Word(s.m.mem, d, k)) != f)
      && (forall k :: 0 <= k < |s.handed| ==> s.handed[k].addr / PAGE_SIZE != f)
      && f !in s.m.pool.free && f in s.m.pool.own && s.m.pool.own[f] != HeapPage
  {}

  /** Process records are 36-byte pieces of memory that never overlap, each inside one heap page. */
  lemma RecordsAreDisjoint(mem: Mem, free: set<FrameNo>, es: seq<Event>)
    requires |free| >= 4 && !Run(Boot(mem, free), es).m.pool.failed
    ensures var s := Run(Boot(mem, free), es);
      && (forall i, j :: 0 <= i < j < |s.procs| ==>
            s.procs[i].addr + 36 <= s.procs[j].addr || s.procs[j].addr + 36 <= s.procs[i].addr)
      && (forall i :: 0 <= i < |s.procs| ==> RecordOnHeapPage(s, s.procs[i].addr))
  {
    hide Run, Boot, SysInv;
    BootSound(mem, free);
    RunKeeps(Boot(mem, free), es);
    var s := Run(Boot(mem, free), es);
    forall i, j | 0 <= i < j < |s.procs|
      ensures s.procs[i].addr + 36 <= s.procs[j].addr || s.procs[j].addr + 36 <= s.procs[i].addr
    {
      TwoRecords(s, i, j);
    }
    forall i | 0 <= i < |s.procs| ensures RecordOnHeapPage(s, s.procs[i].addr) {
      OneRecord(s, i);
    }
  }

  /** The record lies inside one page owned by the heap. */
  predicate RecordOnHeapPage(s: Sys, addr: nat) {
    var page := addr / PAGE_SIZE;
    && page < FRAME_COUNT && page in s.m.pool.own && s.m.pool.own[page] == HeapPage
    && addr + 36 <= page * PAGE_SIZE + PAGE_SIZE
  }

  lemma OneRecord(s: Sys, i: nat)
    requires SysInv(s) && i < |s.procs|
    ensures RecordOnHeapPage(s, s.procs[i].addr)
  {}

  lemma TwoRecords(s: Sys, i: nat, j: nat)
    requires SysInv(s) && i < j < |s.procs|
    ensures s.procs[i].addr + 36 <= s.procs[j].addr || s.procs[j].addr + 36 <= s.procs[i].addr
  {}

  /** Pids count down along the list to 1 and the next one exceeds them all; the 32-bit counter never wraps. */
  lemma PidsAreUnique(mem: Mem, free: set<FrameNo>, es: seq<Event>)
    requires |free| >= 4 && !Run(Boot(mem, free), es).m.pool.failed
    ensures var s := Run(Boot(mem, free), es);
      && (forall i :: 0 <= i < |s.procs| ==> s.procs[i].pid == |s.procs| - i)
      && s.nextPid == |s.procs| + 1 <= FRAME_COUNT + 1
  {
    hide Run, Inv, HeapGrowth.Sound;
    BootSound(mem, free);
    RunKeeps(Boot(mem, free), es);
    DirsCount(Run(Boot(mem, free), es).procs);
  }

  /** Frames that were not free at boot, such as the kernel image, the bitmap and the text screen, are never
      written by any of this. */
  lemma ReservedFramesUntouched(mem: Mem, free: set<FrameNo>, es: seq<Event>, f: FrameNo)
    requires |free| >= 4 && !Run(Boot(mem, free), es).m.pool.failed && f !in free
    ensures Run(Boot(mem, free), es).m.mem[f] == mem[f]
  {
    BootSound(mem, free);
    OutsideUntouched(Boot(mem, free), es, f);
  }

  lemma {:induction false} OutsideUntouched(s: Sys, es: seq<Event>, f: FrameNo)
    requires SysInv(s) && !Run(s, es).m.pool.failed
    requires f !in s.m.pool.free && f !in s.m.pool.own
    ensures Run(s, es).m.mem[f] == s.m.mem[f]
    decreases |es|
  {
    hide SysInv, Step, Dirs;
    if es != [] {
      RunFails(Step(s, es[0]), es[1..]);
      StepKeeps(s, es[0]);
      OutsideUntouched(Step(s, es[0]), es[1..], f);
    }
  }

  lemma {:induction false} OutsideUnowned(s: Sys, es: seq<Event>, f: FrameNo)
    requires SysInv(s) && !Run(s, es).m.pool.failed
    requires f !in s.m.pool.free && f !in s.m.pool.own
    ensures f !in Run(s, es).m.pool.own
    decreases |es|
  {
    hide SysInv, Step, Dirs;
    if es != [] {
      RunFails(Step(s, es[0]), es[1..]);
      StepKeeps(s, es[0]);
      OutsideUnowned(Step(s, es[0]), es[1..], f);
    }
  }

  /** Every frame behind a user page was free at boot. */
  lemma UserFramesWereFree(mem: Mem, free: set<FrameNo>, es: seq<Event>, i: nat, v: FrameNo)
    requires |free| >= 4 && !Run(Boot(mem, free), es).m.pool.failed
    requires var s := Run(Boot(mem, free), es);
      i < |s.procs| && v < USER_PAGES && Walk(s.m.mem, s.procs[i].dir, v).Some?
    ensures var s := Run(Boot(mem, free), es); FrameOf(Walk(s.m.mem, s.procs[i].dir, v).value) in free
  {
    hide Run;
    BootSound(mem, free);
    RunKeeps(Boot(mem, free), es);
    var s := Run(Boot(mem, free), es);
    var f := FrameOf(Walk(s.m.mem, s.procs[i].dir, v).value);
    DirNotFree(s, i);
    assert OwnsPage(s.m.pool.own, s.procs[i].dir, v, f);
    if f !in free { OutsideUnowned(Boot(mem, free), es, f); }
  }

  // ----- Isolation -----

  /** No event of the run acts on the address space. */
  ghost predicate NeverActedOn(s: Sys, es: seq<Event>, q: FrameNo)
    decreases |es|
  {
    es == [] || (Actor(s, es[0]) != q && NeverActedOn(Step(s, es[0]), es[1..], q))
  }

  /** The only events that act on an existing process are its own faults and stores and mappings made for it:
      creating or forking another process, even from it, is not among them. */
  lemma OnlyOwnEvents(s: Sys, e: Event, i: nat)
    requires SysInv(s) && !Step(s, e).m.pool.failed && i < |s.procs|
    ensures Actor(s, e) == s.procs[i].dir ==>
      || ((e.Fault? || e.StoreWord?) && s.current == Some(i))
      || (e.MapUser? && e.index == i)
  {
    hide Inv, HeapGrowth.Sound, Step;
    DirNotFree(s, i);
    match e
    case Create(eip) => CreateActs(s, eip);
    case ForkCurrent => if HasCurrent(s) { ForkActs(s); }
    case _ =>
  }

  lemma CreateActs(s: Sys, eip: u32)
    requires SysInv(s) && !Step(s, Create(eip)).m.pool.failed
    ensures Actor(s, Create(eip)) in s.m.pool.free
  {
    CreateKeeps(s, eip);
  }

  lemma ForkActs(s: Sys)
    requires SysInv(s) && HasCurrent(s) && !Step(s, ForkCurrent).m.pool.failed
    ensures Actor(s, ForkCurrent) in s.m.pool.free
  {
    ForkKeeps(s);
  }

  /** Isolation over whole runs: whatever the other processes and the kernel do, in any order, a process sees
      the same user pages with the same contents until an event acts on it. */
  lemma {:induction false} Isolation(s: Sys, es: seq<Event>, q: FrameNo)
    requires SysInv(s) && !Run(s, es).m.pool.failed
    requires q in Dirs(s.procs) && NeverActedOn(s, es, q)
    ensures SameUserView(s.m.mem, Run(s, es).m.mem, q)
    decreases |es|
  {
    hide Step, Dirs, Actor, HeapGrowth.Sound, ProcsDistinct;
    if es != [] {
      var s1 := Step(s, es[0]);
      RunFails(s1, es[1..]);
      StepKeeps(s, es[0]);
      ConfinedKeepsView(s.m, s1.m, SpacesOf(s), Actor(s, es[0]), q);
      Isolation(s1, es[1..], q);
    }
  }
}
