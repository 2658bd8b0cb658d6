/** What every event costs in page frames, counted before it happens, and hence exactly which runs the free
    frames suffice for. */
module Prices {
  import opened Words
  import opened Frames
  import opened Memory
  import opened Paging
  import opened Ownership
  import opened CopyCost
  import opened System
  import opened SystemInvariant
  import opened ForkTheorems
  import Regions
  import SystemRuns
  import HeapList
  import HeapGrowth

  // ----- Page tables a mapping needs -----

  /** Directory entries of n pages counted upward from an address. */
  function TablesUp(start: u32, n: nat): set<nat> {
    if n == 0 then {} else TablesUp(start, n - 1) + {DirIndex(Wrap(start + (n - 1) * PAGE_SIZE) / PAGE_SIZE)}
  }

  /** Directory entries of the n pages below an address. */
  function TablesDown(stack: u32, n: nat): set<nat> {
    if n == 0 then {} else TablesDown(stack, n - 1) + {DirIndex(Wrap(stack - n * PAGE_SIZE) / PAGE_SIZE)}
  }

  /** Those of the entries for which there is no table yet. */
  function Absent(mem: Mem, d: FrameNo, tables: set<nat>): set<nat> {
    set i | i in tables && i < ENTRIES && !Present(Word(mem, d, i))
  }

  /** Besides the entries already present in m, exactly those of `tables` are present in m'. */
  ghost predicate Filled(m: Machine, m': Machine, d: FrameNo, tables: set<nat>) {
    forall i: nat :: i < ENTRIES ==> (Present(Word(m'.mem, d, i)) <==> Present(Word(m.mem, d, i)) || i in tables)
  }

  /** The frames one more table costs on top of those already filled. */
  function OneMore(mem: Mem, d: FrameNo, tables: set<nat>, i: nat): nat
    requires i < ENTRIES
  {
    if i in tables || Present(Word(mem, d, i)) then 0 else 1
  }

  lemma AbsentOneMore(mem: Mem, d: FrameNo, tables: set<nat>, i: nat)
    requires i < ENTRIES
    ensures |Absent(mem, d, tables + {i})| == |Absent(mem, d, tables)| + OneMore(mem, d, tables, i)
  {
    var a, b := Absent(mem, d, tables), Absent(mem, d, tables + {i});
    if OneMore(mem, d, tables, i) == 0 { assert b == a; } else { assert b == a + {i}; }
  }

  lemma AbsentUnion(m: Machine, m1: Machine, d: FrameNo, t1: set<nat>, t2: set<nat>)
    requires Filled(m, m1, d, t1)
    ensures |Absent(m.mem, d, t1 + t2)| == |Absent(m.mem, d, t1)| + |Absent(m1.mem, d, t2)|
    ensures forall m2: Machine :: Filled(m1, m2, d, t2) ==> Filled(m, m2, d, t1 + t2)
  {
    var a, b := Absent(m.mem, d, t1), Absent(m1.mem, d, t2);
    assert Absent(m.mem, d, t1 + t2) == a + b;
    assert a !! b;
  }

  /** One mapping in a directory in which the entries of `tables` have been filled. */
  lemma MapPageStep(m: Machine, m1: Machine, sp: Spaces, d: FrameNo, virt: u32, phys: u32, flags: u32, tables: set<nat>)
    requires Inv(m1, sp) && IsDir(sp, d) && Filled(m, m1, d, tables)
    ensures var m2, i := MapPage(m1, d, virt, phys, flags), DirIndex(virt / PAGE_SIZE);
      && Paid(m1.pool, m2.pool, OneMore(m.mem, d, tables, i))
      && (!m2.pool.failed ==> Filled(m, m2, d, tables + {i}))
  {
    hide Inv, MapPage, Present;
    var m2, i := MapPage(m1, d, virt, phys, flags), DirIndex(virt / PAGE_SIZE);
    MapPagePaid(m1, d, virt, phys, flags);
    if !m2.pool.failed {
      forall j: nat | j < ENTRIES
        ensures Present(Word(m2.mem, d, j)) <==> Present(Word(m.mem, d, j)) || j in tables + {i}
      {
        MapPageEntries(m1, sp, d, virt, phys, flags, d, j);
        if m1.pool.free != {} { TableEntryParts(Lowest(m1.pool.free)); }
      }
    }
  }

  /** One allocation with its mapping. */
  lemma MapNewStep(m: Machine, m1: Machine, sp: Spaces, d: FrameNo, virt: u32, tables: set<nat>)
    requires Inv(m1, sp) && IsDir(sp, d) && Filled(m, m1, d, tables)
    ensures var m2, i := MapNew(m1, d, virt), DirIndex(virt / PAGE_SIZE);
      && Paid(m1.pool, m2.pool, 1 + OneMore(m.mem, d, tables, i))
      && (!m2.pool.failed ==> Filled(m, m2, d, tables + {i}))
  {
    hide Inv, MapPage;
    var purpose := Page(d, virt / PAGE_SIZE);
    var a := NewFrame(m1, purpose);
    TakePaid(m1.pool, purpose);
    NewFrameKeeps(m1, sp, purpose, d);
    MapPageStep(m, a.m, sp, d, virt, a.frame * PAGE_SIZE, USER_FLAGS, tables);
    PaidTwice(m1.pool, a.m.pool, MapNew(m1, d, virt).pool, 1, OneMore(m.mem, d, tables, DirIndex(virt / PAGE_SIZE)));
  }

  lemma {:induction false} MapCodePaid(m: Machine, sp: Spaces, d: FrameNo, code: u32, n: nat)
    requires Inv(m, sp) && d in sp.dirs
    ensures var m', t := MapCode(m, d, code, n), TablesUp(code, n);
      Paid(m.pool, m'.pool, n + |Absent(m.mem, d, t)|) && (!m'.pool.failed ==> Filled(m, m', d, t))
  {
    hide Inv, MapNew, Wrap, Filled, Absent, OneMore;
    if n == 0 {
      NothingFilled(m, d);
    } else {
      var m1, virt, t := MapCode(m, d, code, n - 1), Wrap(code + (n - 1) * PAGE_SIZE), TablesUp(code, n - 1);
      MapCodePaid(m, sp, d, code, n - 1);
      MapNewFails(m1, d, virt);
      AbsentOneMore(m.mem, d, t, DirIndex(virt / PAGE_SIZE));
      if !m1.pool.failed {
        MapCodeKeeps(m, sp, d, code, n - 1);
        MapNewStep(m, m1, sp, d, virt, t);
      }
      PaidTwice(m.pool, m1.pool, MapCode(m, d, code, n).pool, n - 1 + |Absent(m.mem, d, t)|,
                1 + OneMore(m.mem, d, t, DirIndex(virt / PAGE_SIZE)));
    }
  }

  lemma NothingFilled(m: Machine, d: FrameNo)
    ensures Absent(m.mem, d, {}) == {} && Filled(m, m, d, {})
  {}

  lemma {:induction false} MapStackPaid(m: Machine, sp: Spaces, d: FrameNo, stack: u32, n: nat)
    requires Inv(m, sp) && d in sp.dirs
    ensures var m', t := MapStack(m, d, stack, n), TablesDown(stack, n);
      Paid(m.pool, m'.pool, n + |Absent(m.mem, d, t)|) && (!m'.pool.failed ==> Filled(m, m', d, t))
  {
    hide Inv, MapNew, Wrap, Filled, Absent, OneMore;
    if n == 0 {
      NothingFilled(m, d);
    } else {
      var m1, virt, t := MapStack(m, d, stack, n - 1), Wrap(stack - n * PAGE_SIZE), TablesDown(stack, n - 1);
      MapStackPaid(m, sp, d, stack, n - 1);
      MapNewFails(m1, d, virt);
      AbsentOneMore(m.mem, d, t, DirIndex(virt / PAGE_SIZE));
      if !m1.pool.failed {
        MapStackKeeps(m, sp, d, stack, n - 1);
        MapNewStep(m, m1, sp, d, virt, t);
      }
      PaidTwice(m.pool, m1.pool, MapStack(m, d, stack, n).pool, n - 1 + |Absent(m.mem, d, t)|,
                1 + OneMore(m.mem, d, t, DirIndex(virt / PAGE_SIZE)));
    }
  }

  /** `map_user_space` takes one frame per page, and one per table its pages need that is not there yet. */
  lemma MapUserSpacePaid(m: Machine, sp: Spaces, d: FrameNo, code: u32, codeSize: u32, stack: u32, stackSize: u32)
    requires Inv(m, sp) && d in sp.dirs
    ensures Paid(m.pool, MapUserSpace(m, d, code, codeSize, stack, stackSize).pool,
      Pages(codeSize) + Pages(stackSize)
      + |Absent(m.mem, d, TablesUp(code, Pages(codeSize)) + TablesDown(stack, Pages(stackSize)))|)
  {
    hide Inv, MapCode, MapStack, Pages, Absent, Filled, TablesUp, TablesDown;
    var c, k := Pages(codeSize), Pages(stackSize);
    var m1, t1, t2 := MapCode(m, d, code, c), TablesUp(code, c), TablesDown(stack, k);
    MapCodePaid(m, sp, d, code, c);
    MapStackFails(m1, d, stack, k);
    if !m1.pool.failed {
      MapCodeKeeps(m, sp, d, code, c);
      MapStackPaid(m1, sp, d, stack, k);
      AbsentUnion(m, m1, d, t1, t2);
      PaidTwice(m.pool, m1.pool, MapUserSpace(m, d, code, codeSize, stack, stackSize).pool,
                c + |Absent(m.mem, d, t1)|, k + |Absent(m1.mem, d, t2)|);
    } else {
      AbsentMore(m.mem, d, t1, t1 + t2);
    }
  }

  lemma AbsentMore(mem: Mem, d: FrameNo, t1: set<nat>, t2: set<nat>)
    requires t1 <= t2
    ensures |Absent(mem, d, t1)| <= |Absent(mem, d, t2)|
  {
    assert Absent(mem, d, t2) == Absent(mem, d, t1) + (Absent(mem, d, t2) - Absent(mem, d, t1));
  }

  /** `map_physical_region` on the kernel directory takes one frame per table that is not there yet. */
  lemma {:induction false} MapRegionPaid(m: Machine, sp: Spaces, start: u32, flags: u32, n: nat)
    requires Inv(m, sp)
    ensures var m', t := MapRegion(m, sp.kernelDir, start, flags, n), TablesUp(start, n);
      && Paid(m.pool, m'.pool, |Absent(m.mem, sp.kernelDir, t)|)
      && (!m'.pool.failed ==> Filled(m, m', sp.kernelDir, t))
  {
    hide Inv, MapPage, Wrap, Filled, Absent, OneMore;
    var d := sp.kernelDir;
    if n == 0 {
      NothingFilled(m, d);
    } else {
      var m1, addr, t := MapRegion(m, d, start, flags, n - 1), Wrap(start + (n - 1) * PAGE_SIZE),
        TablesUp(start, n - 1);
      MapRegionPaid(m, sp, start, flags, n - 1);
      Regions.MapRegionFailsBefore(m, d, start, flags, n);
      AbsentOneMore(m.mem, d, t, DirIndex(addr / PAGE_SIZE));
      if !m1.pool.failed {
        MapRegionKeeps(m, sp, start, flags, n - 1);
        MapPageStep(m, m1, sp, d, addr, addr, flags, t);
      }
      PaidTwice(m.pool, m1.pool, MapRegion(m, d, start, flags, n).pool, |Absent(m.mem, d, t)|,
                OneMore(m.mem, d, t, DirIndex(addr / PAGE_SIZE)));
    }
  }

  /** A page fault takes the page, and a table if there is none. */
  lemma FaultPaid(s: Sys, error: u32, addr: u32)
    requires SysInv(s) && HasCurrent(s)
    ensures Paid(s.m.pool, PageFault(s, error, addr).m.pool,
      1 + |Absent(s.m.mem, s.procs[s.current.value].dir, {DirIndex(addr / PAGE_SIZE)})|)
  {
    hide Inv, HeapGrowth.Sound, ProcsDistinct, MapNew, Filled, Absent, OneMore;
    var d, virt: u32 := s.procs[s.current.value].dir, PAGE_SIZE * FrameOf(addr);
    assert virt / PAGE_SIZE == addr / PAGE_SIZE;
    DirNotFree(s, s.current.value);
    NothingFilled(s.m, d);
    MapNewStep(s.m, s.m, SpacesOf(s), d, virt, {});
    AbsentOneMore(s.m.mem, d, {}, DirIndex(virt / PAGE_SIZE));
    assert {} + {DirIndex(virt / PAGE_SIZE)} == {DirIndex(addr / PAGE_SIZE)};
  }

  // ----- The price of any event and of any run -----

  /** Frames a call of malloc takes: none if a listed block fits, one if a page will do; a larger request is
      never met, so it costs more than there is. */
  ghost function MallocCost(s: Sys, size: u32): nat {
    if HeapList.FirstFit(s.heap.blocks, size) < |s.heap.blocks| then 0
    else if size <= HeapList.PAGE_PAYLOAD then 1
    else |s.m.pool.free| + 1
  }

  ghost function Cost(s: Sys, e: Event): nat {
    match e
    case Create(_) => RecordFrames(s.heap) + 3
    case ForkCurrent =>
      if HasCurrent(s) then
        RecordFrames(s.heap) + 3 + CopyFrames(s.m.mem, s.procs[s.current.value].dir, KERNEL_PD_INDEX)
      else 0
    case Fault(_, addr) =>
      if HasCurrent(s) then 1 + |Absent(s.m.mem, s.procs[s.current.value].dir, {DirIndex(addr / PAGE_SIZE)})| else 0
    case MapUser(i, code, codeSize, stack, stackSize) =>
      if i < |s.procs| then
        Pages(codeSize) + Pages(stackSize)
        + |Absent(s.m.mem, s.procs[i].dir, TablesUp(code, Pages(codeSize)) + TablesDown(stack, Pages(stackSize)))|
      else 0
    case MapFrames(addr, size) =>
      |Absent(s.m.mem, s.kernelDir, TablesUp(RegionStart(addr), RegionPages(addr, size)))|
    case KernelMalloc(size) => MallocCost(s, size)
    case StoreWord(_, _) => 0
    case Tick => 0
  }

  lemma MallocPaid(s: Sys, size: u32)
    requires SysInv(s)
    ensures Paid(s.m.pool, AfterMalloc(s, size).m.pool, MallocCost(s, size))
  {
    hide Inv;
    if size <= HeapList.PAGE_PAYLOAD {
      HeapGrowth.PageRequest(s.heap, s.m.pool, size);
      TakePaid(s.m.pool, HeapPage);
    } else if HeapList.FirstFit(s.heap.blocks, size) == |s.heap.blocks| {
      HeapGrowth.OversizeRequestDrains(s.heap, s.m.pool, size);
    }
  }

  /** Every event takes exactly its price, and runs out of frames if and only if fewer are free. */
  lemma StepPaid(s: Sys, e: Event)
    requires SysInv(s)
    ensures Paid(s.m.pool, Step(s, e).m.pool, Cost(s, e))
  {
    hide Inv, HeapGrowth.Sound, ProcsDistinct, MapNew, MapUserSpace, MapRegion, AfterMalloc, CreateProcess, MallocCost,
      Absent, TablesUp, TablesDown, RecordFrames, CopyFrames, Pages, RegionPages;
    match e
    case Create(eip) => CreatePaid(s, eip);
    case ForkCurrent => if HasCurrent(s) { ForkPaid(s); }
    case Fault(error, addr) => if HasCurrent(s) { FaultPaid(s, error, addr); }
    case MapUser(i, code, codeSize, stack, stackSize) =>
      if i < |s.procs| {
        DirNotFree(s, i);
        MapUserSpacePaid(s.m, SpacesOf(s), s.procs[i].dir, code, codeSize, stack, stackSize);
      }
    case MapFrames(addr, size) =>
      MapRegionPaid(s.m, SpacesOf(s), RegionStart(addr), FRAMEBUFFER_FLAGS, RegionPages(addr, size));
    case StoreWord(addr, w) =>
    case KernelMalloc(size) => MallocPaid(s, size);
    case Tick =>
  }

  ghost function RunCost(s: Sys, es: seq<Event>): nat
    decreases |es|
  {
    if es == [] then 0 else Cost(s, es[0]) + RunCost(Step(s, es[0]), es[1..])
  }

  /** So does every run: it never runs out of frames if and only if the sum of the prices is free at its start. */
  lemma {:induction false} RunPaid(s: Sys, es: seq<Event>)
    requires SysInv(s)
    ensures Paid(s.m.pool, Run(s, es).m.pool, RunCost(s, es))
    decreases |es|
  {
    hide SysInv, Step, Cost;
    if es != [] {
      var s1 := Step(s, es[0]);
      StepPaid(s, es[0]);
      SystemRuns.RunFails(s1, es[1..]);
      if !s1.m.pool.failed {
        StepKeeps(s, es[0]);
        RunPaid(s1, es[1..]);
      }
      PaidTwice(s.m.pool, s1.m.pool, Run(s, es).m.pool, Cost(s, es[0]), RunCost(s1, es[1..]));
    }
  }

  /** From power-on: boot takes four frames, and the run after it succeeds exactly if its price is left. */
  lemma BootRunPaid(mem: Mem, free: set<FrameNo>, es: seq<Event>)
    ensures Run(Boot(mem, free), es).m.pool.failed <==> |free| < 4 + RunCost(Boot(mem, free), es)
  {
    hide SysInv, Run, RunCost, InitPages;
    var m := Machine(mem, Pool(free, map[], false));
    SystemRuns.BootSound(mem, free);
    if |free| < 4 {
      SystemRuns.RunFails(Boot(mem, free), es);
    } else {
      Regions.InitPagesIsIdentity(m, 0);
      TakePaid(InitPages(m).m.pool, HeapPage);
      RunPaid(Boot(mem, free), es);
    }
  }
}
