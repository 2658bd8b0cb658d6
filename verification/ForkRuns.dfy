/** Fork in a run from boot: pages are never unmapped, so every parent has its stack page, and the child is a
    copy of the whole user half; the frames bought for the child's own stack are lost. */
module ForkRuns {
  import opened Words
  import opened Frames
  import opened Memory
  import opened Paging
  import opened Ownership
  import opened NewSpace
  import opened System
  import opened SystemInvariant
  import opened SystemRuns
  import opened AddressSpaceCopy
  import opened UserMappings
  import opened ForkTheorems
  import KernelHalf
  import HeapGrowth

  /** Creating a process writes only frames that were free. */
  lemma CreateWritesFresh(s: Sys, eip: u32)
    requires SysInv(s) && !CreateProcess(s, eip).m.pool.failed
    ensures forall f: FrameNo :: f !in s.m.pool.free ==> CreateProcess(s, eip).m.mem[f] == s.m.mem[f]
  {
    hide SysInv, HeapGrowth.Malloc, BuildSpace;
    var s1 := AfterMalloc(s, PROCESS_BYTES);
    BuildSpaceFails(s1.m, s.kernelDir);
    Access.BuildSpaceWrites(s1.m, s.kernelDir);
    CreateKeeps(s, eip);
    AfterMallocKeeps(s, PROCESS_BYTES, s.kernelDir);
  }

  /** The page is mapped as before, or newly on a frame that was free. */
  ghost predicate SameOrFresh(m: Machine, m': Machine, d: FrameNo, v: FrameNo) {
    || Walk(m'.mem, d, v) == Walk(m.mem, d, v)
    || (Walk(m'.mem, d, v).Some? && FrameOf(Walk(m'.mem, d, v).value) in m.pool.free)
  }

  lemma RenewedIsFresh(m: Machine, m': Machine, d: FrameNo, v: FrameNo)
    requires Renewed(m, m', d, v)
    ensures SameOrFresh(m, m', d, v)
  {
    var f: FrameNo :| f in m.pool.free && Walk(m'.mem, d, v) == Some(TableEntry(f));
    TableEntryParts(f);
  }

  /** No event unmaps a user page, or maps it on a frame that was already in use. */
  lemma StepMapsFresh(s: Sys, e: Event, i: nat, v: FrameNo)
    requires SysInv(s) && !Step(s, e).m.pool.failed && i < |s.procs| && v < USER_PAGES
    ensures SameOrFresh(s.m, Step(s, e).m, s.procs[i].dir, v)
  {
    hide Inv, Access.AccessInv, HeapGrowth.Sound, ProcsDistinct, MapNew, MapUserSpace, Store, KeptPage, SameOrFresh;
    var d, s' := s.procs[i].dir, Step(s, e);
    DirNotFree(s, i);
    if Actor(s, e) != d {
      hide Step, Actor;
      StepKeeps(s, e);
      ConfinedKeepsView(s.m, s'.m, SpacesOf(s), Actor(s, e), d);
      SameViewSame(s.m, s'.m, d, v);
    } else {
      OnlyOwnEvents(s, e, i);
      match e
      case Fault(error, addr) => FaultFresh(s, error, addr, v);
      case StoreWord(addr, w) => StoreSame(s, addr, w, v);
      case MapUser(_, code, codeSize, stack, stackSize) =>
        MapUserSpaceMaps(s.m, SpacesOf(s), d, code, codeSize, stack, stackSize, v);
        if !KeptPage(s.m.mem, s'.m.mem, d, v) { RenewedIsFresh(s.m, s'.m, d, v); }
        else { KeptIsSame(s.m, s'.m, d, v); }
    }
  }

  lemma SameViewSame(m: Machine, m': Machine, d: FrameNo, v: FrameNo)
    requires SameUserView(m.mem, m'.mem, d) && v < USER_PAGES
    ensures SameOrFresh(m, m', d, v)
  {}

  lemma KeptIsSame(m: Machine, m': Machine, d: FrameNo, v: FrameNo)
    requires KeptPage(m.mem, m'.mem, d, v)
    ensures SameOrFresh(m, m', d, v)
  {}

  lemma FaultFresh(s: Sys, error: u32, addr: u32, v: FrameNo)
    requires SysInv(s) && HasCurrent(s) && !PageFault(s, error, addr).m.pool.failed
    ensures SameOrFresh(s.m, PageFault(s, error, addr).m, s.procs[s.current.value].dir, v)
  {
    hide SysInv, PageFault;
    FaultRemaps(s, error, addr, v);
    var s', d := PageFault(s, error, addr), s.procs[s.current.value].dir;
    if v == addr / PAGE_SIZE {
      var f: FrameNo :| f in s.m.pool.free && Walk(s'.m.mem, d, v) == Some(TableEntry(f));
      TableEntryParts(f);
    }
  }

  /** A store changes no mapping of the process. */
  lemma StoreSame(s: Sys, addr: u32, w: u32, v: FrameNo)
    requires SysInv(s) && HasCurrent(s)
    ensures SameOrFresh(s.m, Store(s, addr, w).m, s.procs[s.current.value].dir, v)
  {
    hide HeapGrowth.Sound, ProcsDistinct, Access.AccessInv, PagesOwned, Access.UserWritable;
    var d := s.procs[s.current.value].dir;
    DirNotFree(s, s.current.value);
    StoreTarget(s, addr);
    if Present(Word(s.m.mem, d, DirIndex(v))) { TableFrame(s.m, SpacesOf(s), d, DirIndex(v)); }
  }

  // ----- Every process keeps its stack page -----

  ghost predicate StacksMapped(s: Sys) {
    forall i :: 0 <= i < |s.procs| ==> Walk(s.m.mem, s.procs[i].dir, STACK_PAGE).Some?
  }

  lemma NewStack(s: Sys, e: Event)
    requires SysInv(s) && StacksMapped(s) && !Step(s, e).m.pool.failed
    requires e.Create? || (e.ForkCurrent? && HasCurrent(s))
    ensures Walk(Step(s, e).m.mem, Step(s, e).procs[0].dir, STACK_PAGE).Some?
  {
    hide SysInv, Walk, CreateProcess, Fork;
    if e.Create? {
      CreateShape(s, e.eip);
      NewProcessPages(s, e.eip, STACK_PAGE);
    } else {
      ForkShape(s);
      ForkIsDeepCopy(s, STACK_PAGE);
      assert Walk(s.m.mem, s.procs[s.current.value].dir, STACK_PAGE).Some?;
    }
  }

  lemma StepKeepsStacks(s: Sys, e: Event)
    requires SysInv(s) && StacksMapped(s) && !Step(s, e).m.pool.failed
    ensures StacksMapped(Step(s, e))
  {
    hide SysInv, Walk, Step;
    var s' := Step(s, e);
    StepProcs(s, e);
    forall i | 0 <= i < |s'.procs| ensures Walk(s'.m.mem, s'.procs[i].dir, STACK_PAGE).Some? {
      if |s'.procs| == |s.procs| {
        StepMapsFresh(s, e, i, STACK_PAGE);
      } else if i > 0 {
        StepMapsFresh(s, e, i - 1, STACK_PAGE);
      } else {
        NewStack(s, e);
      }
    }
  }

  /** An event leaves the process list alone or puts one process in front of it. */
  lemma StepProcs(s: Sys, e: Event)
    ensures var s' := Step(s, e);
      if e.Create? || (e.ForkCurrent? && HasCurrent(s)) then |s'.procs| == |s.procs| + 1 && s'.procs[1..] == s.procs
      else s'.procs == s.procs
  {
    hide HasCurrent, CreateProcess, Fork, Store, AfterMalloc;
    match e
    case Create(eip) => CreateShape(s, eip);
    case ForkCurrent => ForkShape(s);
    case StoreWord(addr, w) => StoreShape(s, addr, w);
    case KernelMalloc(size) => MallocShape(s, size);
    case _ =>
  }

  lemma {:induction false} RunKeepsStacks(s: Sys, es: seq<Event>)
    requires SysInv(s) && StacksMapped(s) && !Run(s, es).m.pool.failed
    ensures StacksMapped(Run(s, es))
    decreases |es|
  {
    hide SysInv, Step, StacksMapped;
    if es != [] {
      RunFails(Step(s, es[0]), es[1..]);
      StepKeeps(s, es[0]);
      StepKeepsStacks(s, es[0]);
      RunKeepsStacks(Step(s, es[0]), es[1..]);
    }
  }

  /** In every state reached from boot every process has its stack page. */
  lemma EveryProcessHasItsStack(mem: Mem, free: set<FrameNo>, es: seq<Event>)
    requires !Run(Boot(mem, free), es).m.pool.failed
    ensures SysInv(Run(Boot(mem, free), es)) && StacksMapped(Run(Boot(mem, free), es))
  {
    hide SysInv, Run;
    RunFromBoot(mem, free, es);
    BootSound(mem, free);
    RunKeepsStacks(Boot(mem, free), es);
  }

  // ----- The whole user half is copied -----

  /** Whoever forks in a run from boot, the child's user half is the parent's: every page is a copy on a fresh
      frame, or unmapped as the parent's is. */
  lemma ForkCopiesWholeUserHalf(mem: Mem, free: set<FrameNo>, es: seq<Event>, v: FrameNo)
    requires var s := Run(Boot(mem, free), es); HasCurrent(s) && !Fork(s).m.pool.failed
    requires !Run(Boot(mem, free), es).m.pool.failed && v < USER_PAGES
    ensures var s := Run(Boot(mem, free), es);
      var s', parent := Fork(s), s.procs[s.current.value].dir;
      CopiedPage(s.m, s'.m, parent, s'.procs[0].dir, v) && KeptPage(s.m.mem, s'.m.mem, parent, v)
  {
    hide SysInv, Run, Boot, Fork, KeptPage;
    var s := Run(Boot(mem, free), es);
    EveryProcessHasItsStack(mem, free, es);
    ForkIsDeepCopy(s, v);
    assert Walk(s.m.mem, s.procs[s.current.value].dir, STACK_PAGE).Some?;
  }

  // ----- What every fork loses -----

  /** The frame is in use, and nothing a process of the state can reach is on it, nor any table. */
  ghost predicate Lost(s: Sys, f: FrameNo) {
    && f in s.m.pool.own && f !in s.m.pool.free
    && !IsDir(SpacesOf(s), f)
    && (forall q: FrameNo, i: nat :: IsDir(SpacesOf(s), q) && i < ENTRIES && Present(Word(s.m.mem, q, i)) ==>
          FrameOf(Word(s.m.mem, q, i)) != f)
    && (forall q: FrameNo, v: FrameNo :: q in Dirs(s.procs) && v < USER_PAGES && Walk(s.m.mem, q, v).Some? ==>
          FrameOf(Walk(s.m.mem, q, v).value) != f)
  }

  /** The table and the page that `create_process` gave the child for its stack. */
  function StackTable(s1: Sys): FrameNo
    requires s1.procs != []
  {
    FrameOf(Word(s1.m.mem, s1.procs[0].dir, DirIndex(STACK_PAGE)))
  }

  function StackFrame(s1: Sys): FrameNo
    requires s1.procs != [] && Walk(s1.m.mem, s1.procs[0].dir, STACK_PAGE).Some?
  {
    FrameOf(Walk(s1.m.mem, s1.procs[0].dir, STACK_PAGE).value)
  }

  /** Ownership alone says who could refer to a frame. */
  lemma TableIsLost(s: Sys, t: FrameNo, child: FrameNo, i: nat)
    requires Inv(s.m, SpacesOf(s)) && t in s.m.pool.own && s.m.pool.own[t] == Table(child, i)
    requires child in Dirs(s.procs) && i < KERNEL_PD_INDEX
    requires Present(Word(s.m.mem, child, i)) && FrameOf(Word(s.m.mem, child, i)) != t
    ensures Lost(s, t)
  {}

  lemma PageIsLost(s: Sys, f: FrameNo, child: FrameNo, v: FrameNo)
    requires Inv(s.m, SpacesOf(s)) && f in s.m.pool.own && s.m.pool.own[f] == Page(child, v)
    requires Walk(s.m.mem, child, v).Some? && FrameOf(Walk(s.m.mem, child, v).value) != f
    ensures Lost(s, f)
  {}

  /** The child's first stack page and its table are in use right after the process was created, ... */
  lemma StackFramesTaken(s: Sys, s1: Sys)
    requires SysInv(s) && SysInv(s1) && s1.procs != [] && Confined(s.m, s1.m, s.kernelDir, s1.procs[0].dir)
    requires s1.procs[0].dir in s.m.pool.free && Walk(s1.m.mem, s1.procs[0].dir, STACK_PAGE).Some?
    ensures var own, d := s1.m.pool.own, s1.procs[0].dir;
      && StackTable(s1) in own && own[StackTable(s1)] == Table(d, DirIndex(STACK_PAGE))
      && StackFrame(s1) in own && own[StackFrame(s1)] == Page(d, STACK_PAGE)
      && StackTable(s1) !in s1.m.pool.free && StackFrame(s1) !in s1.m.pool.free
  {
    hide HeapGrowth.Sound, ProcsDistinct, Access.AccessInv;
    DirNotFree(s1, 0);
    TableFrame(s1.m, SpacesOf(s1), s1.procs[0].dir, DirIndex(STACK_PAGE));
    assert OwnsPage(s1.m.pool.own, s1.procs[0].dir, STACK_PAGE, StackFrame(s1));
  }

  /** ... and in every fork the copy then puts others in their place. */
  lemma StackReplaced(s: Sys)
    requires SysInv(s) && StacksMapped(s) && HasCurrent(s) && !Fork(s).m.pool.failed
    ensures var s1, s' := CreateProcess(s, s.procs[s.current.value].eip), Fork(s);
      && s1.procs != [] && s'.procs != [] && Walk(s1.m.mem, s1.procs[0].dir, STACK_PAGE).Some?
      && var child, i, t, f := s'.procs[0].dir, DirIndex(STACK_PAGE), StackTable(s1), StackFrame(s1);
      && t in s'.m.pool.own && s'.m.pool.own[t] == Table(child, i)
      && f in s'.m.pool.own && s'.m.pool.own[f] == Page(child, STACK_PAGE)
      && Present(Word(s'.m.mem, child, i)) && FrameOf(Word(s'.m.mem, child, i)) != t
      && Walk(s'.m.mem, child, STACK_PAGE).Some? && FrameOf(Walk(s'.m.mem, child, STACK_PAGE).value) != f
  {
    hide SysInv, StacksMapped, CreateProcess, CopyAddrSpace, Walk, Lost, Access.AccessInv;
    var p := s.procs[s.current.value];
    var s1, s' := CreateProcess(s, p.eip), Fork(s);
    CreateShape(s, p.eip);
    var child, i := s1.procs[0].dir, DirIndex(STACK_PAGE);
    ForkCopies(s);
    CreateKeeps(s, p.eip);
    NewProcessPages(s, p.eip, STACK_PAGE);
    StackFramesTaken(s, s1);
    ParentReady(s, s1, s.current.value);
    InvOf(s1);
    CopyAddrSpaceCopies(s1.m, SpacesOf(s1), p.dir, child, KERNEL_PD_INDEX, STACK_PAGE);
    CopyAddrSpaceKeeps(s1.m, SpacesOf(s1), p.dir, child, KERNEL_PD_INDEX);
    CopiedEntries(s1.m, SpacesOf(s1), p.dir, child, KERNEL_PD_INDEX, i);
    OwnersKept(s1.m, s'.m, s.kernelDir, child, StackTable(s1));
    OwnersKept(s1.m, s'.m, s.kernelDir, child, StackFrame(s1));
  }

  lemma InvOf(s: Sys)
    requires SysInv(s)
    ensures Inv(s.m, SpacesOf(s))
  {}

  lemma OwnersKept(m: Machine, m': Machine, kernelDir: FrameNo, d: FrameNo, f: FrameNo)
    requires Confined(m, m', kernelDir, d) && f in m.pool.own
    ensures f in m'.pool.own && m'.pool.own[f] == m.pool.own[f]
  {}

  /** After the record is in front of the list the parent still has its stack page and the table for it. */
  lemma ParentReady(s: Sys, s1: Sys, k: nat)
    requires SysInv(s) && SysInv(s1) && StacksMapped(s) && k < |s.procs|
    requires |s1.procs| == |s.procs| + 1 && s1.procs[1..] == s.procs && s1.kernelDir == s.kernelDir
    requires s1.procs[0].dir in s.m.pool.free && Confined(s.m, s1.m, s.kernelDir, s1.procs[0].dir)
    ensures var parent, child := s.procs[k].dir, s1.procs[0].dir;
      && parent in Dirs(s1.procs) && child in Dirs(s1.procs) && parent != child
      && Walk(s1.m.mem, parent, STACK_PAGE).Some? && Present(Word(s1.m.mem, parent, DirIndex(STACK_PAGE)))
  {
    hide Inv, HeapGrowth.Sound, ProcsDistinct, Access.AccessInv, Confined;
    DirNotFree(s, k);
    DirNotFree(s1, k + 1);
    DirNotFree(s1, 0);
    assert s1.procs[k + 1] == s.procs[k];
    ConfinedKeepsPage(s.m, s1.m, SpacesOf(s), s1.procs[0].dir, s.procs[k].dir, STACK_PAGE);
  }

  // ----- Lost frames stay lost -----

  lemma {:induction false} RunKeepsPageLost(s: Sys, es: seq<Event>, i: nat, v: FrameNo, f: FrameNo)
    requires SysInv(s) && !Run(s, es).m.pool.failed && i < |s.procs| && v < USER_PAGES
    requires f in s.m.pool.own && s.m.pool.own[f] == Page(s.procs[i].dir, v)
    requires Walk(s.m.mem, s.procs[i].dir, v).Some? && FrameOf(Walk(s.m.mem, s.procs[i].dir, v).value) != f
    ensures Lost(Run(s, es), f)
    decreases |es|
  {
    hide SysInv, Step, Lost, Walk, Confined, Actor;
    InvOf(s);
    DirNotFree(s, i);
    if es == [] {
      PageIsLost(s, f, s.procs[i].dir, v);
    } else {
      var s1 := Step(s, es[0]);
      RunFails(s1, es[1..]);
      StepKeeps(s, es[0]);
      StepProcs(s, es[0]);
      StepMapsFresh(s, es[0], i, v);
      NotFree(s, f);
      OwnersKept(s.m, s1.m, s.kernelDir, Actor(s, es[0]), f);
      RunKeepsPageLost(s1, es[1..], if |s1.procs| == |s.procs| then i else i + 1, v, f);
    }
  }

  lemma NotFree(s: Sys, f: FrameNo)
    requires SysInv(s) && f in s.m.pool.own
    ensures f !in s.m.pool.free
  {}

  lemma {:induction false} RunKeepsTableLost(s: Sys, es: seq<Event>, i: nat, k: nat, t: FrameNo)
    requires SysInv(s) && !Run(s, es).m.pool.failed && i < |s.procs| && k < KERNEL_PD_INDEX
    requires t in s.m.pool.own && s.m.pool.own[t] == Table(s.procs[i].dir, k)
    requires Present(Word(s.m.mem, s.procs[i].dir, k)) && FrameOf(Word(s.m.mem, s.procs[i].dir, k)) != t
    ensures Lost(Run(s, es), t)
    decreases |es|
  {
    hide SysInv, Step, Lost, Walk, Confined, Actor;
    InvOf(s);
    DirNotFree(s, i);
    if es == [] {
      TableIsLost(s, t, s.procs[i].dir, k);
    } else {
      var s1 := Step(s, es[0]);
      RunFails(s1, es[1..]);
      StepKeeps(s, es[0]);
      StepProcs(s, es[0]);
      KernelHalf.StepKeepsEntries(s, es[0]);
      OwnersKept(s.m, s1.m, s.kernelDir, Actor(s, es[0]), t);
      RunKeepsTableLost(s1, es[1..], if |s1.procs| == |s.procs| then i else i + 1, k, t);
    }
  }

  /** Every fork loses the two frames bought for the child's own stack, the page and its table, for good: in no
      later state is either of them free, or reached by any directory entry or any user page. */
  lemma ForkLosesTwoFrames(s: Sys, es: seq<Event>)
    requires SysInv(s) && StacksMapped(s) && HasCurrent(s) && !Run(Fork(s), es).m.pool.failed
    ensures var s1, later := CreateProcess(s, s.procs[s.current.value].eip), Run(Fork(s), es);
      && s1.procs != [] && Walk(s1.m.mem, s1.procs[0].dir, STACK_PAGE).Some?
      && StackTable(s1) != StackFrame(s1) && Lost(later, StackTable(s1)) && Lost(later, StackFrame(s1))
  {
    hide SysInv, StacksMapped, CreateProcess, Fork, Run, Lost, Walk;
    var s1, s' := CreateProcess(s, s.procs[s.current.value].eip), Fork(s);
    RunFails(s', es);
    ForkKeeps(s);
    StackReplaced(s);
    RunKeepsTableLost(s', es, 0, DirIndex(STACK_PAGE), StackTable(s1));
    RunKeepsPageLost(s', es, 0, STACK_PAGE, StackFrame(s1));
  }
}
