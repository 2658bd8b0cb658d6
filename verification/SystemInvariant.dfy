/** Every event keeps the system invariant, and is confined to one address space. */
module SystemInvariant {
  import opened Words
  import opened Frames
  import opened Memory
  import opened Paging
  import opened Ownership
  import opened NewSpace
  import opened System
  import opened Access
  import AddressSpaceCopy
  import HeapList
  import HeapGrowth

  function Dirs(procs: seq<Proc>): set<FrameNo> {
    set i | 0 <= i < |procs| :: procs[i].dir
  }

  function SpacesOf(s: Sys): Spaces {
    Spaces(s.kernelDir, Dirs(s.procs))
  }

  /** The record is the payload of a block that malloc handed out. */
  predicate HasRecord(p: Proc, handed: seq<HeapList.Block>) {
    exists k :: 0 <= k < |handed| && handed[k].addr + HeapList.HEADER == p.addr && handed[k].size >= PROCESS_BYTES
  }

  /** Directories and records differ, and pids count down along the list. */
  ghost predicate ProcsDistinct(s: Sys) {
    && (forall i, j :: 0 <= i < j < |s.procs| ==>
         s.procs[i].dir != s.procs[j].dir && s.procs[i].addr != s.procs[j].addr)
    && (forall i :: 0 <= i < |s.procs| ==> HasRecord(s.procs[i], s.handed))
    && s.nextPid == |s.procs| + 1
    && (forall i :: 0 <= i < |s.procs| ==> s.procs[i].pid == |s.procs| - i)
  }

  ghost predicate SysInv(s: Sys) {
    && Inv(s.m, SpacesOf(s))
    && AccessInv(s.m, SpacesOf(s))
    && HeapGrowth.Sound(s.heap, s.m.pool, s.handed)
    && 0 !in s.m.pool.free
    && ProcsDistinct(s)
    && (s.current.Some? ==> s.current.value < |s.procs|)
  }

  /** The address space an event acts on; for a new process, its own. */
  ghost function Actor(s: Sys, e: Event): FrameNo {
    match e
    case Create(_) => Step(s, e).procs[0].dir
    case ForkCurrent => if HasCurrent(s) then Step(s, e).procs[0].dir else s.kernelDir
    case Fault(_, _) => if HasCurrent(s) then s.procs[s.current.value].dir else s.kernelDir
    case StoreWord(_, _) => if HasCurrent(s) then s.procs[s.current.value].dir else s.kernelDir
    case MapUser(i, _, _, _, _) => if i < |s.procs| then s.procs[i].dir else s.kernelDir
    case MapFrames(_, _) => s.kernelDir
    case KernelMalloc(_) => s.kernelDir
    case Tick => s.kernelDir
  }

  lemma ConfinedSame(m: Machine, kernelDir: FrameNo, d: FrameNo)
    ensures Confined(m, m, kernelDir, d)
  {}

  // ----- Heap and pool -----

  /** malloc changes no memory word and only takes frames, for the heap. */
  lemma {:induction false} MallocKeepsMachine(m: Machine, sp: Spaces, h: HeapGrowth.Heap, size: u32, d: FrameNo)
    requires Inv(m, sp)
    ensures var m' := Machine(m.mem, HeapGrowth.Malloc(h, m.pool, size).pool);
      Inv(m', sp) && Confined(m, m', sp.kernelDir, d)
    decreases |m.pool.free|
  {
    hide Inv, HeapList.Place, HeapGrowth.Grow;
    if HeapList.FirstFit(h.blocks, size) == |h.blocks| {
      var t := Take(m.pool, HeapPage);
      var m1 := Machine(m.mem, t.pool);
      NewHeapFrame(m, sp, d);
      if t.frame != 0 {
        assert |t.pool.free| < |m.pool.free|;
        MallocKeepsMachine(m1, sp, HeapGrowth.Grow(h, t.frame), size, d);
        ConfinedTransitive(m, m1, Machine(m.mem, HeapGrowth.Malloc(h, m.pool, size).pool), sp.kernelDir, d);
      }
    } else {
      ConfinedSame(m, sp.kernelDir, d);
    }
  }

  lemma NewHeapFrame(m: Machine, sp: Spaces, d: FrameNo)
    requires Inv(m, sp)
    ensures var m' := Machine(m.mem, Take(m.pool, HeapPage).pool);
      Inv(m', sp) && Confined(m, m', sp.kernelDir, d)
  {}

  /** The heap stays sound while the rest of the kernel takes frames. */
  lemma SoundKept(h: HeapGrowth.Heap, p: Pool, p': Pool, handed: seq<HeapList.Block>)
    requires HeapGrowth.Sound(h, p, handed) && p'.Valid()
    requires forall f: FrameNo :: f in p.own ==> f in p'.own && p'.own[f] == p.own[f]
    ensures HeapGrowth.Sound(h, p', handed)
  {}

  /** A change of the machine alone, confined to one space, keeps the system invariant. */
  lemma MachineStepKeeps(s: Sys, m': Machine, d: FrameNo)
    requires SysInv(s) && Inv(m', SpacesOf(s)) && AccessInv(m', SpacesOf(s)) && Confined(s.m, m', s.kernelDir, d)
    ensures SysInv(WithMachine(s, m'))
  {}

  lemma SameMemoryAccess(m: Machine, m': Machine, sp: Spaces)
    requires AccessInv(m, sp) && m'.mem == m.mem
    requires forall f: FrameNo :: f in m.pool.own ==> f in m'.pool.own && m'.pool.own[f] == m.pool.own[f]
    ensures AccessInv(m', sp)
  {}

  lemma AfterMallocKeeps(s: Sys, size: u32, d: FrameNo)
    requires SysInv(s)
    ensures SysInv(AfterMalloc(s, size)) && Confined(s.m, AfterMalloc(s, size).m, s.kernelDir, d)
  {
    hide Inv, HeapGrowth.Sound, AccessInv;
    MallocKeepsMachine(s.m, SpacesOf(s), s.heap, size, d);
    SameMemoryAccess(s.m, AfterMalloc(s, size).m, SpacesOf(s));
    HeapGrowth.MallocSound(s.heap, s.m.pool, s.handed, size);
    var s' := AfterMalloc(s, size);
    forall i | 0 <= i < |s.procs| ensures HasRecord(s'.procs[i], s'.handed) {
      RecordKept(s.procs[i], s.handed, s'.handed);
    }
  }

  lemma RecordKept(p: Proc, handed: seq<HeapList.Block>, handed': seq<HeapList.Block>)
    requires HasRecord(p, handed) && handed <= handed'
    ensures HasRecord(p, handed')
  {}

  // ----- create_process -----

  lemma DirsPrepend(p: Proc, procs: seq<Proc>)
    ensures Dirs([p] + procs) == {p.dir} + Dirs(procs)
  {
    var all := [p] + procs;
    forall d: FrameNo ensures d in Dirs(all) <==> d in {p.dir} + Dirs(procs) {
      if d in Dirs(procs) {
        var i :| 0 <= i < |procs| && procs[i].dir == d;
        assert all[i + 1].dir == d;
      }
      if d == p.dir { assert all[0].dir == d; }
    }
  }

  lemma DirsCount(procs: seq<Proc>)
    requires forall i, j :: 0 <= i < j < |procs| ==> procs[i].dir != procs[j].dir
    ensures |Dirs(procs)| == |procs| <= FRAME_COUNT
    decreases |procs|
  {
    if procs == [] {
      assert Dirs(procs) == {};
    } else {
      DirsCount(procs[1..]);
      assert procs == [procs[0]] + procs[1..];
      DirsPrepend(procs[0], procs[1..]);
      assert procs[0].dir !in Dirs(procs[1..]);
    }
    FramesBelow(Dirs(procs), FRAME_COUNT);
  }

  /** A block handed out now differs from every record handed out before. */
  lemma NewRecord(s: Sys, g: HeapGrowth.Given)
    requires SysInv(s) && g == SysMalloc(s, PROCESS_BYTES) && g.block.Some?
    ensures forall i :: 0 <= i < |s.procs| ==> s.procs[i].addr != PointerOf(g.block)
  {
    HeapGrowth.MallocSound(s.heap, s.m.pool, s.handed, PROCESS_BYTES);
    var all := s.handed + [g.block.value];
    assert HeapGrowth.Apart(all);
    forall i | 0 <= i < |s.procs| ensures s.procs[i].addr != PointerOf(g.block) {
      assert HasRecord(s.procs[i], s.handed);
      var k :| 0 <= k < |s.handed| && s.handed[k].addr + HeapList.HEADER == s.procs[i].addr;
      assert HeapGrowth.Disjoint(all[k], all[|s.handed|]);
    }
  }

  /** The record can always be had while frames last. */
  lemma RecordFound(s: Sys)
    requires SysInv(s) && !AfterMalloc(s, PROCESS_BYTES).m.pool.failed
    ensures SysMalloc(s, PROCESS_BYTES).block.Some? && SysMalloc(s, PROCESS_BYTES).block.value.size >= PROCESS_BYTES
  {
    HeapGrowth.PageRequest(s.heap, s.m.pool, PROCESS_BYTES);
    HeapGrowth.MallocSound(s.heap, s.m.pool, s.handed, PROCESS_BYTES);
  }

  lemma BuildSpaceFails(m: Machine, kernelDir: FrameNo)
    ensures m.pool.failed ==> BuildSpace(m, kernelDir).m.pool.failed
  {}

  lemma CreateKeeps(s: Sys, eip: u32)
    requires SysInv(s) && !CreateProcess(s, eip).m.pool.failed
    ensures var s' := CreateProcess(s, eip);
      && SysInv(s')
      && s'.procs[0].dir in s.m.pool.free
      && Confined(s.m, s'.m, s.kernelDir, s'.procs[0].dir)
  {
    var s1, s' := AfterMalloc(s, PROCESS_BYTES), CreateProcess(s, eip);
    var d := s'.procs[0].dir;
    BuildSpaceFails(s1.m, s.kernelDir);
    AfterMallocKeeps(s, PROCESS_BYTES, d);
    BuildSpaceKeeps(s1.m, SpacesOf(s));
    BuildSpaceAccess(s1.m, SpacesOf(s));
    ConfinedTransitive(s.m, s1.m, s'.m, s.kernelDir, d);
    DirsPrepend(s'.procs[0], s.procs);
    assert SpacesOf(s') == With(SpacesOf(s), d);
    SoundKept(s1.heap, s1.m.pool, s'.m.pool, s1.handed);
    CreateDistinct(s, s1, s', d);
  }

  lemma CreateDistinct(s: Sys, s1: Sys, s': Sys, d: FrameNo)
    requires SysInv(s) && SysInv(s1) && s1 == AfterMalloc(s, PROCESS_BYTES) && !s1.m.pool.failed
    requires d in s1.m.pool.free
    requires |s'.procs| == |s.procs| + 1 && s'.procs[1..] == s.procs && s'.handed == s1.handed
    requires s'.procs[0].dir == d && s'.procs[0].pid == s.nextPid && s'.nextPid == Wrap(s.nextPid + 1)
    requires s'.procs[0].addr == PointerOf(SysMalloc(s, PROCESS_BYTES).block)
    ensures ProcsDistinct(s')
  {
    hide Inv, HeapGrowth.Sound;
    var g := SysMalloc(s, PROCESS_BYTES);
    RecordFound(s);
    NewRecord(s, g);
    DirsCount(s.procs);
    assert s1.handed[|s.handed|] == g.block.value;
    assert HasRecord(s'.procs[0], s'.handed);
    forall i | 0 <= i < |s'.procs|
      ensures HasRecord(s'.procs[i], s'.handed) && s'.procs[i].pid == |s'.procs| - i
      ensures i > 0 ==> s'.procs[i].dir != d && s'.procs[i].addr != s'.procs[0].addr
    {
      if i > 0 {
        assert s'.procs[i] == s.procs[i - 1] && s1.procs == s.procs;
        DirNotFree(s1, i - 1);
      }
    }
    forall i, j | 0 <= i < j < |s'.procs|
      ensures s'.procs[i].dir != s'.procs[j].dir && s'.procs[i].addr != s'.procs[j].addr
    {
      if i > 0 { assert s'.procs[i] == s.procs[i - 1] && s'.procs[j] == s.procs[j - 1]; }
    }
  }

  lemma DirNotFree(s: Sys, i: nat)
    requires SysInv(s) && i < |s.procs|
    ensures s.procs[i].dir !in s.m.pool.free && s.procs[i].dir in Dirs(s.procs) && s.procs[i].dir != s.kernelDir
  {}

  // ----- The other events -----

  /** A process created without running out of frames has its record. */
  lemma RecordHad(s: Sys, eip: u32)
    requires SysInv(s)
    ensures !CreateProcess(s, eip).m.pool.failed ==> SysMalloc(s, PROCESS_BYTES).block.Some?
  {
    hide Inv, HeapGrowth.Sound, ProcsDistinct, BuildSpace, SysMalloc;
    if !CreateProcess(s, eip).m.pool.failed {
      BuildSpaceFails(AfterMalloc(s, PROCESS_BYTES).m, s.kernelDir);
      RecordFound(s);
    }
  }

  /** A fork that did not run out of frames has its record, and did the copy. */
  lemma ForkCopies(s: Sys)
    requires SysInv(s) && HasCurrent(s) && !Fork(s).m.pool.failed
    ensures var parent := s.procs[s.current.value];
      var s1 := CreateProcess(s, parent.eip);
      && !s1.m.pool.failed
      && Fork(s) == WithMachine(s1, CopyAddrSpace(s1.m, parent.dir, s1.procs[0].dir, KERNEL_PD_INDEX))
  {
    hide SysInv, CopyAddrSpace, CreateProcess, SysMalloc;
    var parent := s.procs[s.current.value];
    var s1 := CreateProcess(s, parent.eip);
    CreateShape(s, parent.eip);
    CopyFails(s1.m, parent.dir, s1.procs[0].dir, KERNEL_PD_INDEX);
    RecordHad(s, parent.eip);
  }

  lemma ForkKeeps(s: Sys)
    requires SysInv(s) && HasCurrent(s) && !Fork(s).m.pool.failed
    ensures var s' := Fork(s);
      && SysInv(s')
      && s'.procs[0].dir in s.m.pool.free
      && Confined(s.m, s'.m, s.kernelDir, s'.procs[0].dir)
  {
    hide Inv, HeapGrowth.Sound, ProcsDistinct, CopyAddrSpace, CreateProcess;
    var parent := s.procs[s.current.value];
    var s1 := CreateProcess(s, parent.eip);
    CreateShape(s, parent.eip);
    var child := s1.procs[0].dir;
    ForkCopies(s);
    CreateKeeps(s, parent.eip);
    DirNotFree(s, s.current.value);
    DirNotFree(s1, s.current.value + 1);
    DirNotFree(s1, 0);
    AddressSpaceCopy.CopyAddrSpaceKeeps(s1.m, SpacesOf(s1), parent.dir, child, KERNEL_PD_INDEX);
    CopyAccess(s1.m, SpacesOf(s1), parent.dir, child);
    MachineStepKeeps(s1, Fork(s).m, child);
    ConfinedTransitive(s.m, s1.m, Fork(s).m, s.kernelDir, child);
  }

  lemma CreateShape(s: Sys, eip: u32)
    ensures var s' := CreateProcess(s, eip);
      s'.procs[1..] == s.procs && |s'.procs| == |s.procs| + 1 && s'.kernelDir == s.kernelDir
  {}

  lemma {:induction false} CopyFails(m: Machine, src: FrameNo, dst: FrameNo, n: nat)
    requires n <= KERNEL_PD_INDEX
    ensures m.pool.failed ==> CopyAddrSpace(m, src, dst, n).pool.failed
  {
    if n > 0 {
      CopyFails(m, src, dst, n - 1);
      AddressSpaceCopy.CopyTableFails(CopyAddrSpace(m, src, dst, n - 1), src, dst, n - 1);
    }
  }

  /** Which pages user code may write to: every mapped one in the user half of its process, and in the kernel
      half those whose own entry lets it. */
  lemma MayWriteIff(s: Sys, i: nat, v: FrameNo)
    requires SysInv(s) && i < |s.procs|
    ensures var d := s.procs[i].dir;
      MayWrite(s.m.mem, d, v) <==>
      Walk(s.m.mem, d, v).Some? && (v < USER_PAGES || UserWritable(Walk(s.m.mem, d, v).value))
  {
    hide Inv, HeapGrowth.Sound, ProcsDistinct, UpperOwned, Open, UserWritable;
    var d := s.procs[i].dir;
    DirNotFree(s, i);
    if Walk(s.m.mem, d, v).Some? {
      assert Open(Word(s.m.mem, d, DirIndex(v)));
      OpenIsWritable(Word(s.m.mem, d, DirIndex(v)));
      OpenIsWritable(Walk(s.m.mem, d, v).value);
    }
  }

  lemma OpenIsWritable(e: u32)
    ensures Open(e) ==> UserWritable(e)
  {
    if Open(e) { SevenIsWritable(FrameOf(e) * 512); }
  }

  lemma SevenIsWritable(q: nat)
    ensures UserWritable(8 * q + 7)
  {
    assert (8 * q + 7) / 2 == 4 * q + 3;
  }

  /** What a store may write: a user page of the process, or a page of the kernel half put there for user code. */
  lemma StoreTarget(s: Sys, addr: u32)
    requires SysInv(s) && HasCurrent(s)
    ensures var d, v: FrameNo := s.procs[s.current.value].dir, addr / PAGE_SIZE;
      MayWrite(s.m.mem, d, v) ==>
        var f := FrameOf(Walk(s.m.mem, d, v).value);
        f in s.m.pool.own && s.m.pool.own[f].Page? && (s.m.pool.own[f].dir == d || UpperPage(s.m.pool.own, f))
  {
    hide HeapGrowth.Sound, TablesOwned, DirsOwned, Walk;
    var d, v: FrameNo := s.procs[s.current.value].dir, addr / PAGE_SIZE;
    DirNotFree(s, s.current.value);
    if Walk(s.m.mem, d, v).Some? && v < USER_PAGES {
      assert OwnsPage(s.m.pool.own, d, v, FrameOf(Walk(s.m.mem, d, v).value));
    }
  }

  lemma StoreKeeps(s: Sys, addr: u32, w: u32)
    requires SysInv(s) && HasCurrent(s)
    ensures SysInv(Store(s, addr, w))
    ensures Confined(s.m, Store(s, addr, w).m, s.kernelDir, s.procs[s.current.value].dir)
  {
    hide Inv, AccessInv, HeapGrowth.Sound, ProcsDistinct, UserWritable, Confined;
    var d, sp := s.procs[s.current.value].dir, SpacesOf(s);
    var v: FrameNo := addr / PAGE_SIZE;
    DirNotFree(s, s.current.value);
    StoreTarget(s, addr);
    ConfinedSame(s.m, s.kernelDir, d);
    if MayWrite(s.m.mem, d, v) {
      var f := FrameOf(Walk(s.m.mem, d, v).value);
      var m' := Store(s, addr, w).m;
      PageWriteKeeps(s.m, m', sp, d, f);
      PageWriteAccess(s.m, m', sp, f);
      MachineStepKeeps(s, m', d);
    }
  }

  /** Writing words of a page of the process, or of the kernel half, keeps the invariant. */
  lemma PageWriteKeeps(m: Machine, m': Machine, sp: Spaces, d: FrameNo, f: FrameNo)
    requires Inv(m, sp) && d in sp.dirs && f in m.pool.own && m.pool.own[f].Page?
    requires m.pool.own[f].dir == d || UpperPage(m.pool.own, f)
    requires m'.pool == m.pool && forall g: FrameNo :: g != f ==> m'.mem[g] == m.mem[g]
    ensures Inv(m', sp) && Confined(m, m', sp.kernelDir, d)
  {
    assert !IsDir(sp, f);
    forall q: FrameNo, j: nat | IsDir(sp, q) && j < ENTRIES && Present(Word(m'.mem, q, j))
      ensures OwnsTable(m'.pool.own, sp, q, j, FrameOf(Word(m'.mem, q, j)))
    {
      TableFrame(m, sp, q, j);
    }
    forall q: FrameNo, u: FrameNo | q in sp.dirs && u < USER_PAGES && Walk(m'.mem, q, u).Some?
      ensures OwnsPage(m'.pool.own, q, u, FrameOf(Walk(m'.mem, q, u).value))
    {
      TableFrame(m, sp, q, DirIndex(u));
      assert Walk(m.mem, q, u) == Walk(m'.mem, q, u);
      assert OwnsPage(m.pool.own, q, u, FrameOf(Walk(m.mem, q, u).value));
    }
  }

  /** Every event, as long as frames last, keeps the invariant, touches no address space but its actor's,
      and keeps every process. */
  lemma StepKeeps(s: Sys, e: Event)
    requires SysInv(s) && !Step(s, e).m.pool.failed
    ensures var s' := Step(s, e);
      && SysInv(s')
      && Confined(s.m, s'.m, s.kernelDir, Actor(s, e))
      && s'.kernelDir == s.kernelDir
      && Dirs(s.procs) <= Dirs(s'.procs)
      && (s' == s || Actor(s, e) in SpacesOf(s').dirs + {s.kernelDir})
  {
    hide Inv, AccessInv, HeapGrowth.Sound, ProcsDistinct, MapNew, MapUserSpace, MapPhysicalRegion, AfterMalloc,
      CreateProcess, Fork, Store;
    ConfinedSame(s.m, s.kernelDir, Actor(s, e));
    var s' := Step(s, e);
    match e
    case Create(eip) =>
      CreateKeeps(s, eip);
      CreateShape(s, eip);
      DirsGrow(s, s');
    case ForkCurrent =>
      ForkShape(s);
      if HasCurrent(s) {
        ForkKeeps(s);
        DirsGrow(s, s');
      }
    case Fault(error, addr) =>
      if HasCurrent(s) {
        DirNotFree(s, s.current.value);
        MapNewKeeps(s.m, SpacesOf(s), Actor(s, e), PAGE_SIZE * FrameOf(addr));
        MapNewAccess(s.m, SpacesOf(s), Actor(s, e), PAGE_SIZE * FrameOf(addr));
        MachineStepKeeps(s, s'.m, Actor(s, e));
      }
    case MapUser(i, code, codeSize, stack, stackSize) =>
      if i < |s.procs| {
        DirNotFree(s, i);
        MapUserSpaceKeeps(s.m, SpacesOf(s), Actor(s, e), code, codeSize, stack, stackSize);
        MapUserSpaceAccess(s.m, SpacesOf(s), Actor(s, e), code, codeSize, stack, stackSize);
        MachineStepKeeps(s, s'.m, Actor(s, e));
      }
    case MapFrames(addr, size) =>
      MapFramebufferKeeps(s, addr, size);
      MachineStepKeeps(s, s'.m, s.kernelDir);
    case StoreWord(addr, w) =>
      if HasCurrent(s) {
        DirNotFree(s, s.current.value);
        StoreKeeps(s, addr, w);
      }
      StoreShape(s, addr, w);
    case KernelMalloc(size) =>
      AfterMallocKeeps(s, size, s.kernelDir);
      MallocShape(s, size);
    case Tick =>
      TickKeeps(s);
  }

  lemma MapFramebufferKeeps(s: Sys, addr: u32, size: u32)
    requires SysInv(s) && !MapFramebuffer(s, addr, size).m.pool.failed
    ensures var m' := MapFramebuffer(s, addr, size).m;
      Inv(m', SpacesOf(s)) && AccessInv(m', SpacesOf(s)) && Confined(s.m, m', s.kernelDir, s.kernelDir)
  {
    hide Inv, AccessInv, MapRegion;
    MapRegionKeeps(s.m, SpacesOf(s), RegionStart(addr), FRAMEBUFFER_FLAGS, RegionPages(addr, size));
    assert Or(FRAMEBUFFER_FLAGS % PAGE_SIZE, 1) == 11;
    MapRegionAccess(s.m, SpacesOf(s), RegionStart(addr), FRAMEBUFFER_FLAGS, RegionPages(addr, size));
  }

  lemma TickKeeps(s: Sys)
    requires SysInv(s)
    ensures SysInv(Schedule(s)) && Schedule(s).m == s.m && Schedule(s).procs == s.procs
      && Schedule(s).kernelDir == s.kernelDir
  {}

  lemma StoreShape(s: Sys, addr: u32, w: u32)
    ensures Store(s, addr, w).procs == s.procs && Store(s, addr, w).kernelDir == s.kernelDir
    ensures !HasCurrent(s) ==> Store(s, addr, w) == s
  {}

  lemma MallocShape(s: Sys, size: u32)
    ensures AfterMalloc(s, size).procs == s.procs && AfterMalloc(s, size).kernelDir == s.kernelDir
  {}

  lemma ForkShape(s: Sys)
    ensures !HasCurrent(s) ==> Fork(s) == s
    ensures HasCurrent(s) ==> var s' := Fork(s);
      s'.procs[1..] == s.procs && |s'.procs| == |s.procs| + 1 && s'.kernelDir == s.kernelDir
  {}

  lemma DirsGrow(s: Sys, s': Sys)
    requires |s'.procs| == |s.procs| + 1 && s'.procs[1..] == s.procs
    ensures Dirs(s.procs) <= Dirs(s'.procs) && s'.procs[0].dir in Dirs(s'.procs)
  {}
}
