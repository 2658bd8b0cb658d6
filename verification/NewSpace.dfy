/** The address space `create_process` gives a new process: the kernel's upper half, one zeroed stack page,
    nothing else, for exactly three frames. */
module NewSpace {
  import opened Words
  import opened Frames
  import opened Memory
  import opened Paging
  import opened Ownership
  import opened CopyCost

  const STACK_ADDRESS: u32 := 0xBF_F000
  const STACK_PAGE: FrameNo := 0xBFF
  const STACK_FLAGS: u32 := 7          // PAGE_RW | PAGE_USER | PAGE_PRESENT

  /** A zeroed directory with the kernel's upper half. */
  ghost function NewDirectory(m: Machine, kernelDir: FrameNo): Fresh {
    var a := CreatePageTable(m, Directory);
    Fresh(Machine(CloneKernelSpace(a.m.mem, a.frame, kernelDir), a.m.pool), a.frame)
  }

  /** The paging part of `create_process`. */
  ghost function BuildSpace(m: Machine, kernelDir: FrameNo): Fresh {
    var a := NewDirectory(m, kernelDir);
    var b := NewFrame(a.m, Page(a.frame, STACK_PAGE));
    var mapped := MapPage(b.m, a.frame, STACK_ADDRESS, b.frame * PAGE_SIZE, STACK_FLAGS);
    Fresh(Machine(SetFrame(mapped.mem, b.frame, ZeroFrame()), mapped.pool), a.frame)
  }

  function With(sp: Spaces, d: FrameNo): Spaces {
    Spaces(sp.kernelDir, sp.dirs + {d})
  }

  /** Nothing is mapped in the user half. */
  ghost predicate NoUserPages(mem: Mem, d: FrameNo) {
    forall i: nat :: i < KERNEL_PD_INDEX ==> !Present(Word(mem, d, i))
  }

  lemma NewDirectoryKeeps(m: Machine, sp: Spaces)
    requires Inv(m, sp) && m.pool.free != {}
    ensures var a := NewDirectory(m, sp.kernelDir);
      && Inv(a.m, With(sp, a.frame))
      && Confined(m, a.m, sp.kernelDir, a.frame)
      && a.frame in m.pool.free
      && NoUserPages(a.m.mem, a.frame)
      && (forall i: nat :: KERNEL_PD_INDEX <= i < ENTRIES ==> Word(a.m.mem, a.frame, i) == Word(m.mem, sp.kernelDir, i))
  {
    var a := NewDirectory(m, sp.kernelDir);
    var d, sp' := a.frame, With(sp, a.frame);
    assert !IsDir(sp, d);
    forall q: FrameNo, j: nat | IsDir(sp', q) && j < ENTRIES && Present(Word(a.m.mem, q, j))
      ensures OwnsTable(a.m.pool.own, sp', q, j, FrameOf(Word(a.m.mem, q, j)))
    {
      if q == d {
        assert Word(a.m.mem, d, j) == Word(m.mem, sp.kernelDir, j);
        TableFrame(m, sp, sp.kernelDir, j);
      } else {
        TableFrame(m, sp, q, j);
      }
    }
    forall q: FrameNo, v: FrameNo | q in sp'.dirs && v < USER_PAGES && Walk(a.m.mem, q, v).Some?
      ensures OwnsPage(a.m.pool.own, q, v, FrameOf(Walk(a.m.mem, q, v).value))
    {
      ConfinedKeepsView(m, a.m, sp, d, q);
      assert OwnsPage(m.pool.own, q, v, FrameOf(Walk(m.mem, q, v).value));
    }
  }

  /** Clearing the frame of an owned page disturbs no table. */
  lemma ZeroPageKeeps(m: Machine, sp: Spaces, d: FrameNo, v: FrameNo, f: FrameNo)
    requires Inv(m, sp) && d in sp.dirs && OwnsPage(m.pool.own, d, v, f)
    ensures var m' := Machine(SetFrame(m.mem, f, ZeroFrame()), m.pool);
      && Inv(m', sp)
      && Confined(m, m', sp.kernelDir, d)
      && (forall q: FrameNo, u: FrameNo :: IsDir(sp, q) ==> Walk(m'.mem, q, u) == Walk(m.mem, q, u))
  {
    var m' := Machine(SetFrame(m.mem, f, ZeroFrame()), m.pool);
    assert !IsDir(sp, f);
    forall q: FrameNo, u: FrameNo | IsDir(sp, q) ensures Walk(m'.mem, q, u) == Walk(m.mem, q, u) {
      if Present(Word(m.mem, q, DirIndex(u))) { TableFrame(m, sp, q, DirIndex(u)); }
    }
    forall q: FrameNo, j: nat | IsDir(sp, q) && j < ENTRIES && Present(Word(m'.mem, q, j))
      ensures OwnsTable(m'.pool.own, sp, q, j, FrameOf(Word(m'.mem, q, j)))
    {
      TableFrame(m, sp, q, j);
    }
    forall q: FrameNo, u: FrameNo | q in sp.dirs && u < USER_PAGES && Walk(m'.mem, q, u).Some?
      ensures OwnsPage(m'.pool.own, q, u, FrameOf(Walk(m'.mem, q, u).value))
    {
      assert OwnsPage(m.pool.own, q, u, FrameOf(Walk(m.mem, q, u).value));
    }
  }

  /** The new address space maps one zeroed page, the stack, and shares the kernel's entries; nothing that
      existed before is touched. */
  lemma BuildSpaceKeeps(m: Machine, sp: Spaces)
    requires Inv(m, sp) && !BuildSpace(m, sp.kernelDir).m.pool.failed
    ensures var s := BuildSpace(m, sp.kernelDir);
      && Inv(s.m, With(sp, s.frame))
      && Confined(m, s.m, sp.kernelDir, s.frame)
      && s.frame in m.pool.free
      && (forall i: nat :: KERNEL_PD_INDEX <= i < ENTRIES ==> Word(s.m.mem, s.frame, i) == Word(m.mem, sp.kernelDir, i))
      && (forall v: FrameNo :: v < USER_PAGES ==> (Walk(s.m.mem, s.frame, v).Some? <==> v == STACK_PAGE))
      && (forall i: nat :: i < ENTRIES ==> Load(s.m.mem, s.frame, STACK_PAGE, i) == Some(0))
  {
    hide Inv, MapPage, NewDirectory, PageEntry;
    var a := NewDirectory(m, sp.kernelDir);
    BuildSpacePool(m, sp.kernelDir);
    NewDirectoryKeeps(m, sp);
    var d, sp' := a.frame, With(sp, a.frame);
    var purpose := Page(d, STACK_PAGE);
    var b := NewFrame(a.m, purpose);
    NewFrameKeeps(a.m, sp', purpose, d);
    var mapped := MapPage(b.m, d, STACK_ADDRESS, b.frame * PAGE_SIZE, STACK_FLAGS);
    assert FrameOf(b.frame * PAGE_SIZE) == b.frame;
    MapPageKeeps(b.m, sp', d, STACK_ADDRESS, b.frame * PAGE_SIZE, STACK_FLAGS);
    assert OwnsPage(mapped.pool.own, d, STACK_PAGE, b.frame);
    ZeroPageKeeps(mapped, sp', d, STACK_PAGE, b.frame);
    var s := BuildSpace(m, sp.kernelDir);
    ConfinedTransitive(m, a.m, b.m, sp.kernelDir, d);
    ConfinedTransitive(m, b.m, mapped, sp.kernelDir, d);
    ConfinedTransitive(m, mapped, s.m, sp.kernelDir, d);
    StackOnly(b.m, sp', d, b.frame);
    DirectoryUntouched(m, sp, a.m, b.m, mapped, s.m, d, b.frame);
  }

  /** The three frames in the order they are taken: directory, stack page, and the table for it.  The stack page
      and its table are open to user code; the user half has no other table. */
  lemma BuildSpaceFrames(m: Machine, sp: Spaces)
    requires Inv(m, sp) && !BuildSpace(m, sp.kernelDir).m.pool.failed
    ensures var s, free := BuildSpace(m, sp.kernelDir), m.pool.free;
      && |free| >= 3
      && s.frame == Lowest(free)
      && free - {s.frame} != {}
      && var stack := Lowest(free - {s.frame});
      && Walk(s.m.mem, s.frame, 0xBFF) == Some(stack * 4096 + 7)
      && free - {s.frame} - {stack} != {}
      && (forall i: nat :: i < 768 ==>
           if i == 2 then Word(s.m.mem, s.frame, 2) == Lowest(free - {s.frame} - {stack}) * 4096 + 7
           else !Present(Word(s.m.mem, s.frame, i)))
  {
    hide Inv, MapPage, NewDirectory, NewFrame, PageEntry, Walk, Confined;
    var a := NewDirectory(m, sp.kernelDir);
    BuildSpacePool(m, sp.kernelDir);
    BuildSpacePaid(m, sp);
    NewDirectoryKeeps(m, sp);
    NewDirectoryTakes(m, sp.kernelDir);
    var d, sp' := a.frame, With(sp, a.frame);
    var purpose := Page(d, STACK_PAGE);
    var b := NewFrame(a.m, purpose);
    NewFrameKeeps(a.m, sp', purpose, d);
    StackFrameTakes(a.m, purpose);
    var mapped, s := MapPage(b.m, d, STACK_ADDRESS, b.frame * PAGE_SIZE, STACK_FLAGS), BuildSpace(m, sp.kernelDir);
    assert s.frame == d && s.m == Machine(SetFrame(mapped.mem, b.frame, ZeroFrame()), mapped.pool);
    assert b.frame == Lowest(m.pool.free - {d}) && b.m.pool.free == m.pool.free - {d} - {b.frame};
    forall i: nat | i < 768 ensures Word(mapped.mem, d, i) ==
      if i == 2 && b.m.pool.free != {} then Lowest(b.m.pool.free) * 4096 + 7 else Word(b.m.mem, d, i)
    {
      MapPageEntries(b.m, sp', d, STACK_ADDRESS, b.frame * PAGE_SIZE, STACK_FLAGS, d, i);
    }
    MapPageEntries(b.m, sp', d, STACK_ADDRESS, b.frame * PAGE_SIZE, STACK_FLAGS, d, 2);
    MapPageRefinesUpdate(b.m, sp', d, STACK_ADDRESS, b.frame * PAGE_SIZE, STACK_FLAGS, d, STACK_PAGE);
    StackEntry(b.frame);
    assert FrameOf(b.frame * PAGE_SIZE) == b.frame;
    MapPageKeeps(b.m, sp', d, STACK_ADDRESS, b.frame * PAGE_SIZE, STACK_FLAGS);
    assert OwnsPage(mapped.pool.own, d, STACK_PAGE, b.frame);
    ZeroPageKeeps(mapped, sp', d, STACK_PAGE, b.frame);
    DirIsNoPage(mapped, sp', d, b.frame);
    assert Walk(s.m.mem, d, STACK_PAGE) == Some(b.frame * 4096 + 7);
    forall i: nat | i < 768 ensures
      if i == 2 then Word(s.m.mem, d, 2) == Lowest(b.m.pool.free) * 4096 + 7 else !Present(Word(s.m.mem, d, i))
    {
      assert Word(s.m.mem, d, i) == Word(mapped.mem, d, i);
      assert !Present(Word(a.m.mem, d, i));
    }
  }

  lemma StackFrameTakes(m: Machine, purpose: Owner)
    requires m.pool.free != {}
    ensures var b := NewFrame(m, purpose);
      b.m.mem == m.mem && b.frame == Lowest(m.pool.free) && b.m.pool.free == m.pool.free - {b.frame}
  {}

  lemma DirIsNoPage(m: Machine, sp: Spaces, d: FrameNo, f: FrameNo)
    requires Inv(m, sp) && d in sp.dirs && f in m.pool.own && m.pool.own[f].Page?
    ensures d != f
  {}

  lemma NewDirectoryTakes(m: Machine, kernelDir: FrameNo)
    requires m.pool.free != {}
    ensures var a := NewDirectory(m, kernelDir);
      a.frame == Lowest(m.pool.free) && a.m.pool.free == m.pool.free - {a.frame}
  {}

  lemma StackEntry(f: FrameNo)
    ensures PageEntry(f * PAGE_SIZE, STACK_FLAGS) == f * 4096 + 7
  {
    AlignedPageEntry(f, STACK_FLAGS);
    assert Or(7, 1) == 7;
  }

  lemma BuildSpacePool(m: Machine, kernelDir: FrameNo)
    ensures !BuildSpace(m, kernelDir).m.pool.failed ==>
      && m.pool.free != {}
      && var a := NewDirectory(m, kernelDir);
      var b := NewFrame(a.m, Page(a.frame, STACK_PAGE));
      && !a.m.pool.failed && !b.m.pool.failed && a.m.pool.free != {}
  {}

  /** The walk after mapping the stack page in a directory without user pages. */
  lemma StackOnly(m: Machine, sp: Spaces, d: FrameNo, f: FrameNo)
    requires Inv(m, sp) && d in sp.dirs && NoUserPages(m.mem, d)
    requires !MapPage(m, d, STACK_ADDRESS, f * PAGE_SIZE, STACK_FLAGS).pool.failed
    ensures var m' := MapPage(m, d, STACK_ADDRESS, f * PAGE_SIZE, STACK_FLAGS);
      && (forall v: FrameNo :: v < USER_PAGES ==> (Walk(m'.mem, d, v).Some? <==> v == STACK_PAGE))
      && Walk(m'.mem, d, STACK_PAGE).Some? && FrameOf(Walk(m'.mem, d, STACK_PAGE).value) == f
  {
    hide Inv, MapPage;
    var m' := MapPage(m, d, STACK_ADDRESS, f * PAGE_SIZE, STACK_FLAGS);
    assert STACK_ADDRESS / PAGE_SIZE == STACK_PAGE;
    forall v: FrameNo | v < USER_PAGES ensures Walk(m'.mem, d, v).Some? <==> v == STACK_PAGE {
      MapPageRefinesUpdate(m, sp, d, STACK_ADDRESS, f * PAGE_SIZE, STACK_FLAGS, d, v);
      assert Walk(m.mem, d, v) == None;
    }
    MapPageRefinesUpdate(m, sp, d, STACK_ADDRESS, f * PAGE_SIZE, STACK_FLAGS, d, STACK_PAGE);
    assert FrameOf(PageEntry(f * PAGE_SIZE, STACK_FLAGS)) == f;
  }

  lemma DirectoryUntouched(m: Machine, sp: Spaces, m1: Machine, m2: Machine, m3: Machine, m4: Machine, d: FrameNo,
                           f: FrameNo)
    requires Inv(m2, With(sp, d)) && m2.mem == m1.mem
    requires OwnsPage(m3.pool.own, d, STACK_PAGE, f) && Inv(m3, With(sp, d))
    requires m3 == MapPage(m2, d, STACK_ADDRESS, f * PAGE_SIZE, STACK_FLAGS) && !m3.pool.failed
    requires m4.mem == SetFrame(m3.mem, f, ZeroFrame())
    ensures forall i: nat :: KERNEL_PD_INDEX <= i < ENTRIES ==> Word(m4.mem, d, i) == Word(m1.mem, d, i)
  {}

  /** Exactly three frames: directory, stack page, and the table for the stack. */
  lemma BuildSpacePaid(m: Machine, sp: Spaces)
    requires Inv(m, sp)
    ensures Paid(m.pool, BuildSpace(m, sp.kernelDir).m.pool, 3)
  {
    hide Inv, MapPage;
    var a := NewDirectory(m, sp.kernelDir);
    var b := NewFrame(a.m, Page(a.frame, STACK_PAGE));
    TakePaid(m.pool, Directory);
    TakePaid(a.m.pool, Page(a.frame, STACK_PAGE));
    PaidTwice(m.pool, a.m.pool, b.m.pool, 1, 1);
    MapPagePaid(b.m, a.frame, STACK_ADDRESS, b.frame * PAGE_SIZE, STACK_FLAGS);
    if m.pool.free != {} { NewDirectoryKeeps(m, sp); }
    PaidTwice(m.pool, b.m.pool, BuildSpace(m, sp.kernelDir).m.pool, 2, 1);
  }
}
