/** The invariant behind isolation: every frame handed out has one owner, and page directories, page
    tables and user pages only ever refer to frames they own.  Non-aliasing is then immediate, because
    ownership is a function of the frame. */
module Ownership {
  import opened Words
  import opened Frames
  import opened Memory
  import opened Paging

  /** The address spaces in existence: the kernel's directory and one directory per process. */
  datatype Spaces = Spaces(kernelDir: FrameNo, dirs: set<FrameNo>)

  predicate IsDir(sp: Spaces, d: FrameNo) {
    d == sp.kernelDir || d in sp.dirs
  }

  ghost predicate DirsOwned(m: Machine, sp: Spaces) {
    && sp.kernelDir !in sp.dirs
    && forall d: FrameNo :: IsDir(sp, d) ==> d in m.pool.own && m.pool.own[d] == Directory
  }

  /** A directory entry refers to the directory's own table; in the kernel half it may instead refer to the
      kernel directory's table of the same index. */
  predicate OwnsTable(own: map<FrameNo, Owner>, sp: Spaces, d: FrameNo, i: nat, t: FrameNo) {
    t in own && (own[t] == Table(d, i) || (i >= KERNEL_PD_INDEX && own[t] == Table(sp.kernelDir, i)))
  }

  ghost predicate TablesOwned(m: Machine, sp: Spaces) {
    forall d: FrameNo, i: nat ::
      IsDir(sp, d) && i < ENTRIES && Present(Word(m.mem, d, i)) ==>
      OwnsTable(m.pool.own, sp, d, i, FrameOf(Word(m.mem, d, i)))
  }

  predicate OwnsPage(own: map<FrameNo, Owner>, d: FrameNo, vpage: FrameNo, f: FrameNo) {
    f in own && own[f] == Page(d, vpage)
  }

  ghost predicate PagesOwned(m: Machine, sp: Spaces) {
    forall d: FrameNo, vpage: FrameNo ::
      d in sp.dirs && vpage < USER_PAGES && Walk(m.mem, d, vpage).Some? ==>
      OwnsPage(m.pool.own, d, vpage, FrameOf(Walk(m.mem, d, vpage).value))
  }

  ghost predicate Inv(m: Machine, sp: Spaces) {
    m.pool.Valid() && DirsOwned(m, sp) && TablesOwned(m, sp) && PagesOwned(m, sp)
  }

  /** The frame is part of address space d: its directory, one of its tables or one of its pages. */
  predicate Belongs(own: map<FrameNo, Owner>, f: FrameNo, d: FrameNo) {
    f in own &&
    match own[f]
    case Directory => f == d
    case Table(x, _) => x == d
    case Page(x, _) => x == d
    case HeapPage => false
  }

  /** The frame is a page table of the kernel's directory, which processes may share. */
  predicate KernelTable(own: map<FrameNo, Owner>, f: FrameNo, kernelDir: FrameNo) {
    f in own && own[f].Table? && own[f].dir == kernelDir
  }

  /** The frame was handed out to back a page of the kernel half, where a page fault may put one. */
  predicate UpperPage(own: map<FrameNo, Owner>, f: FrameNo) {
    f in own && own[f].Page? && own[f].vpage >= USER_PAGES
  }

  /** Between m and m', only frames that were free, or belong to d, or are kernel page tables or pages of the
      kernel half, changed; frames left the pool but never came back, and no owner changed. */
  ghost predicate Confined(m: Machine, m': Machine, kernelDir: FrameNo, d: FrameNo) {
    && m'.pool.free <= m.pool.free
    && (m.pool.failed ==> m'.pool.failed)
    && m'.pool.own.Keys <= m.pool.own.Keys + m.pool.free
    && (forall f: FrameNo :: f in m.pool.own ==> f in m'.pool.own && m'.pool.own[f] == m.pool.own[f])
    && (forall f: FrameNo ::
          f !in m.pool.free && !Belongs(m.pool.own, f, d) && !KernelTable(m.pool.own, f, kernelDir)
          && !UpperPage(m.pool.own, f) ==>
          m'.mem[f] == m.mem[f])
  }

  lemma ConfinedTransitive(m: Machine, m1: Machine, m2: Machine, kernelDir: FrameNo, d: FrameNo)
    requires Confined(m, m1, kernelDir, d) && Confined(m1, m2, kernelDir, d)
    ensures Confined(m, m2, kernelDir, d)
  {}

  /** Isolation in one step: what is confined to one address space is invisible in the user half of every
      other process. */
  lemma ConfinedKeepsView(m: Machine, m': Machine, sp: Spaces, d: FrameNo, q: FrameNo)
    requires Inv(m, sp) && Confined(m, m', sp.kernelDir, d)
    requires q in sp.dirs && q != d
    ensures SameUserView(m.mem, m'.mem, q)
  {}

  // ----- One allocation -----

  lemma NewFrameKeeps(m: Machine, sp: Spaces, purpose: Owner, d: FrameNo)
    requires Inv(m, sp)
    ensures var a := NewFrame(m, purpose);
      && Inv(a.m, sp)
      && Confined(m, a.m, sp.kernelDir, d)
      && (!a.m.pool.failed ==>
            a.frame in m.pool.free && a.frame !in a.m.pool.free
            && a.frame in a.m.pool.own && a.m.pool.own[a.frame] == purpose
            && |a.m.pool.free| == |m.pool.free| - 1)
  {}

  // ----- map_page -----

  /** A table frame of any directory is no directory, is not free, and serves one index only. */
  lemma TableFrame(m: Machine, sp: Spaces, d: FrameNo, i: nat)
    requires Inv(m, sp) && IsDir(sp, d) && i < ENTRIES && Present(Word(m.mem, d, i))
    ensures var t := FrameOf(Word(m.mem, d, i));
      && OwnsTable(m.pool.own, sp, d, i, t)
      && t !in m.pool.free && !IsDir(sp, t)
  {}

  lemma EnsureTableWalks(m: Machine, sp: Spaces, d: FrameNo, i: nat, q: FrameNo, vpage: FrameNo)
    requires Inv(m, sp) && IsDir(sp, d) && IsDir(sp, q) && i < ENTRIES
    requires !EnsureTable(m, d, i).pool.failed
    ensures Walk(EnsureTable(m, d, i).mem, q, vpage) == Walk(m.mem, q, vpage)
  {}

  lemma EnsureTableKeeps(m: Machine, sp: Spaces, d: FrameNo, i: nat)
    requires Inv(m, sp) && IsDir(sp, d) && i < ENTRIES
    requires !EnsureTable(m, d, i).pool.failed
    ensures var m' := EnsureTable(m, d, i);
      && Inv(m', sp)
      && Confined(m, m', sp.kernelDir, d)
      && Present(Word(m'.mem, d, i))
  {
    var m' := EnsureTable(m, d, i);
    if !Present(Word(m.mem, d, i)) {
      var a := CreatePageTable(m, Table(d, i));
      var t := a.frame;
      TableEntryParts(t);
      assert t in m.pool.free && !IsDir(sp, t);
      forall q: FrameNo, j: nat | IsDir(sp, q) && j < ENTRIES && Present(Word(m'.mem, q, j))
        ensures OwnsTable(m'.pool.own, sp, q, j, FrameOf(Word(m'.mem, q, j)))
      {
        if !(q == d && j == i) {
          assert Word(m'.mem, q, j) == Word(m.mem, q, j);
          TableFrame(m, sp, q, j);
        }
      }
      forall q: FrameNo, v: FrameNo | q in sp.dirs && v < USER_PAGES && Walk(m'.mem, q, v).Some?
        ensures OwnsPage(m'.pool.own, q, v, FrameOf(Walk(m'.mem, q, v).value))
      {
        EnsureTableWalks(m, sp, d, i, q, v);
        assert OwnsPage(m.pool.own, q, v, FrameOf(Walk(m.mem, q, v).value));
      }
    }
  }

  /** The two directories reach the virtual page through the same table. */
  predicate SharesTable(mem: Mem, d: FrameNo, q: FrameNo, vpage: FrameNo) {
    var i := DirIndex(vpage);
    && Present(Word(mem, d, i)) && Present(Word(mem, q, i))
    && FrameOf(Word(mem, d, i)) == FrameOf(Word(mem, q, i))
  }

  /** `map_page` refines a finite-map update: the page is mapped as asked, every other page of the
      directory is as before, and other directories see a change only through a shared kernel table. */
  lemma MapPageRefinesUpdate(m: Machine, sp: Spaces, d: FrameNo, virt: u32, phys: u32, flags: u32, q: FrameNo,
                             v: FrameNo)
    requires Inv(m, sp) && IsDir(sp, d) && IsDir(sp, q)
    requires !MapPage(m, d, virt, phys, flags).pool.failed
    ensures var vpage, m' := virt / PAGE_SIZE, MapPage(m, d, virt, phys, flags);
      Walk(m'.mem, q, v) ==
        if v == vpage && (q == d || SharesTable(m'.mem, d, q, vpage)) then Some(PageEntry(phys, flags))
        else Walk(m.mem, q, v)
    ensures q != d && v < USER_PAGES ==> !SharesTable(MapPage(m, d, virt, phys, flags).mem, d, q, v)
  {
    var vpage := virt / PAGE_SIZE;
    var i := DirIndex(vpage);
    var m1 := EnsureTable(m, d, i);
    EnsureTableKeeps(m, sp, d, i);
    EnsureTableWalks(m, sp, d, i, q, v);
    TableFrame(m1, sp, d, i);
    var j := DirIndex(v);
    if Present(Word(m1.mem, d, j)) { TableFrame(m1, sp, d, j); }
    if Present(Word(m1.mem, q, j)) { TableFrame(m1, sp, q, j); }
    assert vpage == i * 1024 + TableIndex(vpage) && v == j * 1024 + TableIndex(v);
  }

  lemma MapPageKeeps(m: Machine, sp: Spaces, d: FrameNo, virt: u32, phys: u32, flags: u32)
    requires Inv(m, sp) && IsDir(sp, d)
    requires !MapPage(m, d, virt, phys, flags).pool.failed
    requires d in sp.dirs && virt < KERNEL_BASE ==> OwnsPage(m.pool.own, d, virt / PAGE_SIZE, FrameOf(phys))
    ensures Inv(MapPage(m, d, virt, phys, flags), sp)
    ensures Confined(m, MapPage(m, d, virt, phys, flags), sp.kernelDir, d)
  {
    var vpage := virt / PAGE_SIZE;
    var i := DirIndex(vpage);
    var m1, m' := EnsureTable(m, d, i), MapPage(m, d, virt, phys, flags);
    EnsureTableKeeps(m, sp, d, i);
    TableFrame(m1, sp, d, i);
    assert Confined(m1, m', sp.kernelDir, d);
    ConfinedTransitive(m, m1, m', sp.kernelDir, d);
    forall q: FrameNo, j: nat | IsDir(sp, q) && j < ENTRIES && Present(Word(m'.mem, q, j))
      ensures OwnsTable(m'.pool.own, sp, q, j, FrameOf(Word(m'.mem, q, j)))
    {
      TableFrame(m1, sp, q, j);
    }
    forall q: FrameNo, v: FrameNo | q in sp.dirs && v < USER_PAGES && Walk(m'.mem, q, v).Some?
      ensures OwnsPage(m'.pool.own, q, v, FrameOf(Walk(m'.mem, q, v).value))
    {
      MapPageRefinesUpdate(m, sp, d, virt, phys, flags, q, v);
      if !(q == d && v == vpage) {
        assert OwnsPage(m.pool.own, q, v, FrameOf(Walk(m.mem, q, v).value));
      }
    }
  }

  /** Directory entries that are present are never changed by `map_page`; an absent one it uses becomes the
      lowest free frame with the present, write and user bits. */
  lemma MapPageEntries(m: Machine, sp: Spaces, d: FrameNo, virt: u32, phys: u32, flags: u32, q: FrameNo, i: nat)
    requires Inv(m, sp) && IsDir(sp, d) && IsDir(sp, q) && i < ENTRIES
    requires !MapPage(m, d, virt, phys, flags).pool.failed
    ensures var e := Word(MapPage(m, d, virt, phys, flags).mem, q, i);
      if Present(Word(m.mem, q, i)) || q != d || i != DirIndex(virt / PAGE_SIZE) then e == Word(m.mem, q, i)
      else m.pool.free != {} && e == Lowest(m.pool.free) * 4096 + 7
  {
    var k := DirIndex(virt / PAGE_SIZE);
    EnsureTableKeeps(m, sp, d, k);
    TableFrame(EnsureTable(m, d, k), sp, d, k);
  }

  // ----- Allocating and mapping -----

  lemma MapNewKeeps(m: Machine, sp: Spaces, d: FrameNo, virt: u32)
    requires Inv(m, sp) && d in sp.dirs
    requires !MapNew(m, d, virt).pool.failed
    ensures Inv(MapNew(m, d, virt), sp)
    ensures Confined(m, MapNew(m, d, virt), sp.kernelDir, d)
  {
    var a := NewFrame(m, Page(d, virt / PAGE_SIZE));
    NewFrameKeeps(m, sp, Page(d, virt / PAGE_SIZE), d);
    assert FrameOf(a.frame * PAGE_SIZE) == a.frame;
    MapPageKeeps(a.m, sp, d, virt, a.frame * PAGE_SIZE, USER_FLAGS);
    ConfinedTransitive(m, a.m, MapNew(m, d, virt), sp.kernelDir, d);
  }

  lemma MapNewFails(m: Machine, d: FrameNo, virt: u32)
    ensures m.pool.failed ==> MapNew(m, d, virt).pool.failed
  {}

  lemma {:induction false} MapCodeKeeps(m: Machine, sp: Spaces, d: FrameNo, code: u32, n: nat)
    requires Inv(m, sp) && d in sp.dirs
    requires !MapCode(m, d, code, n).pool.failed
    ensures Inv(MapCode(m, d, code, n), sp)
    ensures Confined(m, MapCode(m, d, code, n), sp.kernelDir, d)
  {
    hide MapNew, Inv, Wrap;
    if n > 0 {
      var m1 := MapCode(m, d, code, n - 1);
      MapNewFails(m1, d, Wrap(code + (n - 1) * PAGE_SIZE));
      MapCodeKeeps(m, sp, d, code, n - 1);
      MapNewKeeps(m1, sp, d, Wrap(code + (n - 1) * PAGE_SIZE));
      ConfinedTransitive(m, m1, MapCode(m, d, code, n), sp.kernelDir, d);
    }
  }

  lemma {:induction false} MapStackKeeps(m: Machine, sp: Spaces, d: FrameNo, stack: u32, n: nat)
    requires Inv(m, sp) && d in sp.dirs
    requires !MapStack(m, d, stack, n).pool.failed
    ensures Inv(MapStack(m, d, stack, n), sp)
    ensures Confined(m, MapStack(m, d, stack, n), sp.kernelDir, d)
  {
    hide MapNew, Inv, Wrap;
    if n > 0 {
      var m1 := MapStack(m, d, stack, n - 1);
      MapNewFails(m1, d, Wrap(stack - n * PAGE_SIZE));
      MapStackKeeps(m, sp, d, stack, n - 1);
      MapNewKeeps(m1, sp, d, Wrap(stack - n * PAGE_SIZE));
      ConfinedTransitive(m, m1, MapStack(m, d, stack, n), sp.kernelDir, d);
    }
  }

  lemma MapUserSpaceKeeps(m: Machine, sp: Spaces, d: FrameNo, code: u32, codeSize: u32, stack: u32, stackSize: u32)
    requires Inv(m, sp) && d in sp.dirs
    requires !MapUserSpace(m, d, code, codeSize, stack, stackSize).pool.failed
    ensures Inv(MapUserSpace(m, d, code, codeSize, stack, stackSize), sp)
    ensures Confined(m, MapUserSpace(m, d, code, codeSize, stack, stackSize), sp.kernelDir, d)
  {
    hide MapCode, MapStack, Inv, Confined, Pages;
    var m1 := MapCode(m, d, code, Pages(codeSize));
    MapStackFails(m1, d, stack, Pages(stackSize));
    MapCodeKeeps(m, sp, d, code, Pages(codeSize));
    MapStackKeeps(m1, sp, d, stack, Pages(stackSize));
    ConfinedTransitive(m, m1, MapUserSpace(m, d, code, codeSize, stack, stackSize), sp.kernelDir, d);
  }

  lemma {:induction false} MapStackFails(m: Machine, d: FrameNo, stack: u32, n: nat)
    ensures m.pool.failed ==> MapStack(m, d, stack, n).pool.failed
  {
    hide MapNew, Wrap;
    if n > 0 {
      MapStackFails(m, d, stack, n - 1);
      MapNewFails(MapStack(m, d, stack, n - 1), d, Wrap(stack - n * PAGE_SIZE));
    }
  }

  /** `map_physical_region` on the kernel's directory leaves every process's user half alone. */
  lemma {:induction false} MapRegionKeeps(m: Machine, sp: Spaces, start: u32, flags: u32, n: nat)
    requires Inv(m, sp)
    requires !MapRegion(m, sp.kernelDir, start, flags, n).pool.failed
    ensures Inv(MapRegion(m, sp.kernelDir, start, flags, n), sp)
    ensures Confined(m, MapRegion(m, sp.kernelDir, start, flags, n), sp.kernelDir, sp.kernelDir)
  {
    if n > 0 {
      var m1 := MapRegion(m, sp.kernelDir, start, flags, n - 1);
      var addr := Wrap(start + (n - 1) * PAGE_SIZE);
      MapRegionKeeps(m, sp, start, flags, n - 1);
      MapPageKeeps(m1, sp, sp.kernelDir, addr, addr, flags);
      ConfinedTransitive(m, m1, MapRegion(m, sp.kernelDir, start, flags, n), sp.kernelDir, sp.kernelDir);
    }
  }
}
