/** What user code may reach.  Every directory entry lets user code through, every page of a process's user half
    is writable for it, and the user-writable pages of the kernel half, which a page fault puts there and which
    directories share, are the only other frames a store can reach. */
module Access {
  import opened Words
  import opened Frames
  import opened Memory
  import opened Paging
  import opened Ownership
  import opened AddressSpaceCopy
  import opened NewSpace

  /** The entry lets user code write (32-bit paging, Intel SDM Volume 3A, section 4.6): bits 1 and 2 are set. */
  predicate UserWritable(entry: nat) {
    entry / 2 % 4 == 3
  }

  lemma UserWritableIsBits(w: u32)
    ensures UserWritable(w) <==> And(w, 2) != 0 && And(w, 4) != 0
  {
    hide And;
    MiddleBits(w);
    LowPair(w / 2);
    assert w / 2 / 2 == w / 4;
  }

  lemma LowPair(x: nat)
    ensures x % 4 == 3 <==> x % 2 == 1 && x / 2 % 2 == 1
  {
    var q, r := x / 4, x % 4;
    assert x / 2 == 2 * q + r / 2 && x % 2 == r % 2;
  }

  /** User code may write to the page: it is mapped, and both its entries let it. */
  predicate MayWrite(mem: Mem, d: FrameNo, v: FrameNo) {
    && Walk(mem, d, v).Some?
    && UserWritable(Word(mem, d, DirIndex(v))) && UserWritable(Walk(mem, d, v).value)
  }

  /** The entry is a frame with the present, write and user bits and no other. */
  predicate Open(entry: u32) {
    entry == FrameOf(entry) * 4096 + 7
  }

  /** Every directory entry in use is open. */
  ghost predicate EntriesOpen(m: Machine, sp: Spaces) {
    forall d: FrameNo, i: nat :: IsDir(sp, d) && i < ENTRIES && Present(Word(m.mem, d, i)) ==> Open(Word(m.mem, d, i))
  }

  /** So is the entry of every page of a process's user half. */
  ghost predicate PagesOpen(m: Machine, sp: Spaces) {
    forall d: FrameNo, v: FrameNo ::
      d in sp.dirs && v < USER_PAGES && Walk(m.mem, d, v).Some? ==> Open(Walk(m.mem, d, v).value)
  }

  /** The invariant about rights. */
  ghost predicate AccessInv(m: Machine, sp: Spaces) {
    EntriesOpen(m, sp) && PagesOpen(m, sp) && UpperOwned(m, sp)
  }

  /** Every user-writable page of the kernel half is on a frame handed out for such a page. */
  ghost predicate UpperOwned(m: Machine, sp: Spaces) {
    forall d: FrameNo, v: FrameNo ::
      IsDir(sp, d) && v >= USER_PAGES && Walk(m.mem, d, v).Some? && UserWritable(Walk(m.mem, d, v).value) ==>
      UpperPage(m.pool.own, FrameOf(Walk(m.mem, d, v).value))
  }

  /** What a mapping must not do to keep that: give user code a page of the kernel half on any other frame. */
  predicate KeepsUpper(own: map<FrameNo, Owner>, virt: u32, phys: u32, flags: u32) {
    virt >= KERNEL_BASE && UserWritable(PageEntry(phys, flags)) ==> UpperPage(own, FrameOf(phys))
  }

  /** The directory maps the page as some directory did before. */
  ghost predicate MappedBefore(m: Machine, m': Machine, sp: Spaces, q: FrameNo, v: FrameNo) {
    exists q': FrameNo :: IsDir(sp, q') && Walk(m'.mem, q, v) == Walk(m.mem, q', v)
  }

  lemma UpperKept(m: Machine, m': Machine, sp: Spaces, sp': Spaces)
    requires UpperOwned(m, sp)
    requires forall f: FrameNo :: f in m.pool.own ==> f in m'.pool.own && m'.pool.own[f] == m.pool.own[f]
    requires forall q: FrameNo, v: FrameNo :: IsDir(sp', q) && v >= USER_PAGES ==> MappedBefore(m, m', sp, q, v)
    ensures UpperOwned(m', sp')
  {
    forall q: FrameNo, v: FrameNo |
      IsDir(sp', q) && v >= USER_PAGES && Walk(m'.mem, q, v).Some? && UserWritable(Walk(m'.mem, q, v).value)
      ensures UpperPage(m'.pool.own, FrameOf(Walk(m'.mem, q, v).value))
    {
      assert MappedBefore(m, m', sp, q, v);
    }
  }

  // ----- Mapping -----

  lemma OwnersStay(m: Machine, d: FrameNo, virt: u32, phys: u32, flags: u32)
    requires m.pool.Valid()
    ensures var m' := MapPage(m, d, virt, phys, flags);
      forall f: FrameNo :: f in m.pool.own ==> f in m'.pool.own && m'.pool.own[f] == m.pool.own[f]
  {}

  lemma MapPageUpper(m: Machine, sp: Spaces, d: FrameNo, virt: u32, phys: u32, flags: u32)
    requires Inv(m, sp) && UpperOwned(m, sp) && IsDir(sp, d)
    requires !MapPage(m, d, virt, phys, flags).pool.failed && KeepsUpper(m.pool.own, virt, phys, flags)
    ensures UpperOwned(MapPage(m, d, virt, phys, flags), sp)
  {
    hide MapPage, PageEntry;
    var m' := MapPage(m, d, virt, phys, flags);
    OwnersStay(m, d, virt, phys, flags);
    forall q: FrameNo, v: FrameNo |
      IsDir(sp, q) && v >= USER_PAGES && Walk(m'.mem, q, v).Some? && UserWritable(Walk(m'.mem, q, v).value)
      ensures UpperPage(m'.pool.own, FrameOf(Walk(m'.mem, q, v).value))
    {
      MapPageRefinesUpdate(m, sp, d, virt, phys, flags, q, v);
      PageEntryFrame(phys, flags);
    }
  }

  lemma PageEntryFrame(phys: u32, flags: u32)
    ensures FrameOf(PageEntry(phys, flags)) == FrameOf(phys)
  {}

  /** A process's user half must get open entries. */
  predicate OpensUser(sp: Spaces, d: FrameNo, virt: u32, phys: u32, flags: u32) {
    d in sp.dirs && virt < KERNEL_BASE ==> Open(PageEntry(phys, flags))
  }

  lemma MapPageOpens(m: Machine, sp: Spaces, d: FrameNo, virt: u32, phys: u32, flags: u32)
    requires Inv(m, sp) && EntriesOpen(m, sp) && PagesOpen(m, sp) && IsDir(sp, d)
    requires !MapPage(m, d, virt, phys, flags).pool.failed && OpensUser(sp, d, virt, phys, flags)
    ensures EntriesOpen(MapPage(m, d, virt, phys, flags), sp) && PagesOpen(MapPage(m, d, virt, phys, flags), sp)
  {
    hide MapPage, PageEntry, Inv;
    var m' := MapPage(m, d, virt, phys, flags);
    forall q: FrameNo, i: nat | IsDir(sp, q) && i < ENTRIES && Present(Word(m'.mem, q, i))
      ensures Open(Word(m'.mem, q, i))
    {
      MapPageEntries(m, sp, d, virt, phys, flags, q, i);
    }
    forall q: FrameNo, v: FrameNo | q in sp.dirs && v < USER_PAGES && Walk(m'.mem, q, v).Some?
      ensures Open(Walk(m'.mem, q, v).value)
    {
      MapPageRefinesUpdate(m, sp, d, virt, phys, flags, q, v);
      if q != d { MapPageRefinesUpdate(m, sp, d, virt, phys, flags, q, virt / PAGE_SIZE); }
    }
  }

  lemma MapPageAccess(m: Machine, sp: Spaces, d: FrameNo, virt: u32, phys: u32, flags: u32)
    requires Inv(m, sp) && AccessInv(m, sp) && IsDir(sp, d) && !MapPage(m, d, virt, phys, flags).pool.failed
    requires KeepsUpper(m.pool.own, virt, phys, flags) && OpensUser(sp, d, virt, phys, flags)
    ensures AccessInv(MapPage(m, d, virt, phys, flags), sp)
  {
    hide Inv, EntriesOpen, PagesOpen, UpperOwned, MapPage;
    MapPageUpper(m, sp, d, virt, phys, flags);
    MapPageOpens(m, sp, d, virt, phys, flags);
  }

  lemma NewFrameAccess(m: Machine, sp: Spaces, purpose: Owner)
    requires m.pool.Valid() && AccessInv(m, sp)
    ensures AccessInv(NewFrame(m, purpose).m, sp)
  {}

  lemma MapNewAccess(m: Machine, sp: Spaces, d: FrameNo, virt: u32)
    requires Inv(m, sp) && AccessInv(m, sp) && d in sp.dirs && !MapNew(m, d, virt).pool.failed
    ensures AccessInv(MapNew(m, d, virt), sp)
  {
    hide Inv, AccessInv, MapPage, PageEntry;
    var purpose := Page(d, virt / PAGE_SIZE);
    var a := NewFrame(m, purpose);
    NewFrameKeeps(m, sp, purpose, d);
    InvPool(m, sp);
    NewFrameAccess(m, sp, purpose);
    FailsBefore(a.m, d, virt, a.frame * PAGE_SIZE, USER_FLAGS);
    assert FrameOf(a.frame * PAGE_SIZE) == a.frame;
    UserEntryOpen(a.frame);
    MapPageAccess(a.m, sp, d, virt, a.frame * PAGE_SIZE, USER_FLAGS);
  }

  lemma UserEntryOpen(f: FrameNo)
    ensures Open(PageEntry(f * PAGE_SIZE, USER_FLAGS))
  {
    AlignedPageEntry(f, USER_FLAGS);
    assert Or(6, 1) == 7;
  }

  lemma InvPool(m: Machine, sp: Spaces)
    requires Inv(m, sp)
    ensures m.pool.Valid()
  {}

  lemma FailsBefore(m: Machine, d: FrameNo, virt: u32, phys: u32, flags: u32)
    ensures m.pool.failed ==> MapPage(m, d, virt, phys, flags).pool.failed
  {}

  lemma {:induction false} MapCodeAccess(m: Machine, sp: Spaces, d: FrameNo, code: u32, n: nat)
    requires Inv(m, sp) && AccessInv(m, sp) && d in sp.dirs && !MapCode(m, d, code, n).pool.failed
    ensures AccessInv(MapCode(m, d, code, n), sp)
  {
    hide Inv, AccessInv, MapNew, Wrap;
    if n > 0 {
      var m1, virt := MapCode(m, d, code, n - 1), Wrap(code + (n - 1) * PAGE_SIZE);
      MapNewFails(m1, d, virt);
      MapCodeKeeps(m, sp, d, code, n - 1);
      MapCodeAccess(m, sp, d, code, n - 1);
      MapNewAccess(m1, sp, d, virt);
    }
  }

  lemma {:induction false} MapStackAccess(m: Machine, sp: Spaces, d: FrameNo, stack: u32, n: nat)
    requires Inv(m, sp) && AccessInv(m, sp) && d in sp.dirs && !MapStack(m, d, stack, n).pool.failed
    ensures AccessInv(MapStack(m, d, stack, n), sp)
  {
    hide Inv, AccessInv, MapNew, Wrap;
    if n > 0 {
      var m1, virt := MapStack(m, d, stack, n - 1), Wrap(stack - n * PAGE_SIZE);
      MapNewFails(m1, d, virt);
      MapStackKeeps(m, sp, d, stack, n - 1);
      MapStackAccess(m, sp, d, stack, n - 1);
      MapNewAccess(m1, sp, d, virt);
    }
  }

  lemma MapUserSpaceAccess(m: Machine, sp: Spaces, d: FrameNo, code: u32, codeSize: u32, stack: u32, stackSize: u32)
    requires Inv(m, sp) && AccessInv(m, sp) && d in sp.dirs
    requires !MapUserSpace(m, d, code, codeSize, stack, stackSize).pool.failed
    ensures AccessInv(MapUserSpace(m, d, code, codeSize, stack, stackSize), sp)
  {
    hide Inv, AccessInv, MapCode, MapStack, Pages;
    var m1 := MapCode(m, d, code, Pages(codeSize));
    MapStackFails(m1, d, stack, Pages(stackSize));
    MapCodeKeeps(m, sp, d, code, Pages(codeSize));
    MapCodeAccess(m, sp, d, code, Pages(codeSize));
    MapStackAccess(m1, sp, d, stack, Pages(stackSize));
  }

  /** A region mapped page by page with flags that keep user code out. */
  lemma {:induction false} MapRegionAccess(m: Machine, sp: Spaces, start: u32, flags: u32, n: nat)
    requires Inv(m, sp) && AccessInv(m, sp) && !MapRegion(m, sp.kernelDir, start, flags, n).pool.failed
    requires start % PAGE_SIZE == 0 && !UserWritable(Or(flags % PAGE_SIZE, 1))
    ensures AccessInv(MapRegion(m, sp.kernelDir, start, flags, n), sp)
  {
    hide Inv, AccessInv, MapPage, Wrap, Or;
    if n > 0 {
      var m1, addr := MapRegion(m, sp.kernelDir, start, flags, n - 1), Wrap(start + (n - 1) * PAGE_SIZE);
      FailsBefore(m1, sp.kernelDir, addr, addr, flags);
      MapRegionKeeps(m, sp, start, flags, n - 1);
      MapRegionAccess(m, sp, start, flags, n - 1);
      RegionEntry(start, n - 1, flags);
      KernelDirApart(m1, sp);
      MapPageAccess(m1, sp, sp.kernelDir, addr, addr, flags);
    }
  }

  lemma KernelDirApart(m: Machine, sp: Spaces)
    requires Inv(m, sp)
    ensures sp.kernelDir !in sp.dirs
  {}

  lemma RegionEntry(start: u32, k: nat, flags: u32)
    requires start % PAGE_SIZE == 0 && !UserWritable(Or(flags % PAGE_SIZE, 1))
    ensures var addr := Wrap(start + k * PAGE_SIZE); !UserWritable(PageEntry(addr, flags))
  {
    hide Or, PageEntry;
    var addr := Wrap(start + k * PAGE_SIZE);
    assert addr == FrameOf(addr) * PAGE_SIZE;
    AlignedPageEntry(FrameOf(addr), flags);
    LowBitsDecide(FrameOf(addr), Or(flags % PAGE_SIZE, 1));
  }

  /** Rights are in the low bits. */
  lemma LowBitsDecide(f: FrameNo, low: nat)
    ensures UserWritable(f * PAGE_SIZE + low) <==> UserWritable(low)
  {
    var q, r := low / 8, low % 8;
    EightsDropOut(f * 512 + q, r);
    EightsDropOut(q, r);
    assert f * PAGE_SIZE + low == 8 * (f * 512 + q) + r;
  }

  lemma EightsDropOut(q: nat, r: nat)
    requires r < 8
    ensures (8 * q + r) / 2 % 4 == r / 2
  {
    assert (8 * q + r) / 2 == 4 * q + r / 2;
  }

  // ----- New address spaces and copies write only frames that were free, and the new directory -----

  /** No frame but d and those that were free is written. */
  ghost predicate WritesFresh(m: Machine, m': Machine, d: FrameNo) {
    && m'.pool.free <= m.pool.free
    && forall f: FrameNo :: f != d && f !in m.pool.free ==> m'.mem[f] == m.mem[f]
  }

  lemma WritesTwice(m: Machine, m1: Machine, m2: Machine, d: FrameNo)
    requires WritesFresh(m, m1, d) && WritesFresh(m1, m2, d)
    ensures WritesFresh(m, m2, d)
  {}

  lemma BuildSpaceWrites(m: Machine, kernelDir: FrameNo)
    requires !BuildSpace(m, kernelDir).m.pool.failed
    ensures WritesFresh(m, BuildSpace(m, kernelDir).m, BuildSpace(m, kernelDir).frame)
  {
    var a := NewDirectory(m, kernelDir);
    assert !Present(Word(a.m.mem, a.frame, DirIndex(STACK_PAGE)));
  }

  lemma {:induction false} CopyPagesWrites(m: Machine, srcTable: FrameNo, dstTable: FrameNo, dst: FrameNo,
                                           index: nat, n: nat)
    requires index < KERNEL_PD_INDEX && n <= ENTRIES
    requires !CopyPages(m, srcTable, dstTable, dst, index, n).pool.failed
    ensures WritesFresh(m, CopyPages(m, srcTable, dstTable, dst, index, n), dstTable)
  {
    if n > 0 {
      var m1 := CopyPages(m, srcTable, dstTable, dst, index, n - 1);
      CopyPageFails(m1, srcTable, dstTable, dst, index, n - 1);
      CopyPagesWrites(m, srcTable, dstTable, dst, index, n - 1);
    }
  }

  lemma {:induction false} CopyAddrSpaceWrites(m: Machine, src: FrameNo, dst: FrameNo, n: nat)
    requires n <= KERNEL_PD_INDEX && !CopyAddrSpace(m, src, dst, n).pool.failed
    ensures WritesFresh(m, CopyAddrSpace(m, src, dst, n), dst)
  {
    hide CopyTable;
    if n > 0 {
      var m1 := CopyAddrSpace(m, src, dst, n - 1);
      CopyTableFails(m1, src, dst, n - 1);
      CopyAddrSpaceWrites(m, src, dst, n - 1);
      CopyTableWrites(m1, src, dst, n - 1);
      WritesTwice(m, m1, CopyAddrSpace(m, src, dst, n), dst);
    }
  }

  lemma CopyTableWrites(m: Machine, src: FrameNo, dst: FrameNo, index: nat)
    requires index < KERNEL_PD_INDEX && !CopyTable(m, src, dst, index).pool.failed
    ensures WritesFresh(m, CopyTable(m, src, dst, index), dst)
  {
    if Present(Word(m.mem, src, index)) {
      var a, t := NewCopyTable(m, dst, index), FrameOf(Word(m.mem, src, index));
      CopyPagesFails(a.m, t, a.frame, dst, index, ENTRIES);
      CopyPagesWrites(a.m, t, a.frame, dst, index, ENTRIES);
      assert a.frame in m.pool.free;
    }
  }

  /** The new directory sees the kernel half as the kernel did, every other directory as it did itself. */
  lemma NewUpperWalk(m: Machine, m': Machine, sp: Spaces, d: FrameNo, q: FrameNo, v: FrameNo)
    requires Inv(m, sp) && WritesFresh(m, m', d) && d in m.pool.free && IsDir(With(sp, d), q) && v >= USER_PAGES
    requires forall i: nat :: KERNEL_PD_INDEX <= i < ENTRIES ==> Word(m'.mem, d, i) == Word(m.mem, sp.kernelDir, i)
    ensures MappedBefore(m, m', sp, q, v)
  {
    var q' := if q == d then sp.kernelDir else q;
    assert IsDir(sp, q') && Word(m'.mem, q, DirIndex(v)) == Word(m.mem, q', DirIndex(v));
    if Present(Word(m.mem, q', DirIndex(v))) { TableFrame(m, sp, q', DirIndex(v)); }
    assert Walk(m'.mem, q, v) == Walk(m.mem, q', v);
  }

  lemma BuildSpaceUpper(m: Machine, sp: Spaces)
    requires Inv(m, sp) && UpperOwned(m, sp) && !BuildSpace(m, sp.kernelDir).m.pool.failed
    ensures UpperOwned(BuildSpace(m, sp.kernelDir).m, With(sp, BuildSpace(m, sp.kernelDir).frame))
  {
    hide BuildSpace, Inv, UpperOwned, MappedBefore;
    var s := BuildSpace(m, sp.kernelDir);
    BuildSpaceKeeps(m, sp);
    BuildSpaceWrites(m, sp.kernelDir);
    forall q: FrameNo, v: FrameNo | IsDir(With(sp, s.frame), q) && v >= USER_PAGES
      ensures MappedBefore(m, s.m, sp, q, v)
    {
      NewUpperWalk(m, s.m, sp, s.frame, q, v);
    }
    UpperKept(m, s.m, sp, With(sp, s.frame));
  }

  /** The entries of the new directory: the stack's table, and the kernel's. */
  lemma NewEntriesOpen(m: Machine, sp: Spaces, i: nat)
    requires Inv(m, sp) && EntriesOpen(m, sp) && !BuildSpace(m, sp.kernelDir).m.pool.failed && i < ENTRIES
    ensures var s := BuildSpace(m, sp.kernelDir);
      Present(Word(s.m.mem, s.frame, i)) ==> Open(Word(s.m.mem, s.frame, i))
  {
    hide BuildSpace, Inv, Walk;
    var s := BuildSpace(m, sp.kernelDir);
    if i < KERNEL_PD_INDEX {
      BuildSpaceFrames(m, sp);
    } else {
      BuildSpaceKeeps(m, sp);
      assert Word(s.m.mem, s.frame, i) == Word(m.mem, sp.kernelDir, i) && IsDir(sp, sp.kernelDir);
    }
  }

  lemma NewPagesOpen(m: Machine, sp: Spaces, v: FrameNo)
    requires Inv(m, sp) && !BuildSpace(m, sp.kernelDir).m.pool.failed && v < USER_PAGES
    ensures var s := BuildSpace(m, sp.kernelDir);
      Walk(s.m.mem, s.frame, v).Some? ==> Open(Walk(s.m.mem, s.frame, v).value)
  {
    hide BuildSpace, Inv, Walk, Confined, Open;
    var s := BuildSpace(m, sp.kernelDir);
    BuildSpaceKeeps(m, sp);
    if v == STACK_PAGE {
      StackPageOpen(m, sp);
    } else {
      assert Walk(s.m.mem, s.frame, v).None?;
    }
  }

  lemma StackPageOpen(m: Machine, sp: Spaces)
    requires Inv(m, sp) && !BuildSpace(m, sp.kernelDir).m.pool.failed
    ensures var s := BuildSpace(m, sp.kernelDir);
      Walk(s.m.mem, s.frame, STACK_PAGE).Some? && Open(Walk(s.m.mem, s.frame, STACK_PAGE).value)
  {
    hide BuildSpace, Inv, Walk;
    BuildSpaceFrames(m, sp);
  }

  lemma BuildSpaceAccess(m: Machine, sp: Spaces)
    requires Inv(m, sp) && AccessInv(m, sp) && !BuildSpace(m, sp.kernelDir).m.pool.failed
    ensures AccessInv(BuildSpace(m, sp.kernelDir).m, With(sp, BuildSpace(m, sp.kernelDir).frame))
  {
    hide BuildSpace, Inv, UpperOwned, Walk, Open, Confined;
    var s := BuildSpace(m, sp.kernelDir);
    var sp' := With(sp, s.frame);
    BuildSpaceKeeps(m, sp);
    BuildSpaceUpper(m, sp);
    FreshIsNoDir(m, sp, s.frame);
    forall q: FrameNo, i: nat | IsDir(sp', q) && i < ENTRIES && Present(Word(s.m.mem, q, i))
      ensures Open(Word(s.m.mem, q, i))
    {
      if q == s.frame {
        NewEntriesOpen(m, sp, i);
      } else {
        ConfinedKeepsDir(m, s.m, sp, s.frame, q);
        assert Word(s.m.mem, q, i) == Word(m.mem, q, i);
      }
    }
    forall q: FrameNo, v: FrameNo | q in sp'.dirs && v < USER_PAGES && Walk(s.m.mem, q, v).Some?
      ensures Open(Walk(s.m.mem, q, v).value)
    {
      if q == s.frame { NewPagesOpen(m, sp, v); } else { ConfinedKeepsPage(m, s.m, sp, s.frame, q, v); }
    }
  }

  lemma FreshIsNoDir(m: Machine, sp: Spaces, d: FrameNo)
    requires Inv(m, sp) && d in m.pool.free
    ensures !IsDir(sp, d)
  {}

  lemma ConfinedKeepsDir(m: Machine, m': Machine, sp: Spaces, d: FrameNo, q: FrameNo)
    requires Inv(m, sp) && Confined(m, m', sp.kernelDir, d) && IsDir(sp, q) && q != d
    ensures m'.mem[q] == m.mem[q]
  {}

  lemma CopyUpper(m: Machine, sp: Spaces, src: FrameNo, dst: FrameNo)
    requires Inv(m, sp) && UpperOwned(m, sp) && src in sp.dirs && dst in sp.dirs && src != dst
    requires !CopyAddrSpace(m, src, dst, KERNEL_PD_INDEX).pool.failed
    ensures UpperOwned(CopyAddrSpace(m, src, dst, KERNEL_PD_INDEX), sp)
  {
    hide CopyAddrSpace, Inv, UpperOwned, MappedBefore;
    var m' := CopyAddrSpace(m, src, dst, KERNEL_PD_INDEX);
    CopyAddrSpaceKeeps(m, sp, src, dst, KERNEL_PD_INDEX);
    CopyAddrSpaceWrites(m, src, dst, KERNEL_PD_INDEX);
    forall q: FrameNo, v: FrameNo | IsDir(sp, q) && v >= USER_PAGES ensures MappedBefore(m, m', sp, q, v) {
      CopyWalkKept(m, m', sp, dst, q, v);
    }
    UpperKept(m, m', sp, sp);
  }

  lemma NewEntryOpen(m: Machine, e: u32)
    ensures NewEntry(m, e) ==> Open(e)
  {}

  lemma CopyAccess(m: Machine, sp: Spaces, src: FrameNo, dst: FrameNo)
    requires Inv(m, sp) && AccessInv(m, sp) && src in sp.dirs && dst in sp.dirs && src != dst
    requires !CopyAddrSpace(m, src, dst, KERNEL_PD_INDEX).pool.failed
    ensures AccessInv(CopyAddrSpace(m, src, dst, KERNEL_PD_INDEX), sp)
  {
    hide CopyAddrSpace, Inv, UpperOwned;
    var m' := CopyAddrSpace(m, src, dst, KERNEL_PD_INDEX);
    CopyAddrSpaceKeeps(m, sp, src, dst, KERNEL_PD_INDEX);
    CopyUpper(m, sp, src, dst);
    forall q: FrameNo, i: nat | IsDir(sp, q) && i < ENTRIES && Present(Word(m'.mem, q, i))
      ensures Open(Word(m'.mem, q, i))
    {
      if q == dst && i < KERNEL_PD_INDEX {
        CopiedEntries(m, sp, src, dst, KERNEL_PD_INDEX, i);
        NewEntryOpen(m, Word(m'.mem, q, i));
      } else {
        assert Word(m'.mem, q, i) == Word(m.mem, q, i);
      }
    }
    forall q: FrameNo, v: FrameNo | q in sp.dirs && v < USER_PAGES && Walk(m'.mem, q, v).Some?
      ensures Open(Walk(m'.mem, q, v).value)
    {
      if q == dst {
        CopyAddrSpaceCopies(m, sp, src, dst, KERNEL_PD_INDEX, v);
      } else {
        ConfinedKeepsPage(m, m', sp, dst, q, v);
      }
    }
  }

  lemma CopyWalkKept(m: Machine, m': Machine, sp: Spaces, dst: FrameNo, q: FrameNo, v: FrameNo)
    requires Inv(m, sp) && WritesFresh(m, m', dst) && IsDir(sp, q) && IsDir(sp, dst) && v >= USER_PAGES
    requires forall i: nat :: KERNEL_PD_INDEX <= i < ENTRIES ==> Word(m'.mem, dst, i) == Word(m.mem, dst, i)
    ensures MappedBefore(m, m', sp, q, v)
  {
    if Present(Word(m.mem, q, DirIndex(v))) { TableFrame(m, sp, q, DirIndex(v)); }
    assert Walk(m'.mem, q, v) == Walk(m.mem, q, v);
  }

  // ----- Stores -----

  /** Writing a frame that was handed out for a page changes no mapping. */
  lemma PageWriteUpper(m: Machine, m': Machine, sp: Spaces, f: FrameNo)
    requires Inv(m, sp) && UpperOwned(m, sp) && f in m.pool.own && m.pool.own[f].Page?
    requires m'.pool == m.pool && forall g: FrameNo :: g != f ==> m'.mem[g] == m.mem[g]
    ensures UpperOwned(m', sp)
  {
    hide UpperOwned;
    forall q: FrameNo, v: FrameNo | IsDir(sp, q) && v >= USER_PAGES ensures MappedBefore(m, m', sp, q, v) {
      if Present(Word(m.mem, q, DirIndex(v))) { TableFrame(m, sp, q, DirIndex(v)); }
      assert Walk(m'.mem, q, v) == Walk(m.mem, q, v);
    }
    UpperKept(m, m', sp, sp);
  }

  lemma PageWriteAccess(m: Machine, m': Machine, sp: Spaces, f: FrameNo)
    requires Inv(m, sp) && AccessInv(m, sp) && f in m.pool.own && m.pool.own[f].Page?
    requires m'.pool == m.pool && forall g: FrameNo :: g != f ==> m'.mem[g] == m.mem[g]
    ensures AccessInv(m', sp)
  {
    hide UpperOwned, Open;
    PageWriteUpper(m, m', sp, f);
    forall q: FrameNo | IsDir(sp, q) ensures m'.mem[q] == m.mem[q] {}
    forall q: FrameNo, i: nat | IsDir(sp, q) && i < ENTRIES ensures Word(m'.mem, q, i) == Word(m.mem, q, i) {}
    forall q: FrameNo, v: FrameNo | q in sp.dirs && v < USER_PAGES ensures Walk(m'.mem, q, v) == Walk(m.mem, q, v) {
      if Present(Word(m.mem, q, DirIndex(v))) { TableFrame(m, sp, q, DirIndex(v)); }
    }
  }
}
