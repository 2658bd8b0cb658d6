/** Identity mappings: what `map_physical_region` covers, and the address space `init_pages` builds. */
module Regions {
  import opened Words
  import opened Frames
  import opened Memory
  import opened Paging
  import opened Ownership
  import opened CopyCost

  /** One of the n pages from `start` on, counting around the end of the 32-bit address space. */
  predicate InRegion(start: u32, n: nat, vpage: FrameNo) {
    (vpage - FrameOf(start)) % FRAME_COUNT < n
  }

  lemma MapPageInOwnDir(m: Machine, sp: Spaces, virt: u32, phys: u32, flags: u32, v: FrameNo)
    requires Inv(m, sp) && !MapPage(m, sp.kernelDir, virt, phys, flags).pool.failed
    ensures Walk(MapPage(m, sp.kernelDir, virt, phys, flags).mem, sp.kernelDir, v) ==
      if v == virt / PAGE_SIZE then Some(PageEntry(phys, flags)) else Walk(m.mem, sp.kernelDir, v)
  {
    MapPageRefinesUpdate(m, sp, sp.kernelDir, virt, phys, flags, sp.kernelDir, v);
  }

  /** n iterations map exactly the n pages of the region to themselves and nothing else. */
  lemma {:induction false} MapRegionWalks(m: Machine, sp: Spaces, start: u32, flags: u32, n: nat, v: FrameNo)
    requires Inv(m, sp) && start % PAGE_SIZE == 0
    requires !MapRegion(m, sp.kernelDir, start, flags, n).pool.failed
    ensures Walk(MapRegion(m, sp.kernelDir, start, flags, n).mem, sp.kernelDir, v) ==
      if InRegion(start, n, v) then Some(PageEntry(v * PAGE_SIZE, flags)) else Walk(m.mem, sp.kernelDir, v)
  {
    hide MapPage, EnsureTable, Inv, PageEntry, Wrap, Walk;
    if n > 0 {
      var m1 := MapRegion(m, sp.kernelDir, start, flags, n - 1);
      MapRegionFailsBefore(m, sp.kernelDir, start, flags, n);
      MapRegionKeeps(m, sp, start, flags, n - 1);
      MapRegionWalks(m, sp, start, flags, n - 1, v);
      RegionWalkStep(m, m1, sp, start, flags, n, v);
    }
  }

  lemma MapRegionFailsBefore(m: Machine, dir: FrameNo, start: u32, flags: u32, n: nat)
    requires n > 0
    ensures var m1, addr := MapRegion(m, dir, start, flags, n - 1), Wrap(start + (n - 1) * PAGE_SIZE);
      && MapRegion(m, dir, start, flags, n) == MapPage(m1, dir, addr, addr, flags)
      && (m1.pool.failed ==> MapRegion(m, dir, start, flags, n).pool.failed)
  {}

  lemma RegionWalkStep(m: Machine, m1: Machine, sp: Spaces, start: u32, flags: u32, n: nat, v: FrameNo)
    requires Inv(m1, sp) && start % PAGE_SIZE == 0 && n > 0
    requires Walk(m1.mem, sp.kernelDir, v) ==
      if InRegion(start, n - 1, v) then Some(PageEntry(v * PAGE_SIZE, flags)) else Walk(m.mem, sp.kernelDir, v)
    ensures var addr := Wrap(start + (n - 1) * PAGE_SIZE);
      var m2 := MapPage(m1, sp.kernelDir, addr, addr, flags);
      m2.pool.failed ||
      Walk(m2.mem, sp.kernelDir, v) ==
        (if InRegion(start, n, v) then Some(PageEntry(v * PAGE_SIZE, flags)) else Walk(m.mem, sp.kernelDir, v))
  {
    var addr := Wrap(start + (n - 1) * PAGE_SIZE);
    RegionStep(start, n, v);
    if !MapPage(m1, sp.kernelDir, addr, addr, flags).pool.failed {
      MapPageInOwnDir(m1, sp, addr, addr, flags, v);
    }
  }

  lemma RegionStep(start: u32, n: nat, v: FrameNo)
    requires n > 0 && start % PAGE_SIZE == 0
    ensures var addr := Wrap(start + (n - 1) * PAGE_SIZE);
      && addr % PAGE_SIZE == 0
      && (v == addr / PAGE_SIZE ==> InRegion(start, n, v) && addr == v * PAGE_SIZE)
      && (v != addr / PAGE_SIZE ==> (InRegion(start, n, v) <==> InRegion(start, n - 1, v)))
  {}

  /** The pages computed by the two ceilings cover the region, and at most one page more, exactly when the
      first ceiling does not wrap. */
  lemma RegionCoverage(physStart: u32, size: u32)
    requires 0 < size && physStart + size <= WORD_LIMIT
    ensures (forall b: u32 :: physStart <= b < physStart + size ==>
              InRegion(RegionStart(physStart), RegionPages(physStart, size), b / PAGE_SIZE))
      <==> size <= WORD_LIMIT - PAGE_SIZE
    ensures size <= WORD_LIMIT - PAGE_SIZE ==>
      RegionPages(physStart, size) <= (physStart + size - 1) / PAGE_SIZE - physStart / PAGE_SIZE + 2
  {
    if size > WORD_LIMIT - PAGE_SIZE {
      var b: u32 := physStart + 2 * PAGE_SIZE;
      assert RegionPages(physStart, size) <= 1;
      assert !InRegion(RegionStart(physStart), RegionPages(physStart, size), b / PAGE_SIZE);
    }
  }

  /** Every byte of the region translates to itself with the flags asked for, and every page outside the
      pages counted translates as before. */
  lemma MapPhysicalRegionCovers(m: Machine, sp: Spaces, physStart: u32, size: u32, flags: u32, b: u32, v: FrameNo)
    requires Inv(m, sp) && !MapPhysicalRegion(m, sp.kernelDir, physStart, size, flags).pool.failed
    requires size <= WORD_LIMIT - PAGE_SIZE && physStart <= b < physStart + size <= WORD_LIMIT
    ensures var m' := MapPhysicalRegion(m, sp.kernelDir, physStart, size, flags);
      && Walk(m'.mem, sp.kernelDir, b / PAGE_SIZE) == Some(PAGE_SIZE * FrameOf(b) + Or(flags % PAGE_SIZE, 1))
      && (!InRegion(RegionStart(physStart), RegionPages(physStart, size), v) ==>
            Walk(m'.mem, sp.kernelDir, v) == Walk(m.mem, sp.kernelDir, v))
  {
    hide MapPage, EnsureTable, Inv, PageEntry, Wrap, InRegion;
    var start, n := RegionStart(physStart), RegionPages(physStart, size);
    RegionCoverage(physStart, size);
    MapRegionWalks(m, sp, start, flags, n, b / PAGE_SIZE);
    MapRegionWalks(m, sp, start, flags, n, v);
    AlignedPageEntry(FrameOf(b), flags);
  }

  /** The pages a region touches, from its first byte to its last, and when the start is not on a page boundary
      possibly the next one: exactly if the part of the first page in front of the start and the region together
      still fit the pages that the size alone needs. */
  predicate Touched(physStart: u32, size: u32, v: FrameNo) {
    var first, last, off := physStart / 4096, (physStart + size - 1) / 4096, physStart % 4096;
    first <= v <= last || (v == (last + 1) % 0x10_0000 && off > 0 && off + size <= (size + 4095) / 4096 * 4096)
  }

  lemma CountIsTouched(physStart: u32, size: u32, v: FrameNo)
    requires 0 < size <= 0xFFFF_F000 && physStart + size <= 0x1_0000_0000
    ensures InRegion(RegionStart(physStart), RegionPages(physStart, size), v) <==> Touched(physStart, size, v)
  {
    var first, last, off := physStart / 4096, (physStart + size - 1) / 4096, physStart % 4096;
    var needed := (size + 4095) / 4096;
    CountsPages(physStart, size);
    hide RegionPages;
    var n := RegionPages(physStart, size);
    assert last - first + 1 == if off > 0 && off + size > needed * 4096 then needed + 1 else needed;
    assert n == last - first + 1 + (if off > 0 && off + size <= needed * 4096 then 1 else 0);
  }

  lemma CountsPages(physStart: u32, size: u32)
    requires 0 < size <= 0xFFFF_F000 && physStart + size <= 0x1_0000_0000
    ensures RegionPages(physStart, size) == (size + 4095) / 4096 + (if physStart % 4096 > 0 then 1 else 0)
  {}

  /** Exactly the pages touched are mapped to themselves, with the flags asked for; every other page walks as
      before. */
  lemma MapPhysicalRegionMaps(m: Machine, sp: Spaces, physStart: u32, size: u32, flags: u32, v: FrameNo)
    requires Inv(m, sp) && !MapPhysicalRegion(m, sp.kernelDir, physStart, size, flags).pool.failed
    requires 0 < size <= 0xFFFF_F000 && physStart + size <= 0x1_0000_0000
    ensures Walk(MapPhysicalRegion(m, sp.kernelDir, physStart, size, flags).mem, sp.kernelDir, v) ==
      if Touched(physStart, size, v) then Some(v * 4096 + Or(flags % 4096, 1)) else Walk(m.mem, sp.kernelDir, v)
  {
    hide MapPage, Inv, PageEntry, InRegion, Touched, RegionPages, Or;
    CountIsTouched(physStart, size, v);
    MapRegionWalks(m, sp, RegionStart(physStart), flags, RegionPages(physStart, size), v);
    AlignedPageEntry(v, flags);
  }

  // ----- init_pages -----

  /** Entry i of the directory is present once the identity map has reached its first page. */
  ghost predicate FilledTo(mem: Mem, dir: FrameNo, n: nat) {
    forall i: nat :: i < ENTRIES ==> (Present(Word(mem, dir, i)) <==> i * ENTRIES < n)
  }

  /** The new directory, before anything is mapped in it. */
  lemma NewKernelDir(m: Machine)
    requires m.pool.Valid()
    ensures var a := CreatePageTable(m, Directory);
      && Paid(m.pool, a.m.pool, 1)
      && (!a.m.pool.failed ==> Inv(a.m, Spaces(a.frame, {})) && FilledTo(a.m.mem, a.frame, 0))
      && (forall v: FrameNo :: !a.m.pool.failed ==> Walk(a.m.mem, a.frame, v) == None)
  {}

  lemma FillStep(m: Machine, dir: FrameNo, flags: u32, n: nat)
    requires Inv(m, Spaces(dir, {})) && n < ENTRIES * ENTRIES && FilledTo(m.mem, dir, n)
    ensures var m' := MapPage(m, dir, n * PAGE_SIZE, n * PAGE_SIZE, flags);
      && Paid(m.pool, m'.pool, if n % ENTRIES == 0 then 1 else 0)
      && (!m'.pool.failed ==> FilledTo(m'.mem, dir, n + 1))
  {
    hide MapPage, Inv, Present;
    var addr := n * PAGE_SIZE;
    var m', k := MapPage(m, dir, addr, addr, flags), n / ENTRIES;
    assert DirIndex(addr / PAGE_SIZE) == k;
    MapPagePaid(m, dir, addr, addr, flags);
    if !m'.pool.failed {
      forall i: nat | i < ENTRIES ensures Present(Word(m'.mem, dir, i)) <==> i * ENTRIES < n + 1 {
        MapPageEntries(m, Spaces(dir, {}), dir, addr, addr, flags, dir, i);
        if i == k && m.pool.free != {} { TableEntryParts(Lowest(m.pool.free)); }
        assert i != k ==> (i * ENTRIES < n + 1 <==> i * ENTRIES < n);
      }
    }
  }

  function TablesFor(pages: nat): nat {
    (pages + ENTRIES - 1) / ENTRIES
  }

  lemma MapRegionUnfold(m: Machine, dir: FrameNo, flags: u32, n: nat)
    requires 0 < n <= ENTRIES * ENTRIES
    ensures var addr := (n - 1) * PAGE_SIZE;
      MapRegion(m, dir, 0, flags, n) == MapPage(MapRegion(m, dir, 0, flags, n - 1), dir, addr, addr, flags)
    ensures TablesFor(n) == TablesFor(n - 1) + (if (n - 1) % ENTRIES == 0 then 1 else 0)
  {}

  lemma {:induction false} IdentityTables(m: Machine, dir: FrameNo, flags: u32, n: nat)
    requires Inv(m, Spaces(dir, {})) && n <= ENTRIES * ENTRIES && FilledTo(m.mem, dir, 0)
    ensures Paid(m.pool, MapRegion(m, dir, 0, flags, n).pool, TablesFor(n))
    ensures !MapRegion(m, dir, 0, flags, n).pool.failed ==> FilledTo(MapRegion(m, dir, 0, flags, n).mem, dir, n)
  {
    hide MapPage, EnsureTable, Inv, PageEntry, Wrap, FilledTo;
    if n > 0 {
      MapRegionUnfold(m, dir, flags, n);
      IdentityTables(m, dir, flags, n - 1);
      var m1 := MapRegion(m, dir, 0, flags, n - 1);
      if !m1.pool.failed {
        MapRegionKeeps(m, Spaces(dir, {}), 0, flags, n - 1);
      }
      IdentityStep(m.pool, m1, dir, flags, n - 1);
    }
  }

  lemma IdentityStep(p: Pool, m: Machine, dir: FrameNo, flags: u32, n: nat)
    requires n < ENTRIES * ENTRIES && Paid(p, m.pool, TablesFor(n))
    requires !m.pool.failed ==> Inv(m, Spaces(dir, {})) && FilledTo(m.mem, dir, n)
    ensures var m' := MapPage(m, dir, n * PAGE_SIZE, n * PAGE_SIZE, flags);
      && Paid(p, m'.pool, TablesFor(n) + (if n % ENTRIES == 0 then 1 else 0))
      && (!m'.pool.failed ==> FilledTo(m'.mem, dir, n + 1))
  {
    var m' := MapPage(m, dir, n * PAGE_SIZE, n * PAGE_SIZE, flags);
    if m.pool.failed {
      MapPagePaid(m, dir, n * PAGE_SIZE, n * PAGE_SIZE, flags);
    } else {
      FillStep(m, dir, flags, n);
    }
    PaidTwice(p, m.pool, m'.pool, TablesFor(n), if n % ENTRIES == 0 then 1 else 0);
  }

  /** `init_pages` builds exactly the identity map of the first 8 MiB, writable and present, with nothing
      above it, for exactly three frames: the directory and two tables. */
  lemma InitPagesIsIdentity(m: Machine, v: FrameNo)
    requires m.pool.Valid()
    ensures var a := InitPages(m);
      && (a.m.pool.failed <==> m.pool.failed || |m.pool.free| < 3)
      && (!a.m.pool.failed ==>
            && |a.m.pool.free| == |m.pool.free| - 3
            && Inv(a.m, Spaces(a.frame, {}))
            && Walk(a.m.mem, a.frame, v) ==
                 if v < 2048 then Some(v * 4096 + 3) else None)
  {
    hide MapPage, EnsureTable, Inv, PageEntry, Wrap, MapRegion, Walk, CreatePageTable;
    var a, n := CreatePageTable(m, Directory), IDENTITY_BYTES / PAGE_SIZE;
    var sp := Spaces(a.frame, {});
    NewKernelDir(m);
    if a.m.pool.failed {
      RegionFails(a.m, a.frame, 0, 2, n);
    } else {
      IdentityTables(a.m, a.frame, 2, n);
      PaidTwice(m.pool, a.m.pool, InitPages(m).m.pool, 1, 2);
      if !InitPages(m).m.pool.failed {
        MapRegionKeeps(a.m, sp, 0, 2, n);
        MapRegionWalks(a.m, sp, 0, 2, n, v);
        AlignedPageEntry(v, 2);
        assert Or(2, 1) == 3;
      }
    }
  }

  /** The kernel directory is the lowest free frame. */
  lemma InitPagesFrame(m: Machine)
    requires m.pool.free != {}
    ensures InitPages(m).frame == Lowest(m.pool.free)
  {}

  lemma {:induction false} RegionFails(m: Machine, dir: FrameNo, start: u32, flags: u32, n: nat)
    ensures m.pool.failed ==> MapRegion(m, dir, start, flags, n).pool.failed
  {
    if n > 0 { RegionFails(m, dir, start, flags, n - 1); }
  }
}
