/** `map_user_space`: which pages it maps, and that it maps each on memory of its own. */
module UserMappings {
  import opened Words
  import opened Frames
  import opened Memory
  import opened Paging
  import opened Ownership
  import opened AddressSpaceCopy
  import opened CopyCost

  /** Allocating and mapping: the page is on the lowest free frame, open to user code, and every other page of the
      directory is kept. */
  lemma MapNewRemaps(m: Machine, sp: Spaces, d: FrameNo, virt: u32, v: FrameNo)
    requires Inv(m, sp) && d in sp.dirs && !MapNew(m, d, virt).pool.failed
    ensures var m' := MapNew(m, d, virt);
      if v == virt / PAGE_SIZE then
        m.pool.free != {} && Walk(m'.mem, d, v) == Some(Lowest(m.pool.free) * 4096 + 7)
      else
        Walk(m'.mem, d, v) == Walk(m.mem, d, v) && (v < USER_PAGES ==> KeptPage(m.mem, m'.mem, d, v))
  {
    hide Inv, MapPage, PageEntry, Or, Walk, NewFrame;
    var purpose := Page(d, virt / PAGE_SIZE);
    var a := NewFrame(m, purpose);
    NewFrameTakes(m, purpose);
    NewFrameKeeps(m, sp, purpose, d);
    MapPagePaid(a.m, d, virt, a.frame * PAGE_SIZE, USER_FLAGS);
    MapPageRefinesUpdate(a.m, sp, d, virt, a.frame * PAGE_SIZE, USER_FLAGS, d, v);
    UserEntry(a.frame);
    if v < USER_PAGES { MapPageTouches(a.m, sp, d, virt, a.frame * PAGE_SIZE, USER_FLAGS, v); }
    assert MapNew(m, d, virt) == MapPage(a.m, d, virt, a.frame * PAGE_SIZE, USER_FLAGS);
    if v == virt / PAGE_SIZE {
      assert Walk(MapNew(m, d, virt).mem, d, v) == Some(TableEntry(a.frame));
    } else {
      assert Walk(a.m.mem, d, v) == Walk(m.mem, d, v);
    }
  }

  lemma NewFrameTakes(m: Machine, purpose: Owner)
    ensures var a := NewFrame(m, purpose);
      && a.m.mem == m.mem
      && (!a.m.pool.failed ==> m.pool.free != {} && a.frame == Lowest(m.pool.free))
  {}

  lemma UserEntry(f: FrameNo)
    ensures PageEntry(f * PAGE_SIZE, USER_FLAGS) == TableEntry(f)
  {}

  /** `map_page` writes to no user page of the directory. */
  lemma MapPageTouches(m: Machine, sp: Spaces, d: FrameNo, virt: u32, phys: u32, flags: u32, v: FrameNo)
    requires Inv(m, sp) && d in sp.dirs && v < USER_PAGES && !MapPage(m, d, virt, phys, flags).pool.failed
    ensures Walk(m.mem, d, v).Some? ==>
      var f := FrameOf(Walk(m.mem, d, v).value); MapPage(m, d, virt, phys, flags).mem[f] == m.mem[f]
  {}

  /** The page is mapped, present, writable and user, on a frame that was free before. */
  ghost predicate Renewed(m: Machine, m': Machine, d: FrameNo, v: FrameNo) {
    exists f: FrameNo :: f in m.pool.free && Walk(m'.mem, d, v) == Some(TableEntry(f))
  }

  lemma RenewedKept(m: Machine, m1: Machine, m2: Machine, d: FrameNo, v: FrameNo)
    requires Renewed(m, m1, d, v) && Walk(m2.mem, d, v) == Walk(m1.mem, d, v)
    ensures Renewed(m, m2, d, v)
  {}

  lemma RenewedLater(m: Machine, m1: Machine, m2: Machine, d: FrameNo, v: FrameNo)
    requires m1.pool.free <= m.pool.free
    requires exists f: FrameNo :: f in m1.pool.free && Walk(m2.mem, d, v) == Some(TableEntry(f))
    ensures Renewed(m, m2, d, v)
  {}

  /** One more page on top of what a loop has done so far. */
  lemma OneMore(m: Machine, m1: Machine, sp: Spaces, d: FrameNo, virt: u32, v: FrameNo, done: bool)
    requires Inv(m1, sp) && d in sp.dirs && v < USER_PAGES && !MapNew(m1, d, virt).pool.failed
    requires Confined(m, m1, sp.kernelDir, d)
    requires if done then Renewed(m, m1, d, v) else KeptPage(m.mem, m1.mem, d, v)
    ensures if done || v == virt / PAGE_SIZE then Renewed(m, MapNew(m1, d, virt), d, v)
            else KeptPage(m.mem, MapNew(m1, d, virt).mem, d, v)
  {
    hide Inv, MapNew;
    MapNewRemaps(m1, sp, d, virt, v);
    if v == virt / PAGE_SIZE {
      RenewedLater(m, m1, MapNew(m1, d, virt), d, v);
    } else if done {
      RenewedKept(m, m1, MapNew(m1, d, virt), d, v);
    }
  }

  /** The page of the n-th address counted from an address, in 32-bit arithmetic. */
  lemma PageAhead(start: u32, i: int, v: FrameNo)
    ensures v == Wrap(start + i * PAGE_SIZE) / PAGE_SIZE <==> (v - FrameOf(start) - i) % FRAME_COUNT == 0
  {}

  /** A code mapping covers the n pages from the code address on. */
  lemma {:induction false} MapCodeMaps(m: Machine, sp: Spaces, d: FrameNo, code: u32, n: nat, v: FrameNo)
    requires Inv(m, sp) && d in sp.dirs && v < USER_PAGES && n <= FRAME_COUNT
    requires !MapCode(m, d, code, n).pool.failed
    ensures if (v - FrameOf(code)) % FRAME_COUNT < n then Renewed(m, MapCode(m, d, code, n), d, v)
            else KeptPage(m.mem, MapCode(m, d, code, n).mem, d, v)
  {
    hide Inv, MapNew, Wrap, Walk, KeptPage, Renewed;
    if n == 0 {
      KeptSame(m.mem, d, v);
    } else {
      var m1, virt := MapCode(m, d, code, n - 1), Wrap(code + (n - 1) * PAGE_SIZE);
      MapNewFails(m1, d, virt);
      MapCodeKeeps(m, sp, d, code, n - 1);
      MapCodeMaps(m, sp, d, code, n - 1, v);
      OneMore(m, m1, sp, d, virt, v, (v - FrameOf(code)) % FRAME_COUNT < n - 1);
      PageAhead(code, n - 1, v);
      Ahead(v - FrameOf(code), n);
    }
  }

  lemma Ahead(x: int, n: nat)
    requires 0 < n <= FRAME_COUNT
    ensures x % FRAME_COUNT < n <==> x % FRAME_COUNT < n - 1 || (x - (n - 1)) % FRAME_COUNT == 0
  {}

  lemma Below(x: int, n: nat)
    requires 0 < n <= FRAME_COUNT
    ensures (-1 - x) % FRAME_COUNT < n <==> (-1 - x) % FRAME_COUNT < n - 1 || (x + n) % FRAME_COUNT == 0
  {}

  lemma KeptSame(mem: Mem, d: FrameNo, v: FrameNo)
    ensures KeptPage(mem, mem, d, v)
  {}

  /** A stack mapping covers the n pages below the stack address. */
  lemma {:induction false} MapStackMaps(m: Machine, sp: Spaces, d: FrameNo, stack: u32, n: nat, v: FrameNo)
    requires Inv(m, sp) && d in sp.dirs && v < USER_PAGES && n <= FRAME_COUNT
    requires !MapStack(m, d, stack, n).pool.failed
    ensures if (FrameOf(stack) - 1 - v) % FRAME_COUNT < n then Renewed(m, MapStack(m, d, stack, n), d, v)
            else KeptPage(m.mem, MapStack(m, d, stack, n).mem, d, v)
  {
    hide Inv, MapNew, Wrap, Walk, KeptPage, Renewed;
    if n == 0 {
      KeptSame(m.mem, d, v);
    } else {
      var m1, virt := MapStack(m, d, stack, n - 1), Wrap(stack - n * PAGE_SIZE);
      MapNewFails(m1, d, virt);
      MapStackKeeps(m, sp, d, stack, n - 1);
      MapStackMaps(m, sp, d, stack, n - 1, v);
      OneMore(m, m1, sp, d, virt, v, (FrameOf(stack) - 1 - v) % FRAME_COUNT < n - 1);
      var back: int := n;
      PageAhead(stack, 0 - back, v);
      Below(v - FrameOf(stack), n);
    }
  }

  /** Page i of a range is counted if it starts before the end of as many bytes, counted from a page boundary; the
      ceiling wraps for the last sizes, for which no page is counted. */
  predicate Counted(i: nat, size: u32) {
    i * 4096 < size <= 0xFFFF_F000
  }

  lemma PagesAreCounted(i: nat, size: u32)
    ensures i < Pages(size) <==> Counted(i, size)
    ensures Pages(size) <= FRAME_COUNT
  {}

  /** After `map_user_space` every user page counted, from the code page upward and from the page below the stack
      address downward, is on a fresh frame, open to user code, and every other user page of the process is kept. */
  lemma MapUserSpaceMaps(m: Machine, sp: Spaces, d: FrameNo, code: u32, codeSize: u32, stack: u32, stackSize: u32,
                         v: FrameNo)
    requires Inv(m, sp) && d in sp.dirs && v < USER_PAGES
    requires !MapUserSpace(m, d, code, codeSize, stack, stackSize).pool.failed
    ensures var m' := MapUserSpace(m, d, code, codeSize, stack, stackSize);
      if Counted((v - code / 4096) % 0x10_0000, codeSize) || Counted((stack / 4096 - 1 - v) % 0x10_0000, stackSize)
      then Renewed(m, m', d, v)
      else KeptPage(m.mem, m'.mem, d, v)
  {
    hide Inv, MapCode, MapStack, Walk, Pages, Counted;
    PagesAreCounted((v - code / 4096) % 0x10_0000, codeSize);
    PagesAreCounted((stack / 4096 - 1 - v) % 0x10_0000, stackSize);
    var m1 := MapCode(m, d, code, Pages(codeSize));
    var m2 := MapStack(m1, d, stack, Pages(stackSize));
    MapStackFails(m1, d, stack, Pages(stackSize));
    MapCodeKeeps(m, sp, d, code, Pages(codeSize));
    MapCodeMaps(m, sp, d, code, Pages(codeSize), v);
    MapStackMaps(m1, sp, d, stack, Pages(stackSize), v);
    if (FrameOf(stack) - 1 - v) % FRAME_COUNT < Pages(stackSize) {
      RenewedLater(m, m1, m2, d, v);
    } else if (v - FrameOf(code)) % FRAME_COUNT < Pages(codeSize) {
      RenewedKept(m, m1, m2, d, v);
    }
  }

  // ----- Which bytes that covers -----

  /** The pages counted for the code hold every byte of it if and only if the ceiling does not wrap and what
      the start leaves of its first page is not missed at the end. */
  lemma CodeCoverage(code: u32, size: u32)
    requires 0 < size && code + size <= WORD_LIMIT
    ensures (forall b: u32 :: code <= b < code + size ==> Counted((b / 4096 - code / 4096) % 0x10_0000, size))
      <==> size <= 0xFFFF_F000 && code % 4096 + size <= (size + 4095) / 4096 * 4096
  {
    var last: u32 := code + size - 1;
    assert 0 <= last / 4096 - code / 4096 < 0x10_0000;
    if size <= 0xFFFF_F000 && code % 4096 + size <= (size + 4095) / 4096 * 4096 {
      forall b: u32 | code <= b < code + size ensures Counted((b / 4096 - code / 4096) % 0x10_0000, size) {
        assert 0 <= b / 4096 - code / 4096 <= last / 4096 - code / 4096;
      }
    } else {
      assert !Counted((last / 4096 - code / 4096) % 0x10_0000, size);
    }
  }

  /** The pages counted for the stack hold every byte below its address if and only if the address is on a page
      boundary. */
  lemma StackCoverage(stack: u32, size: u32)
    requires 0 < size <= stack
    ensures (forall b: u32 :: stack - size <= b < stack ==>
               Counted((stack / 4096 - 1 - b / 4096) % 0x10_0000, size))
      <==> stack % 4096 == 0
  {
    if stack % 4096 == 0 {
      forall b: u32 | stack - size <= b < stack ensures Counted((stack / 4096 - 1 - b / 4096) % 0x10_0000, size) {
        assert 0 <= stack / 4096 - 1 - b / 4096 < 0x10_0000;
      }
    } else {
      var last: u32 := stack - 1;
      assert last / 4096 == stack / 4096 && -1 % 0x10_0000 == 0xF_FFFF;
      assert !Counted((stack / 4096 - 1 - last / 4096) % 0x10_0000, size);
    }
  }

  /** A page of code at 0x1800 leaves its last half page unmapped, a page of stack below 0x5800 its first. */
  lemma UnalignedRangesAreCut()
    ensures Counted(0, 0x1000) && !Counted((0x2000 / 4096 - 0x1800 / 4096) % 0x10_0000, 0x1000)
    ensures !Counted((0x5800 / 4096 - 1 - 0x5000 / 4096) % 0x10_0000, 0x1000)
  {}
}
