/** The paging code as functions of memory and frame pool.  Every function follows the statements of its
    C counterpart in order, including what happens when the pool is exhausted: the callers do not check,
    so they go on with frame 0. */
module Paging {
  import opened Words
  import opened Frames
  import opened Memory

  const USER_FLAGS: u32 := 6          // PAGE_RW | PAGE_USER
  const IDENTITY_BYTES := 0x80_0000

  /** A machine after an allocation, and the frame obtained. */
  datatype Fresh = Fresh(m: Machine, frame: FrameNo)

  ghost function NewFrame(m: Machine, purpose: Owner): Fresh {
    var t := Take(m.pool, purpose);
    Fresh(Machine(m.mem, t.pool), t.frame)
  }

  /** `create_page_table` */
  ghost function CreatePageTable(m: Machine, purpose: Owner): Fresh {
    var a := NewFrame(m, purpose);
    Fresh(Machine(SetFrame(a.m.mem, a.frame, ZeroFrame()), a.m.pool), a.frame)
  }

  /** First half of `map_page`: make sure the directory entry has a table. */
  ghost function EnsureTable(m: Machine, dir: FrameNo, index: nat): Machine
    requires index < ENTRIES
  {
    if Present(Word(m.mem, dir, index)) then m
    else
      var a := CreatePageTable(m, Table(dir, index));
      Machine(SetWord(a.m.mem, dir, index, TableEntry(a.frame)), a.m.pool)
  }

  /** `map_page` */
  ghost function MapPage(m: Machine, dir: FrameNo, virt: u32, phys: u32, flags: u32): Machine {
    var vpage := virt / PAGE_SIZE;
    var m1 := EnsureTable(m, dir, DirIndex(vpage));
    var t := FrameOf(Word(m1.mem, dir, DirIndex(vpage)));
    Machine(SetWord(m1.mem, t, TableIndex(vpage), PageEntry(phys, flags)), m1.pool)
  }

  /** Allocate a frame for a user page and map it. */
  ghost function MapNew(m: Machine, dir: FrameNo, virt: u32): Machine {
    var a := NewFrame(m, Page(dir, virt / PAGE_SIZE));
    MapPage(a.m, dir, virt, a.frame * PAGE_SIZE, USER_FLAGS)
  }

  /** First n iterations of `map_physical_region`. */
  ghost function MapRegion(m: Machine, dir: FrameNo, start: u32, flags: u32, n: nat): Machine {
    if n == 0 then m
    else
      var addr := Wrap(start + (n - 1) * PAGE_SIZE);
      MapPage(MapRegion(m, dir, start, flags, n - 1), dir, addr, addr, flags)
  }

  function RegionStart(physStart: u32): u32 {
    PAGE_SIZE * FrameOf(physStart)
  }

  /** The page count `map_physical_region` computes: two ceilings, in 32-bit arithmetic. */
  function RegionPages(physStart: u32, size: u32): u32 {
    Wrap(Wrap(size + PAGE_SIZE - 1) / PAGE_SIZE
       + Wrap(physStart - RegionStart(physStart) + PAGE_SIZE - 1) / PAGE_SIZE)
  }

  ghost function MapPhysicalRegion(m: Machine, dir: FrameNo, physStart: u32, size: u32, flags: u32): Machine {
    MapRegion(m, dir, RegionStart(physStart), flags, RegionPages(physStart, size))
  }

  function Pages(size: u32): u32 {
    Wrap(size + PAGE_SIZE - 1) / PAGE_SIZE
  }

  /** First n iterations of the code loop of `map_user_space`. */
  ghost function MapCode(m: Machine, dir: FrameNo, code: u32, n: nat): Machine {
    if n == 0 then m
    else MapNew(MapCode(m, dir, code, n - 1), dir, Wrap(code + (n - 1) * PAGE_SIZE))
  }

  /** First n iterations of the stack loop of `map_user_space`. */
  ghost function MapStack(m: Machine, dir: FrameNo, stack: u32, n: nat): Machine {
    if n == 0 then m
    else MapNew(MapStack(m, dir, stack, n - 1), dir, Wrap(stack - n * PAGE_SIZE))
  }

  ghost function MapUserSpace(m: Machine, dir: FrameNo, code: u32, codeSize: u32, stack: u32, stackSize: u32): Machine {
    MapStack(MapCode(m, dir, code, Pages(codeSize)), dir, stack, Pages(stackSize))
  }

  /** `clone_kernel_space`: entries from `KERNEL_PD_INDEX` on come from the kernel directory. */
  function CloneKernelSpace(mem: Mem, dir: FrameNo, kernelDir: FrameNo): Mem {
    var contents: Frame := mem[dir][..KERNEL_PD_INDEX] + mem[kernelDir][KERNEL_PD_INDEX..];
    SetFrame(mem, dir, contents)
  }

  /** Iteration k of the inner loop of `copy_addr_space`. */
  ghost function CopyPage(m: Machine, srcTable: FrameNo, dstTable: FrameNo, dst: FrameNo, index: nat, k: nat): Machine
    requires index < KERNEL_PD_INDEX && k < ENTRIES
  {
    var pte := Word(m.mem, srcTable, k);
    if !Present(pte) then m
    else
      var a := NewFrame(m, Page(dst, index * ENTRIES + k));
      var copied := SetFrame(a.m.mem, a.frame, a.m.mem[FrameOf(pte)]);
      Machine(SetWord(copied, dstTable, k, TableEntry(a.frame)), a.m.pool)
  }

  /** First n iterations of the inner loop of `copy_addr_space`. */
  ghost function CopyPages(m: Machine, srcTable: FrameNo, dstTable: FrameNo, dst: FrameNo, index: nat, n: nat): Machine
    requires index < KERNEL_PD_INDEX && n <= ENTRIES
  {
    if n == 0 then m
    else CopyPage(CopyPages(m, srcTable, dstTable, dst, index, n - 1), srcTable, dstTable, dst, index, n - 1)
  }

  /** The new table of one iteration of the outer loop, entered in the child's directory. */
  ghost function NewCopyTable(m: Machine, dst: FrameNo, index: nat): Fresh
    requires index < KERNEL_PD_INDEX
  {
    var a := CreatePageTable(m, Table(dst, index));
    Fresh(Machine(SetWord(a.m.mem, dst, index, TableEntry(a.frame)), a.m.pool), a.frame)
  }

  /** One iteration of the outer loop of `copy_addr_space`. */
  ghost function CopyTable(m: Machine, src: FrameNo, dst: FrameNo, index: nat): Machine
    requires index < KERNEL_PD_INDEX
  {
    var pde := Word(m.mem, src, index);
    if !Present(pde) then m
    else
      var a := NewCopyTable(m, dst, index);
      CopyPages(a.m, FrameOf(pde), a.frame, dst, index, ENTRIES)
  }

  /** First n iterations of the outer loop of `copy_addr_space`. */
  ghost function CopyAddrSpace(m: Machine, src: FrameNo, dst: FrameNo, n: nat): Machine
    requires n <= KERNEL_PD_INDEX
  {
    if n == 0 then m else CopyTable(CopyAddrSpace(m, src, dst, n - 1), src, dst, n - 1)
  }

  /** `init_pages`, up to switching paging on: the new kernel directory and the identity map of 8 MiB. */
  ghost function InitPages(m: Machine): Fresh {
    var a := CreatePageTable(m, Directory);
    Fresh(MapRegion(a.m, a.frame, 0, 2, IDENTITY_BYTES / PAGE_SIZE), a.frame)
  }
}
