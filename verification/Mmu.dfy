/** The paging code on memory, in place: every method changes memory and the allocator exactly as the function
    of the same name in `Paging` says. */
module Mmu {
  import opened Words
  import opened Frames
  import opened Pmm
  import opened Memory
  import Paging
  import NewSpace

  class Mmu {
    const pmm: PageAllocator
    var mem: Mem
    var kernelDir: FrameNo

    ghost predicate Valid()
      reads this, pmm
    {
      pmm.Valid()
    }

    ghost function View(): Machine
      requires Valid()
      reads this, pmm, pmm.bitmap
    {
      Machine(mem, pmm.View())
    }

    constructor (pmm: PageAllocator, mem: Mem)
      requires pmm.Valid()
      ensures this.pmm == pmm && this.mem == mem && Valid()
    {
      this.pmm, this.mem, kernelDir := pmm, mem, 0;
    }

    method AllocFrame(ghost purpose: Owner) returns (f: FrameNo)
      requires Valid()
      modifies pmm.bitmap, pmm`own, pmm`failed
      ensures Valid() && Paging.Fresh(View(), f) == Paging.NewFrame(old(View()), purpose)
    {
      var addr := pmm.AllocPage(purpose);
      f := addr / PAGE_SIZE;
    }

    /** Clear a page, word by word. */
    method ClearPage(f: FrameNo)
      modifies `mem
      ensures mem == SetFrame(old(mem), f, ZeroFrame())
    {
      for i := 0 to ENTRIES
        invariant forall k: nat :: k < i ==> Word(mem, f, k) == 0
        invariant forall g: FrameNo :: g != f ==> mem[g] == old(mem)[g]
      {
        mem := SetWord(mem, f, i, 0);
      }
      SetFrameIs(old(mem), mem, f, ZeroFrame());
    }

    /** `create_page_table` */
    method CreatePageTable(ghost purpose: Owner) returns (t: FrameNo)
      requires Valid()
      modifies `mem, pmm.bitmap, pmm`own, pmm`failed
      ensures Valid() && Paging.Fresh(View(), t) == Paging.CreatePageTable(old(View()), purpose)
    {
      t := AllocFrame(purpose);
      ClearPage(t);
    }

    /** `map_page` */
    method MapPage(dir: FrameNo, virt: u32, phys: u32, flags: u32)
      requires Valid()
      modifies `mem, pmm.bitmap, pmm`own, pmm`failed
      ensures Valid() && View() == Paging.MapPage(old(View()), dir, virt, phys, flags)
    {
      var pdIndex, ptIndex := DirIndex(virt / PAGE_SIZE), TableIndex(virt / PAGE_SIZE);
      if !Present(Word(mem, dir, pdIndex)) {
        var t := CreatePageTable(Table(dir, pdIndex));
        mem := SetWord(mem, dir, pdIndex, TableEntry(t));
      }
      var pt := FrameOf(Word(mem, dir, pdIndex));
      mem := SetWord(mem, pt, ptIndex, PageEntry(phys, flags));
    }

    /** `map_physical_region` */
    method MapPhysicalRegion(dir: FrameNo, physStart: u32, size: u32, flags: u32)
      requires Valid()
      modifies `mem, pmm.bitmap, pmm`own, pmm`failed
      ensures Valid() && View() == Paging.MapPhysicalRegion(old(View()), dir, physStart, size, flags)
    {
      hide Paging.MapPage;
      var physAligned := Paging.RegionStart(physStart);
      var pages := Paging.RegionPages(physStart, size);
      for i := 0 to pages
        invariant Valid() && View() == Paging.MapRegion(old(View()), dir, physAligned, flags, i)
      {
        var addr := Wrap(physAligned + i * PAGE_SIZE);
        MapPage(dir, addr, addr, flags);
      }
    }

    /** Allocate a frame and map it for user code. */
    method MapNew(dir: FrameNo, virt: u32)
      requires Valid()
      modifies `mem, pmm.bitmap, pmm`own, pmm`failed
      ensures Valid() && View() == Paging.MapNew(old(View()), dir, virt)
    {
      hide Paging.MapPage;
      var phys := AllocFrame(Page(dir, virt / PAGE_SIZE));
      MapPage(dir, virt, phys * PAGE_SIZE, Paging.USER_FLAGS);
    }

    /** `map_user_space` */
    method MapUserSpace(dir: FrameNo, code: u32, codeSize: u32, stack: u32, stackSize: u32)
      requires Valid()
      modifies `mem, pmm.bitmap, pmm`own, pmm`failed
      ensures Valid() && View() == Paging.MapUserSpace(old(View()), dir, code, codeSize, stack, stackSize)
    {
      hide Paging.MapNew;
      var codePages, stackPages := Paging.Pages(codeSize), Paging.Pages(stackSize);
      for i := 0 to codePages
        invariant Valid() && View() == Paging.MapCode(old(View()), dir, code, i)
      {
        MapNew(dir, Wrap(code + i * PAGE_SIZE));
      }
      ghost var coded := View();
      for i := 0 to stackPages
        invariant Valid() && View() == Paging.MapStack(coded, dir, stack, i)
      {
        MapNew(dir, Wrap(stack - (i + 1) * PAGE_SIZE));
      }
    }

    /** `clone_kernel_space` */
    method CloneKernelSpace(dir: FrameNo)
      modifies `mem
      ensures mem == Paging.CloneKernelSpace(old(mem), dir, kernelDir)
    {
      for i := KERNEL_PD_INDEX to ENTRIES
        invariant forall k: nat :: k < ENTRIES ==>
          Word(mem, dir, k) == Word(old(mem), if KERNEL_PD_INDEX <= k < i then kernelDir else dir, k)
        invariant forall g: FrameNo :: g != dir ==> mem[g] == old(mem)[g]
      {
        mem := SetWord(mem, dir, i, Word(mem, kernelDir, i));
      }
      SetFrameIs(old(mem), mem, dir, old(mem)[dir][..KERNEL_PD_INDEX] + old(mem)[kernelDir][KERNEL_PD_INDEX..]);
    }

    /** `copy_page` */
    method CopyPage(src: FrameNo, dst: FrameNo)
      modifies `mem
      ensures mem == SetFrame(old(mem), dst, old(mem)[src])
    {
      for i := 0 to ENTRIES
        invariant forall k: nat :: k < ENTRIES ==> Word(mem, dst, k) == Word(old(mem), if k < i then src else dst, k)
        invariant forall g: FrameNo :: g != dst ==> mem[g] == old(mem)[g]
      {
        mem := SetWord(mem, dst, i, Word(mem, src, i));
      }
      SetFrameIs(old(mem), mem, dst, old(mem)[src]);
    }

    /** One pass of the inner loop of `copy_addr_space`. */
    method CopyEntry(srcTable: FrameNo, dstTable: FrameNo, ghost dst: FrameNo, ghost index: nat, k: nat)
      requires Valid() && index < KERNEL_PD_INDEX && k < ENTRIES
      modifies `mem, pmm.bitmap, pmm`own, pmm`failed
      ensures Valid() && View() == Paging.CopyPage(old(View()), srcTable, dstTable, dst, index, k)
    {
      var pte := Word(mem, srcTable, k);
      if Present(pte) {
        var page := AllocFrame(Page(dst, index * ENTRIES + k));
        CopyPage(FrameOf(pte), page);
        mem := SetWord(mem, dstTable, k, TableEntry(page));
      }
    }

    /** One pass of the outer loop of `copy_addr_space`. */
    method CopyTable(src: FrameNo, dst: FrameNo, index: nat)
      requires Valid() && index < KERNEL_PD_INDEX
      modifies `mem, pmm.bitmap, pmm`own, pmm`failed
      ensures Valid() && View() == Paging.CopyTable(old(View()), src, dst, index)
    {
      hide Paging.CopyPage;
      var pde := Word(mem, src, index);
      if !Present(pde) { return; }
      var srcTable := FrameOf(pde);
      var dstTable := CreatePageTable(Table(dst, index));
      mem := SetWord(mem, dst, index, TableEntry(dstTable));
      ghost var start := View();
      for k := 0 to ENTRIES
        invariant Valid() && View() == Paging.CopyPages(start, srcTable, dstTable, dst, index, k)
      {
        CopyEntry(srcTable, dstTable, dst, index, k);
      }
    }

    /** `copy_addr_space` */
    method CopyAddrSpace(src: FrameNo, dst: FrameNo)
      requires Valid()
      modifies `mem, pmm.bitmap, pmm`own, pmm`failed
      ensures Valid() && View() == Paging.CopyAddrSpace(old(View()), src, dst, KERNEL_PD_INDEX)
    {
      hide Paging.CopyTable;
      for i := 0 to KERNEL_PD_INDEX
        invariant Valid() && View() == Paging.CopyAddrSpace(old(View()), src, dst, i)
      {
        CopyTable(src, dst, i);
      }
    }

    /** `init_pages` */
    method InitPages()
      requires Valid()
      modifies this, pmm.bitmap, pmm`own, pmm`failed
      ensures Valid() && Paging.Fresh(View(), kernelDir) == Paging.InitPages(old(View()))
    {
      hide Paging.MapPage;
      kernelDir := CreatePageTable(Directory);
      ghost var start := View();
      var addr := 0;
      ghost var n := 0;
      while addr < Paging.IDENTITY_BYTES
        invariant n <= Paging.IDENTITY_BYTES / PAGE_SIZE && addr == n * PAGE_SIZE
        invariant Valid() && View() == Paging.MapRegion(start, kernelDir, 0, 2, n)
        decreases Paging.IDENTITY_BYTES - addr
        modifies `mem, pmm.bitmap, pmm`own, pmm`failed
      {
        MapPage(kernelDir, addr, addr, 2);
        addr, n := addr + PAGE_SIZE, n + 1;
      }
    }

    /** The paging part of `create_process`: directory, kernel half, stack page. */
    method BuildSpace() returns (dir: FrameNo)
      requires Valid()
      modifies `mem, pmm.bitmap, pmm`own, pmm`failed
      ensures Valid() && Paging.Fresh(View(), dir) == NewSpace.BuildSpace(old(View()), kernelDir)
    {
      hide Paging.MapPage;
      dir := AllocFrame(Directory);
      ClearPage(dir);
      CloneKernelSpace(dir);
      var stack := AllocFrame(Page(dir, NewSpace.STACK_PAGE));
      MapPage(dir, NewSpace.STACK_ADDRESS, stack * PAGE_SIZE, NewSpace.STACK_FLAGS);
      ClearPage(stack);
    }
  }
}
