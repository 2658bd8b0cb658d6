/** From the boot loader's memory map to user processes: what the layers give together. */
module WholeStack {
  import opened Words
  import opened Memory
  import opened Frames
  import opened Pmm
  import Paging
  import HeapGrowth
  import opened System
  import SystemRuns
  import Kernel
  import Mmu
  import KernelHeap

  /** The pages an allocator with this bitmap has to give. */
  function FreePages(bitmap: Bitmap, totalPages: nat): set<FrameNo> {
    set p: FrameNo | p < totalPages && !Used(bitmap, p)
  }

  /** Whatever the system does after boot, no page that shares a byte with the kernel image, the text screen or
      the bitmap bits in use is ever written by the frame users; and no process ever maps one of them. */
  lemma KernelMemoryIsSafe(bitmap: Bitmap, blocks: seq<MemoryBlock>, kernelStart: u32, kernelEnd: u32,
                           mem: Mem, es: seq<Event>, page: FrameNo)
    requires Bootable(blocks, kernelStart, kernelEnd)
    requires IsInitialBitmap(bitmap, blocks, kernelStart, kernelEnd)
    requires var free := FreePages(bitmap, TotalPages(blocks));
      |free| >= 4 && !Run(Boot(mem, free), es).m.pool.failed
    requires Reserved(kernelStart, kernelEnd, TotalPages(blocks), page)
    ensures var s := Run(Boot(mem, FreePages(bitmap, TotalPages(blocks))), es);
      && s.m.mem[page] == mem[page]
      && (forall i, v: FrameNo :: 0 <= i < |s.procs| && v < USER_PAGES && Walk(s.m.mem, s.procs[i].dir, v).Some? ==>
            FrameOf(Walk(s.m.mem, s.procs[i].dir, v).value) != page)
  {
    hide Run, Boot, Reserved;
    var free := FreePages(bitmap, TotalPages(blocks));
    assert page !in free;
    var s := Run(Boot(mem, free), es);
    SystemRuns.ReservedFramesUntouched(mem, free, es, page);
    forall i, v: FrameNo | 0 <= i < |s.procs| && v < USER_PAGES && Walk(s.m.mem, s.procs[i].dir, v).Some?
      ensures FrameOf(Walk(s.m.mem, s.procs[i].dir, v).value) != page
    {
      SystemRuns.UserFramesWereFree(mem, free, es, i, v);
    }
  }

  /** `pmm_init` leaves the pool the runs are about. */
  method BootAllocator(initial: seq<bv8>, magic: u32, hasMap: bool, entries: seq<MapEntry>,
                       kernelStart: u32, kernelEnd: u32) returns (pmm: PageAllocator, ghost bits: Bitmap)
    requires |initial| == BITMAP_BYTES && Bootable(MemoryMap(magic, hasMap, entries), kernelStart, kernelEnd)
    ensures fresh(pmm) && fresh(pmm.bitmap) && pmm.Valid()
    ensures var blocks := MemoryMap(magic, hasMap, entries);
      && IsInitialBitmap(bits, blocks, kernelStart, kernelEnd)
      && pmm.View() == Pool(FreePages(bits, TotalPages(blocks)), map[], false)
  {
    hide IsInitialBitmap, MemoryMap, TotalPages, Bootable;
    pmm := new PageAllocator(initial);
    pmm.Init(magic, hasMap, entries, kernelStart, kernelEnd);
    bits := pmm.Bits();
  }

  /** `init_pages` and then `heap_init`. */
  method BootMemory(pmm: PageAllocator, mem: Mem) returns (mmu: Mmu.Mmu, heap: KernelHeap.KernelHeap)
    requires pmm.Valid()
    modifies pmm, pmm.bitmap
    ensures pmm.Valid() && mmu.pmm == pmm && heap.Valid() && heap.EndListed()
    ensures var a := Paging.InitPages(Machine(mem, old(pmm.View())));
      && mmu.mem == a.m.mem && mmu.kernelDir == a.frame
      && HeapGrowth.Given(heap.View(), pmm.View(), None) == HeapGrowth.HeapInit(a.m.pool)
  {
    hide Paging.InitPages, PageAllocator.View, HeapGrowth.HeapInit;
    mmu := new Mmu.Mmu(pmm, mem);
    mmu.InitPages();
    heap := new KernelHeap.KernelHeap();
    heap.Init(pmm);
  }

  /** Boot, from the allocator's arbitrary memory on: the classes arrive where the runs start. */
  method BootKernel(initial: seq<bv8>, mem: Mem, magic: u32, hasMap: bool, entries: seq<MapEntry>,
                    kernelStart: u32, kernelEnd: u32) returns (k: Kernel.Kernel, ghost bits: Bitmap)
    requires |initial| == BITMAP_BYTES && Bootable(MemoryMap(magic, hasMap, entries), kernelStart, kernelEnd)
    ensures k.Valid() && k.heap.EndListed()
    ensures var blocks := MemoryMap(magic, hasMap, entries);
      && IsInitialBitmap(bits, blocks, kernelStart, kernelEnd)
      && k.View() == Boot(mem, FreePages(bits, TotalPages(blocks)))
  {
    hide IsInitialBitmap, MemoryMap, TotalPages, FreePages, Bootable, Paging.InitPages, HeapGrowth.HeapInit,
      PageAllocator.View, Kernel.Kernel.View, KernelHeap.KernelHeap.View, KernelHeap.KernelHeap.Valid,
      KernelHeap.KernelHeap.EndListed;
    var pmm, mmu, heap;
    pmm, bits := BootAllocator(initial, magic, hasMap, entries, kernelStart, kernelEnd);
    mmu, heap := BootMemory(pmm, mem);
    k := new Kernel.Kernel(pmm, mmu, heap);
  }
}
