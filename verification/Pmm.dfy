/** The physical page allocator: a bitmap with one bit per page below 4 GiB, built from the boot loader's
    memory map (Multiboot Specification 0.6.96, section 3.3). */
module Pmm {
  import opened Words
  import opened Frames

  const MAX_MEM_BLOCKS := 256
  const MULTIBOOT_MAGIC := 0x2BADB002
  const MAGIC_INVALID := -1
  const MEMMAP_INVALID := -2
  const AVAILABLE := 1
  const BITMAP_START := 0x10_0000
  const BITMAP_BYTES := 0x2_0000
  const VGA_ADDRESS := 0xB_8000
  const GIB4 := 0x1_0000_0000
  const U64_LIMIT := 0x1_0000_0000_0000_0000

  type u64 = x: int | 0 <= x < 0x1_0000_0000_0000_0000

  /** One entry of the boot loader's map, and the block kept from it. */
  datatype MapEntry = MapEntry(addr: u64, len: u64, kind: u32)
  datatype MemoryBlock = MemoryBlock(begin: u32, end: u32)

  // ----- Bits -----

  function Bit(k: nat): bv8
    requires k < 8
  {
    1 << k
  }

  predicate IsSet(b: bv8, k: nat)
    requires k < 8
  {
    b & Bit(k) != 0
  }

  /** Two different bits of a byte do not overlap. */
  lemma BitsDisjoint(k: nat, j: nat)
    requires k < 8 && j < 8
    ensures Bit(k) & Bit(j) == (if k == j then Bit(k) else 0)
    ensures Bit(k) != 0
  {}

  lemma SetBit(b: bv8, k: nat, j: nat)
    requires k < 8 && j < 8
    ensures IsSet(b | Bit(k), j) <==> IsSet(b, j) || j == k
  {}

  lemma ClearBit(b: bv8, k: nat, j: nat)
    requires k < 8 && j < 8
    ensures IsSet(b & !Bit(k), j) <==> IsSet(b, j) && j != k
  {
    BitsDisjoint(k, j);
    var x, y := Bit(k), Bit(j);
    if k == j {
      assert (b & !x) & x == 0;
    } else {
      assert x & y == 0 ==> (b & !x) & y == b & y;
    }
  }

  lemma AllOnes(k: nat)
    requires k < 8
    ensures IsSet(0xFF, k)
  {}

  type Bitmap = b: seq<bv8> | |b| == BITMAP_BYTES witness seq(BITMAP_BYTES, i => 0)

  /** The bit of a page: set means in use. */
  predicate Used(bitmap: Bitmap, page: FrameNo) {
    IsSet(bitmap[page / 8], page % 8)
  }

  // ----- The memory map -----

  /** The block kept from an entry: clamped at 4 GiB, where the end truncates to 0. */
  function KeptBlock(e: MapEntry): (b: Option<MemoryBlock>) {
    var end := (e.addr + e.len) % U64_LIMIT;
    if e.kind == AVAILABLE && e.addr < GIB4 then
      Some(MemoryBlock(e.addr, Wrap(if end > GIB4 then GIB4 else end)))
    else
      None
  }

  function KeptBlocks(entries: seq<MapEntry>): (blocks: seq<MemoryBlock>)
    ensures |blocks| <= MAX_MEM_BLOCKS
  {
    if entries == [] then []
    else
      var before := KeptBlocks(entries[..|entries| - 1]);
      match KeptBlock(entries[|entries| - 1])
      case Some(b) => if |before| < MAX_MEM_BLOCKS then before + [b] else before
      case None => before
  }

  /** The blocks the allocator works from: none when the boot information is refused. */
  function MemoryMap(magic: u32, hasMap: bool, entries: seq<MapEntry>): seq<MemoryBlock> {
    if magic == MULTIBOOT_MAGIC && hasMap then KeptBlocks(entries) else []
  }

  function BlockPages(b: MemoryBlock): nat {
    Wrap(b.end - b.begin) / PAGE_SIZE
  }

  function TotalPages(blocks: seq<MemoryBlock>): nat {
    if blocks == [] then 0 else TotalPages(blocks[..|blocks| - 1]) + BlockPages(blocks[|blocks| - 1])
  }

  /** The k-th address of the loop `for (addr = begin; addr < end; addr += PAGE_SIZE)`. */
  function LoopAddress(begin: u32, k: nat): u32 {
    Wrap(begin + k * PAGE_SIZE)
  }

  /** The loop ends before its 32-bit counter wraps. */
  predicate LoopEnds(begin: u32, end: u32) {
    end <= WORD_LIMIT - PAGE_SIZE + begin % PAGE_SIZE
  }

  /** Exactly when the loop ends at all: otherwise every address it ever reaches is below `end`. */
  lemma LoopEndsIff(begin: u32, end: u32)
    ensures LoopEnds(begin, end) <==> exists k: nat :: LoopAddress(begin, k) >= end
  {
    if LoopEnds(begin, end) {
      var k := (WORD_LIMIT - PAGE_SIZE + begin % PAGE_SIZE - begin) / PAGE_SIZE;
      assert LoopAddress(begin, k) >= end;
    } else {
      forall k: nat ensures LoopAddress(begin, k) < end {
        assert LoopAddress(begin, k) % PAGE_SIZE == begin % PAGE_SIZE;
      }
    }
  }

  /** A block of which the loop never leaves: page-aligned and ending in the last page. */
  lemma LoopMayNotEnd()
    ensures !LoopEnds(0xFFFF_0000, 0xFFFF_FFFF)
    ensures forall k: nat :: LoopAddress(0xFFFF_0000, k) < 0xFFFF_FFFF
  {
    LoopEndsIff(0xFFFF_0000, 0xFFFF_FFFF);
  }

  /** The loop over [begin, end) visits an address of the page. */
  predicate Visits(begin: u32, end: u32, page: FrameNo) {
    begin / PAGE_SIZE <= page && page * PAGE_SIZE + begin % PAGE_SIZE < end
  }

  lemma VisitsIff(begin: u32, end: u32, page: FrameNo)
    requires LoopEnds(begin, end)
    ensures Visits(begin, end, page) <==>
      exists k: nat :: begin + k * PAGE_SIZE < end && LoopAddress(begin, k) / PAGE_SIZE == page
  {
    if Visits(begin, end, page) {
      var k := page - begin / PAGE_SIZE;
      assert begin + k * PAGE_SIZE < end && LoopAddress(begin, k) / PAGE_SIZE == page;
    }
  }

  /** For a page-aligned start the visited pages are exactly those overlapping [begin, end). */
  lemma AlignedVisits(begin: u32, end: u32, page: FrameNo)
    requires begin % PAGE_SIZE == 0
    ensures Visits(begin, end, page) <==> page * PAGE_SIZE < end && begin < page * PAGE_SIZE + PAGE_SIZE
  {}

  /** Some usable block frees the page. */
  predicate Marked(blocks: seq<MemoryBlock>, page: FrameNo) {
    exists i :: 0 <= i < |blocks| && Visits(blocks[i].begin, blocks[i].end, page)
  }

  function BitmapSize(totalPages: nat): nat {
    (totalPages + 7) / 8
  }

  /** The pages taken back after the blocks were freed: kernel image, bitmap and text screen. */
  predicate Reserved(kernelStart: u32, kernelEnd: u32, totalPages: nat, page: FrameNo) {
    || (page * PAGE_SIZE < kernelEnd && kernelStart < page * PAGE_SIZE + PAGE_SIZE)
    || (page * PAGE_SIZE < BITMAP_START + BitmapSize(totalPages) && BITMAP_START < page * PAGE_SIZE + PAGE_SIZE)
    || page == VGA_ADDRESS / PAGE_SIZE
  }

  /** The map is one the initialisation can finish on: every loop ends, and the bitmap fits its area. */
  predicate Bootable(blocks: seq<MemoryBlock>, kernelStart: u32, kernelEnd: u32) {
    && (forall i :: 0 <= i < |blocks| ==> LoopEnds(blocks[i].begin, blocks[i].end))
    && TotalPages(blocks) <= FRAME_COUNT
    && kernelStart % PAGE_SIZE == 0
    && LoopEnds(kernelStart, kernelEnd)
  }

  /** What the allocator's free bits are after initialisation, for the pages it will ever look at. */
  predicate IsInitialBitmap(bitmap: Bitmap, blocks: seq<MemoryBlock>, kernelStart: u32, kernelEnd: u32) {
    forall page: FrameNo :: page < TotalPages(blocks) ==>
      (!Used(bitmap, page) <==>
       Marked(blocks, page) && !Reserved(kernelStart, kernelEnd, TotalPages(blocks), page))
  }

  lemma MarkedStep(blocks: seq<MemoryBlock>, i: nat, p: FrameNo)
    requires i < |blocks|
    ensures Marked(blocks[..i + 1], p) <==> Marked(blocks[..i], p) || Visits(blocks[i].begin, blocks[i].end, p)
  {}

  lemma {:induction false} TotalPagesMonotone(blocks: seq<MemoryBlock>, i: nat)
    requires i <= |blocks|
    ensures TotalPages(blocks[..i]) <= TotalPages(blocks)
    decreases |blocks| - i
  {
    if i < |blocks| {
      TotalPagesMonotone(blocks, i + 1);
      assert blocks[..i + 1][..i] == blocks[..i];
    } else {
      assert blocks[..i] == blocks;
    }
  }

  class PageAllocator {
    const bitmap: array<bv8>
    var bitmapSize: u32
    var totalPages: u32
    var memMap: seq<MemoryBlock>
    ghost var own: map<FrameNo, Owner>
    ghost var failed: bool

    ghost predicate Valid()
      reads this
    {
      bitmap.Length == BITMAP_BYTES && totalPages <= FRAME_COUNT
    }

    ghost function Bits(): Bitmap
      requires Valid()
      reads this, bitmap
    {
      bitmap[..]
    }

    ghost function FreeSet(): (s: set<FrameNo>)
      requires Valid()
      reads this, bitmap
      ensures forall p: FrameNo :: p in s <==> p < totalPages && !Used(Bits(), p)
    {
      set p: FrameNo | p < totalPages && !Used(Bits(), p)
    }

    ghost function View(): Pool
      requires Valid()
      reads this, bitmap
    {
      Pool(FreeSet(), own, failed)
    }

    /** Before initialisation the bytes of the bitmap area are arbitrary. */
    constructor (initial: seq<bv8>)
      requires |initial| == BITMAP_BYTES
      ensures Valid() && fresh(bitmap) && totalPages == 0 && memMap == []
      ensures own == map[] && !failed
    {
      bitmap := new bv8[BITMAP_BYTES](i requires 0 <= i < BITMAP_BYTES => initial[i]);
      bitmapSize, totalPages, memMap := 0, 0, [];
      own, failed := map[], false;
    }

    method MarkUsed(addr: u32)
      requires Valid()
      modifies bitmap
      ensures forall p: FrameNo :: Used(Bits(), p) <==> old(Used(Bits(), p)) || p == addr / PAGE_SIZE
    {
      var page := addr / PAGE_SIZE;
      ghost var was := bitmap[page / 8];
      bitmap[page / 8] := bitmap[page / 8] | Bit(page % 8);
      forall p: FrameNo ensures Used(Bits(), p) <==> old(Used(Bits(), p)) || p == page {
        if p / 8 == page / 8 { SetBit(was, page % 8, p % 8); }
      }
    }

    method MarkFree(addr: u32)
      requires Valid()
      modifies bitmap
      ensures forall p: FrameNo :: Used(Bits(), p) <==> old(Used(Bits(), p)) && p != addr / PAGE_SIZE
    {
      var page := addr / PAGE_SIZE;
      ghost var was := bitmap[page / 8];
      bitmap[page / 8] := bitmap[page / 8] & !Bit(page % 8);
      forall p: FrameNo ensures Used(Bits(), p) <==> old(Used(Bits(), p)) && p != page {
        if p / 8 == page / 8 { ClearBit(was, page % 8, p % 8); }
      }
    }

    /** The first free page, or NULL; either way the pool changes as `Take` says. */
    method AllocPage(ghost purpose: Owner) returns (addr: u32)
      requires Valid()
      modifies bitmap, `own, `failed
      ensures Valid()
      ensures Taken(View(), addr / PAGE_SIZE) == Take(old(View()), purpose)
      ensures addr % PAGE_SIZE == 0
      ensures forall p: FrameNo :: p >= totalPages ==> (Used(Bits(), p) <==> old(Used(Bits(), p)))
    {
      var i := 0;
      while i < totalPages
        invariant 0 <= i <= totalPages
        invariant forall p: FrameNo :: p < i ==> Used(Bits(), p)
        invariant bitmap[..] == old(bitmap[..])
      {
        if !IsSet(bitmap[i / 8], i % 8) {
          ghost var free := FreeSet();
          assert i in free;
          assert Lowest(free) == i;
          MarkUsed(i * PAGE_SIZE);
          own := own[i := purpose];
          assert FreeSet() == free - {i};
          return i * PAGE_SIZE;
        }
        i := i + 1;
      }
      assert old(FreeSet()) == {} by {
        assert forall p: FrameNo :: p < totalPages ==> Used(old(Bits()), p);
      }
      failed := true;
      assert FreeSet() == {};
      return 0;
    }

    method ReserveKernel(kernelStart: u32, kernelEnd: u32)
      requires Valid() && kernelStart % PAGE_SIZE == 0 && LoopEnds(kernelStart, kernelEnd)
      modifies bitmap
      ensures forall p: FrameNo ::
        Used(Bits(), p) <==> old(Used(Bits(), p)) || Visits(kernelStart, kernelEnd, p)
    {
      var addr := kernelStart;
      while addr < kernelEnd
        invariant kernelStart <= addr && addr % PAGE_SIZE == 0
        invariant forall p: FrameNo :: Used(Bits(), p) <==>
          old(Used(Bits(), p)) || (kernelStart / PAGE_SIZE <= p < addr / PAGE_SIZE)
        invariant addr < kernelEnd + PAGE_SIZE || addr == kernelStart
        decreases kernelEnd - addr
      {
        MarkUsed(addr);
        addr := Wrap(addr + PAGE_SIZE);
      }
    }

    method ReserveBitmap()
      requires Valid() && bitmapSize <= BITMAP_BYTES
      modifies bitmap
      ensures forall p: FrameNo ::
        Used(Bits(), p) <==>
        (old(Used(Bits(), p)) ||
         (p * PAGE_SIZE < BITMAP_START + bitmapSize && BITMAP_START < p * PAGE_SIZE + PAGE_SIZE))
    {
      var addr, end := BITMAP_START, BITMAP_START + bitmapSize;
      while addr < end
        invariant BITMAP_START <= addr < end + PAGE_SIZE && addr % PAGE_SIZE == 0
        invariant forall p: FrameNo :: Used(Bits(), p) <==>
          old(Used(Bits(), p)) || (BITMAP_START / PAGE_SIZE <= p < addr / PAGE_SIZE)
        decreases end - addr
      {
        MarkUsed(addr);
        addr := addr + PAGE_SIZE;
      }
    }

    method GetMemmap(magic: u32, hasMap: bool, entries: seq<MapEntry>) returns (code: int)
      requires memMap == []
      modifies `memMap
      ensures memMap == MemoryMap(magic, hasMap, entries)
      ensures code == if magic != 0x2BADB002 then -1 else if !hasMap then -2 else 0
      ensures code != 0 ==> memMap == []
    {
      if magic != MULTIBOOT_MAGIC { return MAGIC_INVALID; }
      if !hasMap { return MEMMAP_INVALID; }
      for i := 0 to |entries|
        invariant memMap == KeptBlocks(entries[..i])
      {
        var e := entries[i];
        assert entries[..i + 1][..i] == entries[..i];
        if e.kind == AVAILABLE && |memMap| < MAX_MEM_BLOCKS {
          var end := (e.addr + e.len) % U64_LIMIT;
          if e.addr < GIB4 {
            if end > GIB4 { end := GIB4; }
            memMap := memMap + [MemoryBlock(e.addr, Wrap(end))];
          }
        }
      }
      assert entries[..|entries|] == entries;
      return 0;
    }

    method FillBitmap(size: nat)
      requires Valid() && size <= BITMAP_BYTES
      modifies bitmap
      ensures forall p: FrameNo :: p / 8 < size ==> Used(Bits(), p)
    {
      for i := 0 to size
        invariant forall k :: 0 <= k < i ==> bitmap[k] == 0xFF
      {
        bitmap[i] := 0xFF;
      }
      forall p: FrameNo | p / 8 < size ensures Used(Bits(), p) {
        AllOnes(p % 8);
      }
    }

    /** Mark the pages of one usable block free. */
    method FreeBlock(b: MemoryBlock)
      requires Valid() && LoopEnds(b.begin, b.end)
      modifies bitmap
      ensures forall p: FrameNo :: Used(Bits(), p) <==> old(Used(Bits(), p)) && !Visits(b.begin, b.end, p)
    {
      var addr := b.begin;
      while addr < b.end
        invariant b.begin <= addr && addr % PAGE_SIZE == b.begin % PAGE_SIZE
        invariant addr < b.end + PAGE_SIZE || addr == b.begin
        invariant forall p: FrameNo :: Used(Bits(), p) <==>
          old(Used(Bits(), p)) && !(b.begin / PAGE_SIZE <= p < addr / PAGE_SIZE)
        decreases b.end - addr
      {
        MarkFree(addr);
        addr := Wrap(addr + PAGE_SIZE);
      }
    }

    /** First loop of the initialisation: add up the pages of the blocks. */
    method CountPages()
      requires Valid() && totalPages == 0 && TotalPages(memMap) <= FRAME_COUNT
      modifies `totalPages
      ensures totalPages == TotalPages(memMap)
    {
      for i := 0 to |memMap|
        invariant totalPages == TotalPages(memMap[..i])
      {
        TotalPagesMonotone(memMap, i + 1);
        assert memMap[..i + 1][..i] == memMap[..i];
        totalPages := Wrap(totalPages + Wrap(memMap[i].end - memMap[i].begin) / PAGE_SIZE);
      }
      assert memMap[..|memMap|] == memMap;
    }

    /** Second loop: free what the blocks cover. */
    method FreeBlocks()
      requires Valid()
      requires forall i :: 0 <= i < |memMap| ==> LoopEnds(memMap[i].begin, memMap[i].end)
      modifies bitmap
      ensures forall p: FrameNo :: Used(Bits(), p) <==> old(Used(Bits(), p)) && !Marked(memMap, p)
    {
      for i := 0 to |memMap|
        invariant forall p: FrameNo :: Used(Bits(), p) <==> old(Used(Bits(), p)) && !Marked(memMap[..i], p)
      {
        FreeBlock(memMap[i]);
        forall p: FrameNo
          ensures Marked(memMap[..i + 1], p) <==>
            Marked(memMap[..i], p) || Visits(memMap[i].begin, memMap[i].end, p)
        {
          MarkedStep(memMap, i, p);
        }
      }
      assert memMap[..|memMap|] == memMap;
    }

    /** Build the bitmap.  The result of `GetMemmap` is ignored, as in the kernel: a refused map leaves
        no usable block and an empty pool. */
    method Init(magic: u32, hasMap: bool, entries: seq<MapEntry>, kernelStart: u32, kernelEnd: u32)
      requires Valid() && memMap == [] && totalPages == 0
      requires Bootable(MemoryMap(magic, hasMap, entries), kernelStart, kernelEnd)
      modifies this, bitmap
      ensures Valid() && own == old(own) && failed == old(failed)
      ensures memMap == MemoryMap(magic, hasMap, entries) && totalPages == TotalPages(memMap)
      ensures IsInitialBitmap(Bits(), memMap, kernelStart, kernelEnd)
    {
      var _ := GetMemmap(magic, hasMap, entries);
      CountPages();
      bitmapSize := (totalPages + 7) / 8;
      FillBitmap(bitmapSize);
      FreeBlocks();
      ReserveKernel(kernelStart, kernelEnd);
      ReserveBitmap();
      MarkUsed(VGA_ADDRESS);
      forall p: FrameNo
        ensures Visits(kernelStart, kernelEnd, p) <==>
          p * PAGE_SIZE < kernelEnd && kernelStart < p * PAGE_SIZE + PAGE_SIZE
      {
        AlignedVisits(kernelStart, kernelEnd, p);
      }
    }
  }
}
