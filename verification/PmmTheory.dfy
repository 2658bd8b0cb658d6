/** What follows from the initial bitmap: a map of disjoint blocks always fits the bitmap area, and the
    pages the allocator may hand out hold neither the kernel, nor the bits it reads, nor the screen. */
module PmmTheory {
  import opened Words
  import opened Pmm

  /** The bytes of a block: an end of 0 stands for 4 GiB. */
  function Cells(b: MemoryBlock): set<int> {
    Interval(b.begin, b.begin + Wrap(b.end - b.begin))
  }

  function Interval(lo: int, hi: int): set<int> {
    set x: int | lo <= x < hi && Within(x, lo, hi)
  }

  predicate Within(x: int, lo: int, hi: int) {
    lo <= x < hi
  }

  function AllCells(blocks: seq<MemoryBlock>): set<int> {
    if blocks == [] then {} else AllCells(blocks[..|blocks| - 1]) + Cells(blocks[|blocks| - 1])
  }

  predicate DisjointBlocks(blocks: seq<MemoryBlock>) {
    && (forall i :: 0 <= i < |blocks| ==> blocks[i].begin <= blocks[i].end || blocks[i].end == 0)
    && (forall i, j :: 0 <= i < j < |blocks| ==> Cells(blocks[i]) !! Cells(blocks[j]))
  }

  lemma {:induction false} IntervalSize(lo: int, hi: int)
    requires lo <= hi
    ensures |Interval(lo, hi)| == hi - lo
    decreases hi - lo
  {
    if lo < hi {
      IntervalSize(lo, hi - 1);
      assert Interval(lo, hi) == Interval(lo, hi - 1) + {hi - 1};
    }
  }

  lemma {:induction false} CellsComeFromBlocks(blocks: seq<MemoryBlock>, x: int)
    requires x in AllCells(blocks)
    ensures exists i :: 0 <= i < |blocks| && x in Cells(blocks[i])
    decreases |blocks|
  {
    var n := |blocks| - 1;
    if x in Cells(blocks[n]) {
    } else {
      CellsComeFromBlocks(blocks[..n], x);
      var i :| 0 <= i < n && x in Cells(blocks[..n][i]);
      assert x in Cells(blocks[i]);
    }
  }

  lemma AllCellsInRange(blocks: seq<MemoryBlock>)
    requires DisjointBlocks(blocks)
    ensures AllCells(blocks) <= Interval(0, WORD_LIMIT)
  {}

  lemma {:induction false} AllCellsSize(blocks: seq<MemoryBlock>)
    requires DisjointBlocks(blocks)
    ensures PAGE_SIZE * TotalPages(blocks) <= |AllCells(blocks)|
    decreases |blocks|
  {
    if blocks != [] {
      var init, last := blocks[..|blocks| - 1], blocks[|blocks| - 1];
      InitDisjoint(blocks);
      AllCellsSize(init);
      BlockSize(last);
      UnionSize(AllCells(init), Cells(last));
    }
  }

  lemma BlockSize(b: MemoryBlock)
    ensures PAGE_SIZE * BlockPages(b) <= |Cells(b)|
  {
    IntervalSize(b.begin, b.begin + Wrap(b.end - b.begin));
  }

  lemma UnionSize(a: set<int>, b: set<int>)
    requires a !! b
    ensures |a + b| == |a| + |b|
  {}

  lemma InitDisjoint(blocks: seq<MemoryBlock>)
    requires DisjointBlocks(blocks) && blocks != []
    ensures DisjointBlocks(blocks[..|blocks| - 1])
    ensures AllCells(blocks[..|blocks| - 1]) !! Cells(blocks[|blocks| - 1])
  {
    var n := |blocks| - 1;
    var init := blocks[..n];
    var a, b := AllCells(init), Cells(blocks[n]);
    forall x | x in a ensures x !in b {
      CellsComeFromBlocks(init, x);
      var i :| 0 <= i < n && x in Cells(init[i]);
      assert Cells(blocks[i]) !! Cells(blocks[n]);
    }
    assert a !! b;
  }

  lemma {:induction false} SubsetSize(a: set<int>, b: set<int>)
    requires a <= b
    ensures |a| <= |b|
  {
    assert b == a + (b - a);
  }

  /** Disjoint blocks never add up to more pages than the bitmap area has bits. */
  lemma DisjointBlocksFit(blocks: seq<MemoryBlock>)
    requires DisjointBlocks(blocks)
    ensures TotalPages(blocks) <= FRAME_COUNT && BitmapSize(TotalPages(blocks)) <= BITMAP_BYTES
  {
    AllCellsSize(blocks);
    AllCellsInRange(blocks);
    IntervalSize(0, WORD_LIMIT);
    SubsetSize(AllCells(blocks), Interval(0, WORD_LIMIT));
  }

  /** Every page freed for the map has, at its visited address, a byte of an available entry. */
  lemma {:induction false} MarkedPagesAreUsable(entries: seq<MapEntry>, page: FrameNo)
    requires Marked(KeptBlocks(entries), page)
    ensures exists i, a :: 0 <= i < |entries| && UsableByte(entries[i], a) && a / PAGE_SIZE == page
  {
    MarkedIff(entries, page);
    var i :| 0 <= i < |entries| && KeptAt(entries, i) && Frees(entries[i], page);
    var a := page * PAGE_SIZE + entries[i].addr % PAGE_SIZE;
    assert UsableByte(entries[i], a) && a / PAGE_SIZE == page;
  }

  predicate UsableByte(e: MapEntry, a: int) {
    e.kind == 1 && e.addr <= a < e.addr + e.len
  }

  /** A page is freed exactly if some available entry that ends below 4 GiB, and is not among those dropped
      because the table of 256 blocks was full, has a byte at the address the loop would visit in that page. */
  lemma {:induction false} MarkedIff(entries: seq<MapEntry>, page: FrameNo)
    ensures Marked(KeptBlocks(entries), page) <==> SomeFrees(entries, page)
    decreases |entries|
  {
    hide Frees, Visits, Marked, SomeFrees, KeptBlock;
    if entries == [] {
      NoneFrees(page);
    } else {
      var n := |entries| - 1;
      var init, last := entries[..n], entries[n];
      MarkedIff(init, page);
      EntryFrees(last, page);
      SomeFreesStep(entries, page);
      if KeptAt(entries, n) && KeptBlock(last).Some? { MarkedAppend(KeptBlocks(init), KeptBlock(last).value, page); }
    }
  }

  predicate SomeFrees(entries: seq<MapEntry>, page: FrameNo) {
    exists i :: 0 <= i < |entries| && KeptAt(entries, i) && Frees(entries[i], page)
  }

  lemma NoneFrees(page: FrameNo)
    ensures !Marked([], page) && !SomeFrees([], page)
  {}

  lemma SomeFreesStep(entries: seq<MapEntry>, page: FrameNo)
    requires entries != []
    ensures var n := |entries| - 1;
      SomeFrees(entries, page) <==> SomeFrees(entries[..n], page) || (KeptAt(entries, n) && Frees(entries[n], page))
  {
    hide KeptBlocks, Frees;
    var n := |entries| - 1;
    var init := entries[..n];
    forall i | 0 <= i < n ensures entries[i] == init[i] && (KeptAt(entries, i) <==> KeptAt(init, i)) {
      assert entries[..i] == init[..i];
    }
    if SomeFrees(init, page) {
      var i :| 0 <= i < n && KeptAt(init, i) && Frees(init[i], page);
      assert KeptAt(entries, i) && Frees(entries[i], page);
    }
  }

  /** When entry i is looked at, the block table has room. */
  predicate KeptAt(entries: seq<MapEntry>, i: nat)
    requires i < |entries|
  {
    |KeptBlocks(entries[..i])| < 256
  }

  predicate Frees(e: MapEntry, page: FrameNo) {
    UsableByte(e, page * PAGE_SIZE + e.addr % PAGE_SIZE) && e.addr + e.len < 0x1_0000_0000
  }

  lemma EntryFrees(e: MapEntry, page: FrameNo)
    ensures Frees(e, page) <==>
      KeptBlock(e).Some? && Visits(KeptBlock(e).value.begin, KeptBlock(e).value.end, page)
  {
    var end := (e.addr + e.len) % U64_LIMIT;
    assert e.addr + e.len < U64_LIMIT ==> end == e.addr + e.len;
    assert e.addr + e.len >= U64_LIMIT ==> end == e.addr + e.len - U64_LIMIT < e.addr;
  }

  lemma MarkedAppend(blocks: seq<MemoryBlock>, b: MemoryBlock, page: FrameNo)
    ensures Marked(blocks + [b], page) <==> Marked(blocks, page) || Visits(b.begin, b.end, page)
  {
    var bs := blocks + [b];
    if Visits(b.begin, b.end, page) { assert Visits(bs[|blocks|].begin, bs[|blocks|].end, page); }
    if i :| 0 <= i < |blocks| && Visits(blocks[i].begin, blocks[i].end, page) {
      assert Visits(bs[i].begin, bs[i].end, page);
    }
  }

  /** Pages are counted by size but numbered by address, so memory behind a hole is lost: every freed page
      is one the allocator will look at exactly if no block reaches past the page count. */
  lemma NothingLostIff(blocks: seq<MemoryBlock>)
    ensures (forall page: FrameNo :: Marked(blocks, page) ==> page < TotalPages(blocks))
      <==> forall i :: 0 <= i < |blocks| && blocks[i].begin < blocks[i].end ==>
             blocks[i].end <= TotalPages(blocks) * PAGE_SIZE + blocks[i].begin % PAGE_SIZE
  {
    var n := TotalPages(blocks);
    if i :| 0 <= i < |blocks| && blocks[i].begin < blocks[i].end
            && blocks[i].end > n * PAGE_SIZE + blocks[i].begin % PAGE_SIZE {
      var b := blocks[i];
      var page: FrameNo := if n >= b.begin / PAGE_SIZE then n else b.begin / PAGE_SIZE;
      assert Visits(b.begin, b.end, page);
      assert Marked(blocks, page) && page >= n;
    }
  }

  /** The usual map of a PC with its hole below 1 MiB: the last RAM pages are freed but never handed out. */
  lemma HoleLosesPages()
    ensures var blocks := [MemoryBlock(0, 0x9_F000), MemoryBlock(0x10_0000, 0x800_0000)];
      TotalPages(blocks) == 0x7F9F && Marked(blocks, 0x7FFF)
  {
    var blocks := [MemoryBlock(0, 0x9_F000), MemoryBlock(0x10_0000, 0x800_0000)];
    assert blocks[..1] == [blocks[0]] && blocks[..1][..0] == [];
    assert TotalPages(blocks[..1]) == 0x9F;
    assert Visits(blocks[1].begin, blocks[1].end, 0x7FFF);
  }

  /** All bytes of the page are in the entry. */
  ghost predicate Whole(e: MapEntry, page: FrameNo) {
    forall a: int :: a / PAGE_SIZE == page ==> UsableByte(e, a)
  }

  /** A freed page need not be memory as a whole.  All pages freed for an entry are, exactly if the entry frees
      none or starts and ends on a page boundary. */
  lemma FreedPagesAreWholeIff(e: MapEntry)
    ensures (forall page: FrameNo :: Frees(e, page) ==> Whole(e, page)) <==>
      || e.kind != AVAILABLE || e.len == 0 || e.addr + e.len >= GIB4
      || (e.addr % PAGE_SIZE == 0 && (e.addr + e.len) % PAGE_SIZE == 0)
  {
    if e.kind == AVAILABLE && e.len > 0 && e.addr + e.len < GIB4 {
      var first: FrameNo, last: FrameNo := e.addr / PAGE_SIZE, (e.addr + e.len) / PAGE_SIZE;
      if e.addr % PAGE_SIZE != 0 {
        var a := first * PAGE_SIZE;
        assert a / PAGE_SIZE == first && !UsableByte(e, a) && Frees(e, first);
      } else if (e.addr + e.len) % PAGE_SIZE != 0 {
        var a := last * PAGE_SIZE + PAGE_SIZE - 1;
        assert a / PAGE_SIZE == last && !UsableByte(e, a) && Frees(e, last);
      }
    }
  }

  /** The usual first entry of a PC, 0 to 0x9FC00: page 0x9F is freed although its last kilobyte is not RAM. */
  lemma PartialPageIsFreed()
    ensures KeptBlock(MapEntry(0, 0x9_FC00, AVAILABLE)) == Some(MemoryBlock(0, 0x9_FC00))
    ensures Visits(0, 0x9_FC00, 0x9F) && 0x9F * PAGE_SIZE + PAGE_SIZE > 0x9_FC00
  {}

  /** A block clamped at 4 GiB is counted in full, unless it starts at 0 and counts as nothing, and is never
      freed. */
  lemma ClampedBlockIsLost(e: MapEntry)
    requires e.kind == AVAILABLE && e.addr < GIB4 <= e.addr + e.len < U64_LIMIT
    ensures KeptBlock(e).Some? && KeptBlock(e).value.end == 0
    ensures BlockPages(KeptBlock(e).value) == if e.addr == 0 then 0 else (GIB4 - e.addr) / PAGE_SIZE
    ensures forall page: FrameNo :: !Visits(KeptBlock(e).value.begin, KeptBlock(e).value.end, page)
  {}

  /** The byte of the bitmap that holds the bit of page i. */
  predicate HoldsBit(a: int, i: nat) {
    a == 0x10_0000 + i / 8
  }

  /** The byte is one its page must be kept for: of the kernel image, of the text screen, or of the bitmap with the
      bit of a page counted. */
  ghost predicate KeptByte(blocks: seq<MemoryBlock>, kernelStart: u32, kernelEnd: u32, a: int) {
    || kernelStart <= a < kernelEnd
    || 0xB8000 <= a < 0xB9000
    || exists i: nat :: i < TotalPages(blocks) && HoldsBit(a, i)
  }

  lemma BitmapBytes(total: nat, a: int)
    ensures (exists i: nat :: i < total && HoldsBit(a, i)) <==> 0x10_0000 <= a < 0x10_0000 + (total + 7) / 8
  {
    if 0x10_0000 <= a < 0x10_0000 + (total + 7) / 8 {
      var i: nat := 8 * (a - 0x10_0000);
      assert i < total && HoldsBit(a, i);
    }
  }

  /** The free set, in bytes: of the pages counted, exactly those are free that some usable block visits and that
      have no byte to keep. */
  lemma FreeIff(bitmap: Bitmap, blocks: seq<MemoryBlock>, kernelStart: u32, kernelEnd: u32, page: FrameNo)
    requires Bootable(blocks, kernelStart, kernelEnd)
    requires IsInitialBitmap(bitmap, blocks, kernelStart, kernelEnd) && page < TotalPages(blocks)
    ensures !Used(bitmap, page) <==>
      Marked(blocks, page) &&
      forall a: int :: a / 4096 == page ==> !KeptByte(blocks, kernelStart, kernelEnd, a)
  {
    var total := TotalPages(blocks);
    if Reserved(kernelStart, kernelEnd, total, page) {
      var first := page * 4096;
      var a := if page == 0xB8 then first
               else if first < kernelEnd && kernelStart < first + 4096 then
                 (if kernelStart <= first then first else kernelStart)
               else if first <= 0x10_0000 then 0x10_0000
               else first;
      BitmapBytes(total, a);
      assert a / 4096 == page && KeptByte(blocks, kernelStart, kernelEnd, a);
    } else {
      forall a: int | a / 4096 == page ensures !KeptByte(blocks, kernelStart, kernelEnd, a) {
        BitmapBytes(total, a);
        assert page * 4096 <= a < page * 4096 + 4096;
      }
    }
  }

  /** A free page shares no byte with the kernel image, the text screen, or any bitmap byte that an
      allocation looks at; and all bits looked at lie inside the bitmap area. */
  lemma FreePagesAreSafe(bitmap: Bitmap, blocks: seq<MemoryBlock>, kernelStart: u32, kernelEnd: u32,
                         page: FrameNo, address: int, i: nat)
    requires Bootable(blocks, kernelStart, kernelEnd)
    requires IsInitialBitmap(bitmap, blocks, kernelStart, kernelEnd)
    requires page < TotalPages(blocks) && !Used(bitmap, page)
    requires page * PAGE_SIZE <= address < page * PAGE_SIZE + PAGE_SIZE
    ensures Marked(blocks, page)
    ensures !(kernelStart <= address < kernelEnd)
    ensures !(0xB8000 <= address < 0xB9000)
    ensures i < TotalPages(blocks) ==> address != 0x10_0000 + i / 8 && i / 8 < 0x2_0000
  {}
}
