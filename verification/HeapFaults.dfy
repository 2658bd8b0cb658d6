/** What goes wrong when a free does not pass the checks it should make: memory on offer that is not spare gets
    handed out, and while `heap_end` is off the list growing fails and writes into a block.  With concrete runs. */
module HeapFaults {
  import opened Words
  import opened Frames
  import opened HeapList
  import opened HeapGrowth
  import opened HeapMerging
  import opened HeapLive

  const NEXT_OFFSET := 8    // of `next` in a header

  /** A request of exactly a free block's size, when nothing before it is free. */
  lemma ExactRequest(h: Heap, p: Pool)
    requires var j := FirstFit(h.blocks, 0); j < |h.blocks| && h.blocks[j].size < WORD_LIMIT - HEADER
    ensures var j := FirstFit(h.blocks, 0);
      var taken := Block(h.blocks[j].addr, h.blocks[j].size, true);
      && Malloc(h, p, h.blocks[j].size) == Given(Heap(h.blocks[j := taken], h.end, h.limit), p, Some(taken))
      && FirstFit(h.blocks[j := taken], 0) > j
  {
    var j := FirstFit(h.blocks, 0);
    var size: u32 := h.blocks[j].size;
    assert FirstFit(h.blocks, size) == j;
    assert Place(h.blocks, j, size) == h.blocks[j := Block(h.blocks[j].addr, size, true)];
  }

  /** Some requests make malloc hand out any given free block of the list, without growing, and leave every
      block where it is. */
  lemma {:induction false} OfferedIsHandedOut(s: Session, k: nat) returns (cs: seq<Call>)
    requires k < |s.heap.blocks| && !s.heap.blocks[k].used
    requires forall i :: 0 <= i < |s.heap.blocks| ==> s.heap.blocks[i].size < WORD_LIMIT - HEADER
    ensures NoFrees(cs)
    ensures var b, r := s.heap.blocks[k], DoAll(s, cs);
      && r.pool == s.pool && r.heap.end == s.heap.end && s.handed < r.handed
      && r.handed[|r.handed| - 1] == Block(b.addr, b.size, true)
      && (forall a :: HasAddr(r.heap.blocks, a) ==> HasAddr(s.heap.blocks, a))
    decreases k - FirstFit(s.heap.blocks, 0)
  {
    hide Malloc;
    var bs := s.heap.blocks;
    var j := FirstFit(bs, 0);
    var taken := Block(bs[j].addr, bs[j].size, true);
    ExactRequest(s.heap, s.pool);
    var s1 := Session(Heap(bs[j := taken], s.heap.end, s.heap.limit), s.pool, s.handed + [taken]);
    var rest := [];
    if j < k {
      rest := OfferedIsHandedOut(s1, k);
    }
    cs := [Alloc(bs[j].size)] + rest;
    assert cs[1..] == rest;
    assert DoAll(s, cs) == DoAll(s1, rest);
    forall a | HasAddr(s1.heap.blocks, a) ensures HasAddr(bs, a) {
      var i :| 0 <= i < |bs| && s1.heap.blocks[i].addr == a;
      assert bs[i].addr == a;
    }
  }

  /** The requests end with a block that has the byte, and the byte is live already or not the heap's. */
  ghost predicate Exposed(s: Session, cs: seq<Call>, x: nat) {
    var r := DoAll(s, cs);
    && NoFrees(cs) && r.pool == s.pool && s.handed < r.handed && Inside(r.handed[|r.handed| - 1], x)
    && (LiveByte(s.handed, x) || !HeapByte(s.pool.own, x))
  }

  /** If the list offers a byte that is not spare, some requests make malloc hand it out. */
  lemma NotSpareIsHandedOut(s: Session, x: nat)
    requires forall i :: 0 <= i < |s.heap.blocks| ==> s.heap.blocks[i].size < WORD_LIMIT - HEADER
    requires FreeByte(s.heap.blocks, x) && !Spare(s.pool.own, s.handed, x)
    ensures exists cs :: Exposed(s, cs, x)
  {
    FreeByteFrom(s.heap.blocks, x);
    var k :| 0 <= k < |s.heap.blocks| && !s.heap.blocks[k].used && Inside(s.heap.blocks[k], x);
    var cs := OfferedIsHandedOut(s, k);
    assert Exposed(s, cs, x);
  }

  // ----- heap_end off the list -----

  /** The `next` field of the header at `end`, which the next growth writes, lies in the block's payload. */
  predicate LinkInPayload(b: Block, end: nat) {
    b.addr + HEADER <= end + NEXT_OFFSET && end + HEADER <= b.Limit()
  }

  /** Adjacent merges that absorb `heap_end` leave its whole header inside the payload of a free block. */
  lemma {:induction false} AbsorbedEndIsInside(bs: seq<Block>, end: nat)
    requires Ordered(bs) && NoFreeGap(bs) && !EndKept(bs, end)
    ensures exists i :: 0 <= i < |Coalesce(bs)| && !Coalesce(bs)[i].used && LinkInPayload(Coalesce(bs)[i], end)
    decreases |bs|
  {
    var e :| 0 < e < |bs| && bs[e].addr == end && !bs[e].used && !bs[e - 1].used;
    AddressesDiffer(bs, e);
    if !bs[0].used && !bs[1].used {
      var m := [Merged(bs[0], bs[1])] + bs[2..];
      MergeStep(bs);
      if e == 1 {
        CoalesceHead(m);
        CoalesceHeadFlag(m);
        assert LinkInPayload(Coalesce(m)[0], end);
      } else {
        MergedEnd(bs, end);
        AbsorbedEndIsInside(m, end);
      }
    } else {
      TailEnd(bs, end);
      AbsorbedEndIsInside(bs[1..], end);
      var c := Coalesce(bs[1..]);
      var i :| 0 <= i < |c| && !c[i].used && LinkInPayload(c[i], end);
      assert Coalesce(bs)[i + 1] == c[i];
    }
  }

  /** The requests end with a block whose payload has the link of `heap_end`, which is still not listed. */
  ghost predicate EndHandedOut(s: Session, cs: seq<Call>) {
    var r := DoAll(s, cs);
    && NoFrees(cs) && r.pool == s.pool && r.heap.end == s.heap.end && !HasAddr(r.heap.blocks, r.heap.end)
    && s.handed < r.handed && LinkInPayload(r.handed[|r.handed| - 1], r.heap.end)
  }

  /** Once `heap_end` is not listed, no growth reaches the list: a request that does not fit takes every free
      frame and fails. */
  lemma {:induction false} LostEndDrains(h: Heap, p: Pool, size: u32)
    requires !HasAddr(h.blocks, h.end) && FirstFit(h.blocks, size) == |h.blocks| && 0 !in p.free
    requires forall f: FrameNo :: f in p.free ==> !HasAddr(h.blocks, f * PAGE_SIZE)
    ensures var g := Malloc(h, p, size);
      g.block.None? && g.heap.blocks == h.blocks && g.pool.free == {} && g.pool.failed
    decreases |p.free|
  {
    if p.free != {} {
      var t := Take(p, HeapPage);
      SpliceNowhere(h.blocks, h.end, PageBlock(t.frame));
      assert |t.pool.free| < |p.free|;
      LostEndDrains(Grow(h, t.frame), t.pool, size);
    }
  }

  lemma {:induction false} SpliceNowhere(bs: seq<Block>, end: nat, b: Block)
    requires !HasAddr(bs, end)
    ensures Splice(bs, end, b) == bs
    decreases |bs|
  {
    if bs != [] {
      assert bs[0].addr != end;
      HasAddrTail(bs, end);
      SpliceNowhere(bs[1..], end, b);
    }
  }

  /** Growing works exactly while `heap_end` is listed: with a free frame left, a request of at most a page that
      fits nowhere is met if and only if it is. */
  lemma GrowthWorksIff(h: Heap, p: Pool, size: u32)
    requires size <= PAGE_PAYLOAD && FirstFit(h.blocks, size) == |h.blocks| && p.free != {} && 0 !in p.free
    requires forall f: FrameNo :: f in p.free ==> !HasAddr(h.blocks, f * PAGE_SIZE)
    ensures Malloc(h, p, size).block.Some? <==> HasAddr(h.blocks, h.end)
  {
    hide Malloc;
    if HasAddr(h.blocks, h.end) { PageRequest(h, p, size); } else { LostEndDrains(h, p, size); }
  }

  /** After a free, guarded or not, every listed block starts where one did before, in a page of the heap. */
  lemma FreedAddresses(h: Heap, p: Pool, live: seq<Block>, addr: nat, a: nat)
    requires Safe(h, p, live) && IsLive(live, addr) && HasAddr(FreeIn(h, addr).blocks, a)
    ensures HeapByte(p.own, a)
  {
    ReleaseKeepsSafe(h, p, live, addr);
    var h1 := Heap(Release(h.blocks, addr), h.end, h.limit);
    CoalesceAddrs(h1.blocks, a);
    var i :| 0 <= i < |h1.blocks| && h1.blocks[i].addr == a;
    ListedOnHeap(h1, p, Without(live, addr), i, a);
  }

  lemma FreedShape(s: Session, addr: nat)
    requires IsSafe(s) && IsLive(s.handed, addr)
    ensures var r, bs := Release(s.heap.blocks, addr), Do(s, FreeAt(addr)).heap.blocks;
      && Ordered(r) && AllSpare(r, s.pool.own, Without(s.handed, addr)) && HasAddr(r, s.heap.end)
      && (forall i :: 0 <= i < |bs| ==> bs[i].size < WORD_LIMIT - HEADER)
      && (forall f: FrameNo :: f in s.pool.free ==> !HasAddr(bs, f * PAGE_SIZE))
  {
    hide FreeByte, UsedOf;
    var r, bs := Release(s.heap.blocks, addr), Do(s, FreeAt(addr)).heap.blocks;
    ReleaseKeepsSafe(s.heap, s.pool, s.handed, addr);
    assert r != [];
    CoalesceHead(r);
    forall i | 0 <= i < |bs| ensures bs[i].size < WORD_LIMIT - HEADER {
      OrderedLimit(bs, i);
      FreedAddresses(s.heap, s.pool, s.handed, addr, bs[i].addr);
    }
    forall f: FrameNo | f in s.pool.free ensures !HasAddr(bs, f * PAGE_SIZE) {
      if HasAddr(bs, f * PAGE_SIZE) { FreedAddresses(s.heap, s.pool, s.handed, addr, f * PAGE_SIZE); }
    }
  }

  /** A free that fails the first check: some requests hand out memory that is live or not the heap's. */
  lemma UnguardedMergeExposes(s: Session, addr: nat)
    requires IsSafe(s) && IsLive(s.handed, addr)
    requires !MergesSpare(Release(s.heap.blocks, addr), s.pool.own, Without(s.handed, addr))
    ensures exists x, cs :: Exposed(Do(s, FreeAt(addr)), cs, x)
  {
    hide IsSafe, FreeByte, DoAll;
    var r, s', live' := Release(s.heap.blocks, addr), Do(s, FreeAt(addr)), Without(s.handed, addr);
    FreedShape(s, addr);
    CoalesceSpareIff(r, s.pool.own, live');
    var x :| FreeByte(s'.heap.blocks, x) && !Spare(s.pool.own, live', x);
    NotSpareIsHandedOut(s', x);
  }

  /** A free that fails the second check: the next request that fits nowhere takes every free frame and gets
      nothing; and if the merges were between adjacent blocks, some requests hand out a block with the link
      that such a growth writes in its payload. */
  lemma AbsorbedEndBreaks(s: Session, addr: nat)
    requires IsSafe(s) && IsLive(s.handed, addr) && 0 !in s.pool.free
    requires !EndKept(Release(s.heap.blocks, addr), s.heap.end)
    ensures var s' := Do(s, FreeAt(addr));
      && (forall size: u32 :: FirstFit(s'.heap.blocks, size) == |s'.heap.blocks| ==>
            Malloc(s'.heap, s'.pool, size).block.None? && Malloc(s'.heap, s'.pool, size).pool.free == {})
      && (NoFreeGap(Release(s.heap.blocks, addr)) ==> exists cs :: EndHandedOut(s', cs))
  {
    hide IsSafe, FreeByte, DoAll, Malloc;
    var r, s' := Release(s.heap.blocks, addr), Do(s, FreeAt(addr));
    FreedShape(s, addr);
    CoalesceEndIff(r, s.heap.end);
    forall size: u32 | FirstFit(s'.heap.blocks, size) == |s'.heap.blocks|
      ensures Malloc(s'.heap, s'.pool, size).block.None? && Malloc(s'.heap, s'.pool, size).pool.free == {}
    {
      LostEndDrains(s'.heap, s'.pool, size);
    }
    if NoFreeGap(r) {
      AbsorbedEndIsInside(r, s.heap.end);
      var k :| 0 <= k < |s'.heap.blocks| && !s'.heap.blocks[k].used && LinkInPayload(s'.heap.blocks[k], s.heap.end);
      var cs := OfferedIsHandedOut(s', k);
      assert EndHandedOut(s', cs);
    }
  }

  // ----- Concrete runs -----

  /** Hand out two whole pages that happen to be neighbours, and free the second and then the first.  No merge
      crosses a gap, yet `heap_end` is absorbed.  With the merged block handed out, one more byte cannot be had:
      asking for it takes every free frame, and the link written first, at `heap_end`, is in the live payload. */
  lemma HeapEndIsAbsorbed(p: Pool)
    requires |p.free| >= 2 && 0 !in p.free
    requires Take(Take(p, HeapPage).pool, HeapPage).frame == Take(p, HeapPage).frame + 1
    ensures var g := HeapInit(p);
      var a := Malloc(g.heap, g.pool, 4084);
      var b := Malloc(a.heap, a.pool, 4084);
      && a.block.Some? && b.block.Some?
      && var h := FreeIn(b.heap, b.block.value.addr);
      NoFreeGap(Release(b.heap.blocks, b.block.value.addr)) && NoFreeGap(Release(h.blocks, a.block.value.addr))
      && !EndKept(Release(h.blocks, a.block.value.addr), h.end)
      && var h' := FreeIn(h, a.block.value.addr);
      var c := Malloc(h', b.pool, 8180);
      var d := Malloc(c.heap, c.pool, 1);
      && !HasAddr(h'.blocks, h'.end) && c.block.Some? && c.heap.end == h'.end
      && LinkInPayload(c.block.value, c.heap.end)
      && d.block.None? && d.pool.free == {}
  {
    var t0 := Take(p, HeapPage);
    assert |t0.pool.free| == |p.free| - 1;
    var t1 := Take(t0.pool, HeapPage);
    var x, y := t0.frame * PAGE_SIZE, t1.frame * PAGE_SIZE;
    var g := HeapInit(p);
    WholePage(g.heap, g.pool, x);
    var a := Malloc(g.heap, g.pool, 4084);
    SecondPage(a.heap, a.pool, x);
    var b := Malloc(a.heap, a.pool, 4084);
    TwoPagesFreed(x, y);
    var h' := Heap([Block(x, 8180, false)], y, b.heap.limit);
    WholeBlock(h', b.pool, x);
    var c := Malloc(h', b.pool, 8180);
    assert c.heap.blocks[1..] == [];
    assert FirstFit(c.heap.blocks, 1) == 1;
    assert !HasAddr(c.heap.blocks, c.heap.end);
    assert forall f: FrameNo :: f in c.pool.free ==> f != t0.frame;
    LostEndDrains(c.heap, c.pool, 1);
  }

  lemma WholePage(h: Heap, p: Pool, x: nat)
    requires h.blocks == [Block(x, 4084, false)]
    ensures Malloc(h, p, 4084) == Given(Heap([Block(x, 4084, true)], h.end, h.limit), p, Some(Block(x, 4084, true)))
  {
    assert Place(h.blocks, 0, 4084) == [Block(x, 4084, true)];
  }

  lemma SecondPage(h: Heap, p: Pool, x: nat)
    requires h.blocks == [Block(x, 4084, true)] && h.end == x && p.free != {} && 0 !in p.free
    ensures var t := Take(p, HeapPage);
      var y := t.frame * PAGE_SIZE;
      Malloc(h, p, 4084) == Given(Heap([Block(x, 4084, true), Block(y, 4084, true)], y, Wrap(h.limit + PAGE_SIZE)),
                                  t.pool, Some(Block(y, 4084, true)))
  {
    var t := Take(p, HeapPage);
    assert h.blocks[1..] == [];
    assert FirstFit(h.blocks, 4084) == 1;
    var grown := Grow(h, t.frame);
    assert grown.blocks == [Block(x, 4084, true), PageBlock(t.frame)];
    assert grown.blocks[1..] == [PageBlock(t.frame)];
    assert FirstFit(grown.blocks, 4084) == 1;
    assert Place(grown.blocks, 1, 4084) == [Block(x, 4084, true), Block(t.frame * PAGE_SIZE, 4084, true)];
    assert |t.pool.free| < |p.free|;
  }

  lemma TwoPagesFreed(x: nat, y: nat)
    requires y == x + PAGE_SIZE
    ensures var a, b := Block(x, 4084, true), Block(y, 4084, true);
      && Release([a, b], y) == [a, Block(y, 4084, false)]
      && Free([a, b], y) == [a, Block(y, 4084, false)]
      && Release([a, Block(y, 4084, false)], x) == [Block(x, 4084, false), Block(y, 4084, false)]
      && Free([a, Block(y, 4084, false)], x) == [Block(x, 8180, false)]
      && NoFreeGap([a, Block(y, 4084, false)]) && NoFreeGap([Block(x, 4084, false), Block(y, 4084, false)])
      && !EndKept([Block(x, 4084, false), Block(y, 4084, false)], y)
  {
    var a, b, a', b' := Block(x, 4084, true), Block(y, 4084, true), Block(x, 4084, false), Block(y, 4084, false);
    ReleaseTwo(a, b, y);
    ReleaseTwo(a, b', x);
    assert [a, b'][1..] == [b'] && [a] + [b'] == [a, b'];
    assert Coalesce([b']) == [b'];
    assert [a', b'][1..] == [b'];
    assert [a', b'][2..] == [] && [Block(x, 8180, false)] + [] == [Block(x, 8180, false)];
    assert Coalesce([a', b']) == Coalesce([Block(x, 8180, false)]);
    assert [a', b'][1].addr == y;
  }

  lemma WholeBlock(h: Heap, p: Pool, x: nat)
    requires h.blocks == [Block(x, 8180, false)]
    ensures Malloc(h, p, 8180) == Given(Heap([Block(x, 8180, true)], h.end, h.limit), p, Some(Block(x, 8180, true)))
  {
    assert Place(h.blocks, 0, 8180) == [Block(x, 8180, true)];
  }

  /** Being off the list need not last: a split that happens to start a header at `heap_end` lists it again. */
  lemma SplitListsEndAgain(p: Pool, x: nat, limit: u32)
    ensures var h := Heap([Block(x, 8180, false)], x + PAGE_SIZE, limit);
      !HasAddr(h.blocks, h.end) && HasAddr(Malloc(h, p, 4084).heap.blocks, h.end)
  {
    var bs := [Block(x, 8180, false)];
    assert Place(bs, 0, 4084) == [Block(x, 4084, true), Block(x + PAGE_SIZE, 4084, false)];
    assert Place(bs, 0, 4084)[1].addr == x + PAGE_SIZE;
  }

  /** After a growth it goes wrong: hand out 10, 20 and 4084 bytes, free the third and the first, and the next
      50 bytes overlap the second block, which was never freed. */
  lemma FreeAfterGrowthOverlaps(p: Pool)
    requires |p.free| >= 2 && 0 !in p.free
    ensures var g := HeapInit(p);
      var a := Malloc(g.heap, g.pool, 10);
      var b := Malloc(a.heap, a.pool, 20);
      var c := Malloc(b.heap, b.pool, 4084);
      && a.block.Some? && b.block.Some? && c.block.Some?
      && (var d := Malloc(FreeIn(FreeIn(c.heap, c.block.value.addr), a.block.value.addr), c.pool, 50);
          d.block.Some? && !Disjoint(d.block.value, b.block.value))
  {
    var t0 := Take(p, HeapPage);
    assert |t0.pool.free| == |p.free| - 1;
    var t1 := Take(t0.pool, HeapPage);
    var x, y := t0.frame * PAGE_SIZE, t1.frame * PAGE_SIZE;
    var g := HeapInit(p);
    FirstRequest(g.heap, g.pool, x);
    var a := Malloc(g.heap, g.pool, 10);
    SecondRequest(a.heap, a.pool, x);
    var b := Malloc(a.heap, a.pool, 20);
    ThirdRequest(b.heap, b.pool, x);
    TwoFrees(x, y);
  }

  lemma FirstRequest(h: Heap, p: Pool, x: nat)
    requires h.blocks == [Block(x, 4084, false)]
    ensures Malloc(h, p, 10) ==
      Given(Heap([Block(x, 10, true), Block(x + 22, 4062, false)], h.end, h.limit), p, Some(Block(x, 10, true)))
  {
    assert Place(h.blocks, 0, 10) == [Block(x, 10, true), Block(x + 22, 4062, false)];
  }

  lemma SecondRequest(h: Heap, p: Pool, x: nat)
    requires h.blocks == [Block(x, 10, true), Block(x + 22, 4062, false)]
    ensures var bs := [Block(x, 10, true), Block(x + 22, 20, true), Block(x + 54, 4030, false)];
      Malloc(h, p, 20) == Given(Heap(bs, h.end, h.limit), p, Some(Block(x + 22, 20, true)))
  {
    assert h.blocks[1..] == [Block(x + 22, 4062, false)];
    assert FirstFit(h.blocks, 20) == 1;
    assert Place(h.blocks, 1, 20) == [Block(x, 10, true), Block(x + 22, 20, true), Block(x + 54, 4030, false)];
  }

  lemma ReleaseTwo(a: Block, b: Block, addr: nat)
    ensures Release([a, b], addr) ==
      [if a.addr == addr then Block(addr, a.size, false) else a,
       if b.addr == addr then Block(addr, b.size, false) else b]
  {
    assert [a, b][1..] == [b] && [b][1..] == [];
    assert Release([b], addr) == [if b.addr == addr then Block(addr, b.size, false) else b];
  }

  lemma TwoFrees(x: nat, y: nat)
    requires x != y
    ensures Free(Free([Block(x, 10, true), Block(y, 4084, true)], y), x) == [Block(x, 4106, false)]
  {
    var a, b, b' := Block(x, 10, true), Block(y, 4084, true), Block(y, 4084, false);
    ReleaseTwo(a, b, y);
    assert [a, b'][1..] == [b'] && [a] + [b'] == [a, b'];
    assert Coalesce([b']) == [b'];
    assert Coalesce([a, b']) == [a] + Coalesce([b']);
    ReleaseTwo(a, b', x);
    var a' := Block(x, 10, false);
    assert [a', b'][2..] == [] && [Block(x, 4106, false)] + [] == [Block(x, 4106, false)];
    assert Coalesce([a', b']) == Coalesce([Block(x, 4106, false)]);
  }

  lemma ThirdRequest(h: Heap, p: Pool, x: nat)
    requires h.blocks == [Block(x, 10, true), Block(x + 22, 20, true), Block(x + 54, 4030, false)] && h.end == x
    requires p.free != {} && 0 !in p.free
    ensures var f := Take(p, HeapPage).frame;
      var c := Malloc(h, p, 4084);
      && c.heap.blocks == [Block(x, 10, true), Block(f * PAGE_SIZE, 4084, true)]
      && c.block == Some(Block(f * PAGE_SIZE, 4084, true))
  {
    var t := Take(p, HeapPage);
    assert h.blocks[1..] == [Block(x + 22, 20, true), Block(x + 54, 4030, false)];
    assert h.blocks[1..][1..] == [Block(x + 54, 4030, false)];
    assert FirstFit(h.blocks[1..][1..], 4084) == 1;
    assert FirstFit(h.blocks, 4084) == 3;
    var grown := Grow(h, t.frame);
    assert grown.blocks == [Block(x, 10, true), PageBlock(t.frame)];
    assert grown.blocks[1..] == [PageBlock(t.frame)];
    assert FirstFit(grown.blocks, 4084) == 1;
    assert |t.pool.free| < |p.free|;
  }
}
