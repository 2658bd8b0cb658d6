/** The heap on its linked nodes, in place: the code of malloc and free against the list functions. */
module KernelHeap {
  import opened Words
  import opened Frames
  import opened Pmm
  import opened HeapList
  import opened HeapGrowth
  import HeapMerging
  import HeapLive

  /** A block header.  Its address stands for the pointer value. */
  class HeapBlock {
    const addr: u32
    var size: u32
    var flags: u32
    var next: HeapBlock?

    constructor (addr: u32, size: u32, next: HeapBlock?)
      ensures this.addr == addr && this.size == size && flags == 0 && this.next == next
    {
      this.addr, this.size, this.flags, this.next := addr, size, 0, next;
    }

    ghost function AsBlock(): Block
      reads this
    {
      Block(addr, size, flags != 0)
    }
  }

  /** From position i of the list nothing before fits, and block i does. */
  lemma {:induction false} FirstFitIs(bs: seq<Block>, size: nat, i: nat)
    requires i <= |bs| && forall k :: 0 <= k < i ==> !Fits(bs[k], size)
    requires i < |bs| ==> Fits(bs[i], size)
    ensures FirstFit(bs, size) == i
  {}

  /** In a list of blocks with distinct addresses, releasing an address clears one flag. */
  lemma {:induction false} ReleaseAt(bs: seq<Block>, i: nat)
    requires i < |bs| && forall k :: 0 <= k < |bs| && k != i ==> bs[k].addr != bs[i].addr
    ensures Release(bs, bs[i].addr) == bs[i := Block(bs[i].addr, bs[i].size, false)]
    decreases |bs|
  {
    if i == 0 {
      ReleaseNone(bs[1..], bs[0].addr);
    } else {
      ReleaseAt(bs[1..], i - 1);
    }
  }

  lemma {:induction false} ReleaseNone(bs: seq<Block>, addr: nat)
    requires forall k :: 0 <= k < |bs| ==> bs[k].addr != addr
    ensures Release(bs, addr) == bs
    decreases |bs|
  {
    if bs != [] { ReleaseNone(bs[1..], addr); }
  }

  ghost predicate Distinct(nodes: seq<HeapBlock>) {
    forall i, j :: 0 <= i < j < |nodes| ==> nodes[i] != nodes[j]
  }

  lemma InsertDistinct(nodes: seq<HeapBlock>, i: nat, n: HeapBlock)
    requires Distinct(nodes) && i <= |nodes| && n !in nodes
    ensures Distinct(nodes[..i] + [n] + nodes[i..])
  {}

  lemma RemoveDistinct(nodes: seq<HeapBlock>, i: nat)
    requires Distinct(nodes) && i < |nodes|
    ensures Distinct(nodes[..i] + nodes[i + 1..])
  {}

  ghost function BlocksOf(nodes: seq<HeapBlock>): (bs: seq<Block>)
    reads nodes
    ensures |bs| == |nodes| && forall i :: 0 <= i < |bs| ==> bs[i] == nodes[i].AsBlock()
  {
    seq(|nodes|, i requires 0 <= i < |nodes| reads nodes => nodes[i].AsBlock())
  }

  lemma CoalesceEmpty()
    ensures Coalesce([]) == []
  {}

  lemma CoalesceMerge(bs: seq<Block>, i: nat)
    requires i + 1 < |bs| && !bs[i].used && !bs[i + 1].used
    ensures var cs := bs[..i] + [Block(bs[i].addr, Wrap(bs[i].size + HEADER + bs[i + 1].size), false)] + bs[i + 2..];
      cs[..i] + Coalesce(cs[i..]) == bs[..i] + Coalesce(bs[i..])
  {
    var m := Block(bs[i].addr, Wrap(bs[i].size + HEADER + bs[i + 1].size), false);
    var cs := bs[..i] + [m] + bs[i + 2..];
    assert cs[..i] == bs[..i] && cs[i..] == [m] + bs[i..][2..];
  }

  lemma ApartDistinct(bs: seq<Block>)
    requires Apart(bs)
    ensures forall i, j :: 0 <= i < j < |bs| ==> bs[i].addr != bs[j].addr
  {}

  lemma TakeFound(p: Pool, purpose: Owner)
    ensures Take(p, purpose).frame != 0 ==> p.free != {} && |Take(p, purpose).pool.free| < |p.free|
  {}

  /** What malloc relies on: listed blocks are disjoint, lie below 4 GiB and outside every free frame.  It
      holds of every heap safe in the sense of `HeapLive`, blocks merged across pages included. */
  ghost predicate Growable(h: Heap, p: Pool) {
    && (forall i :: 0 <= i < |h.blocks| ==> h.blocks[i].Limit() <= WORD_LIMIT && h.blocks[i].size < WORD_LIMIT - HEADER)
    && Apart(h.blocks)
    && (forall i, f: FrameNo :: 0 <= i < |h.blocks| && f in p.free ==> Disjoint(h.blocks[i], PageBlock(f)))
  }

  lemma SoundIsGrowable(h: Heap, p: Pool, handed: seq<Block>)
    requires Sound(h, p, handed)
    ensures Growable(h, p)
  {
    forall i, f: FrameNo | 0 <= i < |h.blocks| && f in p.free ensures Disjoint(h.blocks[i], PageBlock(f)) {
      NewPageApart(h.blocks[i], p, f);
    }
  }

  lemma SafeIsGrowable(h: Heap, p: Pool, live: seq<Block>)
    requires HeapLive.Safe(h, p, live)
    ensures Growable(h, p)
  {
    hide HeapLive.Safe;
    forall i | 0 <= i < |h.blocks| ensures h.blocks[i].Limit() <= WORD_LIMIT && h.blocks[i].size < WORD_LIMIT - HEADER {
      HeapLive.SizeBound(h, p, live, i);
    }
    forall i, j | 0 <= i < j < |h.blocks| ensures Disjoint(h.blocks[i], h.blocks[j]) {
      SafeOrdered(h, p, live);
      HeapLive.OrderedAt(h.blocks, i, j);
    }
    forall i, f: FrameNo | 0 <= i < |h.blocks| && f in p.free ensures Disjoint(h.blocks[i], PageBlock(f)) {
      BelowFree(h, p, live, i, f);
    }
  }

  lemma SafeOrdered(h: Heap, p: Pool, live: seq<Block>)
    requires HeapLive.Safe(h, p, live)
    ensures HeapMerging.Ordered(h.blocks)
  {}

  lemma BelowFree(h: Heap, p: Pool, live: seq<Block>, i: nat, f: FrameNo)
    requires HeapLive.Safe(h, p, live) && i < |h.blocks| && f in p.free
    ensures h.blocks[i].Limit() <= f * PAGE_SIZE
  {
    HeapLive.ListedOnHeap(h, p, live, i, h.blocks[i].Limit() - 1);
  }

  /** A growth keeps the list as malloc needs it; a failed one takes nothing from it. */
  lemma GrowGrowable(h: Heap, p: Pool)
    requires Growable(h, p) && HasAddr(h.blocks, h.end)
    ensures var t := Take(p, HeapPage);
      if p.free != {} then Growable(Grow(h, t.frame), t.pool) else Growable(h, t.pool)
  {
    if p.free != {} {
      var t := Take(p, HeapPage);
      var b := PageBlock(t.frame);
      var e := SpliceIsPrefix(h.blocks, h.end, b);
      var kept := h.blocks[..e + 1];
      assert Grow(h, t.frame).blocks == kept + [b];
      assert Apart(kept);
      ApartAppend(kept, b);
    }
  }

  lemma GrowableParts(h: Heap, p: Pool)
    requires Growable(h, p)
    ensures Apart(h.blocks)
    ensures forall i :: 0 <= i < |h.blocks| ==>
      h.blocks[i].Limit() <= WORD_LIMIT && h.blocks[i].size < WORD_LIMIT - HEADER
  {}

  lemma SplitBlocks(before: seq<Block>, after: seq<Block>, i: nat)
    requires i < |before| && |after| == |before| + 1
    requires forall k :: 0 <= k < |after| && k != i && k != i + 1 ==> after[k] == before[if k < i then k else k - 1]
    ensures after == before[..i] + [after[i], after[i + 1]] + before[i + 1..]
  {}

  lemma PlaceCases(bs: seq<Block>, i: nat, size: u32)
    requires i < |bs|
    ensures var b := bs[i];
      if b.size > Wrap(size + HEADER) then
        && Carve(b, size)[0] == Block(b.addr, size, true)
        && (bs[..i] + [Block(b.addr, size, false), Block(b.addr + HEADER + size, Wrap(b.size - size - HEADER), false)]
            + bs[i + 1..])[i := Block(b.addr, size, true)] == Place(bs, i, size)
      else
        Carve(b, size)[0] == Block(b.addr, b.size, true) && bs[i := Block(b.addr, b.size, true)] == Place(bs, i, size)
  {}

  lemma CoalesceSkip(bs: seq<Block>, i: nat)
    requires i < |bs| && (i + 1 == |bs| || bs[i].used || bs[i + 1].used)
    ensures bs[..i] + Coalesce(bs[i..]) == bs[..i + 1] + Coalesce(bs[i + 1..])
  {}

  /** A free of the header at the address leaves `heap_end` on the list. */
  predicate KeepsEnd(bs: seq<Block>, addr: nat, end: nat) {
    HeapLive.EndKept(Release(bs, addr), end)
  }

  class KernelHeap {
    var heapStart: HeapBlock?
    var heapEnd: HeapBlock?
    var heapLimit: u32
    ghost var nodes: seq<HeapBlock>     // the list
    ghost var repr: set<HeapBlock>      // every header this heap ever made
    ghost var endAt: nat                // where in the list `heapEnd` is, while it is listed

    /** The nodes are the list that starts at `heapStart`. */
    ghost predicate Valid()
      reads this, repr
    {
      && (forall i :: 0 <= i < |nodes| ==> nodes[i] in repr) && heapEnd in repr
      && nodes != [] && heapStart == nodes[0]
      && Distinct(nodes)
      && (forall i {:trigger nodes[i].next} :: 0 <= i < |nodes| - 1 ==> nodes[i].next == nodes[i + 1])
      && nodes[|nodes| - 1].next == null
    }

    ghost predicate EndListed()
      reads this
    {
      endAt < |nodes| && nodes[endAt] == heapEnd
    }

    ghost function Blocks(): seq<Block>
      reads this, nodes
    {
      BlocksOf(nodes)
    }

    ghost function View(): Heap
      requires Valid()
      reads this, repr
    {
      Heap(Blocks(), heapEnd.addr, heapLimit)
    }

    constructor ()
      ensures heapStart == null && heapEnd == null && heapLimit == 0 && nodes == [] && repr == {}
    {
      heapStart, heapEnd, heapLimit, nodes, repr, endAt := null, null, 0, [], {}, 0;
    }

    /** `heap_init` */
    method Init(pmm: PageAllocator)
      requires pmm.Valid()
      modifies this, pmm.bitmap, pmm`own, pmm`failed
      ensures Valid() && pmm.Valid() && fresh(repr) && EndListed()
      ensures Given(View(), pmm.View(), None) == HeapInit(old(pmm.View()))
    {
      hide Take, PageAllocator.FreeSet, PageAllocator.Bits;
      var page := pmm.AllocPage(HeapPage);
      heapStart := new HeapBlock(page, PAGE_PAYLOAD, null);
      heapEnd := heapStart;
      heapLimit := Wrap(page + PAGE_SIZE);
      nodes, repr, endAt := [heapStart], {heapStart}, 0;
    }

    /** The search loop of malloc. */
    method FindFit(size: u32) returns (block: HeapBlock?, ghost i: nat)
      requires Valid()
      ensures i == FirstFit(Blocks(), size)
      ensures var k := FirstFit(Blocks(), size); block == if k < |nodes| then nodes[k] else null
    {
      hide BlocksOf, FirstFit;
      block, i := heapStart, 0;
      while block != null
        invariant i <= |nodes| && block == if i < |nodes| then nodes[i] else null
        invariant forall k :: 0 <= k < i ==> !Fits(Blocks()[k], size)
        decreases |nodes| - i
      {
        if block.flags == 0 && block.size >= size {
          break;
        }
        block, i := block.next, i + 1;
      }
      FirstFitIs(Blocks(), size, i);
    }

    /** Enter a new header in the list behind block i, and cut that block down to `size`. */
    method LinkAfter(block: HeapBlock, newBlock: HeapBlock, size: u32, ghost i: nat)
      requires Valid() && i < |nodes| && nodes[i] == block
      requires newBlock !in repr && newBlock.next == block.next
      modifies block`next, block`size, `nodes, `repr, `endAt
      ensures Valid() && nodes == old(nodes)[..i + 1] + [newBlock] + old(nodes)[i + 1..]
      ensures repr == old(repr) + {newBlock} && (old(EndListed()) ==> EndListed())
      ensures block.size == size
    {
      hide BlocksOf;
      ghost var ns := nodes;
      assert i + 1 < |ns| ==> ns[i].next == ns[i + 1];
      block.next := newBlock;
      block.size := size;
      nodes, repr, endAt := ns[..i + 1] + [newBlock] + ns[i + 1..], repr + {newBlock},
        if endAt <= i then endAt else endAt + 1;
      InsertDistinct(ns, i + 1, newBlock);
      forall k | 0 <= k < |nodes| - 1 ensures nodes[k].next == nodes[k + 1] {
        if k < i {
          assert ns[k].next == ns[k + 1];
        } else if k > i + 1 {
          assert ns[k - 1].next == ns[k];
        }
      }
    }

    /** Cut a free block in two. */
    method SplitBlock(block: HeapBlock, size: u32, ghost i: nat)
      requires Valid() && i < |nodes| && nodes[i] == block && block.flags == 0
      requires block.size > Wrap(size + HEADER) && block.size < WORD_LIMIT - HEADER
        && block.AsBlock().Limit() <= WORD_LIMIT && size <= block.size
      modifies block, `nodes, `repr, `endAt
      ensures Valid() && block.flags == 0 && block.size == size && i < |nodes| && nodes[i] == block
      ensures Blocks() == old(Blocks()[..i]) + [Block(block.addr, size, false),
        Block(block.addr + HEADER + size, Wrap(old(block.size) - size - HEADER), false)] + old(Blocks()[i + 1..])
      ensures repr >= old(repr) && fresh(repr - old(repr)) && (old(EndListed()) ==> EndListed())
    {
      hide BlocksOf;
      ghost var bs, ns := Blocks(), nodes;
      var newBlock := new HeapBlock(Wrap(block.addr + HEADER + size), Wrap(block.size - size - HEADER), block.next);
      LinkAfter(block, newBlock, size, i);
      forall k | 0 <= k < |nodes| && k != i && k != i + 1
        ensures Blocks()[k] == bs[if k < i then k else k - 1]
      {
        assert nodes[k] == ns[if k < i then k else k - 1];
      }
      SplitBlocks(bs, Blocks(), i);
    }

    /** The taken branch of the search loop: split if a header and a byte remain, then set the flag. */
    method HandOut(block: HeapBlock, size: u32, ghost i: nat)
      requires Valid() && i < |nodes| && nodes[i] == block
      requires Fits(block.AsBlock(), size) && block.size < WORD_LIMIT - HEADER && block.AsBlock().Limit() <= WORD_LIMIT
      modifies block, `nodes, `repr, `endAt
      ensures Valid() && Blocks() == Place(old(Blocks()), i, size)
      ensures block.AsBlock() == Carve(old(block.AsBlock()), size)[0]
      ensures repr >= old(repr) && fresh(repr - old(repr)) && (old(EndListed()) ==> EndListed())
    {
      hide BlocksOf, Place, Carve;
      PlaceCases(Blocks(), i, size);
      if block.size > Wrap(size + HEADER) {
        SplitBlock(block, size, i);
      }
      ghost var bs := Blocks();
      block.flags := 1;
      assert Blocks() == bs[i := Block(block.addr, block.size, true)];
    }

    /** The page obtained by malloc becomes the block behind `heapEnd`. */
    method Extend(page: u32)
      requires Valid() && EndListed()
      modifies this, heapEnd
      ensures Valid() && EndListed()
      ensures View() == Heap(old(Blocks()[..endAt + 1]) + [Block(page, PAGE_PAYLOAD, false)], page,
                             Wrap(old(heapLimit) + PAGE_SIZE))
      ensures repr >= old(repr) && fresh(repr - old(repr))
    {
      hide BlocksOf;
      var newBlock := new HeapBlock(page, PAGE_PAYLOAD, null);
      heapEnd.next := newBlock;
      heapEnd := newBlock;
      heapLimit := Wrap(heapLimit + PAGE_SIZE);
      nodes, repr, endAt := nodes[..endAt + 1] + [newBlock], repr + {newBlock}, endAt + 1;
    }

    /** The growing half of malloc: take a page and list it, unless the pool answers NULL. */
    method GrowHeap(pmm: PageAllocator) returns (grown: bool)
      requires Valid() && pmm.Valid() && EndListed() && Apart(Blocks())
      modifies this, heapEnd, pmm.bitmap, pmm`own, pmm`failed
      ensures Valid() && pmm.Valid() && EndListed()
      ensures var t := Take(old(pmm.View()), HeapPage);
        && pmm.View() == t.pool
        && grown == (t.frame != 0)
        && View() == if grown then Grow(old(View()), t.frame) else old(View())
      ensures repr >= old(repr) && fresh(repr - old(repr))
    {
      hide BlocksOf, Take, Splice, Apart, PageAllocator.FreeSet, PageAllocator.Bits, Valid, EndListed;
      NodeAt(0);
      GrowAtEnd();
      var page := pmm.AllocPage(HeapPage);
      grown := page != 0;
      if grown {
        assert page / PAGE_SIZE * PAGE_SIZE == page;
        Extend(page);
      }
    }

    /** Growing the list cuts it behind `heapEnd`. */
    lemma GrowAtEnd()
      requires Valid() && EndListed() && Apart(Blocks())
      ensures forall f: FrameNo ::
        Grow(View(), f) == Heap(Blocks()[..endAt + 1] + [PageBlock(f)], f * PAGE_SIZE, Wrap(heapLimit + PAGE_SIZE))
    {
      hide BlocksOf, Splice;
      SpliceAtEnd();
    }

    /** malloc: the block whose payload is returned, or null. */
    method Malloc(pmm: PageAllocator, size: u32) returns (r: HeapBlock?)
      requires Valid() && pmm.Valid() && EndListed()
      requires Growable(View(), pmm.View())
      modifies this, repr, pmm.bitmap, pmm`own, pmm`failed
      ensures Valid() && pmm.Valid() && EndListed()
      ensures Given(View(), pmm.View(), if r == null then None else Some(r.AsBlock()))
           == HeapGrowth.Malloc(old(View()), old(pmm.View()), size)
      ensures repr >= old(repr) && fresh(repr - old(repr))
      decreases |pmm.FreeSet()|, 1
    {
      hide BlocksOf, Take, FirstFit, Growable, Place, Carve, Grow, PageAllocator.FreeSet, PageAllocator.Bits;
      ghost var i;
      r, i := FindFit(size);
      if r != null {
        GrowableParts(View(), pmm.View());
        HandOut(r, size, i);
      } else {
        r := GrowAndRetry(pmm, size);
      }
    }

    /** The part of malloc behind the search loop: grow and start again. */
    method GrowAndRetry(pmm: PageAllocator, size: u32) returns (r: HeapBlock?)
      requires Valid() && pmm.Valid() && EndListed()
      requires Growable(View(), pmm.View()) && FirstFit(Blocks(), size) == |Blocks()|
      modifies this, repr, pmm.bitmap, pmm`own, pmm`failed
      ensures Valid() && pmm.Valid() && EndListed()
      ensures Given(View(), pmm.View(), if r == null then None else Some(r.AsBlock()))
           == HeapGrowth.Malloc(old(View()), old(pmm.View()), size)
      ensures repr >= old(repr) && fresh(repr - old(repr))
      decreases |pmm.FreeSet()|, 0
    {
      hide BlocksOf, Take, FirstFit, Growable, Place, Carve, Grow, PageAllocator.FreeSet, PageAllocator.Bits, Valid,
        EndListed;
      ghost var h, p := View(), pmm.View();
      NodeAt(0);
      EndHasAddr();
      GrowableParts(h, p);
      GrowGrowable(h, p);
      var grown := GrowHeap(pmm);
      if !grown { return null; }
      TakeFound(p, HeapPage);
      ghost var mid := repr;
      r := Malloc(pmm, size);
      assert repr - old(repr) <= (repr - mid) + (mid - old(repr));
    }

    lemma EndHasAddr()
      requires Valid() && EndListed()
      ensures HasAddr(View().blocks, View().end)
    {
      assert Blocks()[endAt].addr == heapEnd.addr;
    }

    lemma SpliceAtEnd()
      requires Valid() && EndListed() && Apart(Blocks())
      ensures forall b: Block :: Splice(Blocks(), heapEnd.addr, b) == Blocks()[..endAt + 1] + [b]
    {
      hide BlocksOf, Splice;
      assert Blocks()[endAt].addr == heapEnd.addr;
      ApartDistinct(Blocks());
      forall b: Block ensures Splice(Blocks(), heapEnd.addr, b) == Blocks()[..endAt + 1] + [b] {
        var d := SpliceIsPrefix(Blocks(), heapEnd.addr, b);
      }
    }

    /** free, given the header in front of the payload. */
    method Free(block: HeapBlock?)
      requires Valid() && Apart(Blocks()) && (block == null || block in repr)
      requires block != null && block !in nodes ==> forall n :: n in nodes ==> n.addr != block.addr
      modifies this`nodes, this`endAt, repr
      ensures Valid()
      ensures Blocks() == if block == null then old(Blocks()) else HeapList.Free(old(Blocks()), block.addr)
      ensures repr == old(repr) && heapEnd == old(heapEnd) && heapLimit == old(heapLimit)
      ensures old(EndListed()) && (block == null || KeepsEnd(old(Blocks()), block.addr, heapEnd.addr)) ==> EndListed()
    {
      hide BlocksOf, Release, Coalesce;
      if block == null { return; }
      ApartDistinct(Blocks());
      block.flags := 0;
      Released(block, old(Blocks()));
      MergePass();
    }

    lemma NodeAt(i: nat)
      requires Valid()
      ensures |nodes| > 0 && heapStart == nodes[0] && heapEnd in repr
      ensures i < |nodes| ==> nodes[i] in repr && nodes[i].next == if i + 1 < |nodes| then nodes[i + 1] else null
    {
      assert i + 1 < |nodes| ==> nodes[i].next == nodes[i + 1];
    }

    /** `heapEnd` is listed and the rest of the pass, from block i on, cannot absorb it. */
    ghost predicate EndAhead(i: nat)
      reads this, nodes
    {
      EndListed() && (endAt <= i || nodes[endAt].flags != 0 || nodes[endAt - 1].flags != 0)
    }

    lemma EndKeptAhead()
      requires Valid()
      ensures EndListed() && HeapLive.EndKept(Blocks(), heapEnd.addr) ==> EndAhead(0)
    {
      if EndListed() && endAt > 0 {
        assert Blocks()[endAt] == nodes[endAt].AsBlock() && Blocks()[endAt - 1] == nodes[endAt - 1].AsBlock();
      }
    }

    lemma EndAheadSkip(i: nat)
      requires i < |nodes| && (i + 1 == |nodes| || nodes[i].flags != 0 || nodes[i + 1].flags != 0)
      ensures EndAhead(i) ==> EndAhead(i + 1)
    {}

    lemma EndAheadListed(i: nat)
      ensures EndAhead(i) ==> EndListed()
    {}

    /** The loop of free. */
    method MergePass()
      requires Valid()
      modifies this`nodes, this`endAt, repr
      ensures Valid() && Blocks() == Coalesce(old(Blocks()))
      ensures repr == old(repr) && heapEnd == old(heapEnd) && heapLimit == old(heapLimit)
      ensures old(EndListed()) && HeapLive.EndKept(old(Blocks()), heapEnd.addr) ==> EndListed()
    {
      hide BlocksOf, Coalesce, EndAhead, EndListed, Valid;
      NodeAt(0);
      var current := heapStart;
      ghost var i := 0;
      ghost var kept := EndListed() && HeapLive.EndKept(Blocks(), heapEnd.addr);
      EndKeptAhead();
      while current != null
        invariant kept ==> EndAhead(i)
        invariant Valid() && i <= |nodes| && current == if i < |nodes| then nodes[i] else null
        invariant Coalesce(old(Blocks())) == Blocks()[..i] + Coalesce(Blocks()[i..])
        decreases |nodes| - i
      {
        ghost var bs := Blocks();
        NodeAt(i);
        if current.flags == 0 && current.next != null && current.next.flags == 0 {
          MergeNext(current, i);
          CoalesceMerge(bs, i);
          continue;
        }
        CoalesceSkip(bs, i);
        EndAheadSkip(i);
        current := current.next;
        i := i + 1;
      }
      assert Blocks()[i..] == [] && Blocks()[..i] == Blocks();
      CoalesceEmpty();
      EndAheadListed(i);
    }

    /** Take the header behind block i off the list. */
    method UnlinkAfter(current: HeapBlock, ghost i: nat)
      requires Valid() && i + 1 < |nodes| && nodes[i] == current && current.next == nodes[i + 1]
      modifies this`nodes, this`endAt, current`next
      ensures Valid() && nodes == old(nodes)[..i + 1] + old(nodes)[i + 2..]
      ensures endAt == if old(endAt) <= i + 1 then old(endAt) else old(endAt) - 1
    {
      hide BlocksOf;
      ghost var ns := nodes;
      assert i + 2 < |ns| ==> ns[i + 1].next == ns[i + 2];
      RemoveDistinct(ns, i + 1);
      current.next := current.next.next;
      nodes, endAt := ns[..i + 1] + ns[i + 2..], if endAt <= i + 1 then endAt else endAt - 1;
      forall k | 0 <= k < |nodes| - 1 ensures nodes[k].next == nodes[k + 1] {
        if k < i {
          assert ns[k].next == ns[k + 1];
        } else if k > i {
          assert ns[k + 1].next == ns[k + 2];
        }
      }
    }

    /** A block absorbs its successor. */
    method MergeNext(current: HeapBlock, ghost i: nat)
      requires Valid() && i + 1 < |nodes| && nodes[i] == current && current.flags == 0 && nodes[i + 1].flags == 0
      modifies this`nodes, this`endAt, current
      ensures old(EndAhead(i)) ==> EndAhead(i)
      ensures Valid() && nodes == old(nodes)[..i + 1] + old(nodes)[i + 2..]
      ensures endAt == if old(endAt) <= i + 1 then old(endAt) else old(endAt) - 1
      ensures Blocks() == old(Blocks()[..i])
        + [Block(current.addr, Wrap(old(Blocks()[i].size) + HEADER + old(Blocks()[i + 1].size)), false)]
        + old(Blocks()[i + 2..])
    {
      hide BlocksOf;
      assert nodes[i].next == nodes[i + 1];
      current.size := Wrap(current.size + HEADER + current.next.size);
      UnlinkAfter(current, i);
    }

    lemma Released(block: HeapBlock, before: seq<Block>)
      requires |before| == |nodes| && block.flags == 0
      requires forall i, j :: 0 <= i < j < |before| ==> before[i].addr != before[j].addr
      requires block !in nodes ==> forall n :: n in nodes ==> n.addr != block.addr
      requires forall i :: 0 <= i < |nodes| && nodes[i] != block ==> before[i] == nodes[i].AsBlock()
      requires forall i :: 0 <= i < |nodes| && nodes[i] == block ==>
        before[i].addr == block.addr && before[i].size == block.size
      ensures Blocks() == Release(before, block.addr)
    {
      hide BlocksOf;
      hide Release;
      if block in nodes {
        var i :| 0 <= i < |nodes| && nodes[i] == block;
        ReleaseAt(before, i);
        var after := before[i := Block(before[i].addr, before[i].size, false)];
        forall k | 0 <= k < |nodes| ensures Blocks()[k] == after[k] {
          if k != i { assert nodes[k] != block; }
        }
      } else {
        ReleaseNone(before, block.addr);
      }
    }
  }
}
