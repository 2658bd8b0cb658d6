/** The heap once it has grown, with frees: what must hold for live memory to be safe, and the exact check
    `free` would have to make before merging to keep it. */
module HeapLive {
  import opened Words
  import opened Frames
  import opened HeapList
  import opened HeapGrowth
  import opened HeapMerging
  import HeapCanonical

  /** The byte is in a page the heap was given; page 0 is its NULL. */
  predicate HeapByte(own: map<FrameNo, Owner>, x: nat) {
    var f := x / PAGE_SIZE;
    0 < f < FRAME_COUNT && f in own && own[f] == HeapPage
  }

  /** Some free block of the list has the byte. */
  predicate FreeByte(bs: seq<Block>, x: nat) {
    bs != [] && ((!bs[0].used && Inside(bs[0], x)) || FreeByte(bs[1..], x))
  }

  /** Some live block has the byte. */
  predicate LiveByte(live: seq<Block>, x: nat) {
    exists i :: 0 <= i < |live| && Inside(live[i], x)
  }

  /** The byte is the heap's to give: in one of its pages and in no live block. */
  predicate Spare(own: map<FrameNo, Owner>, live: seq<Block>, x: nat) {
    HeapByte(own, x) && !LiveByte(live, x)
  }

  ghost predicate AllSpare(bs: seq<Block>, own: map<FrameNo, Owner>, live: seq<Block>) {
    forall x :: FreeByte(bs, x) ==> Spare(own, live, x)
  }

  /** Free frames lie above every page of the heap, because the lowest frame is always taken first. */
  predicate PagesBelow(p: Pool) {
    forall f: FrameNo, g: FrameNo :: f in p.free && g in p.own && p.own[g] == HeapPage ==> g < f
  }

  /** The invariant with frees.  `live` is what malloc handed out and was not freed since: live blocks are
      disjoint and inside the heap's pages, the list offers no byte of them and no byte of anybody else's, and
      it is in address order. */
  ghost predicate Held(h: Heap, p: Pool, live: seq<Block>) {
    && p.Valid() && PagesBelow(p)
    && Ordered(h.blocks)
    && AllSpare(h.blocks, p.own, live)
    && (forall x :: LiveByte(live, x) ==> HeapByte(p.own, x))
    && Apart(live)
    && (forall b :: b in UsedOf(h.blocks) ==> b in live)
  }

  /** ... and the heap can grow, because `heap_end` is on the list. */
  ghost predicate Safe(h: Heap, p: Pool, live: seq<Block>) {
    Held(h, p, live) && HasAddr(h.blocks, h.end)
  }

  // ----- The list in address order -----

  lemma {:induction false} OrderedSplit(a: seq<Block>, b: seq<Block>)
    ensures Ordered(a + b) <==>
      Ordered(a) && Ordered(b) && (a == [] || b == [] || a[|a| - 1].Limit() <= b[0].addr)
    decreases |a|
  {
    if a == [] {
      assert a + b == b;
    } else {
      assert (a + b)[1..] == a[1..] + b;
      OrderedSplit(a[1..], b);
    }
  }

  lemma {:induction false} FreeByteConcat(a: seq<Block>, b: seq<Block>, x: nat)
    ensures FreeByte(a + b, x) <==> FreeByte(a, x) || FreeByte(b, x)
    decreases |a|
  {
    if a == [] {
      assert a + b == b;
    } else {
      assert (a + b)[1..] == a[1..] + b;
      FreeByteConcat(a[1..], b, x);
    }
  }

  lemma {:induction false} OrderedAt(bs: seq<Block>, i: nat, j: nat)
    requires Ordered(bs) && i < j < |bs|
    ensures bs[i].Limit() <= bs[j].addr && bs[j].Limit() <= WORD_LIMIT
    decreases |bs|
  {
    if i > 0 {
      OrderedAt(bs[1..], i - 1, j - 1);
    } else if j > 1 {
      OrderedAt(bs[1..], 0, j - 1);
    }
  }

  lemma {:induction false} FreeByteFrom(bs: seq<Block>, x: nat)
    requires FreeByte(bs, x)
    ensures exists i :: 0 <= i < |bs| && !bs[i].used && Inside(bs[i], x)
    decreases |bs|
  {
    if !(!bs[0].used && Inside(bs[0], x)) {
      FreeByteFrom(bs[1..], x);
      var i :| 0 <= i < |bs| - 1 && !bs[1..][i].used && Inside(bs[1..][i], x);
      assert !bs[i + 1].used && Inside(bs[i + 1], x);
    }
  }

  lemma {:induction false} FreeByteAt(bs: seq<Block>, i: nat, x: nat)
    requires i < |bs| && !bs[i].used && Inside(bs[i], x)
    ensures FreeByte(bs, x)
    decreases |bs|
  {
    if i > 0 { FreeByteAt(bs[1..], i - 1, x); }
  }

  lemma {:induction false} UsedOfHas(bs: seq<Block>, i: nat)
    requires i < |bs| && bs[i].used
    ensures bs[i] in UsedOf(bs)
    decreases |bs|
  {
    if i > 0 { UsedOfHas(bs[1..], i - 1); }
  }

  // ----- Merging -----

  /** What each merge of the pass takes over: the bytes right behind the block, as many as the next block has
      with its header.  This is the check `free` does not make before a merge. */
  ghost predicate MergesSpare(bs: seq<Block>, own: map<FrameNo, Owner>, live: seq<Block>)
    decreases |bs|
  {
    |bs| < 2 ||
    if !bs[0].used && !bs[1].used then
      TakesSpare(bs[0], bs[1], own, live) && MergesSpare([Merged(bs[0], bs[1])] + bs[2..], own, live)
    else
      MergesSpare(bs[1..], own, live)
  }

  ghost predicate TakesSpare(a: Block, b: Block, own: map<FrameNo, Owner>, live: seq<Block>) {
    forall x: nat :: a.Limit() <= x < a.Limit() + HEADER + b.size ==> Spare(own, live, x)
  }

  /** The block at `end` is not a free block behind a free block: that check is missing too. */
  predicate EndKept(bs: seq<Block>, end: nat) {
    forall i {:trigger bs[i]} :: 0 < i < |bs| && bs[i].addr == end ==> bs[i].used || bs[i - 1].used
  }

  lemma {:induction false} CoalesceUsed(bs: seq<Block>)
    ensures UsedOf(Coalesce(bs)) == UsedOf(bs)
    decreases |bs|
  {
    if |bs| >= 2 {
      if !bs[0].used && !bs[1].used {
        var m := [Block(bs[0].addr, Wrap(bs[0].size + HEADER + bs[1].size), false)] + bs[2..];
        assert m[1..] == bs[2..] && bs[1..][1..] == bs[2..];
        CoalesceUsed(m);
      } else {
        CoalesceUsed(bs[1..]);
        assert ([bs[0]] + Coalesce(bs[1..]))[1..] == Coalesce(bs[1..]);
      }
    }
  }

  lemma {:induction false} CoalesceHeadFlag(bs: seq<Block>)
    requires bs != []
    ensures Coalesce(bs) != [] && Coalesce(bs)[0].used == bs[0].used
    decreases |bs|
  {
    if |bs| >= 2 && !bs[0].used && !bs[1].used {
      CoalesceHeadFlag([Block(bs[0].addr, Wrap(bs[0].size + HEADER + bs[1].size), false)] + bs[2..]);
    }
  }

  lemma MergedSpare(bs: seq<Block>, own: map<FrameNo, Owner>, live: seq<Block>)
    requires Ordered(bs) && |bs| >= 2 && !bs[0].used && !bs[1].used && AllSpare(bs, own, live)
    ensures AllSpare([Merged(bs[0], bs[1])] + bs[2..], own, live) <==> TakesSpare(bs[0], bs[1], own, live)
  {
    var m := [Merged(bs[0], bs[1])] + bs[2..];
    assert m[1..] == bs[2..] && bs[1..][1..] == bs[2..];
    assert forall x :: FreeByte(m, x) <==> Inside(m[0], x) || FreeByte(bs[2..], x);
    assert forall x: nat :: Inside(m[0], x) <==>
      Inside(bs[0], x) || bs[0].Limit() <= x < bs[0].Limit() + HEADER + bs[1].size;
    assert forall x :: FreeByte(bs[2..], x) ==> FreeByte(bs[1..], x);
    assert forall x :: FreeByte(bs[1..], x) ==> FreeByte(bs, x);
  }

  /** The pass leaves only spare bytes on offer exactly if every merge takes over spare bytes. */
  lemma {:induction false} CoalesceSpareIff(bs: seq<Block>, own: map<FrameNo, Owner>, live: seq<Block>)
    requires Ordered(bs) && AllSpare(bs, own, live)
    ensures AllSpare(Coalesce(bs), own, live) <==> MergesSpare(bs, own, live)
    decreases |bs|
  {
    if |bs| >= 2 {
      if !bs[0].used && !bs[1].used {
        var m := [Merged(bs[0], bs[1])] + bs[2..];
        MergeStep(bs);
        MergedSpare(bs, own, live);
        if TakesSpare(bs[0], bs[1], own, live) {
          CoalesceSpareIff(m, own, live);
        } else {
          var x: nat :| bs[0].Limit() <= x < bs[0].Limit() + HEADER + bs[1].size && !Spare(own, live, x);
          CoalesceHead(m);
          CoalesceHeadFlag(m);
          assert FreeByte(Coalesce(m), x);
        }
      } else {
        var c := Coalesce(bs[1..]);
        assert ([bs[0]] + c)[1..] == c;
        assert forall x :: FreeByte(bs[1..], x) ==> FreeByte(bs, x);
        assert forall x :: FreeByte(c, x) ==> FreeByte(Coalesce(bs), x);
        CoalesceSpareIff(bs[1..], own, live);
      }
    }
  }

  lemma {:induction false} CoalesceAddrs(bs: seq<Block>, addr: nat)
    requires HasAddr(Coalesce(bs), addr)
    ensures HasAddr(bs, addr)
    decreases |bs|
  {
    if |bs| >= 2 {
      if !bs[0].used && !bs[1].used {
        var m := [Block(bs[0].addr, Wrap(bs[0].size + HEADER + bs[1].size), false)] + bs[2..];
        CoalesceAddrs(m, addr);
        var i :| 0 <= i < |m| && m[i].addr == addr;
        assert bs[if i == 0 then 0 else i + 1].addr == addr;
      } else if bs[0].addr != addr {
        var i :| 0 <= i < |Coalesce(bs)| && Coalesce(bs)[i].addr == addr;
        assert Coalesce(bs[1..])[i - 1].addr == addr;
        CoalesceAddrs(bs[1..], addr);
        var j :| 0 <= j < |bs| - 1 && bs[1..][j].addr == addr;
        assert bs[j + 1].addr == addr;
      }
    }
  }

  /** The pass keeps `heap_end` on the list exactly if it is not a free block behind a free block. */
  lemma {:induction false} CoalesceEndIff(bs: seq<Block>, end: nat)
    requires Ordered(bs) && HasAddr(bs, end)
    ensures HasAddr(Coalesce(bs), end) <==> EndKept(bs, end)
    decreases |bs|
  {
    var e :| 0 <= e < |bs| && bs[e].addr == end;
    AddressesDiffer(bs, e);
    if |bs| >= 2 {
      if !bs[0].used && !bs[1].used {
        var m := [Merged(bs[0], bs[1])] + bs[2..];
        MergeStep(bs);
        assert forall i :: 0 < i < |m| ==> m[i] == bs[i + 1];
        if e == 1 {
          if HasAddr(Coalesce(m), end) { CoalesceAddrs(m, end); }
          assert !EndKept(bs, end);
        } else {
          assert m[if e == 0 then 0 else e - 1].addr == end;
          CoalesceEndIff(m, end);
          MergedEnd(bs, end);
        }
      } else {
        var c := Coalesce(bs[1..]);
        if e == 0 {
          assert Coalesce(bs)[0].addr == end;
        } else {
          assert bs[1..][e - 1].addr == end;
          CoalesceEndIff(bs[1..], end);
          HasAddrTail(Coalesce(bs), end);
          TailEnd(bs, end);
        }
      }
    }
  }

  lemma {:induction false} AddressesDiffer(bs: seq<Block>, e: nat)
    requires Ordered(bs) && e < |bs|
    ensures forall i :: 0 <= i < |bs| && i != e ==> bs[i].addr != bs[e].addr
  {
    forall i | 0 <= i < |bs| && i != e ensures bs[i].addr != bs[e].addr {
      if i < e { OrderedAt(bs, i, e); } else { OrderedAt(bs, e, i); }
    }
  }

  lemma HasAddrTail(bs: seq<Block>, addr: nat)
    requires bs != [] && bs[0].addr != addr
    ensures HasAddr(bs, addr) <==> HasAddr(bs[1..], addr)
  {
    if i :| 0 <= i < |bs| && bs[i].addr == addr { assert bs[1..][i - 1].addr == addr; }
    if i :| 0 <= i < |bs[1..]| && bs[1..][i].addr == addr { assert bs[i + 1].addr == addr; }
  }

  lemma MergedEnd(bs: seq<Block>, end: nat)
    requires |bs| >= 2 && !bs[0].used && !bs[1].used && bs[1].addr != end
    ensures EndKept([Merged(bs[0], bs[1])] + bs[2..], end) <==> EndKept(bs, end)
  {
    var m := [Merged(bs[0], bs[1])] + bs[2..];
    assert forall i {:trigger bs[i]} :: 1 < i < |bs| ==> m[i - 1] == bs[i] && m[i - 2].used == bs[i - 1].used;
    if EndKept(m, end) {
      forall i | 0 < i < |bs| && bs[i].addr == end ensures bs[i].used || bs[i - 1].used {
        assert m[i - 1].addr == end;
      }
    } else {
      var i :| 0 < i < |m| && m[i].addr == end && !m[i].used && !m[i - 1].used;
      assert bs[i + 1] == m[i];
    }
  }

  lemma TailEnd(bs: seq<Block>, end: nat)
    requires |bs| >= 2 && (bs[0].used || bs[1].used)
    ensures EndKept(bs[1..], end) <==> EndKept(bs, end)
  {
    var t := bs[1..];
    if EndKept(t, end) {
      forall i | 0 < i < |bs| && bs[i].addr == end ensures bs[i].used || bs[i - 1].used {
        if i > 1 { assert t[i - 1].addr == end; }
      }
    } else {
      var i :| 0 < i < |t| && t[i].addr == end && !t[i].used && !t[i - 1].used;
      assert bs[i + 1] == t[i];
    }
  }

  /** The merging pass keeps what is held if and only if every merge takes over spare bytes, and keeps
      `heap_end` listed if and only if it is not absorbed. */
  lemma MergeSafeIff(h: Heap, p: Pool, live: seq<Block>)
    requires Safe(h, p, live)
    ensures Held(Heap(Coalesce(h.blocks), h.end, h.limit), p, live) <==> MergesSpare(h.blocks, p.own, live)
    ensures HasAddr(Coalesce(h.blocks), h.end) <==> EndKept(h.blocks, h.end)
  {
    assert h.blocks != [];
    CoalesceHead(h.blocks);
    CoalesceUsed(h.blocks);
    CoalesceSpareIff(h.blocks, p.own, live);
    CoalesceEndIff(h.blocks, h.end);
  }

  // ----- free -----

  lemma {:induction false} ReleaseOrdered(bs: seq<Block>, addr: nat)
    requires Ordered(bs)
    ensures Ordered(Release(bs, addr))
    ensures forall i :: 0 <= i < |bs| ==> Release(bs, addr)[i].addr == bs[i].addr
    decreases |bs|
  {
    if bs != [] {
      ReleaseOrdered(bs[1..], addr);
      assert Release(bs, addr)[1..] == Release(bs[1..], addr);
      forall i | 0 <= i < |bs| ensures Release(bs, addr)[i].addr == bs[i].addr {
        if i > 0 { assert Release(bs[1..], addr)[i - 1].addr == bs[1..][i - 1].addr; }
      }
    }
  }

  /** Bytes that become free belonged to a used block at the address. */
  lemma {:induction false} ReleaseFrees(bs: seq<Block>, addr: nat, x: nat)
    requires FreeByte(Release(bs, addr), x)
    ensures FreeByte(bs, x) || exists b :: b in UsedOf(bs) && b.addr == addr && Inside(b, x)
    decreases |bs|
  {
    if bs != [] {
      assert Release(bs, addr)[1..] == Release(bs[1..], addr);
      if FreeByte(Release(bs[1..], addr), x) {
        ReleaseFrees(bs[1..], addr, x);
      } else if bs[0].used {
        assert bs[0] in UsedOf(bs) && Inside(bs[0], x);
      }
    }
  }

  lemma {:induction false} WithoutApart(live: seq<Block>, addr: nat)
    requires Apart(live)
    ensures Apart(Without(live, addr))
    decreases |live|
  {
    if live != [] {
      var t := live[1..];
      assert forall i, j :: 0 <= i < j < |t| ==> t[i] == live[i + 1] && t[j] == live[j + 1];
      WithoutApart(t, addr);
      var w := Without(t, addr);
      forall k | 0 <= k < |w| ensures Disjoint(live[0], w[k]) {
        HeapCanonical.WithoutMembers(t, addr, w[k]);
        var j :| 0 <= j < |t| && t[j] == w[k];
        assert Disjoint(live[0], live[j + 1]);
      }
    }
  }

  /** The block of an address, among live blocks. */
  predicate IsLive(live: seq<Block>, addr: nat) {
    exists i :: 0 <= i < |live| && live[i].addr == addr
  }

  lemma LiveWithout(live: seq<Block>, addr: nat, x: nat)
    requires Apart(live)
    ensures LiveByte(Without(live, addr), x) ==> LiveByte(live, x)
    ensures forall i :: 0 <= i < |live| && live[i].addr == addr && Inside(live[i], x) ==>
      !LiveByte(Without(live, addr), x)
  {
    var w := Without(live, addr);
    if k :| 0 <= k < |w| && Inside(w[k], x) {
      HeapCanonical.WithoutMembers(live, addr, w[k]);
      var j :| 0 <= j < |live| && live[j] == w[k];
      assert Inside(live[j], x);
    }
    forall i | 0 <= i < |live| && live[i].addr == addr && Inside(live[i], x) ensures !LiveByte(w, x) {
      forall k | 0 <= k < |w| ensures !Inside(w[k], x) {
        HeapCanonical.WithoutMembers(live, addr, w[k]);
        var j :| 0 <= j < |live| && live[j] == w[k];
        assert if i < j then Disjoint(live[i], live[j]) else Disjoint(live[j], live[i]);
      }
    }
  }

  /** Clearing the flag alone is harmless: the block is no longer live, and its bytes are on offer if it is
      still listed. */
  lemma ReleaseKeepsSafe(h: Heap, p: Pool, live: seq<Block>, addr: nat)
    requires Safe(h, p, live) && IsLive(live, addr)
    ensures Safe(Heap(Release(h.blocks, addr), h.end, h.limit), p, Without(live, addr))
  {
    var bs, r, live' := h.blocks, Release(h.blocks, addr), Without(live, addr);
    ReleaseOrdered(bs, addr);
    HeapCanonical.ReleaseKeeps(bs, addr, 0, 0);
    WithoutApart(live, addr);
    var e :| 0 <= e < |bs| && bs[e].addr == h.end;
    assert r[e].addr == h.end;
    forall x | FreeByte(r, x) ensures Spare(p.own, live', x) {
      LiveWithout(live, addr, x);
      ReleaseFrees(bs, addr, x);
      if !FreeByte(bs, x) {
        var b :| b in UsedOf(bs) && b.addr == addr && Inside(b, x);
        var i :| 0 <= i < |live| && live[i] == b;
        assert LiveByte(live, x);
      }
    }
    forall x | LiveByte(live', x) ensures HeapByte(p.own, x) { LiveWithout(live, addr, x); }
    forall b | b in UsedOf(r) ensures b in live' {
      HeapCanonical.WithoutMembers(UsedOf(bs), addr, b);
      HeapCanonical.WithoutMembers(live, addr, b);
    }
  }

  /** What `free` would have to check, on the list with the flag already cleared. */
  ghost predicate FreeGuard(h: Heap, p: Pool, live: seq<Block>, addr: nat) {
    var r := Release(h.blocks, addr);
    MergesSpare(r, p.own, Without(live, addr)) && EndKept(r, h.end)
  }

  /** `free` of a live block keeps the other live blocks apart, off the free list and the heap's own if and only
      if each merge takes over spare bytes only; it keeps `heap_end` listed if and only if its block is not free
      behind a free block.  Neither implies the other. */
  lemma FreeIsSafeIff(h: Heap, p: Pool, live: seq<Block>, addr: nat)
    requires Safe(h, p, live) && IsLive(live, addr)
    ensures var r := Release(h.blocks, addr);
      && (Held(FreeIn(h, addr), p, Without(live, addr)) <==> MergesSpare(r, p.own, Without(live, addr)))
      && (HasAddr(FreeIn(h, addr).blocks, h.end) <==> EndKept(r, h.end))
      && (Safe(FreeIn(h, addr), p, Without(live, addr)) <==> FreeGuard(h, p, live, addr))
  {
    ReleaseKeepsSafe(h, p, live, addr);
    MergeSafeIff(Heap(Release(h.blocks, addr), h.end, h.limit), p, Without(live, addr));
  }

  /** Comparing addresses is enough for the first half: adjacent neighbours only take over each other's bytes. */
  lemma {:induction false} AdjacentMergesAreSpare(bs: seq<Block>, own: map<FrameNo, Owner>, live: seq<Block>)
    requires Ordered(bs) && AllSpare(bs, own, live) && NoFreeGap(bs)
    ensures MergesSpare(bs, own, live)
    decreases |bs|
  {
    if |bs| >= 2 {
      if !bs[0].used && !bs[1].used {
        MergeStep(bs);
        forall x: nat | bs[0].Limit() <= x < bs[0].Limit() + HEADER + bs[1].size ensures Spare(own, live, x) {
          FreeByteAt(bs, 1, x);
        }
        MergedSpare(bs, own, live);
        AdjacentMergesAreSpare([Merged(bs[0], bs[1])] + bs[2..], own, live);
      } else {
        assert forall x :: FreeByte(bs[1..], x) ==> FreeByte(bs, x);
        AdjacentMergesAreSpare(bs[1..], own, live);
      }
    }
  }

  // ----- malloc -----

  lemma BytesDisjoint(a: Block, b: Block)
    requires forall x: nat :: Inside(a, x) ==> !Inside(b, x)
    ensures Disjoint(a, b)
  {
    assert Inside(a, a.addr) && Inside(b, b.addr);
  }

  /** Every byte of the list is in a heap page. */
  lemma ListedOnHeap(h: Heap, p: Pool, live: seq<Block>, i: nat, x: nat)
    requires Safe(h, p, live) && i < |h.blocks| && Inside(h.blocks[i], x)
    ensures HeapByte(p.own, x)
  {
    if h.blocks[i].used {
      UsedOfHas(h.blocks, i);
      var k :| 0 <= k < |live| && live[k] == h.blocks[i];
      assert LiveByte(live, x);
    } else {
      FreeByteAt(h.blocks, i, x);
    }
  }

  lemma SizeBound(h: Heap, p: Pool, live: seq<Block>, i: nat)
    requires Safe(h, p, live) && i < |h.blocks|
    ensures h.blocks[i].size < WORD_LIMIT - HEADER && h.blocks[i].Limit() <= WORD_LIMIT
  {
    ListedOnHeap(h, p, live, i, h.blocks[i].addr);
    OrderedLimit(h.blocks, i);
  }

  lemma {:induction false} OrderedLimit(bs: seq<Block>, i: nat)
    requires Ordered(bs) && i < |bs|
    ensures bs[i].Limit() <= WORD_LIMIT
    decreases |bs|
  {
    if i > 0 { OrderedLimit(bs[1..], i - 1); }
  }

  lemma CarveOrdered(b: Block, size: u32)
    requires Fits(b, size) && b.size < WORD_LIMIT - HEADER && b.Limit() <= WORD_LIMIT
    ensures var c := Carve(b, size); Ordered(c) && c != [] && c[0].addr == b.addr && c[|c| - 1].Limit() <= b.Limit()
  {
    var c := Carve(b, size);
    CarveInside(b, size);
    if |c| == 2 { assert c[1..] == [c[1]] && c[1..][1..] == []; }
  }

  lemma PlaceOrdered(bs: seq<Block>, i: nat, size: u32)
    requires Ordered(bs) && i < |bs| && Fits(bs[i], size) && bs[i].size < WORD_LIMIT - HEADER
    ensures Ordered(Place(bs, i, size))
  {
    var pre, b, post, c := bs[..i], bs[i], bs[i + 1..], Carve(bs[i], size);
    assert bs == pre + ([b] + post) && Place(bs, i, size) == pre + (c + post);
    OrderedLimit(bs, i);
    CarveOrdered(b, size);
    hide Ordered, Carve;
    OrderedSplit(pre, [b] + post);
    OrderedSplit([b], post);
    OrderedSplit(c, post);
    OrderedSplit(pre, c + post);
  }

  /** A byte still on offer after a placement was on offer before, and is not in the block handed out. */
  lemma PlaceFreeBytes(bs: seq<Block>, i: nat, size: u32, x: nat)
    requires Ordered(bs) && i < |bs| && Fits(bs[i], size) && bs[i].size < WORD_LIMIT - HEADER
    requires FreeByte(Place(bs, i, size), x)
    ensures FreeByte(bs, x) && !Inside(Carve(bs[i], size)[0], x)
  {
    var c, r := Carve(bs[i], size), Place(bs, i, size);
    CarveInside(bs[i], size);
    FreeByteFrom(r, x);
    var k :| 0 <= k < |r| && !r[k].used && Inside(r[k], x);
    PlaceMembers(bs, i, size, k);
    var k' := if k < i then k else if k < i + |c| then i else k + 1 - |c|;
    FreeByteAt(bs, k', x);
    if k' < i { OrderedAt(bs, k', i); }
    if i < k' { OrderedAt(bs, i, k'); }
  }

  lemma PlaceKeepsSafe(h: Heap, p: Pool, live: seq<Block>, i: nat, size: u32)
    requires Safe(h, p, live) && i < |h.blocks| && Fits(h.blocks[i], size)
    ensures var b := Carve(h.blocks[i], size)[0];
      && Safe(Heap(Place(h.blocks, i, size), h.end, h.limit), p, live + [b])
      && size <= b.size <= size + HEADER
  {
    hide Ordered, Place, Carve, UsedOf, FreeByte, HeapByte;
    SizeBound(h, p, live, i);
    CarveInside(h.blocks[i], size);
    var bs, r, b := h.blocks, Place(h.blocks, i, size), Carve(h.blocks[i], size)[0];
    PlaceOrdered(bs, i, size);
    PlaceEnd(bs, i, size, h.end);
    forall x | Inside(b, x) ensures HeapByte(p.own, x) && !LiveByte(live, x) {
      FreeByteAt(bs, i, x);
    }
    forall k | 0 <= k < |live| ensures Disjoint(live[k], b) {
      forall x: nat | Inside(live[k], x) ensures !Inside(b, x) { assert LiveByte(live, x); }
      BytesDisjoint(live[k], b);
    }
    ApartAppend(live, b);
    forall x ensures LiveByte(live + [b], x) <==> LiveByte(live, x) || Inside(b, x) { LiveAppend(live, b, x); }
    forall x | FreeByte(r, x) ensures Spare(p.own, live + [b], x) { PlaceFreeBytes(bs, i, size, x); }
    PlaceUsed(bs, i, size);
  }

  lemma LiveAppend(live: seq<Block>, b: Block, x: nat)
    ensures LiveByte(live + [b], x) <==> LiveByte(live, x) || Inside(b, x)
  {
    var all := live + [b];
    if Inside(b, x) { assert Inside(all[|live|], x); }
    if i :| 0 <= i < |live| && Inside(live[i], x) { assert Inside(all[i], x); }
  }

  lemma PlaceUsed(bs: seq<Block>, i: nat, size: u32)
    requires i < |bs| && Fits(bs[i], size) && bs[i].size < WORD_LIMIT - HEADER
    ensures forall b :: b in UsedOf(Place(bs, i, size)) ==> b in UsedOf(bs) || b == Carve(bs[i], size)[0]
  {
    var r, c := Place(bs, i, size), Carve(bs[i], size);
    HeapCanonical.PlaceUses(bs, i, size);
    assert r[i] == c[0];
  }

  lemma TakeKeepsPagesBelow(p: Pool, purpose: Owner)
    requires p.Valid() && PagesBelow(p)
    ensures PagesBelow(Take(p, purpose).pool) && Take(p, purpose).pool.Valid()
    ensures forall x :: HeapByte(p.own, x) ==> HeapByte(Take(p, purpose).pool.own, x)
  {}

  /** Any other allocation leaves the heap alone. */
  lemma TakeKeepsSafe(h: Heap, p: Pool, live: seq<Block>, purpose: Owner)
    requires Safe(h, p, live)
    ensures Safe(h, Take(p, purpose).pool, live)
  {
    TakeKeepsPagesBelow(p, purpose);
  }

  lemma GrowOrdered(h: Heap, p: Pool, live: seq<Block>, f: FrameNo)
    requires Safe(h, p, live) && IsLowest(f, p.free)
    ensures Ordered(Grow(h, f).blocks) && HasAddr(Grow(h, f).blocks, Grow(h, f).end)
    ensures forall x :: FreeByte(Grow(h, f).blocks, x) ==> FreeByte(h.blocks, x) || Inside(PageBlock(f), x)
    ensures forall b :: b in UsedOf(Grow(h, f).blocks) ==> b in UsedOf(h.blocks)
  {
    var b := PageBlock(f);
    var e := SpliceIsPrefix(h.blocks, h.end, b);
    var kept, rest := h.blocks[..e + 1], h.blocks[e + 1..];
    assert h.blocks == kept + rest && Grow(h, f).blocks == kept + [b];
    OrderedSplit(kept, rest);
    ListedOnHeap(h, p, live, e, h.blocks[e].Limit() - 1);
    OrderedSplit(kept, [b]);
    assert (kept + [b])[e + 1].addr == Grow(h, f).end;
    forall x | FreeByte(kept + [b], x) ensures FreeByte(h.blocks, x) || Inside(b, x) {
      FreeByteConcat(kept, [b], x);
      FreeByteConcat(kept, rest, x);
      assert [b][1..] == [];
    }
    HeapCanonical.UsedOfConcat(kept, [b]);
    HeapCanonical.UsedOfConcat(kept, rest);
    assert [b][1..] == [];
  }

  lemma GrowKeepsSafe(h: Heap, p: Pool, live: seq<Block>)
    requires Safe(h, p, live) && p.free != {} && Take(p, HeapPage).frame != 0
    ensures Safe(Grow(h, Take(p, HeapPage).frame), Take(p, HeapPage).pool, live)
  {
    hide Ordered, Splice, UsedOf, FreeByte, HasAddr, Apart;
    var t := Take(p, HeapPage);
    TakeKeepsPagesBelow(p, HeapPage);
    GrowOrdered(h, p, live, t.frame);
    forall x: nat | Inside(PageBlock(t.frame), x) ensures Spare(t.pool.own, live, x) {
      assert x / PAGE_SIZE == t.frame;
    }
  }

  /** malloc keeps a safe heap safe, with merged blocks and any number of growths: the block handed out is the
      heap's, overlaps no live block, and is between 0 and 12 bytes larger than asked for. */
  lemma {:induction false} MallocKeepsSafe(h: Heap, p: Pool, live: seq<Block>, size: u32)
    requires Safe(h, p, live)
    ensures var g := Malloc(h, p, size);
      match g.block
      case Some(b) => Safe(g.heap, g.pool, live + [b]) && size <= b.size <= size + HEADER
      case None => Safe(g.heap, g.pool, live)
    decreases |p.free|
  {
    hide Safe, Place, Carve, Grow;
    var i := FirstFit(h.blocks, size);
    if i < |h.blocks| {
      PlaceKeepsSafe(h, p, live, i, size);
    } else {
      var t := Take(p, HeapPage);
      if t.frame != 0 {
        GrowKeepsSafe(h, p, live);
        assert |t.pool.free| < |p.free|;
        MallocKeepsSafe(Grow(h, t.frame), t.pool, live, size);
      } else {
        TakeKeepsSafe(h, p, live, HeapPage);
      }
    }
  }

  // ----- Whole runs -----

  ghost predicate IsSafe(s: Session) {
    Safe(s.heap, s.pool, s.handed)
  }

  /** Only live blocks are freed. */
  ghost predicate Legal(s: Session, cs: seq<Call>)
    decreases |cs|
  {
    cs == [] || ((cs[0].FreeAt? ==> IsLive(s.handed, cs[0].addr)) && Legal(Do(s, cs[0]), cs[1..]))
  }

  /** Every free passes the check it does not make. */
  ghost predicate Guarded(s: Session, cs: seq<Call>)
    decreases |cs|
  {
    cs == [] || ((cs[0].FreeAt? ==> FreeGuard(s.heap, s.pool, s.handed, cs[0].addr)) && Guarded(Do(s, cs[0]), cs[1..]))
  }

  ghost predicate SafeThroughout(s: Session, cs: seq<Call>)
    decreases |cs|
  {
    IsSafe(s) && (cs == [] || SafeThroughout(Do(s, cs[0]), cs[1..]))
  }

  lemma CallIsSafeIff(s: Session, c: Call)
    requires IsSafe(s) && (c.FreeAt? ==> IsLive(s.handed, c.addr))
    ensures IsSafe(Do(s, c)) <==> (c.FreeAt? ==> FreeGuard(s.heap, s.pool, s.handed, c.addr))
  {
    hide Safe, FreeGuard, FreeIn;
    match c
    case Alloc(size) => MallocKeepsSafe(s.heap, s.pool, s.handed, size);
    case FreeAt(addr) => FreeIsSafeIff(s.heap, s.pool, s.handed, addr);
    case Other(purpose) => TakeKeepsSafe(s.heap, s.pool, s.handed, purpose);
  }

  /** Over any run of mallocs, frees and other allocations, with any number of growths: the heap is safe in
      every state if and only if every free passes the check. */
  lemma {:induction false} RunIsSafeIff(s: Session, cs: seq<Call>)
    requires IsSafe(s) && Legal(s, cs)
    ensures SafeThroughout(s, cs) <==> Guarded(s, cs)
    decreases |cs|
  {
    hide IsSafe, FreeGuard, Do;
    if cs != [] {
      CallIsSafeIff(s, cs[0]);
      if IsSafe(Do(s, cs[0])) { RunIsSafeIff(Do(s, cs[0]), cs[1..]); }
    }
  }

  /** `heap_init` starts such a run. */
  lemma HeapInitIsSafe(p: Pool)
    requires p.Valid() && PagesBelow(p) && p.free != {} && 0 !in p.free
    ensures IsSafe(Session(HeapInit(p).heap, HeapInit(p).pool, []))
  {
    var t := Take(p, HeapPage);
    var h := HeapInit(p).heap;
    TakeKeepsPagesBelow(p, HeapPage);
    assert h.blocks[0].addr == h.end && h.blocks[1..] == [];
    forall x: nat | FreeByte(h.blocks, x) ensures Spare(t.pool.own, [], x) {
      FreeByteFrom(h.blocks, x);
      assert Inside(PageBlock(t.frame), x) && x / PAGE_SIZE == t.frame;
    }
  }

  /** Without frees there is nothing to check, however often the heap grows and whoever else takes frames: the
      heap stays safe, in particular its list in address order. */
  lemma {:induction false} NoFreesIsSafe(s: Session, cs: seq<Call>)
    requires IsSafe(s) && NoFrees(cs)
    ensures SafeThroughout(s, cs)
    decreases |cs|
  {
    hide IsSafe, Do;
    if cs != [] {
      CallIsSafeIff(s, cs[0]);
      NoFreesIsSafe(Do(s, cs[0]), cs[1..]);
    }
  }

  /** Before the first growth every free passes the check. */
  lemma ArenaFreeIsGuarded(h: Heap, p: Pool, live: seq<Block>, f: FrameNo, addr: nat)
    requires HeapCanonical.Arena(h.blocks, f * PAGE_SIZE, f * PAGE_SIZE + PAGE_SIZE) && h.end == f * PAGE_SIZE
    requires Safe(h, p, live) && IsLive(live, addr)
    ensures FreeGuard(h, p, live, addr)
  {
    var r, lo, hi := Release(h.blocks, addr), f * PAGE_SIZE, f * PAGE_SIZE + PAGE_SIZE;
    HeapCanonical.ReleaseKeeps(h.blocks, addr, lo, hi);
    TilingHasNoGap(r, lo, hi);
    ReleaseKeepsSafe(h, p, live, addr);
    AdjacentMergesAreSpare(r, p.own, Without(live, addr));
    forall i | 0 < i < |r| ensures r[i].addr != h.end {
      HeapCanonical.TiledDisjoint(r, lo, hi, 0, i);
    }
  }

  /** So every run that frees only while its requests fit the first page, and may grow the heap from then on, is
      safe in every state. */
  lemma {:induction false} FreesBeforeGrowthAreSafe(s: Session, f: FrameNo, cs: seq<Call>, later: seq<Call>)
    requires IsSafe(s) && Legal(s, cs) && NoFrees(later)
    requires HeapCanonical.Arena(s.heap.blocks, f * PAGE_SIZE, f * PAGE_SIZE + PAGE_SIZE) && s.heap.end == f * PAGE_SIZE
    requires HeapCanonical.Run(s.heap.blocks, cs).Some?
    ensures SafeThroughout(s, cs + later)
    decreases |cs|
  {
    hide Safe, FreeGuard, HeapCanonical.Arena;
    if cs == [] {
      assert cs + later == later;
      NoFreesIsSafe(s, later);
    } else {
      var lo, hi, bs := f * PAGE_SIZE, f * PAGE_SIZE + PAGE_SIZE, s.heap.blocks;
      assert (cs + later)[0] == cs[0] && (cs + later)[1..] == cs[1..] + later;
      match cs[0] {
        case Alloc(size) => HeapCanonical.PlaceKeepsArena(bs, lo, hi, FirstFit(bs, size), size);
        case FreeAt(addr) =>
          ArenaFreeIsGuarded(s.heap, s.pool, s.handed, f, addr);
          FreeKeepsPage(bs, addr, lo, hi);
        case Other(_) =>
      }
      CallIsSafeIff(s, cs[0]);
      FreesBeforeGrowthAreSafe(Do(s, cs[0]), f, cs[1..], later);
    }
  }

  lemma FreeKeepsPage(bs: seq<Block>, addr: nat, lo: nat, hi: nat)
    requires HeapCanonical.Arena(bs, lo, hi)
    ensures HeapCanonical.Arena(Free(bs, addr), lo, hi)
  {
    HeapCanonical.FreeKeepsArena(bs, addr, lo, hi);
  }
}
