/** `free` merges list neighbours without comparing their addresses.  This is when a merge claims memory the
    list did not have, and why that cannot happen before the heap first grows. */
module HeapMerging {
  import opened Words
  import opened Frames
  import opened HeapList
  import opened HeapGrowth
  import HeapCanonical

  /** Addresses ascend, blocks do not overlap, and everything lies below 4 GiB. */
  predicate Ordered(bs: seq<Block>) {
    bs == [] ||
    (bs[0].Limit() <= WORD_LIMIT && (|bs| < 2 || bs[0].Limit() <= bs[1].addr) && Ordered(bs[1..]))
  }

  predicate Inside(b: Block, x: nat) {
    b.addr <= x < b.Limit()
  }

  /** Some listed block has the byte in its header or payload. */
  predicate Covers(bs: seq<Block>, x: nat) {
    bs != [] && (Inside(bs[0], x) || Covers(bs[1..], x))
  }

  /** Free neighbours are adjacent in memory. */
  predicate NoFreeGap(bs: seq<Block>) {
    |bs| < 2 || ((bs[0].used || bs[1].used || bs[0].Limit() == bs[1].addr) && NoFreeGap(bs[1..]))
  }

  function Merged(a: Block, b: Block): Block {
    Block(a.addr, a.size + HEADER + b.size, false)
  }

  lemma {:induction false} CoversFrom(bs: seq<Block>, x: nat)
    requires Ordered(bs) && Covers(bs, x)
    ensures bs[0].addr <= x
    decreases |bs|
  {
    if !Inside(bs[0], x) { CoversFrom(bs[1..], x); }
  }

  /** The first two blocks merged, as the pass does it. */
  lemma MergeStep(bs: seq<Block>)
    requires Ordered(bs) && |bs| >= 2 && !bs[0].used && !bs[1].used
    ensures var m := [Merged(bs[0], bs[1])] + bs[2..];
      && Coalesce(bs) == Coalesce(m) && |m| < |bs|
      && Ordered(m) && m[1..] == bs[2..] && m[0].addr == bs[0].addr && m[0].Limit() > bs[0].Limit()
      && (bs[0].Limit() == bs[1].addr ==>
           (NoFreeGap(m) <==> NoFreeGap(bs)) && forall x :: Covers(m, x) <==> Covers(bs, x))
  {}

  lemma {:induction false} CoalesceHead(bs: seq<Block>)
    requires Ordered(bs) && bs != []
    ensures Ordered(Coalesce(bs)) && Coalesce(bs) != []
    ensures Coalesce(bs)[0].addr == bs[0].addr && Coalesce(bs)[0].Limit() >= bs[0].Limit()
    ensures |bs| >= 2 && bs[0].used ==> Coalesce(bs)[0] == bs[0]
    decreases |bs|
  {
    if |bs| >= 2 {
      if !bs[0].used && !bs[1].used {
        MergeStep(bs);
        CoalesceHead([Merged(bs[0], bs[1])] + bs[2..]);
      } else {
        var c := Coalesce(bs[1..]);
        CoalesceHead(bs[1..]);
        assert ([bs[0]] + c)[1..] == c;
      }
    }
  }

  /** Without a gap between free neighbours the pass covers exactly the bytes covered before. */
  lemma {:induction false} MergeExact(bs: seq<Block>, x: nat)
    requires Ordered(bs) && NoFreeGap(bs)
    ensures Covers(Coalesce(bs), x) <==> Covers(bs, x)
    decreases |bs|
  {
    if |bs| >= 2 {
      if !bs[0].used && !bs[1].used {
        MergeStep(bs);
        MergeExact([Merged(bs[0], bs[1])] + bs[2..], x);
      } else {
        MergeExact(bs[1..], x);
        assert ([bs[0]] + Coalesce(bs[1..]))[1..] == Coalesce(bs[1..]);
      }
    }
  }

  /** With a gap, the pass claims a byte that no listed block had. */
  lemma {:induction false} MergeClaims(bs: seq<Block>) returns (x: nat)
    requires Ordered(bs) && !NoFreeGap(bs)
    ensures Covers(Coalesce(bs), x) && !Covers(bs, x)
    decreases |bs|
  {
    if !bs[0].used && !bs[1].used {
      MergeStep(bs);
      var m := [Merged(bs[0], bs[1])] + bs[2..];
      if bs[0].Limit() == bs[1].addr {
        x := MergeClaims(m);
      } else {
        x := bs[0].Limit();
        CoalesceHead(m);
        assert Inside(Coalesce(m)[0], x);
        if Covers(bs[1..], x) { CoversFrom(bs[1..], x); assert false; }
      }
    } else {
      x := MergeClaims(bs[1..]);
      CoalesceHead(bs[1..]);
      CoversFrom(Coalesce(bs[1..]), x);
      assert ([bs[0]] + Coalesce(bs[1..]))[1..] == Coalesce(bs[1..]);
    }
  }

  /** The merging pass claims no byte beyond those of the listed blocks if and only if no two free
      neighbours have a gap between them: the comparison `free` does not make. */
  lemma MergeIsSafeIff(bs: seq<Block>)
    requires Ordered(bs)
    ensures (forall x :: Covers(Coalesce(bs), x) ==> Covers(bs, x)) <==> NoFreeGap(bs)
  {
    if NoFreeGap(bs) {
      forall x ensures Covers(Coalesce(bs), x) ==> Covers(bs, x) { MergeExact(bs, x); }
    } else {
      var x := MergeClaims(bs);
    }
  }

  /** Before the first growth there is never a gap. */
  lemma {:induction false} TilingHasNoGap(bs: seq<Block>, lo: nat, hi: nat)
    requires Tiled(bs, lo, hi) && hi <= WORD_LIMIT
    ensures Ordered(bs) && NoFreeGap(bs)
    decreases |bs|
  {
    if bs != [] {
      HeapCanonical.TiledEnd(bs, lo, hi);
      TilingHasNoGap(bs[1..], bs[0].Limit(), hi);
    }
  }

  lemma {:induction false} UsedBlocksApart(bs: seq<Block>)
    requires Apart(bs)
    ensures Apart(UsedOf(bs))
    decreases |bs|
  {
    if bs != [] {
      var t := bs[1..];
      assert forall i, j :: 0 <= i < j < |t| ==> t[i] == bs[i + 1] && t[j] == bs[j + 1];
      UsedBlocksApart(t);
      forall k | 0 <= k < |UsedOf(t)| ensures Disjoint(bs[0], UsedOf(t)[k]) {
        HeapCanonical.UsedOfIsPart(t, k);
        var j :| 0 <= j < |t| && t[j] == UsedOf(t)[k];
        assert Disjoint(bs[0], bs[j + 1]);
      }
    }
  }

  /** Until the first growth the heap's list is sound whatever was allocated and freed, with the used blocks as
      what is handed out: the next malloc may grow the heap without harm to any of them. */
  lemma ArenaIsSound(h: Heap, p: Pool, f: FrameNo)
    requires p.Valid() && f in p.own && p.own[f] == HeapPage
    requires HeapCanonical.Arena(h.blocks, f * PAGE_SIZE, f * PAGE_SIZE + PAGE_SIZE) && h.end == f * PAGE_SIZE
    ensures Sound(h, p, UsedOf(h.blocks))
  {
    var bs, us, lo, hi := h.blocks, UsedOf(h.blocks), f * PAGE_SIZE, f * PAGE_SIZE + PAGE_SIZE;
    assert bs != [] && bs[0].addr == h.end;
    forall i, j | 0 <= i < j < |bs| ensures Disjoint(bs[i], bs[j]) {
      HeapCanonical.TiledDisjoint(bs, lo, hi, i, j);
    }
    forall i | 0 <= i < |bs| ensures OnHeapPage(bs[i], p.own) {
      HeapCanonical.TiledInside(bs, lo, hi, i);
    }
    UsedBlocksApart(bs);
    forall k | 0 <= k < |us| ensures us[k] in bs && us[k].used { HeapCanonical.UsedOfIsPart(bs, k); }
    forall k | 0 <= k < |us| ensures OnHeapPage(us[k], p.own) {
      var i :| 0 <= i < |bs| && bs[i] == us[k];
    }
    forall i, k | 0 <= i < |bs| && 0 <= k < |us| && !bs[i].used ensures Disjoint(bs[i], us[k]) {
      var j :| 0 <= j < |bs| && bs[j] == us[k];
      assert if i < j then Disjoint(bs[i], bs[j]) else Disjoint(bs[j], bs[i]);
    }
  }

  /** `heap_init` makes such an arena of the lowest free frame: one block that fills it, with `heap_end` at its start
      and `heap_limit` at its end. */
  lemma InitialArena(p: Pool)
    requires p.free != {}
    ensures var h := HeapInit(p).heap;
      && HeapInit(p).pool == Take(p, HeapPage).pool
      && h.end == Take(p, HeapPage).frame * 4096 && h.blocks == [Block(h.end, 4084, false)]
      && HeapCanonical.Arena(h.blocks, h.end, h.end + 4096)
      && h.limit == (h.end + 4096) % 0x1_0000_0000
  {}

  /** A run in which every request fits the page is the run on the list alone. */
  lemma {:induction false} ListRunIsRun(s: Session, calls: seq<Call>)
    requires HeapCanonical.Run(s.heap.blocks, calls).Some?
    ensures DoAll(s, calls).heap ==
      Heap(HeapCanonical.Run(s.heap.blocks, calls).value, s.heap.end, s.heap.limit)
    decreases |calls|
  {
    if calls != [] { ListRunIsRun(Do(s, calls[0]), calls[1..]); }
  }

  lemma {:induction false} PoolGrowsOwners(s: Session, calls: seq<Call>)
    requires s.pool.Valid() && HeapCanonical.Run(s.heap.blocks, calls).Some?
    ensures var r := DoAll(s, calls);
      r.pool.Valid() && forall f: FrameNo :: f in s.pool.own ==> f in r.pool.own && r.pool.own[f] == s.pool.own[f]
    decreases |calls|
  {
    if calls != [] { PoolGrowsOwners(Do(s, calls[0]), calls[1..]); }
  }

  /** From `heap_init` through any run of mallocs and frees before the first growth, and then any mallocs with
      any number of growths: the blocks in use when the heap first grew and those handed out since are pairwise
      disjoint, each inside one heap page. */
  lemma LiveBlocksSurviveGrowth(p: Pool, calls: seq<Call>, later: seq<Call>)
    requires p.Valid() && p.free != {} && NoFrees(later)
    requires HeapCanonical.Run(HeapInit(p).heap.blocks, calls).Some?
    ensures var s := DoAll(Session(HeapInit(p).heap, HeapInit(p).pool, []), calls);
      var r := DoAll(Session(s.heap, s.pool, UsedOf(s.heap.blocks)), later);
      && UsedOf(s.heap.blocks) <= r.handed
      && AllOnHeapPages(r.handed, r.pool.own)
      && (forall i, j :: 0 <= i < j < |r.handed| ==> Disjoint(r.handed[i], r.handed[j]))
  {
    hide Malloc;
    var g, f := HeapInit(p), Take(p, HeapPage).frame;
    var start := Session(g.heap, g.pool, []);
    var s := DoAll(start, calls);
    InitialArena(p);
    HeapCanonical.RunKeepsArena(g.heap.blocks, f * PAGE_SIZE, f * PAGE_SIZE + PAGE_SIZE, {}, calls);
    ListRunIsRun(start, calls);
    PoolGrowsOwners(start, calls);
    ArenaIsSound(s.heap, s.pool, f);
    NoFreesSound(Session(s.heap, s.pool, UsedOf(s.heap.blocks)), later);
  }
}
