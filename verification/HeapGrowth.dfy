/** The heap with growth: when nothing fits, malloc takes a page from the frame pool, hangs it behind
    `heap_end` and starts again.  Because `heap_end` is not moved by splits, that drops every block listed
    after it; the theorems here say what still holds for any number of growths when nothing is freed, and
    exactly when a free stops being safe. */
module HeapGrowth {
  import opened Words
  import opened Frames
  import opened HeapList

  /** The list from `heap_start`, the address in `heap_end`, and `heap_limit`. */
  datatype Heap = Heap(blocks: seq<Block>, end: nat, limit: u32)

  function PageBlock(f: FrameNo): Block {
    Block(f * PAGE_SIZE, PAGE_PAYLOAD, false)
  }

  /** Hang a block behind the one at address `end`, dropping what was listed there. */
  function Splice(bs: seq<Block>, end: nat, b: Block): seq<Block> {
    if bs == [] then []
    else if bs[0].addr == end then [bs[0], b]
    else [bs[0]] + Splice(bs[1..], end, b)
  }

  function Grow(h: Heap, f: FrameNo): Heap {
    Heap(Splice(h.blocks, h.end, PageBlock(f)), f * PAGE_SIZE, Wrap(h.limit + PAGE_SIZE))
  }

  /** A heap and pool after a call, and the block handed out unless the answer is NULL. */
  datatype Given = Given(heap: Heap, pool: Pool, block: Option<Block>)

  /** `heap_init` */
  ghost function HeapInit(p: Pool): Given {
    var t := Take(p, HeapPage);
    var page := t.frame * PAGE_SIZE;
    Given(Heap([PageBlock(t.frame)], page, Wrap(page + PAGE_SIZE)), t.pool, None)
  }

  /** `malloc` */
  ghost function Malloc(h: Heap, p: Pool, size: u32): Given
    decreases |p.free|
  {
    var i := FirstFit(h.blocks, size);
    if i < |h.blocks| then
      var placed := Place(h.blocks, i, size);
      Given(Heap(placed, h.end, h.limit), p, Some(Carve(h.blocks[i], size)[0]))
    else
      var t := Take(p, HeapPage);
      if t.frame == 0 then Given(h, t.pool, None)
      else
        assert |t.pool.free| < |p.free|;
        Malloc(Grow(h, t.frame), t.pool, size)
  }

  // ----- Disjointness -----

  predicate Disjoint(a: Block, b: Block) {
    a.Limit() <= b.addr || b.Limit() <= a.addr
  }

  predicate Apart(bs: seq<Block>) {
    forall i, j :: 0 <= i < j < |bs| ==> Disjoint(bs[i], bs[j])
  }

  /** No free block of the list overlaps a block handed out. */
  predicate FreeApart(bs: seq<Block>, handed: seq<Block>) {
    forall i, j :: 0 <= i < |bs| && 0 <= j < |handed| && !bs[i].used ==> Disjoint(bs[i], handed[j])
  }

  predicate OnHeapPage(b: Block, own: map<FrameNo, Owner>) {
    var f := b.addr / PAGE_SIZE;
    b.Limit() <= f * PAGE_SIZE + PAGE_SIZE && f < FRAME_COUNT && f in own && own[f] == HeapPage
  }

  predicate AllOnHeapPages(bs: seq<Block>, own: map<FrameNo, Owner>) {
    forall i :: 0 <= i < |bs| ==> OnHeapPage(bs[i], own)
  }

  predicate HasAddr(bs: seq<Block>, addr: nat) {
    exists i :: 0 <= i < |bs| && bs[i].addr == addr
  }

  /** The invariant of runs without free: `handed` is every block handed out so far. */
  ghost predicate Sound(h: Heap, p: Pool, handed: seq<Block>) {
    && p.Valid()
    && HasAddr(h.blocks, h.end)
    && AllOnHeapPages(h.blocks, p.own) && AllOnHeapPages(handed, p.own)
    && Apart(h.blocks) && Apart(handed) && FreeApart(h.blocks, handed)
  }

  lemma ApartAppend(bs: seq<Block>, b: Block)
    requires Apart(bs) && forall i :: 0 <= i < |bs| ==> Disjoint(bs[i], b)
    ensures Apart(bs + [b])
  {}

  // ----- One placement -----

  lemma CarveInside(b: Block, size: u32)
    requires Fits(b, size) && b.size < WORD_LIMIT - HEADER
    ensures var c := Carve(b, size);
      && 1 <= |c| <= 2
      && c[0].used && size <= c[0].size <= size + HEADER
      && (forall k :: 0 <= k < |c| ==> b.addr <= c[k].addr && c[k].Limit() <= b.Limit())
      && c[0].addr == b.addr
      && (|c| == 2 ==> !c[1].used && c[0].Limit() <= c[1].addr)
  {}

  /** Each block of the list after a placement is an old block, or a part of the block placed in. */
  lemma PlaceMembers(bs: seq<Block>, i: nat, size: u32, k: nat)
    requires i < |bs| && Fits(bs[i], size) && bs[i].size < WORD_LIMIT - HEADER && k < |Place(bs, i, size)|
    ensures var c, r := Carve(bs[i], size), Place(bs, i, size);
      && |r| == |bs| - 1 + |c|
      && (k < i ==> r[k] == bs[k])
      && (i <= k < i + |c| ==> r[k] == c[k - i])
      && (i + |c| <= k ==> r[k] == bs[k + 1 - |c|])
  {}

  lemma PlaceApart(bs: seq<Block>, i: nat, size: u32)
    requires i < |bs| && Fits(bs[i], size) && bs[i].size < WORD_LIMIT - HEADER && Apart(bs)
    ensures Apart(Place(bs, i, size))
  {}

  /** `heap_end` stays listed. */
  lemma PlaceEnd(bs: seq<Block>, i: nat, size: u32, end: nat)
    requires i < |bs| && Fits(bs[i], size) && bs[i].size < WORD_LIMIT - HEADER && HasAddr(bs, end)
    ensures HasAddr(Place(bs, i, size), end)
  {
    CarveInside(bs[i], size);
    var e :| 0 <= e < |bs| && bs[e].addr == end;
    var e' := if e <= i then e else e - 1 + |Carve(bs[i], size)|;
    PlaceMembers(bs, i, size, e');
    assert Place(bs, i, size)[e'].addr == end;
  }

  lemma PlaceSound(h: Heap, p: Pool, handed: seq<Block>, i: nat, size: u32)
    requires Sound(h, p, handed) && i < |h.blocks| && Fits(h.blocks[i], size)
    ensures var b := Carve(h.blocks[i], size)[0];
      && Sound(Heap(Place(h.blocks, i, size), h.end, h.limit), p, handed + [b])
      && size <= b.size <= size + HEADER
  {
    hide Place, Carve;
    var bs, c, r := h.blocks, Carve(h.blocks[i], size), Place(h.blocks, i, size);
    assert OnHeapPage(bs[i], p.own);
    CarveInside(bs[i], size);
    PlaceApart(bs, i, size);
    forall k | 0 <= k < |handed| ensures Disjoint(handed[k], c[0]) {
      assert Disjoint(bs[i], handed[k]);
    }
    ApartAppend(handed, c[0]);
    forall k | 0 <= k < |r| ensures OnHeapPage(r[k], p.own) {
      PlaceMembers(bs, i, size, k);
      CarveOnPage(bs[i], size, p.own);
    }
    CarveOnPage(bs[i], size, p.own);
    PlaceFreeApart(bs, handed, i, size);
    PlaceEnd(bs, i, size, h.end);
  }

  lemma CarveOnPage(b: Block, size: u32, own: map<FrameNo, Owner>)
    requires OnHeapPage(b, own) && Fits(b, size)
    ensures AllOnHeapPages(Carve(b, size), own)
  {}

  lemma PlaceFreeApart(bs: seq<Block>, handed: seq<Block>, i: nat, size: u32)
    requires i < |bs| && Fits(bs[i], size) && bs[i].size < WORD_LIMIT - HEADER
    requires Apart(bs) && FreeApart(bs, handed)
    ensures FreeApart(Place(bs, i, size), handed + [Carve(bs[i], size)[0]])
  {}

  // ----- One growth -----

  /** Splicing keeps a prefix of the list, up to and including the block at `end`. */
  lemma {:induction false} SpliceIsPrefix(bs: seq<Block>, end: nat, b: Block) returns (e: nat)
    requires HasAddr(bs, end)
    ensures e < |bs| && bs[e].addr == end && Splice(bs, end, b) == bs[..e + 1] + [b]
    decreases |bs|
  {
    if bs[0].addr == end {
      e := 0;
    } else {
      var i :| 0 <= i < |bs| && bs[i].addr == end;
      assert bs[1..][i - 1].addr == end;
      var d := SpliceIsPrefix(bs[1..], end, b);
      e := d + 1;
      assert bs[..e + 1] == [bs[0]] + bs[1..][..d + 1];
    }
  }

  lemma GrowSound(h: Heap, p: Pool, handed: seq<Block>)
    requires Sound(h, p, handed) && p.free != {}
    ensures var t := Take(p, HeapPage); Sound(Grow(h, t.frame), t.pool, handed)
  {
    var t := Take(p, HeapPage);
    var b := PageBlock(t.frame);
    assert OnHeapPage(b, t.pool.own);
    var e := SpliceIsPrefix(h.blocks, h.end, b);
    var kept := h.blocks[..e + 1];
    var bs := kept + [b];
    assert Grow(h, t.frame).blocks == bs;
    assert bs[|bs| - 1].addr == Grow(h, t.frame).end;
    forall i | 0 <= i < |handed| ensures Disjoint(b, handed[i]) {
      NewPageApart(handed[i], p, t.frame);
    }
    forall i | 0 <= i < |kept| ensures Disjoint(kept[i], b) {
      assert OnHeapPage(h.blocks[i], p.own);
      NewPageApart(kept[i], p, t.frame);
    }
    assert Apart(kept) by {
      forall i, j | 0 <= i < j < |kept| ensures Disjoint(kept[i], kept[j]) {
        assert Disjoint(h.blocks[i], h.blocks[j]);
      }
    }
    ApartAppend(kept, b);
    forall i | 0 <= i < |bs| ensures OnHeapPage(bs[i], t.pool.own) {
      if i < |kept| { assert OnHeapPage(h.blocks[i], p.own); }
    }
    forall i, j | 0 <= i < |bs| && 0 <= j < |handed| && !bs[i].used ensures Disjoint(bs[i], handed[j]) {
      if i < |kept| { assert Disjoint(h.blocks[i], handed[j]); }
    }
  }

  lemma NewPageApart(b: Block, p: Pool, f: FrameNo)
    requires OnHeapPage(b, p.own) && p.Valid() && f in p.free
    ensures Disjoint(b, PageBlock(f)) && Disjoint(PageBlock(f), b)
  {}

  // ----- malloc -----

  /** malloc keeps the invariant whatever it has to do: the block it hands out, if any, lies inside one heap
      page, overlaps nothing handed out before, and is between 0 and 12 bytes larger than asked for. */
  lemma {:induction false} MallocSound(h: Heap, p: Pool, handed: seq<Block>, size: u32)
    requires Sound(h, p, handed)
    ensures var g := Malloc(h, p, size);
      match g.block
      case Some(b) => Sound(g.heap, g.pool, handed + [b]) && size <= b.size <= size + HEADER
      case None => Sound(g.heap, g.pool, handed)
    decreases |p.free|
  {
    var i := FirstFit(h.blocks, size);
    if i < |h.blocks| {
      PlaceSound(h, p, handed, i, size);
    } else {
      var t := Take(p, HeapPage);
      if t.frame != 0 {
        GrowSound(h, p, handed);
        assert |t.pool.free| < |p.free|;
        MallocSound(Grow(h, t.frame), t.pool, handed, size);
      }
    }
  }

  /** `free` on a whole heap. */
  function FreeIn(h: Heap, addr: nat): Heap {
    Heap(Free(h.blocks, addr), h.end, h.limit)
  }

  /** A heap in use, with the blocks it has handed out and not got back. */
  datatype Session = Session(heap: Heap, pool: Pool, handed: seq<Block>)

  ghost function Do(s: Session, c: Call): Session {
    match c
    case Alloc(size) =>
      var g := Malloc(s.heap, s.pool, size);
      Session(g.heap, g.pool, if g.block.Some? then s.handed + [g.block.value] else s.handed)
    case FreeAt(addr) => Session(FreeIn(s.heap, addr), s.pool, Without(s.handed, addr))
    case Other(purpose) => Session(s.heap, Take(s.pool, purpose).pool, s.handed)
  }

  ghost function DoAll(s: Session, cs: seq<Call>): Session
    decreases |cs|
  {
    if cs == [] then s else DoAll(Do(s, cs[0]), cs[1..])
  }

  predicate NoFrees(cs: seq<Call>) {
    forall i :: 0 <= i < |cs| ==> !cs[i].FreeAt?
  }

  lemma TakeSound(h: Heap, p: Pool, handed: seq<Block>, purpose: Owner)
    requires Sound(h, p, handed)
    ensures Sound(h, Take(p, purpose).pool, handed)
  {}

  lemma {:induction false} NoFreesSound(s: Session, cs: seq<Call>)
    requires Sound(s.heap, s.pool, s.handed) && NoFrees(cs)
    ensures var r := DoAll(s, cs); Sound(r.heap, r.pool, r.handed) && s.handed <= r.handed
    decreases |cs|
  {
    hide Sound, Malloc;
    if cs != [] {
      match cs[0] {
        case Alloc(size) => MallocSound(s.heap, s.pool, s.handed, size);
        case Other(purpose) => TakeSound(s.heap, s.pool, s.handed, purpose);
      }
      NoFreesSound(Do(s, cs[0]), cs[1..]);
    }
  }

  lemma HeapInitSound(p: Pool)
    requires p.Valid() && p.free != {}
    ensures Sound(HeapInit(p).heap, HeapInit(p).pool, [])
  {
    var h := HeapInit(p).heap;
    assert h.blocks[0].addr == h.end;
  }

  /** From `heap_init` on, after any run of mallocs with any number of growths, whoever else takes frames in
      between: `heap_end` is still listed, every block handed out lies inside one page owned by the heap, and no
      two of them overlap in header or payload. */
  lemma MallocOnlyRuns(p: Pool, cs: seq<Call>)
    requires p.Valid() && p.free != {} && NoFrees(cs)
    ensures var g := HeapInit(p);
      var r := DoAll(Session(g.heap, g.pool, []), cs);
      && HasAddr(r.heap.blocks, r.heap.end)
      && AllOnHeapPages(r.handed, r.pool.own)
      && (forall i, j :: 0 <= i < j < |r.handed| ==> Disjoint(r.handed[i], r.handed[j]))
  {
    var g := HeapInit(p);
    HeapInitSound(p);
    NoFreesSound(Session(g.heap, g.pool, []), cs);
  }

  // ----- When the heap grows -----

  lemma {:induction false} FirstFitConcat(a: seq<Block>, b: seq<Block>, size: nat)
    ensures FirstFit(a + b, size) == if FirstFit(a, size) < |a| then FirstFit(a, size) else |a| + FirstFit(b, size)
    decreases |a|
  {
    if a == [] {
      assert a + b == b;
    } else {
      assert (a + b)[1..] == a[1..] + b;
      FirstFitConcat(a[1..], b, size);
    }
  }

  lemma {:induction false} FirstFitPrefix(bs: seq<Block>, n: nat, size: nat)
    requires n <= |bs| && FirstFit(bs, size) == |bs|
    ensures FirstFit(bs[..n], size) == n
  {}

  /** After a growth the new page is the only place a request can fit. */
  lemma FitAfterGrowth(h: Heap, f: FrameNo, size: nat) returns (n: nat)
    requires HasAddr(h.blocks, h.end) && FirstFit(h.blocks, size) == |h.blocks|
    ensures n + 1 == |Grow(h, f).blocks| && Grow(h, f).blocks[n] == PageBlock(f)
    ensures FirstFit(Grow(h, f).blocks, size) == if size <= PAGE_PAYLOAD then n else n + 1
  {
    var e := SpliceIsPrefix(h.blocks, h.end, PageBlock(f));
    n := e + 1;
    FirstFitPrefix(h.blocks, n, size);
    FirstFitConcat(h.blocks[..n], [PageBlock(f)], size);
    assert FirstFit([PageBlock(f)], size) == if size <= PAGE_PAYLOAD then 0 else 1 by {
      assert [PageBlock(f)][1..] == [];
    }
  }

  /** A request of at most a page grows the heap only if nothing listed fits, then exactly once, and succeeds in
      the new page; it fails exactly if nothing fits and no page is left.  A growth keeps the list up to and
      including the block at `heap_end`, hangs the new page behind it, and moves `heap_end` there and `heap_limit`
      on by a page. */
  lemma PageRequest(h: Heap, p: Pool, size: u32)
    requires HasAddr(h.blocks, h.end) && 0 !in p.free && size <= 4084
    ensures var g := Malloc(h, p, size);
      if FirstFit(h.blocks, size) < |h.blocks| then
        g.pool == p && g.block.Some? && g.heap.end == h.end && g.heap.limit == h.limit
      else if p.free != {} then
        var page := Take(p, HeapPage).frame * 4096;
        && g.pool == Take(p, HeapPage).pool && g.block.Some? && g.block.value.addr == page
        && g.heap.end == page && g.heap.limit == (h.limit + 4096) % 0x1_0000_0000
        && exists e :: KeptTo(h, g.heap, e) && g.heap.blocks[e + 1..] == Carve(Block(page, 4084, false), size)
      else g == Given(h, p.(failed := true), None)
  {
    if FirstFit(h.blocks, size) == |h.blocks| && p.free != {} {
      hide Malloc, Carve, Grow;
      var t := Take(p, HeapPage);
      var b := PageBlock(t.frame);
      var e := SpliceIsPrefix(h.blocks, h.end, b);
      OneGrowth(h, p, size, e);
      CarveAt(b, size);
      var g := Malloc(h, p, size);
      assert g.heap.blocks == h.blocks[..e + 1] + Carve(b, size);
      assert g.heap.blocks[..e + 1] == h.blocks[..e + 1];
      assert KeptTo(h, g.heap, e);
      assert g.heap.blocks[e + 1..] == Carve(b, size);
    }
  }

  lemma CarveAt(b: Block, size: u32)
    ensures Carve(b, size)[0].addr == b.addr
  {}

  lemma OneGrowth(h: Heap, p: Pool, size: u32, e: nat)
    requires HasAddr(h.blocks, h.end) && 0 !in p.free && size <= 4084
    requires FirstFit(h.blocks, size) == |h.blocks| && p.free != {}
    requires e < |h.blocks| && Splice(h.blocks, h.end, PageBlock(Take(p, HeapPage).frame)) ==
      h.blocks[..e + 1] + [PageBlock(Take(p, HeapPage).frame)]
    ensures var t := Take(p, HeapPage);
      var c := Carve(PageBlock(t.frame), size);
      Malloc(h, p, size) ==
        Given(Heap(h.blocks[..e + 1] + c, t.frame * PAGE_SIZE, Wrap(h.limit + PAGE_SIZE)), t.pool, Some(c[0]))
  {
    hide Carve, Splice;
    var t := Take(p, HeapPage);
    var n := FitAfterGrowth(h, t.frame, size);
    var bs, b := Grow(h, t.frame).blocks, PageBlock(t.frame);
    assert n == e + 1 && bs == h.blocks[..n] + [b];
    assert |t.pool.free| < |p.free|;
    assert Place(bs, n, size) == h.blocks[..n] + Carve(b, size);
  }

  /** The lists agree up to and including block e, the one at `heap_end` before. */
  predicate KeptTo(h: Heap, h': Heap, e: nat) {
    e < |h.blocks| && e < |h'.blocks| && h.blocks[e].addr == h.end && h'.blocks[..e + 1] == h.blocks[..e + 1]
  }

  /** A request of more than a page is never met: it takes every remaining page for the heap, then fails. */
  lemma {:induction false} OversizeRequestDrains(h: Heap, p: Pool, size: u32)
    requires HasAddr(h.blocks, h.end) && 0 !in p.free
    requires FirstFit(h.blocks, size) == |h.blocks| && size > PAGE_PAYLOAD
    ensures var g := Malloc(h, p, size); g.block.None? && g.pool.free == {} && g.pool.failed
    decreases |p.free|
  {
    if p.free != {} {
      var t := Take(p, HeapPage);
      var n := FitAfterGrowth(h, t.frame, size);
      assert |t.pool.free| < |p.free|;
      assert Grow(h, t.frame).blocks[n].addr == Grow(h, t.frame).end;
      OversizeRequestDrains(Grow(h, t.frame), t.pool, size);
    }
  }

  /** In a heap where nothing was ever freed, that is every request above 4084 bytes. */
  lemma NothingFitsOversize(h: Heap, p: Pool, handed: seq<Block>, size: u32)
    requires Sound(h, p, handed) && size > PAGE_PAYLOAD
    ensures FirstFit(h.blocks, size) == |h.blocks|
  {}
}
