/** Before the heap first grows, its block list tiles one page with no two free neighbours, and such a list
    is determined by the used blocks alone.  Everything a user of malloc and free may rely on follows. */
module HeapCanonical {
  import opened Words
  import opened HeapList

  /** The page of the heap: short enough that no size in it wraps. */
  predicate Arena(bs: seq<Block>, lo: nat, hi: nat) {
    Tiled(bs, lo, hi) && Settled(bs) && hi - lo < WORD_LIMIT
  }

  /** Canonical form: the list is the layout of its used blocks. */
  lemma {:induction false} Canonical(bs: seq<Block>, lo: nat, hi: nat)
    requires Tiled(bs, lo, hi) && Settled(bs)
    ensures bs == Layout(UsedOf(bs), lo, hi)
    decreases |bs|
  {
    if bs != [] {
      var b, rest := bs[0], bs[1..];
      TiledEnd(rest, b.Limit(), hi);
      Canonical(rest, b.Limit(), hi);
      assert bs == [b] + rest;
      if !b.used && rest != [] {
        assert UsedOf(bs) == UsedOf(rest) && UsedOf(rest)[0] == rest[0];
        assert UsedOf(rest) == [rest[0]] + UsedOf(rest[1..]);
      }
    }
  }

  /** Two settled tilings with the same used blocks are the same list. */
  lemma SameUsedSameList(bs: seq<Block>, cs: seq<Block>, lo: nat, hi: nat)
    requires Tiled(bs, lo, hi) && Settled(bs) && Tiled(cs, lo, hi) && Settled(cs)
    requires UsedOf(bs) == UsedOf(cs)
    ensures bs == cs
  {
    Canonical(bs, lo, hi);
    Canonical(cs, lo, hi);
  }

  lemma {:induction false} TiledEnd(bs: seq<Block>, lo: nat, hi: nat)
    requires Tiled(bs, lo, hi)
    ensures hi == lo + Bytes(bs)
    decreases |bs|
  {
    if bs != [] { TiledEnd(bs[1..], bs[0].Limit(), hi); }
  }

  /** Splitting a tiling at any point of the list. */
  lemma {:induction false} TiledSplit(a: seq<Block>, b: seq<Block>, lo: nat, hi: nat)
    ensures Tiled(a + b, lo, hi) <==> Tiled(a, lo, lo + Bytes(a)) && Tiled(b, lo + Bytes(a), hi)
    decreases |a|
  {
    if a == [] {
      assert a + b == b;
    } else {
      assert (a + b)[1..] == a[1..] + b;
      TiledSplit(a[1..], b, a[0].Limit(), hi);
    }
  }

  lemma {:induction false} UsedOfConcat(a: seq<Block>, b: seq<Block>)
    ensures UsedOf(a + b) == UsedOf(a) + UsedOf(b)
    decreases |a|
  {
    if a == [] {
      assert a + b == b;
    } else {
      assert (a + b)[1..] == a[1..] + b;
      UsedOfConcat(a[1..], b);
      var head := if a[0].used then [a[0]] else [];
      assert UsedOf(a + b) == head + UsedOf((a + b)[1..]);
      assert head + (UsedOf(a[1..]) + UsedOf(b)) == (head + UsedOf(a[1..])) + UsedOf(b);
    }
  }

  /** Neighbours across a seam must not both be free either. */
  lemma {:induction false} SettledSplit(a: seq<Block>, b: seq<Block>)
    ensures Settled(a + b) <==>
      Settled(a) && Settled(b) && (a == [] || b == [] || a[|a| - 1].used || b[0].used)
    decreases |a|
  {
    if a == [] {
      assert a + b == b;
    } else {
      assert (a + b)[1..] == a[1..] + b;
      SettledSplit(a[1..], b);
    }
  }

  /** Blocks of a tiling are disjoint, in address order, and inside the arena. */
  lemma {:induction false} TiledDisjoint(bs: seq<Block>, lo: nat, hi: nat, i: nat, j: nat)
    requires Tiled(bs, lo, hi) && i < j < |bs|
    ensures lo <= bs[i].addr && bs[i].Limit() <= bs[j].addr && bs[j].Limit() <= hi
    decreases |bs|
  {
    TiledSplit(bs[..j], bs[j..], lo, hi);
    assert bs == bs[..j] + bs[j..];
    var mid := lo + Bytes(bs[..j]);
    TiledEnd(bs[j..][1..], bs[j].Limit(), hi);
    TiledSplit(bs[..i], bs[..j][i..], lo, mid);
    assert bs[..j] == bs[..i] + bs[..j][i..];
    TiledEnd(bs[..j][i..][1..], bs[i].Limit(), mid);
  }

  lemma TiledInside(bs: seq<Block>, lo: nat, hi: nat, i: nat)
    requires Tiled(bs, lo, hi) && i < |bs|
    ensures lo <= bs[i].addr && bs[i].Limit() <= hi
  {
    TiledSplit(bs[..i], bs[i..], lo, hi);
    assert bs == bs[..i] + bs[i..];
    TiledEnd(bs[i..][1..], bs[i].Limit(), hi);
  }

  // ----- malloc -----

  lemma CarveShape(b: Block, size: u32)
    requires !b.used && size <= b.size < WORD_LIMIT - HEADER
    ensures var c := Carve(b, size);
      && Tiled(c, b.addr, b.Limit())
      && Bytes(c) == HEADER + b.size
      && c != [] && Settled(c)
      && c[0].addr == b.addr && c[0].used && size <= c[0].size <= size + HEADER
      && UsedOf(c) == [c[0]]
      && (|c| == 2 ==> c[1].size > 0)
  {
    var c := Carve(b, size);
    if |c| == 2 {
      assert c[1..] == [c[1]] && c[1..][1..] == [];
      assert Tiled(c[1..], c[0].Limit(), b.Limit());
      assert Bytes(c[1..]) == HEADER + c[1].size;
      assert UsedOf(c[1..]) == [];
    } else {
      assert c[1..] == [];
    }
  }

  lemma PlaceTiled(bs: seq<Block>, lo: nat, hi: nat, i: nat, size: u32)
    requires Tiled(bs, lo, hi) && hi - lo < WORD_LIMIT && i < |bs| && Fits(bs[i], size)
    ensures Tiled(Place(bs, i, size), lo, hi) && bs[i].size < WORD_LIMIT - HEADER
  {
    var pre, b, post := bs[..i], bs[i], bs[i + 1..];
    var c, mid := Carve(b, size), lo + Bytes(bs[..i]);
    assert bs == pre + ([b] + post) && Place(bs, i, size) == pre + (c + post);
    TiledSplit(pre, [b] + post, lo, hi);
    TiledSplit([b], post, mid, hi);
    TiledEnd(post, b.Limit(), hi);
    CarveShape(b, size);
    TiledSplit(c, post, mid, hi);
    TiledSplit(pre, c + post, lo, hi);
  }

  lemma PlaceSettled(bs: seq<Block>, i: nat, size: u32)
    requires Settled(bs) && i < |bs| && Fits(bs[i], size) && bs[i].size < WORD_LIMIT - HEADER
    ensures Settled(Place(bs, i, size))
  {
    hide Carve;
    var pre, b, post := bs[..i], bs[i], bs[i + 1..];
    var c := Carve(b, size);
    assert bs == pre + ([b] + post) && Place(bs, i, size) == pre + (c + post);
    CarveShape(b, size);
    SettledSplit(pre, [b] + post);
    SettledSplit([b], post);
    SettledSplit(c, post);
    SettledSplit(pre, c + post);
  }

  lemma PlaceUses(bs: seq<Block>, i: nat, size: u32)
    requires i < |bs| && Fits(bs[i], size) && bs[i].size < WORD_LIMIT - HEADER
    ensures var r := Place(bs, i, size);
      && i < |r|
      && UsedOf(r) == UsedOf(bs[..i]) + ([r[i]] + UsedOf(bs[i + 1..]))
      && UsedOf(bs) == UsedOf(bs[..i]) + UsedOf(bs[i + 1..])
      && r[i].addr == bs[i].addr && r[i].used && size <= r[i].size <= size + HEADER
  {
    var pre, b, post := bs[..i], bs[i], bs[i + 1..];
    var c := Carve(b, size);
    CarveShape(b, size);
    UsedOfConcat(c, post);
    UsedOfConcat(pre, c + post);
    UsedOfConcat([b], post);
    UsedOfConcat(pre, [b] + post);
    assert bs == pre + ([b] + post) && Place(bs, i, size) == pre + (c + post);
  }

  /** Handing out a block keeps the arena, adds exactly that block to the used ones, and gives at least the
      bytes asked for and at most a header more. */
  lemma PlaceKeepsArena(bs: seq<Block>, lo: nat, hi: nat, i: nat, size: u32)
    requires Arena(bs, lo, hi) && i < |bs| && Fits(bs[i], size)
    ensures var r := Place(bs, i, size);
      && Arena(r, lo, hi)
      && Bytes(r) == Bytes(bs)
      && i < |r|
      && UsedOf(r) == UsedOf(bs[..i]) + ([r[i]] + UsedOf(bs[i + 1..]))
      && r[i].addr == bs[i].addr && r[i].used && size <= r[i].size <= size + HEADER
  {
    PlaceTiled(bs, lo, hi, i, size);
    PlaceSettled(bs, i, size);
    PlaceUses(bs, i, size);
    TiledEnd(bs, lo, hi);
    TiledEnd(Place(bs, i, size), lo, hi);
  }

  // ----- free -----

  lemma {:induction false} ReleaseKeeps(bs: seq<Block>, addr: nat, lo: nat, hi: nat)
    ensures Tiled(Release(bs, addr), lo, hi) <==> Tiled(bs, lo, hi)
    ensures UsedOf(Release(bs, addr)) == Without(UsedOf(bs), addr)
    decreases |bs|
  {
    if bs != [] {
      ReleaseKeeps(bs[1..], addr, bs[0].Limit(), hi);
      WithoutConcat(if bs[0].used then [bs[0]] else [], UsedOf(bs[1..]), addr);
    }
  }

  lemma {:induction false} WithoutConcat(a: seq<Block>, b: seq<Block>, addr: nat)
    ensures Without(a + b, addr) == Without(a, addr) + Without(b, addr)
    decreases |a|
  {
    if a == [] {
      assert a + b == b;
    } else {
      assert (a + b)[1..] == a[1..] + b;
      WithoutConcat(a[1..], b, addr);
    }
  }

  /** The single pass settles the list, keeps the tiling, and leaves the used blocks alone. */
  lemma {:induction false} CoalesceSettles(bs: seq<Block>, lo: nat, hi: nat)
    requires Tiled(bs, lo, hi) && hi - lo < WORD_LIMIT
    ensures Tiled(Coalesce(bs), lo, hi) && Settled(Coalesce(bs)) && UsedOf(Coalesce(bs)) == UsedOf(bs)
    ensures bs != [] ==> Coalesce(bs) != [] && Coalesce(bs)[0].used == bs[0].used
    decreases |bs|
  {
    if |bs| >= 2 {
      TiledEnd(bs, lo, hi);
      var rest := bs[1..];
      if !bs[0].used && !bs[1].used {
        var merged := Block(bs[0].addr, bs[0].size + HEADER + bs[1].size, false);
        var cs := [merged] + bs[2..];
        assert rest[1..] == bs[2..] && cs[1..] == bs[2..];
        CoalesceSettles(cs, lo, hi);
        assert UsedOf(rest) == UsedOf(bs[2..]);
      } else {
        CoalesceSettles(rest, bs[0].Limit(), hi);
        assert ([bs[0]] + Coalesce(rest))[1..] == Coalesce(rest);
      }
    }
  }

  /** `free` keeps the arena and removes exactly the freed block from the used ones. */
  lemma FreeKeepsArena(bs: seq<Block>, addr: nat, lo: nat, hi: nat)
    requires Tiled(bs, lo, hi) && hi - lo < WORD_LIMIT
    ensures Arena(Free(bs, addr), lo, hi)
    ensures UsedOf(Free(bs, addr)) == Without(UsedOf(bs), addr)
  {
    ReleaseKeeps(bs, addr, lo, hi);
    CoalesceSettles(Release(bs, addr), lo, hi);
  }

  // ----- Laws -----

  lemma {:induction false} WithoutAbsent(us: seq<Block>, addr: nat)
    requires forall k :: 0 <= k < |us| ==> us[k].addr != addr
    ensures Without(us, addr) == us
    decreases |us|
  {
    if us != [] { WithoutAbsent(us[1..], addr); }
  }

  lemma {:induction false} UsedOfIsPart(bs: seq<Block>, k: nat)
    requires k < |UsedOf(bs)|
    ensures UsedOf(bs)[k] in bs && UsedOf(bs)[k].used
    decreases |bs|
  {
    if bs[0].used {
      if k > 0 { UsedOfIsPart(bs[1..], k - 1); }
    } else {
      UsedOfIsPart(bs[1..], k);
    }
  }

  /** No used block before or after position i has the address of block i. */
  lemma OthersElsewhere(bs: seq<Block>, lo: nat, hi: nat, i: nat)
    requires Tiled(bs, lo, hi) && i < |bs|
    ensures Without(UsedOf(bs[..i]), bs[i].addr) == UsedOf(bs[..i])
    ensures Without(UsedOf(bs[i + 1..]), bs[i].addr) == UsedOf(bs[i + 1..])
  {
    var before, after := UsedOf(bs[..i]), UsedOf(bs[i + 1..]);
    forall k | 0 <= k < |before| ensures before[k].addr != bs[i].addr {
      UsedOfIsPart(bs[..i], k);
      var j :| 0 <= j < i && bs[..i][j] == before[k];
      TiledDisjoint(bs, lo, hi, j, i);
    }
    forall k | 0 <= k < |after| ensures after[k].addr != bs[i].addr {
      UsedOfIsPart(bs[i + 1..], k);
      var j :| 0 <= j < |bs| - i - 1 && bs[i + 1..][j] == after[k];
      TiledDisjoint(bs, lo, hi, i, i + 1 + j);
    }
    WithoutAbsent(before, bs[i].addr);
    WithoutAbsent(after, bs[i].addr);
  }

  lemma PlacedAndFreedUses(bs: seq<Block>, lo: nat, hi: nat, i: nat, size: u32)
    requires Arena(bs, lo, hi) && i < |bs| && Fits(bs[i], size) && bs[i].size < WORD_LIMIT - HEADER
    ensures Without(UsedOf(Place(bs, i, size)), bs[i].addr) == UsedOf(bs)
  {
    PlaceUses(bs, i, size);
    OthersElsewhere(bs, lo, hi, i);
    WithoutMiddle(UsedOf(bs[..i]), Place(bs, i, size)[i], UsedOf(bs[i + 1..]), bs[i].addr);
  }

  lemma WithoutMiddle(before: seq<Block>, b: Block, after: seq<Block>, addr: nat)
    requires Without(before, addr) == before && Without(after, addr) == after && b.addr == addr
    ensures Without(before + ([b] + after), addr) == before + after
  {
    WithoutConcat(before, [b] + after, addr);
    WithoutConcat([b], after, addr);
    assert Without([b], addr) == [];
    assert [] + after == after;
  }

  /** malloc followed by free of the result restores the exact block list. */
  lemma MallocFreeRestores(bs: seq<Block>, lo: nat, hi: nat, size: u32)
    requires Arena(bs, lo, hi) && FirstFit(bs, size) < |bs|
    ensures var i := FirstFit(bs, size); Free(Place(bs, i, size), bs[i].addr) == bs
  {
    hide Place, Free, Tiled, Settled;
    var i := FirstFit(bs, size);
    var r := Place(bs, i, size);
    PlaceKeepsArena(bs, lo, hi, i, size);
    PlaceTiled(bs, lo, hi, i, size);
    FreeKeepsArena(r, bs[i].addr, lo, hi);
    PlacedAndFreedUses(bs, lo, hi, i, size);
    SameUsedSameList(Free(r, bs[i].addr), bs, lo, hi);
  }

  lemma {:induction false} WithoutCommutes(us: seq<Block>, a: nat, b: nat)
    ensures Without(Without(us, a), b) == Without(Without(us, b), a)
    decreases |us|
  {
    if us != [] {
      var h, t := [us[0]], us[1..];
      WithoutCommutes(t, a, b);
      WithoutConcat(Without(h, a), Without(t, a), b);
      WithoutConcat(Without(h, b), Without(t, b), a);
      assert h + t == us;
      WithoutConcat(h, t, a);
      WithoutConcat(h, t, b);
    }
  }

  /** The order of two frees does not matter: the resulting lists are identical. */
  lemma FreesCommute(bs: seq<Block>, lo: nat, hi: nat, a: nat, b: nat)
    requires Arena(bs, lo, hi)
    ensures Free(Free(bs, a), b) == Free(Free(bs, b), a)
  {
    FreeKeepsArena(bs, a, lo, hi);
    FreeKeepsArena(bs, b, lo, hi);
    FreeKeepsArena(Free(bs, a), b, lo, hi);
    FreeKeepsArena(Free(bs, b), a, lo, hi);
    WithoutCommutes(UsedOf(bs), a, b);
    SameUsedSameList(Free(Free(bs, a), b), Free(Free(bs, b), a), lo, hi);
  }

  function FreeEach(bs: seq<Block>, addrs: seq<nat>): seq<Block>
    decreases |addrs|
  {
    if addrs == [] then bs else FreeEach(Free(bs, addrs[0]), addrs[1..])
  }

  lemma {:induction false} WithoutMembers(us: seq<Block>, addr: nat, b: Block)
    ensures b in Without(us, addr) <==> b in us && b.addr != addr
    decreases |us|
  {
    if us != [] { WithoutMembers(us[1..], addr, b); }
  }

  /** Freeing every used block, in any order, restores the single block that fills the arena. */
  lemma {:induction false} FreeingAllRestores(bs: seq<Block>, lo: nat, hi: nat, addrs: seq<nat>)
    requires Arena(bs, lo, hi) && lo + HEADER <= hi
    requires forall b :: b in UsedOf(bs) ==> b.addr in addrs
    ensures FreeEach(bs, addrs) == [Block(lo, hi - lo - HEADER, false)]
    decreases |addrs|
  {
    if addrs == [] {
      var us := UsedOf(bs);
      assert forall k :: 0 <= k < |us| ==> us[k] in us;
      Canonical(bs, lo, hi);
    } else {
      FreeKeepsArena(bs, addrs[0], lo, hi);
      var bs1 := Free(bs, addrs[0]);
      forall b | b in UsedOf(bs1) ensures b.addr in addrs[1..] {
        WithoutMembers(UsedOf(bs), addrs[0], b);
      }
      FreeingAllRestores(bs1, lo, hi, addrs[1..]);
    }
  }

  // ----- Runs before the first growth -----

  /** The list after a run that never makes the heap grow, or None once a request does not fit. */
  function Run(bs: seq<Block>, calls: seq<Call>): Option<seq<Block>>
    decreases |calls|
  {
    if calls == [] then Some(bs)
    else match calls[0]
      case Alloc(size) =>
        var i := FirstFit(bs, size);
        if i < |bs| then Run(Place(bs, i, size), calls[1..]) else None
      case FreeAt(addr) => Run(Free(bs, addr), calls[1..])
      case Other(_) => Run(bs, calls[1..])
  }

  /** The user's books: the blocks malloc returned during the run, without those freed since. */
  function Books(bs: seq<Block>, live: set<Block>, calls: seq<Call>): set<Block>
    decreases |calls|
  {
    if calls == [] then live
    else match calls[0]
      case Alloc(size) =>
        var i := FirstFit(bs, size);
        if i < |bs| then Books(Place(bs, i, size), live + {Carve(bs[i], size)[0]}, calls[1..]) else live
      case FreeAt(addr) => Books(Free(bs, addr), (set b | b in live && b.addr != addr), calls[1..])
      case Other(_) => Books(bs, live, calls[1..])
  }

  lemma PlaceBooks(bs: seq<Block>, lo: nat, hi: nat, i: nat, size: u32)
    requires Arena(bs, lo, hi) && i < |bs| && Fits(bs[i], size)
    ensures forall b :: b in UsedOf(Place(bs, i, size)) <==> b in UsedOf(bs) || b == Carve(bs[i], size)[0]
  {
    PlaceTiled(bs, lo, hi, i, size);
    PlaceUses(bs, i, size);
    assert Place(bs, i, size)[i] == Carve(bs[i], size)[0];
  }

  /** Every run of mallocs and frees before the first growth leaves the page tiled exactly, header and payload
      bytes adding up, live payloads disjoint, no two free neighbours, and as used blocks exactly those malloc
      returned and nobody freed since. */
  lemma {:induction false} RunKeepsArena(bs: seq<Block>, lo: nat, hi: nat, live: set<Block>, calls: seq<Call>)
    requires Arena(bs, lo, hi) && Run(bs, calls).Some?
    requires forall b :: b in UsedOf(bs) <==> b in live
    ensures Arena(Run(bs, calls).value, lo, hi) && Bytes(Run(bs, calls).value) == hi - lo
    ensures forall b :: b in UsedOf(Run(bs, calls).value) <==> b in Books(bs, live, calls)
    decreases |calls|
  {
    hide Tiled, Settled, UsedOf, Place, Carve;
    TiledEnd(bs, lo, hi);
    if calls != [] {
      match calls[0]
      case Alloc(size) =>
        var i := FirstFit(bs, size);
        PlaceKeepsArena(bs, lo, hi, i, size);
        PlaceBooks(bs, lo, hi, i, size);
        RunKeepsArena(Place(bs, i, size), lo, hi, live + {Carve(bs[i], size)[0]}, calls[1..]);
      case FreeAt(addr) =>
        FreeKeepsArena(bs, addr, lo, hi);
        var kept := set b | b in live && b.addr != addr;
        forall b ensures b in UsedOf(Free(bs, addr)) <==> b in kept { WithoutMembers(UsedOf(bs), addr, b); }
        RunKeepsArena(Free(bs, addr), lo, hi, kept, calls[1..]);
      case Other(_) =>
        RunKeepsArena(bs, lo, hi, live, calls[1..]);
    }
  }

  lemma WholePageArena(page: nat)
    ensures var start := [Block(page, PAGE_PAYLOAD, false)];
      Arena(start, page, page + PAGE_SIZE) && UsedOf(start) == []
  {
    var start := [Block(page, PAGE_PAYLOAD, false)];
    assert start[1..] == [];
  }

  /** ... so a run that frees everything it allocated ends with the page as `heap_init` left it. */
  lemma RunAndFreeAll(page: nat, calls: seq<Call>, addrs: seq<nat>)
    requires var start := [Block(page, PAGE_PAYLOAD, false)];
      Run(start, calls).Some? && forall b :: b in Books(start, {}, calls) ==> b.addr in addrs
    ensures var start := [Block(page, PAGE_PAYLOAD, false)];
      FreeEach(Run(start, calls).value, addrs) == start
  {
    var start := [Block(page, PAGE_PAYLOAD, false)];
    WholePageArena(page);
    RunKeepsArena(start, page, page + PAGE_SIZE, {}, calls);
    FreeingAllRestores(Run(start, calls).value, page, page + PAGE_SIZE, addrs);
  }
}
