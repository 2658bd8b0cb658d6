/** 32-bit words and the C bit operators used on page-table entries and addresses.

    Words are integers below 2^32.  `And` and `Or` are defined bit by bit; the lemmas show that every
    mask and shift of the paging code is plain arithmetic, which is what the rest of the model uses. */
module Words {

  const PAGE_SIZE := 4096
  const WORD_LIMIT := 0x1_0000_0000
  const FRAME_COUNT := 0x10_0000

  type u32 = x: int | 0 <= x < 0x1_0000_0000
  type FrameNo = x: int | 0 <= x < 0x10_0000

  datatype Option<+T> = None | Some(value: T)

  /** C's unsigned 32-bit wrap-around. */
  function Wrap(x: int): u32 {
    if 0 <= x < WORD_LIMIT then x else x % WORD_LIMIT
  }

  function Pow2(k: nat): (r: nat)
    ensures r > 0
  {
    if k == 0 then 1 else 2 * Pow2(k - 1)
  }

  /** C's `a & b` on non-negative integers. */
  function And(a: nat, b: nat): nat {
    if a == 0 || b == 0 then 0
    else 2 * And(a / 2, b / 2) + (if a % 2 == 1 && b % 2 == 1 then 1 else 0)
  }

  /** C's `a | b` on non-negative integers. */
  function Or(a: nat, b: nat): nat {
    if a == 0 then b
    else if b == 0 then a
    else 2 * Or(a / 2, b / 2) + (if a % 2 == 1 || b % 2 == 1 then 1 else 0)
  }

  /** `Or` unfolded once, whichever argument is zero. */
  lemma {:induction false} OrStep(a: nat, b: nat)
    ensures Or(a, b) / 2 == Or(a / 2, b / 2)
    ensures Or(a, b) % 2 == (if a % 2 == 1 || b % 2 == 1 then 1 else 0)
  {}

  lemma {:induction false} OrJoin(h: nat, l: nat, h': nat, l': nat)
    requires l < 2 && l' < 2
    ensures Or(2 * h + l, 2 * h' + l') == 2 * Or(h, h') + (if l == 1 || l' == 1 then 1 else 0)
  {}

  lemma MulMonotone(d: nat, x: int, y: int)
    requires x <= y
    ensures d * x <= d * y
  {}

  /** `|` acts separately on the bits from k up and on the bits below k. */
  lemma {:induction false} OrBlocks(h: nat, l: nat, h': nat, l': nat, k: nat)
    requires l < Pow2(k) && l' < Pow2(k)
    ensures Pow2(k) * h + l >= 0 && Pow2(k) * h' + l' >= 0
    ensures Or(Pow2(k) * h + l, Pow2(k) * h' + l') == Pow2(k) * Or(h, h') + Or(l, l')
  {
    if k > 0 {
      var p := Pow2(k - 1);
      DoubleMul(k, h);
      DoubleMul(k, h');
      DoubleMul(k, Or(h, h'));
      OrBlocks(h, l / 2, h', l' / 2, k - 1);
      assert l / 2 < p && l' / 2 < p;
      hide Or, Pow2;
      var x, y := p * h + l / 2, p * h' + l' / 2;
      OrJoin(x, l % 2, y, l' % 2);
      OrJoin(l / 2, l % 2, l' / 2, l' % 2);
    }
  }

  lemma DoubleMul(k: nat, h: nat)
    requires k > 0
    ensures Pow2(k) * h == 2 * (Pow2(k - 1) * h)
    ensures Pow2(k - 1) * h >= 0
  {}

  /** The page number and the offset of an `|` of words. */
  lemma OrPages(a: nat, b: nat)
    ensures Or(a, b) / PAGE_SIZE == Or(a / PAGE_SIZE, b / PAGE_SIZE)
    ensures Or(a, b) % PAGE_SIZE == Or(a % PAGE_SIZE, b % PAGE_SIZE)
  {
    Powers();
    OrBlocks(a / PAGE_SIZE, a % PAGE_SIZE, b / PAGE_SIZE, b % PAGE_SIZE, 12);
    OrBound(a % PAGE_SIZE, b % PAGE_SIZE, 12);
    assert PAGE_SIZE * (a / PAGE_SIZE) + a % PAGE_SIZE == a;
  }

  lemma {:induction false} AndJoin(h: nat, l: nat, h': nat, l': nat)
    requires l < 2 && l' < 2
    ensures And(2 * h + l, 2 * h' + l') == 2 * And(h, h') + (if l == 1 && l' == 1 then 1 else 0)
  {}

  /** Masking with k ones keeps the bits below k. */
  lemma {:induction false} AndLowMask(h: nat, l: nat, k: nat)
    requires l < Pow2(k)
    ensures Pow2(k) * h + l >= 0
    ensures And(Pow2(k) * h + l, Pow2(k) - 1) == l
  {
    if k > 0 {
      var p := Pow2(k - 1);
      DoubleMul(k, h);
      AndLowMask(h, l / 2, k - 1);
      hide And;
      AndJoin(p * h + l / 2, l % 2, p - 1, 1);
    }
  }

  /** Masking an even number: the lowest bit is cleared, the others are masked by themselves. */
  lemma {:induction false} AndEven(x: nat, l: nat, y: nat)
    requires l < 2
    ensures And(2 * x + l, 2 * y) == 2 * And(x, y)
  {
    AndJoin(x, l, y, 0);
  }

  /** Masking with m ones above k zeros clears the bits below k. */
  lemma {:induction false} AndHighMask(h: nat, l: nat, k: nat, m: nat)
    requires h < Pow2(m) && l < Pow2(k)
    ensures Pow2(k) * h + l >= 0 && Pow2(k) * (Pow2(m) - 1) >= 0
    ensures And(Pow2(k) * h + l, Pow2(k) * (Pow2(m) - 1)) == Pow2(k) * h
    decreases k
  {
    if k == 0 {
      AndLowMask(0, h, m);
    } else {
      var ones := Pow2(m) - 1;
      DoubleMul(k, h);
      DoubleMul(k, ones);
      assert l / 2 < Pow2(k - 1);
      hide And, Pow2;
      AndHighMask(h, l / 2, k - 1, m);
      AndEven(Pow2(k - 1) * h + l / 2, l % 2, Pow2(k - 1) * ones);
    }
  }

  /** An `|` of words is a word. */
  lemma {:induction false} OrBound(a: nat, b: nat, k: nat)
    requires a < Pow2(k) && b < Pow2(k)
    ensures Or(a, b) < Pow2(k)
  {
    if k > 0 { OrBound(a / 2, b / 2, k - 1); }
  }

  lemma Powers()
    ensures Pow2(10) == 1024 && Pow2(12) == 4096 && Pow2(20) == FRAME_COUNT && Pow2(22) == 0x40_0000
      && Pow2(32) == WORD_LIMIT
  {}

  // ----- Page-table entries -----

  /** `entry & PAGE_PRESENT` */
  predicate Present(entry: u32) {
    entry % 2 == 1
  }

  /** The frame whose address is `entry & 0xFFFFF000`. */
  function FrameOf(entry: u32): FrameNo {
    entry / PAGE_SIZE
  }

  /** Directory entry of a virtual page: `virt >> 22` for the page number `virt >> 12`. */
  function DirIndex(vpage: FrameNo): (i: nat)
    ensures i < 1024
  {
    vpage / 1024
  }

  /** Table entry of a virtual page: `(virt >> 12) & 0x3FF`. */
  function TableIndex(vpage: FrameNo): (i: nat)
    ensures i < 1024
  {
    vpage % 1024
  }

  /** The masks and shifts written in the paging code are the arithmetic used by the model. */
  lemma MasksAreArithmetic(w: u32)
    ensures And(w, 1) != 0 <==> Present(w)
    ensures And(w, 0xFFFF_F000) == PAGE_SIZE * FrameOf(w)
    ensures And(w, 0xFFF) == w % PAGE_SIZE
    ensures w / Pow2(22) == DirIndex(w / PAGE_SIZE)
    ensures And(w / Pow2(12), 0x3FF) == TableIndex(w / PAGE_SIZE)
  {
    LowFlags(w);
    FrameMask(w);
    LowBit(w);
    Powers();
    hide And;
    AndLowMask(w / PAGE_SIZE / 1024, w / PAGE_SIZE % 1024, 10);
  }

  lemma LowFlags(flags: u32)
    ensures And(flags, 0xFFF) == flags % PAGE_SIZE
  {
    Powers();
    AndLowMask(flags / PAGE_SIZE, flags % PAGE_SIZE, 12);
  }

  lemma LowBit(w: u32)
    ensures And(w, 1) == w % 2
  {}

  /** Testing bits 1 and 2. */
  lemma {:induction false} MiddleBits(w: u32)
    ensures And(w, 2) == 2 * (w / 2 % 2) && And(w, 4) == 4 * (w / 4 % 2)
  {
    hide And;
    LowBit(w / 2);
    LowBit(w / 4);
    AndJoin(w / 2, w % 2, 1, 0);
    AndJoin(w / 4, w / 2 % 2, 1, 0);
    AndJoin(w / 2, w % 2, 2, 0);
  }

  lemma FrameMask(w: u32)
    ensures And(w, 0xFFFF_F000) == PAGE_SIZE * FrameOf(w)
  {
    Powers();
    hide And;
    AndHighMask(w / PAGE_SIZE, w % PAGE_SIZE, 12, 20);
  }

  /** `(uint32_t)pt | PAGE_PRESENT | PAGE_RW | PAGE_USER` for a page-aligned table. */
  function TableEntry(frame: FrameNo): u32 {
    frame * PAGE_SIZE + 7
  }

  lemma TableEntryIsOr(frame: FrameNo)
    ensures Or(Or(Or(frame * PAGE_SIZE, 1), 2), 4) == TableEntry(frame)
  {
    SmallOrs();
    hide Or;
    var a := frame * PAGE_SIZE;
    OrLow(a, 0, 1);
    OrLow(a, 1, 2);
    OrLow(a, 3, 4);
  }

  lemma TableEntryParts(frame: FrameNo)
    ensures Present(TableEntry(frame)) && FrameOf(TableEntry(frame)) == frame
  {}

  lemma SmallOrs()
    ensures Or(0, 1) == 1 && Or(1, 2) == 3 && Or(3, 4) == 7
  {}

  lemma {:induction false} OrZero(a: nat)
    ensures Or(a, 0) == a && Or(0, a) == a
  {}

  lemma OrLow(a: nat, b: nat, c: nat)
    requires a % PAGE_SIZE == 0 && b < PAGE_SIZE && c < PAGE_SIZE
    ensures Or(a + b, c) == a + Or(b, c)
  {
    hide Or;
    OrPages(a + b, c);
    OrPages(b, c);
    assert (a + b) / PAGE_SIZE == a / PAGE_SIZE && (a + b) % PAGE_SIZE == b;
    var o := Or(a + b, c);
    assert o / PAGE_SIZE == a / PAGE_SIZE by { OrZero(a / PAGE_SIZE); }
    assert o % PAGE_SIZE == Or(b, c) by { Powers(); OrBound(b, c, 12); }
  }

  /** `phys | (flags & 0xFFF) | PAGE_PRESENT` */
  function PageEntry(phys: u32, flags: u32): (e: u32)
    ensures Present(e)
    ensures FrameOf(e) == FrameOf(phys)
    ensures e % PAGE_SIZE == Or(Or(phys % PAGE_SIZE, flags % PAGE_SIZE), 1)
  {
    PageEntryBits(phys, flags);
    Or(Or(phys, And(flags, 0xFFF)), 1)
  }

  /** Adding flag bits below 2^12 changes neither the page number nor the width. */
  lemma OrFlags(w: u32, f: nat)
    requires f < PAGE_SIZE
    ensures Or(w, f) < WORD_LIMIT
    ensures Or(w, f) / PAGE_SIZE == w / PAGE_SIZE && Or(w, f) % PAGE_SIZE == Or(w % PAGE_SIZE, f)
  {
    Powers();
    OrPages(w, f);
    OrBound(w, f, 32);
    OrZero(w / PAGE_SIZE);
  }

  lemma PageEntryBits(phys: u32, flags: u32)
    ensures var e := Or(Or(phys, And(flags, 0xFFF)), 1);
      && e < WORD_LIMIT
      && e % 2 == 1
      && e / PAGE_SIZE == phys / PAGE_SIZE
      && e % PAGE_SIZE == Or(Or(phys % PAGE_SIZE, flags % PAGE_SIZE), 1)
  {
    hide And, Or, Pow2;
    LowFlags(flags);
    OrFlags(phys, flags % PAGE_SIZE);
    OrFlags(Or(phys, flags % PAGE_SIZE), 1);
    OrStep(Or(phys, flags % PAGE_SIZE), 1);
  }

  /** For an aligned frame the entry is the address plus the flags with the present bit set. */
  lemma AlignedPageEntry(frame: FrameNo, flags: u32)
    ensures PageEntry(frame * PAGE_SIZE, flags) == frame * PAGE_SIZE + Or(flags % PAGE_SIZE, 1)
  {}
}
