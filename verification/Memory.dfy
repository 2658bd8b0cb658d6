/** Physical memory as 2^20 frames of 1024 words, and the two-level page walk over it
    (32-bit paging, Intel SDM Volume 3A, section 4.3). */
module Memory {
  import opened Words
  import opened Frames

  const ENTRIES := 1024
  const KERNEL_BASE := 0xC000_0000
  const KERNEL_PD_INDEX := 768
  const USER_PAGES := 0xC_0000

  /** The user half is what lies below 3 GiB, in pages and in directory entries. */
  lemma UserHalf(addr: u32)
    ensures addr < 0xC000_0000 <==> addr < KERNEL_BASE
    ensures addr < 0xC000_0000 <==> addr / 4096 < USER_PAGES
    ensures addr < 0xC000_0000 <==> DirIndex(addr / 4096) < KERNEL_PD_INDEX
  {}

  type Frame = s: seq<u32> | |s| == ENTRIES witness seq(ENTRIES, i => 0)
  type Mem = s: seq<Frame> | |s| == FRAME_COUNT witness seq<Frame>(FRAME_COUNT, i => ZeroFrame())

  function ZeroFrame(): (f: Frame)
    ensures forall i: nat :: i < ENTRIES ==> f[i] == 0
  {
    seq(ENTRIES, i => 0)
  }

  /** Everything the paging code changes: memory and the frame pool. */
  datatype Machine = Machine(mem: Mem, pool: Pool)

  function Word(mem: Mem, f: FrameNo, i: nat): u32
    requires i < ENTRIES
  {
    mem[f][i]
  }

  function SetFrame(mem: Mem, f: FrameNo, contents: Frame): (r: Mem)
    ensures r[f] == contents
    ensures forall g: FrameNo :: g != f ==> r[g] == mem[g]
  {
    mem[f := contents]
  }

  function SetWord(mem: Mem, f: FrameNo, i: nat, w: u32): (r: Mem)
    requires i < ENTRIES
    ensures Word(r, f, i) == w
    ensures forall j: nat :: j < ENTRIES && j != i ==> Word(r, f, j) == Word(mem, f, j)
    ensures forall g: FrameNo :: g != f ==> r[g] == mem[g]
  {
    var contents: Frame := mem[f][i := w];
    mem[f := contents]
  }

  /** The table entry behind a virtual page, if directory entry and table entry are both present. */
  function Walk(mem: Mem, dir: FrameNo, vpage: FrameNo): Option<u32> {
    var pde := Word(mem, dir, DirIndex(vpage));
    if !Present(pde) then None
    else
      var pte := Word(mem, FrameOf(pde), TableIndex(vpage));
      if Present(pte) then Some(pte) else None
  }

  /** The word a load from a virtual page sees, if the page is mapped. */
  function Load(mem: Mem, dir: FrameNo, vpage: FrameNo, i: nat): Option<u32>
    requires i < ENTRIES
  {
    match Walk(mem, dir, vpage)
    case None => None
    case Some(pte) => Some(Word(mem, FrameOf(pte), i))
  }

  /** The same user pages are mapped by the same entries, and hold the same words. */
  ghost predicate SameUserView(mem: Mem, mem': Mem, dir: FrameNo) {
    forall vpage: FrameNo :: vpage < USER_PAGES ==>
      Walk(mem', dir, vpage) == Walk(mem, dir, vpage) &&
      forall i: nat :: i < ENTRIES ==> Load(mem', dir, vpage, i) == Load(mem, dir, vpage, i)
  }

  /** Frames and memories are equal if they agree word for word. */
  lemma SetFrameIs(mem: Mem, mem': Mem, f: FrameNo, contents: Frame)
    requires forall k: nat :: k < ENTRIES ==> Word(mem', f, k) == contents[k]
    requires forall g: FrameNo :: g != f ==> mem'[g] == mem[g]
    ensures mem' == SetFrame(mem, f, contents)
  {
    forall k | 0 <= k < ENTRIES ensures mem'[f][k] == contents[k] {
      assert Word(mem', f, k) == contents[k];
    }
    assert mem'[f] == contents;
  }
}
