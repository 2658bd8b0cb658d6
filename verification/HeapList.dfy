/** The heap's block list as a value: first fit with splitting, and release with one merging pass. */
module HeapList {
  import opened Words
  import opened Frames

  const HEADER := 12            // sizeof(HeapBlock)
  const PAGE_PAYLOAD := 4084    // HEAP_PAGE_SIZE - sizeof(HeapBlock)

  /** A block: the address of its header, the size of its payload, and its flag. */
  datatype Block = Block(addr: nat, size: nat, used: bool) {
    function Limit(): nat {
      addr + HEADER + size
    }
  }

  /** A call of malloc or free, or an allocation of a frame by another part of the kernel. */
  datatype Call = Alloc(size: u32) | FreeAt(addr: nat) | Other(purpose: Owner)

  predicate Fits(b: Block, size: nat) {
    !b.used && b.size >= size
  }

  /** Index of the first free block that is large enough, or the length of the list. */
  function FirstFit(bs: seq<Block>, size: nat): (i: nat)
    ensures i <= |bs|
    ensures forall k :: 0 <= k < i ==> !Fits(bs[k], size)
    ensures i < |bs| ==> Fits(bs[i], size)
  {
    if bs == [] then 0
    else if Fits(bs[0], size) then 0
    else 1 + FirstFit(bs[1..], size)
  }

  /** What a block is replaced by when `size` bytes of it are handed out: the block alone, or split in two
      when a further header and at least one byte remain. */
  function Carve(b: Block, size: u32): (r: seq<Block>)
    ensures r != []
  {
    if b.size > Wrap(size + HEADER) then
      [Block(b.addr, size, true), Block(b.addr + HEADER + size, Wrap(b.size - size - HEADER), false)]
    else
      [Block(b.addr, b.size, true)]
  }

  function Place(bs: seq<Block>, i: nat, size: u32): seq<Block>
    requires i < |bs|
  {
    bs[..i] + Carve(bs[i], size) + bs[i + 1..]
  }

  /** Clear the flag of the header at the address. */
  function Release(bs: seq<Block>, addr: nat): (r: seq<Block>)
    ensures |r| == |bs|
  {
    if bs == [] then []
    else [if bs[0].addr == addr then Block(addr, bs[0].size, false) else bs[0]] + Release(bs[1..], addr)
  }

  /** The merging pass of `free`: a free block absorbs its free successor and is looked at again. */
  function Coalesce(bs: seq<Block>): seq<Block>
    decreases |bs|
  {
    if |bs| < 2 then bs
    else if !bs[0].used && !bs[1].used then
      Coalesce([Block(bs[0].addr, Wrap(bs[0].size + HEADER + bs[1].size), false)] + bs[2..])
    else
      [bs[0]] + Coalesce(bs[1..])
  }

  function Free(bs: seq<Block>, addr: nat): seq<Block> {
    Coalesce(Release(bs, addr))
  }

  // ----- What the list should look like -----

  /** The blocks lie end to end from lo to hi. */
  predicate Tiled(bs: seq<Block>, lo: nat, hi: nat) {
    if bs == [] then lo == hi
    else bs[0].addr == lo && Tiled(bs[1..], bs[0].Limit(), hi)
  }

  /** No two neighbours are both free. */
  predicate Settled(bs: seq<Block>) {
    |bs| < 2 || ((bs[0].used || bs[1].used) && Settled(bs[1..]))
  }

  function UsedOf(bs: seq<Block>): seq<Block> {
    if bs == [] then []
    else (if bs[0].used then [bs[0]] else []) + UsedOf(bs[1..])
  }

  function Without(us: seq<Block>, addr: nat): seq<Block> {
    if us == [] then []
    else (if us[0].addr == addr then [] else [us[0]]) + Without(us[1..], addr)
  }

  /** Bytes of headers and payloads. */
  function Bytes(bs: seq<Block>): nat {
    if bs == [] then 0 else HEADER + bs[0].size + Bytes(bs[1..])
  }

  function Gap(lo: nat, hi: nat): seq<Block> {
    if hi < lo + HEADER then [] else [Block(lo, hi - lo - HEADER, false)]
  }

  /** The one settled tiling of [lo, hi) with the given used blocks: a single free block in every gap. */
  function Layout(us: seq<Block>, lo: nat, hi: nat): seq<Block> {
    if us == [] then Gap(lo, hi)
    else Gap(lo, us[0].addr) + [us[0]] + Layout(us[1..], us[0].Limit(), hi)
  }
}
