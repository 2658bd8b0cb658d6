/** The exact price of the paging operations in page frames, and exactly when the pool can pay it. */
module CopyCost {
  import opened Words
  import opened Frames
  import opened Memory
  import opened Paging
  import opened Ownership
  import opened AddressSpaceCopy

  /** Present entries among the first n of a table. */
  function PresentEntries(table: Frame, n: nat): nat
    requires n <= ENTRIES
  {
    if n == 0 then 0 else PresentEntries(table, n - 1) + (if Present(table[n - 1]) then 1 else 0)
  }

  /** What one directory entry costs to copy: its table and the pages below it. */
  function TableFrames(mem: Mem, dir: FrameNo, index: nat): nat
    requires index < KERNEL_PD_INDEX
  {
    var pde := Word(mem, dir, index);
    if Present(pde) then 1 + PresentEntries(mem[FrameOf(pde)], ENTRIES) else 0
  }

  /** One frame for each present directory entry among the first n, and one for each present entry below. */
  function CopyFrames(mem: Mem, dir: FrameNo, n: nat): nat
    requires n <= KERNEL_PD_INDEX
  {
    if n == 0 then 0 else CopyFrames(mem, dir, n - 1) + TableFrames(mem, dir, n - 1)
  }

  /** The operation took exactly `cost` frames, and failed exactly if there were fewer. */
  ghost predicate Paid(p: Pool, p': Pool, cost: nat) {
    && (p'.failed <==> p.failed || |p.free| < cost)
    && (!p'.failed ==> |p'.free| == |p.free| - cost)
  }

  lemma {:induction false} CopyPagesPaid(m: Machine, sp: Spaces, src: FrameNo, srcTable: FrameNo, dst: FrameNo,
                                         dstTable: FrameNo, index: nat, n: nat)
    requires Copying(m, sp, src, srcTable, dst, dstTable, index) && n <= ENTRIES
    ensures Paid(m.pool, CopyPages(m, srcTable, dstTable, dst, index, n).pool, PresentEntries(m.mem[srcTable], n))
  {
    if n > 0 {
      var m1 := CopyPages(m, srcTable, dstTable, dst, index, n - 1);
      CopyPagesPaid(m, sp, src, srcTable, dst, dstTable, index, n - 1);
      if !m1.pool.failed {
        CopyPagesKeeps(m, sp, src, srcTable, dst, dstTable, index, n - 1);
        TakePaid(m1.pool, Page(dst, index * ENTRIES + n - 1));
      }
    }
  }

  lemma TakePaid(p: Pool, purpose: Owner)
    ensures Paid(p, Take(p, purpose).pool, 1)
  {}

  lemma PaidTwice(p: Pool, p1: Pool, p2: Pool, a: nat, b: nat)
    requires Paid(p, p1, a)
    requires if p1.failed then p2.failed else Paid(p1, p2, b)
    ensures Paid(p, p2, a + b)
  {}

  lemma CopyTablePaid(m: Machine, sp: Spaces, src: FrameNo, dst: FrameNo, index: nat)
    requires Inv(m, sp) && src in sp.dirs && dst in sp.dirs && src != dst && index < KERNEL_PD_INDEX
    ensures Paid(m.pool, CopyTable(m, src, dst, index).pool, TableFrames(m.mem, src, index))
  {
    var pde := Word(m.mem, src, index);
    if Present(pde) {
      var a, t := NewCopyTable(m, dst, index), FrameOf(pde);
      TakePaid(m.pool, Table(dst, index));
      CopyPagesFails(a.m, t, a.frame, dst, index, ENTRIES);
      if !a.m.pool.failed {
        NewCopyTableKeeps(m, sp, src, dst, index);
        TableFrame(m, sp, src, index);
        assert a.m.mem[t] == m.mem[t];
        CopyPagesPaid(a.m, sp, src, t, dst, a.frame, index, ENTRIES);
      }
      PaidTwice(m.pool, a.m.pool, CopyTable(m, src, dst, index).pool, 1, PresentEntries(m.mem[t], ENTRIES));
    }
  }

  /** `copy_addr_space` takes one frame per present user-half directory entry plus one per present entry of
      those tables, and succeeds if and only if that many frames are free. */
  lemma {:induction false} CopyAddrSpacePaid(m: Machine, sp: Spaces, src: FrameNo, dst: FrameNo, n: nat)
    requires Inv(m, sp) && src in sp.dirs && dst in sp.dirs && src != dst && n <= KERNEL_PD_INDEX
    ensures Paid(m.pool, CopyAddrSpace(m, src, dst, n).pool, CopyFrames(m.mem, src, n))
  {
    hide Inv, Confined, CopyTable, TableFrames;
    if n > 0 {
      var m1 := CopyAddrSpace(m, src, dst, n - 1);
      CopyAddrSpacePaid(m, sp, src, dst, n - 1);
      CopyTableFails(m1, src, dst, n - 1);
      if !m1.pool.failed {
        CopyAddrSpaceKeeps(m, sp, src, dst, n - 1);
        CopyTablePaid(m1, sp, src, dst, n - 1);
        SourceKept(m, m1, sp, src, dst, n - 1);
      }
      PaidTwice(m.pool, m1.pool, CopyAddrSpace(m, src, dst, n).pool,
        CopyFrames(m.mem, src, n - 1), TableFrames(m.mem, src, n - 1));
    }
  }

  lemma SourceKept(m: Machine, m': Machine, sp: Spaces, src: FrameNo, dst: FrameNo, index: nat)
    requires Inv(m, sp) && src in sp.dirs && src != dst && index < KERNEL_PD_INDEX
    requires Confined(m, m', sp.kernelDir, dst)
    ensures TableFrames(m'.mem, src, index) == TableFrames(m.mem, src, index)
  {}

  /** `map_page` takes a frame exactly if the directory entry is absent. */
  lemma MapPagePaid(m: Machine, d: FrameNo, virt: u32, phys: u32, flags: u32)
    ensures Paid(m.pool, MapPage(m, d, virt, phys, flags).pool,
                 if Present(Word(m.mem, d, DirIndex(virt / PAGE_SIZE))) then 0 else 1)
  {}
}
