/** `copy_addr_space` makes a faithful deep copy of the parent's user half on fresh frames, disturbs nothing
    else, and costs one frame for every present directory entry and every present entry below it. */
module AddressSpaceCopy {
  import opened Words
  import opened Frames
  import opened Memory
  import opened Paging
  import opened Ownership

  /** The page is mapped by the same entry and its frame holds the same words. */
  ghost predicate KeptPage(mem: Mem, mem': Mem, d: FrameNo, vpage: FrameNo) {
    && Walk(mem', d, vpage) == Walk(mem, d, vpage)
    && (Walk(mem, d, vpage).Some? ==>
          var f := FrameOf(Walk(mem, d, vpage).value); mem'[f] == mem[f])
  }

  /** The child maps the page exactly if the parent did, on a frame that was free, with equal contents. */
  ghost predicate CopiedPage(m: Machine, m': Machine, src: FrameNo, dst: FrameNo, vpage: FrameNo) {
    var w := Walk(m'.mem, dst, vpage);
    match Walk(m.mem, src, vpage)
    case None => w.None?
    case Some(pte) =>
      w.Some? && w.value == TableEntry(FrameOf(w.value))
      && FrameOf(w.value) in m.pool.free && m'.mem[FrameOf(w.value)] == m.mem[FrameOf(pte)]
  }

  predicate HasTable(mem: Mem, d: FrameNo, index: nat, t: FrameNo)
    requires index < ENTRIES
  {
    Present(Word(mem, d, index)) && FrameOf(Word(mem, d, index)) == t
  }

  /** The situation inside the inner loop. */
  ghost predicate Copying(m: Machine, sp: Spaces, src: FrameNo, srcTable: FrameNo, dst: FrameNo, dstTable: FrameNo,
                          index: nat) {
    && index < KERNEL_PD_INDEX
    && Inv(m, sp)
    && src in sp.dirs && dst in sp.dirs && src != dst
    && HasTable(m.mem, src, index, srcTable) && HasTable(m.mem, dst, index, dstTable)
  }

  /** One iteration touches the child's table and one free frame. */
  lemma CopyPageChanges(m: Machine, sp: Spaces, src: FrameNo, srcTable: FrameNo, dst: FrameNo, dstTable: FrameNo,
                        index: nat, k: nat)
    requires Copying(m, sp, src, srcTable, dst, dstTable, index) && k < ENTRIES
    requires !CopyPage(m, srcTable, dstTable, dst, index, k).pool.failed
    ensures var m' := CopyPage(m, srcTable, dstTable, dst, index, k);
      && (forall g: FrameNo :: g != dstTable && g !in m.pool.free ==> m'.mem[g] == m.mem[g])
      && (forall v: FrameNo :: !(DirIndex(v) == index && TableIndex(v) == k) ==>
           Walk(m'.mem, dst, v) == Walk(m.mem, dst, v))
      && (forall v: FrameNo :: DirIndex(v) == index && TableIndex(v) == k && Walk(m.mem, dst, v).None? ==>
           CopiedPage(m, m', src, dst, v))
  {
    TableFrame(m, sp, src, index);
    TableFrame(m, sp, dst, index);
    var m' := CopyPage(m, srcTable, dstTable, dst, index, k);
    var pte := Word(m.mem, srcTable, k);
    if Present(pte) {
      var f := NewFrame(m, Page(dst, index * ENTRIES + k)).frame;
      TableEntryParts(f);
      assert OwnsPage(m.pool.own, src, index * ENTRIES + k, FrameOf(pte)) by {
        assert Walk(m.mem, src, index * ENTRIES + k) == Some(pte);
      }
      forall v: FrameNo | !(DirIndex(v) == index && TableIndex(v) == k)
        ensures Walk(m'.mem, dst, v) == Walk(m.mem, dst, v)
      {
        if Present(Word(m.mem, dst, DirIndex(v))) { TableFrame(m, sp, dst, DirIndex(v)); }
      }
    }
  }

  lemma CopyPageConfined(m: Machine, sp: Spaces, src: FrameNo, srcTable: FrameNo, dst: FrameNo, dstTable: FrameNo,
                         index: nat, k: nat)
    requires Copying(m, sp, src, srcTable, dst, dstTable, index) && k < ENTRIES
    requires !CopyPage(m, srcTable, dstTable, dst, index, k).pool.failed
    ensures var m' := CopyPage(m, srcTable, dstTable, dst, index, k);
      && Confined(m, m', sp.kernelDir, dst)
      && (forall d: FrameNo :: IsDir(sp, d) ==> m'.mem[d] == m.mem[d])
      && m'.mem[srcTable] == m.mem[srcTable]
  {}

  /** One iteration keeps the ownership invariant. */
  lemma CopyPageKeeps(m: Machine, sp: Spaces, src: FrameNo, srcTable: FrameNo, dst: FrameNo, dstTable: FrameNo,
                      index: nat, k: nat)
    requires Copying(m, sp, src, srcTable, dst, dstTable, index) && k < ENTRIES
    requires !CopyPage(m, srcTable, dstTable, dst, index, k).pool.failed
    ensures Copying(CopyPage(m, srcTable, dstTable, dst, index, k), sp, src, srcTable, dst, dstTable, index)
  {
    var m' := CopyPage(m, srcTable, dstTable, dst, index, k);
    CopyPageConfined(m, sp, src, srcTable, dst, dstTable, index, k);
    if Present(Word(m.mem, srcTable, k)) {
      NewFrameKeeps(m, sp, Page(dst, index * ENTRIES + k), dst);
      assert TablesOwned(m', sp) by {
        forall q: FrameNo, j: nat | IsDir(sp, q) && j < ENTRIES && Present(Word(m'.mem, q, j))
          ensures OwnsTable(m'.pool.own, sp, q, j, FrameOf(Word(m'.mem, q, j)))
        {
          TableFrame(m, sp, q, j);
        }
      }
      forall q: FrameNo, v: FrameNo | q in sp.dirs && v < USER_PAGES && Walk(m'.mem, q, v).Some?
        ensures OwnsPage(m'.pool.own, q, v, FrameOf(Walk(m'.mem, q, v).value))
      {
        CopyPageOwns(m, sp, src, srcTable, dst, dstTable, index, k, q, v);
      }
    }
  }

  lemma CopyPageOwns(m: Machine, sp: Spaces, src: FrameNo, srcTable: FrameNo, dst: FrameNo, dstTable: FrameNo,
                     index: nat, k: nat,
                     q: FrameNo, v: FrameNo)
    requires Copying(m, sp, src, srcTable, dst, dstTable, index) && k < ENTRIES
    requires !CopyPage(m, srcTable, dstTable, dst, index, k).pool.failed
    requires q in sp.dirs && v < USER_PAGES
    ensures var m' := CopyPage(m, srcTable, dstTable, dst, index, k);
      Walk(m'.mem, q, v).Some? ==> OwnsPage(m'.pool.own, q, v, FrameOf(Walk(m'.mem, q, v).value))
  {
    var m' := CopyPage(m, srcTable, dstTable, dst, index, k);
    CopyPageConfined(m, sp, src, srcTable, dst, dstTable, index, k);
    if q == dst && DirIndex(v) == index && TableIndex(v) == k && Present(Word(m.mem, srcTable, k)) {
      assert v == index * ENTRIES + k;
      var f := NewFrame(m, Page(dst, v)).frame;
      TableEntryParts(f);
      assert Word(m'.mem, dstTable, k) == TableEntry(f);
    } else {
      if q == dst {
        CopyPageChanges(m, sp, src, srcTable, dst, dstTable, index, k);
      } else {
        ConfinedKeepsView(m, m', sp, dst, q);
      }
      if Walk(m.mem, q, v).Some? {
        assert OwnsPage(m.pool.own, q, v, FrameOf(Walk(m.mem, q, v).value));
      }
    }
  }

  lemma CopyPageFails(m: Machine, srcTable: FrameNo, dstTable: FrameNo, dst: FrameNo, index: nat, k: nat)
    requires index < KERNEL_PD_INDEX && k < ENTRIES
    ensures m.pool.failed ==> CopyPage(m, srcTable, dstTable, dst, index, k).pool.failed
  {}

  lemma {:induction false} CopyPagesFails(m: Machine, srcTable: FrameNo, dstTable: FrameNo, dst: FrameNo, index: nat,
                                          n: nat)
    requires index < KERNEL_PD_INDEX && n <= ENTRIES
    ensures m.pool.failed ==> CopyPages(m, srcTable, dstTable, dst, index, n).pool.failed
  {
    if n > 0 { CopyPagesFails(m, srcTable, dstTable, dst, index, n - 1); }
  }

  lemma {:induction false} CopyPagesKeeps(m: Machine, sp: Spaces, src: FrameNo, srcTable: FrameNo, dst: FrameNo,
                                          dstTable: FrameNo, index: nat, n: nat)
    requires Copying(m, sp, src, srcTable, dst, dstTable, index) && n <= ENTRIES
    requires !CopyPages(m, srcTable, dstTable, dst, index, n).pool.failed
    ensures var m' := CopyPages(m, srcTable, dstTable, dst, index, n);
      && Copying(m', sp, src, srcTable, dst, dstTable, index)
      && Confined(m, m', sp.kernelDir, dst)
      && (forall d: FrameNo :: IsDir(sp, d) ==> m'.mem[d] == m.mem[d])
      && m'.mem[srcTable] == m.mem[srcTable]
  {
    hide CopyPage, Inv;
    if n > 0 {
      var m1 := CopyPages(m, srcTable, dstTable, dst, index, n - 1);
      CopyPageFails(m1, srcTable, dstTable, dst, index, n - 1);
      CopyPagesKeeps(m, sp, src, srcTable, dst, dstTable, index, n - 1);
      CopyPageConfined(m1, sp, src, srcTable, dst, dstTable, index, n - 1);
      CopyPageKeeps(m1, sp, src, srcTable, dst, dstTable, index, n - 1);
      ConfinedTransitive(m, m1, CopyPages(m, srcTable, dstTable, dst, index, n), sp.kernelDir, dst);
    }
  }

  /** The frame behind an owned page is untouched by what is confined to another space. */
  lemma ConfinedKeepsPage(m: Machine, m': Machine, sp: Spaces, d: FrameNo, q: FrameNo, v: FrameNo)
    requires Inv(m, sp) && Confined(m, m', sp.kernelDir, d)
    requires q in sp.dirs && q != d && v < USER_PAGES
    ensures KeptPage(m.mem, m'.mem, q, v)
  {}

  /** What the inner loop has done to one page of the child after n iterations. */
  lemma {:induction false} CopyPagesAt(m: Machine, sp: Spaces, src: FrameNo, srcTable: FrameNo, dst: FrameNo,
                                       dstTable: FrameNo, index: nat, n: nat, v: FrameNo)
    requires Copying(m, sp, src, srcTable, dst, dstTable, index) && n <= ENTRIES && v < USER_PAGES
    requires !CopyPages(m, srcTable, dstTable, dst, index, n).pool.failed
    requires DirIndex(v) == index ==> Walk(m.mem, dst, v).None?
    ensures var m' := CopyPages(m, srcTable, dstTable, dst, index, n);
      if DirIndex(v) == index && TableIndex(v) < n then CopiedPage(m, m', src, dst, v)
      else KeptPage(m.mem, m'.mem, dst, v)
  {
    if n > 0 {
      var k := n - 1;
      var m1, m2 := CopyPages(m, srcTable, dstTable, dst, index, k), CopyPages(m, srcTable, dstTable, dst, index, n);
      CopyPagesKeeps(m, sp, src, srcTable, dst, dstTable, index, k);
      CopyPagesAt(m, sp, src, srcTable, dst, dstTable, index, k, v);
      CopyPageChanges(m1, sp, src, srcTable, dst, dstTable, index, k);
      TableFrame(m1, sp, dst, index);
      if DirIndex(v) == index && TableIndex(v) == k {
        ConfinedKeepsPage(m, m1, sp, dst, src, v);
        assert CopiedPage(m1, m2, src, dst, v);
      } else if Walk(m1.mem, dst, v).Some? {
        assert OwnsPage(m1.pool.own, dst, v, FrameOf(Walk(m1.mem, dst, v).value));
      }
    }
  }

  // ----- The outer loop -----

  lemma NewCopyTableKeeps(m: Machine, sp: Spaces, src: FrameNo, dst: FrameNo, index: nat)
    requires Inv(m, sp) && src in sp.dirs && dst in sp.dirs && src != dst && index < KERNEL_PD_INDEX
    requires Present(Word(m.mem, src, index)) && !NewCopyTable(m, dst, index).m.pool.failed
    ensures var a := NewCopyTable(m, dst, index);
      && Copying(a.m, sp, src, FrameOf(Word(m.mem, src, index)), dst, a.frame, index)
      && Confined(m, a.m, sp.kernelDir, dst)
      && (forall d: FrameNo :: IsDir(sp, d) && d != dst ==> a.m.mem[d] == m.mem[d])
      && (forall j: nat :: j < ENTRIES && j != index ==> Word(a.m.mem, dst, j) == Word(m.mem, dst, j))
      && (forall v: FrameNo :: DirIndex(v) == index ==> Walk(a.m.mem, dst, v).None?)
      && (forall v: FrameNo :: DirIndex(v) != index && v < USER_PAGES ==> KeptPage(m.mem, a.m.mem, dst, v))
  {
    var a := NewCopyTable(m, dst, index);
    TableEntryParts(a.frame);
    assert a.frame in m.pool.free;
    forall v: FrameNo | DirIndex(v) != index && v < USER_PAGES
      ensures KeptPage(m.mem, a.m.mem, dst, v)
    {
      if Present(Word(m.mem, dst, DirIndex(v))) {
        TableFrame(m, sp, dst, DirIndex(v));
        if Walk(m.mem, dst, v).Some? {
          assert OwnsPage(m.pool.own, dst, v, FrameOf(Walk(m.mem, dst, v).value));
        }
      }
    }
    assert TablesOwned(a.m, sp) by {
      forall q: FrameNo, j: nat | IsDir(sp, q) && j < ENTRIES && Present(Word(a.m.mem, q, j))
        ensures OwnsTable(a.m.pool.own, sp, q, j, FrameOf(Word(a.m.mem, q, j)))
      {
        if !(q == dst && j == index) { TableFrame(m, sp, q, j); }
      }
    }
    forall q: FrameNo, v: FrameNo | q in sp.dirs && v < USER_PAGES && Walk(a.m.mem, q, v).Some?
      ensures OwnsPage(a.m.pool.own, q, v, FrameOf(Walk(a.m.mem, q, v).value))
    {
      if q != dst { ConfinedKeepsView(m, a.m, sp, dst, q); }
      assert OwnsPage(m.pool.own, q, v, FrameOf(Walk(m.mem, q, v).value));
    }
  }

  lemma CopyTableKeeps(m: Machine, sp: Spaces, src: FrameNo, dst: FrameNo, index: nat)
    requires Inv(m, sp) && src in sp.dirs && dst in sp.dirs && src != dst && index < KERNEL_PD_INDEX
    requires !CopyTable(m, src, dst, index).pool.failed
    ensures var m' := CopyTable(m, src, dst, index);
      && Inv(m', sp)
      && Confined(m, m', sp.kernelDir, dst)
      && (forall d: FrameNo :: IsDir(sp, d) && d != dst ==> m'.mem[d] == m.mem[d])
      && (forall j: nat :: j < ENTRIES && j != index ==> Word(m'.mem, dst, j) == Word(m.mem, dst, j))
  {
    if Present(Word(m.mem, src, index)) {
      var a, t := NewCopyTable(m, dst, index), FrameOf(Word(m.mem, src, index));
      CopyPagesFails(a.m, t, a.frame, dst, index, ENTRIES);
      NewCopyTableKeeps(m, sp, src, dst, index);
      CopyPagesKeeps(a.m, sp, src, t, dst, a.frame, index, ENTRIES);
      ConfinedTransitive(m, a.m, CopyTable(m, src, dst, index), sp.kernelDir, dst);
    }
  }

  /** What one iteration of the outer loop does to one page of the child. */
  lemma CopyTableAt(m: Machine, sp: Spaces, src: FrameNo, dst: FrameNo, index: nat, v: FrameNo)
    requires Inv(m, sp) && src in sp.dirs && dst in sp.dirs && src != dst && index < KERNEL_PD_INDEX
    requires !CopyTable(m, src, dst, index).pool.failed && v < USER_PAGES
    ensures var m' := CopyTable(m, src, dst, index);
      if DirIndex(v) == index && Present(Word(m.mem, src, index)) then CopiedPage(m, m', src, dst, v)
      else KeptPage(m.mem, m'.mem, dst, v)
  {
    if Present(Word(m.mem, src, index)) {
      var a, t := NewCopyTable(m, dst, index), FrameOf(Word(m.mem, src, index));
      CopyPagesFails(a.m, t, a.frame, dst, index, ENTRIES);
      NewCopyTableKeeps(m, sp, src, dst, index);
      CopyPagesAt(a.m, sp, src, t, dst, a.frame, index, ENTRIES, v);
      ConfinedKeepsPage(m, a.m, sp, dst, src, v);
    }
  }

  lemma CopyTableFails(m: Machine, src: FrameNo, dst: FrameNo, index: nat)
    requires index < KERNEL_PD_INDEX
    ensures m.pool.failed ==> CopyTable(m, src, dst, index).pool.failed
  {
    if Present(Word(m.mem, src, index)) {
      var a := NewCopyTable(m, dst, index);
      CopyPagesFails(a.m, FrameOf(Word(m.mem, src, index)), a.frame, dst, index, ENTRIES);
    }
  }

  lemma {:induction false} CopyAddrSpaceKeeps(m: Machine, sp: Spaces, src: FrameNo, dst: FrameNo, n: nat)
    requires Inv(m, sp) && src in sp.dirs && dst in sp.dirs && src != dst && n <= KERNEL_PD_INDEX
    requires !CopyAddrSpace(m, src, dst, n).pool.failed
    ensures var m' := CopyAddrSpace(m, src, dst, n);
      && Inv(m', sp)
      && Confined(m, m', sp.kernelDir, dst)
      && (forall d: FrameNo :: IsDir(sp, d) && d != dst ==> m'.mem[d] == m.mem[d])
      && (forall j: nat :: n <= j < ENTRIES ==> Word(m'.mem, dst, j) == Word(m.mem, dst, j))
  {
    if n > 0 {
      var m1 := CopyAddrSpace(m, src, dst, n - 1);
      CopyTableFails(m1, src, dst, n - 1);
      CopyAddrSpaceKeeps(m, sp, src, dst, n - 1);
      CopyTableKeeps(m1, sp, src, dst, n - 1);
      ConfinedTransitive(m, m1, CopyAddrSpace(m, src, dst, n), sp.kernelDir, dst);
    }
  }

  /** The new directory entry: a frame that was free, with the present, write and user bits. */
  lemma NewCopyTableEntry(m: Machine, dst: FrameNo, index: nat)
    requires index < KERNEL_PD_INDEX && !NewCopyTable(m, dst, index).m.pool.failed
    ensures var a := NewCopyTable(m, dst, index);
      && m.pool.free != {} && a.frame == Lowest(m.pool.free) && a.m.pool.free == m.pool.free - {a.frame}
      && Word(a.m.mem, dst, index) == a.frame * 4096 + 7
  {}

  /** An entry is open in m': the frame behind it was free in m, and user code may read and write through it. */
  ghost predicate NewEntry(m: Machine, e: u32) {
    FrameOf(e) in m.pool.free && e == FrameOf(e) * 4096 + 7
  }

  lemma CopiedTableEntry(m: Machine, sp: Spaces, src: FrameNo, dst: FrameNo, index: nat)
    requires Inv(m, sp) && src in sp.dirs && dst in sp.dirs && src != dst && index < KERNEL_PD_INDEX
    requires !CopyTable(m, src, dst, index).pool.failed
    ensures var e := Word(CopyTable(m, src, dst, index).mem, dst, index);
      if Present(Word(m.mem, src, index)) then NewEntry(m, e) else e == Word(m.mem, dst, index)
  {
    if Present(Word(m.mem, src, index)) {
      hide CopyPages, CreatePageTable;
      var a, t := NewCopyTable(m, dst, index), FrameOf(Word(m.mem, src, index));
      CopyPagesFails(a.m, t, a.frame, dst, index, ENTRIES);
      NewCopyTableKeeps(m, sp, src, dst, index);
      CopyPagesKeeps(a.m, sp, src, t, dst, a.frame, index, ENTRIES);
      NewCopyTableEntry(m, dst, index);
    }
  }

  /** The child's directory afterwards: a new table, open to user code, where the parent has one, and what the
      child had elsewhere. */
  lemma {:induction false} CopiedEntries(m: Machine, sp: Spaces, src: FrameNo, dst: FrameNo, n: nat, i: nat)
    requires Inv(m, sp) && src in sp.dirs && dst in sp.dirs && src != dst && n <= KERNEL_PD_INDEX && i < n
    requires !CopyAddrSpace(m, src, dst, n).pool.failed
    ensures var e := Word(CopyAddrSpace(m, src, dst, n).mem, dst, i);
      if Present(Word(m.mem, src, i)) then NewEntry(m, e) else e == Word(m.mem, dst, i)
    decreases n
  {
    hide Inv, CopyTable;
    var m1 := CopyAddrSpace(m, src, dst, n - 1);
    CopyTableFails(m1, src, dst, n - 1);
    CopyAddrSpaceKeeps(m, sp, src, dst, n - 1);
    CopyTableKeeps(m1, sp, src, dst, n - 1);
    if i < n - 1 {
      CopiedEntries(m, sp, src, dst, n - 1, i);
    } else {
      CopiedTableEntry(m1, sp, src, dst, i);
    }
  }

  /** The deep copy, page by page: where the parent has a table, the child's page is a copy on a fresh
      frame or unmapped like the parent's; elsewhere the child keeps what it had. */
  lemma {:induction false} CopyAddrSpaceCopies(m: Machine, sp: Spaces, src: FrameNo, dst: FrameNo, n: nat, v: FrameNo)
    requires Inv(m, sp) && src in sp.dirs && dst in sp.dirs && src != dst && n <= KERNEL_PD_INDEX
    requires !CopyAddrSpace(m, src, dst, n).pool.failed && v < USER_PAGES
    ensures var m' := CopyAddrSpace(m, src, dst, n);
      && (if DirIndex(v) < n && Present(Word(m.mem, src, DirIndex(v))) then CopiedPage(m, m', src, dst, v)
          else KeptPage(m.mem, m'.mem, dst, v))
      && KeptPage(m.mem, m'.mem, src, v)
  {
    if n > 0 {
      var m1 := CopyAddrSpace(m, src, dst, n - 1);
      CopyTableFails(m1, src, dst, n - 1);
      CopyAddrSpaceKeeps(m, sp, src, dst, n - 1);
      CopyAddrSpaceKeeps(m, sp, src, dst, n);
      CopyAddrSpaceCopies(m, sp, src, dst, n - 1, v);
      CopyTableAt(m1, sp, src, dst, n - 1, v);
      ConfinedKeepsPage(m, CopyAddrSpace(m, src, dst, n), sp, dst, src, v);
    }
  }
}
