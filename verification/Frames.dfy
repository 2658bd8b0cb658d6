/** The pool of physical page frames, as the rest of the kernel sees the page allocator:
    a set of free frames from which every allocation takes the lowest.

    `own` records, for each frame handed out, what it was handed out for; `failed` records that some
    allocation found no free frame.  Neither exists in the kernel: they are the history the invariants
    are stated about. */
module Frames {
  import opened Words

  datatype Owner =
    | Directory                                // a page directory
    | Table(dir: FrameNo, index: nat)          // the page table of one directory entry
    | Page(dir: FrameNo, vpage: FrameNo)       // the memory behind one virtual page
    | HeapPage                                 // a page of the kernel heap

  datatype Pool = Pool(free: set<FrameNo>, own: map<FrameNo, Owner>, failed: bool) {
    ghost predicate Valid() {
      free !! own.Keys
    }
  }

  /** The answer to an allocation. */
  datatype Taken = Taken(pool: Pool, frame: FrameNo)

  ghost predicate IsLowest(x: FrameNo, s: set<FrameNo>) {
    x in s && forall y :: y in s ==> x <= y
  }

  lemma {:induction false} LowestExists(s: set<FrameNo>)
    requires s != {}
    ensures exists x :: IsLowest(x, s)
    decreases |s|
  {
    var x :| x in s;
    var t := s - {x};
    if t == {} {
      assert s == {x};
      assert IsLowest(x, s);
    } else {
      LowestExists(t);
      var y :| IsLowest(y, t);
      assert s == t + {x};
      assert IsLowest(if x < y then x else y, s);
    }
  }

  ghost function Lowest(s: set<FrameNo>): (r: FrameNo)
    requires s != {}
    ensures IsLowest(r, s)
  {
    LowestExists(s);
    var x :| IsLowest(x, s);
    x
  }

  /** One allocation.  An exhausted pool answers with frame 0, as the allocator's NULL. */
  ghost function Take(p: Pool, o: Owner): Taken {
    if p.free == {} then Taken(p.(failed := true), 0)
    else
      var f := Lowest(p.free);
      Taken(Pool(p.free - {f}, p.own[f := o], p.failed), f)
  }

  /** A run of allocations, with the frames in the order they were returned. */
  ghost function TakeAll(p: Pool, purposes: seq<Owner>): (r: (Pool, seq<FrameNo>))
    decreases |purposes|
  {
    if purposes == [] then (p, [])
    else
      var t := Take(p, purposes[0]);
      var rest := TakeAll(t.pool, purposes[1..]);
      (rest.0, [t.frame] + rest.1)
  }

  /** A run of n allocations from N free frames leaves max(N - n, 0), and fails exactly when n > N. */
  lemma {:induction false} AllocationCount(p: Pool, purposes: seq<Owner>)
    ensures var (p', fs) := TakeAll(p, purposes);
      && |fs| == |purposes|
      && p'.free <= p.free
      && |p'.free| == (if |p.free| >= |purposes| then |p.free| - |purposes| else 0)
      && (p'.failed <==> p.failed || |p.free| < |purposes|)
    decreases |purposes|
  {
    if purposes != [] {
      AllocationCount(Take(p, purposes[0]).pool, purposes[1..]);
    }
  }

  /** The first N allocations return free frames in strictly increasing order, each below everything that
      is still free, and every allocation after that is NULL. */
  lemma {:induction false} AllocationOrder(p: Pool, purposes: seq<Owner>)
    ensures |TakeAll(p, purposes).1| == |purposes|
    ensures forall i :: 0 <= i < |purposes| ==>
      var f := TakeAll(p, purposes).1[i];
      if i < |p.free|
      then f in p.free && (forall x :: x in TakeAll(p, purposes).0.free ==> f < x)
      else f == 0
    ensures forall i, j :: 0 <= i < j < |purposes| && j < |p.free| ==>
      TakeAll(p, purposes).1[i] < TakeAll(p, purposes).1[j]
    decreases |purposes|
  {
    if purposes != [] {
      var Taken(p1, f) := Take(p, purposes[0]);
      var rest := purposes[1..];
      AllocationOrder(p1, rest);
      AllocationCount(p1, rest);
      var (p2, fs) := TakeAll(p1, rest);
      var all := TakeAll(p, purposes).1;
      assert all == [f] + fs;
      forall i | 0 <= i < |purposes|
        ensures if i < |p.free| then all[i] in p.free && (forall x :: x in p2.free ==> all[i] < x) else all[i] == 0
      {
        if i > 0 { assert all[i] == fs[i - 1]; }
      }
      forall i, j | 0 <= i < j < |purposes| && j < |p.free| ensures all[i] < all[j] {
        assert all[j] == fs[j - 1];
        if i > 0 { assert all[i] == fs[i - 1]; }
      }
    }
  }

  /** No free frame is lost: it is either still free or among the frames returned. */
  lemma {:induction false} AllocationKeepsAll(p: Pool, purposes: seq<Owner>, x: FrameNo)
    requires x in p.free
    ensures var (p', fs) := TakeAll(p, purposes);
      x in p'.free <==> x !in fs[..if |fs| < |p.free| then |fs| else |p.free|]
    decreases |purposes|
  {
    if purposes != [] {
      var Taken(p1, f) := Take(p, purposes[0]);
      var rest := purposes[1..];
      var (p2, fs) := TakeAll(p1, rest);
      var n := if |fs| < |p1.free| then |fs| else |p1.free|;
      assert ([f] + fs)[..n + 1] == [f] + fs[..n];
      if x != f {
        AllocationKeepsAll(p1, rest, x);
      } else {
        AllocationCount(p1, rest);
        AllocationOrder(p1, rest);
      }
    }
  }

  /** Once an allocation has succeeded, page 0 is not free, so from then on a NULL answer means the pool
      is exhausted; before that, NULL may be the successfully allocated page 0. */
  lemma NullMeansExhausted(p: Pool, o: Owner, purposes: seq<Owner>, o': Owner)
    requires p.free != {}
    ensures var p' := TakeAll(Take(p, o).pool, purposes).0;
      0 !in p'.free && (Take(p', o').frame == 0 <==> p'.free == {})
  {
    AllocationCount(Take(p, o).pool, purposes);
  }

  /** ... and the ambiguity is real: a pool whose lowest page is 0 answers NULL with a page in hand. */
  lemma NullMayBePageZero(p: Pool, o: Owner)
    ensures (Take(p, o).frame == 0 && !Take(p, o).pool.failed) <==> (0 in p.free && !p.failed)
  {}

  /** The answer is NULL exactly if there is no free page or the lowest is page 0. */
  lemma NullIff(p: Pool, o: Owner)
    ensures Take(p, o).frame == 0 <==> p.free == {} || 0 in p.free
  {}

  lemma {:induction false} FramesBelow(s: set<FrameNo>, n: nat)
    requires forall x :: x in s ==> x < n
    ensures |s| <= n
  {
    if n == 0 {
      assert s == {};
    } else {
      var t := set x | x in s && x < n - 1;
      FramesBelow(t, n - 1);
      if n - 1 < FRAME_COUNT && n - 1 in s {
        assert s == t + {n - 1};
      } else {
        assert s == t;
      }
    }
  }
}
