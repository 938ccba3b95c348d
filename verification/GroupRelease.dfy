/** markFreeBlocks of primary64.h: marking the free blocks of the groups that were
    taken out of the free list, in one page map. */
module GroupRelease {
  import opened Common
  import opened Bits
  import opened Tiles
  import opened PageCounts
  import opened RangeMarking
  import opened BlockMarking
  import opened FreeList
  import opened PageRelease
  import opened PageReleaseTheorems
  import opened GroupGeometry
  import opened GroupMarking

  /** Groups with free blocks of the region, in order. */
  ghost predicate FreeGroups(a: Area, groups: seq<Group>, cap: nat) {
    Sorted(groups) && forall i :: 0 <= i < |groups| ==> FreeGroup(a, groups[i], cap)
  }

  ghost predicate Placed(a: Area, groups: seq<Group>) {
    a.Valid() && forall i :: 0 <= i < |groups| ==> groups[i].batches != [] && Start(a, groups[i]) < a.Size()
  }

  /** All that marking the groups marks. */
  ghost function AllMarks(a: Area, groups: seq<Group>, cap: nat): set<nat>
    requires Placed(a, groups)
  {
    if groups == [] then {}
    else AllMarks(a, groups[..|groups| - 1], cap) + Marks(a, groups[|groups| - 1], cap)
  }

  lemma {:induction false} FreeGroupsPlaced(a: Area, groups: seq<Group>, cap: nat)
    requires a.Valid() && FreeGroups(a, groups, cap)
    ensures Placed(a, groups)
  {
    forall i | 0 <= i < |groups| ensures groups[i].batches != [] && Start(a, groups[i]) < a.Size() {
      FreeGroupStart(a, groups[i], cap);
    }
  }

  lemma {:induction false} AllMarksNext(a: Area, groups: seq<Group>, cap: nat, i: nat)
    requires Placed(a, groups) && i < |groups|
    ensures AllMarks(a, groups[..i + 1], cap) == AllMarks(a, groups[..i], cap) + Marks(a, groups[i], cap)
  {
    hide Marks;
    assert groups[..i + 1][..i] == groups[..i];
  }

  /** What the groups before `i` mark comes before all that group `i` marks. */
  lemma {:induction false} EarlierMarks(a: Area, groups: seq<Group>, cap: nat, i: nat, n: nat)
    requires Placed(a, groups) && FreeGroups(a, groups, cap) && n <= i < |groups|
    ensures AllMarks(a, groups[..n], cap) !! Marks(a, groups[i], cap)
  {
    hide Marks, FreeGroup, Start;
    if n > 0 {
      EarlierMarks(a, groups, cap, i, n - 1);
      AllMarksNext(a, groups, cap, n - 1);
      MarksApart(a, groups[n - 1], groups[i], cap);
    }
  }

  lemma {:induction false} MarksApart(a: Area, g: Group, h: Group, cap: nat)
    requires FreeGroup(a, g, cap) && FreeGroup(a, h, cap) && g.base < h.base
    ensures Start(a, g) < a.Size() && Start(a, h) < a.Size()
    ensures Marks(a, g, cap) !! Marks(a, h, cap)
  {
    hide *;
    MarksBefore(a, g, h, cap);
  }

  /** The map of `n` pages from page `off` holds the group that starts at `start`,
      and reaches as far as marking the group needs, but not past the region. */
  ghost predicate Within(a: Area, off: nat, n: nat, start: nat)
    requires a.Valid() && start < a.Size()
  {
    && off * a.PageSize() <= start && a.UsedEnd(start) <= (off + n) * a.PageSize()
    && off + n <= CeilDiv(a.Size(), a.PageSize())
    && (a.UsedEnd(start) == a.Size() ==> off + n == CeilDiv(a.Size(), a.PageSize()))
  }

  function ReleaseEnd(a: Area, last: nat): nat
    requires a.Valid()
  {
    CeilDiv(Min(last + a.GroupSize(), a.Size()), a.blockSize) * a.blockSize
  }

  /** The map that markFreeBlocks sets up holds every group. */
  lemma {:induction false} GroupWithin(a: Area, first: nat, start: nat, last: nat)
    requires a.Valid() && first <= start <= last < a.Size()
    requires first % a.GroupSize() == 0 && (start < last ==> start + a.GroupSize() <= last)
    ensures first < ReleaseEnd(a, last) && first / a.PageSize() * a.PageSize() == first
    ensures Within(a, first / a.PageSize(), CeilDiv(ReleaseEnd(a, last) - first, a.PageSize()), start)
  {
    var p, b, end := a.PageSize(), a.blockSize, Min(last + a.GroupSize(), a.Size());
    var releaseEnd := ReleaseEnd(a, last);
    CeilDivLeast(end, b, a.carved);
    MulMono(CeilDiv(end, b), a.carved, b);
    assert end <= releaseEnd <= a.Size();
    PageDividesGroup(a, first);
    Area.ExactQuotient(first, p);
    assert a.UsedEnd(start) <= end && first < end;
    assert a.UsedEnd(start) == a.Size() ==> end == a.Size() == releaseEnd;
    hide a.PageSize, a.Size, a.GroupSize, a.UsedEnd, ReleaseEnd;
    MapPages(p, first / p, first, releaseEnd, a.Size());
  }

  lemma {:induction false} MapPages(p: nat, off: nat, first: nat, end: nat, size: nat)
    requires p > 0 && off * p == first < end <= size
    ensures var n := CeilDiv(end - first, p);
      end <= (off + n) * p && off + n == CeilDiv(end, p) <= CeilDiv(size, p)
  {
    CeilDivShift(end, p, off);
    CeilDivLeast(end, p, 0);
    DivMono(end + p - 1, size + p - 1, p);
  }

  // ---- Marking one group ------------------------------------------------

  function BatchArrays(batches: seq<Batch>): (f: seq<seq<nat>>)
    ensures |f| == |batches|
  {
    seq(|batches|, i requires 0 <= i < |batches| => batches[i].blocks)
  }

  lemma {:induction false} FlattenBatches(batches: seq<Batch>)
    ensures Flatten(BatchArrays(batches)) == BatchesBlocks(batches)
  {
    if batches != [] {
      FlattenBatches(batches[1..]);
      assert BatchArrays(batches)[1..] == BatchArrays(batches[1..]);
    }
  }

  function Decompact(a: Area, regionBeg: nat): nat -> nat {
    c => regionBeg + a.Offset(c)
  }

  lemma {:induction false} TilesAgree(a: Area, regionBeg: nat, blocks: seq<nat>)
    requires a.Valid()
    ensures TileSeq(blocks, Decompact(a, regionBeg), regionBeg, a.blockSize) == FreeTiles(a, blocks)
  {
    hide a.Offset;
  }

  /** The blocks of a group can be marked one by one. */
  lemma {:induction false} GroupMarkable(a: Area, regionBeg: nat, g: Group, cap: nat, off: nat, n: nat)
    requires FreeGroup(a, g, cap) && Start(a, g) < a.Size() && Within(a, off, n, Start(a, g))
    ensures Markable(BatchesBlocks(g.batches), Decompact(a, regionBeg), regionBeg, a.PageSize(), a.blockSize, off, n, a.Size())
  {
    hide BatchesBlocks, a.Offset, FreeTiles, TileSeq, GroupOf, Start, a.UsedEnd, a.Starts, CeilDiv, a.Size, NoDuplicates, a.PageSize;
    var blocks := BatchesBlocks(g.batches);
    TilesAgree(a, regionBeg, blocks);
    forall i | 0 <= i < |blocks|
      ensures BlockInMap(Decompact(a, regionBeg)(blocks[i]) - regionBeg, a.PageSize(), a.blockSize, off, n, a.Size())
    {
      FreeTileStarts(a, g, cap, blocks[i]);
      a.StartsIff(Start(a, g), a.Offset(blocks[i]) / a.blockSize);
    }
  }

  lemma {:induction false} RegionTrailing(a: Area, off: nat, n: nat, start: nat)
    requires a.Valid() && start < a.Size() && Within(a, off, n, start) && a.UsedEnd(start) == a.Size()
    ensures a.blockSize <= a.Size() && TrailingFits(a.PageSize(), a.blockSize, a.Size())
    ensures EndsWithRegion(a.PageSize(), a.blockSize, a.Size(), off, n)
  {
    WholeRegionTrailing(a.PageSize(), a.blockSize, a.carved);
  }

  lemma {:induction false} FullGroupCovered(a: Area, g: Group, cap: nat, off: nat, n: nat)
    requires FreeGroup(a, g, cap) && Start(a, g) < a.Size() && Within(a, off, n, Start(a, g)) && LooksFull(a, g, cap)
    ensures GroupSpan(a, Start(a, g)).Valid()
    ensures Covered(GroupSpan(a, Start(a, g)), off, n)
    ensures GroupSpan(a, Start(a, g)).Marked() == Marks(a, g, cap)
  {
    FreeGroupStart(a, g, cap);
    hide FreeGroup, LooksFull, Marks, Start, a.UsedEnd, a.Size;
    FullGroupMarks(a, g, cap);
  }

  /** Marks one group: as a range if its block count says that it is entirely
      free, block by block otherwise. */
  method MarkGroup(a: Area, regionBeg: nat, context: PageReleaseContext, g: Group, cap: nat)
    requires FreeGroup(a, g, cap) && Start(a, g) < a.Size()
    requires context.Valid() && context.pageMap.data != null && context.numberOfRegions == 1
    requires context.pageSizeLog == a.pageLog && context.blockSize == a.blockSize
    requires Within(a, context.releasePageOffset, context.pagesCount, Start(a, g))
    requires context.marked[0] !! Marks(a, g, cap)
    modifies context`marked, context.pageMap, context.pageMap.data
    ensures context.Valid() && context.pageMap.data == old(context.pageMap.data)
    ensures context.marked == [old(context.marked[0]) + Marks(a, g, cap)]
  {
    hide FreeGroup, LooksFull, BatchesBlocks, RowsOk, ExpectedCount, Markable, TileSeq, FreeTiles, Elements,
      Trailing, TrailingFits, EndsWithRegion, Within, Covered, a.Offset, a.MaxContainedBlocks, Flatten;
    var start := Start(a, g);
    var usedEnd := a.UsedEnd(start);
    FullIsCount(a, g, cap);
    var numBlocks := (|g.batches| - 1) * cap + |g.batches[0].blocks|;
    if numBlocks == a.MaxContainedBlocks(start) {
      FullGroupCovered(a, g, cap, context.releasePageOffset, context.pagesCount);
      var ok := context.MarkRangeAsAllCounted(regionBeg + start, regionBeg + usedEnd, regionBeg, 0, a.Size(), true);
    } else {
      MarkPartialGroup(a, regionBeg, context, g, cap);
    }
  }

  lemma FullIsCount(a: Area, g: Group, cap: nat)
    requires FreeGroup(a, g, cap) && Start(a, g) < a.Size()
    ensures a.Valid() && g.batches != []
    ensures LooksFull(a, g, cap) <==>
      (|g.batches| - 1) * cap + |g.batches[0].blocks| == a.MaxContainedBlocks(Start(a, g))
  {
  }

  lemma PartialMarks(a: Area, g: Group, cap: nat)
    requires a.Valid() && g.batches != [] && Start(a, g) < a.Size() && !LooksFull(a, g, cap)
    ensures Marks(a, g, cap)
         == (if a.UsedEnd(Start(a, g)) == a.Size() then Pretend(a) else {}) + Elements(FreeTiles(a, BatchesBlocks(g.batches)))
  {
    hide Trailing, Elements, FreeTiles, BatchesBlocks, a.UsedEnd, LooksFull;
  }

  method MarkPartialGroup(a: Area, regionBeg: nat, context: PageReleaseContext, g: Group, cap: nat)
    requires a.Valid() && FreeGroup(a, g, cap) && Start(a, g) < a.Size() && g.batches != [] && !LooksFull(a, g, cap)
    requires context.Valid() && context.pageMap.data != null && context.numberOfRegions == 1
    requires context.pageSizeLog == a.pageLog && context.blockSize == a.blockSize
    requires Within(a, context.releasePageOffset, context.pagesCount, Start(a, g))
    requires context.marked[0] !! Marks(a, g, cap)
    modifies context`marked, context.pageMap, context.pageMap.data
    ensures context.Valid() && context.pageMap.data == old(context.pageMap.data)
    ensures context.marked == [old(context.marked[0]) + Marks(a, g, cap)]
  {
    hide FreeGroup, LooksFull, BatchesBlocks, RowsOk, ExpectedCount, Markable, TileSeq, FreeTiles, Elements,
      Trailing, TrailingFits, EndsWithRegion, Within, Covered, a.Offset, Flatten, BatchArrays, a.UsedEnd, Marks;
    var start := Start(a, g);
    var mayContainLast := a.UsedEnd(start) == a.Size();
    PartialMarks(a, g, cap);
    FlattenBatches(g.batches);
    TilesAgree(a, regionBeg, BatchesBlocks(g.batches));
    GroupMarkable(a, regionBeg, g, cap, context.releasePageOffset, context.pagesCount);
    if mayContainLast {
      RegionTrailing(a, context.releasePageOffset, context.pagesCount, start);
    }
    var ok := context.MarkFreeBlocksInRegion(BatchArrays(g.batches), Decompact(a, regionBeg), regionBeg, 0, a.Size(),
                                             mayContainLast, true);
  }

  /** Sets up a page map over the groups and marks them. Without memory for the
      map nothing is marked. */
  method MarkFreeBlocks(a: Area, wordLog: nat, regionBeg: nat, groups: seq<Group>, cap: nat, mapped: bool)
    returns (context: PageReleaseContext)
    requires a.Valid() && FreeGroups(a, groups, cap) && groups != []
    requires Pow2(a.pageLog) + 2 < Pow2(Pow2(wordLog))
    ensures fresh(context) && fresh(context.pageMap) && context.Valid() && context.numberOfRegions == 1
    ensures context.pageMap.data != null ==> fresh(context.pageMap.data)
    ensures context.pageSizeLog == a.pageLog && context.blockSize == a.blockSize
    ensures mapped <==> context.pageMap.data != null
    ensures Placed(a, groups) && context.releasePageOffset * a.PageSize() == Start(a, groups[0])
    ensures var last := Start(a, groups[|groups| - 1]);
      context.releasePageOffset + context.pagesCount == CeilDiv(ReleaseEnd(a, last), a.PageSize())
    ensures mapped ==> context.marked == [AllMarks(a, groups, cap)]
  {
    hide FreeGroup, Start, Marks, AllMarks, Within, ReleaseEnd, Placed, RowsOk, ExpectedCount, CeilDiv;
    FreeGroupsPlaced(a, groups, cap);
    MapHoldsGroups(a, groups, cap);
    var releaseBase := Start(a, groups[0]);
    var releaseEnd := ReleaseEnd(a, Start(a, groups[|groups| - 1]));
    context := new PageReleaseContext(a.pageLog, wordLog, a.blockSize, 1, releaseEnd - releaseBase, releaseBase);
    var ok := context.EnsurePageMapAllocated(mapped);
    if !ok {
      return;
    }
    NoMarks(a, groups, cap);
    assert context.marked == [{}];
    for i := 0 to |groups|
      invariant context.Valid() && context.pageMap.data != null && fresh(context.pageMap.data)
      invariant context.marked == [AllMarks(a, groups[..i], cap)]
    {
      EarlierMarks(a, groups, cap, i, i);
      AllMarksNext(a, groups, cap, i);
      MarkGroup(a, regionBeg, context, groups[i], cap);
    }
    assert groups[..|groups|] == groups;
  }

  lemma {:induction false} NoMarks(a: Area, groups: seq<Group>, cap: nat)
    requires Placed(a, groups)
    ensures forall i :: 0 <= i <= |groups| ==> Placed(a, groups[..i])
    ensures forall i :: 0 <= i < |groups| ==> Start(a, groups[i]) < a.Size()
    ensures AllMarks(a, groups[..0], cap) == {}
  {
    hide Start;
  }

  lemma {:induction false} MapHoldsGroups(a: Area, groups: seq<Group>, cap: nat)
    requires a.Valid() && FreeGroups(a, groups, cap) && groups != []
    ensures forall i :: 0 <= i < |groups| ==> Start(a, groups[i]) < a.Size()
    ensures var first, end := Start(a, groups[0]), ReleaseEnd(a, Start(a, groups[|groups| - 1]));
      && first < end && first / a.PageSize() * a.PageSize() == first
      && first / a.PageSize() + CeilDiv(end - first, a.PageSize()) == CeilDiv(end, a.PageSize())
      && forall i :: 0 <= i < |groups| ==>
           Within(a, first / a.PageSize(), CeilDiv(end - first, a.PageSize()), Start(a, groups[i]))
  {
    hide FreeGroup, Within, ReleaseEnd, CeilDiv, Start, a.PageSize, a.Size, a.GroupSize;
    GroupHeld(a, groups, cap, 0);
    forall i | 0 <= i < |groups|
      ensures Start(a, groups[i]) < a.Size()
      ensures var first, end := Start(a, groups[0]), ReleaseEnd(a, Start(a, groups[|groups| - 1]));
        Within(a, first / a.PageSize(), CeilDiv(end - first, a.PageSize()), Start(a, groups[i]))
    {
      GroupHeld(a, groups, cap, i);
    }
  }

  lemma {:induction false} GroupHeld(a: Area, groups: seq<Group>, cap: nat, i: nat)
    requires a.Valid() && FreeGroups(a, groups, cap) && i < |groups|
    ensures Start(a, groups[i]) < a.Size()
    ensures var first, end := Start(a, groups[0]), ReleaseEnd(a, Start(a, groups[|groups| - 1]));
      && first < end && first / a.PageSize() * a.PageSize() == first
      && first / a.PageSize() + CeilDiv(end - first, a.PageSize()) == CeilDiv(end, a.PageSize())
      && Within(a, first / a.PageSize(), CeilDiv(end - first, a.PageSize()), Start(a, groups[i]))
  {
    hide *;
    var first, last := Start(a, groups[0]), Start(a, groups[|groups| - 1]);
    GroupPlace(a, groups, cap, 0);
    GroupPlace(a, groups, cap, i);
    GroupWithin(a, first, Start(a, groups[i]), last);
    CeilDivShift(ReleaseEnd(a, last), a.PageSize(), first / a.PageSize());
  }

  lemma {:induction false} GroupPlace(a: Area, groups: seq<Group>, cap: nat, i: nat)
    requires a.Valid() && FreeGroups(a, groups, cap) && i < |groups|
    ensures var last := |groups| - 1;
      && Start(a, groups[i]) < a.Size() && Start(a, groups[i]) % a.GroupSize() == 0
      && (i < last ==> Start(a, groups[i]) + a.GroupSize() <= Start(a, groups[last]))
      && Start(a, groups[0]) <= Start(a, groups[i]) <= Start(a, groups[last]) < a.Size()
  {
    hide FreeGroup, a.Offset;
    var last := |groups| - 1;
    FreeGroupStart(a, groups[i], cap);
    FreeGroupStart(a, groups[0], cap);
    FreeGroupStart(a, groups[last], cap);
    if i < last {
      GroupsApart(a, groups[i].base, groups[last].base);
    }
    if 0 < i {
      GroupsApart(a, groups[0].base, groups[i].base);
    }
  }
}
