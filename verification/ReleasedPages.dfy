/** Which pages steps 3 and 4 of releaseToOSMaybe in primary64.h give back, for the
    groups that were taken out of the free list. */
module ReleasedPages {
  import opened Common
  import opened Tiles
  import opened BlockMarking
  import opened FreeList
  import opened PageRelease
  import opened PageReleaseRun
  import opened PageReleaseTheorems
  import opened GroupGeometry
  import opened GroupMarking
  import opened GroupRelease
  import opened PageCounts
  import opened PageMap
  import opened RangeTracker

  // ---- Which pages are released -----------------------------------------

  /** The last group reaches the end of the region and marks the pretend blocks. */
  ghost predicate PretendMarked(a: Area, groups: seq<Group>, cap: nat)
    requires Placed(a, groups)
  {
    groups != [] && MarksPretend(a, groups[|groups| - 1], cap)
  }

  lemma {:induction false} FreeTilesConcat(a: Area, x: seq<nat>, y: seq<nat>)
    requires a.Valid()
    ensures Elements(FreeTiles(a, x + y)) == Elements(FreeTiles(a, x)) + Elements(FreeTiles(a, y))
  {
    hide a.Offset;
    assert FreeTiles(a, x + y) == FreeTiles(a, x) + FreeTiles(a, y);
  }

  lemma {:induction false} FreeTilesNext(a: Area, groups: seq<Group>, i: nat)
    requires a.Valid() && i < |groups|
    ensures Elements(FreeTiles(a, ListBlocks(groups[..i + 1])))
         == Elements(FreeTiles(a, ListBlocks(groups[..i]))) + Elements(FreeTiles(a, BatchesBlocks(groups[i].batches)))
  {
    hide FreeTiles, Elements, ListBlocks, BatchesBlocks;
    assert groups[..i + 1] == groups[..i] + [groups[i]];
    ListConcat(groups[..i], [groups[i]]);
    ListSingle(groups[i]);
    FreeTilesConcat(a, ListBlocks(groups[..i]), BatchesBlocks(groups[i].batches));
  }

  /** Marking the groups marks their free blocks, and pretend blocks only through
      the last group. */
  lemma {:induction false} AllMarksExact(a: Area, groups: seq<Group>, cap: nat, n: nat)
    requires a.Valid() && FreeGroups(a, groups, cap) && Placed(a, groups) && n <= |groups|
    ensures AllMarks(a, groups[..n], cap) == Elements(FreeTiles(a, ListBlocks(groups[..n])))
      + if n == |groups| && PretendMarked(a, groups, cap) then Pretend(a) else {}
  {
    hide FreeGroup, FreeTiles, Elements, BatchesBlocks, MarksPretend, Start, Pretend, a.Size;
    if n == 0 {
      NothingFree(a);
    } else {
      AllMarksExact(a, groups, cap, n - 1);
      AllMarksNext(a, groups, cap, n - 1);
      FreeTilesNext(a, groups, n - 1);
      if n < |groups| {
        MarksBefore(a, groups[n - 1], groups[n], cap);
      }
    }
  }

  lemma NothingFree(a: Area)
    requires a.Valid()
    ensures Elements(FreeTiles(a, ListBlocks([]))) == {}
  {
  }

  /** A page is released exactly when all real blocks on it are free blocks of the
      extracted groups, and, where it holds pretend blocks, those were marked. */
  lemma {:induction false} ReleasedIff(a: Area, groups: seq<Group>, cap: nat, j: nat)
    requires a.Valid() && FreeGroups(a, groups, cap) && Placed(a, groups)
    requires j < CeilDiv(a.Size(), a.PageSize())
    ensures TilesOn(a.PageSize(), a.blockSize, j) <= AllMarks(a, groups, cap) <==>
      && NoBlockInUse(a.PageSize(), a.blockSize, a.carved, Elements(FreeTiles(a, ListBlocks(groups))), j)
      && (PretendMarked(a, groups, cap) || forall k :: k in TilesOn(a.PageSize(), a.blockSize, j) ==> k < a.carved)
  {
    AllMarksExact(a, groups, cap, |groups|);
    assert groups[..|groups|] == groups;
    var free := Elements(FreeTiles(a, ListBlocks(groups)));
    hide AllMarks, FreeGroups, Placed, PretendMarked, FreeTiles, ListBlocks, Elements, NoBlockInUse;
    FreeTilesReal(a, groups, cap);
    MarkedPageHasNoBlockInUse(a.PageSize(), a.blockSize, a.carved, free, j);
    PageTiles(a, j);
    if !PretendMarked(a, groups, cap) {
      assert free + {} == free;
      OnlyReal(TilesOn(a.PageSize(), a.blockSize, j), free, Pretend(a), a.carved);
    }
  }

  lemma OnlyReal(tiles: set<nat>, free: set<nat>, pretend: set<nat>, n: nat)
    requires forall k :: k in tiles ==> k < n || k in pretend
    requires forall k :: k in free ==> k < n
    requires forall k :: k in pretend ==> k >= n
    ensures tiles <= free <==> tiles <= free + pretend && forall k :: k in tiles ==> k < n
  {
  }

  lemma {:induction false} FreeTilesReal(a: Area, groups: seq<Group>, cap: nat)
    requires a.Valid() && FreeGroups(a, groups, cap)
    ensures forall k :: k in Elements(FreeTiles(a, ListBlocks(groups))) ==> k < a.carved
  {
    var blocks := ListBlocks(groups);
    forall i | 0 <= i < |blocks| ensures FreeTiles(a, blocks)[i] < a.carved {
      FreeBlockReal(a, groups, cap, blocks[i]);
    }
    hide *;
  }

  lemma {:induction false} FreeBlockReal(a: Area, groups: seq<Group>, cap: nat, c: nat)
    requires a.Valid() && FreeGroups(a, groups, cap) && c in ListBlocks(groups)
    ensures a.Offset(c) / a.blockSize < a.carved
  {
    hide a.Offset;
    FreeBlockWhole(a, groups, cap, c);
    DivLess(a.Offset(c), a.blockSize, a.carved);
  }

  lemma {:induction false} FreeBlockWhole(a: Area, groups: seq<Group>, cap: nat, c: nat)
    requires a.Valid() && FreeGroups(a, groups, cap) && c in ListBlocks(groups)
    ensures WholeBlock(a, c)
  {
    hide WholeBlock, FreeTiles, GroupOf, BatchesBlocks;
    if c in BatchesBlocks(groups[0].batches) {
      assert FreeGroup(a, groups[0], cap);
    } else {
      FreeGroupsTail(a, groups, cap);
      FreeBlockWhole(a, groups[1..], cap, c);
    }
  }

  lemma {:induction false} FreeGroupsTail(a: Area, groups: seq<Group>, cap: nat)
    requires FreeGroups(a, groups, cap) && groups != []
    ensures FreeGroups(a, groups[1..], cap)
  {
    hide FreeGroup;
    assert forall i :: 0 <= i < |groups| - 1 ==> groups[1..][i] == groups[i + 1];
  }

  lemma {:induction false} PageTiles(a: Area, j: nat)
    requires a.Valid() && j < CeilDiv(a.Size(), a.PageSize())
    ensures forall k :: k in TilesOn(a.PageSize(), a.blockSize, j) ==> k < a.carved || k in Pretend(a)
    ensures forall k :: k in Pretend(a) ==> k >= a.carved
  {
    var p, b := a.PageSize(), a.blockSize;
    DivideProduct(a.carved, b);
    LastPageBound(p, b, j, a.Size());
    hide a.Size, a.PageSize, CeilDiv;
  }

  lemma {:induction false} LastPageBound(p: nat, b: nat, j: nat, size: nat)
    requires p > 0 && b > 0 && j < CeilDiv(size, p)
    ensures EndTile(p, b, j) <= CeilDiv(RoundedSize(p, size), b)
  {
    MulMono(j + 1, CeilDiv(size, p), p);
    DivMono((j + 1) * p + b - 1, CeilDiv(size, p) * p + b - 1, b);
  }

  /** The pages that the page map covers. */
  function FirstMapPage(a: Area, groups: seq<Group>): nat
    requires groups != []
  {
    hide Start, a.PageSize;
    Start(a, groups[0]) / a.PageSize()
  }

  function EndMapPage(a: Area, groups: seq<Group>): nat
    requires a.Valid() && groups != []
  {
    CeilDiv(ReleaseEnd(a, Start(a, groups[|groups| - 1])), a.PageSize())
  }

  /** The verdict on each of these pages. */
  ghost function GroupVerdicts(a: Area, groups: seq<Group>, cap: nat): (v: seq<bool>)
    requires Placed(a, groups) && groups != []
    ensures |v| == Max(EndMapPage(a, groups) - FirstMapPage(a, groups), 0)
  {
    hide EndMapPage, FirstMapPage, AllMarks;
    PageFlags(a.PageSize(), a.blockSize, FirstMapPage(a, groups),
              Max(EndMapPage(a, groups) - FirstMapPage(a, groups), 0), AllMarks(a, groups, cap))
  }

  /** The pages that go back to the system. */
  ghost predicate IsReleased(a: Area, groups: seq<Group>, cap: nat, j: nat)
    requires Placed(a, groups) && groups != []
  {
    FirstMapPage(a, groups) <= j < EndMapPage(a, groups) && GroupVerdicts(a, groups, cap)[j - FirstMapPage(a, groups)]
  }

  /** No block that is not free in the extracted groups touches a released page. */
  lemma {:induction false} ReleasedPageIsFree(a: Area, groups: seq<Group>, cap: nat, j: nat)
    requires a.Valid() && FreeGroups(a, groups, cap) && Placed(a, groups) && groups != []
    requires IsReleased(a, groups, cap, j)
    ensures NoBlockInUse(a.PageSize(), a.blockSize, a.carved, Elements(FreeTiles(a, ListBlocks(groups))), j)
  {
    hide AllMarks, FreeGroups, FreeTiles, ListBlocks, Elements, NoBlockInUse, TilesOn, ReleaseEnd, CeilDiv, Start, FirstMapPage;
    EndInRegion(a, Start(a, groups[|groups| - 1]));
    assert TilesOn(a.PageSize(), a.blockSize, j) <= AllMarks(a, groups, cap);
    ReleasedIff(a, groups, cap, j);
  }

  lemma {:induction false} EndInRegion(a: Area, last: nat)
    requires a.Valid()
    ensures CeilDiv(ReleaseEnd(a, last), a.PageSize()) <= CeilDiv(a.Size(), a.PageSize())
  {
    hide a.PageSize, a.GroupSize;
    var end := Min(last + a.GroupSize(), a.Size());
    CeilDivLeast(end, a.blockSize, a.carved);
    MulMono(CeilDiv(end, a.blockSize), a.carved, a.blockSize);
    DivMono(ReleaseEnd(a, last) + a.PageSize() - 1, a.Size() + a.PageSize() - 1, a.PageSize());
  }

  /** Steps 3 and 4 of releaseToOSMaybe: what is asked of the system are the maximal
      runs of released pages, or nothing if there is no memory for the page map. */
  method ReleaseGroups(a: Area, wordLog: nat, regionBeg: nat, groups: seq<Group>, cap: nat, mapped: bool)
    returns (calls: seq<(nat, nat)>)
    requires a.Valid() && FreeGroups(a, groups, cap) && groups != []
    requires Pow2(a.pageLog) + 2 < Pow2(Pow2(wordLog))
    ensures !mapped ==> calls == []
    ensures Placed(a, groups)
    ensures mapped ==> CallsFor(GroupVerdicts(a, groups, cap), regionBeg + Start(a, groups[0]), a.PageSize(), calls)
  {
    hide FreeGroups, Placed, AllMarks, Start, ReleaseEnd, RowsOk, ExpectedCount, Runs, Calls, Verdicts, PageFlags, CeilDiv, Pow2, CountTrue;
    var context := MarkFreeBlocks(a, wordLog, regionBeg, groups, cap, mapped);
    if context.pageMap.data == null {
      return [];
    }
    var skipNone := (_: nat) => false;
    OnlyRegion(a.PageSize(), a.blockSize, context.releasePageOffset, context.pagesCount, AllMarks(a, groups, cap), skipNone);
    DivideProduct(context.releasePageOffset, a.PageSize());
    var recorder := new RegionReleaseRecorder(regionBeg, context.releasePageOffset * context.PageSize());
    ReleaseFreeMemoryToOS(context, recorder, skipNone);
    calls := recorder.calls;
  }

  /** The calls release exactly the pages whose flag is set, as maximal runs. */
  ghost predicate CallsFor(flags: seq<bool>, start: nat, pageSize: nat, calls: seq<(nat, nat)>) {
    exists ranges :: Runs(flags, ranges) && calls == Calls(ranges, start, pageSize)
  }

  lemma {:induction false} OnlyRegion(p: nat, b: nat, off: nat, n: nat, marked: set<nat>, skip: nat -> bool)
    requires b > 0 && !skip(0)
    ensures Verdicts(p, b, off, n, [marked], skip, 1) == PageFlags(p, b, off, n, marked)
  {
    VerdictsStart(p, b, off, n, [marked], skip);
    VerdictsStep(p, b, off, n, [marked], skip, 0);
  }
}
