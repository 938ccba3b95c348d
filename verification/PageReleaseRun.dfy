/** releaseFreeMemoryToOS of release.h: giving back the pages that only free
    blocks touch. */
module PageReleaseRun {
  import opened Common
  import opened Tiles
  import opened PageCounts
  import opened PageMap
  import opened RangeTracker
  import opened PageRelease

  // ---- Releasing --------------------------------------------------------

  /** For each of `n` pages from page `off`: are all its tiles marked? */
  ghost function PageFlags(p: nat, b: nat, off: nat, n: nat, marked: set<nat>): (f: seq<bool>)
    requires b > 0
    ensures |f| == n
  {
    seq(n, j => j >= 0 && TilesOn(p, b, off + j) <= marked)
  }

  /** The verdicts on all pages of the first `regions` regions, in order. */
  ghost function Verdicts(p: nat, b: nat, off: nat, n: nat, marked: seq<set<nat>>, skip: nat -> bool, regions: nat): seq<bool>
    requires b > 0 && regions <= |marked|
  {
    if regions == 0 then []
    else
      Verdicts(p, b, off, n, marked, skip, regions - 1)
      + (if skip(regions - 1) then seq(n, _ => false) else PageFlags(p, b, off, n, marked[regions - 1]))
  }

  /** Setting the counter of a fully marked page to the mask keeps its meaning. */
  lemma {:induction false} AllCountedKeepsRows(counters: seq<seq<nat>>, mask: nat, p: nat, b: nat, off: nat, n: nat,
                                               marked: seq<set<nat>>, r: nat, j: nat)
    requires b > 0 && RowsOk(counters, mask, p, b, off, n, marked) && r < |marked| && j < n
    requires TilesOn(p, b, off + j) <= marked[r]
    ensures |counters| == |marked| && |counters[r]| == n
    ensures RowsOk(Put(counters, r, j, mask), mask, p, b, off, n, marked)
  {
    var row := PutRow(counters[r], j, mask);
    forall i | 0 <= i < |row| ensures PageOk(row[i], mask, TilesOn(p, b, off + i), marked[r]) {
      assert i != j ==> row[i] == counters[r][i];
    }
  }

  /** Decides one page, given how many tiles touch it, and feeds the tracker. */
  method ReleasePage(context: PageReleaseContext, tracker: FreePagesRangeTracker, r: nat, j: nat, expected: nat)
    requires context.Valid() && context.pageMap.data != null
    requires r < context.numberOfRegions && j < context.pagesCount
    requires expected == TileCount(context.PageSize(), context.blockSize, context.releasePageOffset + j)
    requires tracker.Valid() && tracker.Open()
    modifies context.pageMap.data, context.pageMap`counters, tracker, tracker.recorder
    ensures context.Valid() && tracker.Valid() && tracker.Open()
    ensures tracker.flags == old(tracker.flags)
      + [TilesOn(context.PageSize(), context.blockSize, context.releasePageOffset + j) <= context.marked[r]]
  {
    hide RowsOk, ExpectedCount, TilesOn, TileCount, tracker.Bookkeeping, tracker.Open;
    ghost var m := context.pageMap;
    ghost var p, b, off, n := context.PageSize(), context.blockSize, context.releasePageOffset, context.pagesCount;
    PageVerdict(context, r, j);
    if TilesOn(p, b, off + j) <= context.marked[r] {
      AllCountedKeepsRows(m.counters, m.counterMask, p, b, off, n, context.marked, r, j);
    }
    var canRelease := context.pageMap.UpdateAsAllCountedIf(r, j, expected);
    tracker.ProcessNextPage(canRelease);
  }

  lemma {:induction false} PageVerdict(context: PageReleaseContext, r: nat, j: nat)
    requires context.Valid() && context.pageMap.data != null
    requires r < context.numberOfRegions && j < context.pagesCount
    ensures r < |context.pageMap.counters| == context.pageMap.regions
    ensures j < |context.pageMap.counters[r]|
    ensures context.pageMap.counters[r][j] in
      {context.pageMap.counterMask, TileCount(context.PageSize(), context.blockSize, context.releasePageOffset + j)}
      <==> TilesOn(context.PageSize(), context.blockSize, context.releasePageOffset + j) <= context.marked[r]
  {
    hide RowsOk, ExpectedCount;
    var p, b, at := context.PageSize(), context.blockSize, context.releasePageOffset + j;
    var m := context.pageMap;
    context.RowAt(r);
    TilesFit(p, b, at, m.counterMask);
    TileCountPositive(p, b, at);
    ReleasableIffMarked(m.counters[r][j], m.counterMask, TilesOn(p, b, at), context.marked[r]);
  }

  /** Gives back every page of which the counters say that all blocks on it are
      free, as the maximal page runs; pages of skipped regions are kept. */
  method ReleaseFreeMemoryToOS(context: PageReleaseContext, recorder: RegionReleaseRecorder, skipRegion: nat -> bool)
    requires context.Valid() && context.pageMap.data != null
    requires recorder.calls == [] && recorder.releasedBytes == 0
    modifies context.pageMap.data, context.pageMap`counters, recorder
    ensures context.Valid()
    ensures var verdicts := Verdicts(context.PageSize(), context.blockSize, context.releasePageOffset,
        context.pagesCount, context.marked, skipRegion, context.numberOfRegions);
      && recorder.releasedBytes == Bytes(CountTrue(verdicts), context.PageSize())
      && exists ranges :: Runs(verdicts, ranges)
           && recorder.calls == Calls(ranges, recorder.base + recorder.offset, context.PageSize())
  {
    hide RowsOk, ExpectedCount, Verdicts, PageFlags, Runs, Calls, CountTrue, Bytes;
    ghost var p, b, off, n := context.PageSize(), context.blockSize, context.releasePageOffset, context.pagesCount;
    ghost var marked := context.marked;
    var tracker := new FreePagesRangeTracker(recorder, context.PageSize());
    hide tracker.Bookkeeping, tracker.Open;
    VerdictsStart(p, b, off, n, marked, skipRegion);
    for r := 0 to context.numberOfRegions
      invariant context.Valid() && tracker.Valid() && tracker.Open()
      invariant tracker.flags == Verdicts(p, b, off, n, marked, skipRegion, r)
    {
      VerdictsStep(p, b, off, n, marked, skipRegion, r);
      if skipRegion(r) {
        tracker.SkipPages(context.pagesCount);
      } else if context.sameBlockCountPerPage {
        ReleaseRegionFast(context, tracker, r);
      } else {
        ReleaseRegionSlow(context, tracker, r);
      }
    }
    tracker.Finish();
  }

  lemma VerdictsStart(p: nat, b: nat, off: nat, n: nat, marked: seq<set<nat>>, skip: nat -> bool)
    requires b > 0
    ensures Verdicts(p, b, off, n, marked, skip, 0) == []
  {
  }

  lemma {:induction false} VerdictsStep(p: nat, b: nat, off: nat, n: nat, marked: seq<set<nat>>, skip: nat -> bool, r: nat)
    requires b > 0 && r < |marked|
    ensures Verdicts(p, b, off, n, marked, skip, r + 1)
      == Verdicts(p, b, off, n, marked, skip, r)
       + (if skip(r) then seq(n, _ => false) else PageFlags(p, b, off, n, marked[r]))
  {
  }

  lemma {:induction false} FlagsStep(p: nat, b: nat, off: nat, j: nat, marked: set<nat>)
    requires b > 0
    ensures PageFlags(p, b, off, 0, marked) == []
    ensures PageFlags(p, b, off, j, marked) + [TilesOn(p, b, off + j) <= marked] == PageFlags(p, b, off, j + 1, marked)
  {
  }

  /** Every page has the same number of blocks. */
  method ReleaseRegionFast(context: PageReleaseContext, tracker: FreePagesRangeTracker, r: nat)
    requires context.Valid() && context.pageMap.data != null && context.sameBlockCountPerPage
    requires r < context.numberOfRegions
    requires tracker.Valid() && tracker.Open()
    modifies context.pageMap.data, context.pageMap`counters, tracker, tracker.recorder
    ensures context.Valid() && tracker.Valid() && tracker.Open()
    ensures tracker.flags == old(tracker.flags)
      + PageFlags(context.PageSize(), context.blockSize, context.releasePageOffset, context.pagesCount, context.marked[r])
  {
    hide RowsOk, ExpectedCount, PageFlags, TileCount, TilesOn, tracker.Bookkeeping, tracker.Open;
    ghost var p, b, off := context.PageSize(), context.blockSize, context.releasePageOffset;
    ghost var flags := tracker.flags;
    FlagsStep(p, b, off, 0, context.marked[r]);
    for j := 0 to context.pagesCount
      invariant context.Valid() && tracker.Valid() && tracker.Open()
      invariant tracker.flags == flags + PageFlags(p, b, off, j, context.marked[r])
    {
      ExpectedCountCorrect(p, b, off + j);
      FlagsStep(p, b, off, j, context.marked[r]);
      ReleasePage(context, tracker, r, j, context.fullPagesBlockCountMax);
    }
  }

  /** The block count of each page comes from walking the block boundaries. */
  method ReleaseRegionSlow(context: PageReleaseContext, tracker: FreePagesRangeTracker, r: nat)
    requires context.Valid() && context.pageMap.data != null && !context.sameBlockCountPerPage
    requires r < context.numberOfRegions
    requires tracker.Valid() && tracker.Open()
    modifies context.pageMap.data, context.pageMap`counters, tracker, tracker.recorder
    ensures context.Valid() && tracker.Valid() && tracker.Open()
    ensures tracker.flags == old(tracker.flags)
      + PageFlags(context.PageSize(), context.blockSize, context.releasePageOffset, context.pagesCount, context.marked[r])
  {
    hide RowsOk, ExpectedCount, PageFlags, TileCount, TilesOn, BoundaryStep, Boundary, PageStart, Encodes, Pow2, tracker.Bookkeeping, tracker.Open;
    var pageSize, blockSize := context.PageSize(), context.blockSize;
    ghost var off := context.releasePageOffset;
    ghost var flags := tracker.flags;
    var prevPageBoundary, currentBoundary := StartBoundary(pageSize, blockSize, context.releasePageOffset);
    FlagsStep(pageSize, blockSize, off, 0, context.marked[r]);
    for j := 0 to context.pagesCount
      invariant context.Valid() && tracker.Valid() && tracker.Open()
      invariant tracker.flags == flags + PageFlags(pageSize, blockSize, off, j, context.marked[r])
      invariant prevPageBoundary == PageStart(pageSize, off + j)
      invariant currentBoundary == Boundary(pageSize, blockSize, off + j)
    {
      FlagsStep(pageSize, blockSize, off, j, context.marked[r]);
      prevPageBoundary, currentBoundary := ReleasePageSlow(context, tracker, r, j, prevPageBoundary, currentBoundary);
    }
  }

  /** One page of the slow path. */
  method ReleasePageSlow(context: PageReleaseContext, tracker: FreePagesRangeTracker, r: nat, j: nat,
                         prevPageBoundary: nat, currentBoundary: nat)
    returns (pageBoundary: nat, nextBoundary: nat)
    requires context.Valid() && context.pageMap.data != null && !context.sameBlockCountPerPage
    requires r < context.numberOfRegions && j < context.pagesCount
    requires prevPageBoundary == PageStart(context.PageSize(), context.releasePageOffset + j)
    requires currentBoundary == Boundary(context.PageSize(), context.blockSize, context.releasePageOffset + j)
    requires tracker.Valid() && tracker.Open()
    modifies context.pageMap.data, context.pageMap`counters, tracker, tracker.recorder
    ensures context.Valid() && tracker.Valid() && tracker.Open()
    ensures tracker.flags == old(tracker.flags)
      + [TilesOn(context.PageSize(), context.blockSize, context.releasePageOffset + j) <= context.marked[r]]
    ensures pageBoundary == PageStart(context.PageSize(), context.releasePageOffset + j + 1)
    ensures nextBoundary == Boundary(context.PageSize(), context.blockSize, context.releasePageOffset + j + 1)
  {
    SlowPathSizes(context.PageSize(), context.blockSize);
    hide RowsOk, ExpectedCount, TileCount, TilesOn, BoundaryStep, Boundary, PageStart, tracker.Bookkeeping, tracker.Open;
    var pageSize := context.PageSize();
    PageStartNext(pageSize, context.releasePageOffset + j);
    var blocksPerPage;
    blocksPerPage, nextBoundary := CountPage(pageSize, context.blockSize, prevPageBoundary, currentBoundary);
    pageBoundary := prevPageBoundary + pageSize;
    ReleasePage(context, tracker, r, j, blocksPerPage);
  }

  /** Where the walk starts when the first `off` pages are not counted. */
  method StartBoundary(pageSize: nat, blockSize: nat, off: nat) returns (prevPageBoundary: nat, currentBoundary: nat)
    requires blockSize > 0
    ensures prevPageBoundary == PageStart(pageSize, off)
    ensures currentBoundary == Boundary(pageSize, blockSize, off)
  {
    prevPageBoundary, currentBoundary := 0, 0;
    BoundaryStart(pageSize, blockSize, off);
    if off > 0 {
      prevPageBoundary := off * pageSize;
      currentBoundary := CeilDiv(prevPageBoundary, blockSize) * blockSize;
    }
  }

  lemma SlowPathSizes(p: nat, b: nat)
    requires p > 0 && b > 0 && !ExpectedCount(p, b).same
    ensures b != p
  {
  }

  lemma {:induction false} BoundaryStart(p: nat, b: nat, off: nat)
    requires b > 0
    ensures PageStart(p, off) == off * p && Boundary(p, b, off) == CeilDiv(off * p, b) * b
    ensures Boundary(p, b, 0) == 0 == PageStart(p, 0)
  {
    DivUnique(b - 1, b, 0);
  }

  /** The body of the boundary walk: the current page has one more block for a
      boundary inside it that is not its start, and one more for what is left
      after the whole blocks in its middle. */
  method CountPage(pageSize: nat, blockSize: nat, prevPageBoundary: nat, currentBoundary: nat)
    returns (blocksPerPage: nat, nextBoundary: nat)
    requires pageSize > 0 && blockSize > 0
    ensures forall j: nat ::
      blockSize != pageSize && prevPageBoundary == PageStart(pageSize, j) && currentBoundary == Boundary(pageSize, blockSize, j)
      ==> blocksPerPage == TileCount(pageSize, blockSize, j) && nextBoundary == Boundary(pageSize, blockSize, j + 1)
  {
    hide PageStart, Boundary, TileCount;
    var pn := if blockSize < pageSize then pageSize / blockSize else 1;
    var pnc := pn * blockSize;
    var pageBoundary := prevPageBoundary + pageSize;
    blocksPerPage, nextBoundary := pn, currentBoundary;
    if nextBoundary < pageBoundary {
      if nextBoundary > prevPageBoundary {
        blocksPerPage := blocksPerPage + 1;
      }
      nextBoundary := nextBoundary + pnc;
      if nextBoundary < pageBoundary {
        blocksPerPage := blocksPerPage + 1;
        nextBoundary := nextBoundary + blockSize;
      }
    }
    assert BoundaryStep(pageSize, blockSize, prevPageBoundary, currentBoundary) == (blocksPerPage, nextBoundary);
    hide BoundaryStep;
    forall j: nat | blockSize != pageSize && prevPageBoundary == PageStart(pageSize, j) && currentBoundary == Boundary(pageSize, blockSize, j)
      ensures blocksPerPage == TileCount(pageSize, blockSize, j) && nextBoundary == Boundary(pageSize, blockSize, j + 1)
    {
      BoundaryStepCorrect(pageSize, blockSize, j);
    }
  }
}
