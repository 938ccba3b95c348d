/** What marking and releasing achieve together: a page goes back to the system
    exactly when no block in use touches it. */
module PageReleaseTheorems {
  import opened Common
  import opened Tiles
  import opened PageCounts
  import opened RangeMarking
  import opened BlockMarking
  import opened PageMap
  import opened RangeTracker
  import opened PageRelease
  import opened PageReleaseRun

  /** Range marking stands for marking each block that starts in the range and,
      when the region's last block is among them, the trailing pretend blocks. */
  lemma {:induction false} RangeMarksItsBlocks(s: Span, k: nat)
    requires s.Valid()
    ensures k in s.Marked() <==>
      (s.from <= k * s.b < s.to || (s.HasBlock() && s.EndsRegion() && k in Trailing(s.p, s.b, s.regionSize)))
  {
    CeilDivLeast(s.from, s.b, k);
    CeilDivLeast(s.to, s.b, k);
    if s.HasBlock() {
      hide s.HasBlock, s.EndsRegion, s.LastBlockEnd, s.Last, s.End, s.First, s.Valid, CeilDiv;
      if s.EndsRegion() {
        EndingRangeMarks(s);
      } else {
        assert s.Marked() == Interval(s.First(), CeilDiv(s.to, s.b)) by { StoppingRange(s); }
      }
    } else if s.from <= k * s.b {
      MulMono(s.First(), k, s.b);
    }
  }

  lemma StoppingRange(s: Span)
    requires s.Valid() && s.HasBlock() && !s.EndsRegion()
    ensures s.Marked() == Interval(s.First(), CeilDiv(s.to, s.b))
  {
  }

  lemma {:induction false} EndingRangeMarks(s: Span)
    requires s.Valid() && s.HasBlock() && s.EndsRegion()
    ensures forall k: nat :: k in s.Marked() <==>
      (s.First() <= k < CeilDiv(s.to, s.b) || k in Trailing(s.p, s.b, s.regionSize))
  {
    s.LastBlockFacts();
    s.EndIsPageEnd();
    DivUnique(s.regionSize, s.b, s.Last() + 1);
    DivMono(s.to + s.b - 1, s.End() + s.b - 1, s.b);
    assert s.regionSize / s.b == CeilDiv(s.to, s.b);
  }

  /** Every block of the region that overlaps page `j` is in `free`. */
  ghost predicate NoBlockInUse(p: nat, b: nat, blocks: nat, free: set<nat>, j: nat) {
    forall k: nat :: k < blocks && Overlaps(p, b, k, j) ==> k in free
  }

  /** On a page of the region, marking the free blocks and the pretend blocks
      covers all tiles exactly when every real block on the page is free. */
  lemma {:induction false} MarkedPageHasNoBlockInUse(p: nat, b: nat, blocks: nat, free: set<nat>, j: nat)
    requires p > 0 && b > 0 && j < CeilDiv(blocks * b, p)
    ensures TilesOn(p, b, j) <= free + Trailing(p, b, blocks * b) <==> NoBlockInUse(p, b, blocks, free, j)
  {
    hide TilesOn, Overlaps, Trailing;
    forall k: nat ensures k in TilesOn(p, b, j) <==> Overlaps(p, b, k, j) {
      TilesOnOverlap(p, b, k, j);
    }
    RealOrPretend(p, b, blocks, j);
  }

  /** A tile on a page of the region is a block or a pretend block, and no block is
      a pretend block. */
  lemma {:induction false} RealOrPretend(p: nat, b: nat, blocks: nat, j: nat)
    requires p > 0 && b > 0 && j < CeilDiv(blocks * b, p)
    ensures forall k: nat :: k in TilesOn(p, b, j) ==> (k < blocks || k in Trailing(p, b, blocks * b))
    ensures forall k: nat :: k < blocks ==> k !in Trailing(p, b, blocks * b)
  {
    DivUnique(blocks * b, b, blocks);
    MulMono(j + 1, CeilDiv(blocks * b, p), p);
    DivMono((j + 1) * p + b - 1, CeilDiv(blocks * b, p) * p + b - 1, b);
    assert EndTile(p, b, j) <= CeilDiv(RoundedSize(p, blocks * b), b);
  }

  /** For each page of the region: is it free of blocks in use? */
  ghost function FreePages(p: nat, b: nat, blocks: nat, free: set<nat>): (f: seq<bool>)
    requires p > 0
  {
    seq(CeilDiv(blocks * b, p), j => j >= 0 && NoBlockInUse(p, b, blocks, free, j))
  }

  /** A duplicate-free list of whole blocks of the region. */
  ghost predicate FreeBlocks(list: seq<nat>, decompact: nat -> nat, base: nat, b: nat, blocks: nat)
    requires b > 0
  {
    && NoDuplicates(TileSeq(list, decompact, base, b))
    && forall i :: 0 <= i < |list| ==> IsBlock(decompact(list[i]) - base, b, blocks)
  }

  ghost predicate IsBlock(q: int, b: nat, blocks: nat)
    requires b > 0
  {
    0 <= q && q % b == 0 && q + b <= blocks * b
  }

  lemma {:induction false} FreeBlocksMarkable(list: seq<nat>, decompact: nat -> nat, base: nat, p: nat, b: nat, blocks: nat)
    requires p > 0 && b > 0 && FreeBlocks(list, decompact, base, b, blocks)
    ensures Markable(list, decompact, base, p, b, 0, CeilDiv(blocks * b, p), blocks * b)
  {
    CeilDivLeast(blocks * b, p, 0);
    var end := CeilDiv(blocks * b, p) * p;
    forall i | 0 <= i < |list|
      ensures BlockInMap(decompact(list[i]) - base, p, b, 0, CeilDiv(blocks * b, p), blocks * b)
    {
      assert IsBlock(decompact(list[i]) - base, b, blocks);
    }
  }

  lemma {:induction false} WholeRegionTrailing(p: nat, b: nat, blocks: nat)
    requires p > 0 && b > 0 && blocks > 0
    ensures b <= blocks * b && TrailingFits(p, b, blocks * b)
    ensures EndsWithRegion(p, b, blocks * b, 0, CeilDiv(blocks * b, p))
  {
    MulMono(1, blocks, b);
    DivUnique(blocks * b, b, blocks);
    CeilDivLeast(blocks * b, p, 0);
  }

  lemma {:induction false} VerdictsAreFreePages(p: nat, b: nat, blocks: nat, free: set<nat>, skip: nat -> bool)
    requires p > 0 && b > 0 && !skip(0)
    ensures Verdicts(p, b, 0, CeilDiv(blocks * b, p), [free + Trailing(p, b, blocks * b)], skip, 1)
         == FreePages(p, b, blocks, free)
  {
    var n := CeilDiv(blocks * b, p);
    var marked := free + Trailing(p, b, blocks * b);
    var flags := PageFlags(p, b, 0, n, marked);
    VerdictsStart(p, b, 0, n, [marked], skip);
    VerdictsStep(p, b, 0, n, [marked], skip, 0);
    forall j | 0 <= j < n ensures flags[j] == FreePages(p, b, blocks, free)[j] {
      MarkedPageHasNoBlockInUse(p, b, blocks, free, j);
    }
    hide *;
    assert flags == FreePages(p, b, blocks, free);
  }

  /** Releasing a whole region of `blocks` blocks: whatever the block size, the
      page size and the free list, the system is asked for exactly the pages that
      no block in use overlaps, as maximal ranges in increasing order. */
  method ReleaseWholeRegion(pageSizeLog: nat, wordLog: nat, blockSize: nat, blocks: nat,
                            freeList: seq<seq<nat>>, decompact: nat -> nat, base: nat)
    returns (calls: seq<(nat, nat)>)
    requires blockSize > 0 && blocks > 0 && Pow2(pageSizeLog) + 2 < Pow2(Pow2(wordLog))
    requires FreeBlocks(Flatten(freeList), decompact, base, blockSize, blocks)
    ensures var free := Elements(TileSeq(Flatten(freeList), decompact, base, blockSize));
      exists ranges :: Runs(FreePages(Pow2(pageSizeLog), blockSize, blocks, free), ranges)
        && calls == Calls(ranges, base, Pow2(pageSizeLog))
  {
    hide Elements, TileSeq, Flatten, FreeBlocks, Markable, Trailing, TrailingFits, EndsWithRegion, RowsOk, Runs, Calls,
      FreePages, Verdicts, ExpectedCount, CeilDiv;
    var regionSize := blocks * blockSize;
    ghost var p, n := Pow2(pageSizeLog), CeilDiv(regionSize, Pow2(pageSizeLog));
    ghost var free := Elements(TileSeq(Flatten(freeList), decompact, base, blockSize));
    FreeBlocksMarkable(Flatten(freeList), decompact, base, p, blockSize, blocks);
    WholeRegionTrailing(p, blockSize, blocks);
    var skipNone := (_: nat) => false;
    VerdictsAreFreePages(p, blockSize, blocks, free, skipNone);
    var context := new PageReleaseContext(pageSizeLog, wordLog, blockSize, 1, regionSize, 0);
    assert context.releasePageOffset == 0;
    var ok := context.MarkFreeBlocksInRegion(freeList, decompact, base, 0, regionSize, true, true);
    assert context.marked[0] == free + Trailing(p, blockSize, regionSize);
    assert context.marked == [free + Trailing(p, blockSize, regionSize)];
    var recorder := new RegionReleaseRecorder(base, 0);
    ReleaseFreeMemoryToOS(context, recorder, skipNone);
    calls := recorder.calls;
  }
}
