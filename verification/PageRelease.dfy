/** PageReleaseContext and releaseFreeMemoryToOS of release.h: counting free blocks
    page by page, and giving back the pages that only free blocks touch. */
module PageRelease {
  import opened Common
  import opened Bits
  import opened Tiles
  import opened PageCounts
  import opened RangeMarking
  import opened BlockMarking
  import opened PageMap
  import opened RangeTracker

  // ---- Range marking, step by step --------------------------------------

  function CountFirst(s: Span, off: nat, row: seq<nat>): (r: seq<nat>)
    requires s.p > 0 && s.b > 0 && off <= s.FirstPage() < off + |row|
    ensures |r| == |row|
  {
    if s.Partial() then BumpRow(row, s.FirstPage() - off, s.BlocksInFirstPage()) else row
  }

  function CountSpill(s: Span, off: nat, row: seq<nat>): (r: seq<nat>)
    requires s.p > 0 && s.b > 0 && s.to > 0 && off <= s.FillTo()
    ensures |r| == |row|
  {
    if s.EndsRegion() || s.LastBlockEnd() == s.to then row
    else RowInc(row, s.FillTo() - off, Max((s.LastBlockEnd() - 1) / s.p - off + 1, 0))
  }

  function Fill(s: Span, off: nat, row: seq<nat>, mask: nat): (r: seq<nat>)
    requires s.p > 0 && s.b > 0 && s.to > 0 && off <= s.FillFrom()
    ensures |r| == |row|
  {
    if s.FillFrom() < s.FillTo() then RowFill(row, s.FillFrom() - off, s.FillTo() - off, mask) else row
  }

  lemma {:induction false} StepsAreNewRow(s: Span, off: nat, row: seq<nat>, mask: nat)
    requires s.Valid() && s.HasBlock()
    requires off <= s.FirstPage() < off + |row|
    ensures off <= s.FillTo() && off <= s.FillFrom()
    ensures Fill(s, off, CountSpill(s, off, CountFirst(s, off, row)), mask) == NewRow(s, off, row, mask)
  {
    s.Facts();
    if !s.EndsRegion() {
      s.SpillIndices();
    }
    var r3 := Fill(s, off, CountSpill(s, off, CountFirst(s, off, row)), mask);
    forall i | 0 <= i < |row| ensures r3[i] == NewCount(s, off + i, row[i], mask) {
      StepsAtPage(s, off, row, mask, i);
    }
  }

  lemma {:induction false} NoBlockNoChange(s: Span, off: nat, row: seq<nat>, mask: nat)
    requires s.p > 0 && s.b > 0 && s.to > 0 && !s.HasBlock()
    ensures NewRow(s, off, row, mask) == row
  {
  }

  lemma {:induction false} StepsAtPage(s: Span, off: nat, row: seq<nat>, mask: nat, i: nat)
    requires s.Valid() && s.HasBlock() && i < |row|
    requires off <= s.FirstPage() < off + |row| && off <= s.FillTo()
    requires s.FirstPage() < s.FillTo()
    requires !s.EndsRegion() && s.LastBlockEnd() == s.to ==> forall j :: !s.Spills(j)
    ensures Fill(s, off, CountSpill(s, off, CountFirst(s, off, row)), mask)[i] == NewCount(s, off + i, row[i], mask)
  {
    hide s.First, s.FirstBlock, s.FirstPage, s.FillTo, s.LastBlockEnd, s.BlocksInFirstPage, s.EndsRegion, s.Valid;
  }

  // ---- Free lists -------------------------------------------------------

  /** All blocks of a list of batches, in list order. */
  function Flatten(freeList: seq<seq<nat>>): seq<nat> {
    if freeList == [] then [] else freeList[0] + Flatten(freeList[1..])
  }

  lemma BumpIsRowInc(row: seq<nat>, i: nat)
    requires i < |row|
    ensures BumpRow(row, i, 1) == RowInc(row, i, i + 1)
  {
  }

  /** A compact pointer for a whole block of the region, on pages the map covers. */
  ghost predicate BlockInMap(q: int, p: nat, b: nat, off: nat, n: nat, regionSize: nat)
    requires b > 0
  {
    0 <= q && q % b == 0 && q + b <= regionSize && off * p <= q < (off + n) * p
  }

  function TileAt(q: int, b: nat): nat
    requires b > 0
  {
    Max(q, 0) / b
  }

  /** The tiles of the blocks in `blocks`, given as compact pointers. */
  function TileSeq(blocks: seq<nat>, decompact: nat -> nat, base: nat, b: nat): (t: seq<nat>)
    requires b > 0
    ensures |t| == |blocks|
  {
    seq(|blocks|, i requires 0 <= i < |blocks| => TileAt(decompact(blocks[i]) - base, b))
  }

  function Elements(s: seq<nat>): set<nat> {
    set k | k in s
  }

  /** Blocks that may be marked together: whole blocks on pages of the map, no
      two of them the same. */
  ghost predicate Markable(blocks: seq<nat>, decompact: nat -> nat, base: nat,
                           p: nat, b: nat, off: nat, n: nat, regionSize: nat)
    requires b > 0
  {
    && NoDuplicates(TileSeq(blocks, decompact, base, b))
    && forall i :: 0 <= i < |blocks| ==> BlockInMap(decompact(blocks[i]) - base, p, b, off, n, regionSize)
  }

  lemma FlattenNone(freeList: seq<seq<nat>>)
    ensures Flatten(freeList[..0]) == []
  {
  }

  lemma {:induction false} FlattenSplit(freeList: seq<seq<nat>>, j: nat)
    requires j < |freeList|
    ensures Flatten(freeList[..j + 1]) == Flatten(freeList[..j]) + freeList[j]
    ensures Flatten(freeList) == Flatten(freeList[..j]) + freeList[j] + Flatten(freeList[j + 1..])
  {
    if j == 0 {
      assert freeList[..1] == [freeList[0]] && freeList[..1][1..] == [];
    } else {
      var rest := freeList[1..];
      FlattenSplit(rest, j - 1);
      FlattenPrefix(freeList, j);
      FlattenPrefix(freeList, j + 1);
      assert freeList[j + 1..] == rest[j..] && freeList[j] == rest[j - 1];
      hide *;
      InFront(freeList[0], Flatten(rest[..j - 1]), freeList[j], Flatten(rest[j..]));
    }
  }

  lemma InFront(x: seq<nat>, y: seq<nat>, z: seq<nat>, w: seq<nat>)
    ensures x + (y + z) == x + y + z && x + (y + z + w) == x + y + z + w
  {
  }

  lemma FlattenPrefix(freeList: seq<seq<nat>>, n: nat)
    requires 0 < n <= |freeList|
    ensures Flatten(freeList[..n]) == freeList[0] + Flatten(freeList[1..][..n - 1])
    ensures Flatten(freeList) == freeList[0] + Flatten(freeList[1..])
  {
    assert freeList[..n][1..] == freeList[1..][..n - 1];
  }

  lemma {:induction false} TileSeqConcat(x: seq<nat>, y: seq<nat>, decompact: nat -> nat, base: nat, b: nat)
    requires b > 0
    ensures TileSeq(x + y, decompact, base, b) == TileSeq(x, decompact, base, b) + TileSeq(y, decompact, base, b)
  {
  }

  /** Of three consecutive pieces of a markable list, the middle one is markable
      and shares no tile with the first. */
  lemma {:induction false} MarkablePiece(x: seq<nat>, y: seq<nat>, z: seq<nat>, decompact: nat -> nat, base: nat,
                        p: nat, b: nat, off: nat, n: nat, regionSize: nat)
    requires b > 0 && Markable(x + y + z, decompact, base, p, b, off, n, regionSize)
    ensures Markable(y, decompact, base, p, b, off, n, regionSize)
    ensures Elements(TileSeq(x, decompact, base, b)) !! Elements(TileSeq(y, decompact, base, b))
    ensures Elements(TileSeq(y, decompact, base, b)) <= Elements(TileSeq(x + y + z, decompact, base, b))
  {
    TileSeqConcat(x + y, z, decompact, base, b);
    TileSeqConcat(x, y, decompact, base, b);
    assert forall i :: 0 <= i < |y| ==> y[i] == (x + y + z)[|x| + i];
    hide TileSeq, BlockInMap, TileAt;
    DistinctPieces(TileSeq(x, decompact, base, b), TileSeq(y, decompact, base, b), TileSeq(z, decompact, base, b));
  }

  lemma {:induction false} DistinctPieces(x: seq<nat>, y: seq<nat>, z: seq<nat>)
    requires NoDuplicates(x + y + z)
    ensures NoDuplicates(y) && Elements(x) !! Elements(y) && Elements(y) <= Elements(x + y + z)
  {
    var t := x + y + z;
    assert forall i :: 0 <= i < |x| ==> x[i] == t[i];
    assert forall i :: 0 <= i < |y| ==> y[i] == t[|x| + i];
  }

  /** Whole blocks of the region come before its trailing tiles. */
  lemma {:induction false} MarkableBeforeTrailing(blocks: seq<nat>, decompact: nat -> nat, base: nat,
                                 p: nat, b: nat, off: nat, n: nat, regionSize: nat)
    requires p > 0 && b > 0 && Markable(blocks, decompact, base, p, b, off, n, regionSize)
    ensures Elements(TileSeq(blocks, decompact, base, b)) !! Trailing(p, b, regionSize)
  {
    forall i | 0 <= i < |blocks|
      ensures TileSeq(blocks, decompact, base, b)[i] < regionSize / b
    {
      WholeBlockTile(decompact(blocks[i]) - base, b, regionSize);
    }
  }

  lemma {:induction false} WholeBlockTile(q: int, b: nat, regionSize: nat)
    requires b > 0 && 0 <= q && q % b == 0 && q + b <= regionSize
    ensures TileAt(q, b) < regionSize / b
    ensures TileAt(q, b) * b == q
  {
    var k := q / b;
    assert q == k * b;
    Distribute(k, 0, b);
    DivLess(regionSize, b, k + 1);
  }

  /** Marking more tiles of region `r`. */
  function MarkMore(marked: seq<set<nat>>, r: nat, more: set<nat>): (m: seq<set<nat>>)
    requires r < |marked|
    ensures |m| == |marked| && m[r] == marked[r] + more
  {
    marked[r := marked[r] + more]
  }

  lemma {:induction false} MarkMoreTwice(marked: seq<set<nat>>, r: nat, x: set<nat>, y: set<nat>)
    requires r < |marked|
    ensures MarkMore(marked, r, {}) == marked
    ensures MarkMore(MarkMore(marked, r, x), r, y) == MarkMore(marked, r, x + y)
  {
    assert marked[r] + {} == marked[r];
    assert marked[r] + x + y == marked[r] + (x + y);
  }

  class PageReleaseContext {
    const pageSizeLog: nat
    const blockSize: nat
    const numberOfRegions: nat
    const releasePageOffset: nat
    const pagesCount: nat
    const fullPagesBlockCountMax: nat
    const sameBlockCountPerPage: bool
    const pageMap: RegionPageMap

    /** The tiles marked as free so far, region by region. */
    ghost var marked: seq<set<nat>>

    ghost predicate Valid()
      reads this, pageMap, pageMap.data
    {
      && Shape()
      && pageMap.Valid()
      && |marked| == numberOfRegions
      && (pageMap.data == null ==> forall r :: 0 <= r < numberOfRegions ==> marked[r] == {})
      && (pageMap.data != null ==> Counted())
    }

    ghost predicate Shape()
      reads this, pageMap
    {
      && blockSize > 0 && numberOfRegions > 0 && pagesCount > 0
      && PageCount(fullPagesBlockCountMax, sameBlockCountPerPage) == ExpectedCount(PageSize(), blockSize)
      && 0 < fullPagesBlockCountMax < Pow2(Pow2(pageMap.wordLog))
      && (pageMap.data != null ==>
            && pageMap.regions == numberOfRegions
            && pageMap.numCounters == pagesCount
            && fullPagesBlockCountMax <= pageMap.counterMask)
    }

    /** The counters say which tiles are marked. */
    ghost predicate Counted()
      requires blockSize > 0
      reads this, pageMap
    {
      RowsOk(pageMap.counters, pageMap.counterMask, PageSize(), blockSize, releasePageOffset, pagesCount, marked)
    }

    function PageSize(): nat { Pow2(pageSizeLog) }

    constructor (pageSizeLog: nat, wordLog: nat, blockSize: nat, numberOfRegions: nat, releaseSize: nat, releaseOffset: nat)
      requires blockSize > 0 && numberOfRegions > 0 && releaseSize > 0
      requires numberOfRegions != 1 ==> releaseOffset == 0
      requires Pow2(pageSizeLog) + 2 < Pow2(Pow2(wordLog))
      ensures Valid() && fresh(pageMap) && pageMap.data == null
      ensures this.pageSizeLog == pageSizeLog && this.blockSize == blockSize && this.numberOfRegions == numberOfRegions
      ensures pagesCount == CeilDiv(releaseSize, Pow2(pageSizeLog))
      ensures releasePageOffset == releaseOffset / Pow2(pageSizeLog)
      ensures marked == seq(numberOfRegions, _ => {})
    {
      hide ExpectedCount, CeilDiv, Pow2, RowsOk;
      var pageSize := Pow2(pageSizeLog);
      var max, same := FullPageCount(pageSizeLog, blockSize);
      MaxFitsWord(pageSize, blockSize);
      this.pageSizeLog := pageSizeLog;
      this.blockSize := blockSize;
      this.numberOfRegions := numberOfRegions;
      fullPagesBlockCountMax := max;
      sameBlockCountPerPage := same;
      CeilDivLeast(releaseSize, pageSize, 0);
      pagesCount := CeilDiv(releaseSize, pageSize);
      releasePageOffset := releaseOffset / pageSize;
      pageMap := new RegionPageMap(wordLog);
      marked := seq(numberOfRegions, _ => {});
    }

    /** The most blocks that any page has, and whether all pages have as many. */
    static method FullPageCount(pageSizeLog: nat, blockSize: nat) returns (max: nat, same: bool)
      requires blockSize > 0
      ensures forall j: nat :: TileCount(Pow2(pageSizeLog), blockSize, j) <= max
      ensures same ==> forall j: nat :: TileCount(Pow2(pageSizeLog), blockSize, j) == max
      ensures PageCount(max, same) == ExpectedCount(Pow2(pageSizeLog), blockSize)
    {
      hide Pow2, TileCount;
      var pageSize := Pow2(pageSizeLog);
      forall j: nat
        ensures TileCount(pageSize, blockSize, j) <= ExpectedCount(pageSize, blockSize).max
        ensures ExpectedCount(pageSize, blockSize).same ==> TileCount(pageSize, blockSize, j) == ExpectedCount(pageSize, blockSize).max
      {
        ExpectedCountCorrect(pageSize, blockSize, j);
      }
      if blockSize <= pageSize {
        if pageSize % blockSize == 0 {
          max, same := pageSize / blockSize, true;
        } else if blockSize % (pageSize % blockSize) == 0 {
          max, same := pageSize / blockSize + 1, true;
        } else {
          max, same := pageSize / blockSize + 2, false;
        }
      } else {
        AndLowMask(blockSize, pageSizeLog);
        LowIsMod(blockSize, pageSizeLog);
        if BitAnd(blockSize, pageSize - 1) == 0 {
          max, same := 1, true;
        } else {
          max, same := 2, false;
        }
      }
    }

    static lemma {:induction false} MaxFitsWord(p: nat, b: nat)
      requires p > 0 && b > 0
      ensures 0 < ExpectedCount(p, b).max <= p + 2
    {
      TileCountPositive(p, b, 0);
      ExpectedCountCorrect(p, b, 0);
      QuotientAtMost(p, b);
    }

    method EnsurePageMapAllocated(mapped: bool) returns (ok: bool)
      requires Valid()
      modifies pageMap
      ensures Valid() && ok == (pageMap.data != null)
      ensures old(pageMap.data) != null ==> ok && unchanged(pageMap)
      ensures pageMap.data == old(pageMap.data) || fresh(pageMap.data)
      ensures old(pageMap.data) == null ==> ok == mapped
    {
      if pageMap.data != null {
        return true;
      }
      pageMap.Reset(numberOfRegions, pagesCount, fullPagesBlockCountMax, mapped);
      if mapped {
        forall r | 0 <= r < numberOfRegions
          ensures |pageMap.counters[r]| == pagesCount
          ensures RowOk(pageMap.counters[r], pageMap.counterMask, PageSize(), blockSize, releasePageOffset, marked[r])
        {
          ZeroRowOk(pageMap.counters[r], pageMap.counterMask, PageSize(), blockSize, releasePageOffset);
        }
      }
      return pageMap.data != null;
    }

    lemma {:induction false} RowAt(r: nat)
      requires Valid() && pageMap.data != null && r < numberOfRegions
      ensures |pageMap.counters| == pageMap.regions == numberOfRegions
      ensures |pageMap.counters[r]| == pageMap.numCounters == pagesCount
      ensures RowOk(pageMap.counters[r], pageMap.counterMask, PageSize(), blockSize, releasePageOffset, marked[r])
      ensures ExpectedCount(PageSize(), blockSize).max <= pageMap.counterMask
    {
      RowsOkAt(pageMap.counters, pageMap.counterMask, PageSize(), blockSize, releasePageOffset, pagesCount, marked, r);
    }

    /** Replacing one region's counters by counters for more marked tiles. */
    lemma {:induction false} MarksRow(r: nat, row: seq<nat>, more: set<nat>)
      requires Valid() && pageMap.data != null && r < numberOfRegions && |row| == pagesCount
      requires RowOk(row, pageMap.counterMask, PageSize(), blockSize, releasePageOffset, marked[r] + more)
      ensures r < |pageMap.counters|
      ensures RowsOk(pageMap.counters[r := row], pageMap.counterMask, PageSize(), blockSize, releasePageOffset,
                     pagesCount, MarkMore(marked, r, more))
    {
      RowsOkUpdate(pageMap.counters, pageMap.counterMask, PageSize(), blockSize, releasePageOffset, pagesCount,
                   marked, r, row, marked[r] + more);
    }

    function GetPageIndex(p: nat): int { p / PageSize() - releasePageOffset }

    /** Marks every block that starts in `[from, to)` without visiting the blocks.
        `mapped` is the outcome of allocating the page map, if that is still due. */
    method MarkRangeAsAllCounted(from: nat, to: nat, base: nat, regionIndex: nat, regionSize: nat, mapped: bool)
      returns (ok: bool)
      requires Valid() && regionIndex < numberOfRegions
      requires base <= from < to
      requires var s := Span(PageSize(), blockSize, from - base, to - base, regionSize);
        s.Valid() && Covered(s, releasePageOffset, pagesCount) && s.Marked() !! marked[regionIndex]
      modifies this`marked, pageMap, pageMap.data
      ensures Valid()
      ensures old(pageMap.data) != null ==> ok && pageMap.data == old(pageMap.data)
      ensures old(pageMap.data) == null ==> ok == mapped
      ensures pageMap.data == old(pageMap.data) || fresh(pageMap.data)
      ensures ok == (pageMap.data != null)
      ensures !ok ==> marked == old(marked)
      ensures ok ==> marked == MarkMore(old(marked), regionIndex,
                Span(PageSize(), blockSize, from - base, to - base, regionSize).Marked())
    {
      hide RowsOk, RowOk, ExpectedCount, NewRow, Pow2, Covered;
      ok := EnsurePageMapAllocated(mapped);
      if !ok {
        return;
      }
      ghost var s := Span(PageSize(), blockSize, from - base, to - base, regionSize);
      RowAt(regionIndex);
      ghost var row := pageMap.counters[regionIndex];
      RangeMarksRow(s, releasePageOffset, row, pageMap.counterMask, marked[regionIndex]);
      MarksRow(regionIndex, NewRow(s, releasePageOffset, row, pageMap.counterMask), s.Marked());
      MarkAllocatedRange(from - base, to - base, regionIndex, regionSize);
      marked := MarkMore(marked, regionIndex, s.Marked());
    }

    /** The map of this context, and region `r` in it, can take the marks of `s`. */
    ghost predicate Ready(s: Span, r: nat)
      reads this, pageMap, pageMap.data
    {
      && Valid() && pageMap.data != null && r < numberOfRegions
      && s.p == PageSize() && s.b == blockSize
      && s.Valid() && Covered(s, releasePageOffset, pagesCount) && s.Marked() !! marked[r]
    }

    lemma {:induction false} ReadyFacts(s: Span, r: nat)
      requires Ready(s, r) && s.HasBlock()
      ensures pageMap.Valid() && r < |pageMap.counters| && |pageMap.counters| == pageMap.regions
      ensures |pageMap.counters[r]| == pageMap.numCounters == pagesCount
      ensures releasePageOffset <= s.FirstPage() < releasePageOffset + pagesCount
      ensures s.Partial() ==>
        pageMap.counters[r][s.FirstPage() - releasePageOffset] + s.BlocksInFirstPage() <= pageMap.counterMask
      ensures forall i :: 0 <= i < pagesCount && s.Spills(releasePageOffset + i) ==>
        CountFirst(s, releasePageOffset, pageMap.counters[r])[i] < pageMap.counterMask
    {
      hide RowsOk, ExpectedCount, TilesOn, PageOk, s.Marked, s.BlocksInFirstPage, s.FirstPage, s.Spills, s.Partial;
      FirstPageInMap(s, releasePageOffset, pagesCount);
      s.Facts();
      s.FirstPageDoesNotSpill();
      RowAt(r);
      var row := pageMap.counters[r];
      forall i | 0 <= i < pagesCount
        ensures s.Partial() && releasePageOffset + i == s.FirstPage() ==> row[i] + s.BlocksInFirstPage() <= pageMap.counterMask
        ensures s.Spills(releasePageOffset + i) ==> row[i] < pageMap.counterMask
      {
        RangeHasRoom(s, releasePageOffset + i, row[i], pageMap.counterMask, marked[r]);
      }
    }

    method MarkAllocatedRange(from: nat, to: nat, regionIndex: nat, regionSize: nat)
      requires from < to <= regionSize
      requires Ready(Span(PageSize(), blockSize, from, to, regionSize), regionIndex)
      modifies pageMap.data, pageMap`counters
      ensures pageMap.Valid()
      ensures regionIndex < |old(pageMap.counters)|
      ensures pageMap.counters == old(pageMap.counters)[regionIndex :=
                NewRow(Span(PageSize(), blockSize, from, to, regionSize), releasePageOffset,
                       old(pageMap.counters)[regionIndex], pageMap.counterMask)]
    {
      hide NewRow, CountFirst, CountSpill, RowFill, RowOk, Covered, ExpectedCount;
      var pageSize := PageSize();
      ghost var s := Span(pageSize, blockSize, from, to, regionSize);
      hide s.Valid, s.Marked, s.FillFrom, s.FillTo, s.FillEnd, s.Spills, s.Partial, s.BlocksInFirstPage;
      var firstBlock := CeilDiv(from, blockSize) * blockSize;
      RowAt(regionIndex);
      ghost var row := pageMap.counters[regionIndex];
      if firstBlock >= to {
        NoBlockNoChange(s, releasePageOffset, row, pageMap.counterMask);
        return;
      }
      ReadyFacts(s, regionIndex);
      StepsAreNewRow(s, releasePageOffset, row, pageMap.counterMask);
      var fromInRegion := MarkFirstPage(s, regionIndex, firstBlock);
      var toInRegion := MarkLastBlock(s, regionIndex, to, regionSize);
      s.FillIndices();
      if fromInRegion < toInRegion {
        pageMap.SetAsAllCountedRange(regionIndex, GetPageIndex(fromInRegion), GetPageIndex(toInRegion - 1));
      }
    }

    method MarkFirstPage(ghost s: Span, regionIndex: nat, firstBlock: nat) returns (fillFrom: nat)
      requires pageMap.data != null && pageMap.Valid() && s.Valid() && s.HasBlock()
      requires s.p == PageSize() && s.b == blockSize && firstBlock == s.FirstBlock()
      requires regionIndex < pageMap.regions == |pageMap.counters|
      requires |pageMap.counters[regionIndex]| == pageMap.numCounters
      requires releasePageOffset <= s.FirstPage() < releasePageOffset + pageMap.numCounters
      requires s.Partial() ==>
        pageMap.counters[regionIndex][s.FirstPage() - releasePageOffset] + s.BlocksInFirstPage() <= pageMap.counterMask
      modifies pageMap.data, pageMap`counters
      ensures pageMap.Valid()
      ensures pageMap.counters == old(pageMap.counters)[regionIndex :=
        CountFirst(s, releasePageOffset, old(pageMap.counters)[regionIndex])]
      ensures fillFrom == s.FillFrom() * s.p
    {
      var pageSize := PageSize();
      s.FirstPageIndices();
      FirstPageCount(s);
      hide s.First, s.BlocksInFirstPage, CeilDiv, Pow2;
      var fromInRegion := firstBlock / pageSize * pageSize;
      if firstBlock != fromInRegion {
        var numBlocksInFirstPage := (fromInRegion + pageSize - firstBlock + blockSize - 1) / blockSize;
        pageMap.IncN(regionIndex, GetPageIndex(fromInRegion), numBlocksInFirstPage);
        fromInRegion := CeilDiv(fromInRegion + 1, pageSize) * pageSize;
      }
      return fromInRegion;
    }

    static lemma FirstPageCount(s: Span)
      requires s.Valid() && s.FirstPage() * s.p <= s.FirstBlock() < s.FirstPage() * s.p + s.p == (s.FirstPage() + 1) * s.p
      ensures (s.FirstPage() * s.p + s.p - s.FirstBlock() + s.b - 1) / s.b == s.BlocksInFirstPage()
    {
    }

    method MarkLastBlock(ghost s: Span, regionIndex: nat, to: nat, regionSize: nat) returns (fillEnd: nat)
      requires pageMap.data != null && pageMap.Valid() && s.Valid() && s.HasBlock()
      requires s.p == PageSize() && s.b == blockSize && s.to == to && s.regionSize == regionSize
      requires regionIndex < pageMap.regions == |pageMap.counters|
      requires |pageMap.counters[regionIndex]| == pageMap.numCounters
      requires releasePageOffset <= s.FillTo()
      requires forall i :: 0 <= i < pageMap.numCounters && s.Spills(releasePageOffset + i) ==>
        pageMap.counters[regionIndex][i] < pageMap.counterMask
      modifies pageMap.data, pageMap`counters
      ensures pageMap.Valid()
      ensures pageMap.counters == old(pageMap.counters)[regionIndex :=
        CountSpill(s, releasePageOffset, old(pageMap.counters)[regionIndex])]
      ensures fillEnd == s.FillEnd()
    {
      var lastBlock := (to - 1) / blockSize * blockSize;
      if lastBlock + blockSize != regionSize {
        s.SpillIndices();
        if lastBlock + blockSize != to {
          pageMap.IncRange(regionIndex, GetPageIndex(to), GetPageIndex(lastBlock + blockSize - 1));
        }
        return to;
      } else {
        return regionSize;
      }
    }

    /** Counts one free block, at offset `pInRegion`, on every page it touches. */
    method MarkBlock(regionIndex: nat, pInRegion: nat, regionSize: nat)
      requires Valid() && pageMap.data != null && regionIndex < numberOfRegions
      requires BlockInMap(pInRegion, PageSize(), blockSize, releasePageOffset, pagesCount, regionSize)
      requires TileAt(pInRegion, blockSize) !in marked[regionIndex]
      modifies this`marked, pageMap.data, pageMap`counters
      ensures Valid()
      ensures marked == MarkMore(old(marked), regionIndex, {TileAt(pInRegion, blockSize)})
    {
      hide RowsOk, RowOk, RowInc, ExpectedCount;
      ghost var k := TileAt(pInRegion, blockSize);
      ghost var row := pageMap.counters[regionIndex];
      ghost var row' := BlockCounted(regionIndex, pInRegion, k, regionSize);
      MarksRow(regionIndex, row', {k});
      IncPages(regionIndex, pInRegion);
      marked := MarkMore(marked, regionIndex, {k});
    }

    lemma {:induction false} BlockCounted(r: nat, q: nat, k: nat, regionSize: nat) returns (row': seq<nat>)
      requires Valid() && pageMap.data != null && r < numberOfRegions
      requires BlockInMap(q, PageSize(), blockSize, releasePageOffset, pagesCount, regionSize)
      requires k == TileAt(q, blockSize) && k !in marked[r]
      ensures r < |pageMap.counters| == pageMap.regions
      ensures |pageMap.counters[r]| == pageMap.numCounters
      ensures q % blockSize == 0
      ensures releasePageOffset <= q / PageSize() < releasePageOffset + pageMap.numCounters
      ensures q / PageSize() <= (q + blockSize - 1) / PageSize()
      ensures var row := pageMap.counters[r];
        && row' == RowInc(row, GetPageIndex(q), GetPageIndex(q + blockSize - 1) + 1)
        && |row'| == pagesCount
        && (forall i :: 0 <= i < |row| && GetPageIndex(q) <= i <= GetPageIndex(q + blockSize - 1)
              ==> row[i] < pageMap.counterMask)
      ensures RowOk(row', pageMap.counterMask, PageSize(), blockSize, releasePageOffset, marked[r] + {k})
    {
      hide RowsOk, RowOk, ExpectedCount, RowInc;
      RowAt(r);
      hide Shape, Counted, PageSize;
      row' := BlockInRow(PageSize(), blockSize, releasePageOffset, pageMap.counters[r], pageMap.counterMask, q, marked[r]);
    }

    static lemma {:induction false} BlockInRow(p: nat, b: nat, off: nat, row: seq<nat>, mask: nat, q: nat, marked: set<nat>)
      returns (row': seq<nat>)
      requires p > 0 && b > 0 && q % b == 0 && off * p <= q < (off + |row|) * p && ExpectedCount(p, b).max <= mask
      requires RowOk(row, mask, p, b, off, marked) && q / b !in marked
      ensures off <= q / p < off + |row| && q / p <= (q + b - 1) / p
      ensures row' == RowInc(row, q / p - off, (q + b - 1) / p - off + 1) && |row'| == |row|
      ensures forall i :: 0 <= i < |row| && q / p - off <= i <= (q + b - 1) / p - off ==> row[i] < mask
      ensures RowOk(row', mask, p, b, off, marked + {q / b})
    {
      hide RowOk, ExpectedCount, RowInc;
      assert q == q / b * b;
      DivLess(q, p, off);
      DivLess(q, p, off + |row|);
      BlockMarksRow(p, b, off, row, mask, q / b, marked);
      row' := RowInc(row, q / p - off, (q + b - 1) / p - off + 1);
    }

    method IncPages(regionIndex: nat, pInRegion: nat)
      requires pageMap.Valid() && pageMap.data != null && blockSize > 0
      requires regionIndex < pageMap.regions == |pageMap.counters|
      requires |pageMap.counters[regionIndex]| == pageMap.numCounters
      requires pInRegion % blockSize == 0
      requires releasePageOffset <= pInRegion / PageSize() < releasePageOffset + pageMap.numCounters
      requires pInRegion / PageSize() <= (pInRegion + blockSize - 1) / PageSize()
      requires var row := pageMap.counters[regionIndex];
        forall i :: 0 <= i < |row| && GetPageIndex(pInRegion) <= i <= GetPageIndex(pInRegion + blockSize - 1)
          ==> row[i] < pageMap.counterMask
      modifies pageMap.data, pageMap`counters
      ensures pageMap.Valid()
      ensures pageMap.counters == old(pageMap.counters)[regionIndex :=
        RowInc(old(pageMap.counters)[regionIndex], GetPageIndex(pInRegion), GetPageIndex(pInRegion + blockSize - 1) + 1)]
    {
      hide RowInc, PageSize;
      var pageSize := PageSize();
      if blockSize <= pageSize && pageSize % blockSize == 0 {
        // Each block affects one page only.
        BlockAtOnOnePage(pageSize, blockSize, pInRegion);
        ghost var row := pageMap.counters[regionIndex];
        var i := GetPageIndex(pInRegion);
        BumpIsRowInc(row, i);
        pageMap.Inc(regionIndex, i);
      } else {
        pageMap.IncRange(regionIndex, GetPageIndex(pInRegion), GetPageIndex(pInRegion + blockSize - 1));
      }
    }

    /** Counts the "pretend" blocks after the region's last block as free. */
    method MarkTrailingBlocks(regionIndex: nat, regionSize: nat)
      requires Valid() && pageMap.data != null && regionIndex < numberOfRegions
      requires blockSize <= regionSize && TrailingFits(PageSize(), blockSize, regionSize)
      requires EndsWithRegion(PageSize(), blockSize, regionSize, releasePageOffset, pagesCount)
      requires Trailing(PageSize(), blockSize, regionSize) !! marked[regionIndex]
      modifies this`marked, pageMap.data, pageMap`counters
      ensures Valid()
      ensures marked == MarkMore(old(marked), regionIndex, Trailing(PageSize(), blockSize, regionSize))
    {
      hide RowsOk, RowOk, ExpectedCount, Trailing, TrailingBase, NumTrailing, TrailingFits, EndsWithRegion, CeilDiv;
      var pageSize := PageSize();
      TrailingArithmetic(pageSize, blockSize, regionSize);
      var lastBlockInRegion := (regionSize / blockSize - 1) * blockSize;
      var roundedRegionSize := CeilDiv(regionSize, pageSize) * pageSize;
      var trailingBlockBase := lastBlockInRegion + blockSize;
      var numTrailingBlocks := CeilDiv(CeilDiv(roundedRegionSize - trailingBlockBase, blockSize) * blockSize, blockSize);
      ghost var row' := TrailingCounted(regionIndex, regionSize, numTrailingBlocks);
      MarksRow(regionIndex, row', Trailing(pageSize, blockSize, regionSize));
      assert pageMap.counters[regionIndex := pageMap.counters[regionIndex]] == pageMap.counters;
      if numTrailingBlocks > 0 {
        pageMap.IncN(regionIndex, GetPageIndex(trailingBlockBase), numTrailingBlocks);
      }
      marked := MarkMore(marked, regionIndex, Trailing(pageSize, blockSize, regionSize));
    }

    lemma {:induction false} TrailingCounted(r: nat, regionSize: nat, n: nat) returns (row': seq<nat>)
      requires Valid() && pageMap.data != null && r < numberOfRegions
      requires TrailingFits(PageSize(), blockSize, regionSize) && n == NumTrailing(PageSize(), blockSize, regionSize)
      requires EndsWithRegion(PageSize(), blockSize, regionSize, releasePageOffset, pagesCount)
      requires Trailing(PageSize(), blockSize, regionSize) !! marked[r]
      ensures r < |pageMap.counters| == pageMap.regions
      ensures |pageMap.counters[r]| == pageMap.numCounters
      ensures var row := pageMap.counters[r];
        var i := TrailingBase(blockSize, regionSize) / PageSize() - releasePageOffset;
        && |row'| == pagesCount
        && (n == 0 ==> row' == row)
        && (n > 0 ==> 0 <= i < |row| && row[i] + n <= pageMap.counterMask && row' == BumpRow(row, i, n))
      ensures RowOk(row', pageMap.counterMask, PageSize(), blockSize, releasePageOffset,
                    marked[r] + Trailing(PageSize(), blockSize, regionSize))
    {
      hide RowsOk, RowOk, ExpectedCount, BumpRow, Trailing, TrailingBase, NumTrailing, TrailingFits, EndsWithRegion;
      RowAt(r);
      var row := pageMap.counters[r];
      assert row != [] && PageSize() > 0 && blockSize > 0;
      hide Shape, Counted, PageSize;
      TrailingMarksRow(PageSize(), blockSize, releasePageOffset, row, pageMap.counterMask, regionSize, marked[r]);
      row' := if n == 0 then row
              else BumpRow(row, TrailingBase(blockSize, regionSize) / PageSize() - releasePageOffset, n);
    }

    static lemma {:induction false} TrailingArithmetic(p: nat, b: nat, regionSize: nat)
      requires 0 < b <= regionSize && p > 0 && TrailingFits(p, b, regionSize)
      ensures (regionSize / b - 1) * b + b == TrailingBase(b, regionSize) >= b
      ensures TrailingBase(b, regionSize) <= CeilDiv(regionSize, p) * p
      ensures CeilDiv(CeilDiv(CeilDiv(regionSize, p) * p - TrailingBase(b, regionSize), b) * b, b)
           == NumTrailing(p, b, regionSize)
    {
      Distribute(regionSize / b, 0, b);
      TrailingFacts(p, b, regionSize);
      CeilDivTwice(CeilDiv(regionSize, p) * p - TrailingBase(b, regionSize), b);
      DivLess(regionSize, b, 1);
      MulMono(1, regionSize / b, b);
    }

    static lemma {:induction false} CeilDivTwice(x: nat, b: nat)
      requires b > 0
      ensures CeilDiv(CeilDiv(x, b) * b, b) == CeilDiv(x, b)
    {
      DivUnique(CeilDiv(x, b) * b + b - 1, b, CeilDiv(x, b));
    }

    /** Counts every block of a free list; with `mayContainLastBlockInRegion`, also
        the blocks that pretend to follow the region's last one. */
    method MarkFreeBlocksInRegion(freeList: seq<seq<nat>>, decompact: nat -> nat, base: nat, regionIndex: nat,
                                  regionSize: nat, mayContainLastBlockInRegion: bool, mapped: bool)
      returns (ok: bool)
      requires Valid() && regionIndex < numberOfRegions
      requires Markable(Flatten(freeList), decompact, base, PageSize(), blockSize, releasePageOffset, pagesCount, regionSize)
      requires Elements(TileSeq(Flatten(freeList), decompact, base, blockSize)) !! marked[regionIndex]
      requires mayContainLastBlockInRegion ==>
        && blockSize <= regionSize && TrailingFits(PageSize(), blockSize, regionSize)
        && EndsWithRegion(PageSize(), blockSize, regionSize, releasePageOffset, pagesCount)
        && Trailing(PageSize(), blockSize, regionSize) !! marked[regionIndex]
      modifies this`marked, pageMap, pageMap.data
      ensures Valid()
      ensures old(pageMap.data) != null ==> ok && pageMap.data == old(pageMap.data)
      ensures old(pageMap.data) == null ==> ok == mapped
      ensures pageMap.data == old(pageMap.data) || fresh(pageMap.data)
      ensures ok == (pageMap.data != null)
      ensures !ok ==> marked == old(marked)
      ensures ok ==> marked == MarkMore(old(marked), regionIndex,
                (if mayContainLastBlockInRegion then Trailing(PageSize(), blockSize, regionSize) else {})
                + Elements(TileSeq(Flatten(freeList), decompact, base, blockSize)))
    {
      hide RowsOk, ExpectedCount, Markable, TileSeq, Elements, Trailing, MarkMore, Flatten;
      ok := EnsurePageMapAllocated(mapped);
      if !ok {
        return;
      }
      ghost var tiles := Elements(TileSeq(Flatten(freeList), decompact, base, blockSize));
      ghost var trailing := Trailing(PageSize(), blockSize, regionSize);
      if mayContainLastBlockInRegion {
        MarkableBeforeTrailing(Flatten(freeList), decompact, base, PageSize(), blockSize, releasePageOffset, pagesCount, regionSize);
        MarkTrailingBlocks(regionIndex, regionSize);
        MarkMoreTwice(old(marked), regionIndex, trailing, tiles);
      } else {
        assert {} + tiles == tiles;
      }
      MarkBatches(freeList, decompact, base, regionIndex, regionSize);
    }

    method MarkBatches(freeList: seq<seq<nat>>, decompact: nat -> nat, base: nat, regionIndex: nat, regionSize: nat)
      requires Valid() && pageMap.data != null && regionIndex < numberOfRegions
      requires Markable(Flatten(freeList), decompact, base, PageSize(), blockSize, releasePageOffset, pagesCount, regionSize)
      requires Elements(TileSeq(Flatten(freeList), decompact, base, blockSize)) !! marked[regionIndex]
      modifies this`marked, pageMap.data, pageMap`counters
      ensures Valid()
      ensures marked == MarkMore(old(marked), regionIndex, Elements(TileSeq(Flatten(freeList), decompact, base, blockSize)))
    {
      hide RowsOk, ExpectedCount, Markable, TileSeq, Elements, MarkMore, Flatten;
      ghost var p, off, n := PageSize(), releasePageOffset, pagesCount;
      ghost var start := marked;
      ghost var done := [];
      FlattenNone(freeList);
      ElementsOfNone(decompact, base, blockSize);
      MarkMoreTwice(start, regionIndex, {}, {});
      for j := 0 to |freeList|
        invariant Valid()
        invariant done == Flatten(freeList[..j])
        invariant marked == MarkMore(start, regionIndex, Elements(TileSeq(done, decompact, base, blockSize)))
      {
        FlattenSplit(freeList, j);
        MarkablePiece(done, freeList[j], Flatten(freeList[j + 1..]), decompact, base, p, blockSize, off, n, regionSize);
        MarkBatch(freeList[j], decompact, base, regionIndex, regionSize);
        ElementsOfConcat(done, freeList[j], decompact, base, blockSize);
        MarkMoreTwice(start, regionIndex, Elements(TileSeq(done, decompact, base, blockSize)),
                      Elements(TileSeq(freeList[j], decompact, base, blockSize)));
        done := done + freeList[j];
      }
      assert freeList[..|freeList|] == freeList;
    }

    method MarkBatch(batch: seq<nat>, decompact: nat -> nat, base: nat, regionIndex: nat, regionSize: nat)
      requires Valid() && pageMap.data != null && regionIndex < numberOfRegions
      requires Markable(batch, decompact, base, PageSize(), blockSize, releasePageOffset, pagesCount, regionSize)
      requires Elements(TileSeq(batch, decompact, base, blockSize)) !! marked[regionIndex]
      modifies this`marked, pageMap.data, pageMap`counters
      ensures Valid()
      ensures marked == MarkMore(old(marked), regionIndex, Elements(TileSeq(batch, decompact, base, blockSize)))
    {
      hide RowsOk, ExpectedCount, Markable, TileSeq, Elements, BlockInMap, TileAt, MarkMore;
      ghost var start := marked;
      ElementsOfNone(decompact, base, blockSize);
      MarkMoreTwice(start, regionIndex, {}, {});
      for i := 0 to |batch|
        invariant Valid()
        invariant marked == MarkMore(start, regionIndex, Elements(TileSeq(batch[..i], decompact, base, blockSize)))
      {
        MarkableAt(batch, i, decompact, base, PageSize(), blockSize, releasePageOffset, pagesCount, regionSize);
        var pInRegion := decompact(batch[i]) - base;
        MarkBlock(regionIndex, pInRegion, regionSize);
        assert batch[..i + 1] == batch[..i] + [batch[i]];
        ElementsOfConcat(batch[..i], [batch[i]], decompact, base, blockSize);
        MarkMoreTwice(start, regionIndex, Elements(TileSeq(batch[..i], decompact, base, blockSize)),
                      Elements(TileSeq([batch[i]], decompact, base, blockSize)));
      }
      assert batch[..|batch|] == batch;
    }
  }

  lemma ElementsOfNone(decompact: nat -> nat, base: nat, b: nat)
    requires b > 0
    ensures Elements(TileSeq([], decompact, base, b)) == {}
  {
  }

  lemma {:induction false} ElementsOfConcat(x: seq<nat>, y: seq<nat>, decompact: nat -> nat, base: nat, b: nat)
    requires b > 0
    ensures Elements(TileSeq(x + y, decompact, base, b))
         == Elements(TileSeq(x, decompact, base, b)) + Elements(TileSeq(y, decompact, base, b))
    ensures |y| == 1 ==> Elements(TileSeq(y, decompact, base, b)) == {TileAt(decompact(y[0]) - base, b)}
  {
    TileSeqConcat(x, y, decompact, base, b);
    if |y| == 1 {
      assert TileSeq(y, decompact, base, b) == [TileAt(decompact(y[0]) - base, b)];
    }
  }

  lemma {:induction false} MarkableAt(batch: seq<nat>, i: nat, decompact: nat -> nat, base: nat,
                     p: nat, b: nat, off: nat, n: nat, regionSize: nat)
    requires b > 0 && i < |batch| && Markable(batch, decompact, base, p, b, off, n, regionSize)
    ensures base <= decompact(batch[i])
    ensures BlockInMap(decompact(batch[i]) - base, p, b, off, n, regionSize)
    ensures TileAt(decompact(batch[i]) - base, b) in Elements(TileSeq(batch, decompact, base, b))
    ensures TileAt(decompact(batch[i]) - base, b) !in Elements(TileSeq(batch[..i], decompact, base, b))
  {
    var t := TileSeq(batch, decompact, base, b);
    assert t[i] == TileAt(decompact(batch[i]) - base, b);
    assert TileSeq(batch[..i], decompact, base, b) == t[..i];
  }
}
