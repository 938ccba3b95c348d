/** The page arithmetic of marking single blocks, and the "pretend" blocks that
    fill the last page of a region. All offsets are relative to the region. */
module BlockMarking {
  import opened Common
  import opened Tiles
  import opened PageCounts
  import opened PageMap

  // ---- One block --------------------------------------------------------

  /** Incrementing the pages from a block's first to its last byte marks exactly
      that block's tile. */
  lemma {:induction false} BlockMarksRow(p: nat, b: nat, off: nat, row: seq<nat>, mask: nat, k: nat, marked: set<nat>)
    requires p > 0 && b > 0 && off <= k * b / p
    requires ExpectedCount(p, b).max <= mask
    requires RowOk(row, mask, p, b, off, marked) && k !in marked
    ensures off <= k * b / p <= (k * b + b - 1) / p
    ensures forall i :: 0 <= i < |row| && k * b / p - off <= i <= (k * b + b - 1) / p - off ==> row[i] < mask
    ensures RowOk(RowInc(row, k * b / p - off, (k * b + b - 1) / p - off + 1), mask, p, b, off, marked + {k})
  {
    hide PageMarked, TilesOn, ExpectedCount, PageOk;
    var first, last := k * b / p, (k * b + b - 1) / p;
    DivMono(k * b, k * b + b - 1, p);
    var row' := RowInc(row, first - off, last - off + 1);
    forall i | 0 <= i < |row|
      ensures first - off <= i <= last - off ==> row[i] < mask
      ensures PageMarked(row[i], row'[i], mask, TilesOn(p, b, off + i), {k})
    {
      BlockMarksPage(p, b, off + i, row[i], mask, k, marked);
    }
    hide *;
    RowMarked(row, row', mask, p, b, off, marked, {k});
  }

  lemma {:induction false} BlockMarksPage(p: nat, b: nat, j: nat, c: nat, mask: nat, k: nat, marked: set<nat>)
    requires p > 0 && b > 0 && ExpectedCount(p, b).max <= mask
    requires PageOk(c, mask, TilesOn(p, b, j), marked) && k !in marked
    ensures var on := k * b / p <= j <= (k * b + b - 1) / p;
      && (on ==> c < mask)
      && PageMarked(c, if on then c + 1 else c, mask, TilesOn(p, b, j), {k})
  {
    PagesOfTile(p, b, k, j);
    var t := TilesOn(p, b, j);
    assert t * {k} == if k in t then {k} else {};
    TilesFit(p, b, j, mask);
    CountMore(c, mask, t, marked, {k});
  }

  /** When blocks divide pages evenly, a block lies on a single page. */
  lemma {:induction false} BlockOnOnePage(p: nat, b: nat, k: nat)
    requires 0 < b <= p && p % b == 0
    ensures k * b / p == (k * b + b - 1) / p
  {
    var m, f := p / b, k * b / p;
    assert p == m * b;
    DivBounds(k * b, p);
    assert (f + 1) * p == (f + 1) * m * b;
    NextMultiple(k, (f + 1) * m, b);
    DivUnique(k * b + b - 1, p, f);
  }

  lemma {:induction false} BlockAtOnOnePage(p: nat, b: nat, q: nat)
    requires 0 < b <= p && p % b == 0 && q % b == 0
    ensures q / p == (q + b - 1) / p
  {
    BlockOnOnePage(p, b, q / b);
    assert q == q / b * b;
  }

  lemma {:induction false} NextMultiple(x: int, y: int, b: int)
    requires b > 0 && x * b < y * b
    ensures x * b + b <= y * b
  {
    if x >= y {
      MulMono(y, x, b);
    } else {
      MulMono(x + 1, y, b);
    }
  }

  // ---- The pretend blocks after the last one ----------------------------

  function RoundedSize(p: nat, regionSize: nat): nat
    requires p > 0
  {
    CeilDiv(regionSize, p) * p
  }

  function TrailingBase(b: nat, regionSize: nat): nat
    requires b > 0
  {
    regionSize / b * b
  }

  /** The tiles after the region's last whole block, up to the end of its last page. */
  function Trailing(p: nat, b: nat, regionSize: nat): set<nat>
    requires p > 0 && b > 0
  {
    Interval(regionSize / b, CeilDiv(RoundedSize(p, regionSize), b))
  }

  ghost predicate TrailingFits(p: nat, b: nat, regionSize: nat)
    requires p > 0 && b > 0
  {
    0 < regionSize && RoundedSize(p, regionSize) - TrailingBase(b, regionSize) < p
  }

  lemma {:induction false} TrailingFacts(p: nat, b: nat, regionSize: nat)
    requires p > 0 && b > 0 && TrailingFits(p, b, regionSize)
    ensures TrailingBase(b, regionSize) <= RoundedSize(p, regionSize)
    ensures RoundedSize(p, regionSize) > TrailingBase(b, regionSize) ==>
      TrailingBase(b, regionSize) / p == CeilDiv(regionSize, p) - 1
  {
    var n, base := CeilDiv(regionSize, p), TrailingBase(b, regionSize);
    CeilDivLeast(regionSize, p, 0);
    DivBounds(regionSize, b);
    Distribute(n, 0, p);
    if n * p > base {
      DivUnique(base, p, n - 1);
    }
  }

  lemma {:induction false} TrailingMarksPage(p: nat, b: nat, regionSize: nat, j: nat)
    requires p > 0 && b > 0 && TrailingFits(p, b, regionSize) && j < CeilDiv(regionSize, p)
    ensures |TilesOn(p, b, j) * Trailing(p, b, regionSize)| ==
      if j == CeilDiv(regionSize, p) - 1
      then CeilDiv(RoundedSize(p, regionSize) - TrailingBase(b, regionSize), b) else 0
  {
    var n, r := CeilDiv(regionSize, p), regionSize / b;
    var base := r * b;
    TrailingFacts(p, b, regionSize);
    Distribute(n, 0, p);
    CeilDivShift(n * p, b, r);
    LastPageTiles(p, b, n, r, j);
    hide *;
    TrailingMeet(FirstTile(p, b, j), EndTile(p, b, j), r, CeilDiv(n * p, b), j == n - 1);
  }

  lemma {:induction false} LastPageTiles(p: nat, b: nat, n: nat, r: nat, j: nat)
    requires p > 0 && b > 0 && j < n && n * p - p < r * b <= n * p
    ensures j == n - 1 ==> FirstTile(p, b, j) <= r && EndTile(p, b, j) == CeilDiv(n * p, b)
    ensures j < n - 1 ==> EndTile(p, b, j) <= r
  {
    Distribute(n, 0, p);
    if j == n - 1 {
      DivLess(j * p, b, r);
    } else {
      MulMono(j + 1, n - 1, p);
      CeilDivLeast((j + 1) * p, b, r);
    }
  }

  lemma {:induction false} TrailingMeet(first: nat, end: nat, r: nat, hi: nat, last: bool)
    requires last ==> first <= r && end == hi
    requires !last ==> end <= r
    ensures |Interval(first, end) * Interval(r, hi)| == if last && r <= hi then hi - r else 0
  {
    if last {
      assert Interval(first, end) * Interval(r, hi) == Interval(r, hi);
    } else {
      assert Interval(first, end) * Interval(r, hi) == {};
    }
  }

  function NumTrailing(p: nat, b: nat, regionSize: nat): nat
    requires p > 0 && b > 0
  {
    CeilDiv(Max(RoundedSize(p, regionSize) - TrailingBase(b, regionSize), 0), b)
  }

  /** If there are trailing blocks, the map ends with the region's last page. */
  ghost predicate EndsWithRegion(p: nat, b: nat, regionSize: nat, off: nat, n: nat)
    requires p > 0 && b > 0
  {
    NumTrailing(p, b, regionSize) > 0 ==> off + n == CeilDiv(regionSize, p)
  }

  /** Counting the trailing blocks on the last page marks exactly those tiles. */
  lemma {:induction false} TrailingMarksRow(p: nat, b: nat, off: nat, row: seq<nat>, mask: nat, regionSize: nat, marked: set<nat>)
    requires p > 0 && b > 0 && TrailingFits(p, b, regionSize) && row != []
    requires EndsWithRegion(p, b, regionSize, off, |row|)
    requires ExpectedCount(p, b).max <= mask
    requires RowOk(row, mask, p, b, off, marked) && marked !! Trailing(p, b, regionSize)
    ensures var n := NumTrailing(p, b, regionSize);
      var last := TrailingBase(b, regionSize) / p;
      if n == 0 then RowOk(row, mask, p, b, off, marked + Trailing(p, b, regionSize))
      else
        && off <= last < off + |row| && row[last - off] + n <= mask
        && RowOk(BumpRow(row, last - off, n), mask, p, b, off, marked + Trailing(p, b, regionSize))
  {
    TrailingFacts(p, b, regionSize);
    CeilDivLeast(Max(RoundedSize(p, regionSize) - TrailingBase(b, regionSize), 0), b, 0);
    var n := NumTrailing(p, b, regionSize);
    if n == 0 {
      NoTrailing(p, b, regionSize);
      assert marked + Trailing(p, b, regionSize) == marked;
    } else {
      TrailingBumpsRow(p, b, off, row, mask, regionSize, marked);
    }
  }

  lemma {:induction false} NoTrailing(p: nat, b: nat, regionSize: nat)
    requires p > 0 && b > 0 && TrailingFits(p, b, regionSize)
    requires RoundedSize(p, regionSize) == TrailingBase(b, regionSize)
    ensures Trailing(p, b, regionSize) == {}
  {
    CeilDivLeast(RoundedSize(p, regionSize), b, regionSize / b);
  }

  lemma {:induction false} TrailingBumpsRow(p: nat, b: nat, off: nat, row: seq<nat>, mask: nat, regionSize: nat, marked: set<nat>)
    requires p > 0 && b > 0 && TrailingFits(p, b, regionSize) && row != []
    requires NumTrailing(p, b, regionSize) > 0 && EndsWithRegion(p, b, regionSize, off, |row|)
    requires TrailingBase(b, regionSize) / p == CeilDiv(regionSize, p) - 1
    requires ExpectedCount(p, b).max <= mask
    requires RowOk(row, mask, p, b, off, marked) && marked !! Trailing(p, b, regionSize)
    ensures var last := TrailingBase(b, regionSize) / p;
      var n := NumTrailing(p, b, regionSize);
      && off <= last < off + |row| && row[last - off] + n <= mask
      && RowOk(BumpRow(row, last - off, n), mask, p, b, off, marked + Trailing(p, b, regionSize))
  {
    hide TilesOn, PageMarked, PageOk, ExpectedCount, Trailing, NumTrailing, TrailingBase, TrailingFits;
    var last := TrailingBase(b, regionSize) / p;
    var n := NumTrailing(p, b, regionSize);
    var more := Trailing(p, b, regionSize);
    forall i | 0 <= i < |row|
      ensures i == last - off ==> row[i] + n <= mask
      ensures PageMarked(row[i], if i == last - off then row[i] + n else row[i], mask, TilesOn(p, b, off + i), more)
    {
      TrailingOnPage(p, b, regionSize, off + i, row[i], mask, marked);
    }
    BumpMarksRow(p, b, off, row, mask, last - off, n, marked, more);
  }

  lemma {:induction false} BumpMarksRow(p: nat, b: nat, off: nat, row: seq<nat>, mask: nat, at: nat, n: nat,
                                        marked: set<nat>, more: set<nat>)
    requires p > 0 && b > 0 && at < |row| && marked !! more
    requires ExpectedCount(p, b).max <= mask
    requires RowOk(row, mask, p, b, off, marked)
    requires forall i :: 0 <= i < |row| ==>
      PageMarked(row[i], if i == at then row[i] + n else row[i], mask, TilesOn(p, b, off + i), more)
    ensures RowOk(BumpRow(row, at, n), mask, p, b, off, marked + more)
  {
    hide TilesOn, PageMarked, PageOk, RowOk, ExpectedCount;
    RowMarked(row, BumpRow(row, at, n), mask, p, b, off, marked, more);
  }

  lemma {:induction false} TrailingOnPage(p: nat, b: nat, regionSize: nat, j: nat, c: nat, mask: nat, marked: set<nat>)
    requires p > 0 && b > 0 && TrailingFits(p, b, regionSize) && j < CeilDiv(regionSize, p)
    requires NumTrailing(p, b, regionSize) > 0
    requires PageOk(c, mask, TilesOn(p, b, j), marked) && marked !! Trailing(p, b, regionSize)
    requires ExpectedCount(p, b).max <= mask
    ensures var n := if j == CeilDiv(regionSize, p) - 1 then NumTrailing(p, b, regionSize) else 0;
      (n > 0 ==> c + n <= mask) && PageMarked(c, c + n, mask, TilesOn(p, b, j), Trailing(p, b, regionSize))
  {
    TrailingFacts(p, b, regionSize);
    TrailingMarksPage(p, b, regionSize, j);
    TilesFit(p, b, j, mask);
    CountMore(c, mask, TilesOn(p, b, j), marked, Trailing(p, b, regionSize));
  }
}
