/** The page arithmetic of marking a whole byte range at once, and why it agrees
    with marking block by block. */
module RangeMarking {
  import opened Common
  import opened Tiles
  import opened PageCounts

  /** A range `[from, to)` of a region, page aligned except that it may end where
      the region does. All offsets are relative to the region. */
  datatype Span = Span(p: nat, b: nat, from: nat, to: nat, regionSize: nat)
  {
    ghost predicate Valid() {
      && p > 0 && b > 0
      && from < to <= regionSize
      && from % p == 0
      && (HasBlock() && !EndsRegion() ==> to % p == 0)
    }

    function First(): nat
      requires b > 0
    {
      CeilDiv(from, b)
    }

    function FirstBlock(): nat
      requires b > 0
    {
      First() * b
    }

    /** Some block starts inside the range. */
    predicate HasBlock()
      requires b > 0
    {
      FirstBlock() < to
    }

    function Last(): nat
      requires b > 0 && to > 0
    {
      (to - 1) / b
    }

    function LastBlockEnd(): nat
      requires b > 0 && to > 0
    {
      Last() * b + b
    }

    /** The last block that starts in the range is the region's last block. */
    predicate EndsRegion()
      requires b > 0 && to > 0
    {
      LastBlockEnd() == regionSize
    }

    /** Where the marked tiles stop: at `to`, or, past the region's last block, at
        the end of the last page, which then holds only "pretend" blocks. */
    function End(): nat
      requires p > 0 && b > 0 && to > 0
    {
      if EndsRegion() then CeilDiv(regionSize, p) * p else to
    }

    /** The tiles that marking the range stands for. */
    function Marked(): set<nat>
      requires p > 0 && b > 0 && to > 0
    {
      if HasBlock() then Interval(First(), CeilDiv(End(), b)) else {}
    }

    function FirstPage(): nat
      requires p > 0 && b > 0
    {
      FirstBlock() / p
    }

    /** The first page is only partly covered: a block straddles its start. */
    predicate Partial()
      requires p > 0 && b > 0
    {
      FirstBlock() != FirstPage() * p
    }

    function BlocksInFirstPage(): nat
      requires p > 0 && b > 0
    {
      CeilDiv(Max((FirstPage() + 1) * p - FirstBlock(), 0), b)
    }

    function FillFrom(): nat
      requires p > 0 && b > 0
    {
      if Partial() then FirstPage() + 1 else FirstPage()
    }

    function FillTo(): nat
      requires p > 0 && b > 0 && to > 0
    {
      CeilDiv(if EndsRegion() then regionSize else to, p)
    }

    /** Pages after the range that its straddling last block reaches. */
    predicate Spills(j: nat)
      requires p > 0 && b > 0 && to > 0
    {
      !EndsRegion() && FillTo() <= j <= (LastBlockEnd() - 1) / p
    }

    lemma {:induction false} FirstPageHoldsFirstBlock()
      requires Valid()
      ensures FirstPage() * p <= FirstBlock() < FirstPage() * p + p
    {
      DivBounds(FirstBlock(), p);
      Distribute(FirstPage(), 0, p);
    }

    lemma {:induction false} LastBlockFacts()
      requires Valid() && HasBlock()
      ensures First() <= Last() && Last() * b < to <= LastBlockEnd() == (Last() + 1) * b
      ensures CeilDiv(to, b) == Last() + 1
    {
      DivBounds(to - 1, b);
      Distribute(Last(), 0, b);
      DivLess(to - 1, b, First());
      CeilDivLeast(to, b, Last());
      CeilDivLeast(to, b, Last() + 1);
    }

    lemma {:induction false} EndIsPageEnd()
      requires Valid() && HasBlock()
      ensures FillTo() * p == End()
      ensures to <= End()
    {
      if EndsRegion() {
        CeilDivLeast(regionSize, p, 0);
      } else {
        CeilDivExact(to, p);
      }
    }

    lemma {:induction false} Facts()
      requires Valid() && HasBlock()
      ensures FirstPage() * p <= FirstBlock() < FirstPage() * p + p == (FirstPage() + 1) * p <= End()
      ensures FirstPage() < FillTo()
    {
      FirstPageHoldsFirstBlock();
      EndIsPageEnd();
      DivLess(FirstBlock(), p, FillTo());
      Distribute(FirstPage(), 0, p);
      MulMono(FirstPage() + 1, FillTo(), p);
    }

    /** Where the fill stops, as the code computes it. */
    function FillEnd(): nat
      requires b > 0 && to > 0
    {
      if EndsRegion() then regionSize else to
    }

    lemma {:induction false} FillIndices()
      requires Valid() && HasBlock()
      ensures FillFrom() * p / p == FillFrom()
      ensures (FillEnd() - 1) / p + 1 == FillTo()
      ensures FillFrom() * p < FillEnd() <==> FillFrom() < FillTo()
    {
      DivUnique(FillFrom() * p, p, FillFrom());
      DivAddMul(FillEnd() - 1, 1, p);
      CeilDivLeast(FillEnd(), p, FillFrom());
    }

    lemma {:induction false} FirstPageIndices()
      requires Valid() && HasBlock()
      ensures FirstPage() * p / p == FirstPage()
      ensures CeilDiv(FirstPage() * p + 1, p) == FirstPage() + 1
      ensures FirstPage() * p <= FirstBlock() < FirstPage() * p + p == (FirstPage() + 1) * p
    {
      Facts();
      DivUnique(FirstPage() * p, p, FirstPage());
      DivAddMul(p, FirstPage(), p);
      DivUnique(p, p, 1);
    }

    lemma {:induction false} SpillIndices()
      requires Valid() && HasBlock() && !EndsRegion()
      ensures to / p == FillTo()
      ensures LastBlockEnd() != to ==> FillTo() <= (LastBlockEnd() - 1) / p
      ensures LastBlockEnd() == to ==> forall j :: !Spills(j)
    {
      EndIsPageEnd();
      LastBlockFacts();
      hide CeilDiv, FillTo, LastBlockEnd;
      SpillsPast(to, LastBlockEnd(), FillTo(), p);
    }

    static lemma {:induction false} SpillsPast(to: nat, end: nat, page: nat, p: nat)
      requires p > 0 && 0 < to <= end && to == page * p
      ensures to / p == page
      ensures end != to ==> page <= (end - 1) / p
      ensures end == to ==> (end - 1) / p < page
    {
      DivUnique(to, p, page);
      if end == to {
        DivLess(to - 1, p, page);
      } else {
        DivMono(to, end - 1, p);
      }
    }

    lemma {:induction false} FirstPageDoesNotSpill()
      requires Valid() && HasBlock()
      ensures !Spills(FirstPage())
    {
      Facts();
    }

    lemma {:induction false} BeforeFirstPage(j: nat)
      requires Valid() && HasBlock() && j < FirstPage()
      ensures TilesOn(p, b, j) * Marked() == {}
    {
      FirstPageHoldsFirstBlock();
      MulMono(j + 1, FirstPage(), p);
      CeilDivLeast((j + 1) * p, b, First());
    }

    lemma {:induction false} OnPartialPage()
      requires Valid() && HasBlock() && Partial()
      ensures |TilesOn(p, b, FirstPage()) * Marked()| == BlocksInFirstPage() > 0
    {
      Facts();
      PartialPageBounds();
      hide *;
      IntervalMeetSize(FirstTile(p, b, FirstPage()), EndTile(p, b, FirstPage()), First(), CeilDiv(End(), b));
    }

    lemma {:induction false} PartialPageBounds()
      requires Valid() && HasBlock()
      requires FirstPage() * p <= FirstBlock() < (FirstPage() + 1) * p <= End()
      ensures var j := FirstPage();
        && TilesOn(p, b, j) == Interval(FirstTile(p, b, j), EndTile(p, b, j))
        && Marked() == Interval(First(), CeilDiv(End(), b))
        && FirstTile(p, b, j) <= First() < EndTile(p, b, j) <= CeilDiv(End(), b)
        && BlocksInFirstPage() == EndTile(p, b, j) - First()
    {
      hide FirstPage, First, End, CeilDiv;
      var j, f := FirstPage(), First();
      PartialPageTiles(p, b, j, f);
      CeilDivMono((j + 1) * p, End(), b);
    }

    static lemma CeilDivMono(x: nat, y: nat, b: nat)
      requires b > 0 && x <= y
      ensures CeilDiv(x, b) <= CeilDiv(y, b)
    {
      DivMono(x + b - 1, y + b - 1, b);
    }

    static lemma {:induction false} IntervalMeetSize(lo: nat, e: nat, f: nat, hi: nat)
      requires lo <= f <= e <= hi
      ensures |Interval(lo, e) * Interval(f, hi)| == e - f
    {
      IntervalMeet(lo, e, f, hi);
    }

    static lemma {:induction false} PartialPageTiles(p: nat, b: nat, j: nat, f: nat)
      requires p > 0 && b > 0
      requires j * p <= f * b < (j + 1) * p
      ensures j * p / b <= f < CeilDiv((j + 1) * p, b)
      ensures CeilDiv((j + 1) * p - f * b, b) == CeilDiv((j + 1) * p, b) - f
    {
      DivLess(j * p, b, f + 1);
      Distribute(f, 0, b);
      CeilDivLeast((j + 1) * p, b, f);
      CeilDivShift((j + 1) * p, b, f);
    }

    lemma {:induction false} OnFilledPage(j: nat)
      requires Valid() && HasBlock() && FillFrom() <= j < FillTo()
      ensures TilesOn(p, b, j) <= Marked()
    {
      Facts();
      EndIsPageEnd();
      MulMono(FillFrom(), j, p);
      DivLess(j * p, b, First());
      MulMono(j + 1, FillTo(), p);
      DivMono((j + 1) * p + b - 1, End() + b - 1, b);
    }

    lemma {:induction false} SpillsIff(j: nat)
      requires Valid() && HasBlock() && !EndsRegion() && FillTo() <= j
      ensures to <= j * p
      ensures Spills(j) <==> j * p < (Last() + 1) * b
    {
      EndIsPageEnd();
      LastBlockFacts();
      MulMono(FillTo(), j, p);
      DivLess(LastBlockEnd() - 1, p, j);
    }

    lemma {:induction false} AfterRangeBounds(j: nat)
      requires Valid() && HasBlock() && !EndsRegion() && FillTo() <= j
      ensures Marked() == Interval(First(), Last() + 1)
      ensures TilesOn(p, b, j) == Interval(FirstTile(p, b, j), EndTile(p, b, j))
      ensures First() <= Last() <= FirstTile(p, b, j) && Last() < EndTile(p, b, j)
      ensures Spills(j) <==> FirstTile(p, b, j) <= Last()
    {
      LastBlockFacts();
      SpillsIff(j);
      OnlyLastTile(p, b, j, Last(), to);
    }

    lemma {:induction false} AfterRange(j: nat)
      requires Valid() && HasBlock() && !EndsRegion() && FillTo() <= j
      ensures TilesOn(p, b, j) * Marked() == if Spills(j) then {Last()} else {}
    {
      AfterRangeBounds(j);
      hide *;
      IntervalMeetTop(FirstTile(p, b, j), EndTile(p, b, j), First(), Last());
    }

    static lemma {:induction false} IntervalMeetTop(lo: nat, e: nat, first: nat, last: nat)
      requires first <= last <= lo && last < e
      ensures Interval(lo, e) * Interval(first, last + 1) == if lo <= last then {last} else {}
    {
    }

    /** From `to` on, the only tile that started before `to` is the last one. */
    static lemma {:induction false} OnlyLastTile(p: nat, b: nat, j: nat, last: nat, to: nat)
      requires p > 0 && b > 0
      requires last * b < to <= j * p
      ensures FirstTile(p, b, j) >= last
      ensures j * p < (last + 1) * b <==> FirstTile(p, b, j) <= last
      ensures last < EndTile(p, b, j)
    {
      DivLess(j * p, b, last);
      DivLess(j * p, b, last + 1);
      MulMono(j, j + 1, p);
      CeilDivLeast((j + 1) * p, b, last);
    }
  }

  /** What range marking does to the counter `c` of page `j`. */
  function NewCount(s: Span, j: nat, c: nat, mask: nat): nat
    requires s.p > 0 && s.b > 0 && s.to > 0
  {
    if !s.HasBlock() then c
    else if s.Partial() && j == s.FirstPage() then c + s.BlocksInFirstPage()
    else if s.FillFrom() <= j < s.FillTo() then mask
    else if s.Spills(j) then c + 1
    else c
  }

  /** Range marking is a faithful marking of the tiles of the range on every page
      of the region. */
  lemma {:induction false} RangeMarksPage(s: Span, j: nat, c: nat, mask: nat)
    requires s.Valid()
    requires s.HasBlock() && s.EndsRegion() ==> j < s.FillTo()
    ensures PageMarked(c, NewCount(s, j, c, mask), mask, TilesOn(s.p, s.b, j), s.Marked())
  {
    var t := TilesOn(s.p, s.b, j);
    if !s.HasBlock() {
      assert t * s.Marked() == {};
    } else if j < s.FirstPage() {
      s.Facts();
      s.BeforeFirstPage(j);
    } else if s.Partial() && j == s.FirstPage() {
      s.OnPartialPage();
    } else if j < s.FillTo() {
      s.OnFilledPage(j);
    } else {
      s.Facts();
      s.AfterRange(j);
    }
  }

  /** The counters that range marking increments have room. */
  lemma {:induction false} RangeHasRoom(s: Span, j: nat, c: nat, mask: nat, marked: set<nat>)
    requires s.Valid() && s.HasBlock()
    requires PageOk(c, mask, TilesOn(s.p, s.b, j), marked) && marked !! s.Marked()
    requires ExpectedCount(s.p, s.b).max <= mask
    ensures s.Partial() && j == s.FirstPage() ==> c + s.BlocksInFirstPage() <= mask
    ensures s.Spills(j) ==> c < mask
  {
    TilesFit(s.p, s.b, j, mask);
    CountMore(c, mask, TilesOn(s.p, s.b, j), marked, s.Marked());
    if s.Partial() && j == s.FirstPage() {
      s.OnPartialPage();
    } else if s.Spills(j) {
      s.AfterRange(j);
    }
  }

  /** The counters of one region after range marking; the first is for page `off`. */
  function NewRow(s: Span, off: nat, row: seq<nat>, mask: nat): (r: seq<nat>)
    requires s.p > 0 && s.b > 0 && s.to > 0
    ensures |r| == |row|
  {
    seq(|row|, i requires 0 <= i < |row| => NewCount(s, off + i, row[i], mask))
  }

  /** The map of `n` pages from page `off` covers the range, and ends with the
      region if the range does. */
  ghost predicate Covered(s: Span, off: nat, n: nat)
    requires s.p > 0 && s.b > 0 && s.to > 0
  {
    && off * s.p <= s.from && s.to <= (off + n) * s.p
    && (s.HasBlock() && s.EndsRegion() ==> off + n <= s.FillTo())
  }

  lemma {:induction false} RangeMarksRow(s: Span, off: nat, row: seq<nat>, mask: nat, marked: set<nat>)
    requires s.Valid() && Covered(s, off, |row|)
    requires ExpectedCount(s.p, s.b).max <= mask
    requires RowOk(row, mask, s.p, s.b, off, marked) && marked !! s.Marked()
    ensures RowOk(NewRow(s, off, row, mask), mask, s.p, s.b, off, marked + s.Marked())
  {
    hide NewCount, PageMarked, TilesOn, RowOk, ExpectedCount, s.Marked, s.HasBlock, s.EndsRegion, s.FillTo;
    var row' := NewRow(s, off, row, mask);
    forall j | 0 <= j < |row|
      ensures PageMarked(row[j], row'[j], mask, TilesOn(s.p, s.b, off + j), s.Marked())
    {
      RangeMarksPage(s, off + j, row[j], mask);
    }
    RowMarked(row, row', mask, s.p, s.b, off, marked, s.Marked());
  }

  /** The first page with a block start is in the map. */
  lemma {:induction false} FirstPageInMap(s: Span, off: nat, n: nat)
    requires s.Valid() && s.HasBlock() && Covered(s, off, n)
    ensures off <= s.FirstPage() < off + n
  {
    CeilDivLeast(s.from, s.b, 0);
    DivLess(s.FirstBlock(), s.p, off);
    DivLess(s.FirstBlock(), s.p, off + n);
  }

  lemma {:induction false} CeilDivExact(x: nat, p: nat)
    requires p > 0 && x % p == 0
    ensures CeilDiv(x, p) * p == x
  {
    assert x == x / p * p;
    DivUnique(x + p - 1, p, x / p);
  }

}
