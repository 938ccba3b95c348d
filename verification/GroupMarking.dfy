/** What markFreeBlocks of primary64.h marks for one group that was taken out of
    the free list: its free blocks, and sometimes the pretend blocks at the end of
    the region. */
module GroupMarking {
  import opened Common
  import opened Bits
  import opened Tiles
  import opened RangeMarking
  import opened BlockMarking
  import opened FreeList
  import opened PageRelease
  import opened PageReleaseTheorems
  import opened GroupGeometry

  /** The tiles of free blocks given as compact pointers. */
  function FreeTiles(a: Area, blocks: seq<nat>): (t: seq<nat>)
    requires a.Valid()
    ensures |t| == |blocks|
  {
    seq(|blocks|, i requires 0 <= i < |blocks| => a.Offset(blocks[i]) / a.blockSize)
  }

  /** A whole block that was cut from the region. */
  ghost predicate WholeBlock(a: Area, c: nat)
    requires a.Valid()
  {
    a.Offset(c) % a.blockSize == 0 && a.Offset(c) + a.blockSize <= a.Size()
  }

  /** A list of different blocks of the region. */
  ghost predicate Distinct(a: Area, blocks: seq<nat>)
    requires a.Valid()
  {
    && NoDuplicates(FreeTiles(a, blocks))
    && forall i :: 0 <= i < |blocks| ==> WholeBlock(a, blocks[i])
  }

  function Start(a: Area, g: Group): nat {
    a.Offset(g.base)
  }

  /** A group that holds free blocks of this region. */
  ghost predicate FreeGroup(a: Area, g: Group, cap: nat) {
    a.Valid() && GroupOk(g, cap, a.GroupScale()) && Distinct(a, BatchesBlocks(g.batches))
  }

  lemma {:induction false} FreeGroupStart(a: Area, g: Group, cap: nat)
    requires FreeGroup(a, g, cap)
    ensures BatchesBlocks(g.batches) != []
    ensures Start(a, g) < a.Size() && Start(a, g) % a.GroupSize() == 0
  {
    hide BatchesBlocks, GroupOf, a.Offset, FreeTiles;
    var blocks := BatchesBlocks(g.batches);
    FrontBlocks(g.batches, cap);
    a.PointerInGroup(blocks[0]);
    assert WholeBlock(a, blocks[0]);
  }

  lemma FrontBlocks(batches: seq<Batch>, cap: nat)
    requires BatchesOk(batches, cap)
    ensures BatchesBlocks(batches) != []
  {
  }

  /** The free blocks of a group start in the group. */
  lemma {:induction false} FreeTilesStart(a: Area, g: Group, cap: nat)
    requires FreeGroup(a, g, cap) && Start(a, g) < a.Size()
    ensures Elements(FreeTiles(a, BatchesBlocks(g.batches))) <= a.Starts(Start(a, g))
  {
    hide BatchesBlocks, GroupOf, a.Offset, a.Starts, a.Size, a.GroupSize, a.UsedEnd, Start;
    var blocks := BatchesBlocks(g.batches);
    forall i | 0 <= i < |blocks| ensures FreeTiles(a, blocks)[i] in a.Starts(Start(a, g)) {
      FreeTileStarts(a, g, cap, blocks[i]);
    }
  }

  lemma {:induction false} FreeTileStarts(a: Area, g: Group, cap: nat, c: nat)
    requires a.Valid() && WholeBlock(a, c) && GroupOf(c, a.GroupScale()) == g.base && Start(a, g) < a.Size()
    ensures a.Offset(c) / a.blockSize in a.Starts(Start(a, g))
    ensures a.Offset(c) / a.blockSize * a.blockSize == a.Offset(c) < a.Size()
  {
    hide GroupOf, a.Offset;
    a.PointerInGroup(c);
    a.StartsIff(Start(a, g), a.Offset(c) / a.blockSize);
    Area.ExactQuotient(a.Offset(c), a.blockSize);
  }

  /** Whether a group is entirely free, as markFreeBlocks judges by its count. */
  predicate LooksFull(a: Area, g: Group, cap: nat)
    requires a.Valid() && g.batches != [] && Start(a, g) < a.Size()
  {
    NumBlocks(g, cap) == a.MaxContainedBlocks(Start(a, g))
  }

  /** A group whose count is the expected one holds every block that starts in it. */
  lemma {:induction false} FullMeansFree(a: Area, g: Group, cap: nat)
    requires FreeGroup(a, g, cap) && Start(a, g) < a.Size()
    requires LooksFull(a, g, cap)
    ensures Elements(FreeTiles(a, BatchesBlocks(g.batches))) == a.Starts(Start(a, g))
  {
    hide BatchesBlocks, GroupOf, a.Offset, a.Starts, FreeTiles, WholeBlock;
    NumBlocksExact(g, cap);
    FreeTilesStart(a, g, cap);
    a.AllBlocksFree(Start(a, g), FreeTiles(a, BatchesBlocks(g.batches)));
  }

  function GroupSpan(a: Area, start: nat): Span
    requires start < a.Size()
  {
    Span(a.PageSize(), a.blockSize, start, a.UsedEnd(start), a.Size())
  }

  /** The part of the region after the last block of the region. */
  function Pretend(a: Area): set<nat>
    requires a.Valid()
  {
    Trailing(a.PageSize(), a.blockSize, a.Size())
  }

  /** Does marking this group also mark the pretend blocks? */
  predicate MarksPretend(a: Area, g: Group, cap: nat)
    requires a.Valid() && g.batches != [] && Start(a, g) < a.Size()
  {
    if LooksFull(a, g, cap) then GroupSpan(a, Start(a, g)).EndsRegion()
    else a.UsedEnd(Start(a, g)) == a.Size()
  }

  /** All tiles that marking this group marks. */
  function Marks(a: Area, g: Group, cap: nat): set<nat>
    requires a.Valid() && g.batches != [] && Start(a, g) < a.Size()
  {
    Elements(FreeTiles(a, BatchesBlocks(g.batches))) + if MarksPretend(a, g, cap) then Pretend(a) else {}
  }

  // ---- Range marking of a full group ------------------------------------

  lemma {:induction false} PageDividesGroup(a: Area, x: nat)
    requires a.Valid() && x % a.GroupSize() == 0
    ensures x % a.PageSize() == 0 && (x + a.GroupSize()) % a.PageSize() == 0
  {
    hide Pow2;
    Pow2Add(a.groupLog - a.pageLog, a.pageLog);
    MultipleOfMultiple(x, Pow2(a.groupLog - a.pageLog), a.PageSize());
  }

  lemma {:induction false} MultipleOfMultiple(x: nat, q: nat, p: nat)
    requires q > 0 && p > 0
    ensures q * p > 0
    ensures x % (q * p) == 0 ==> x % p == 0 && (x + q * p) % p == 0
  {
    MulMono(1, q, p);
    if x % (q * p) == 0 {
      Area.ExactQuotient(x, q * p);
      Regroup(x / (q * p), q, p);
      ModUnique(x, p, x / (q * p) * q, 0);
      DivAddMul(x, q, p);
    }
  }

  lemma Regroup(m: nat, q: nat, p: nat)
    ensures m * (q * p) == m * q * p
  {
  }

  /** At the end of the allocated part, the last block is the region's last. */
  lemma {:induction false} LastOfRegion(a: Area)
    requires a.Valid()
    ensures a.Size() > 0 && (a.Size() - 1) / a.blockSize == a.carved - 1
    ensures (a.carved - 1) * a.blockSize + a.blockSize == a.Size()
  {
    MulMono(1, a.carved, a.blockSize);
    Distribute(a.carved, 0, a.blockSize);
    DivUnique(a.Size() - 1, a.blockSize, a.carved - 1);
  }

  lemma {:induction false} FullGroupSpan(a: Area, start: nat)
    requires a.Valid() && start < a.Size() && start % a.GroupSize() == 0
    ensures GroupSpan(a, start).Valid()
    ensures a.UsedEnd(start) == a.Size() ==> GroupSpan(a, start).EndsRegion()
  {
    PageDividesGroup(a, start);
    LastOfRegion(a);
  }

  /** Range marking a full group marks its free blocks, and the pretend blocks if
      the region's last block is among them. */
  lemma {:induction false} FullGroupMarks(a: Area, g: Group, cap: nat)
    requires FreeGroup(a, g, cap) && Start(a, g) < a.Size() && Start(a, g) % a.GroupSize() == 0
    requires LooksFull(a, g, cap)
    ensures GroupSpan(a, Start(a, g)).Valid() && GroupSpan(a, Start(a, g)).HasBlock()
    ensures GroupSpan(a, Start(a, g)).Marked() == Marks(a, g, cap)
  {
    hide BatchesBlocks, FreeTiles, WholeBlock, GroupOf, Elements, a.Offset, BatchesOk, a.MaxContainedBlocks;
    var start := Start(a, g);
    FullGroupSpan(a, start);
    FullMeansFree(a, g, cap);
    FreeGroupStart(a, g, cap);
    FrontTile(a, BatchesBlocks(g.batches));
    SpanMarks(a, start);
  }

  lemma FrontTile(a: Area, blocks: seq<nat>)
    requires a.Valid() && blocks != []
    ensures FreeTiles(a, blocks)[0] in Elements(FreeTiles(a, blocks))
  {
  }

  lemma {:induction false} SpanMarks(a: Area, start: nat)
    requires a.Valid() && start < a.Size() && GroupSpan(a, start).Valid() && a.Starts(start) != {}
    ensures GroupSpan(a, start).HasBlock()
    ensures GroupSpan(a, start).Marked() == a.Starts(start) + if GroupSpan(a, start).EndsRegion() then Pretend(a) else {}
  {
    var s := GroupSpan(a, start);
    assert s.HasBlock() by {
      var k :| k in a.Starts(start);
      a.StartsIff(start, k);
      CeilDivLeast(start, a.blockSize, k);
      MulMono(s.First(), k, a.blockSize);
    }
    hide s.Marked, s.HasBlock, s.EndsRegion, a.Starts, a.UsedEnd, a.Size, Trailing;
    forall k: nat ensures k in s.Marked() <==> k in a.Starts(start) || (s.EndsRegion() && k in Pretend(a)) {
      SpanMarksTile(a, start, k);
    }
  }

  lemma {:induction false} SpanMarksTile(a: Area, start: nat, k: nat)
    requires a.Valid() && start < a.Size() && GroupSpan(a, start).Valid() && GroupSpan(a, start).HasBlock()
    ensures var s := GroupSpan(a, start);
      k in s.Marked() <==> k in a.Starts(start) || (s.EndsRegion() && k in Pretend(a))
  {
    RangeMarksItsBlocks(GroupSpan(a, start), k);
    a.StartsIff(start, k);
  }

  // ---- Groups do not interfere ------------------------------------------

  /** Aligned groups with different bases do not overlap. */
  lemma {:induction false} GroupsApart(a: Area, g: nat, h: nat)
    requires a.Valid() && a.Offset(g) % a.GroupSize() == 0 && a.Offset(h) % a.GroupSize() == 0 && g < h
    ensures a.Offset(g) + a.GroupSize() <= a.Offset(h)
  {
    var s, x, y := a.GroupSize(), a.Offset(g), a.Offset(h);
    ShlIsMul(g, a.scale);
    ShlIsMul(h, a.scale);
    MulMono(g + 1, h, Pow2(a.scale));
    Area.AddMul(g, 1, Pow2(a.scale));
    NextGroup(x, y, s);
  }

  lemma NextGroup(x: nat, y: nat, s: nat)
    requires s > 0 && x % s == 0 && y % s == 0 && x < y
    ensures x + s <= y
  {
    Area.ExactQuotient(x, s);
    Area.ExactQuotient(y, s);
    NextMultiple(x / s, y / s, s);
  }

  /** A group is followed by one with a free block only if neither the end of the
      region nor its last block is in it. */
  lemma {:induction false} NotTheEnd(a: Area, g: Group, h: Group, cap: nat)
    requires FreeGroup(a, h, cap) && g.batches != []
    requires Start(a, h) < a.Size() && Start(a, g) + a.GroupSize() <= Start(a, h)
    ensures !MarksPretend(a, g, cap) && a.UsedEnd(Start(a, g)) == Start(a, g) + a.GroupSize() < a.Size()
  {
    hide BatchesBlocks, GroupOf, a.Offset, FreeTiles, LooksFull;
    FreeGroupStart(a, h, cap);
    var c := BatchesBlocks(h.batches)[0];
    assert WholeBlock(a, c);
    a.PointerInGroup(c);
    var end := a.UsedEnd(Start(a, g));
    NotLastBlock(a.Offset(c), a.blockSize, end, a.Size());
  }

  lemma {:induction false} NotLastBlock(q: nat, b: nat, end: nat, size: nat)
    requires b > 0 && q % b == 0 && 0 < end <= q && q + b <= size
    ensures (end - 1) / b * b + b < size
  {
    DivBounds(end - 1, b);
    Area.ExactQuotient(q, b);
    NextMultiple((end - 1) / b, q / b, b);
  }

  lemma {:induction false} FreeTileInGroup(a: Area, g: Group, cap: nat, k: nat)
    requires FreeGroup(a, g, cap) && Start(a, g) < a.Size()
    requires k in Elements(FreeTiles(a, BatchesBlocks(g.batches)))
    ensures Start(a, g) <= k * a.blockSize < a.UsedEnd(Start(a, g))
  {
    hide FreeTiles, BatchesBlocks, WholeBlock, GroupOf, a.Offset;
    FreeTilesStart(a, g, cap);
    a.StartsIff(Start(a, g), k);
  }

  lemma {:induction false} PretendAtEnd(a: Area, k: nat)
    requires a.Valid() && k in Pretend(a)
    ensures k >= a.carved && k * a.blockSize >= a.Size()
  {
    hide RoundedSize, CeilDiv, Pow2;
    DivideProduct(a.carved, a.blockSize);
    MulMono(a.carved, k, a.blockSize);
  }

  lemma DivideProduct(n: nat, b: nat)
    requires b > 0
    ensures n * b / b == n && n * b % b == 0
  {
    ModUnique(n * b, b, n, 0);
  }

  /** The tiles of a later group start after all that an earlier group marks. */
  lemma {:induction false} MarksBefore(a: Area, g: Group, h: Group, cap: nat)
    requires FreeGroup(a, g, cap) && FreeGroup(a, h, cap) && g.base < h.base
    ensures Start(a, g) < a.Size() && Start(a, h) < a.Size()
    ensures !MarksPretend(a, g, cap)
    ensures a.UsedEnd(Start(a, g)) == Start(a, g) + a.GroupSize() <= Start(a, h)
    ensures forall k :: k in Marks(a, g, cap) ==> k * a.blockSize < Start(a, h)
    ensures forall k :: k in Marks(a, h, cap) ==> k * a.blockSize >= Start(a, h)
  {
    FreeGroupStart(a, g, cap);
    FreeGroupStart(a, h, cap);
    hide FreeGroup, BatchesBlocks, GroupOf, a.Offset, FreeTiles, LooksFull, MarksPretend, Elements, a.UsedEnd, Pretend;
    GroupsApart(a, g.base, h.base);
    NotTheEnd(a, g, h, cap);
    forall k: nat | k in Marks(a, g, cap) ensures k * a.blockSize < Start(a, h) {
      FreeTileInGroup(a, g, cap, k);
    }
    forall k: nat | k in Marks(a, h, cap) ensures k * a.blockSize >= Start(a, h) {
      if k in Elements(FreeTiles(a, BatchesBlocks(h.batches))) {
        FreeTileInGroup(a, h, cap, k);
      } else {
        PretendAtEnd(a, k);
      }
    }
  }
}
