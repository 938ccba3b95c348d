/** Where the groups of a region lie, which blocks start in a group, and what the
    block counts of primary64.h say about them. Offsets are relative to the region. */
module GroupGeometry {
  import opened Common
  import opened Bits
  import opened Tiles
  import opened PageCounts
  import opened RangeMarking
  import opened BlockMarking
  import opened FreeList
  import opened PageRelease

  /** A region cut into `carved` blocks, on pages of `2^pageLog` bytes, with groups
      of `2^groupLog` bytes; compact pointers drop `scale` bits. */
  datatype Area = Area(pageLog: nat, groupLog: nat, scale: nat, blockSize: nat, carved: nat)
  {
    ghost predicate Valid() {
      blockSize > 0 && carved > 0 && pageLog <= groupLog && scale <= groupLog
    }

    function PageSize(): (p: nat)
      ensures p > 0
    {
      Pow2(pageLog)
    }

    function GroupSize(): (s: nat)
      ensures s > 0
    {
      Pow2(groupLog)
    }

    function GroupScale(): nat
      requires Valid()
    {
      groupLog - scale
    }

    /** AllocatedUser: the bytes cut into blocks so far. */
    function Size(): nat { carved * blockSize }

    /** The offset a compact pointer stands for. */
    function Offset(c: nat): nat { Shl(c, scale) }

    function AllocatedGroupSize(start: nat): nat
      requires start < Size()
    {
      if Size() >= start + GroupSize() then GroupSize() else Size() - start
    }

    function UsedEnd(start: nat): nat
      requires start < Size()
    {
      start + AllocatedGroupSize(start)
    }

    /** How many blocks markFreeBlocks expects of an entirely free group. */
    function MaxContainedBlocks(start: nat): nat
      requires Valid() && start < Size()
    {
      AllocatedGroupSize(start) / blockSize + if UsedEnd(start) % blockSize == 0 then 0 else 1
    }

    /** The blocks that start in the group. */
    function Starts(start: nat): set<nat>
      requires Valid() && start < Size()
    {
      Interval(CeilDiv(start, blockSize), CeilDiv(UsedEnd(start), blockSize))
    }

    lemma {:induction false} StartsIff(start: nat, k: nat)
      requires Valid() && start < Size()
      ensures k in Starts(start) <==> start <= k * blockSize < UsedEnd(start)
    {
      CeilDivLeast(start, blockSize, k);
      CeilDivLeast(UsedEnd(start), blockSize, k);
    }

    /** No more blocks start in a group than markFreeBlocks expects. */
    lemma {:induction false} StartsCount(start: nat)
      requires Valid() && start < Size()
      ensures |Starts(start)| <= MaxContainedBlocks(start)
    {
      CountBound(start, UsedEnd(start), blockSize);
    }

    static lemma {:induction false} CountBound(s: nat, u: nat, b: nat)
      requires b > 0 && s <= u
      ensures CeilDiv(u, b) - CeilDiv(s, b) <= (u - s) / b + if u % b == 0 then 0 else 1
    {
      var c, x, q := CeilDiv(s, b), (u - s) / b, u / b;
      CeilDivLeast(s, b, c);
      DivBounds(u - s, b);
      DivBounds(u, b);
      AddMul(c, x + 1, b);
      if q >= c + x + 1 {
        MulMono(c + x + 1, q, b);
      }
      CeilDivLeast(u, b, if u % b == 0 then q else q + 1);
      ExactQuotient(u, b);
    }

    static lemma AddMul(x: int, y: int, b: int)
      ensures (x + y) * b == x * b + y * b
    {
    }

    static lemma ExactQuotient(u: nat, b: nat)
      requires b > 0
      ensures u % b == 0 ==> u == u / b * b
      ensures u < (u / b + 1) * b
    {
      DivBounds(u, b);
    }

    /** The expected number is the number of blocks that start in the group, or one more:
        exactly if the group ends within a block and the bytes before its first block are
        more than what is left over after whole blocks. Such a group never counts as full. */
    lemma {:induction false} StartsCountExact(start: nat)
      requires Valid() && start < Size()
      ensures MaxContainedBlocks(start) - 1 <= |Starts(start)| <= MaxContainedBlocks(start)
      ensures var before := CeilDiv(start, blockSize) * blockSize - start;
        |Starts(start)| == MaxContainedBlocks(start)
        <==> UsedEnd(start) % blockSize == 0 || before <= AllocatedGroupSize(start) % blockSize
    {
      var s, u, b := start, UsedEnd(start), blockSize;
      CeilDivLeast(s, b, 0);
      MoreBlocks(s, u, b);
      CountExact(s, u, b);
    }

    static lemma {:induction false} MoreBlocks(s: nat, u: nat, b: nat)
      requires b > 0 && s <= u
      ensures CeilDiv(s, b) <= CeilDiv(u, b)
    {
      CeilDivLeast(u, b, CeilDiv(u, b));
      CeilDivLeast(s, b, CeilDiv(u, b));
    }

    static lemma {:induction false} CountExact(s: nat, u: nat, b: nat)
      requires b > 0 && s <= u
      ensures var n, m := CeilDiv(u, b) - CeilDiv(s, b), (u - s) / b + if u % b == 0 then 0 else 1;
        && m - 1 <= n <= m
        && (n == m <==> u % b == 0 || CeilDiv(s, b) * b - s <= (u - s) % b)
    {
      var c, x, r := CeilDiv(s, b), (u - s) / b, (u - s) % b;
      var a := c * b - s;
      CeilDivLeast(s, b, c);
      DivBounds(u - s, b);
      AddMul(c, x, b);
      assert u == (c + x) * b + (r - a);
      CeilOf(u, b, c + x, r - a);
    }

    /** Rounding up the quotient of a number less than `b` away from a multiple. */
    static lemma {:induction false} CeilOf(u: nat, b: nat, q: nat, e: int)
      requires b > 0 && 0 < e + b && e < b && u == q * b + e
      ensures CeilDiv(u, b) == if e <= 0 then q else q + 1
      ensures u % b == 0 <==> e == 0
    {
      if e <= 0 {
        DivUnique(u + b - 1, b, q);
      } else {
        DivUnique(u + b - 1, b, q + 1);
      }
      if e < 0 {
        ModUnique(u, b, q - 1, e + b);
      } else {
        ModUnique(u, b, q, e);
      }
    }

    /** As many different free blocks as markFreeBlocks expects are all the blocks
        that start in the group: none of them is in use. */
    lemma {:induction false} AllBlocksFree(start: nat, tiles: seq<nat>)
      requires Valid() && start < Size()
      requires NoDuplicates(tiles) && Elements(tiles) <= Starts(start)
      requires |tiles| == MaxContainedBlocks(start)
      ensures Elements(tiles) == Starts(start)
    {
      StartsCount(start);
      DistinctCount(tiles);
      SubsetSize(Elements(tiles), Starts(start));
    }

    /** Every compact pointer lies inside its own group, and groups are aligned. */
    lemma {:induction false} PointerInGroup(c: nat)
      requires Valid()
      ensures var start := Offset(GroupOf(c, GroupScale()));
        start <= Offset(c) < start + GroupSize() && start % GroupSize() == 0
    {
      var gs := GroupScale();
      var q, g, s := Shr(c, gs), Pow2(gs), Pow2(scale);
      ClearLow(c, gs);
      ShrIsDiv(c, gs);
      DivBounds(c, g);
      ShlIsMul(c, scale);
      ShlIsMul(GroupOf(c, gs), scale);
      Pow2Add(gs, scale);
      InScaledGroup(c, q, g, s);
    }

    static lemma {:induction false} InScaledGroup(c: nat, q: nat, g: nat, s: nat)
      requires g > 0 && s > 0 && q * g <= c < (q + 1) * g
      ensures g * s > 0
      ensures q * g * s <= c * s < q * g * s + g * s && q * g * s % (g * s) == 0
    {
      MulMono(q * g, c, s);
      MulMono(c + 1, (q + 1) * g, s);
      AddMul(q, 1, g);
      AddMul(q * g, g, s);
      AddMul(c, 1, s);
      assert q * g * s == q * (g * s);
      ModUnique(q * g * s, g * s, q, 0);
    }
  }

  lemma {:induction false} DistinctCount(s: seq<nat>)
    requires NoDuplicates(s)
    ensures |Elements(s)| == |s|
  {
    if s == [] {
      assert Elements(s) == {};
    } else {
      var init, last := s[..|s| - 1], s[|s| - 1];
      DistinctCount(init);
      assert Elements(s) == Elements(init) + {last};
      assert last !in init;
    }
  }
}
