/** FixedSizeClassMap of size_class_map.h: from sizes to classes and back without a
    table. */
module SizeClassMap {
  import opened Common
  import opened Bits
  import opened SizeGrid

  datatype Config = Config(numBits: nat, minSizeLog: nat, midSizeLog: nat, maxSizeLog: nat, sizeDelta: nat)
  {
    ghost predicate Valid() {
      numBits >= 1 && numBits - 1 <= midSizeLog && minSizeLog <= midSizeLog <= maxSizeLog
    }

    function S(): nat
      requires numBits >= 1
    {
      numBits - 1
    }

    function M(): nat
      requires numBits >= 1
    {
      Pow2(S()) - 1
    }

    function MinSize(): nat { Pow2(minSizeLog) }

    function MidSize(): nat { Pow2(midSizeLog) }

    function MidClass(): nat { MidSize() / MinSize() }

    function MaxSize(): nat { Pow2(maxSizeLog) + sizeDelta }

    function LargestClassId(): nat
      requires numBits >= 1 && midSizeLog <= maxSizeLog
    {
      MidClass() + Shl(maxSizeLog - midSizeLog, S())
    }

    function SizeByClassId(classId: nat): nat
      requires numBits >= 1
    {
      if classId <= MidClass() then Shl(classId, minSizeLog) + sizeDelta
      else
        var c := classId - MidClass();
        var t := Shl(MidSize(), Shr(c, S()));
        t + Shr(t, S()) * BitAnd(c, M()) + sizeDelta
    }

    function ClassIdBySize(size: nat): int
      requires Valid()
    {
      hide Pow2;
      if size <= sizeDelta + MinSize() then 1
      else
        var sz := size - sizeDelta;
        if sz <= MidSize() then Shr(sz + MinSize() - 1, minSizeLog)
        else MidClass() + 1 + ScaledLog2(sz - 1, midSizeLog, S())
    }

    lemma {:induction false} MidClassExact()
      requires Valid()
      ensures MidClass() == Pow2(midSizeLog - minSizeLog) && MidClass() * MinSize() == MidSize() && MidClass() >= 1
    {
      Pow2Add(midSizeLog - minSizeLog, minSizeLog);
      ModUnique(MidSize(), MinSize(), Pow2(midSizeLog - minSizeLog), 0);
      hide Pow2;
    }

    /** A class up to `MidClass` is a multiple of the least size. */
    lemma {:induction false} SmallClassSize(c: nat)
      requires Valid() && c <= MidClass()
      ensures SizeByClassId(c) == c * MinSize() + sizeDelta
    {
      ShlIsMul(c, minSizeLog);
    }

    /** From `MidClass` on, the sizes are the points of the grid. */
    lemma {:induction false} LargeClassSize(j: nat)
      requires Valid()
      ensures SizeByClassId(MidClass() + j) == Grid(midSizeLog, S(), j) + sizeDelta
    {
      if j == 0 {
        MidClassExact();
        SmallClassSize(MidClass());
        assert 0 * Pow2(S()) == 0;
        GridOctave(midSizeLog, S(), 0);
      } else {
        GridPoint(j);
      }
    }

    lemma {:induction false} GridPoint(j: nat)
      requires Valid()
      ensures var t := Shl(MidSize(), Shr(j, S()));
        t + Shr(t, S()) * BitAnd(j, M()) == Grid(midSizeLog, S(), j)
    {
      var s, k, r := S(), OctaveOf(j, S()), StepOf(j, S());
      AndLowMask(j, s);
      LowIsMod(j, s);
      ShrIsDiv(j, s);
      var t := Shl(MidSize(), k);
      ShlIsMul(MidSize(), k);
      Pow2Add(midSizeLog, k);
      ShrIsDiv(t, s);
      Pow2Add(midSizeLog - s + k, s);
      assert midSizeLog - s + k + s == midSizeLog + k;
      hide Pow2, Shl, Shr, Low, BitAnd;
      ModUnique(t, Pow2(s), Pow2(midSizeLog - s + k), 0);
      Spread(Pow2(midSizeLog - s + k), Pow2(s), r);
    }

    static lemma Spread(u: nat, b: nat, r: nat)
      ensures u * b + u * r == Product(u, b + r)
    {
    }

    /** Larger classes have larger sizes. */
    lemma {:induction false} SizesIncrease(c: nat)
      requires Valid() && c >= 1
      ensures SizeByClassId(c) < SizeByClassId(c + 1)
    {
      hide Pow2, Grid, Shl, Shr, BitAnd;
      if c < MidClass() {
        SmallClassSize(c);
        SmallClassSize(c + 1);
        NextSize(c, MinSize());
      } else {
        LargeClassSize(c - MidClass());
        LargeClassSize(c + 1 - MidClass());
        GridStep(midSizeLog, S(), c - MidClass());
      }
    }

    static lemma NextSize(c: nat, m: nat)
      ensures (c + 1) * m == c * m + m
    {
    }

    /** The last class has the greatest size. */
    lemma {:induction false} LargestClass()
      requires Valid()
      ensures SizeByClassId(LargestClassId()) == MaxSize()
    {
      var k := maxSizeLog - midSizeLog;
      ShlIsMul(k, S());
      hide Shl, Shr, Pow2, Grid;
      LargeClassSize(k * Pow2(S()));
      GridOctave(midSizeLog, S(), k);
    }

    /** A size is served by class `c` exactly: `c` is large enough, and the class
        before it, if any, is too small. */
    ghost predicate Serves(c: int, size: nat)
      requires Valid()
    {
      1 <= c && size <= SizeByClassId(c) && (c > 1 ==> SizeByClassId(c - 1) < size)
    }

    /** getClassIdBySize finds the least class that is large enough. */
    lemma {:induction false} LeastClass(size: nat)
      requires Valid() && size <= MaxSize()
      ensures Serves(ClassIdBySize(size), size) && ClassIdBySize(size) <= LargestClassId()
    {
      if size <= sizeDelta + MinSize() {
        TinySize(size);
      } else if size - sizeDelta <= MidSize() {
        SmallSize(size);
      } else {
        LargeSize(size);
      }
      hide *;
      LargestClass();
      NotAboveLargest(size);
    }

    lemma {:induction false} NotAboveLargest(size: nat)
      requires Valid() && Serves(ClassIdBySize(size), size) && size <= SizeByClassId(LargestClassId())
      ensures ClassIdBySize(size) <= LargestClassId()
    {
      MidClassExact();
      hide SizeByClassId, ClassIdBySize;
      if ClassIdBySize(size) > LargestClassId() {
        ClassesOrdered(LargestClassId(), ClassIdBySize(size) - 1);
      }
    }

    lemma {:induction false} TinySize(size: nat)
      requires Valid() && size <= sizeDelta + MinSize()
      ensures Serves(ClassIdBySize(size), size)
    {
      MidClassExact();
      SmallClassSize(1);
      hide Pow2, Grid, Shl, Shr, BitAnd, ScaledLog2, SizeByClassId;
    }

    lemma {:induction false} SmallSize(size: nat)
      requires Valid() && sizeDelta + MinSize() < size <= sizeDelta + MidSize()
      ensures Serves(ClassIdBySize(size), size)
    {
      var sz, m := size - sizeDelta, MinSize();
      MidClassExact();
      ShrIsDiv(sz + m - 1, minSizeLog);
      hide Pow2, Shl, Shr, BitAnd;
      var c := ClassIdBySize(size);
      CeilDivLeast(sz, m, MidClass());
      CeilDivLeast(sz, m, c - 1);
      CeilDivLeast(sz, m, 1);
      SmallClassSize(c);
      SmallClassSize(c - 1);
    }

    lemma {:induction false} LargeSize(size: nat)
      requires Valid() && size > sizeDelta + MidSize()
      ensures Serves(ClassIdBySize(size), size)
    {
      LargeClassId(size);
      hide *;
      var j := ScaledLog2(size - sizeDelta - 1, midSizeLog, numBits - 1);
      GridClass(j, size);
    }

    lemma {:induction false} GridClass(j: int, size: nat)
      requires Valid() && size > sizeDelta + MidSize() && j == ScaledLog2(size - sizeDelta - 1, midSizeLog, S())
      requires MidClass() >= 1
      ensures Serves(MidClass() + 1 + j, size)
    {
      hide SizeByClassId, Grid, ScaledLog2, MidClass, Pow2;
      ScaledLog2Bracket(size - sizeDelta - 1, midSizeLog, S());
      LargeClassSize(j);
      LargeClassSize(j + 1);
    }

    lemma {:induction false} LargeClassId(size: nat)
      requires Valid() && size > sizeDelta + MidSize()
      ensures MidClass() >= 1 && MidSize() == Pow2(midSizeLog)
      ensures ClassIdBySize(size) == MidClass() + 1 + ScaledLog2(size - sizeDelta - 1, midSizeLog, S())
    {
      Pow2Mono(minSizeLog, midSizeLog);
      MidClassExact();
      hide Pow2, ScaledLog2;
    }

    lemma {:induction false} ClassesOrdered(c: nat, d: nat)
      requires Valid() && 1 <= c <= d
      ensures SizeByClassId(c) <= SizeByClassId(d)
      decreases d - c
    {
      hide SizeByClassId;
      if c < d {
        ClassesOrdered(c, d - 1);
        SizesIncrease(d - 1);
      }
    }

    lemma {:induction false} ServesUnique(c: int, d: int, size: nat)
      requires Valid() && Serves(c, size) && Serves(d, size)
      ensures c == d
    {
      hide SizeByClassId;
      if c < d {
        ClassesOrdered(c, d - 1);
      } else if d < c {
        ClassesOrdered(d, c - 1);
      }
    }

    /** Going from a class to its size and back gives the class. */
    lemma {:induction false} ClassRoundTrip(c: nat)
      requires Valid() && 1 <= c <= LargestClassId()
      ensures SizeByClassId(c) <= MaxSize() && ClassIdBySize(SizeByClassId(c)) == c
    {
      hide SizeByClassId, ClassIdBySize, LargestClassId, MaxSize;
      LargestClass();
      ClassesOrdered(c, LargestClassId());
      LeastClass(SizeByClassId(c));
      if c > 1 {
        SizesIncrease(c - 1);
      }
      ServesUnique(c, ClassIdBySize(SizeByClassId(c)), SizeByClassId(c));
    }

    /** No class below the one found is large enough, and all from it on are. */
    lemma {:induction false} ClassFitsIff(size: nat, c: nat)
      requires Valid() && size <= MaxSize() && 1 <= c
      ensures size <= SizeByClassId(c) <==> ClassIdBySize(size) <= c
    {
      LeastClass(size);
      hide SizeByClassId, ClassIdBySize, MaxSize;
      var d := ClassIdBySize(size);
      if d <= c {
        ClassesOrdered(d, c);
      } else {
        ClassesOrdered(c, d - 1);
      }
    }
  }
}
