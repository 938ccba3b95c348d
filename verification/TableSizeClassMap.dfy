/** TableSizeClassMap of size_class_map.h: an arbitrary list of class sizes, looked up
    through a table over the logarithmic grid. */
module TableSizeClassMap {
  import opened Common
  import opened Bits
  import opened SizeGrid

  const NO_CLASS := 255

  datatype Config = Config(numBits: nat, minSizeLog: nat, midSizeLog: nat, maxSizeLog: nat, sizeDelta: nat, classes: seq<nat>)
  {
    ghost predicate Valid() {
      && numBits >= 1 && numBits - 1 <= midSizeLog && minSizeLog <= midSizeLog <= maxSizeLog
      && classes != [] && |classes| < NO_CLASS && classes[0] >= sizeDelta
      && forall i, j :: 0 <= i < j < |classes| ==> classes[i] < classes[j]
    }

    function S(): nat
      requires numBits >= 1
    {
      numBits - 1
    }

    function MaxSize(): nat
      requires classes != []
    {
      classes[|classes| - 1]
    }

    function TableSize(): nat
      requires numBits >= 1 && midSizeLog <= maxSizeLog
    {
      Shl(maxSizeLog - midSizeLog, S())
    }

    /** Linear search: the first class from `i` on that is large enough. */
    function Search(size: nat, i: nat): (c: nat)
      requires i <= |classes| < NO_CLASS
      ensures c == NO_CLASS || i < c <= |classes|
      ensures c != NO_CLASS ==> size <= classes[c - 1] && forall k :: i <= k < c - 1 ==> classes[k] < size
      ensures c == NO_CLASS ==> forall k :: i <= k < |classes| ==> classes[k] < size
      decreases |classes| - i
    {
      if i == |classes| then NO_CLASS
      else if size <= classes[i] then i + 1
      else Search(size, i + 1)
    }

    /** computeClassId */
    function ClassOf(size: nat): nat
      requires |classes| < NO_CLASS
    {
      Search(size, 0)
    }

    /** The constructor of SizeTable: entry `i` is the class of grid point `i + 1`. */
    method BuildTable() returns (tab: seq<nat>)
      requires Valid()
      ensures |tab| == TableSize()
      ensures forall i :: 0 <= i < |tab| ==> tab[i] == ClassOf(Grid(midSizeLog, S(), i + 1) + sizeDelta)
    {
      hide Grid, Pow2, Search, OctaveOf, StepOf, Shl, BitAnd;
      var pos := Pow2(midSizeLog);
      var inc := Pow2(midSizeLog - S());
      tab := [];
      FirstPoint();
      for i := 0 to TableSize()
        invariant |tab| == i
        invariant pos == Grid(midSizeLog, S(), i) && inc == Pow2(midSizeLog - S() + OctaveOf(i, S()))
        invariant forall k :: 0 <= k < i ==> tab[k] == ClassOf(Grid(midSizeLog, S(), k + 1) + sizeDelta)
      {
        GridStep(midSizeLog, S(), i);
        NextInc(i);
        pos := pos + inc;
        if BitAnd(pos, pos - 1) == 0 {
          inc := inc * 2;
        }
        tab := tab + [ClassOf(pos + sizeDelta)];
      }
    }

    lemma {:induction false} FirstPoint()
      requires numBits >= 1 && numBits - 1 <= midSizeLog
      ensures Grid(midSizeLog, S(), 0) == Pow2(midSizeLog) && OctaveOf(0, S()) == 0
    {
      assert 0 * Pow2(S()) == 0;
      GridOctave(midSizeLog, S(), 0);
      GridAt(midSizeLog, S(), 0, 0);
    }

    /** The step doubles exactly where a grid point is a power of two. */
    lemma {:induction false} NextInc(i: nat)
      requires numBits >= 1 && numBits - 1 <= midSizeLog
      ensures var pos := Grid(midSizeLog, S(), i + 1);
        && pos > 0
        && (BitAnd(pos, pos - 1) == 0 ==> OctaveOf(i + 1, S()) == OctaveOf(i, S()) + 1)
        && (BitAnd(pos, pos - 1) != 0 ==> OctaveOf(i + 1, S()) == OctaveOf(i, S()))
      ensures Pow2(midSizeLog - S() + OctaveOf(i, S()) + 1) == 2 * Pow2(midSizeLog - S() + OctaveOf(i, S()))
    {
      var s := S();
      GridStep(midSizeLog, s, i);
      PowerOfTwoTest(Grid(midSizeLog, s, i + 1));
      GridPower(midSizeLog, s, i + 1);
      OctaveAndStep(i, s);
      OctaveAndStep(i + 1, s);
      assert Pow2(midSizeLog - s + OctaveOf(i, s) + 1) == 2 * Pow2(midSizeLog - s + OctaveOf(i, s));
      hide Grid, Pow2, OctaveOf, StepOf, BitAnd;
      Carry(OctaveOf(i, s), StepOf(i, s), OctaveOf(i + 1, s), StepOf(i + 1, s), Pow2(s));
    }

    static lemma {:induction false} Carry(k: nat, r: nat, k': nat, r': nat, b: nat)
      requires k * b + r + 1 == k' * b + r' && r < b && r' < b
      ensures r' == 0 ==> k' == k + 1
      ensures r' != 0 ==> k' == k
    {
      if r + 1 < b {
        MixedRadix(k', r', k, r + 1, b);
      } else {
        Distribute1(k, b);
        MixedRadix(k', r', k + 1, 0, b);
      }
    }

    static lemma Distribute1(k: nat, b: nat)
      ensures (k + 1) * b == k * b + b
    {
    }

    /** getClassIdBySize, given the table. */
    function ClassIdBySize(size: nat, tab: seq<nat>): int
      requires Valid() && |tab| == TableSize() && size <= MaxSize() && GridCovers()
    {
      if size <= classes[0] then 1
      else
        var sz := size - sizeDelta;
        if sz <= Pow2(midSizeLog) then Shr(sz - 1, minSizeLog) + 1
        else
          InTable(size);
          tab[ScaledLog2(sz - 1, midSizeLog, S())]
    }

    /** The largest class is within the table. */
    ghost predicate GridCovers()
      requires classes != []
    {
      MaxSize() <= Pow2(maxSizeLog) + sizeDelta
    }

    lemma {:induction false} InTable(size: nat)
      requires Valid() && GridCovers() && sizeDelta + Pow2(midSizeLog) < size <= MaxSize()
      ensures 0 <= ScaledLog2(size - sizeDelta - 1, midSizeLog, S()) < TableSize()
    {
      hide Pow2, Grid, ScaledLog2, Shl;
      var j := ScaledLog2(size - sizeDelta - 1, midSizeLog, S());
      ScaledLog2Bracket(size - sizeDelta - 1, midSizeLog, S());
      ShlIsMul(maxSizeLog - midSizeLog, S());
      GridOctave(midSizeLog, S(), maxSizeLog - midSizeLog);
      if j >= TableSize() {
        GridMono(midSizeLog, S(), TableSize(), j);
      }
    }

    // ---- When the lookup is right ---------------------------------------

    /** The classes up to `2^midSizeLog` go up in steps of `2^minSizeLog`. */
    ghost predicate SmallSteps()
      requires minSizeLog <= midSizeLog
    {
      && Pow2(midSizeLog - minSizeLog) <= |classes|
      && forall i :: 0 <= i < Pow2(midSizeLog - minSizeLog) ==> classes[i] == (i + 1) * Pow2(minSizeLog) + sizeDelta
    }

    /** A class beyond that is a grid point. */
    ghost predicate OnGrid(c: nat)
      requires numBits >= 1 && numBits - 1 <= midSizeLog
    {
      exists j :: 0 <= j && c == Grid(midSizeLog, S(), j) + sizeDelta
    }

    ghost predicate AllOnGrid()
      requires numBits >= 1 && numBits - 1 <= midSizeLog
    {
      forall i :: 0 <= i < |classes| && classes[i] > Pow2(midSizeLog) + sizeDelta ==> OnGrid(classes[i])
    }

    ghost predicate IsTable(tab: seq<nat>)
      requires Valid()
    {
      |tab| == TableSize() && forall i :: 0 <= i < |tab| ==> tab[i] == ClassOf(Grid(midSizeLog, S(), i + 1) + sizeDelta)
    }

    /** The table lookup agrees with linear search. */
    lemma {:induction false} LookupIsSearch(size: nat, tab: seq<nat>)
      requires Valid() && GridCovers() && SmallSteps() && AllOnGrid() && IsTable(tab) && size <= MaxSize()
      ensures ClassIdBySize(size, tab) == ClassOf(size)
    {
      hide Pow2, Grid, ScaledLog2, Shl, Shr, OnGrid, Search;
      if size <= classes[0] {
        FirstClass(size);
      } else if size - sizeDelta <= Pow2(midSizeLog) {
        SmallLookup(size);
      } else {
        InTable(size);
        LargeLookup(size);
      }
    }

    lemma {:induction false} FirstClass(size: nat)
      requires Valid() && size <= classes[0]
      ensures ClassOf(size) == 1
    {
    }

    lemma {:induction false} SmallLookup(size: nat)
      requires Valid() && SmallSteps() && size > sizeDelta && size - sizeDelta <= Pow2(midSizeLog)
      ensures Shr(size - sizeDelta - 1, minSizeLog) + 1 == ClassOf(size)
    {
      var sz, m := size - sizeDelta, Pow2(minSizeLog);
      ShrIsDiv(sz - 1, minSizeLog);
      Pow2Add(midSizeLog - minSizeLog, minSizeLog);
      hide Pow2, Shr, Search;
      var i := (sz - 1) / m;
      DivBounds(sz - 1, m);
      DivLess(sz - 1, m, Pow2(midSizeLog - minSizeLog));
      assert classes[i] == (i + 1) * m + sizeDelta;
      if i > 0 {
        assert classes[i - 1] == (i - 1 + 1) * m + sizeDelta;
      }
      FoundAt(size, i);
    }

    /** A class that fits while the one before it does not is what the search finds. */
    lemma {:induction false} FoundAt(size: nat, i: nat)
      requires Valid() && i < |classes| && size <= classes[i] && (i > 0 ==> classes[i - 1] < size)
      ensures ClassOf(size) == i + 1
    {
    }

    lemma {:induction false} LargeLookup(size: nat)
      requires Valid() && AllOnGrid() && sizeDelta + Pow2(midSizeLog) < size <= MaxSize()
      ensures var j := ScaledLog2(size - sizeDelta - 1, midSizeLog, S());
        j >= 0 && ClassOf(Grid(midSizeLog, S(), j + 1) + sizeDelta) == ClassOf(size)
    {
      hide Pow2, Grid, ScaledLog2, Search;
      var j := ScaledLog2(size - sizeDelta - 1, midSizeLog, S());
      ScaledLog2Bracket(size - sizeDelta - 1, midSizeLog, S());
      var c := ClassOf(size);
      assert c != NO_CLASS by {
        assert size <= classes[|classes| - 1];
      }
      assert OnGrid(classes[c - 1]);
      var k :| 0 <= k && classes[c - 1] == Grid(midSizeLog, S(), k) + sizeDelta;
      if k <= j {
        GridMono(midSizeLog, S(), k, j);
      } else {
        GridMono(midSizeLog, S(), j + 1, k);
      }
      FoundAt(Grid(midSizeLog, S(), j + 1) + sizeDelta, c - 1);
    }

    /** The grid is needed: the size of a class that is off the grid is looked up
        wrongly. */
    lemma {:induction false} OffGridFails(tab: seq<nat>, i: nat)
      requires Valid() && GridCovers() && IsTable(tab) && i < |classes|
      requires classes[i] > Pow2(midSizeLog) + sizeDelta && !OnGrid(classes[i])
      requires i > 0
      ensures classes[i] <= MaxSize() && ClassOf(classes[i]) == i + 1 && ClassIdBySize(classes[i], tab) != i + 1
    {
      hide Pow2, Grid, ScaledLog2, Search, Shl, Shr;
      var size := classes[i];
      assert i < |classes| - 1 ==> size < classes[|classes| - 1];
      FoundAt(size, i);
      InTable(size);
      var j := ScaledLog2(size - sizeDelta - 1, midSizeLog, S());
      ScaledLog2Bracket(size - sizeDelta - 1, midSizeLog, S());
      var point := Grid(midSizeLog, S(), j + 1) + sizeDelta;
      assert size < point;
      assert tab[j] == ClassOf(point);
    }

    /** The lookup is the linear search for every size. */
    ghost predicate LookupRight(tab: seq<nat>)
      requires Valid() && GridCovers() && |tab| == TableSize()
    {
      forall size: nat :: size <= MaxSize() ==> ClassIdBySize(size, tab) == ClassOf(size)
    }

    /** With small classes in steps of the least size, the lookup is right for all sizes
        exactly if all larger classes are on the grid. */
    lemma {:induction false} LookupRightIff(tab: seq<nat>)
      requires Valid() && GridCovers() && SmallSteps() && IsTable(tab)
      ensures LookupRight(tab) <==> AllOnGrid()
    {
      hide Pow2, ClassIdBySize, ClassOf, OnGrid, Grid;
      if AllOnGrid() {
        forall size: nat | size <= MaxSize() ensures ClassIdBySize(size, tab) == ClassOf(size) {
          LookupIsSearch(size, tab);
        }
      } else {
        var i :| 0 <= i < |classes| && classes[i] > Pow2(midSizeLog) + sizeDelta && !OnGrid(classes[i]);
        SmallestIsSmall();
        OffGridFails(tab, i);
      }
    }

    lemma SmallestIsSmall()
      requires Valid() && SmallSteps()
      ensures classes[0] <= Pow2(midSizeLog) + sizeDelta
    {
      Pow2Mono(minSizeLog, midSizeLog);
    }
  }
}
