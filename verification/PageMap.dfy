/** RegionPageMap of release.h: an array of bounded counters packed into words. */
module PageMap {
  import opened Common
  import opened Bits

  /** Where each counter lives. A word holds `2^packingLog` counters, each
      `2^sizeBitsLog` bits wide; every region starts on a fresh word. */
  datatype Layout = Layout(regions: nat, counters: nat, sizeBitsLog: nat, packingLog: nat, sizePerRegion: nat)
  {
    function CounterBits(): nat { Pow2(sizeBitsLog) }

    function CounterMask(): nat { Pow2(CounterBits()) - 1 }

    function WordBits(): nat { Pow2(sizeBitsLog + packingLog) }

    function Slot(region: nat, i: nat): nat { region * sizePerRegion + Shr(i, packingLog) }

    function BitOffset(i: nat): nat { Shl(Low(i, packingLog), sizeBitsLog) }

    ghost predicate Valid() {
      sizePerRegion == CeilDiv(counters, Pow2(packingLog))
    }

    lemma {:induction false} OffsetFits(i: nat)
      ensures BitOffset(i) + CounterBits() <= WordBits()
    {
      ShlBound(Low(i, packingLog), sizeBitsLog, sizeBitsLog + packingLog);
    }

    lemma {:induction false} SlotInRegion(i: nat)
      requires Valid() && i < counters
      ensures Shr(i, packingLog) < sizePerRegion
    {
      var p := Pow2(packingLog);
      ShrIsDiv(i, packingLog);
      CeilDivLeast(counters, p, i / p);
      DivBounds(i, p);
    }

    lemma {:induction false} SlotInBuffer(r: nat, i: nat)
      requires Valid() && r < regions && i < counters
      ensures Slot(r, i) < sizePerRegion * regions
    {
      SlotInRegion(i);
      MulMono(r + 1, regions, sizePerRegion);
    }

    /** Two different counters in one word occupy disjoint bit ranges. */
    lemma {:induction false} OffsetsApart(i: nat, j: nat)
      requires Low(i, packingLog) < Low(j, packingLog)
      ensures BitOffset(i) + CounterBits() <= BitOffset(j)
    {
      var a, b := Low(i, packingLog), Low(j, packingLog);
      ShlSum(a, 1, sizeBitsLog);
      ShlSum(a + 1, b - a - 1, sizeBitsLog);
      ShlIsMul(1, sizeBitsLog);
    }

    lemma {:induction false} SameSlot(r: nat, i: nat, q: nat, j: nat)
      requires Valid() && r < regions && q < regions && i < counters && j < counters
      requires Slot(r, i) == Slot(q, j)
      ensures r == q && Shr(i, packingLog) == Shr(j, packingLog)
      ensures i == j || Low(i, packingLog) != Low(j, packingLog)
    {
      SlotInRegion(i);
      SlotInRegion(j);
      MixedRadix(r, Shr(i, packingLog), q, Shr(j, packingLog), sizePerRegion);
      Split(i, packingLog);
      Split(j, packingLog);
    }
  }

  /** `words` holds the counters `c` under layout `l`. */
  ghost predicate Encodes(words: seq<nat>, c: seq<seq<nat>>, l: Layout) {
    && l.Valid()
    && |words| == l.sizePerRegion * l.regions
    && |c| == l.regions
    && (forall r :: 0 <= r < |c| ==> |c[r]| == l.counters)
    && (forall k :: 0 <= k < |words| ==> words[k] < Pow2(l.WordBits()))
    && (forall r, i :: 0 <= r < l.regions && 0 <= i < l.counters ==> Holds(words, c, l, r, i))
  }

  ghost predicate Holds(words: seq<nat>, c: seq<seq<nat>>, l: Layout, r: nat, i: nat)
    requires r < |c| && i < |c[r]|
  {
    && l.Slot(r, i) < |words|
    && c[r][i] == Field(words[l.Slot(r, i)], l.BitOffset(i), l.CounterBits())
  }

  function BumpRow(row: seq<nat>, i: nat, n: nat): (r: seq<nat>)
    requires i < |row|
    ensures |r| == |row|
  {
    row[i := row[i] + n]
  }

  function Bump(c: seq<seq<nat>>, r: nat, i: nat, n: nat): seq<seq<nat>>
    requires r < |c| && i < |c[r]|
  {
    c[r := BumpRow(c[r], i, n)]
  }

  function PutRow(row: seq<nat>, i: nat, v: nat): seq<nat>
    requires i < |row|
  {
    row[i := v]
  }

  function Put(c: seq<seq<nat>>, r: nat, i: nat, v: nat): seq<seq<nat>>
    requires r < |c| && i < |c[r]|
  {
    c[r := PutRow(c[r], i, v)]
  }

  /** The row with one added to the counters `from` up to, not including, `top`. */
  function RowInc(row: seq<nat>, from: nat, top: nat): (r: seq<nat>)
    ensures |r| == |row|
  {
    seq(|row|, i requires 0 <= i < |row| => if from <= i < top then row[i] + 1 else row[i])
  }

  /** The row with `v` in the counters `from` up to, not including, `top`. */
  function RowFill(row: seq<nat>, from: nat, top: nat, v: nat): (r: seq<nat>)
    ensures |r| == |row|
  {
    seq(|row|, i requires 0 <= i < |row| => if from <= i < top then v else row[i])
  }

  /** Adding `n` at a counter's bit offset adds `n` to that counter, leaves every
      other counter of every region alone and stays inside the word. */
  lemma {:induction false} AddRefinesBump(words: seq<nat>, c: seq<seq<nat>>, l: Layout, r: nat, i: nat, n: nat)
    requires Encodes(words, c, l)
    requires r < l.regions && i < l.counters
    requires c[r][i] + n <= l.CounterMask()
    ensures l.Slot(r, i) < |words|
    ensures Encodes(words[l.Slot(r, i) := words[l.Slot(r, i)] + Shl(n, l.BitOffset(i))], Bump(c, r, i, n), l)
  {
    assert Holds(words, c, l, r, i);
    var s := l.Slot(r, i);
    var w := words[s] + Shl(n, l.BitOffset(i));
    var words', c' := words[s := w], Bump(c, r, i, n);
    l.OffsetFits(i);
    FieldAdd(words[s], n, l.BitOffset(i), l.CounterBits());
    FieldAddFits(words[s], n, l.BitOffset(i), l.CounterBits(), l.WordBits());
    forall q, j | 0 <= q < l.regions && 0 <= j < l.counters
      ensures Holds(words', c', l, q, j)
    {
      assert Holds(words, c, l, q, j);
      if l.Slot(q, j) == s && (q != r || j != i) {
        OtherCounterKept(words[s], l, r, i, q, j, n);
      }
    }
  }

  lemma {:induction false} OtherCounterKept(w: nat, l: Layout, r: nat, i: nat, q: nat, j: nat, n: nat)
    requires l.Valid() && r < l.regions && q < l.regions && i < l.counters && j < l.counters
    requires l.Slot(r, i) == l.Slot(q, j) && (q != r || j != i)
    requires w < Pow2(l.WordBits())
    requires Field(w, l.BitOffset(i), l.CounterBits()) + n <= l.CounterMask()
    ensures Field(w + Shl(n, l.BitOffset(i)), l.BitOffset(j), l.CounterBits()) == Field(w, l.BitOffset(j), l.CounterBits())
    ensures q == r && j != i
  {
    l.SameSlot(r, i, q, j);
    l.OffsetFits(i);
    if Low(i, l.packingLog) < Low(j, l.packingLog) {
      l.OffsetsApart(i, j);
    } else {
      l.OffsetsApart(j, i);
    }
    FieldAddIndependent(w, n, l.BitOffset(i), l.CounterBits(), l.BitOffset(j), l.WordBits());
  }

  function Zeros(regions: nat, n: nat): seq<seq<nat>> {
    seq(regions, _ => seq(n, _ => 0))
  }

  /** An all-zero buffer encodes all-zero counters. */
  lemma {:induction false} ZeroEncodes(words: seq<nat>, c: seq<seq<nat>>, l: Layout)
    requires l.Valid() && |words| == l.sizePerRegion * l.regions
    requires forall k :: 0 <= k < |words| ==> words[k] == 0
    requires c == Zeros(l.regions, l.counters)
    ensures Encodes(words, c, l)
  {
    forall r, i | 0 <= r < l.regions && 0 <= i < l.counters
      ensures Holds(words, c, l, r, i)
    {
      l.SlotInBuffer(r, i);
      ZeroField(l.BitOffset(i), l.CounterBits());
    }
  }

  lemma ZeroField(off: nat, bits: nat)
    ensures Field(0, off, bits) == 0
  {
    ShrIsDiv(0, off);
    LowIsAll(0, bits);
  }

  /** The width chosen by `reset` holds `maxValue` and divides the word evenly. */
  lemma {:induction false} WidthFits(maxValue: nat, wordLog: nat)
    requires 0 < maxValue < Pow2(Pow2(wordLog))
    ensures var bits := RoundUpPowerOfTwo(Log2(maxValue) + 1);
            && bits == Pow2(Log2(bits))
            && Log2(bits) <= wordLog
            && maxValue < Pow2(bits)
  {
    var need := Log2(maxValue) + 1;
    var bits := RoundUpPowerOfTwo(need);
    var wordBits := Pow2(wordLog);
    if need > wordBits {
      Pow2Mono(wordBits, Log2(maxValue));
    }
    RoundUpPowerOfTwoIsLeast(need, wordLog);
    var n: nat :| bits == Pow2(n);
    Log2OfPow2(n);
    if n > wordLog {
      Pow2Mono(wordLog, n);
    }
    Pow2Mono(need, bits);
  }

  /** `~0 >> (W - bits)` is the mask of `bits` ones. */
  lemma {:induction false} AllOnesShifted(w: nat, k: nat)
    requires k <= w
    ensures Shr(Pow2(w) - 1, k) == Pow2(w - k) - 1
  {
    if k > 0 {
      assert (Pow2(w) - 1) / 2 == Pow2(w - 1) - 1;
      AllOnesShifted(w - 1, k - 1);
    }
  }

  class RegionPageMap {
    const wordLog: nat  // a word has 2^wordLog bits

    var regions: nat
    var numCounters: nat
    var counterSizeBitsLog: nat
    var counterMask: nat
    var packingRatioLog: nat
    var bitOffsetMask: nat
    var sizePerRegion: nat
    var bufferNumElements: nat
    var data: array?<nat>

    /** The counters the packed buffer stands for, region by region. */
    ghost var counters: seq<seq<nat>>

    ghost predicate Valid()
      reads this, data
    {
      data != null ==>
        && counterMask == Lay().CounterMask()
        && bitOffsetMask == Pow2(packingRatioLog) - 1
        && counterSizeBitsLog + packingRatioLog == wordLog
        && bufferNumElements == data.Length
        && Encodes(data[..], counters, Lay())
    }

    ghost function Lay(): Layout
      reads this
    {
      Layout(regions, numCounters, counterSizeBitsLog, packingRatioLog, sizePerRegion)
    }

    constructor (wordLog: nat)
      ensures Valid() && data == null && this.wordLog == wordLog
    {
      this.wordLog := wordLog;
      regions, numCounters, counterSizeBitsLog, counterMask := 0, 0, 0, 0;
      packingRatioLog, bitOffsetMask, sizePerRegion, bufferNumElements := 0, 0, 0, 0;
      data := null;
      counters := [];
    }

    /** Chooses the narrowest power-of-two width that holds `maxValue` and starts
        all counters at zero. `mapped` is the outcome of getting the buffer. */
    method Reset(numberOfRegions: nat, countersPerRegion: nat, maxValue: nat, mapped: bool)
      requires numberOfRegions > 0 && countersPerRegion > 0
      requires 0 < maxValue < Pow2(Pow2(wordLog))
      modifies this
      ensures Valid() && (data != null) == mapped
      ensures mapped ==> fresh(data)
      ensures mapped ==> regions == numberOfRegions && numCounters == countersPerRegion
      ensures mapped ==> maxValue <= counterMask
      ensures mapped ==> counters == Zeros(regions, numCounters)
    {
      regions := numberOfRegions;
      numCounters := countersPerRegion;
      SetCounterWidth(maxValue);
      sizePerRegion := CeilDiv(numCounters, Pow2(packingRatioLog));
      bufferNumElements := sizePerRegion * regions;
      if mapped {
        var buffer := new nat[bufferNumElements](_ => 0);
        counters := Zeros(regions, numCounters);
        ZeroEncodes(buffer[..], counters, Lay());
        data := buffer;
      } else {
        data := null;
      }
    }

    /** The part of `reset` that picks the counter width and the packing ratio. */
    method SetCounterWidth(maxValue: nat)
      requires 0 < maxValue < Pow2(Pow2(wordLog))
      modifies `counterSizeBitsLog, `counterMask, `packingRatioLog, `bitOffsetMask
      ensures maxValue <= counterMask == Pow2(Pow2(counterSizeBitsLog)) - 1
      ensures bitOffsetMask == Pow2(packingRatioLog) - 1
      ensures counterSizeBitsLog + packingRatioLog == wordLog
    {
      hide Pow2, Log2, Shr;
      WidthFits(maxValue, wordLog);
      var counterSizeBits := RoundUpPowerOfTwo(Log2(maxValue) + 1);
      var maxCounterBits := Pow2(wordLog);
      counterSizeBitsLog := Log2(counterSizeBits);
      Pow2Mono(counterSizeBitsLog, wordLog);
      AllOnesShifted(maxCounterBits, maxCounterBits - counterSizeBits);
      counterMask := Shr(Pow2(maxCounterBits) - 1, maxCounterBits - counterSizeBits);
      var packingRatio := Shr(maxCounterBits, counterSizeBitsLog);
      PackingRatio(wordLog, counterSizeBitsLog);
      packingRatioLog := Log2(packingRatio);
      bitOffsetMask := packingRatio - 1;
    }

    static lemma {:induction false} PackingRatio(wordLog: nat, sizeLog: nat)
      requires sizeLog <= wordLog
      ensures Shr(Pow2(wordLog), sizeLog) == Pow2(wordLog - sizeLog)
      ensures Log2(Pow2(wordLog - sizeLog)) == wordLog - sizeLog
    {
      ShlIsMul(Pow2(wordLog - sizeLog), sizeLog);
      Pow2Add(wordLog - sizeLog, sizeLog);
      Join(Pow2(wordLog - sizeLog), 0, sizeLog);
      Log2OfPow2(wordLog - sizeLog);
    }

    method Get(region: nat, i: nat) returns (count: nat)
      requires Valid() && data != null
      requires region < regions && i < numCounters
      ensures count == counters[region][i]
    {
      assert Holds(data[..], counters, Lay(), region, i);
      AndLowMask(i, packingRatioLog);
      var index := Shr(i, packingRatioLog);
      var bitOffset := Shl(BitAnd(i, bitOffsetMask), counterSizeBitsLog);
      var field := Shr(data[region * sizePerRegion + index], bitOffset);
      AndLowMask(field, Pow2(counterSizeBitsLog));
      count := BitAnd(field, counterMask);
    }

    method IncN(region: nat, i: nat, n: nat)
      requires Valid() && data != null
      requires region < regions && i < numCounters
      requires counters[region][i] + n <= counterMask
      modifies data, `counters
      ensures Valid()
      ensures counters == Bump(old(counters), region, i, n)
    {
      AddRefinesBump(data[..], counters, Lay(), region, i, n);
      AndLowMask(i, packingRatioLog);
      var index := Shr(i, packingRatioLog);
      var bitOffset := Shl(BitAnd(i, bitOffsetMask), counterSizeBitsLog);
      var slot := region * sizePerRegion + index;
      assert slot == Lay().Slot(region, i);
      counters := Bump(counters, region, i, n);
      data[slot] := data[slot] + Shl(n, bitOffset);
      assert data[..] == old(data[..])[slot := data[slot]];
    }

    method Inc(region: nat, i: nat)
      requires Valid() && data != null
      requires region < regions && i < numCounters
      requires counters[region][i] < counterMask
      modifies data, `counters
      ensures Valid()
      ensures counters == Bump(old(counters), region, i, 1)
    {
      IncN(region, i, 1);
    }

    /** Adds one to the counters `from` to `to`, as far as they exist. */
    method IncRange(region: nat, from: nat, to: nat)
      requires Valid() && data != null
      requires region < regions && from <= to
      requires forall i :: from <= i <= to && i < numCounters ==> counters[region][i] < counterMask
      modifies data, `counters
      ensures Valid()
      ensures counters == old(counters)[region := RowInc(old(counters)[region], from, to + 1)]
    {
      var top := Min(to + 1, numCounters);
      var i := from;
      ghost var row := counters[region];
      assert RowInc(row, from, from) == row;
      while i < top
        invariant from <= i && (i <= top || i == from)
        invariant Valid()
        invariant counters == old(counters)[region := RowInc(row, from, i)]
      {
        Inc(region, i);
        assert BumpRow(RowInc(row, from, i), i, 1) == RowInc(row, from, i + 1);
        i := i + 1;
      }
      assert RowInc(row, from, i) == RowInc(row, from, to + 1);
    }

    /** Raises a counter to the mask, the mark of an all-counted page. */
    method SetAsAllCounted(region: nat, i: nat)
      requires Valid() && data != null
      requires region < regions && i < numCounters
      modifies data, `counters
      ensures Valid()
      ensures counters == Put(old(counters), region, i, counterMask)
    {
      hide Pow2, Shl, Shr, BitAnd, BitOr, Low;
      assert Holds(data[..], counters, Lay(), region, i);
      AddRefinesBump(data[..], counters, Lay(), region, i, counterMask - counters[region][i]);
      AndLowMask(i, packingRatioLog);
      var index := Shr(i, packingRatioLog);
      var bitOffset := Shl(BitAnd(i, bitOffsetMask), counterSizeBitsLog);
      var slot := region * sizePerRegion + index;
      assert slot == Lay().Slot(region, i);
      OrFieldMask(data[slot], bitOffset, Pow2(counterSizeBitsLog));
      counters := Bump(counters, region, i, counterMask - counters[region][i]);
      data[slot] := BitOr(data[slot], Shl(counterMask, bitOffset));
      assert data[..] == old(data[..])[slot := data[slot]];
    }

    method SetAsAllCountedRange(region: nat, from: nat, to: nat)
      requires Valid() && data != null
      requires region < regions && from <= to
      modifies data, `counters
      ensures Valid()
      ensures counters == old(counters)[region := RowFill(old(counters)[region], from, to + 1, counterMask)]
    {
      var top := Min(to + 1, numCounters);
      var i := from;
      ghost var row := counters[region];
      assert RowFill(row, from, from, counterMask) == row;
      while i < top
        invariant from <= i && (i <= top || i == from)
        invariant Valid()
        invariant counters == old(counters)[region := RowFill(row, from, i, counterMask)]
      {
        SetAsAllCounted(region, i);
        assert PutRow(RowFill(row, from, i, counterMask), i, counterMask) == RowFill(row, from, i + 1, counterMask);
        i := i + 1;
      }
      assert RowFill(row, from, i, counterMask) == RowFill(row, from, to + 1, counterMask);
    }

    method UpdateAsAllCountedIf(region: nat, i: nat, maxCount: nat) returns (allCounted: bool)
      requires Valid() && data != null
      requires region < regions && i < numCounters
      modifies data, `counters
      ensures Valid()
      ensures allCounted <==> old(counters)[region][i] in {counterMask, maxCount}
      ensures counters == if allCounted then Put(old(counters), region, i, counterMask) else old(counters)
    {
      var count := Get(region, i);
      if count == counterMask {
        assert PutRow(counters[region], i, counterMask) == counters[region];
        return true;
      }
      if count == maxCount {
        SetAsAllCounted(region, i);
        return true;
      }
      return false;
    }
  }
}
