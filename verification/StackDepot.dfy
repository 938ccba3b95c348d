/** The stack trace depot of stack_depot.h: traces in a ring, found through a table
    indexed by their hash. */
module StackDepot {
  import opened Common
  import opened Bits

  const U32 := 0x1_0000_0000
  const U31 := 0x8000_0000

  /** `x & (2^log - 1)` */
  function Mask(x: nat, log: nat): (m: nat)
    ensures m == x % Pow2(log) && m < Pow2(log)
  {
    AndLowMask(x, log);
    LowIsMod(x, log);
    BitAnd(x, Pow2(log) - 1)
  }

  /** The hash builder: how it starts, takes one frame, and ends. */
  datatype Hasher = Hasher(init: nat, add: (nat, nat) -> nat, finish: nat -> nat)
  {
    function Feed(h: nat, frames: seq<nat>): nat {
      if frames == [] then h else add(Feed(h, frames[..|frames| - 1]), Key(frames[|frames| - 1]))
    }

    /** `u32(frame) >> 2` */
    static function Key(frame: nat): nat {
      frame % U32 / 4
    }

    function Hash(frames: seq<nat>): (h: nat)
      ensures h < U32
    {
      finish(Feed(init, frames)) % U32
    }
  }

  /** The hash takes bits 2 to 31 of a frame: not the lowest two, which are zero in
      aligned addresses, and none beyond 32. */
  lemma {:induction false} KeyBits(q: nat, low: nat, high: nat)
    requires q < 0x4000_0000 && low < 4
    ensures Hasher.Key(low + 4 * q + U32 * high) == q
  {
    ModUnique(low + 4 * q + U32 * high, U32, high, low + 4 * q);
  }

  /** The marker that precedes a trace in the ring. */
  function Id(size: nat, hash: nat): nat {
    size % U31 * 0x2_0000_0000 + hash * 2 + 1
  }

  lemma {:induction false} IdParts(size: nat, hash: nat)
    requires hash < U32
    ensures Id(size, hash) % 0x2_0000_0000 == hash * 2 + 1 && Id(size, hash) / 0x2_0000_0000 == size % U31
    ensures Id(size, hash) % 2 == 1
  {
    ModUnique(Id(size, hash), 0x2_0000_0000, size % U31, hash * 2 + 1);
  }

  lemma {:induction false} IdUnique(size: nat, hash: nat, size': nat, hash': nat)
    requires hash < U32 && hash' < U32 && Id(size, hash) == Id(size', hash')
    ensures hash == hash' && size % U31 == size' % U31
  {
    IdParts(size, hash);
    IdParts(size', hash');
  }

  /** The three fields that the accesses of a depot depend on, in 32 bits each. */
  datatype Shape = Shape(ringSize: nat, ringMask: nat, tabMask: nat)
  {
    static predicate PowerOfTwo(x: nat) {
      x != 0 && BitAnd(x, x - 1) == 0
    }

    /** isValid: whether a depot with `header` bytes of fields, its ring and its table
        fill a buffer. The subtractions look for underflow one by one. */
    predicate IsValid(header: nat, bufSize: nat) {
      var tabSize := (tabMask + 1) % U32;
      var ringBytes, tabBytes := 8 * ringSize, 4 * tabSize;
      && PowerOfTwo(ringSize) && (ringMask + 1) % U32 == ringSize
      && tabMask != 0 && PowerOfTwo(tabSize)
      && header <= bufSize && tabBytes <= bufSize - header
      && ringBytes <= bufSize - header - tabBytes && bufSize - header - tabBytes == ringBytes
    }

    /** A ring and a table with power-of-two sizes fill the buffer. */
    ghost predicate Fills(header: nat, bufSize: nat, ringLog: nat, tabLog: nat) {
      && this == Shape(Pow2(ringLog), Pow2(ringLog) - 1, Pow2(tabLog) - 1) && tabLog > 0 && Pow2(tabLog) < U32
      && bufSize == header + 8 * Pow2(ringLog) + 4 * Pow2(tabLog)
    }

    /** Accepted are exactly the shapes that fill the buffer, with a table of more than
        one slot. */
    lemma {:induction false} ValidIff(header: nat, bufSize: nat)
      requires ringSize < U32 && ringMask < U32 && tabMask < U32
      ensures IsValid(header, bufSize) <==> exists r: nat, t: nat :: Fills(header, bufSize, r, t)
    {
      hide Pow2, BitAnd;
      if IsValid(header, bufSize) {
        PowerOfTwoTest(ringSize);
        PowerOfTwoTest(tabMask + 1);
        var r: nat :| ringSize == Pow2(r);
        var t: nat :| tabMask + 1 == Pow2(t);
        OnlyOne(t);
        assert Fills(header, bufSize, r, t);
      }
      if r: nat, t: nat :| Fills(header, bufSize, r, t) {
        FillsIsValid(header, bufSize, r, t);
      }
    }

    lemma FillsIsValid(header: nat, bufSize: nat, r: nat, t: nat)
      requires ringSize < U32 && Fills(header, bufSize, r, t)
      ensures IsValid(header, bufSize)
    {
      hide Pow2, BitAnd;
      OnlyOne(t);
      PowerOfTwoTest(Pow2(r));
      PowerOfTwoTest(Pow2(t));
    }

    static lemma OnlyOne(t: nat)
      ensures Pow2(t) == 1 <==> t == 0
    {
    }

    /** In a valid depot no masked position leads out of the buffer. */
    lemma {:induction false} AccessesInBuffer(header: nat, bufSize: nat, ringPos: nat, hash: nat)
      requires ringSize < U32 && ringMask < U32 && tabMask < U32 && IsValid(header, bufSize)
      ensures header + 8 * BitAnd(ringPos, ringMask) + 8 <= header + 8 * ringSize
      ensures header + 8 * ringSize + 4 * BitAnd(hash, tabMask) + 4 <= bufSize
    {
      hide Pow2, BitAnd, IsValid;
      ValidIff(header, bufSize);
      var r: nat, t: nat :| Fills(header, bufSize, r, t);
      MaskBelow(ringPos, r);
      MaskBelow(hash, t);
    }

    static lemma MaskBelow(x: nat, log: nat)
      ensures Pow2(log) > 0 && BitAnd(x, Pow2(log) - 1) < Pow2(log)
    {
      hide Pow2, BitAnd;
      assert Mask(x, log) == BitAnd(x, Pow2(log) - 1);
    }
  }

  /** `n` values of a ring from position `pos` on. */
  function Read(ring: seq<nat>, pos: nat, n: nat): (r: seq<nat>)
    requires ring != []
    ensures |r| == n
  {
    if n == 0 then [] else Read(ring, pos, n - 1) + [ring[(pos + n - 1) % |ring|]]
  }

  lemma {:induction false} ReadAt(ring: seq<nat>, pos: nat, n: nat, i: nat)
    requires ring != [] && i < n
    ensures Read(ring, pos, n)[i] == ring[(pos + i) % |ring|]
  {
    if i < n - 1 {
      ReadAt(ring, pos, n - 1, i);
    }
  }

  /** The ring holds the newest values of the log of all writes. */
  ghost predicate HoldsLog(ring: seq<nat>, log: seq<nat>) {
    ring != [] && forall k :: 0 <= k < |log| && k + |ring| >= |log| ==> ring[k % |ring|] == log[k]
  }

  lemma {:induction false} LogWrite(ring: seq<nat>, log: seq<nat>, x: nat)
    requires HoldsLog(ring, log)
    ensures HoldsLog(ring[|log| % |ring| := x], log + [x])
  {
    var n, log' := |ring|, log + [x];
    forall k | 0 <= k < |log'| && k + n >= |log'| ensures ring[|log| % n := x][k % n] == log'[k] {
      if k < |log| {
        DifferentSlots(k, |log|, n);
      }
    }
  }

  lemma SlotHolds(ring: seq<nat>, log: seq<nat>, k: nat)
    requires HoldsLog(ring, log) && k < |log| <= k + |ring|
    ensures ring[k % |ring|] == log[k]
  {
  }

  lemma {:induction false} DifferentSlots(k: nat, m: nat, n: nat)
    requires n > 0 && k < m < k + n
    ensures k % n != m % n
  {
    DivBounds(k, n);
    DivBounds(m, n);
    if k % n == m % n {
      assert m - k == (m / n - k / n) * n;
      if m / n - k / n >= 1 {
        MulMono(1, m / n - k / n, n);
      } else {
        MulMono(m / n - k / n, 0, n);
      }
    }
  }

  /** Recent values of the log can be read back from the ring. */
  lemma {:induction false} ReadLog(ring: seq<nat>, log: seq<nat>, k: nat, n: nat, pos: nat)
    requires HoldsLog(ring, log) && k + n <= |log| <= k + |ring| && pos % |ring| == k % |ring|
    ensures Read(ring, pos, n) == log[k..k + n]
  {
    forall i | 0 <= i < n ensures Read(ring, pos, n)[i] == log[k + i] {
      ReadAt(ring, pos, n, i);
      SameOffset(pos, k, i, |ring|);
    }
  }

  lemma {:induction false} SameOffset(x: nat, y: nat, i: nat, n: nat)
    requires n > 0 && x % n == y % n
    ensures (x + i) % n == (y + i) % n
  {
    OffsetFromRemainder(x, i, n);
    OffsetFromRemainder(y, i, n);
  }

  lemma OffsetFromRemainder(x: nat, i: nat, n: nat)
    requires n > 0
    ensures (x + i) % n == (x % n + i) % n
  {
    var r, q := x % n, x / n;
    assert x == r + q * n;
    DivAddMul(r + i, q, n);
  }

  /** What has been written so far. `traces` gives, for each place in the log where an
      insertion began, the trace it inserted. */
  datatype History = History(log: seq<nat>, traces: map<nat, seq<nat>>)
  {
    /** Where a trace begins, the log has its marker and then its frames. */
    ghost predicate Recorded(h: Hasher, k: nat) {
      && k in traces && k + 1 + |traces[k]| <= |log|
      && log[k] == Id(|traces[k]|, h.Hash(traces[k])) && log[k + 1..k + 1 + |traces[k]|] == traces[k]
    }

    ghost predicate Valid(h: Hasher) {
      forall k :: k in traces ==> Recorded(h, k)
    }

    /** Odd values in the log are markers. It is so as long as no frame is odd. */
    ghost predicate OnlyMarkersOdd() {
      forall k :: 0 <= k < |log| && log[k] % 2 == 1 ==> k in traces
    }

    /** No two of the traces inserted have the same hash and size, modulo 2^31, by
        chance; nor has `trace`. */
    ghost predicate NoCollision(h: Hasher, trace: seq<nat>) {
      forall k :: k in traces && h.Hash(traces[k]) == h.Hash(trace) && |traces[k]| % U31 == |trace| % U31
        ==> traces[k] == trace
    }
  }

  ghost predicate EvenFrames(trace: seq<nat>) {
    forall i :: 0 <= i < |trace| ==> trace[i] % 2 == 0
  }

  /** The history after one more insertion. */
  function Extend(hist: History, h: Hasher, trace: seq<nat>): History {
    History(hist.log + [Id(|trace|, h.Hash(trace))] + trace, hist.traces[|hist.log| := trace])
  }

  lemma {:induction false} ExtendValid(hist: History, h: Hasher, trace: seq<nat>)
    requires hist.Valid(h)
    ensures Extend(hist, h, trace).Valid(h)
  {
    hide Id, Hasher.Hash, History.Recorded;
    var n, e := |hist.log|, Extend(hist, h, trace);
    forall k | k in e.traces ensures e.Recorded(h, k) {
      if k == n {
        NewRecorded(hist, h, trace);
      } else {
        StillRecorded(hist, h, trace, k);
      }
    }
  }

  lemma {:induction false} ExtendOnlyMarkersOdd(hist: History, h: Hasher, trace: seq<nat>)
    requires hist.OnlyMarkersOdd() && EvenFrames(trace)
    ensures Extend(hist, h, trace).OnlyMarkersOdd()
  {
    hide Id, Hasher.Hash;
    var n, e := |hist.log|, Extend(hist, h, trace);
    assert forall j :: n < j < |e.log| ==> e.log[j] == trace[j - n - 1];
    forall k | 0 <= k < |e.log| && e.log[k] % 2 == 1 ensures k in e.traces {
      assert k < n ==> e.log[k] == hist.log[k];
    }
  }

  lemma {:induction false} StillRecorded(hist: History, h: Hasher, trace: seq<nat>, k: nat)
    requires hist.Recorded(h, k)
    ensures k < |hist.log| && Extend(hist, h, trace).Recorded(h, k)
  {
    hide Id, Hasher.Hash;
    var t, log := hist.traces[k], Extend(hist, h, trace).log;
    assert log[..|hist.log|] == hist.log;
    assert log[k + 1..k + 1 + |t|] == log[..|hist.log|][k + 1..k + 1 + |t|];
  }

  lemma {:induction false} NewRecorded(hist: History, h: Hasher, trace: seq<nat>)
    ensures Extend(hist, h, trace).Recorded(h, |hist.log|)
  {
    hide Id, Hasher.Hash;
  }

  ghost predicate ZerosFrom(ring: seq<nat>, m: nat) {
    forall p :: m <= p < |ring| ==> ring[p] == 0
  }

  /** The ring after `values` were written, slot after slot from `pos` on. */
  function Written(ring: seq<nat>, pos: nat, values: seq<nat>): (r: seq<nat>)
    requires ring != []
    ensures |r| == |ring|
  {
    if values == [] then ring
    else
      var n := |values| - 1;
      Written(ring, pos, values[..n])[(pos + n) % |ring| := values[n]]
  }

  lemma WrittenNext(ring: seq<nat>, pos: nat, values: seq<nat>, i: nat)
    requires ring != [] && i < |values|
    ensures Written(ring, pos, values[..i + 1]) == Written(ring, pos, values[..i])[(pos + i) % |ring| := values[i]]
    ensures Written(ring, pos, values[..0]) == ring && values[..|values|] == values
  {
    assert values[..i + 1][..i] == values[..i];
  }

  /** Writing from the end of the log on appends to the log. */
  lemma {:induction false} WrittenLog(ring: seq<nat>, log: seq<nat>, pos: nat, values: seq<nat>)
    requires HoldsLog(ring, log) && ZerosFrom(ring, |log|) && pos == |log| % |ring|
    ensures var r := Written(ring, pos, values);
      HoldsLog(r, log + values) && ZerosFrom(r, |log + values|)
  {
    NotEmptyRing(ring, log);
    hide HoldsLog, ZerosFrom;
    if values == [] {
      assert log + values == log;
    } else {
      var n := |values| - 1;
      WrittenLog(ring, log, pos, values[..n]);
      assert log + values == (log + values[..n]) + [values[n]];
      OffsetFromRemainder(|log|, n, |ring|);
      NextWrite(Written(ring, pos, values[..n]), log + values[..n], values[n], (pos + n) % |ring|);
    }
  }

  /** One write into the next slot. */
  lemma {:induction false} NextWrite(ring: seq<nat>, log: seq<nat>, x: nat, p: nat)
    requires HoldsLog(ring, log) && ZerosFrom(ring, |log|) && ring != [] && p == |log| % |ring|
    ensures HoldsLog(ring[p := x], log + [x]) && ZerosFrom(ring[p := x], |log| + 1)
  {
    LogWrite(ring, log, x);
    hide HoldsLog;
    assert |log| < |ring| ==> p == |log|;
  }

  /** The ring and the end of what was written tell the history. */
  ghost predicate Logged(h: Hasher, ring: seq<nat>, ringEnd: nat, hist: History) {
    HoldsLog(ring, hist.log) && ringEnd == |hist.log| % |ring| && hist.Valid(h) && ZerosFrom(ring, |hist.log|)
  }

  /** The table leads to the trace that was inserted at `k`, and none of its slots in a
      ring of size `n` has been written again. */
  ghost predicate PresentIn(h: Hasher, hist: History, n: nat, tab: seq<nat>, k: nat)
    requires n > 0 && tab != []
  {
    && k in hist.traces && |hist.log| <= k + n
    && tab[h.Hash(hist.traces[k]) % |tab|] == k % n
  }

  /** The ring after an insertion tells the history after it. */
  lemma {:induction false} StaysLogged(h: Hasher, ring: seq<nat>, ringEnd: nat, hist: History, trace: seq<nat>)
    requires Logged(h, ring, ringEnd, hist)
    ensures Logged(h, Written(ring, ringEnd, [Id(|trace|, h.Hash(trace))] + trace), (ringEnd + |trace| + 1) % |ring|,
                   Extend(hist, h, trace))
  {
    hide HoldsLog, ZerosFrom, History.Valid, Id, Hasher.Hash, Written;
    assert ring != [] by { NotEmptyRing(ring, hist.log); }
    var values := [Id(|trace|, h.Hash(trace))] + trace;
    WrittenLog(ring, hist.log, ringEnd, values);
    assert hist.log + values == Extend(hist, h, trace).log;
    OffsetFromRemainder(|hist.log|, |trace| + 1, |ring|);
    ExtendValid(hist, h, trace);
  }

  lemma NotEmptyRing(ring: seq<nat>, log: seq<nat>)
    requires HoldsLog(ring, log)
    ensures ring != []
  {
  }

  /** The trace just inserted is present. */
  lemma {:induction false} NewlyPresent(h: Hasher, hist: History, n: nat, tab: seq<nat>, ringEnd: nat, trace: seq<nat>)
    requires n > 0 && tab != [] && ringEnd == |hist.log| % n && |trace| < n
    ensures PresentIn(h, Extend(hist, h, trace), n, tab[h.Hash(trace) % |tab| := ringEnd], |hist.log|)
  {
    hide Id, Hasher.Hash;
  }

  /** A trace that is present stays present through an insertion exactly if the ring does
      not come around to its marker and its place in the table is not taken. */
  lemma {:induction false} StaysPresent(h: Hasher, hist: History, n: nat, tab: seq<nat>, ringEnd: nat, trace: seq<nat>, k: nat)
    requires n > 0 && tab != [] && ringEnd == |hist.log| % n && hist.Valid(h) && PresentIn(h, hist, n, tab, k)
    ensures var after := Extend(hist, h, trace);
      && k in after.traces && after.traces[k] == hist.traces[k]
      && (PresentIn(h, after, n, tab[h.Hash(trace) % |tab| := ringEnd], k)
          <==> |after.log| <= k + n && h.Hash(trace) % |tab| != h.Hash(hist.traces[k]) % |tab|)
  {
    hide Id, Hasher.Hash;
    assert hist.Recorded(h, k);
    if |hist.log| < k + n {
      DifferentSlots(k, |hist.log|, n);
    }
  }

  /** A recorded trace is read from the ring until it is overwritten. */
  lemma {:induction false} ReadRecorded(h: Hasher, ring: seq<nat>, hist: History, k: nat)
    requires HoldsLog(ring, hist.log) && hist.Recorded(h, k) && ring != [] && |hist.log| <= k + |ring|
    ensures ring[k % |ring|] == Id(|hist.traces[k]|, h.Hash(hist.traces[k]))
    ensures Read(ring, (k % |ring| + 1) % |ring|, |hist.traces[k]|) == hist.traces[k]
  {
    hide Id, Hasher.Hash, HoldsLog, Read;
    SlotHolds(ring, hist.log, k);
    SameSlot(k, |ring|);
    ReadLog(ring, hist.log, k + 1, |hist.traces[k]|, (k % |ring| + 1) % |ring|);
  }

  lemma SameSlot(k: nat, n: nat)
    requires n > 0
    ensures (k % n + 1) % n % n == (k + 1) % n
  {
    OffsetFromRemainder(k, 1, n);
    Twice(k % n + 1, n);
  }

  lemma Twice(x: nat, n: nat)
    requires n > 0
    ensures x % n % n == x % n
  {
    ModUnique(x % n, n, 0, x % n);
  }

  /** Traces stay present from one state to the next unless the ring has come around to
      their marker or the place `slot` of the table, which an insertion took, is theirs. */
  ghost predicate KeepsPresent(h: Hasher, before: History, tab: seq<nat>, after: History, tab': seq<nat>, n: nat, slot: nat)
    requires n > 0 && tab != [] && tab' != []
  {
    forall k: nat :: (PresentIn(h, before, n, tab, k) && |after.log| <= k + n && h.Hash(before.traces[k]) % |tab| != slot)
      ==> PresentIn(h, after, n, tab', k) && after.traces[k] == before.traces[k]
  }

  lemma {:induction false} InsertKeepsPresent(h: Hasher, hist: History, n: nat, tab: seq<nat>, ringEnd: nat, trace: seq<nat>)
    requires n > 0 && tab != [] && ringEnd == |hist.log| % n && hist.Valid(h)
    ensures var slot := h.Hash(trace) % |tab|;
      KeepsPresent(h, hist, tab, Extend(hist, h, trace), tab[slot := ringEnd], n, slot)
  {
    hide Id, Hasher.Hash, PresentIn, History.Valid, Extend;
    var slot, after := h.Hash(trace) % |tab|, Extend(hist, h, trace);
    forall k: nat | PresentIn(h, hist, n, tab, k)
      ensures k in hist.traces && k in after.traces && after.traces[k] == hist.traces[k]
      ensures PresentIn(h, after, n, tab[slot := ringEnd], k) <==> |after.log| <= k + n && slot != h.Hash(hist.traces[k]) % |tab|
    {
      HasTrace(h, hist, n, tab, k);
      StaysPresent(h, hist, n, tab, ringEnd, trace, k);
    }
  }

  lemma HasTrace(h: Hasher, hist: History, n: nat, tab: seq<nat>, k: nat)
    requires n > 0 && tab != [] && PresentIn(h, hist, n, tab, k)
    ensures k in hist.traces
  {
  }

  class Depot {
    const ringLog: nat
    const tabLog: nat
    const hasher: Hasher
    const ring: array<nat>
    const tab: array<nat>
    var ringEnd: nat
    ghost var hist: History

    /** The sizes that isValid checks. */
    predicate Sized() {
      ring.Length == Pow2(ringLog) && tab.Length == Pow2(tabLog)
    }

    /** What insert relies on, whatever the ring holds. */
    ghost predicate WellFormed()
      reads this, tab
    {
      ring != tab && Sized() && ringEnd < ring.Length && forall i :: 0 <= i < tab.Length ==> tab[i] < ring.Length
    }

    /** The ring tells what was inserted. */
    ghost predicate Valid()
      reads this, ring, tab
    {
      WellFormed() && Logged(hasher, ring[..], ringEnd, hist)
    }

    constructor (ringLog: nat, tabLog: nat, hasher: Hasher)
      ensures Valid() && hist.OnlyMarkersOdd() && fresh(ring) && fresh(tab) && hist == History([], map[])
      ensures this.ringLog == ringLog && this.tabLog == tabLog && this.hasher == hasher
    {
      this.ringLog, this.tabLog, this.hasher := ringLog, tabLog, hasher;
      ring := new nat[Pow2(ringLog)](_ => 0);
      tab := new nat[Pow2(tabLog)](_ => 0);
      ringEnd := 0;
      hist := History([], map[]);
    }

    ghost predicate Present(k: nat)
      requires ring.Length > 0 && tab.Length > 0
      reads this, ring, tab
    {
      PresentIn(hasher, hist, ring.Length, tab[..], k)
    }

    /** find: reports a trace exactly if the table leads to a marker of the hash asked
        for, of a size the ring can hold, and the frames behind it have that hash,
        whatever ring and table hold. */
    method Find(hash: nat) returns (found: bool, ringPos: nat, size: nat)
      requires Sized() && hash < U32
      ensures ring.Length > 0 && tab.Length > 0
      ensures found <==> (Entry(hash) && EntrySize(hash) < ring.Length &&
                          hasher.Hash(Read(ring[..], EntryPos(hash), EntrySize(hash))) == hash)
      ensures found ==> ringPos == EntryPos(hash) && size == EntrySize(hash)
      ensures Valid() ==> forall k :: k in hist.traces && Present(k) && hasher.Hash(hist.traces[k]) == hash && |hist.traces[k]| < Min(ring.Length, U31) ==>
        found && Read(ring[..], ringPos, size) == hist.traces[k]
    {
      hide Id, Hasher.Hash, Pow2, Logged;
      found, ringPos, size := false, 0, 0;
      assert ring.Length > 0 && tab.Length > 0;
      forall k | Valid() && k in hist.traces && Present(k) && hasher.Hash(hist.traces[k]) == hash && |hist.traces[k]| < Min(ring.Length, U31)
        ensures Entry(hash) && EntrySize(hash) == |hist.traces[k]|
        ensures Read(ring[..], EntryPos(hash), |hist.traces[k]|) == hist.traces[k]
      {
        PresentFound(k);
      }
      var pos := Mask(hash, tabLog);
      var at := tab[pos];
      if at >= ring.Length {
        return;
      }
      var entry := ring[at];
      var hashWithTagBit := hash * 2 + 1;
      if entry % 0x2_0000_0000 != hashWithTagBit {
        return;
      }
      size := entry / 0x2_0000_0000;
      if size >= ring.Length {
        return;
      }
      ringPos := Mask(at + 1, ringLog);
      var h := HashRing(ringPos, size);
      found := h == hash;
    }

    /** The loop of find over the frames in the ring. */
    method HashRing(ringPos: nat, size: nat) returns (h: nat)
      requires ring.Length == Pow2(ringLog)
      ensures h == hasher.Hash(Read(ring[..], ringPos, size))
    {
      var state := hasher.init;
      for i := 0 to size
        invariant state == hasher.Feed(hasher.init, Read(ring[..], ringPos, i))
      {
        assert Read(ring[..], ringPos, i + 1)[..i] == Read(ring[..], ringPos, i);
        state := hasher.add(state, Hasher.Key(ring[Mask(ringPos + i, ringLog)]));
      }
      h := hasher.finish(state) % U32;
    }

    /** What find reads for a hash: the table leads to a marker of that hash. */
    ghost predicate Entry(hash: nat)
      requires ring.Length > 0 && tab.Length > 0
      reads this, ring, tab
    {
      var at := tab[hash % tab.Length];
      at < ring.Length && ring[at] % 0x2_0000_0000 == hash * 2 + 1
    }

    ghost function EntrySize(hash: nat): nat
      requires ring.Length > 0 && tab.Length > 0 && Entry(hash)
      reads this, ring, tab
    {
      ring[tab[hash % tab.Length]] / 0x2_0000_0000
    }

    ghost function EntryPos(hash: nat): nat
      requires ring.Length > 0 && tab.Length > 0 && Entry(hash)
      reads this, ring, tab
    {
      (tab[hash % tab.Length] + 1) % ring.Length
    }

    lemma {:induction false} PresentFound(k: nat)
      requires Valid() && k in hist.traces && Present(k) && |hist.traces[k]| < Min(ring.Length, U31)
      ensures var trace := hist.traces[k];
        var hash := hasher.Hash(trace);
        && Entry(hash) && EntrySize(hash) == |trace|
        && Read(ring[..], EntryPos(hash), |trace|) == trace
    {
      hide Pow2, Id, Hasher.Hash, HoldsLog, ZerosFrom, Read;
      var trace := hist.traces[k];
      assert hist.Recorded(hasher, k);
      hide History.Valid, History.Recorded;
      ReadRecorded(hasher, ring[..], hist, k);
      IdParts(|trace|, hasher.Hash(trace));
    }

    /** insert: unless the table already leads to a marker of the trace, the trace is
        written behind the last one, and the table leads to it. A trace that was present
        before stays so until the ring has come around to its marker, or its place in
        the table is taken. */
    method Insert(trace: seq<nat>) returns (hash: nat)
      requires WellFormed()
      modifies this`ringEnd, this`hist, ring, tab
      ensures WellFormed() && hash == hasher.Hash(trace)
      ensures var at := hash % tab.Length;
        if old(ring[tab[at]]) == Id(|trace|, hash) then
          ring[..] == old(ring[..]) && tab[..] == old(tab[..]) && ringEnd == old(ringEnd) && hist == old(hist)
        else
          && ring[..] == Written(old(ring[..]), old(ringEnd), [Id(|trace|, hash)] + trace)
          && ringEnd == (old(ringEnd) + |trace| + 1) % ring.Length
          && tab[..] == old(tab[..])[at := old(ringEnd)] && hist == Extend(old(hist), hasher, trace)
      ensures old(Valid()) ==> Valid()
      ensures old(hist.OnlyMarkersOdd()) && EvenFrames(trace) ==> hist.OnlyMarkersOdd()
      ensures old(Valid()) && hist != old(hist) && |trace| < ring.Length ==>
        Present(|old(hist).log|) && hist.traces[|old(hist).log|] == trace
      ensures old(Valid() && hist.OnlyMarkersOdd() && hist.NoCollision(hasher, trace)) && |trace| < Min(ring.Length, U31) ==>
        exists k :: Present(k) && hist.traces[k] == trace
      ensures old(Valid()) && hist != old(hist) ==>
        KeepsPresent(hasher, old(hist), old(tab[..]), hist, tab[..], ring.Length, hash % tab.Length)
    {
      hide Id, Hasher.Hash, Logged, History.NoCollision, History.OnlyMarkersOdd, History.Valid, Written, PresentIn, KeepsPresent, Extend;
      NotEmpty();
      hide Pow2;
      hash := HashTrace(trace);
      var pos := Mask(hash, tabLog);
      var id := Id(|trace|, hash);
      if ring[tab[pos]] == id {
        if Valid() && hist.OnlyMarkersOdd() && hist.NoCollision(hasher, trace) && |trace| < Min(ring.Length, U31) {
          AlreadyThere(trace, tab[pos]);
        }
        return;
      }
      InsertFacts(hasher, ring[..], ringEnd, hist, tab[..], trace);
      tab[pos] := ringEnd;
      Write(id, trace);
      hist := Extend(hist, hasher, trace);
    }

    lemma NotEmpty()
      requires Sized()
      ensures ring.Length > 0 && tab.Length > 0
    {
    }

    /** Any number of insertions: a trace that is present stays so until the ring has come
        around to its marker, or one of them takes its place in the table. */
    method InsertAll(traces: seq<seq<nat>>, ghost k: nat)
      requires Valid() && Present(k)
      modifies this`ringEnd, this`hist, ring, tab
      ensures Valid() && |old(hist).log| <= |hist.log|
      ensures (|hist.log| <= k + ring.Length && forall i :: 0 <= i < |traces| ==> OtherPlace(traces[i], old(hist.traces[k])))
        ==> Present(k) && hist.traces[k] == old(hist.traces[k])
    {
      hide Id, Hasher.Hash, Logged, Written, PresentIn, Pow2, OtherPlace;
      Traced(k);
      ghost var trace := hist.traces[k];
      for i := 0 to |traces|
        invariant Valid() && |old(hist).log| <= |hist.log|
        invariant (|hist.log| <= k + ring.Length && forall j :: 0 <= j < i ==> OtherPlace(traces[j], trace))
          ==> Present(k) && k in hist.traces && hist.traces[k] == trace
      {
        InsertBeside(traces[i], k, trace);
      }
    }

    /** Whether two traces have different places in the table. */
    ghost predicate OtherPlace(x: seq<nat>, y: seq<nat>)
      requires tab.Length > 0
    {
      hasher.Hash(x) % tab.Length != hasher.Hash(y) % tab.Length
    }

    lemma Traced(k: nat)
      requires Sized() && Present(k)
      ensures k in hist.traces
    {
    }

    method InsertBeside(x: seq<nat>, ghost k: nat, ghost trace: seq<nat>)
      requires Valid()
      modifies this`ringEnd, this`hist, ring, tab
      ensures Valid() && |old(hist).log| <= |hist.log|
      ensures (old(Present(k)) && k in old(hist).traces && old(hist).traces[k] == trace && |hist.log| <= k + ring.Length
               && OtherPlace(x, trace))
        ==> Present(k) && k in hist.traces && hist.traces[k] == trace
    {
      hide Id, Hasher.Hash, Logged, Written, PresentIn, Pow2;
      var hash := Insert(x);
      if Present(k) {
        Traced(k);
      }
    }

    /** A trace shorter than the ring that was inserted is found frame by frame, whatever
        was inserted after it, until the ring has come around to its marker or its place
        in the table was taken. `k` is where the insertion wrote it, or where it was. */
    method FindAfter(trace: seq<nat>, others: seq<seq<nat>>) returns (found: bool, ringPos: nat, size: nat, ghost k: nat)
      requires Valid() && hist.OnlyMarkersOdd() && hist.NoCollision(hasher, trace) && |trace| < Min(ring.Length, U31)
      modifies this`ringEnd, this`hist, ring, tab
      ensures Valid()
      ensures k == |old(hist).log| || (old(Present(k)) && k in old(hist).traces && old(hist).traces[k] == trace)
      ensures (|hist.log| <= k + ring.Length && forall i :: 0 <= i < |others| ==> OtherPlace(others[i], trace))
        ==> found && Read(ring[..], ringPos, size) == trace
    {
      hide Id, Hasher.Hash, Logged, Written, Pow2, OtherPlace, KeepsPresent, History.NoCollision, History.OnlyMarkersOdd;
      var hash := Insert(trace);
      if hist != old(hist) {
        k := |old(hist).log|;
      } else {
        k :| Present(k) && hist.traces[k] == trace;
      }
      InsertAll(others, k);
      found, ringPos, size := Find(hash);
    }

    /** What an insertion that writes does to the history and to present traces. */
    static lemma {:induction false} InsertFacts(h: Hasher, ring: seq<nat>, ringEnd: nat, hist: History, tab: seq<nat>, trace: seq<nat>)
      requires ring != [] && tab != []
      ensures var after, tab' := Extend(hist, h, trace), tab[h.Hash(trace) % |tab| := ringEnd];
        && |hist.log| in after.traces && after.traces[|hist.log|] == trace
        && (hist.OnlyMarkersOdd() && EvenFrames(trace) ==> after.OnlyMarkersOdd())
        && (Logged(h, ring, ringEnd, hist) ==>
              && Logged(h, Written(ring, ringEnd, [Id(|trace|, h.Hash(trace))] + trace), (ringEnd + |trace| + 1) % |ring|, after)
              && (|trace| < |ring| ==> PresentIn(h, after, |ring|, tab', |hist.log|))
              && KeepsPresent(h, hist, tab, after, tab', |ring|, h.Hash(trace) % |tab|))
    {
      hide Id, Hasher.Hash, HoldsLog, ZerosFrom, History.OnlyMarkersOdd, History.Valid, Written, KeepsPresent, PresentIn;
      if hist.OnlyMarkersOdd() && EvenFrames(trace) {
        ExtendOnlyMarkersOdd(hist, h, trace);
      }
      if Logged(h, ring, ringEnd, hist) {
        StaysLogged(h, ring, ringEnd, hist, trace);
        InsertKeepsPresent(h, hist, |ring|, tab, ringEnd, trace);
        if |trace| < |ring| {
          NewlyPresent(h, hist, |ring|, tab, ringEnd, trace);
        }
      }
    }

    method HashTrace(trace: seq<nat>) returns (hash: nat)
      ensures hash == hasher.Hash(trace)
    {
      var state := hasher.init;
      for i := 0 to |trace|
        invariant state == hasher.Feed(hasher.init, trace[..i])
      {
        assert trace[..i + 1][..i] == trace[..i];
        state := hasher.add(state, Hasher.Key(trace[i]));
      }
      assert trace[..|trace|] == trace;
      hash := hasher.finish(state) % U32;
    }

    /** Writes a marker and the frames, slot after slot around the ring. */
    method Write(id: nat, trace: seq<nat>)
      requires ring.Length == Pow2(ringLog) && ringEnd < ring.Length
      modifies this`ringEnd, ring
      ensures ring[..] == Written(old(ring[..]), old(ringEnd), [id] + trace)
      ensures ringEnd == (old(ringEnd) + |trace| + 1) % ring.Length
    {
      hide Pow2, Written;
      ghost var r, values := ring[..], [id] + trace;
      var p := ringEnd;
      ModUnique(p, ring.Length, 0, p);
      WrittenNext(r, ringEnd, values, 0);
      PutSlot(p, id);
      for i := 0 to |trace|
        invariant ringEnd == old(ringEnd)
        invariant ring[..] == Written(r, ringEnd, values[..i + 1]) && p == (ringEnd + i) % ring.Length
      {
        WrittenNext(r, ringEnd, values, i + 1);
        p := NextSlot(p, ringEnd + i);
        PutSlot(p, trace[i]);
      }
      ringEnd := NextSlot(p, ringEnd + |trace|);
    }

    method PutSlot(p: nat, x: nat)
      requires p < ring.Length
      modifies ring
      ensures ring[..] == old(ring[..])[p := x]
    {
      ring[p] := x;
    }

    method NextSlot(p: nat, ghost k: nat) returns (next: nat)
      requires ring.Length == Pow2(ringLog) && p == k % ring.Length
      ensures next == (k + 1) % ring.Length
    {
      hide Pow2;
      OffsetFromRemainder(k, 1, ring.Length);
      next := Mask(p + 1, ringLog);
    }

    /** The newest write to a slot that holds a marker. */
    lemma {:induction false} LastWrite(at: nat) returns (k: nat)
      requires Valid() && at < ring.Length && ring[at] != 0
      ensures k < |hist.log| <= k + ring.Length && k % ring.Length == at && hist.log[k] == ring[at]
    {
      hide Pow2, History.Valid;
      var n, m := ring.Length, |hist.log|;
      if at < m {
        k := at + (m - 1 - at) / n * n;
        DivBounds(m - 1 - at, n);
        ModUnique(k, n, (m - 1 - at) / n, at);
        assert ring[..][k % n] == hist.log[k];
      }
    }

    /** If the table leads to the marker of a trace, the trace is there. */
    lemma {:induction false} AlreadyThere(trace: seq<nat>, at: nat)
      requires Valid() && hist.OnlyMarkersOdd() && hist.NoCollision(hasher, trace) && at < ring.Length
      requires at == tab[hasher.Hash(trace) % tab.Length] && ring[at] == Id(|trace|, hasher.Hash(trace))
      ensures exists k :: Present(k) && hist.traces[k] == trace
    {
      hide Id, Hasher.Hash, Pow2, HoldsLog, ZerosFrom;
      var hash := hasher.Hash(trace);
      IdParts(|trace|, hash);
      var k := LastWrite(at);
      assert hist.log[k] % 2 == 1;
      assert hist.Recorded(hasher, k);
      IdUnique(|trace|, hash, |hist.traces[k]|, hasher.Hash(hist.traces[k]));
      assert hist.traces[k] == trace;
    }
  }
}
