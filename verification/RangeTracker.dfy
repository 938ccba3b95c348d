/** FreePagesRangeTracker and RegionReleaseRecorder of release.h: turning a page by
    page verdict into the page ranges handed to the operating system. */
module RangeTracker {
  import opened Common

  type Range = (nat, nat)  // pages [from, to)

  ghost predicate Covers(ranges: seq<Range>, j: nat) {
    exists i :: 0 <= i < |ranges| && ranges[i].0 <= j < ranges[i].1
  }

  /** `ranges` are the maximal runs of `true` in `flags`, in increasing order. */
  ghost predicate Runs(flags: seq<bool>, ranges: seq<Range>) {
    && (forall i :: 0 <= i < |ranges| ==> ranges[i].0 < ranges[i].1 <= |flags|)
    && (forall i :: 0 < i < |ranges| ==> ranges[i - 1].1 < ranges[i].0)
    && (forall j :: 0 <= j < |flags| ==> (flags[j] <==> Covers(ranges, j)))
  }

  function CountTrue(flags: seq<bool>): nat {
    if flags == [] then 0
    else CountTrue(flags[..|flags| - 1]) + (if flags[|flags| - 1] then 1 else 0)
  }

  /** The runs of a flag sequence are determined by it: no other list of separated
      ranges covers the same pages. */
  lemma {:induction false} RunsUnique(flags: seq<bool>, r: seq<Range>, s: seq<Range>)
    requires Runs(flags, r) && Runs(flags, s)
    ensures r == s
    decreases |r|
  {
    EmptyRuns(flags, r, s);
    if r != [] {
      hide Runs, Covers;
      LastRunAgrees(flags, r, s);
      var n, m := |r| - 1, |s| - 1;
      InitialRuns(flags, r);
      InitialRuns(flags, s);
      RunsUnique(flags[..r[n].0], r[..n], s[..m]);
      assert r == r[..n] + [r[n]];
    }
  }

  lemma {:induction false} EmptyRuns(flags: seq<bool>, r: seq<Range>, s: seq<Range>)
    requires Runs(flags, r) && Runs(flags, s)
    ensures r == [] <==> s == []
  {
    if r == [] && s != [] {
      assert Covers(s, s[0].0);
    }
    if s == [] && r != [] {
      assert Covers(r, r[0].0);
    }
  }

  lemma {:induction false} Ordered(flags: seq<bool>, r: seq<Range>, i: nat, k: nat)
    requires Runs(flags, r) && i < k < |r|
    ensures r[i].1 < r[k].0
    decreases k - i
  {
    if i + 1 < k {
      Ordered(flags, r, i + 1, k);
    }
  }

  lemma {:induction false} InitialRuns(flags: seq<bool>, r: seq<Range>)
    requires Runs(flags, r) && r != []
    ensures r[|r| - 1].0 <= |flags|
    ensures Runs(flags[..r[|r| - 1].0], r[..|r| - 1])
  {
    var n := |r| - 1;
    forall i | 0 <= i < n ensures r[i].1 <= r[n].0 {
      Ordered(flags, r, i, n);
    }
    forall j | 0 <= j < r[n].0
      ensures Covers(r, j) <==> Covers(r[..n], j)
    {
      if Covers(r, j) {
        var i :| 0 <= i < |r| && r[i].0 <= j < r[i].1;
        assert r[..n][i] == r[i];
      }
    }
  }

  lemma {:induction false} LastRunAgrees(flags: seq<bool>, r: seq<Range>, s: seq<Range>)
    requires Runs(flags, r) && Runs(flags, s) && r != [] && s != []
    ensures r[|r| - 1] == s[|s| - 1]
  {
    var (a, b) := r[|r| - 1];
    var (c, d) := s[|s| - 1];
    LastEndsNotBefore(flags, r, s);
    LastEndsNotBefore(flags, s, r);
    if a < c {
      LastIsSolid(flags, r, s, c - 1);
    } else if c < a {
      LastIsSolid(flags, s, r, a - 1);
    }
  }

  lemma {:induction false} LastEndsNotBefore(flags: seq<bool>, r: seq<Range>, s: seq<Range>)
    requires Runs(flags, r) && Runs(flags, s) && r != [] && s != []
    ensures r[|r| - 1].1 <= s[|s| - 1].1
  {
    var j := r[|r| - 1].1 - 1;
    assert Covers(r, j);
    assert Covers(s, j);
    var i :| 0 <= i < |s| && s[i].0 <= j < s[i].1;
    if i < |s| - 1 {
      Ordered(flags, s, i, |s| - 1);
    }
  }

  /** A page inside the last run of `r` cannot be the gap before the last run of `s`. */
  lemma {:induction false} LastIsSolid(flags: seq<bool>, r: seq<Range>, s: seq<Range>, j: nat)
    requires Runs(flags, r) && Runs(flags, s) && r != [] && s != []
    requires j + 1 == s[|s| - 1].0
    ensures !(r[|r| - 1].0 <= j < r[|r| - 1].1)
  {
    assert r[|r| - 1].0 <= j < r[|r| - 1].1 ==> Covers(r, j);
    if Covers(s, j) {
      var i :| 0 <= i < |s| && s[i].0 <= j < s[i].1;
      assert i < |s| - 1;
      Ordered(flags, s, i, |s| - 1);
    }
  }

  /** `pages << log2(pageSize)`. */
  function Bytes(pages: nat, pageSize: nat): nat {
    pages * pageSize
  }

  lemma BytesMono(a: nat, b: nat, pageSize: nat)
    requires a <= b
    ensures Bytes(a, pageSize) <= Bytes(b, pageSize)
    ensures Bytes(a + 1, pageSize) == Bytes(a, pageSize) + pageSize
  {
    MulMono(a, b, pageSize);
  }

  /** What the operating system is asked to release: address and size in bytes. */
  function Calls(ranges: seq<Range>, start: nat, pageSize: nat): seq<(nat, nat)>
  {
    seq(|ranges|, i requires 0 <= i < |ranges| => Call(ranges[i], start, pageSize))
  }

  function Call(r: Range, start: nat, pageSize: nat): (nat, nat) {
    (start + Bytes(r.0, pageSize), Bytes(Max(r.1 - r.0, 0), pageSize))
  }

  lemma {:induction false} CallsAppend(ranges: seq<Range>, r: Range, start: nat, pageSize: nat)
    requires r.0 <= r.1
    ensures Bytes(r.0, pageSize) <= Bytes(r.1, pageSize)
    ensures Calls(ranges + [r], start, pageSize)
         == Calls(ranges, start, pageSize) + [(start + Bytes(r.0, pageSize), Bytes(r.1, pageSize) - Bytes(r.0, pageSize))]
  {
    BytesMono(r.0, r.1, pageSize);
    assert (r.1 - r.0) * pageSize == r.1 * pageSize - r.0 * pageSize;
  }

  class RegionReleaseRecorder {
    const base: nat
    const offset: nat
    var releasedBytes: nat
    var calls: seq<(nat, nat)>

    constructor (base: nat, offset: nat)
      ensures this.base == base && this.offset == offset && releasedBytes == 0 && calls == []
    {
      this.base := base;
      this.offset := offset;
      releasedBytes := 0;
      calls := [];
    }

    method ReleasePageRangeToOS(from: nat, to: nat)
      requires from <= to
      modifies this
      ensures calls == old(calls) + [(base + offset + from, to - from)]
      ensures releasedBytes == old(releasedBytes) + (to - from)
    {
      var size := to - from;
      calls := calls + [(base + offset + from, size)];
      releasedBytes := releasedBytes + size;
    }
  }

  class FreePagesRangeTracker {
    const recorder: RegionReleaseRecorder
    const pageSize: nat
    var inRange: bool
    var currentPage: nat
    var currentRangeStatePage: nat

    /** The verdicts seen so far, one per page, and the ranges already closed. */
    ghost var flags: seq<bool>
    ghost var ranges: seq<Range>

    ghost predicate Valid()
      reads this, recorder
    {
      && Bookkeeping()
      && recorder.calls == Calls(ranges, recorder.base + recorder.offset, pageSize)
    }

    ghost predicate Bookkeeping()
      reads this, recorder
    {
      var closed := if inRange then currentRangeStatePage else currentPage;
      && currentPage == |flags|
      && closed <= |flags|
      && Runs(flags[..closed], ranges)
      && (inRange ==> closed < |flags| && forall j :: closed <= j < |flags| ==> flags[j])
      && (inRange && ranges != [] ==> ranges[|ranges| - 1].1 < closed)
      && recorder.releasedBytes + Bytes(currentPage, pageSize) - Bytes(closed, pageSize) == Bytes(CountTrue(flags), pageSize)
    }

    /** A range may only be opened at the current page when the last closed one
        does not end there. */
    ghost predicate Open()
      reads this
    {
      !inRange && ranges != [] ==> ranges[|ranges| - 1].1 < currentPage
    }

    constructor (recorder: RegionReleaseRecorder, pageSize: nat)
      requires recorder.calls == [] && recorder.releasedBytes == 0
      ensures Valid() && Open() && flags == [] && ranges == []
      ensures this.recorder == recorder && this.pageSize == pageSize
    {
      this.recorder := recorder;
      this.pageSize := pageSize;
      inRange, currentPage, currentRangeStatePage := false, 0, 0;
      flags, ranges := [], [];
    }

    method CloseOpenedRange()
      requires Valid()
      modifies this`inRange, this`ranges, recorder
      ensures Valid() && !inRange
      ensures ranges != [] ==> ranges[|ranges| - 1].1 <= currentPage
    {
      RunsBound(flags[..if inRange then currentRangeStatePage else currentPage], ranges);
      hide Calls, CountTrue, Runs, Bytes;
      if inRange {
        ghost var closed := ranges;
        ranges := ranges + [(currentRangeStatePage, currentPage)];
        RunClosed(flags, closed, currentRangeStatePage);
        CallsAppend(closed, (currentRangeStatePage, currentPage), recorder.base + recorder.offset, pageSize);
        recorder.ReleasePageRangeToOS(Bytes(currentRangeStatePage, pageSize), Bytes(currentPage, pageSize));
        inRange := false;
        assert flags[..currentPage] == flags;
      }
    }

    static lemma {:induction false} RunsBound(flags: seq<bool>, ranges: seq<Range>)
      requires Runs(flags, ranges)
      ensures ranges != [] ==> ranges[|ranges| - 1].1 <= |flags|
    {
    }

    static lemma {:induction false} RunClosed(flags: seq<bool>, closed: seq<Range>, s: nat)
      requires s < |flags| && Runs(flags[..s], closed)
      requires forall j :: s <= j < |flags| ==> flags[j]
      requires closed != [] ==> closed[|closed| - 1].1 < s
      ensures Runs(flags, closed + [(s, |flags|)])
    {
      var all := closed + [(s, |flags|)];
      forall j | 0 <= j < |flags| ensures flags[j] <==> Covers(all, j) {
        CoversMore(closed, (s, |flags|), j);
        if j < s {
          assert flags[..s][j] == flags[j];
        }
      }
      hide Covers;
    }

    static lemma {:induction false} CoversMore(closed: seq<Range>, r: Range, j: nat)
      ensures Covers(closed + [r], j) <==> Covers(closed, j) || r.0 <= j < r.1
    {
      var all := closed + [r];
      if Covers(closed, j) {
        var i :| 0 <= i < |closed| && closed[i].0 <= j < closed[i].1;
        assert all[i] == closed[i];
      }
      if r.0 <= j < r.1 {
        assert all[|closed|] == r;
      }
    }

    static lemma {:induction false} RunExtended(flags: seq<bool>, more: seq<bool>, ranges: seq<Range>)
      requires Runs(flags, ranges)
      requires forall j :: 0 <= j < |more| ==> !more[j]
      ensures Runs(flags + more, ranges)
      ensures CountTrue(flags + more) == CountTrue(flags)
      decreases |more|
    {
      if more == [] {
        assert flags + more == flags;
      } else {
        var n := |more| - 1;
        RunExtended(flags, more[..n], ranges);
        assert (flags + more)[..|flags| + n] == flags + more[..n];
      }
    }

    static lemma {:induction false} OneMorePage(flags: seq<bool>, pageSize: nat)
      ensures Bytes(CountTrue(flags + [true]), pageSize) == Bytes(CountTrue(flags), pageSize) + pageSize
      ensures Bytes(|flags| + 1, pageSize) == Bytes(|flags|, pageSize) + pageSize
    {
      assert (flags + [true])[..|flags|] == flags;
      BytesMono(CountTrue(flags), CountTrue(flags), pageSize);
      BytesMono(|flags|, |flags|, pageSize);
    }

    method ProcessNextPage(released: bool)
      requires Valid() && Open()
      modifies this, recorder
      ensures Valid() && Open()
      ensures flags == old(flags) + [released]
    {
      hide Calls, CountTrue, Runs, Bytes;
      if released {
        OneMorePage(flags, pageSize);
        if !inRange {
          currentRangeStatePage := currentPage;
          inRange := true;
          assert flags[..currentPage] == flags;
        }
        assert (flags + [true])[..currentRangeStatePage] == flags[..currentRangeStatePage];
      } else {
        CloseOpenedRange();
        assert flags[..currentPage] == flags;
        RunExtended(flags, [released], ranges);
        assert (flags + [released])[..currentPage + 1] == flags + [released];
      }
      flags := flags + [released];
      currentPage := currentPage + 1;
    }

    method SkipPages(n: nat)
      requires Valid() && n > 0
      modifies this, recorder
      ensures Valid() && Open()
      ensures flags == old(flags) + seq(n, _ => false)
    {
      CloseOpenedRange();
      ghost var more := seq(n, _ => false);
      assert flags[..currentPage] == flags;
      RunExtended(flags, more, ranges);
      assert (flags + more)[..currentPage + n] == flags + more;
      flags := flags + more;
      currentPage := currentPage + n;
    }

    /** The released ranges are exactly the maximal runs of releasable pages, and
        the byte total is that of the pages. */
    method Finish()
      requires Valid()
      modifies this, recorder
      ensures Valid() && flags == old(flags)
      ensures Runs(flags, ranges)
      ensures recorder.calls == Calls(ranges, recorder.base + recorder.offset, pageSize)
      ensures recorder.releasedBytes == Bytes(CountTrue(flags), pageSize)
    {
      CloseOpenedRange();
      assert flags[..currentPage] == flags;
    }
  }
}
