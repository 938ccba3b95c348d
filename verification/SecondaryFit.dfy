/** Choosing a cached mapping for a request in secondary.h. Addresses are 64-bit
    words, and the source computes with wrap-around. */
module SecondaryFit {
  import opened Common
  import opened Rounding
  import opened CachedBlocks

  const WORD := 0x1_0000_0000_0000_0000

  const MAX_RELEASED_CACHE_PAGES := 4
  const MAX_UNRELEASED_CACHE_PAGES := 4
  const FRAGMENTED_BYTES_DIVISOR := 10

  function Sub(x: nat, y: nat): nat {
    (x - y) % WORD
  }

  /** What retrieve is asked for; `maxPages` bounds the pages left unused in front. */
  datatype Request = Request(size: nat, alignment: nat, headersSize: nat, pageSize: nat, maxPages: nat)
  {
    ghost predicate Valid() {
      alignment > 0 && pageSize > 0 && size + alignment + headersSize <= WORD
    }

    function AllocPos(b: Block): nat
      requires alignment > 0
    {
      RoundDown(Sub(End(b), size), alignment)
    }

    function HeaderPos(b: Block): nat
      requires alignment > 0
    {
      Sub(AllocPos(b), headersSize)
    }

    function End(b: Block): nat {
      b.commitBase + b.commitSize
    }

    /** The tests of the loop in retrieve. */
    predicate Accepts(b: Block)
      requires alignment > 0
    {
      && !(HeaderPos(b) > End(b))
      && !(HeaderPos(b) < b.commitBase || AllocPos(b) > b.commitBase + maxPages * pageSize)
    }

    /** The bytes in front of the headers' page that go unused. */
    function Diff(b: Block): nat
      requires alignment > 0 && pageSize > 0
    {
      Sub(RoundDown(HeaderPos(b), pageSize), b.commitBase)
    }

    predicate Close(b: Block)
      requires alignment > 0 && pageSize > 0
    {
      Diff(b) <= Max(End(b) - HeaderPos(b), 0) / FRAGMENTED_BYTES_DIVISOR
    }

    /** A block is close enough if what it wastes is at most a tenth of what lies behind
        its header position. */
    lemma {:induction false} CloseIff(b: Block)
      requires alignment > 0 && pageSize > 0 && HeaderPos(b) <= End(b)
      ensures Close(b) <==> 10 * Diff(b) <= End(b) - HeaderPos(b)
    {
      hide Diff, HeaderPos, End;
    }

    /** The same without wrap-around: the request fits behind its headers, at an
        aligned position, and wastes no more than allowed. */
    ghost predicate Fits(b: Block)
      requires alignment > 0
    {
      && size <= End(b)
      && var pos := RoundDown(End(b) - size, alignment);
         b.commitBase + headersSize <= pos <= b.commitBase + maxPages * pageSize
    }

    /** The wrap-around in the source's tests never lets a wrong block through. */
    lemma {:induction false} AcceptsIffFits(b: Block)
      requires Valid() && End(b) + headersSize < WORD
      ensures Accepts(b) <==> Fits(b)
      ensures Accepts(b) ==> AllocPos(b) == RoundDown(End(b) - size, alignment) && HeaderPos(b) == AllocPos(b) - headersSize
    {
      if size <= End(b) {
        Small(End(b) - size);
        var pos := RoundDown(End(b) - size, alignment);
        DivBounds(End(b) - size, alignment);
        if pos >= headersSize {
          Small(pos - headersSize);
        } else {
          Wrapped(pos - headersSize);
        }
      } else {
        Wrapped(End(b) - size);
        var pos := RoundDown(WORD + End(b) - size, alignment);
        RoundDownFacts(WORD + End(b) - size, alignment);
        Small(pos - headersSize);
      }
    }

    static lemma Small(x: nat)
      requires x < WORD
      ensures x % WORD == x
    {
    }

    static lemma Wrapped(x: int)
      requires -WORD <= x < 0
      ensures x % WORD == x + WORD
    {
    }

    /** The user gets an aligned range inside the mapping, with the headers before it. */
    lemma {:induction false} AcceptedPlacement(b: Block)
      requires Valid() && End(b) + headersSize < WORD && Accepts(b)
      ensures b.commitBase <= HeaderPos(b) && HeaderPos(b) + headersSize == AllocPos(b)
      ensures AllocPos(b) + size <= End(b) && AllocPos(b) % alignment == 0
    {
      AcceptsIffFits(b);
      RoundDownFacts(End(b) - size, alignment);
      ModUnique(AllocPos(b), alignment, (End(b) - size) / alignment, 0);
    }

    /** `Diff` is what it says if the mapping starts on a page. */
    lemma {:induction false} DiffExact(b: Block)
      requires Valid() && End(b) + headersSize < WORD && Accepts(b) && b.commitBase % pageSize == 0
      ensures Diff(b) == RoundDown(HeaderPos(b), pageSize) - b.commitBase
      ensures 0 <= HeaderPos(b) - b.commitBase - Diff(b) < pageSize
    {
      AcceptedPlacement(b);
      hide HeaderPos, Accepts, RoundDown;
      PageBelow(b.commitBase, HeaderPos(b), pageSize);
      Small(RoundDown(HeaderPos(b), pageSize) - b.commitBase);
    }

    /** Rounding down to a page does not go below an earlier page. */
    static lemma {:induction false} PageBelow(base: nat, x: nat, p: nat)
      requires p > 0 && base % p == 0 && base <= x
      ensures base <= RoundDown(x, p) <= x < RoundDown(x, p) + p
    {
      RoundDownFacts(x, p);
      DivMono(base, x, p);
      DivBounds(base, p);
      MulMono(base / p, x / p, p);
    }
  }

  /** A cached mapping in the address space: it starts on a page, not at zero. */
  ghost predicate Mapped(r: Request, b: Block)
    requires r.pageSize > 0
  {
    0 < b.commitBase && b.commitBase % r.pageSize == 0 && r.End(b) + r.headersSize < WORD
  }

  // ---- The choice -------------------------------------------------------

  /** Block `i` is accepted and wastes less than all accepted blocks before it. */
  ghost predicate Improves(r: Request, blocks: seq<Block>, i: nat)
    requires r.alignment > 0 && r.pageSize > 0 && i < |blocks|
  {
    r.Accepts(blocks[i]) && forall j :: 0 <= j < i && r.Accepts(blocks[j]) ==> r.Diff(blocks[i]) < r.Diff(blocks[j])
  }

  /** Block `k` is the choice among the first `n`: it wastes least, or it is the first
      improvement that is close enough. */
  ghost predicate Chosen(r: Request, blocks: seq<Block>, n: nat, k: nat)
    requires r.alignment > 0 && r.pageSize > 0 && n <= |blocks|
  {
    && k < n && Improves(r, blocks, k)
    && (forall i :: 0 <= i < k && Improves(r, blocks, i) ==> !r.Close(blocks[i]))
    && (r.Close(blocks[k]) || forall i :: k < i < n && r.Accepts(blocks[i]) ==> r.Diff(blocks[i]) >= r.Diff(blocks[k]))
  }

  ghost predicate NoneAccepted(r: Request, blocks: seq<Block>, n: nat)
    requires r.alignment > 0 && n <= |blocks|
  {
    forall i :: 0 <= i < n ==> !r.Accepts(blocks[i])
  }

  /** The loop of retrieve: blocks from the most recent on, with an early way out. */
  method FindBest(r: Request, blocks: seq<Block>) returns (best: Option<nat>)
    requires r.Valid() && forall i :: 0 <= i < |blocks| ==> Mapped(r, blocks[i])
    ensures best == None ==> NoneAccepted(r, blocks, |blocks|)
    ensures best.Some? ==> best.value < |blocks| && Chosen(r, blocks, |blocks|, best.value)
  {
    hide r.Accepts, r.Diff, r.Close, Mapped;
    best := None;
    var minDiff := WORD - 1;
    var i := 0;
    while i < |blocks|
      invariant 0 <= i <= |blocks|
      invariant best == None ==> NoneAccepted(r, blocks, i) && minDiff == WORD - 1
      invariant best.Some? ==> Chosen(r, blocks, i, best.value) && !r.Close(blocks[best.value]) && minDiff == r.Diff(blocks[best.value])
    {
      var b := blocks[i];
      i := i + 1;
      if !r.Accepts(b) {
        continue;
      }
      WasteBound(r, b);
      var diff := r.Diff(b);
      if diff >= minDiff {
        continue;
      }
      NewBest(r, blocks, i - 1, best);
      minDiff := diff;
      best := Some(i - 1);
      if r.Close(b) {
        ChosenForGood(r, blocks, i, i - 1);
        return;
      }
    }
  }

  lemma {:induction false} WasteBound(r: Request, b: Block)
    requires r.Valid() && Mapped(r, b) && r.Accepts(b)
    ensures r.Diff(b) < WORD - 1
  {
    r.AcceptedPlacement(b);
    r.DiffExact(b);
  }

  lemma {:induction false} NewBest(r: Request, blocks: seq<Block>, i: nat, best: Option<nat>)
    requires r.alignment > 0 && r.pageSize > 0 && i < |blocks| && r.Accepts(blocks[i])
    requires best == None ==> NoneAccepted(r, blocks, i)
    requires best.Some? ==>
      Chosen(r, blocks, i, best.value) && !r.Close(blocks[best.value]) && r.Diff(blocks[i]) < r.Diff(blocks[best.value])
    ensures Chosen(r, blocks, i + 1, i)
  {
    hide r.Accepts, r.Diff, r.Close;
  }

  lemma ChosenForGood(r: Request, blocks: seq<Block>, n: nat, k: nat)
    requires r.alignment > 0 && r.pageSize > 0 && n <= |blocks| && Chosen(r, blocks, n, k) && r.Close(blocks[k])
    ensures Chosen(r, blocks, |blocks|, k)
  {
  }

  // ---- Releasing the unused front ---------------------------------------

  /** The bytes at the start of a retrieved block that go back to the system. */
  function BytesToRelease(fragmented: nat, pageSize: nat): nat
    requires pageSize > 0
  {
    if fragmented > MAX_UNRELEASED_CACHE_PAGES * pageSize then
      CeilDiv(Max(Min(MAX_RELEASED_CACHE_PAGES * pageSize, fragmented - MAX_UNRELEASED_CACHE_PAGES * pageSize), 0), pageSize) * pageSize
    else 0
  }

  /** They end before the page of the headers. */
  lemma {:induction false} ReleaseStopsBeforeHeaders(fragmented: nat, pageSize: nat)
    requires pageSize > 0 && fragmented % pageSize == 0
    ensures BytesToRelease(fragmented, pageSize) <= fragmented
    ensures BytesToRelease(fragmented, pageSize) % pageSize == 0
  {
    hide CeilDiv;
    if fragmented > MAX_UNRELEASED_CACHE_PAGES * pageSize {
      var x := Max(Min(MAX_RELEASED_CACHE_PAGES * pageSize, fragmented - MAX_UNRELEASED_CACHE_PAGES * pageSize), 0);
      assert x <= fragmented;
      WholePages(x, fragmented, pageSize);
    }
  }

  /** Page by page: as many pages go back as leave `MAX_UNRELEASED_CACHE_PAGES` behind,
      but no more than `MAX_RELEASED_CACHE_PAGES`. */
  lemma {:induction false} ReleaseExact(fragmented: nat, pageSize: nat, k: nat)
    requires pageSize > 0 && fragmented % pageSize == 0 && k > 0
    ensures k * pageSize <= BytesToRelease(fragmented, pageSize)
      <==> k <= MAX_RELEASED_CACHE_PAGES && k + MAX_UNRELEASED_CACHE_PAGES <= fragmented / pageSize
  {
    var p, f := pageSize, fragmented / pageSize;
    DivBounds(fragmented, p);
    var n := Min(MAX_RELEASED_CACHE_PAGES, f - MAX_UNRELEASED_CACHE_PAGES);
    LessPages(MAX_UNRELEASED_CACHE_PAGES, f, p);
    if f > MAX_UNRELEASED_CACHE_PAGES {
      LessPages(MAX_RELEASED_CACHE_PAGES, f - MAX_UNRELEASED_CACHE_PAGES, p);
      assert (f - MAX_UNRELEASED_CACHE_PAGES) * p == fragmented - MAX_UNRELEASED_CACHE_PAGES * p;
      assert Max(Min(MAX_RELEASED_CACHE_PAGES * p, fragmented - MAX_UNRELEASED_CACHE_PAGES * p), 0) == n * p;
      ExactPages(n, p);
      LessPages(n, k, p);
    } else {
      LessPages(0, k, p);
    }
  }

  lemma {:induction false} LessPages(x: int, y: int, p: int)
    requires p > 0
    ensures x < y <==> x * p < y * p
  {
    if x < y {
      MulMono(x + 1, y, p);
    } else {
      MulMono(y, x, p);
    }
  }

  lemma {:induction false} ExactPages(n: nat, p: nat)
    requires p > 0
    ensures CeilDiv(n * p, p) == n
  {
    DivUnique(n * p + p - 1, p, n);
  }

  lemma {:induction false} WholePages(x: nat, y: nat, p: nat)
    requires p > 0 && x <= y && y % p == 0
    ensures CeilDiv(x, p) * p <= y && CeilDiv(x, p) * p % p == 0
  {
    DivBounds(y, p);
    CeilWithin(x, y / p, p);
  }

  lemma {:induction false} CeilWithin(x: nat, n: nat, p: nat)
    requires p > 0 && x <= n * p
    ensures CeilDiv(x, p) * p <= n * p && CeilDiv(x, p) * p % p == 0
  {
    CeilDivLeast(x, p, n);
    MulMono(CeilDiv(x, p), n, p);
    ModUnique(CeilDiv(x, p) * p, p, CeilDiv(x, p), 0);
  }
}
