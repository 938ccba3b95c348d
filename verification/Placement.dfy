/** Where an allocation ends up: the size that combined.h asks for, the user's
    address in a primary block, and a fresh mapping of secondary.h with its guard
    pages and headers. */
module Placement {
  import opened Common
  import opened Rounding
  import opened ChunkHeader

  // ---- Primary ----------------------------------------------------------

  /** The block size that combined.h needs for a request. */
  function NeededSize(size: nat, alignment: nat): nat {
    RoundUp(size, MIN_ALIGNMENT) + if alignment > MIN_ALIGNMENT then alignment else HEADER_SIZE
  }

  function UserPtr(block: nat, alignment: nat): nat
    requires alignment > 0
  {
    RoundUp(block + HEADER_SIZE, alignment)
  }

  /** The user's memory is aligned, behind the header, and inside any block that has
      the needed size; the distance from the default position is below `alignment`. */
  lemma {:induction false} PrimaryPlacement(block: nat, size: nat, alignment: nat)
    requires Aligned(block, MIN_ALIGNMENT) && alignment >= MIN_ALIGNMENT && Aligned(alignment, MIN_ALIGNMENT)
    ensures var p := UserPtr(block, alignment);
      && Aligned(p, alignment) && Aligned(p, MIN_ALIGNMENT)
      && block + HEADER_SIZE <= p < block + HEADER_SIZE + alignment
      && p + size <= block + NeededSize(size, alignment)
  {
    var p := UserPtr(block, alignment);
    RoundUpFacts(block + HEADER_SIZE, alignment);
    RoundUpFacts(size, MIN_ALIGNMENT);
    MultipleOfMultiple(p, alignment, MIN_ALIGNMENT);
    Multiples(block, HEADER_SIZE, MIN_ALIGNMENT);
    Multiples(block + HEADER_SIZE, alignment, MIN_ALIGNMENT);
    Multiples(block + HEADER_SIZE + alignment, p, MIN_ALIGNMENT);
    if alignment == MIN_ALIGNMENT {
      assert p == block + HEADER_SIZE;
    }
  }

  /** No less would do: in a block that starts at a multiple of the alignment, the rounded
      size ends where the needed size does. */
  lemma {:induction false} NeededSizeTight(block: nat, size: nat, alignment: nat)
    requires alignment >= MIN_ALIGNMENT && Aligned(alignment, MIN_ALIGNMENT) && Aligned(block, alignment)
    ensures UserPtr(block, alignment) + RoundUp(size, MIN_ALIGNMENT) == block + NeededSize(size, alignment)
  {
    hide Aligned, RoundUp;
    ZeroAndOne(alignment);
    Multiples(block, alignment, alignment);
    NextUp(block, HEADER_SIZE, alignment);
  }

  /** Rounding up goes to the next multiple. */
  lemma {:induction false} NextUp(x: nat, y: nat, a: nat)
    requires 0 < y <= a && Aligned(x, a)
    ensures RoundUp(x + y, a) == x + a
  {
    hide Aligned, RoundUp;
    ZeroAndOne(a);
    Multiples(x, a, a);
    RoundUpFacts(x + y, a);
    Multiples(RoundUp(x + y, a), x, a);
  }

  /** On top of the header there is room for at least the least alignment, as the
      comment in combined.h has it for every size, exactly if bytes are asked for or the
      alignment is above the least one. */
  lemma {:induction false} RoomBehindHeader(size: nat, alignment: nat)
    requires alignment >= MIN_ALIGNMENT && Aligned(alignment, MIN_ALIGNMENT)
    ensures NeededSize(size, alignment) >= HEADER_SIZE + MIN_ALIGNMENT <==> size > 0 || alignment > MIN_ALIGNMENT
  {
    RoundUpFacts(size, MIN_ALIGNMENT);
    ZeroAndOne(MIN_ALIGNMENT);
    if size > 0 {
      Multiples(RoundUp(size, MIN_ALIGNMENT), 0, MIN_ALIGNMENT);
    }
    if alignment > MIN_ALIGNMENT {
      Multiples(alignment, MIN_ALIGNMENT, MIN_ALIGNMENT);
    }
  }

  /** The input that fails: a request of zero bytes at the least alignment gets room for
      its header only, and the user's address is the end of the needed block. */
  lemma ZeroSizedRequest(block: nat)
    requires Aligned(block, MIN_ALIGNMENT)
    ensures NeededSize(0, MIN_ALIGNMENT) == HEADER_SIZE
    ensures UserPtr(block, MIN_ALIGNMENT) == block + NeededSize(0, MIN_ALIGNMENT)
  {
  }

  // ---- Secondary --------------------------------------------------------

  /** A fresh mapping. `guard` is the size of a guard page or 0; `large` are the
      bytes of the header of large blocks, before the chunk header. */
  datatype Mapping = Mapping(mapBase: nat, mapEnd: nat, commitBase: nat, commitSize: nat, allocPos: nat, headerPos: int)

  datatype Setup = Setup(pageSize: nat, guard: nat, large: nat, slack: bool, trims: bool)
  {
    /** The alignment and the page size are powers of two: one divides the other. */
    ghost predicate Valid(alignment: nat) {
      && pageSize > 0 && alignment >= MIN_ALIGNMENT && Aligned(alignment, MIN_ALIGNMENT) && Aligned(pageSize, MIN_ALIGNMENT)
      && (guard == 0 || guard == pageSize) && 0 < Headers() <= pageSize && Aligned(large, MIN_ALIGNMENT)
      && (if alignment < pageSize then Aligned(pageSize, alignment) else Aligned(alignment, pageSize))
    }

    function Headers(): nat { large + HEADER_SIZE }

    /** The size asked for, with the optional slack for large allocations. */
    function Size(size: nat): nat {
      if slack then size + MIN_ALIGNMENT else size
    }

    function RoundedSize(size: nat, alignment: nat): nat
      requires pageSize > 0 && alignment > 0
    {
      RoundUp(RoundUp(Size(size), alignment) + Headers(), pageSize)
      + if alignment > pageSize then alignment - pageSize else 0
    }

    function MapSize(size: nat, alignment: nat): nat
      requires pageSize > 0 && alignment > 0
    {
      RoundedSize(size, alignment) + 2 * guard
    }
  }

  /** The rest of allocate, once `MapSize` bytes are reserved at `base`. From a page up
      the headers get the page before the first aligned position behind the guard page,
      and trimming leaves only the pages that are needed mapped. */
  method PlaceInMapping(s: Setup, size: nat, alignment: nat, base: nat) returns (m: Mapping)
    requires s.Valid(alignment) && Aligned(base, s.pageSize)
    ensures s.guard <= m.commitBase && base <= m.mapBase <= m.commitBase - s.guard
    ensures m.commitBase + m.commitSize + s.guard == m.mapEnd <= base + s.MapSize(size, alignment)
    ensures Aligned(m.allocPos, alignment) && m.headerPos == m.allocPos - s.Headers()
    ensures m.commitBase <= m.headerPos
    ensures alignment < s.pageSize ==> m.commitBase == base + s.guard
    ensures alignment >= s.pageSize ==>
      Aligned(m.commitBase + s.pageSize, alignment) && base + s.guard < m.commitBase + s.pageSize <= base + s.guard + alignment
    ensures if s.trims && alignment >= s.pageSize
      then m.mapBase == m.commitBase - s.guard && m.commitSize == s.pageSize + RoundUp(s.Size(size), s.pageSize)
      else m.mapBase == base && m.mapEnd == base + s.MapSize(size, alignment)
    ensures m.allocPos + s.Size(size) <= m.commitBase + m.commitSize < m.allocPos + s.Size(size) + alignment
    ensures m.allocPos + size + (if s.slack then MIN_ALIGNMENT else 0) <= m.commitBase + m.commitSize
         < m.allocPos + size + (if s.slack then MIN_ALIGNMENT else 0) + alignment
  {
    hide RoundUp, RoundDown, Aligned;
    var sz := s.Size(size);
    var mapBase, mapEnd := base, base + s.MapSize(size, alignment);
    var commitBase := mapBase + s.guard;
    if alignment >= s.pageSize {
      LargeAlignment(s, size, alignment, base);
      commitBase := RoundUp(mapBase + s.guard + 1, alignment) - s.pageSize;
      if s.trims {
        mapBase := commitBase - s.guard;
        mapEnd := commitBase + s.pageSize + RoundUp(sz, s.pageSize) + s.guard;
        TrimmedEnd(s, size, alignment, base);
      }
      RoundUpFacts(sz, s.pageSize);
    } else {
      SmallAlignment(s, size, alignment, base);
    }
    var commitSize := mapEnd - s.guard - commitBase;
    RoundDownFacts(commitBase + commitSize - sz, alignment);
    var allocPos := RoundDown(commitBase + commitSize - sz, alignment);
    m := Mapping(mapBase, mapEnd, commitBase, commitSize, allocPos, allocPos - s.Headers());
  }

  /** Below a page, an aligned position for the user follows at most `RoundUp(Headers)`
      bytes behind the start of the committed memory. */
  lemma {:induction false} SmallAlignment(s: Setup, size: nat, alignment: nat, base: nat)
    requires s.Valid(alignment) && Aligned(base, s.pageSize) && alignment < s.pageSize
    ensures var end := base + s.guard + s.RoundedSize(size, alignment);
      && end >= s.Size(size)
      && RoundDown(end - s.Size(size), alignment) >= base + s.guard + s.Headers()
  {
    hide RoundUp, RoundDown, Aligned;
    ZeroAndOne(s.pageSize);
    Multiples(base, s.guard, s.pageSize);
    RoomBelowEnd(base + s.guard, s.Size(size), s.Headers(), s.pageSize, alignment);
  }

  lemma {:induction false} RoomBelowEnd(start: nat, sz: nat, h: nat, p: nat, alignment: nat)
    requires 0 < alignment < p && Aligned(p, alignment) && Aligned(start, p)
    ensures var end := start + RoundUp(RoundUp(sz, alignment) + h, p);
      end >= sz && RoundDown(end - sz, alignment) >= start + h
  {
    hide RoundUp, RoundDown, Aligned;
    var u := RoundUp(sz, alignment);
    var end := start + RoundUp(u + h, p);
    RoundUpFacts(sz, alignment);
    RoundUpFacts(u + h, p);
    Multiples(start, RoundUp(u + h, p), p);
    MultipleOfMultiple(end, p, alignment);
    Multiples(end, u, alignment);
    RoundDownFacts(end - sz, alignment);
    assert end - u >= start + h;
  }

  /** Up to a page, the mapping is the fewest pages that hold request and headers. */
  lemma {:induction false} FewestPages(s: Setup, size: nat, alignment: nat, pages: nat)
    requires s.Valid(alignment) && alignment <= s.pageSize && Aligned(pages, s.pageSize)
    ensures pages >= RoundUp(s.Size(size), alignment) + s.Headers() <==> pages >= s.RoundedSize(size, alignment)
  {
    hide Aligned, RoundUp;
    RoundUpFacts(RoundUp(s.Size(size), alignment) + s.Headers(), s.pageSize);
  }

  /** Above a page no less would do: in a mapping whose memory starts at a multiple of the
      alignment, the request ends where the mapping does. */
  lemma {:induction false} RoundedSizeTight(s: Setup, size: nat, alignment: nat, base: nat)
    requires s.Valid(alignment) && alignment > s.pageSize && Aligned(base + s.guard, alignment)
    ensures RoundUp(base + s.guard + 1, alignment) + RoundUp(s.Size(size), alignment)
         == base + s.guard + s.RoundedSize(size, alignment)
  {
    hide Aligned, RoundUp;
    var u := RoundUp(s.Size(size), alignment);
    NextUp(base + s.guard, 1, alignment);
    RoundUpFacts(s.Size(size), alignment);
    MultipleOfMultiple(u, alignment, s.pageSize);
    NextUp(u, s.Headers(), s.pageSize);
  }

  /** From a page up, the page of the headers lies behind the guard page, and the
      aligned position after it leaves room for the request. */
  lemma {:induction false} LargeAlignment(s: Setup, size: nat, alignment: nat, base: nat)
    requires s.Valid(alignment) && Aligned(base, s.pageSize) && alignment >= s.pageSize
    ensures var x := RoundUp(base + s.guard + 1, alignment);
      var end := base + s.guard + s.RoundedSize(size, alignment);
      && base + s.guard + s.pageSize <= x <= base + s.guard + alignment && Aligned(x, alignment)
      && x + RoundUp(s.Size(size), alignment) <= end
      && s.Size(size) <= end && RoundDown(end - s.Size(size), alignment) >= x
      && RoundUp(s.Size(size), s.pageSize) <= RoundUp(s.Size(size), alignment)
  {
    hide RoundUp, RoundDown, Aligned;
    var sz, h, p := s.Size(size), s.Headers(), s.pageSize;
    var x, u := RoundUp(base + s.guard + 1, alignment), RoundUp(sz, alignment);
    var end := base + s.guard + s.RoundedSize(size, alignment);
    RoundUpFacts(base + s.guard + 1, alignment);
    RoundUpFacts(sz, alignment);
    RoundUpFacts(sz, p);
    RoundUpFacts(u + h, p);
    MultipleOfMultiple(x, alignment, p);
    MultipleOfMultiple(u, alignment, p);
    ZeroAndOne(p);
    Multiples(base, s.guard, p);
    Multiples(x, base + s.guard, p);
    Multiples(RoundUp(u + h, p), u, p);
    assert RoundUp(u + h, p) >= u + p;
    RoundDownFacts(end - sz, alignment);
  }

  /** Trimming the end of the mapping keeps what the user gets. */
  lemma {:induction false} TrimmedEnd(s: Setup, size: nat, alignment: nat, base: nat)
    requires s.Valid(alignment) && Aligned(base, s.pageSize) && alignment >= s.pageSize
    ensures var x := RoundUp(base + s.guard + 1, alignment);
      var r := RoundUp(s.Size(size), s.pageSize);
      && x + r + s.guard <= base + s.MapSize(size, alignment)
      && s.Size(size) <= x + r && RoundDown(x + r - s.Size(size), alignment) >= x
  {
    hide RoundUp, RoundDown, Aligned;
    LargeAlignment(s, size, alignment, base);
    var x, r := RoundUp(base + s.guard + 1, alignment), RoundUp(s.Size(size), s.pageSize);
    RoundUpFacts(s.Size(size), s.pageSize);
    RoundDownFacts(x + r - s.Size(size), alignment);
  }

  /** The user's address in a secondary block is where the mapping was aligned for:
      the block begins right before it, and the chunk offset is zero. */
  lemma {:induction false} SecondaryUserPtr(allocPos: nat, alignment: nat)
    requires alignment > 0 && Aligned(allocPos, alignment) && allocPos >= HEADER_SIZE
    ensures UserPtr(allocPos - HEADER_SIZE, alignment) == allocPos
  {
    RoundUpFacts(allocPos, alignment);
  }

  /** The unused bytes that a fresh secondary block records fit their field for every
      alignment up to 2^19. */
  lemma {:induction false} UnusedBytesFit(s: Setup, size: nat, alignment: nat, m: Mapping)
    requires m.commitBase + m.commitSize < m.allocPos + s.Size(size) + alignment && alignment <= 0x8_0000
    ensures m.commitBase + m.commitSize - (m.allocPos + size) < 0x10_0000
  {
  }
}
