/** Allocation in combined.h from end to end: from a block of either allocator to the
    user's address, and back from the header alone. */
module Combined {
  import opened Common
  import opened Rounding
  import opened ChunkHeader
  import opened Placement

  /** What every allocation promises: the user's memory is aligned and inside the
      block, behind the header, and block and size can be told from the header. */
  ghost predicate Recoverable(mem: Memory, block: nat, blockEnd: nat, ptr: nat, size: nat, alignment: nat, classId: nat)
    requires alignment > 0
    reads mem
  {
    && Aligned(ptr, alignment) && block + HEADER_SIZE <= ptr && ptr + size <= blockEnd
    && mem.LoadHeader(ptr).Some?
    && var h := mem.LoadHeader(ptr).value;
       && h.state == ALLOCATED && h.classId == classId
       && BlockBegin(ptr, h) == block && GetSize(ptr, h, blockEnd) == size
       && mem.ChunkOffsetFromBlock(block) == ptr - block
  }

  /** allocate, with a primary block of a class that is large enough. */
  method AllocateFromPrimary(mem: Memory, classId: nat, classSize: nat, block: nat, size: nat, alignment: nat, origin: nat)
    returns (ptr: nat)
    requires 0 < classId < 0x100 && Aligned(block, MIN_ALIGNMENT)
    requires alignment >= MIN_ALIGNMENT && Aligned(alignment, MIN_ALIGNMENT)
    requires NeededSize(size, alignment) <= classSize <= 0x10_0000
    modifies mem
    ensures Recoverable(mem, block, block + classSize, ptr, size, alignment, classId)
  {
    hide RoundUp, mem.LoadHeader, mem.ChunkOffsetFromBlock;
    PrimaryPlacement(block, size, alignment);
    RoundUpFacts(size, MIN_ALIGNMENT);
    ptr := UserPtr(block, alignment);
    mem.InitChunk(classId, origin, block, ptr, size);
    var h := mem.LoadHeader(ptr).value;
    BlockBeginRecovered(block, ptr, h);
    SizeRecovered(classId, size, ptr, block + classSize, h);
  }

  /** allocate, with a fresh secondary block and an alignment of at most 2^19. */
  method AllocateFromSecondary(mem: Memory, s: Setup, base: nat, size: nat, alignment: nat, origin: nat)
    returns (ptr: nat, m: Mapping)
    requires s.Valid(alignment) && Aligned(base, s.pageSize) && alignment <= 0x8_0000
    modifies mem
    ensures HEADER_SIZE <= m.allocPos
    ensures Recoverable(mem, m.allocPos - HEADER_SIZE, m.commitBase + m.commitSize, ptr, size, alignment, 0)
    ensures base + s.guard <= m.headerPos && m.headerPos + s.Headers() == ptr
    ensures ptr + size <= m.mapEnd - s.guard && m.mapEnd <= base + s.MapSize(size, alignment)
  {
    hide RoundUp, RoundDown, mem.LoadHeader, mem.ChunkOffsetFromBlock;
    m := PlaceInMapping(s, size, alignment, base);
    var block := m.headerPos + s.large;
    SecondaryUserPtr(m.allocPos, alignment);
    UnusedBytesFit(s, size, alignment, m);
    AlignedBlock(m.allocPos, alignment);
    ptr := UserPtr(block, alignment);
    var blockEnd := m.commitBase + m.commitSize;
    mem.InitChunk(0, origin, block, ptr, blockEnd - (ptr + size));
    var h := mem.LoadHeader(ptr).value;
    BlockBeginRecovered(block, ptr, h);
    SizeRecovered(0, size, ptr, blockEnd, h);
  }

  lemma AlignedBlock(p: nat, alignment: nat)
    requires alignment > 0 && Aligned(alignment, MIN_ALIGNMENT) && Aligned(p, alignment) && p >= HEADER_SIZE
    ensures Aligned(p, MIN_ALIGNMENT) && Aligned(p - HEADER_SIZE, MIN_ALIGNMENT)
  {
    MultipleOfMultiple(p, alignment, MIN_ALIGNMENT);
    hide Aligned;
    ZeroAndOne(MIN_ALIGNMENT);
    Multiples(p, HEADER_SIZE, MIN_ALIGNMENT);
  }
}
