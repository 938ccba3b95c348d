/** The per-thread caches of size_class_allocator.h over the free lists of the
    regions: where every block of a class is, and draining. */
module LocalCache {
  import opened Common
  import opened FreeList
  import opened BatchClassList
  import opened PrimaryRegion
  import opened PushOrder

  /** Every block that was cut is in the free list, in an extracted group, in this
      cache, or elsewhere: with the user or in another cache. */
  ghost predicate Placed(free: seq<nat>, extracted: seq<nat>, cached: seq<nat>, elsewhere: multiset<nat>, cut: seq<nat>) {
    multiset(free) + multiset(extracted) + multiset(cached) + elsewhere == multiset(cut)
  }

  /** The blocks of one size class that a thread keeps at hand. */
  class PerClass {
    const maxCount: nat
    const chunks: array<nat>
    var count: nat

    ghost predicate Valid()
      reads this
    {
      maxCount >= 2 && maxCount <= chunks.Length && count <= maxCount
    }

    ghost function Cached(): seq<nat>
      requires Valid()
      reads this, chunks
    {
      chunks[..count]
    }

    /** The blocks of the class are all accounted for, and the counters of the free
        list tell how many blocks are out. */
    ghost predicate Ledger(region: RegionInfo, extracted: seq<Group>, elsewhere: multiset<nat>)
      requires Valid()
      reads this, chunks, region
    {
      && region.Valid() && region.MemoryOk()
      && Placed(ListBlocks(region.blockList), ListBlocks(extracted), Cached(), elsewhere, region.layout.Blocks(0, region.carved))
      && region.poppedBlocks - region.pushedBlocks == |Cached()| + |elsewhere|
    }

    constructor (maxCount: nat)
      requires maxCount >= 2
      ensures Valid() && this.maxCount == maxCount && fresh(chunks) && count == 0
    {
      this.maxCount := maxCount;
      chunks := new nat[maxCount];
      count := 0;
    }

    /** An empty cache and a new region account for all blocks: there are none. */
    lemma {:induction false} FirstLedger(region: RegionInfo)
      requires Valid() && count == 0 && region.Valid() && region.MemoryOk() && region.carved == 0
      requires region.blockList == [] && region.pushedBlocks == region.poppedBlocks
      ensures Ledger(region, [], multiset{})
    {
      region.layout.BlocksNone(0);
    }

    /** What releaseToOSMaybe computes as the bytes in the free list is exactly what
        the free list and the extracted groups hold. */
    lemma {:induction false} BytesInFreeList(region: RegionInfo, extracted: seq<Group>, elsewhere: multiset<nat>)
      requires Valid() && Ledger(region, extracted, elsewhere)
      ensures region.allocatedUser - (region.poppedBlocks - region.pushedBlocks) * region.layout.blockSize
           == (|ListBlocks(region.blockList)| + |ListBlocks(extracted)|) * region.layout.blockSize
    {
      hide ListBlocks, Placed, ListOk, region.layout.Blocks, region.Valid;
      PlacedCount(ListBlocks(region.blockList), ListBlocks(extracted), Cached(), elsewhere, region.layout.Blocks(0, region.carved));
      Shares(region.carved, |ListBlocks(region.blockList)| + |ListBlocks(extracted)|, |Cached()| + |elsewhere|,
             region.layout.blockSize);
    }

    static lemma {:induction false} PlacedCount(free: seq<nat>, extracted: seq<nat>, cached: seq<nat>,
                                                elsewhere: multiset<nat>, cut: seq<nat>)
      requires Placed(free, extracted, cached, elsewhere, cut)
      ensures |free| + |extracted| + |cached| + |elsewhere| == |cut|
    {
      assert |multiset(free) + multiset(extracted) + multiset(cached) + elsewhere| == |multiset(cut)|;
    }

    static lemma Shares(n: nat, x: int, y: int, b: nat)
      requires n == x + y
      ensures n * b - y * b == x * b
    {
    }

    /** refill: takes blocks from the free list into the empty cache. */
    method Refill(region: RegionInfo, batchClass: BatchClass, canMap: bool, random: (nat, nat) -> nat,
                  ghost extracted: seq<Group>, ghost elsewhere: multiset<nat>) returns (ok: bool)
      requires Valid() && count == 0 && Ledger(region, extracted, elsewhere) && batchClass.Valid()
      modifies this`count, chunks, region, batchClass, batchClass.region
      ensures Valid() && Ledger(region, extracted, elsewhere) && batchClass.Valid()
      ensures ok <==> count > 0
      ensures ok <==> old(region.blockList) != [] || old(region.CanGrow(canMap))
      ensures ok ==> region.PoppedFrom(old(region.blockList), old(region.carved), random, maxCount / 2, Cached())
      ensures old(region.carved) <= region.carved && (old(region.blockList) != [] ==> region.carved == old(region.carved))
    {
      hide ListBlocks, ListMeta, ListOk, MetaKept, region.layout.Blocks, batchClass.Valid, region.PoppedFrom, region.CanGrow;
      ghost var free, carved := ListBlocks(region.blockList), region.carved;
      var popped := region.PopBlocks(maxCount / 2, canMap, random, batchClass);
      for i := 0 to |popped|
        invariant chunks[..i] == popped[..i]
        modifies chunks
      {
        chunks[i] := popped[i];
      }
      count := |popped|;
      ok := popped != [];
      region.layout.BlocksSplit(0, carved, region.carved);
      assert chunks[..count] == popped;
      Refilled(free, ListBlocks(extracted), popped, elsewhere, region.layout.Blocks(0, carved),
               ListBlocks(region.blockList), region.layout.Blocks(carved, region.carved));
    }

    static lemma {:induction false} Refilled(free: seq<nat>, extracted: seq<nat>, popped: seq<nat>, elsewhere: multiset<nat>,
                                             cut: seq<nat>, free': seq<nat>, more: seq<nat>)
      requires Placed(free, extracted, [], elsewhere, cut)
      requires multiset(free) + multiset(more) == multiset(free') + multiset(popped)
      ensures Placed(free', extracted, popped, elsewhere, cut + more)
    {
      forall c
        ensures (multiset(free') + multiset(extracted) + multiset(popped) + elsewhere)[c] == multiset(cut + more)[c]
      {
        assert (multiset(free) + multiset(extracted) + multiset([]) + elsewhere)[c] == multiset(cut)[c];
        assert (multiset(free) + multiset(more))[c] == (multiset(free') + multiset(popped))[c];
      }
    }

    /** allocate: the block on top of the cache, refilled if need be. */
    method Allocate(region: RegionInfo, batchClass: BatchClass, canMap: bool, random: (nat, nat) -> nat,
                    ghost extracted: seq<Group>, ghost elsewhere: multiset<nat>) returns (block: Option<nat>)
      requires Valid() && Ledger(region, extracted, elsewhere) && batchClass.Valid()
      modifies this`count, chunks, region, batchClass, batchClass.region
      ensures Valid() && batchClass.Valid()
      ensures block == None ==> Ledger(region, extracted, elsewhere)
      ensures block != None ==> Ledger(region, extracted, elsewhere + multiset{block.value})
      ensures block == None <==> old(count) == 0 && old(region.blockList) == [] && !old(region.CanGrow(canMap))
      ensures old(count) > 0 ==>
        && block == Some(old(chunks[count - 1])) && count == old(count) - 1
        && region.blockList == old(region.blockList) && region.carved == old(region.carved)
      ensures old(count) == 0 && block.Some? ==>
        region.PoppedFrom(old(region.blockList), old(region.carved), random, maxCount / 2, Cached() + [block.value])
    {
      hide ListBlocks, region.Valid, region.MemoryOk, region.layout.Blocks, batchClass.Valid, region.PoppedFrom, region.CanGrow, Placed;
      if count == 0 {
        var ok := Refill(region, batchClass, canMap, random, extracted, elsewhere);
        if !ok {
          return None;
        }
      }
      ghost var cached := Cached();
      var top := Take();
      assert cached == Cached() + [top];
      OneOut(ListBlocks(region.blockList), ListBlocks(extracted), Cached(), top, elsewhere, region.layout.Blocks(0, region.carved));
      block := Some(top);
    }

    static lemma {:induction false} OneOut(free: seq<nat>, extracted: seq<nat>, cached: seq<nat>, top: nat,
                                           elsewhere: multiset<nat>, cut: seq<nat>)
      requires Placed(free, extracted, cached + [top], elsewhere, cut)
      ensures Placed(free, extracted, cached, elsewhere + multiset{top}, cut)
    {
      assert multiset(free) + multiset(extracted) + multiset(cached + [top]) + elsewhere
          == multiset(free) + multiset(extracted) + multiset(cached) + (elsewhere + multiset{top});
    }

    /** Takes the block on top of the cache. */
    method Take() returns (block: nat)
      requires Valid() && count > 0
      modifies this`count
      ensures Valid() && old(Cached()) == Cached() + [block]
    {
      count := count - 1;
      block := chunks[count];
    }

    /** drain(C, ClassId): the oldest blocks, up to half of the most allowed, go
        back to the free list, and the others move down. */
    method DrainHalf(region: RegionInfo, batchClass: BatchClass, ghost extracted: seq<Group>, ghost elsewhere: multiset<nat>)
      requires Valid() && count > 0 && Ledger(region, extracted, elsewhere) && batchClass.Valid()
      modifies this`count, chunks, region, batchClass, batchClass.region
      ensures Valid() && Ledger(region, extracted, elsewhere) && batchClass.Valid()
      ensures Cached() == old(Cached())[Min(maxCount / 2, old(count))..] && region.carved == old(region.carved)
      ensures Pushed(old(region.blockList), region.blockList, old(Cached())[..Min(maxCount / 2, old(count))], region.groupScale)
    {
      hide ListBlocks, region.Valid, region.MemoryOk, region.layout.Blocks, batchClass.Valid, Placed, Pushed;
      var n := Min(maxCount / 2, count);
      ghost var cached, free := Cached(), ListBlocks(region.blockList);
      GiveOldest(n, region, batchClass);
      ShiftDown(n);
      Drained(free, ListBlocks(extracted), cached, n, elsewhere, region.layout.Blocks(0, region.carved), ListBlocks(region.blockList));
    }

    /** Pushes the oldest `n` blocks to the free list. */
    method GiveOldest(n: nat, region: RegionInfo, batchClass: BatchClass)
      requires Valid() && 0 < n <= count && region.Valid() && batchClass.Valid()
      modifies region`blockList, region`pushedBlocks, batchClass, batchClass.region
      ensures region.Valid() && batchClass.Valid() && region.pushedBlocks == old(region.pushedBlocks) + n
      ensures multiset(ListBlocks(region.blockList)) == multiset(ListBlocks(old(region.blockList))) + multiset(Cached()[..n])
      ensures Pushed(old(region.blockList), region.blockList, Cached()[..n], region.groupScale)
    {
      hide ListBlocks, ListOk, Gains, Pushed, batchClass.Valid;
      var input := CopyOut(n);
      ghost var before, given := region.Now(batchClass), input[..];
      assert given == Cached()[..n];
      region.PushBlocks(input, true, batchClass);
      Gained(before, region.Now(batchClass), given, region.groupScale);
    }

    /** Drops the oldest `n` blocks and moves the others down. */
    method ShiftDown(n: nat)
      requires Valid() && n <= count
      modifies this`count, chunks
      ensures Valid() && count == old(count) - n && Cached() == old(Cached())[n..]
    {
      ghost var cached := Cached();
      count := count - n;
      for i := 0 to count
        invariant forall k :: 0 <= k < i ==> chunks[k] == cached[n + k]
        invariant forall k :: n + i <= k < |cached| ==> chunks[k] == cached[k]
        modifies chunks
      {
        chunks[i] := chunks[i + n];
      }
    }

    static lemma Gained(x: Books, y: Books, more: seq<nat>, groupScale: nat)
      requires Gains(x, y, more, groupScale)
      ensures multiset(ListBlocks(y.list)) == multiset(ListBlocks(x.list)) + multiset(more)
      ensures Pushed(x.list, y.list, more, groupScale)
    {
    }

    method CopyOut(n: nat) returns (input: array<nat>)
      requires Valid() && n <= count
      ensures fresh(input) && input[..] == chunks[..n]
    {
      input := new nat[n];
      for i := 0 to n
        invariant input[..i] == chunks[..i]
      {
        input[i] := chunks[i];
      }
    }

    static lemma {:induction false} Drained(free: seq<nat>, extracted: seq<nat>, cached: seq<nat>, n: nat,
                                            elsewhere: multiset<nat>, cut: seq<nat>, free': seq<nat>)
      requires n <= |cached| && Placed(free, extracted, cached, elsewhere, cut)
      requires multiset(free') == multiset(free) + multiset(cached[..n])
      ensures Placed(free', extracted, cached[n..], elsewhere, cut)
    {
      assert cached == cached[..n] + cached[n..];
    }

    /** deallocate: keeps a block that the user gives back, after draining half of a
        full cache. */
    method Deallocate(p: nat, region: RegionInfo, batchClass: BatchClass,
                      ghost extracted: seq<Group>, ghost elsewhere: multiset<nat>) returns (drained: bool)
      requires Valid() && Ledger(region, extracted, elsewhere) && batchClass.Valid() && p in elsewhere
      modifies this`count, chunks, region, batchClass, batchClass.region
      ensures Valid() && Ledger(region, extracted, elsewhere - multiset{p}) && batchClass.Valid()
      ensures (drained <==> old(count) == maxCount) && region.carved == old(region.carved)
      ensures !drained ==> Cached() == old(Cached()) + [p] && region.blockList == old(region.blockList)
      ensures drained ==>
        && Cached() == old(Cached())[maxCount / 2..] + [p]
        && Pushed(old(region.blockList), region.blockList, old(Cached())[..maxCount / 2], region.groupScale)
    {
      hide batchClass.Valid, Ledger, Pushed;
      drained := count == maxCount;
      if drained {
        DrainHalf(region, batchClass, extracted, elsewhere);
      }
      Keep(p, region, extracted, elsewhere);
    }

    /** Puts a block on top of the cache. */
    method Keep(p: nat, region: RegionInfo, ghost extracted: seq<Group>, ghost elsewhere: multiset<nat>)
      requires Valid() && count < maxCount && Ledger(region, extracted, elsewhere) && p in elsewhere
      modifies this`count, chunks
      ensures Valid() && count == old(count) + 1 && Cached() == old(Cached()) + [p]
      ensures Ledger(region, extracted, elsewhere - multiset{p})
    {
      hide ListBlocks, region.layout.Blocks, Placed, region.MemoryOk, region.Valid;
      ghost var cached := Cached();
      Put(p);
      GivenBack(ListBlocks(region.blockList), ListBlocks(extracted), cached, p, elsewhere, region.layout.Blocks(0, region.carved));
    }

    method Put(p: nat)
      requires Valid() && count < maxCount
      modifies this`count, chunks
      ensures Valid() && count == old(count) + 1 && Cached() == old(Cached()) + [p]
    {
      chunks[count] := p;
      count := count + 1;
    }

    static lemma {:induction false} GivenBack(free: seq<nat>, extracted: seq<nat>, cached: seq<nat>, p: nat,
                                              elsewhere: multiset<nat>, cut: seq<nat>)
      requires p in elsewhere && Placed(free, extracted, cached, elsewhere, cut)
      ensures Placed(free, extracted, cached + [p], elsewhere - multiset{p}, cut)
      ensures |elsewhere - multiset{p}| == |elsewhere| - 1
    {
      assert elsewhere == elsewhere - multiset{p} + multiset{p};
    }

    /** Drains this class completely, oldest blocks first. */
    method DrainAll(region: RegionInfo, batchClass: BatchClass, ghost extracted: seq<Group>, ghost elsewhere: multiset<nat>)
      requires Valid() && Ledger(region, extracted, elsewhere) && batchClass.Valid()
      modifies this`count, chunks, region, batchClass, batchClass.region
      ensures Valid() && Ledger(region, extracted, elsewhere) && batchClass.Valid() && count == 0
      ensures Pushed(old(region.blockList), region.blockList, old(Cached()), region.groupScale) && region.carved == old(region.carved)
    {
      hide ListBlocks, ListOk, region.layout.Blocks, batchClass.Valid, Ledger, Pushed;
      ghost var cached, gs, done := Cached(), region.blockList, 0;
      PushedNothing(gs, region.groupScale);
      while count > 0
        invariant Valid() && Ledger(region, extracted, elsewhere) && batchClass.Valid()
        invariant done + count == |cached| && Cached() == cached[done..]
        invariant Pushed(gs, region.blockList, cached[..done], region.groupScale) && region.carved == old(region.carved)
        decreases count
      {
        ghost var now, n := region.blockList, Min(maxCount / 2, count);
        DrainHalf(region, batchClass, extracted, elsewhere);
        PushedTrans(gs, now, region.blockList, cached[..done], cached[done..][..n], region.groupScale);
        assert cached[..done] + cached[done..][..n] == cached[..done + n];
        done := done + n;
      }
      assert cached[..done] == cached;
    }
  }

  /** A thread's cache: one `PerClass` for each class but the batch class, whose
      cache is the batch class object. `extracted[i]` and `elsewhere[i]` are the
      blocks of class `i` in extracted groups and with users and other threads. */
  class Cache {
    const classes: seq<PerClass>
    const regions: seq<RegionInfo>
    const batchClass: BatchClass

    constructor (classes: seq<PerClass>, regions: seq<RegionInfo>, batchClass: BatchClass)
      ensures this.classes == classes && this.regions == regions && this.batchClass == batchClass
    {
      this.classes, this.regions, this.batchClass := classes, regions, batchClass;
    }

    function Objects(): set<object>
    {
      (set i | 0 <= i < |classes| :: classes[i]) + (set i | 0 <= i < |classes| :: classes[i].chunks)
      + (set i | 0 <= i < |regions| :: regions[i]) + {batchClass, batchClass.region}
    }

    ghost predicate Apart() {
      && |classes| == |regions|
      && forall i, j :: 0 <= i < j < |classes| ==>
           classes[i] != classes[j] && classes[i].chunks != classes[j].chunks && regions[i] != regions[j]
    }

    ghost predicate ClassOk(i: nat, extracted: seq<seq<Group>>, elsewhere: seq<multiset<nat>>)
      requires i < |classes| == |regions| == |extracted| == |elsewhere|
      reads classes[i], classes[i].chunks, regions[i]
    {
      classes[i].Valid() && classes[i].Ledger(regions[i], extracted[i], elsewhere[i])
    }

    ghost predicate Valid(extracted: seq<seq<Group>>, elsewhere: seq<multiset<nat>>)
      reads Objects()
    {
      && Apart() && batchClass.Valid()
      && |classes| == |extracted| == |elsewhere|
      && forall i :: 0 <= i < |classes| ==> ClassOk(i, extracted, elsewhere)
    }

    /** drain(): the other classes first, since giving blocks back may take blocks of
        the batch class; in the end every class is empty. */
    method Drain(ghost extracted: seq<seq<Group>>, ghost elsewhere: seq<multiset<nat>>)
      requires Valid(extracted, elsewhere)
      modifies Objects()
      ensures Valid(extracted, elsewhere)
      ensures (forall i :: 0 <= i < |classes| ==> classes[i].count == 0) && batchClass.chunks == []
      ensures forall i :: 0 <= i < |regions| ==> regions[i].carved == old(regions[i].carved)
    {
      hide batchClass.Valid, ClassOk;
      for k := 0 to |classes|
        invariant Valid(extracted, elsewhere)
        invariant forall i :: 0 <= i < k ==> classes[i].count == 0
        invariant forall i :: 0 <= i < |regions| ==> regions[i].carved == old(regions[i].carved)
      {
        DrainClass(k, extracted, elsewhere);
      }
      batchClass.Drain();
    }

    method DrainClass(k: nat, ghost extracted: seq<seq<Group>>, ghost elsewhere: seq<multiset<nat>>)
      requires k < |classes| == |regions| == |extracted| == |elsewhere|
      requires ClassOk(k, extracted, elsewhere) && batchClass.Valid()
      modifies classes[k], classes[k].chunks, regions[k], batchClass, batchClass.region
      ensures ClassOk(k, extracted, elsewhere) && batchClass.Valid() && classes[k].count == 0
      ensures regions[k].carved == old(regions[k].carved)
    {
      classes[k].DrainAll(regions[k], batchClass, extracted[k], elsewhere[k]);
    }
  }
}
