/** The batch class of primary64.h. Its free list needs no memory of its own: its
    group and its batches live in free blocks that they themselves record. The
    cache of size_class_allocator.h in front of it supplies the other classes. */
module BatchClassList {
  import opened Common
  import opened FreeList

  // ---- Contents ---------------------------------------------------------

  /** The free blocks of the list. A group without batches stands for its own block. */
  function Contents(list: seq<Group>): seq<nat> {
    if list == [] then []
    else if list[0].batches == [] then [list[0].addr]
    else BatchesBlocks(list[0].batches)
  }

  /** The blocks in which the list is stored. */
  function Storage(list: seq<Group>): seq<nat> {
    if list == [] then [] else GroupMeta(list[0])
  }

  ghost predicate RecordItself(batches: seq<Batch>) {
    forall i :: 0 <= i < |batches| ==> batches[i].addr in batches[i].blocks
  }

  /** Every batch records the block it is stored in, the last batch also that of
      the group, and only the front batch may be less than full. */
  ghost predicate SelfContained(list: seq<Group>, cap: nat) {
    && |list| <= 1
    && (list != [] && list[0].batches != [] ==>
          var batches := list[0].batches;
          && BatchesOk(batches, cap) && RecordItself(batches)
          && list[0].addr in batches[|batches| - 1].blocks)
  }

  /** The list is stored in its own free blocks. */
  lemma {:induction false} StoredInside(list: seq<Group>, cap: nat, c: nat)
    requires SelfContained(list, cap) && c in Storage(list)
    ensures c in Contents(list)
  {
    if list[0].batches != [] {
      var batches := list[0].batches;
      LastInside(batches, list[0].addr);
      if c in BatchesMeta(batches) {
        BatchInside(batches, c);
      }
    }
  }

  lemma {:induction false} BatchInside(batches: seq<Batch>, c: nat)
    requires RecordItself(batches) && c in BatchesMeta(batches)
    ensures c in BatchesBlocks(batches)
  {
    if c != batches[0].addr {
      assert forall i :: 0 <= i < |batches| - 1 ==> batches[1..][i] == batches[i + 1];
      BatchInside(batches[1..], c);
    }
  }

  lemma {:induction false} LastInside(batches: seq<Batch>, c: nat)
    requires batches != [] && c in batches[|batches| - 1].blocks
    ensures c in BatchesBlocks(batches)
  {
    if |batches| > 1 {
      LastInside(batches[1..], c);
    }
  }

  // ---- Building a list --------------------------------------------------

  /** Batches under construction: each records itself, and the last one `group`. */
  ghost predicate Building(batches: seq<Batch>, cap: nat, group: nat) {
    BatchesOk(batches, cap) && RecordItself(batches) && group in batches[|batches| - 1].blocks
  }

  lemma {:induction false} NewBatch(batches: seq<Batch>, cap: nat, group: nat, addr: nat)
    requires cap > 0 && Building(batches, cap, group) && |batches[0].blocks| == cap
    ensures Building([Batch(addr, [addr])] + batches, cap, group)
    ensures BatchesBlocks([Batch(addr, [addr])] + batches) == [addr] + BatchesBlocks(batches)
  {
    var b := [Batch(addr, [addr])] + batches;
    assert b[1..] == batches;
    forall i | 0 <= i < |batches| ensures |batches[i].blocks| == cap {
      assert i > 0 ==> batches[i] == batches[1..][i - 1];
    }
  }

  lemma {:induction false} FillFront(batches: seq<Batch>, cap: nat, group: nat, blocks: seq<nat>)
    requires Building(batches, cap, group) && |batches[0].blocks| + |blocks| <= cap
    ensures Building(Append(batches, blocks), cap, group)
    ensures multiset(BatchesBlocks(Append(batches, blocks))) == multiset(BatchesBlocks(batches)) + multiset(blocks)
  {
    AppendBlocks(batches, blocks, cap);
    var b := Append(batches, blocks);
    assert b[1..] == batches[1..];
    forall i | 0 <= i < |b| ensures b[i].addr in b[i].blocks && (i > 0 ==> b[i] == batches[i]) {
      assert batches[i].addr in batches[i].blocks;
    }
  }

  class BatchRegion {
    const cap: nat
    var blockList: seq<Group>
    var pushedBlocks: int
    var poppedBlocks: int

    ghost predicate Valid()
      reads this
    {
      cap >= 2 && SelfContained(blockList, cap)
    }

    constructor (cap: nat)
      requires cap >= 2
      ensures Valid() && this.cap == cap && blockList == [] && pushedBlocks == 0 && poppedBlocks == 0
    {
      this.cap := cap;
      blockList := [];
      pushedBlocks, poppedBlocks := 0, 0;
    }

    /** pushBatchClassBlocks: exactly the given blocks join the free list. */
    method PushBatchClassBlocks(input: seq<nat>)
      requires Valid() && input != []
      modifies this
      ensures Valid() && pushedBlocks == old(pushedBlocks) + |input| && poppedBlocks == old(poppedBlocks)
      ensures multiset(Contents(blockList)) == multiset(Contents(old(blockList))) + multiset(input)
    {
      hide Contents, SelfContained;
      pushedBlocks := pushedBlocks + |input|;
      var size := StartGroup(input);
      if size == 0 {
        assert input[..0] == [];
        return;
      }
      FillGroup(input[..size]);
    }

    /** If there is no group yet, it goes into the last block. `size` blocks are left. */
    method StartGroup(input: seq<nat>) returns (size: nat)
      requires Valid() && input != []
      modifies this`blockList
      ensures Valid() && blockList != [] && size <= |input|
      ensures multiset(Contents(blockList)) + multiset(input[..size]) == multiset(Contents(old(blockList))) + multiset(input)
    {
      hide Contents, SelfContained;
      size := |input|;
      assert input[..size] == input;
      if blockList == [] {
        size := size - 1;
        LoneGroup(input[size], cap);
        TakeLast(input, size, Contents(blockList), [input[size]]);
        blockList := [Group(input[size], 0, [], 0)];
      }
    }

    /** Adds blocks to the group; its first batch goes into the last of them. */
    method FillGroup(input: seq<nat>)
      requires Valid() && blockList != [] && input != []
      modifies this`blockList
      ensures Valid() && multiset(Contents(blockList)) == multiset(Contents(old(blockList))) + multiset(input)
    {
      hide Contents, Building, SelfContained, BatchesBlocks;
      var size := |input|;
      assert input[..size] == input;
      OneGroup(blockList, cap);
      var group := blockList[0];
      if group.batches == [] {
        size := size - 1;
        FirstBatch(input[size], group, cap);
        TakeLast(input, size, Contents(blockList), [input[size]] + Contents(blockList));
        group := group.(batches := [Batch(input[size], [input[size], group.addr])]);
      } else {
        GroupContents(blockList, cap);
      }
      var batches := FillBatches(group.batches, group.addr, input[..size]);
      GroupContents([group.(batches := batches)], cap);
      blockList := [group.(batches := batches)];
    }

    static lemma {:induction false} TakeLast(input: seq<nat>, size: nat, before: seq<nat>, after: seq<nat>)
      requires size < |input| && (after == before + [input[size]] || after == [input[size]] + before)
      ensures multiset(after) + multiset(input[..size]) == multiset(before) + multiset(input[..size + 1])
    {
      assert input[..size + 1] == input[..size] + [input[size]];
    }

    static lemma LoneGroup(addr: nat, cap: nat)
      ensures Contents([]) == [] && Contents([Group(addr, 0, [], 0)]) == [addr]
      ensures SelfContained([Group(addr, 0, [], 0)], cap)
    {
    }

    static lemma GroupContents(list: seq<Group>, cap: nat)
      requires |list| == 1 && list[0].batches != []
      ensures Contents(list) == BatchesBlocks(list[0].batches)
      ensures SelfContained(list, cap) <==> Building(list[0].batches, cap, list[0].addr)
    {
    }

    static lemma OneGroup(list: seq<Group>, cap: nat)
      requires SelfContained(list, cap) && list != []
      ensures list == [list[0]]
    {
    }

    static lemma FirstBatch(addr: nat, group: Group, cap: nat)
      requires cap >= 2 && group.batches == []
      ensures Building([Batch(addr, [addr, group.addr])], cap, group.addr)
      ensures BatchesBlocks([Batch(addr, [addr, group.addr])]) == [addr, group.addr] == [addr] + Contents([group])
    {
      assert [Batch(addr, [addr, group.addr])][1..] == [];
    }

    /** `x` consists of `y` and the first `i` blocks of `input`. */
    static ghost predicate Grown(x: seq<nat>, y: seq<nat>, input: seq<nat>, i: nat)
      requires i <= |input|
    {
      multiset(x) == multiset(y) + multiset(input[..i])
    }

    static lemma {:induction false} GrowMore(x: seq<nat>, y: seq<nat>, input: seq<nat>, i: nat, n: nat, x': seq<nat>)
      requires i + n <= |input| && Grown(x, y, input, i)
      requires multiset(x') == multiset(x) + multiset(input[i..i + n])
      ensures Grown(x', y, input, i + n)
    {
      assert input[..i + n] == input[..i] + input[i..i + n];
    }

    static lemma {:induction false} GrowByOne(x: seq<nat>, y: seq<nat>, input: seq<nat>, i: nat)
      requires i < |input| && Grown(x, y, input, i)
      ensures Grown([input[i]] + x, y, input, i + 1)
    {
      assert input[..i + 1] == input[..i] + [input[i]];
    }

    static lemma GrownEnds(x: seq<nat>, y: seq<nat>, input: seq<nat>)
      ensures Grown(y, y, input, 0)
      ensures Grown(x, y, input, |input|) ==> multiset(x) == multiset(y) + multiset(input)
    {
      assert input[..|input|] == input && input[..0] == [];
    }

    static lemma FrontRoom(batches: seq<Batch>, cap: nat, group: nat)
      requires Building(batches, cap, group)
      ensures batches != [] && |batches[0].blocks| <= cap
    {
    }

    /** Adds blocks to the front batch, and opens new batches in blocks of the input. */
    method FillBatches(start: seq<Batch>, ghost group: nat, input: seq<nat>) returns (batches: seq<Batch>)
      requires cap >= 2 && Building(start, cap, group)
      ensures Building(batches, cap, group) && batches != []
      ensures multiset(BatchesBlocks(batches)) == multiset(BatchesBlocks(start)) + multiset(input)
    {
      hide BatchesBlocks, Append, Building, Grown;
      batches := start;
      var i := 0;
      GrownEnds([], BatchesBlocks(start), input);
      while i < |input|
        invariant i <= |input| && Building(batches, cap, group)
        invariant Grown(BatchesBlocks(batches), BatchesBlocks(start), input, i)
      {
        FrontRoom(batches, cap, group);
        var unusedSlots := cap - |batches[0].blocks|;
        if unusedSlots == 0 {
          NewBatch(batches, cap, group, input[i]);
          GrowByOne(BatchesBlocks(batches), BatchesBlocks(start), input, i);
          batches := [Batch(input[i], [input[i]])] + batches;
          i := i + 1;
          unusedSlots := cap - 1;
        }
        var appendSize := Min(unusedSlots, |input| - i);
        FillFront(batches, cap, group, input[i..i + appendSize]);
        GrowMore(BatchesBlocks(batches), BatchesBlocks(start), input, i, appendSize,
                 BatchesBlocks(Append(batches, input[i..i + appendSize])));
        batches := Append(batches, input[i..i + appendSize]);
        i := i + appendSize;
      }
      FrontRoom(batches, cap, group);
      GrownEnds(BatchesBlocks(batches), BatchesBlocks(start), input);
    }

    /** popBlocksImpl for this class: a whole batch of at most `cap` blocks, or the
        block of a group without batches. No popped block still stores the list. */
    method PopBlocksImpl() returns (popped: seq<nat>)
      requires Valid()
      modifies this
      ensures Valid() && poppedBlocks == old(poppedBlocks) + |popped| && pushedBlocks == old(pushedBlocks)
      ensures multiset(Contents(old(blockList))) == multiset(Contents(blockList)) + multiset(popped)
      ensures |popped| <= cap && (popped == [] <==> old(blockList) == [])
      ensures Contents(old(blockList)) == popped + Contents(blockList)
      ensures old(blockList) != [] && old(blockList[0].batches) != [] ==> popped == old(blockList[0].batches[0].blocks)
      ensures NoDuplicates(Contents(old(blockList))) ==>
        NoDuplicates(Contents(blockList)) && forall c :: c in popped ==> c !in Storage(blockList)
    {
      hide Contents, Storage, SelfContained, NoDuplicates;
      if blockList == [] {
        NothingLeft();
        return [];
      }
      ghost var list := blockList;
      PopParts(list, cap);
      var group := blockList[0];
      if group.batches == [] {
        blockList := [];
        poppedBlocks := poppedBlocks + 1;
        popped := [group.addr];
      } else {
        popped := group.batches[0].blocks;
        var batches := group.batches[1..];
        blockList := if batches == [] then [] else [group.(batches := batches)];
        poppedBlocks := poppedBlocks + |popped|;
      }
      if NoDuplicates(Contents(list)) {
        PoppedNotStored(list, blockList, popped, cap);
      }
    }

    static lemma NothingLeft()
      ensures Contents([]) == []
    {
    }

    /** The list without what is popped from it is again stored in itself. */
    static lemma {:induction false} PopParts(list: seq<Group>, cap: nat)
      requires SelfContained(list, cap) && cap >= 2 && list != []
      ensures SelfContained([], cap) && Contents([]) == []
      ensures var batches := list[0].batches;
        if batches == [] then Contents(list) == [list[0].addr]
        else
          var rest := if batches[1..] == [] then [] else [list[0].(batches := batches[1..])];
          && Contents(list) == batches[0].blocks + Contents(rest) && SelfContained(rest, cap)
          && 0 < |batches[0].blocks| <= cap
    {
      var batches := list[0].batches;
      if |batches| == 1 {
        BatchesSingle(batches[0]);
        assert batches == [batches[0]];
        assert batches[0].blocks + [] == batches[0].blocks;
      }
      if |batches| > 1 {
        assert forall i :: 0 <= i < |batches| - 1 ==> batches[1..][i] == batches[i + 1];
        assert forall i :: 0 <= i < |batches| - 2 ==> batches[1..][1..][i] == batches[1..][i + 1];
      }
    }

    static lemma {:induction false} PoppedNotStored(list: seq<Group>, rest: seq<Group>, popped: seq<nat>, cap: nat)
      requires NoDuplicates(Contents(list)) && SelfContained(rest, cap)
      requires Contents(list) == popped + Contents(rest)
      ensures NoDuplicates(Contents(rest)) && forall c :: c in popped ==> c !in Storage(rest)
    {
      hide Contents, Storage, SelfContained;
      var all := Contents(list);
      assert forall i :: 0 <= i < |popped| ==> popped[i] == all[i];
      assert forall i :: 0 <= i < |Contents(rest)| ==> Contents(rest)[i] == all[|popped| + i];
      forall c | c in popped ensures c !in Storage(rest) {
        if c in Storage(rest) {
          StoredInside(rest, cap, c);
        }
      }
    }
  }

  /** Every block of `cut`, and every block that came back, is free, cached or out. */
  ghost predicate Accounted(free: seq<nat>, cached: seq<nat>, out: seq<nat>, cut: seq<nat>, back: seq<nat>) {
    forall c :: Occurs(free, c) + Occurs(cached, c) + Occurs(out, c) == Occurs(cut, c) + Occurs(back, c)
  }

  lemma {:induction false} Parts(x: seq<nat>, y: seq<nat>)
    ensures forall c :: Occurs(x + y, c) == Occurs(x, c) + Occurs(y, c)
    ensures forall c :: Occurs([], c) == 0
  {
    forall c ensures Occurs(x + y, c) == Occurs(x, c) + Occurs(y, c) && Occurs([], c) == 0 {
      OccursConcat(x, y, c);
      OccursNone(c);
    }
  }

  lemma {:induction false} PartsOf(all: seq<nat>, x: seq<nat>, y: seq<nat>)
    requires multiset(all) == multiset(x) + multiset(y)
    ensures forall c :: Occurs(all, c) == Occurs(x, c) + Occurs(y, c)
  {
    forall c ensures Occurs(all, c) == Occurs(x, c) + Occurs(y, c) {
      OccursInSum(all, [], x, y, c);
      OccursNone(c);
    }
  }

  /** New blocks are cut and some of what is free then is taken. */
  lemma {:induction false} GrowAccounted(free: seq<nat>, out: seq<nat>, cut: seq<nat>, back: seq<nat>, added: seq<nat>,
                                         more: seq<nat>, free': seq<nat>, popped: seq<nat>)
    requires Accounted(free, [], out, cut, back)
    requires multiset(more) == multiset(free) + multiset(added) == multiset(free') + multiset(popped)
    ensures Accounted(free', popped, out, cut + added, back)
  {
    hide Occurs;
    Parts(cut, added);
    PartsOf(more, free, added);
    PartsOf(more, free', popped);
  }

  /** The batch class as the other classes use it: a cache of blocks in front of the
      free list. `taken` and `returned` are the blocks that went out and came back. */
  class BatchClass {
    const region: BatchRegion
    const supply: nat -> nat   // the blocks of the region, in the order they are cut
    const growth: nat -> nat   // how many blocks are cut when so many exist
    var carved: nat
    var chunks: seq<nat>
    ghost var taken: seq<nat>
    ghost var returned: seq<nat>

    ghost predicate Valid()
      reads this, region
    {
      && region.Valid() && |chunks| <= MaxCount() && Balanced()
    }

    /** Every block is in the free list, in the cache, or out. */
    ghost predicate Balanced()
      reads this, region
    {
      Accounted(Contents(region.blockList), chunks, taken, Supplied(supply, carved), returned)
    }

    function MaxCount(): nat
      reads region
    {
      2 * region.cap
    }

    constructor (cap: nat, supply: nat -> nat, growth: nat -> nat)
      requires cap >= 2
      ensures Valid() && fresh(region) && this.supply == supply && region.cap == cap
      ensures chunks == [] && taken == [] && returned == [] && carved == 0
    {
      this.supply, this.growth := supply, growth;
      region := new BatchRegion(cap);
      carved, chunks, taken, returned := 0, [], [], [];
    }

    /** Refills the empty cache with one batch, cutting new blocks if there is none. */
    method Refill()
      requires Valid() && chunks == []
      modifies this`carved, this`chunks, region
      ensures Valid() && 0 < |chunks| <= region.cap
      ensures region.pushedBlocks == old(region.pushedBlocks) && region.poppedBlocks == old(region.poppedBlocks) + |chunks|
      ensures carved == old(carved) + if old(region.blockList) == [] then growth(old(carved)) + 1 else 0
      ensures old(region.blockList) != [] ==> Contents(old(region.blockList)) == chunks + Contents(region.blockList)
    {
      hide Contents, SelfContained, Occurs, Supplied;
      ghost var free := Contents(region.blockList);
      var popped := region.PopBlocksImpl();
      PartsOf(free, Contents(region.blockList), popped);
      Parts([], []);
      if popped == [] {
        popped := Grow();
      }
      chunks := popped;
    }

    /** Cuts new blocks and takes the first batch of them. */
    method Grow() returns (popped: seq<nat>)
      requires Valid() && chunks == []
      modifies this`carved, region
      ensures region.Valid() && popped != [] && |popped| <= region.cap
      ensures region.pushedBlocks == old(region.pushedBlocks) && region.poppedBlocks == old(region.poppedBlocks) + |popped|
      ensures carved == old(carved) + growth(old(carved)) + 1
      ensures Accounted(Contents(region.blockList), popped, taken, Supplied(supply, carved), returned)
    {
      hide Contents, SelfContained, Occurs, Supplied, Accounted;
      ghost var free := Contents(region.blockList);
      var n := growth(carved) + 1;
      var cut := Supplied(supply, carved + n)[carved..];
      SuppliedSplit(supply, carved, n);
      region.PushBatchClassBlocks(cut);
      ghost var more := Contents(region.blockList);
      region.pushedBlocks := region.pushedBlocks - n;
      NotEmpty(region.blockList, free, cut);
      popped := region.PopBlocksImpl();
      GrowAccounted(free, taken, Supplied(supply, carved), returned, cut, more, Contents(region.blockList), popped);
      carved := carved + n;
    }

    static lemma {:induction false} NotEmpty(list: seq<Group>, free: seq<nat>, cut: seq<nat>)
      requires multiset(Contents(list)) == multiset(free) + multiset(cut) && cut != []
      ensures list != []
    {
      assert cut[0] in multiset(cut);
    }

    /** getBatchClassBlock: a block for a new group or batch of another class. */
    method GetBatchClassBlock() returns (addr: nat)
      requires Valid()
      modifies this, region
      ensures Valid() && taken == old(taken) + [addr] && returned == old(returned)
      ensures region.pushedBlocks == old(region.pushedBlocks)
      ensures old(chunks) != [] ==>
        && old(chunks) == chunks + [addr] && carved == old(carved)
        && region.blockList == old(region.blockList) && region.poppedBlocks == old(region.poppedBlocks)
      ensures old(chunks) == [] ==>
        && region.poppedBlocks == old(region.poppedBlocks) + |chunks| + 1
        && carved == old(carved) + (if old(region.blockList) == [] then growth(old(carved)) + 1 else 0)
        && (old(region.blockList) != [] ==> Contents(old(region.blockList)) == chunks + [addr] + Contents(region.blockList))
    {
      hide Contents, SelfContained, Occurs, Supplied;
      if chunks == [] {
        Refill();
      }
      var n := |chunks| - 1;
      addr := chunks[n];
      assert chunks == chunks[..n] + [addr];
      Parts(chunks[..n], [addr]);
      Parts(taken, [addr]);
      chunks := chunks[..n];
      taken := taken + [addr];
    }

    /** Hands the older half of a full cache back to the free list. */
    method DrainHalf()
      requires Valid() && chunks != []
      modifies this`chunks, region
      ensures Valid() && chunks == old(chunks)[Min(region.cap, |old(chunks)|)..]
      ensures multiset(Contents(region.blockList))
           == multiset(Contents(old(region.blockList))) + multiset(old(chunks)[..Min(region.cap, |old(chunks)|)])
      ensures region.poppedBlocks == old(region.poppedBlocks)
      ensures region.pushedBlocks == old(region.pushedBlocks) + Min(region.cap, |old(chunks)|)
    {
      hide Contents, SelfContained, Occurs, Supplied;
      ghost var free := Contents(region.blockList);
      var count := Min(MaxCount() / 2, |chunks|);
      assert chunks == chunks[..count] + chunks[count..];
      Parts(chunks[..count], chunks[count..]);
      region.PushBatchClassBlocks(chunks[..count]);
      PartsOf(Contents(region.blockList), free, chunks[..count]);
      chunks := chunks[count..];
    }

    /** A block comes back through the cache, as deallocate does for this class. */
    method Return(addr: nat)
      requires Valid()
      modifies this, region
      ensures Valid() && returned == old(returned) + [addr] && taken == old(taken)
      ensures carved == old(carved) && region.poppedBlocks == old(region.poppedBlocks)
      ensures |old(chunks)| < 2 * region.cap ==>
        && chunks == old(chunks) + [addr] && region.blockList == old(region.blockList)
        && region.pushedBlocks == old(region.pushedBlocks)
      ensures |old(chunks)| == 2 * region.cap ==>
        && chunks == old(chunks)[region.cap..] + [addr] && region.pushedBlocks == old(region.pushedBlocks) + region.cap
        && multiset(Contents(region.blockList)) == multiset(Contents(old(region.blockList))) + multiset(old(chunks)[..region.cap])
    {
      hide Contents, SelfContained, Occurs, Supplied;
      if |chunks| == MaxCount() {
        DrainHalf();
      }
      Parts(chunks, [addr]);
      Parts(returned, [addr]);
      chunks := chunks + [addr];
      returned := returned + [addr];
    }

    /** Blocks come back straight to the free list. */
    method ReturnAll(blocks: seq<nat>)
      requires Valid() && blocks != []
      modifies this`returned, region
      ensures Valid() && returned == old(returned) + blocks
      ensures region.pushedBlocks == old(region.pushedBlocks) + |blocks| && region.poppedBlocks == old(region.poppedBlocks)
      ensures multiset(Contents(region.blockList)) == multiset(Contents(old(region.blockList))) + multiset(blocks)
    {
      hide Contents, SelfContained, Occurs, Supplied;
      ghost var free := Contents(region.blockList);
      region.PushBatchClassBlocks(blocks);
      PartsOf(Contents(region.blockList), free, blocks);
      Parts(returned, blocks);
      returned := returned + blocks;
    }

    /** Empties the cache. */
    method Drain()
      requires Valid()
      modifies this`chunks, region
      ensures Valid() && chunks == [] && region.poppedBlocks == old(region.poppedBlocks)
      ensures region.pushedBlocks == old(region.pushedBlocks) + |old(chunks)|
    {
      hide Contents, SelfContained;
      while chunks != []
        invariant Valid() && region.poppedBlocks == old(region.poppedBlocks)
        invariant region.pushedBlocks + |chunks| == old(region.pushedBlocks) + |old(chunks)|
        decreases |chunks|
      {
        DrainHalf();
      }
    }
  }

  /** As long as only blocks that went out come back, the free list of the batch
      class is stored in no block that is cached or out. */
  lemma {:induction false} StorageIsFree(b: BatchClass, c: nat)
    requires b.Valid() && (forall x :: Occurs(Supplied(b.supply, b.carved), x) <= 1)
    requires forall x :: Occurs(b.returned, x) <= Occurs(b.taken, x)
    requires c in Storage(b.region.blockList)
    ensures c in Contents(b.region.blockList) && c !in b.chunks && Occurs(b.taken, c) == Occurs(b.returned, c)
  {
    hide Contents, Storage, SelfContained, Supplied;
    StoredInside(b.region.blockList, b.region.cap, c);
    assert Occurs(Contents(b.region.blockList), c) + Occurs(b.chunks, c) + Occurs(b.taken, c)
        == Occurs(Supplied(b.supply, b.carved), c) + Occurs(b.returned, c);
  }

  /** The first `n` blocks that are cut. */
  function Supplied(supply: nat -> nat, n: nat): (s: seq<nat>)
    ensures |s| == n
  {
    seq(n, i requires 0 <= i => supply(i))
  }

  lemma {:induction false} SuppliedSplit(supply: nat -> nat, m: nat, n: nat)
    ensures Supplied(supply, m + n)[..m] == Supplied(supply, m)
    ensures Supplied(supply, m + n) == Supplied(supply, m) + Supplied(supply, m + n)[m..]
  {
  }
}
