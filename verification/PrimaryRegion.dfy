/** The free list operations of SizeClassAllocator64 on one region: pushing sorted
    arrays of blocks, popping from the front batch, taking groups out for page
    release and merging them back. */
module PrimaryRegion {
  import opened Common
  import opened Bits
  import opened FreeList
  import opened BlockArrays
  import opened GroupMerge
  import opened BatchClassList
  import opened PushOrder
  import opened Shuffling
  import Carving

  /** Between two moments, every metadata block that was taken is in the list or
      was returned. `m`, `t`, `r`: blocks used by the list, taken, returned. */
  ghost predicate MetaKept(m: seq<nat>, t: seq<nat>, r: seq<nat>, m': seq<nat>, t': seq<nat>, r': seq<nat>) {
    multiset(m') + multiset(r') + multiset(t) == multiset(m) + multiset(r) + multiset(t')
  }

  lemma MetaNone(m: seq<nat>, t: seq<nat>, r: seq<nat>)
    ensures MetaKept(m, t, r, m, t, r)
  {
  }

  lemma AddToBoth(x: multiset<nat>, y: multiset<nat>, z: multiset<nat>)
    ensures x == y <==> x + z == y + z
  {
    if x + z == y + z {
      assert x == x + z - z && y == y + z - z;
    }
  }

  lemma {:induction false} MetaTake(m: seq<nat>, t: seq<nat>, r: seq<nat>, m': seq<nat>, t': seq<nat>, r': seq<nat>,
                                    more: seq<nat>, x: seq<nat>)
    requires MetaKept(m, t, r, m', t', r')
    requires multiset(more) == multiset(m') + multiset(x)
    ensures MetaKept(m, t, r, more, t' + x, r')
  {
    AddToBoth(multiset(m') + multiset(r') + multiset(t), multiset(m) + multiset(r) + multiset(t'), multiset(x));
    assert multiset(m') + multiset(x) + multiset(r') + multiset(t)
        == multiset(m') + multiset(r') + multiset(t) + multiset(x);
    assert multiset(m) + multiset(r) + (multiset(t') + multiset(x))
        == multiset(m) + multiset(r) + multiset(t') + multiset(x);
  }

  lemma {:induction false} MetaReturn(m: seq<nat>, t: seq<nat>, r: seq<nat>, m': seq<nat>, t': seq<nat>, r': seq<nat>,
                                      less: seq<nat>, x: seq<nat>)
    requires MetaKept(m, t, r, m', t', r')
    requires multiset(m') == multiset(less) + multiset(x)
    ensures MetaKept(m, t, r, less, t', r' + x)
  {
    assert multiset(less) + (multiset(r') + multiset(x)) + multiset(t)
        == multiset(less) + multiset(x) + multiset(r') + multiset(t);
  }

  /** The free list together with the traffic of metadata blocks. */
  datatype Books = Books(list: seq<Group>, taken: seq<nat>, returned: seq<nat>)

  /** From `x` to `y` the free list gained exactly the blocks `more`, each on top of its
      group, and every metadata block is accounted for. */
  ghost predicate Gains(x: Books, y: Books, more: seq<nat>, groupScale: nat) {
    && multiset(ListBlocks(y.list)) == multiset(ListBlocks(x.list)) + multiset(more)
    && Pushed(x.list, y.list, more, groupScale)
    && MetaKept(ListMeta(x.list), x.taken, x.returned, ListMeta(y.list), y.taken, y.returned)
  }

  lemma GainsNothing(x: Books, groupScale: nat)
    ensures Gains(x, x, [], groupScale)
  {
    PushedNothing(x.list, groupScale);
    hide Pushed, ListBlocks, ListMeta;
  }

  lemma {:induction false} GainsTrans(x: Books, y: Books, z: Books, a: seq<nat>, b: seq<nat>, groupScale: nat)
    requires Gains(x, y, a, groupScale) && Gains(y, z, b, groupScale)
    ensures Gains(x, z, a + b, groupScale)
  {
    hide ListBlocks, ListMeta, Pushed;
    PushedTrans(x.list, y.list, z.list, a, b, groupScale);
    MetaTrans(ListMeta(x.list), x.taken, x.returned, ListMeta(y.list), y.taken, y.returned,
              ListMeta(z.list), z.taken, z.returned);
    assert multiset(ListBlocks(x.list)) + multiset(a) + multiset(b) == multiset(ListBlocks(x.list)) + (multiset(a) + multiset(b));
  }

  lemma {:induction false} MetaTrans(m: seq<nat>, t: seq<nat>, r: seq<nat>, m': seq<nat>, t': seq<nat>, r': seq<nat>,
                                     m'': seq<nat>, t'': seq<nat>, r'': seq<nat>)
    requires MetaKept(m, t, r, m', t', r') && MetaKept(m', t', r', m'', t'', r'')
    ensures MetaKept(m, t, r, m'', t'', r'')
  {
    forall c ensures (multiset(m'') + multiset(r'') + multiset(t))[c] == (multiset(m) + multiset(r) + multiset(t''))[c] {
      assert (multiset(m') + multiset(r') + multiset(t))[c] == (multiset(m) + multiset(r) + multiset(t'))[c];
      assert (multiset(m'') + multiset(r'') + multiset(t'))[c] == (multiset(m') + multiset(r') + multiset(t''))[c];
    }
  }

  lemma {:induction false} NewFrontBatch(batches: seq<Batch>, addr: nat, cap: nat)
    requires Fillable(batches, cap) && |batches[0].blocks| == cap
    ensures Fillable([Batch(addr, [])] + batches, cap)
    ensures BatchesBlocks([Batch(addr, [])] + batches) == BatchesBlocks(batches)
    ensures BatchesMeta([Batch(addr, [])] + batches) == [addr] + BatchesMeta(batches)
  {
    var b := [Batch(addr, [])] + batches;
    assert b[1..] == batches;
    assert BatchesBlocks(b) == [] + BatchesBlocks(batches);
  }

  /** Opens a new front batch before a full one. */
  method OpenBatch(batches: seq<Batch>, cap: nat, batchClass: BatchClass) returns (result: seq<Batch>)
    requires Fillable(batches, cap) && |batches[0].blocks| == cap
    requires batchClass.Valid()
    modifies batchClass, batchClass.region
    ensures batchClass.Valid()
    ensures Fillable(result, cap) && result[0].blocks == [] && BatchesBlocks(result) == BatchesBlocks(batches)
    ensures Stack(result) == Stack(batches)
    ensures MetaKept(BatchesMeta(batches), old(batchClass.taken), old(batchClass.returned),
                     BatchesMeta(result), batchClass.taken, batchClass.returned)
  {
    hide batchClass.Valid, BatchesBlocks, BatchesMeta, MetaKept, Fillable, Stack;
    ghost var taken := batchClass.taken;
    var addr := batchClass.GetBatchClassBlock();
    NewFrontBatch(batches, addr, cap);
    StackOpen(batches, addr);
    result := [Batch(addr, [])] + batches;
    MetaNone(BatchesMeta(batches), taken, batchClass.returned);
    MetaTake(BatchesMeta(batches), taken, batchClass.returned, BatchesMeta(batches), taken, batchClass.returned,
             BatchesMeta(result), [addr]);
  }

  /** Appends an array to a group, opening a new front batch when one fills up. The
      array ends up on top of the stack that the batches are. */
  method InsertBlocks(batches: seq<Batch>, cap: nat, input: seq<nat>, batchClass: BatchClass) returns (result: seq<Batch>)
    requires cap > 0 && Fillable(batches, cap)
    requires batchClass.Valid()
    modifies batchClass, batchClass.region
    ensures batchClass.Valid()
    ensures Fillable(result, cap) && (input != [] ==> BatchesOk(result, cap))
    ensures multiset(BatchesBlocks(result)) == multiset(BatchesBlocks(batches)) + multiset(input)
    ensures Stack(result) == Stack(batches) + input
    ensures MetaKept(BatchesMeta(batches), old(batchClass.taken), old(batchClass.returned),
                     BatchesMeta(result), batchClass.taken, batchClass.returned)
  {
    hide batchClass.Valid, BatchesBlocks, BatchesMeta, MetaKept, Append, AllFull, Stack;
    result := batches;
    var i := 0;
    MetaNone(BatchesMeta(batches), batchClass.taken, batchClass.returned);
    assert input[..0] == [];
    while i < |input|
      invariant batchClass.Valid()
      invariant 0 <= i <= |input| && Fillable(result, cap) && (i > 0 ==> result[0].blocks != [])
      invariant Stack(result) == Stack(batches) + input[..i]
      invariant MetaKept(BatchesMeta(batches), old(batchClass.taken), old(batchClass.returned),
                         BatchesMeta(result), batchClass.taken, batchClass.returned)
    {
      var unusedSlots := cap - |result[0].blocks|;
      if unusedSlots == 0 {
        ghost var before, taken, returned := BatchesMeta(result), batchClass.taken, batchClass.returned;
        result := OpenBatch(result, cap, batchClass);
        MetaTrans(BatchesMeta(batches), old(batchClass.taken), old(batchClass.returned), before, taken, returned,
                  BatchesMeta(result), batchClass.taken, batchClass.returned);
        unusedSlots := cap;
      }
      var appendSize := Min(unusedSlots, |input| - i);
      AppendBlocks(result, input[i..i + appendSize], cap);
      StackAppend(result, input[i..i + appendSize]);
      assert |input[i..i + appendSize]| == appendSize > 0;
      NextPiece(Stack(batches), input, i, appendSize);
      result := Append(result, input[i..i + appendSize]);
      i := i + appendSize;
    }
    assert input[..|input|] == input;
    StackContents(result);
    StackContents(batches);
    assert BatchesOk(result, cap) || input == [] by { FilledOk(result, cap); }
  }

  lemma NextPiece(x: seq<nat>, input: seq<nat>, i: nat, n: nat)
    requires i + n <= |input|
    ensures x + input[..i] + input[i..i + n] == x + input[..i + n]
  {
  }

  lemma FilledOk(batches: seq<Batch>, cap: nat)
    requires Fillable(batches, cap)
    ensures batches[0].blocks != [] ==> BatchesOk(batches, cap)
  {
  }

  const MAX_UNUSED := 8

  class RegionInfo {
    const cap: nat         // the most blocks a batch may hold
    const groupScale: nat
    const layout: Carving.Layout
    var blockList: seq<Group>
    var pushedBlocks: int
    var poppedBlocks: int
    var allocatedUser: nat
    var mappedUser: nat
    var exhausted: bool
    ghost var carved: nat  // how many blocks have been cut so far

    ghost predicate Valid()
      reads this`blockList
    {
      cap > 0 && ListOk(blockList, cap, groupScale)
    }

    ghost predicate MemoryOk()
      reads this`carved, this`allocatedUser, this`mappedUser
    {
      layout.Valid() && allocatedUser == layout.Start(carved) && allocatedUser <= mappedUser
    }

    ghost function Now(batchClass: BatchClass): Books
      reads this, batchClass
    {
      Books(blockList, batchClass.taken, batchClass.returned)
    }

    /** A region of which nothing is mapped yet. */
    constructor (cap: nat, groupScale: nat, layout: Carving.Layout)
      requires cap > 0 && layout.Valid()
      ensures Valid() && MemoryOk() && this.cap == cap && this.groupScale == groupScale && this.layout == layout
      ensures blockList == [] && pushedBlocks == poppedBlocks == 0 && carved == 0 && mappedUser == 0 && !exhausted
    {
      this.cap, this.groupScale, this.layout := cap, groupScale, layout;
      blockList, pushedBlocks, poppedBlocks := [], 0, 0;
      allocatedUser, mappedUser, exhausted, carved := 0, 0, false, 0;
    }

    /** Walks from `start` to the group with base `base`, creating it if missing. */
    method FindOrCreateGroup(base: nat, start: nat, batchClass: BatchClass, ghost before: Books, ghost had: seq<nat>)
      returns (cur: nat)
      requires Valid() && start <= |blockList| && Gains(before, Now(batchClass), had, groupScale)
      requires forall i :: 0 <= i < start ==> blockList[i].base < base
      requires batchClass.Valid()
      modifies this`blockList, batchClass, batchClass.region
      ensures batchClass.Valid()
      ensures ListOkBut(blockList, cap, groupScale, cur) && blockList[cur].base == base
      ensures Gains(before, Now(batchClass), had, groupScale)
    {
      hide batchClass.Valid, GroupOk, Gains, Contents;
      ghost var now := Now(batchClass);
      cur := start;
      while cur < |blockList| && base > blockList[cur].base
        invariant start <= cur <= |blockList|
        invariant forall i :: 0 <= i < cur ==> blockList[i].base < base
      {
        cur := cur + 1;
      }
      if cur < |blockList| {
        OkIsOkBut(blockList, cap, groupScale, cur);
      }
      if cur == |blockList| || base != blockList[cur].base {
        var groupAddr := batchClass.GetBatchClassBlock();
        var batchAddr := batchClass.GetBatchClassBlock();
        var group := Group(groupAddr, base, [Batch(batchAddr, [])], 0);
        NewGroupGains(before, now, had, cap, groupScale, cur, group, batchAddr);
        blockList := blockList[..cur] + [group] + blockList[cur..];
        assert batchClass.taken == now.taken + [groupAddr, batchAddr];
      }
    }

    static lemma {:induction false} NewGroupGains(before: Books, now: Books, had: seq<nat>, cap: nat, groupScale: nat,
                                                  cur: nat, g: Group, addr: nat)
      requires Gains(before, now, had, groupScale) && ListOk(now.list, cap, groupScale)
      requires cur <= |now.list| && g.batches == [Batch(addr, [])] && g.checkpoint == 0
      requires forall i :: 0 <= i < cur ==> now.list[i].base < g.base
      requires cur < |now.list| ==> g.base < now.list[cur].base
      ensures var list := now.list[..cur] + [g] + now.list[cur..];
        && ListOkBut(list, cap, groupScale, cur) && list[cur] == g
        && Gains(before, Books(list, now.taken + [g.addr, addr], now.returned), had, groupScale)
    {
      hide ListBlocks, ListMeta, MetaKept, GroupOk, Pushed, GroupOf, AllInGroup;
      var list := now.list[..cur] + [g] + now.list[cur..];
      NewGroup(now.list, cap, groupScale, cur, g, addr);
      NewGroupContents(now.list, cur, g, addr);
      PushedNew(now.list, cur, g, groupScale);
      MetaNone(ListMeta(now.list), now.taken, now.returned);
      MetaTake(ListMeta(now.list), now.taken, now.returned, ListMeta(now.list), now.taken, now.returned,
               ListMeta(list), [g.addr, addr]);
      GainsTrans(before, now, Books(list, now.taken + [g.addr, addr], now.returned), had, [], groupScale);
      assert had + [] == had;
    }

    /** Adds the run `input[from..to]`, all of one group, to that group. */
    method InsertRun(cur: nat, input: seq<nat>, from: nat, to: nat, batchClass: BatchClass, ghost before: Books)
      requires cap > 0 && ListOkBut(blockList, cap, groupScale, cur) && from < to <= |input|
      requires AllInGroup(input[from..to], blockList[cur].base, groupScale)
      requires Gains(before, Now(batchClass), input[..from], groupScale)
      requires batchClass.Valid()
      modifies this`blockList, batchClass, batchClass.region
      ensures batchClass.Valid()
      ensures Valid() && |blockList| == |old(blockList)|
      ensures forall i :: 0 <= i < |blockList| ==> blockList[i].base == old(blockList)[i].base
      ensures Gains(before, Now(batchClass), input[..to], groupScale)
    {
      hide batchClass.Valid, ListBlocks, ListMeta, MetaKept, GroupOk, AllInGroup, BatchesBlocks, BatchesMeta, Pushed, Stack;
      ghost var run, now := input[from..to], Now(batchClass);
      var batches := InsertBlocks(blockList[cur].batches, cap, input[from..to], batchClass);
      FillGroup(blockList, cap, groupScale, cur, batches, run);
      MetaOfGroup(blockList, cur, batches, now.taken, now.returned, batchClass.taken, batchClass.returned);
      PushedRun(blockList, cur, batches, run, groupScale);
      blockList := blockList[cur := blockList[cur].(batches := batches)];
      GainsTrans(before, now, Now(batchClass), input[..from], run, groupScale);
      assert input[..to] == input[..from] + run;
    }

    static lemma {:induction false} MetaOfGroup(gs: seq<Group>, cur: nat, batches: seq<Batch>,
                                                t: seq<nat>, r: seq<nat>, t': seq<nat>, r': seq<nat>)
      requires cur < |gs|
      requires MetaKept(BatchesMeta(gs[cur].batches), t, r, BatchesMeta(batches), t', r')
      ensures MetaKept(ListMeta(gs), t, r, ListMeta(gs[cur := gs[cur].(batches := batches)]), t', r')
    {
      hide ListMeta, BatchesMeta;
      var g := gs[cur].(batches := batches);
      ReplaceGroup(gs, cur, g);
      var m, m' := multiset(ListMeta(gs)), multiset(ListMeta(gs[cur := g]));
      var b, b' := multiset(BatchesMeta(gs[cur].batches)), multiset(BatchesMeta(batches));
      var a := multiset{g.addr};
      assert m' + (a + b) == m + (a + b');
      forall c ensures (m' + multiset(r') + multiset(t))[c] == (m + multiset(r) + multiset(t'))[c] {
        assert (m' + (a + b))[c] == (m + (a + b'))[c];
        assert (b' + multiset(r') + multiset(t))[c] == (b + multiset(r) + multiset(t'))[c];
      }
    }

    /** pushBlocksImpl: every block of the sorted array ends up on top of its own group. */
    method PushBlocksImpl(input: seq<nat>, sameGroup: bool, batchClass: BatchClass)
      requires Valid() && input != [] && SortedByGroup(input, groupScale)
      requires sameGroup ==> AllInGroup(input, GroupOf(input[0], groupScale), groupScale)
      requires batchClass.Valid()
      modifies this`blockList, this`pushedBlocks, batchClass, batchClass.region
      ensures batchClass.Valid()
      ensures Valid() && pushedBlocks == old(pushedBlocks) + |input|
      ensures Gains(old(Now(batchClass)), Now(batchClass), input, groupScale)
    {
      hide batchClass.Valid, Gains, GroupOk, GroupOf, Fillable, AllInGroup;
      pushedBlocks := pushedBlocks + |input|;
      ghost var before := Now(batchClass);
      GainsNothing(before, groupScale);
      assert input[..0] == [] && input[0..|input|] == input[..|input|] == input;
      var cur := FindOrCreateGroup(GroupOf(input[0], groupScale), 0, batchClass, before, []);
      if sameGroup {
        InsertRun(cur, input, 0, |input|, batchClass, before);
        return;
      }
      var count := 1;
      RunOfOne(input, 0, groupScale);
      for i := 1 to |input|
        invariant batchClass.Valid()
        invariant 1 <= count <= i
        invariant pushedBlocks == old(pushedBlocks) + |input|
        invariant ListOkBut(blockList, cap, groupScale, cur)
        invariant Gains(before, Now(batchClass), input[..i - count], groupScale)
        invariant blockList[cur].base == GroupOf(input[i - 1], groupScale)
        invariant AllInGroup(input[i - count..i], GroupOf(input[i - 1], groupScale), groupScale)
      {
        if GroupOf(input[i - 1], groupScale) != GroupOf(input[i], groupScale) {
          InsertRun(cur, input, i - count, i, batchClass, before);
          cur := FindOrCreateGroup(GroupOf(input[i], groupScale), cur, batchClass, before, input[..i]);
          count := 1;
          RunOfOne(input, i, groupScale);
        } else {
          RunOfMore(input, i - count, i, groupScale);
          count := count + 1;
        }
      }
      InsertRun(cur, input, |input| - count, |input|, batchClass, before);
    }

    static lemma RunOfOne(input: seq<nat>, i: nat, groupScale: nat)
      requires i < |input|
      ensures AllInGroup(input[i..i + 1], GroupOf(input[i], groupScale), groupScale)
    {
    }

    static lemma {:induction false} RunOfMore(input: seq<nat>, from: nat, i: nat, groupScale: nat)
      requires from < i < |input| && GroupOf(input[i - 1], groupScale) == GroupOf(input[i], groupScale)
      requires AllInGroup(input[from..i], GroupOf(input[i - 1], groupScale), groupScale)
      ensures AllInGroup(input[from..i + 1], GroupOf(input[i], groupScale), groupScale)
    {
      assert input[from..i + 1] == input[from..i] + [input[i]];
    }

    /** Leaves only `rest` in the front batch, and recycles what became empty. */
    method KeepInFront(rest: seq<nat>, batchClass: BatchClass)
      requires blockList != [] && blockList[0].batches != []
      requires batchClass.Valid()
      modifies this`blockList, batchClass, batchClass.region
      ensures batchClass.Valid()
      ensures blockList == AfterPop(old(blockList), rest)
      ensures batchClass.returned == old(batchClass.returned) + Recycled(old(blockList), rest)
      ensures batchClass.taken == old(batchClass.taken)
    {
      var group := blockList[0];
      var batch := group.batches[0];
      if rest == [] {
        batchClass.Return(batch.addr);
        var batches := group.batches[1..];
        if batches == [] {
          blockList := blockList[1..];
          batchClass.Return(group.addr);
        } else {
          blockList := [group.(batches := batches)] + blockList[1..];
        }
      } else {
        blockList := [group.(batches := [batch.(blocks := rest)] + group.batches[1..])] + blockList[1..];
      }
    }

    /** popBlocksImpl: hands out blocks of the front batch, and recycles the batch
        and then the group once they are empty. */
    method PopBlocksImpl(maxBlockCount: nat, batchClass: BatchClass) returns (popped: seq<nat>)
      requires Valid()
      requires batchClass.Valid()
      modifies this`blockList, this`poppedBlocks, batchClass, batchClass.region
      ensures batchClass.Valid()
      ensures Valid() && poppedBlocks == old(poppedBlocks) + |popped|
      ensures multiset(ListBlocks(old(blockList))) == multiset(ListBlocks(blockList)) + multiset(popped)
      ensures MetaKept(ListMeta(old(blockList)), old(batchClass.taken), old(batchClass.returned),
                       ListMeta(blockList), batchClass.taken, batchClass.returned)
      ensures |popped| <= maxBlockCount && (popped == [] <==> old(blockList) == [] || maxBlockCount == 0)
      ensures old(blockList) == [] ==> Now(batchClass) == old(Now(batchClass))
      ensures old(blockList) != [] ==> FrontPopped(old(blockList), maxBlockCount, popped, blockList)
      ensures |popped| <= cap && forall i :: 0 <= i < |popped| ==> GroupOf(popped[i], groupScale) == old(blockList)[0].base
    {
      hide batchClass.Valid, GroupOf, AllFull, MetaKept, ListBlocks, ListMeta, GroupOk, AfterPop, Recycled;
      MetaNone(ListMeta(blockList), batchClass.taken, batchClass.returned);
      if blockList == [] {
        return [];
      }
      ghost var gs := blockList;
      FrontBatchOk(gs, cap, groupScale);
      var group := blockList[0];
      var batch := group.batches[0];
      var popCount := Min(maxBlockCount, |batch.blocks|);
      var rest := batch.blocks[..|batch.blocks| - popCount];
      popped := batch.blocks[|batch.blocks| - popCount..];
      PopKeepsOrder(gs, cap, groupScale, rest, popped);
      PopContents(gs, rest, popped);
      PopMeta(gs, rest);
      KeepInFront(rest, batchClass);
      MetaReturn(ListMeta(gs), batchClass.taken, old(batchClass.returned), ListMeta(gs), batchClass.taken,
                 old(batchClass.returned), ListMeta(blockList), Recycled(gs, rest));
      poppedBlocks := poppedBlocks + popCount;
    }

    /** pushBlocks for a class other than the batch class; `grouped` says that the
        region holds more than one group. Sorting the array first does not change the
        order of the blocks of one group. */
    method PushBlocks(input: array<nat>, grouped: bool, batchClass: BatchClass)
      requires Valid() && input.Length > 0
      requires !grouped ==> AllInGroup(input[..], GroupOf(input[0], groupScale), groupScale)
      requires batchClass.Valid()
      modifies this`blockList, this`pushedBlocks, batchClass, batchClass.region, input
      ensures batchClass.Valid()
      ensures Valid() && pushedBlocks == old(pushedBlocks) + input.Length
      ensures Gains(old(Now(batchClass)), Now(batchClass), old(input[..]), groupScale)
    {
      hide batchClass.Valid, Gains, ListOk, GroupOf;
      var sameGroup := true;
      ghost var before := Now(batchClass);
      if grouped {
        sameGroup := SortByGroup(input, groupScale);
      } else {
        OneGroupSorted(input[..], groupScale);
      }
      assert before == Now(batchClass);
      ghost var sorted := input[..];
      PushBlocksImpl(input[..], sameGroup, batchClass);
      GainsSame(before, Now(batchClass), sorted, old(input[..]), groupScale);
    }

    static lemma {:induction false} GainsSame(x: Books, y: Books, a: seq<nat>, b: seq<nat>, groupScale: nat)
      requires Gains(x, y, a, groupScale) && multiset(a) == multiset(b) && SameOrder(a, b, groupScale)
      ensures Gains(x, y, b, groupScale)
    {
      hide ListBlocks, ListMeta, MetaKept, GroupStack, Checkpoint, OfGroup;
    }

    static lemma OneGroupSorted(input: seq<nat>, groupScale: nat)
      requires input != [] && AllInGroup(input, GroupOf(input[0], groupScale), groupScale)
      ensures SortedByGroup(input, groupScale)
    {
    }

    /** Step 2 of releaseToOSMaybe: takes groups out of the free list. With
        `forceAll` the whole list is taken, otherwise collectGroupsToRelease picks. */
    method CollectGroupsToRelease(forceAll: bool, criteria: Criteria) returns (groups: seq<Group>)
      requires Valid() && criteria.cap == cap
      modifies this`blockList
      ensures blockList == if forceAll then [] else criteria.Kept(old(blockList))
      ensures groups == if forceAll then old(blockList) else criteria.Taken(old(blockList))
      ensures Valid() && ListOk(groups, cap, groupScale)
      ensures multiset(ListBlocks(old(blockList))) == multiset(ListBlocks(blockList)) + multiset(ListBlocks(groups))
      ensures multiset(ListMeta(old(blockList))) == multiset(ListMeta(blockList)) + multiset(ListMeta(groups))
    {
      if forceAll {
        groups := blockList;
        blockList := [];
        EmptyList();
        return;
      }
      groups := ExtractPicked(criteria);
      hide *;
      criteria.SplitContents(old(blockList));
      criteria.SplitOk(old(blockList), groupScale);
    }

    /** The walk of collectGroupsToRelease along the list. */
    method ExtractPicked(criteria: Criteria) returns (groups: seq<Group>)
      requires Valid() && criteria.cap == cap
      modifies this`blockList
      ensures blockList == criteria.Kept(old(blockList)) && groups == criteria.Taken(old(blockList))
    {
      hide criteria.Picked, criteria.Kept, criteria.Taken, criteria.Bytes, BytesInGroup, ListOk, GroupOk, FrontsFit;
      ghost var gs := blockList;
      FrontsOfOk(gs, cap, groupScale);
      ghost var k := 0;
      var cur := 0;
      groups := [];
      criteria.NoParts();
      assert gs[..0] == [] && gs[0..] == gs;
      while cur < |blockList|
        invariant k <= |gs| && cur == |criteria.Kept(gs[..k])|
        invariant blockList == criteria.Kept(gs[..k]) + gs[k..]
        invariant groups == criteria.Taken(gs[..k])
        decreases |gs| - k
      {
        var group := blockList[cur];
        CollectStep(criteria, gs, k);
        var bytes := BytesInGroup(group, criteria.blockSize);
        SpliceAt(criteria.Kept(gs[..k]), gs[k], gs[k + 1..], group.(checkpoint := bytes));
        k := k + 1;
        if bytes <= group.checkpoint {
          blockList := blockList[cur := group.(checkpoint := bytes)];
          cur := cur + 1;
        } else if bytes - group.checkpoint < criteria.minAttempt || !criteria.dense(group) {
          cur := cur + 1;
        } else {
          blockList := blockList[..cur] + blockList[cur + 1..];
          groups := groups + [group.(checkpoint := bytes)];
        }
      }
      assert gs[..k] == gs;
    }

    static lemma SpliceAt(p: seq<Group>, g: Group, r: seq<Group>, h: Group)
      ensures var s := p + ([g] + r);
        && s[|p|] == g && s == (p + [g]) + r
        && s[|p| := h] == (p + [h]) + r
        && s[..|p|] + s[|p| + 1..] == p + r
        && s[..|p|] + [h] + s[|p|..] == (p + [h]) + ([g] + r)
    {
    }

    /** The free bytes of a group, from its batch count and front batch alone. */
    function BytesInGroup(group: Group, blockSize: nat): nat
      requires group.batches != []
    {
      ((|group.batches| - 1) * cap + |group.batches[0].blocks|) * blockSize
    }

    lemma CollectStep(criteria: Criteria, gs: seq<Group>, k: nat)
      requires k < |gs| && FrontsFit(gs, cap) && criteria.cap == cap
      ensures gs[k..] == [gs[k]] + gs[k + 1..] && gs[k].batches != []
      ensures criteria.Bytes(gs[k]) == BytesInGroup(gs[k], criteria.blockSize)
      ensures var bytes := criteria.Bytes(gs[k]);
        && (criteria.Picked(gs[k]) <==>
            bytes > gs[k].checkpoint && bytes - gs[k].checkpoint >= criteria.minAttempt && criteria.dense(gs[k]))
        && (if criteria.Picked(gs[k]) then
              criteria.Kept(gs[..k + 1]) == criteria.Kept(gs[..k])
              && criteria.Taken(gs[..k + 1]) == criteria.Taken(gs[..k]) + [gs[k].(checkpoint := bytes)]
            else
              criteria.Kept(gs[..k + 1])
                == criteria.Kept(gs[..k]) + [if bytes <= gs[k].checkpoint then gs[k].(checkpoint := bytes) else gs[k]]
              && criteria.Taken(gs[..k + 1]) == criteria.Taken(gs[..k]))
    {
      hide criteria.Kept, criteria.Taken;
      criteria.SnocParts(gs[..k], gs[k]);
      assert gs[..k + 1] == gs[..k] + [gs[k]];
    }

    /** Merges the batches of `group`, taken out earlier, into `into`. */
    method MergeBatches(into: Group, group: Group) returns (merged: Group, unused: seq<nat>)
      requires into.batches != [] && group.batches != []
      requires |into.batches[0].blocks| <= cap && |group.batches[0].blocks| <= cap
      ensures merged == JoinGroups(into, group, cap) && unused == UnusedBatch(into.batches, group.batches, cap)
      ensures |unused| <= 1
    {
      var batches := into.batches;
      unused := [];
      var nonFull := group.batches[0];
      if |nonFull.blocks| == cap {
        batches := batches + group.batches;
      } else {
        var count := |nonFull.blocks|;
        batches := batches + group.batches[1..];
        if |batches[0].blocks| == cap {
          batches := [nonFull] + batches;
        } else {
          var toMove := Min(cap - |batches[0].blocks|, count);
          batches := batches[0 := batches[0].(blocks := batches[0].blocks + nonFull.blocks[count - toMove..])];
          nonFull := nonFull.(blocks := nonFull.blocks[..count - toMove]);
          assert batches == [batches[0]] + (into.batches[1..] + group.batches[1..]);
          if nonFull.blocks == [] {
            unused := [nonFull.addr];
          } else {
            batches := [nonFull] + batches;
          }
        }
      }
      merged := into.(checkpoint := group.checkpoint, batches := batches);
    }

    /** Keeps metadata blocks for later, after emptying a buffer they do not fit in. */
    method Buffer(pending: seq<nat>, freed: seq<nat>, batchClass: BatchClass) returns (later: seq<nat>)
      requires |pending| <= MAX_UNUSED && |freed| <= 2
      requires batchClass.Valid()
      modifies batchClass, batchClass.region
      ensures batchClass.Valid()
      ensures batchClass.returned + later == (old(batchClass.returned) + pending) + freed
      ensures later == if |pending| + |freed| > MAX_UNUSED then freed else pending + freed
      ensures batchClass.taken == old(batchClass.taken) && |later| <= MAX_UNUSED
    {
      hide batchClass.Valid, Contents;
      later := pending;
      if |later| + |freed| > MAX_UNUSED {
        batchClass.ReturnAll(later);
        later := [];
      }
      later := later + freed;
    }

    /** The walk of mergeGroupsToReleaseBack: it leaves the sorted merge, and the
        metadata no longer needed goes back to the batch class in pieces of at
        most eight. */
    method MergeWalk(groups: seq<Group>, batchClass: BatchClass)
      requires Valid() && ListOk(groups, cap, groupScale)
      requires batchClass.Valid()
      modifies this`blockList, batchClass, batchClass.region
      ensures batchClass.Valid()
      ensures blockList == MergeLists(old(blockList), groups, cap)
      ensures batchClass.returned == old(batchClass.returned) + MergeLeftover(old(blockList), groups, cap)
      ensures batchClass.taken == old(batchClass.taken)
    {
      hide batchClass.Valid, ListOk, JoinGroups, Leftover, UnusedBatch, MergeLists, MergeLeftover, NoEmptyGroup, FrontsFit, Merging;
      ghost var gs := blockList;
      ghost var done, todo, freed := [], gs, [];
      var left, pending, cur := groups, [], 0;
      FrontsOfOk(gs, cap, groupScale);
      FrontsOfOk(groups, cap, groupScale);
      MergingStart(gs, groups, cap);
      while cur < |blockList| && left != []
        invariant batchClass.Valid()
        invariant cur == |done| && blockList == done + todo && |pending| <= MAX_UNUSED
        invariant FrontsFit(todo, cap) && FrontsFit(left, cap)
        invariant Merging(gs, groups, done, freed, todo, left, cap)
        invariant batchClass.returned + pending == old(batchClass.returned) + freed
        invariant batchClass.taken == old(batchClass.taken)
        decreases |todo| + |left|
      {
        var group := blockList[cur];
        FrontsTail(todo, cap);
        FrontsTail(left, cap);
        MergingStep(gs, groups, done, freed, todo, left, cap);
        SpliceAt(done, todo[0], todo[1..], if group.base == left[0].base then JoinGroups(todo[0], left[0], cap) else left[0]);
        if group.base < left[0].base {
          done, todo := done + [todo[0]], todo[1..];
        } else {
          var first := left[0];
          left := left[1..];
          if group.base == first.base {
            var merged, unused := MergeBatches(group, first);
            pending := Buffer(pending, [first.addr] + unused, batchClass);
            FreeLater(old(batchClass.returned), freed, [first.addr] + unused);
            freed := freed + ([first.addr] + unused);
            blockList := blockList[cur := merged];
            done, todo := done + [merged], todo[1..];
          } else {
            blockList := blockList[..cur] + [first] + blockList[cur..];
            done := done + [first];
          }
        }
        cur := cur + 1;
      }
      MergingEnd(gs, groups, done, freed, todo, left, cap);
      if left != [] {
        blockList := blockList + left;
      }
      if pending != [] {
        batchClass.ReturnAll(pending);
      } else {
        assert batchClass.returned + pending == batchClass.returned;
      }
    }

    /** mergeGroupsToReleaseBack: the merged list is in order and holds every
        block of both lists; metadata is in use or was returned. */
    method MergeGroupsToReleaseBack(groups: seq<Group>, batchClass: BatchClass)
      requires Valid() && ListOk(groups, cap, groupScale)
      requires batchClass.Valid()
      modifies this`blockList, batchClass, batchClass.region
      ensures batchClass.Valid()
      ensures Valid() && blockList == MergeLists(old(blockList), groups, cap)
      ensures multiset(ListBlocks(blockList)) == multiset(ListBlocks(old(blockList))) + multiset(ListBlocks(groups))
      ensures multiset(ListMeta(blockList)) + multiset(batchClass.returned)
           == multiset(ListMeta(old(blockList))) + multiset(ListMeta(groups)) + multiset(old(batchClass.returned))
      ensures batchClass.taken == old(batchClass.taken)
    {
      ghost var gs := blockList;
      MergeWalk(groups, batchClass);
      hide *;
      NoneBelowZero(gs);
      NoneBelowZero(groups);
      MergeOk(gs, groups, cap, groupScale, -1);
      MergeContents(gs, groups, cap);
    }

    /** Cuts `n` blocks off the unused memory. */
    method CutBlocks(n: nat) returns (a: array<nat>)
      requires MemoryOk()
      ensures fresh(a) && a.Length == n && a[..] == layout.Blocks(carved, carved + n)
    {
      hide layout.Start, layout.Blocks, Shr;
      a := new nat[n];
      var p := allocatedUser;
      layout.BlocksNone(carved);
      for i := 0 to n
        invariant p == layout.Start(carved + i)
        invariant a[..i] == layout.Blocks(carved, carved + i)
      {
        a[i] := Shr(p, layout.scale);
        assert a[..i + 1] == a[..i] + [a[i]];
        layout.BlocksNext(carved, carved + i);
        p := p + layout.blockSize;
      }
      assert a[..n] == a[..];
    }

    /** Pushes freshly cut blocks, each run of one group shuffled. */
    method PushShuffled(a: array<nat>, random: (nat, nat) -> nat, batchClass: BatchClass)
      requires Valid() && a.Length > 0
      requires batchClass.Valid()
      modifies this`blockList, this`pushedBlocks, batchClass, batchClass.region, a
      ensures batchClass.Valid()
      ensures Valid() && pushedBlocks == old(pushedBlocks) + a.Length
      ensures Gains(old(Now(batchClass)), Now(batchClass), a[..], groupScale)
      ensures multiset(a[..]) == multiset(old(a[..])) && RunsShuffled(old(a[..]), a[..], random, groupScale, a.Length)
    {
      hide batchClass.Valid, Gains, ListOk, GroupOf, AllInGroup, RunsShuffled, IsRun;
      ghost var before, cut := Now(batchClass), a[..];
      GainsNothing(before, groupScale);
      RunOfOne(cut, 0, groupScale);
      assert a[..0] == [] && cut[..1] == cut[0..1];
      NoRuns(cut, a[..], random, groupScale);
      var n, curGroup := 1, GroupOf(a[0], groupScale);
      for i := 1 to a.Length
        invariant batchClass.Valid()
        invariant 1 <= n <= i
        invariant a[i - n..] == cut[i - n..]
        invariant curGroup == GroupOf(cut[i - 1], groupScale) && AllInGroup(cut[i - n..i], curGroup, groupScale)
        invariant Valid() && pushedBlocks == old(pushedBlocks) + i - n
        invariant Gains(before, Now(batchClass), a[..i - n], groupScale)
        invariant multiset(a[..]) == multiset(cut) && RunsShuffled(cut, a[..], random, groupScale, i - n)
        invariant RunStarts(cut, i - n, groupScale)
      {
        assert a[i] == cut[i] by { assert a[i - n..][n] == cut[i - n..][n]; }
        if GroupOf(a[i], groupScale) != curGroup {
          OneRun(cut, i - n, i, groupScale);
          PushRun(a, i - n, n, random, batchClass, before, cut);
          RunOfOne(cut, i, groupScale);
          n, curGroup := 1, GroupOf(a[i], groupScale);
        } else {
          RunOfMore(cut, i - n, i, groupScale);
          n := n + 1;
        }
      }
      OneRun(cut, a.Length - n, a.Length, groupScale);
      PushRun(a, a.Length - n, n, random, batchClass, before, cut);
      assert a[..a.Length] == a[..];
    }

    /** Shuffles and pushes the `n` blocks from `from`, all of one group. */
    method PushRun(a: array<nat>, from: nat, n: nat, random: (nat, nat) -> nat, batchClass: BatchClass,
                   ghost before: Books, ghost cut: seq<nat>)
      requires Valid() && 0 < n && from + n <= a.Length == |cut| && a[from..] == cut[from..]
      requires AllInGroup(cut[from..from + n], GroupOf(cut[from + n - 1], groupScale), groupScale)
      requires Gains(before, Now(batchClass), a[..from], groupScale)
      requires multiset(a[..]) == multiset(cut) && RunsShuffled(cut, a[..], random, groupScale, from)
      requires IsRun(cut, from, from + n, groupScale)
      requires batchClass.Valid()
      modifies this`blockList, this`pushedBlocks, batchClass, batchClass.region, a
      ensures batchClass.Valid()
      ensures Valid() && pushedBlocks == old(pushedBlocks) + n && a[from + n..] == cut[from + n..]
      ensures Gains(before, Now(batchClass), a[..from + n], groupScale)
      ensures multiset(a[..]) == multiset(cut) && RunsShuffled(cut, a[..], random, groupScale, from + n)
    {
      hide batchClass.Valid, Gains, ListOk, GroupOf, RunsShuffled, IsRun;
      hide AllInGroup, SortedByGroup;
      ghost var now, was := Now(batchClass), a[..];
      Shuffle(a, from, n, Drawn(random, from + n));
      AfterShuffle(cut, was, a[..], random, groupScale, from, from + n);
      PushBlocksImpl(a[from..from + n], true, batchClass);
      GainsTrans(before, now, Now(batchClass), a[..from], a[from..from + n], groupScale);
      assert a[..from + n] == a[..from] + a[from..from + n];
    }

    /** What is known of the array once its next run is shuffled. */
    static lemma {:induction false} AfterShuffle(cut: seq<nat>, was: seq<nat>, now: seq<nat>, random: (nat, nat) -> nat,
                                                 groupScale: nat, from: nat, to: nat)
      requires RunsShuffled(cut, was, random, groupScale, from) && IsRun(cut, from, to, groupScale)
      requires from < to <= |cut| == |was| == |now| && was[from..] == cut[from..] && multiset(was) == multiset(cut)
      requires AllInGroup(cut[from..to], GroupOf(cut[to - 1], groupScale), groupScale)
      requires now[..from] == was[..from] && now[to..] == was[to..]
      requires now[from..to] == Shuffled(was[from..to], to - from, Drawn(random, to))
      requires multiset(now[from..to]) == multiset(was[from..to])
      ensures RunsShuffled(cut, now, random, groupScale, to) && multiset(now) == multiset(cut) && now[to..] == cut[to..]
      ensures var run := now[from..to]; AllInGroup(run, GroupOf(run[0], groupScale), groupScale) && SortedByGroup(run, groupScale)
    {
      hide RunsShuffled, IsRun, GroupOf, AllInGroup, SortedByGroup, Shuffled, Drawn;
      var n := to - from;
      assert was[from..to] == cut[from..to] by { assert was[from..][..n] == cut[from..][..n]; }
      assert was[to..] == cut[to..] by { assert was[from..][n..] == cut[from..][n..]; }
      OneMoreRun(cut, was, now, random, groupScale, from, to);
      ShuffledRun(cut[from..to], now[from..to], groupScale);
    }

    static lemma {:induction false} ShuffledRun(x: seq<nat>, y: seq<nat>, groupScale: nat)
      requires x != [] && multiset(x) == multiset(y) && AllInGroup(x, GroupOf(x[|x| - 1], groupScale), groupScale)
      ensures y != [] && AllInGroup(y, GroupOf(y[0], groupScale), groupScale) && SortedByGroup(y, groupScale)
    {
      hide GroupOf;
      assert |multiset(x)| == |multiset(y)|;
      forall i | 0 <= i < |y| ensures GroupOf(y[i], groupScale) == GroupOf(x[|x| - 1], groupScale) {
        assert y[i] in multiset(y);
        assert y[i] in x;
      }
    }

    /** Maps memory for at least one more batch of blocks, if it can. */
    method MapMore(canMap: bool) returns (ok: bool)
      requires MemoryOk() && !exhausted
      modifies this`mappedUser, this`exhausted
      ensures var mapSize := layout.MapSize(allocatedUser, old(mappedUser));
        && (exhausted <==> mapSize > 0 && layout.offset + old(mappedUser) + mapSize > layout.regionSize)
        && (ok <==> mapSize == 0 || (!exhausted && canMap))
        && mappedUser == old(mappedUser) + if ok then mapSize else 0
    {
      hide layout.MapSize;
      var mapSize := layout.MapSize(allocatedUser, mappedUser);
      ok := true;
      if mapSize > 0 {
        if layout.offset + mappedUser + mapSize > layout.regionSize {
          exhausted := true;
          return false;
        }
        if !canMap {
          return false;
        }
        mappedUser := mappedUser + mapSize;
      }
    }

    /** populateFreeListAndPopBlocks: maps more memory if needed, cuts new blocks,
        and hands out some. The new blocks are the next ones of the region, and each
        is handed out or in the list afterwards. */
    method PopulateFreeListAndPopBlocks(maxBlockCount: nat, canMap: bool, random: (nat, nat) -> nat, batchClass: BatchClass)
      returns (popped: seq<nat>)
      requires Valid() && MemoryOk() && !exhausted && maxBlockCount > 0
      requires batchClass.Valid()
      modifies this, batchClass, batchClass.region
      ensures batchClass.Valid()
      ensures Valid() && MemoryOk() && pushedBlocks == old(pushedBlocks)
      ensures var mapSize := layout.MapSize(old(allocatedUser), old(mappedUser));
        && (exhausted <==> mapSize > 0 && layout.offset + old(mappedUser) + mapSize > layout.regionSize)
        && (popped == [] <==> mapSize > 0 && (exhausted || !canMap))
        && (popped == [] <==> !old(CanGrow(canMap)))
        && mappedUser == old(mappedUser) + (if popped == [] then 0 else mapSize)
        && carved == old(carved) + (if popped == [] then 0 else layout.BlocksToCut(old(allocatedUser), mappedUser))
      ensures popped == [] ==> Now(batchClass) == old(Now(batchClass)) && carved == old(carved) && poppedBlocks == old(poppedBlocks)
      ensures popped != [] ==> exists filled :: Refilled(old(blockList), old(carved), random, filled) && FrontPopped(filled, maxBlockCount, popped, blockList)
      ensures popped != [] ==>
        && old(carved) < carved && |popped| <= maxBlockCount && poppedBlocks == old(poppedBlocks) + |popped|
        && multiset(ListBlocks(old(blockList))) + multiset(layout.Blocks(old(carved), carved))
           == multiset(ListBlocks(blockList)) + multiset(popped)
        && MetaKept(ListMeta(old(blockList)), old(batchClass.taken), old(batchClass.returned),
                    ListMeta(blockList), batchClass.taken, batchClass.returned)
    {
      hide batchClass.Valid, ListOk, ListBlocks, ListMeta, MetaKept, Gains, GroupOf, FrontPopped, RunsShuffled, Refilled,
           layout.MapSize, layout.BlocksToCut, layout.Start, layout.Blocks;
      layout.SomeBlocksFit(allocatedUser, mappedUser);
      var ok := MapMore(canMap);
      if !ok {
        return [];
      }
      var numberOfBlocks := layout.BlocksToCut(allocatedUser, mappedUser);
      var a := CutBlocks(numberOfBlocks);
      ghost var before, cut := Now(batchClass), a[..];
      PushShuffled(a, random, batchClass);
      ghost var filled := Now(batchClass);
      ghost var shuffled := a[..];
      NotEmptyAfter(before, filled, shuffled, groupScale);
      popped := PopBlocksImpl(maxBlockCount, batchClass);
      PopAfterPush(before, filled, Now(batchClass), cut, shuffled, popped, groupScale);
      pushedBlocks := pushedBlocks - numberOfBlocks;
      layout.StartSum(carved, numberOfBlocks);
      allocatedUser := allocatedUser + layout.blockSize * numberOfBlocks;
      carved := carved + numberOfBlocks;
      IsRefilled(before, filled, old(carved), cut, shuffled, random);
    }

    /** The list once the blocks cut since then were pushed, each run of one group
        shuffled. */
    ghost predicate Refilled(list: seq<Group>, before: nat, random: (nat, nat) -> nat, filled: seq<Group>)
      reads this`carved
    {
      && before <= carved && ListOk(filled, cap, groupScale)
      && multiset(ListBlocks(filled)) == multiset(ListBlocks(list)) + multiset(layout.Blocks(before, carved))
      && exists shuffled :: PushedShuffled(list, layout.Blocks(before, carved), random, shuffled, filled)
    }

    ghost predicate PushedShuffled(list: seq<Group>, cut: seq<nat>, random: (nat, nat) -> nat, shuffled: seq<nat>, filled: seq<Group>) {
      RunsShuffled(cut, shuffled, random, groupScale, |cut|) && Pushed(list, filled, shuffled, groupScale)
    }

    lemma IsRefilled(x: Books, y: Books, before: nat, cut: seq<nat>, shuffled: seq<nat>, random: (nat, nat) -> nat)
      requires Gains(x, y, shuffled, groupScale) && multiset(shuffled) == multiset(cut)
      requires RunsShuffled(cut, shuffled, random, groupScale, |cut|)
      requires before <= carved && ListOk(y.list, cap, groupScale) && cut == layout.Blocks(before, carved)
      ensures Refilled(x.list, before, random, y.list)
    {
      hide ListBlocks, ListMeta, MetaKept, Pushed, RunsShuffled, ListOk, layout.Blocks;
      assert PushedShuffled(x.list, cut, random, shuffled, y.list);
    }

    /** What was popped is from the front of `list` or, if that was empty, of the list of
        the blocks cut since. */
    ghost predicate PoppedFrom(list: seq<Group>, before: nat, random: (nat, nat) -> nat, maxBlockCount: nat, popped: seq<nat>)
      reads this`carved, this`blockList
    {
      if list != [] then carved == before && FrontPopped(list, maxBlockCount, popped, blockList)
      else exists filled :: Refilled([], before, random, filled) && FrontPopped(filled, maxBlockCount, popped, blockList)
    }

    /** New blocks can be cut: what is mapped is enough, or more can be mapped. */
    predicate CanGrow(canMap: bool)
      requires layout.Valid()
      reads this`exhausted, this`allocatedUser, this`mappedUser
    {
      var mapSize := layout.MapSize(allocatedUser, mappedUser);
      !exhausted && (mapSize == 0 || (layout.offset + mappedUser + mapSize <= layout.regionSize && canMap))
    }

    /** popBlocks, without other threads: from the free list, or else from new blocks. */
    method PopBlocks(maxBlockCount: nat, canMap: bool, random: (nat, nat) -> nat, batchClass: BatchClass)
      returns (popped: seq<nat>)
      requires Valid() && MemoryOk() && maxBlockCount > 0
      requires batchClass.Valid()
      modifies this, batchClass, batchClass.region
      ensures batchClass.Valid()
      ensures Valid() && MemoryOk() && pushedBlocks == old(pushedBlocks) && poppedBlocks == old(poppedBlocks) + |popped|
      ensures old(carved) <= carved && |popped| <= maxBlockCount && old(mappedUser) <= mappedUser
      ensures popped == [] <==> old(blockList) == [] && !old(CanGrow(canMap))
      ensures popped != [] ==> PoppedFrom(old(blockList), old(carved), random, maxBlockCount, popped)
      ensures old(blockList) != [] ==> carved == old(carved) && mappedUser == old(mappedUser) && exhausted == old(exhausted)
      ensures old(blockList) == [] && popped != [] ==> carved == old(carved) + layout.BlocksToCut(old(allocatedUser), mappedUser)
      ensures multiset(ListBlocks(old(blockList))) + multiset(layout.Blocks(old(carved), carved))
           == multiset(ListBlocks(blockList)) + multiset(popped)
      ensures MetaKept(ListMeta(old(blockList)), old(batchClass.taken), old(batchClass.returned),
                       ListMeta(blockList), batchClass.taken, batchClass.returned)
    {
      hide batchClass.Valid, ListOk, ListBlocks, ListMeta, MetaKept, GroupOf, FrontPopped, Refilled, layout.MapSize, layout.BlocksToCut, layout.Blocks, layout.Valid;
      ghost var before := Now(batchClass);
      popped := PopBlocksImpl(maxBlockCount, batchClass);
      layout.BlocksNone(carved);
      if popped != [] {
        return;
      }
      ghost var between := Now(batchClass);
      if !exhausted {
        popped := PopulateFreeListAndPopBlocks(maxBlockCount, canMap, random, batchClass);
        if popped == [] {
          MetaNone(ListMeta(between.list), between.taken, between.returned);
        }
        MetaTrans(ListMeta(before.list), before.taken, before.returned, ListMeta(between.list), between.taken,
                  between.returned, ListMeta(blockList), batchClass.taken, batchClass.returned);
      }
    }

    static lemma {:induction false} NotEmptyAfter(x: Books, y: Books, more: seq<nat>, groupScale: nat)
      requires Gains(x, y, more, groupScale) && more != []
      ensures y.list != []
    {
      assert more[0] in multiset(more);
    }

    static lemma {:induction false} PopAfterPush(x: Books, y: Books, z: Books, cut: seq<nat>, shuffled: seq<nat>, popped: seq<nat>, groupScale: nat)
      requires Gains(x, y, shuffled, groupScale) && multiset(shuffled) == multiset(cut)
      requires multiset(ListBlocks(y.list)) == multiset(ListBlocks(z.list)) + multiset(popped)
      requires MetaKept(ListMeta(y.list), y.taken, y.returned, ListMeta(z.list), z.taken, z.returned)
      ensures multiset(ListBlocks(x.list)) + multiset(cut) == multiset(ListBlocks(z.list)) + multiset(popped)
      ensures MetaKept(ListMeta(x.list), x.taken, x.returned, ListMeta(z.list), z.taken, z.returned)
    {
      hide ListBlocks, ListMeta, MetaKept, Pushed;
      MetaTrans(ListMeta(x.list), x.taken, x.returned, ListMeta(y.list), y.taken, y.returned,
                ListMeta(z.list), z.taken, z.returned);
    }
  }
}
