/** The operations of a region, each under its locks, are steps of the release protocol:
    what holds in all its runs holds of them. */
module ReleaseSteps {
  import opened Common
  import opened Bits
  import opened FreeList
  import opened BlockArrays
  import opened GroupMerge
  import opened BatchClassList
  import opened PrimaryRegion
  import opened GroupMarking
  import opened GroupRelease
  import opened ReleasedPages
  import opened ReleaseProtocol

  /** What a protocol state says about the region. */
  ghost predicate Matches(cfg: Config, s: State, region: RegionInfo)
    reads region
  {
    && cfg.Valid() && region.cap == cfg.cap && region.groupScale == cfg.GroupScale() && region.layout == cfg.layout
    && s.free == region.blockList && s.carved == region.carved && region.MemoryOk()
    && Inv(cfg, s)
  }

  /** A new region is where the runs of the protocol start. */
  method NewRegion(cfg: Config) returns (region: RegionInfo, ghost s: State)
    requires cfg.Valid()
    ensures fresh(region) && Init(s) && Matches(cfg, s, region)
  {
    region := new RegionInfo(cfg.cap, cfg.GroupScale(), cfg.layout);
    s := State(0, [], [], multiset{}, Idle, iset{});
    InitInv(cfg, s);
  }

  /** pushBlocks, under the free list lock, of blocks that the caller owns. */
  method Push(cfg: Config, ghost s: State, region: RegionInfo, input: array<nat>, grouped: bool, batchClass: BatchClass)
    returns (ghost s': State)
    requires Matches(cfg, s, region) && batchClass.Valid() && input.Length > 0
    requires !grouped ==> AllInGroup(input[..], GroupOf(input[0], region.groupScale), region.groupScale)
    requires multiset(input[..]) <= s.out
    modifies region`blockList, region`pushedBlocks, batchClass, batchClass.region, input
    ensures batchClass.Valid() && Matches(cfg, s', region)
    ensures Step(cfg, s, Event.Push(multiset(old(input[..]))), s')
  {
    hide ListOk, ListBlocks, MetaKept, AllInGroup, GroupOf, batchClass.Valid, PagesSafe;
    ghost var blocks := multiset(input[..]);
    region.PushBlocks(input, grouped, batchClass);
    s' := s.(free := region.blockList, out := s.out - blocks);
    StepInv(cfg, s, Event.Push(blocks), s');
  }

  /** popBlocks from the free list, under its lock. */
  method Pop(cfg: Config, ghost s: State, region: RegionInfo, maxBlockCount: nat, batchClass: BatchClass)
    returns (popped: seq<nat>, ghost s': State)
    requires Matches(cfg, s, region) && batchClass.Valid()
    modifies region`blockList, region`poppedBlocks, batchClass, batchClass.region
    ensures batchClass.Valid() && Matches(cfg, s', region)
    ensures Step(cfg, s, Event.Pop(multiset(popped)), s')
  {
    hide ListOk, ListBlocks, MetaKept, GroupOf, batchClass.Valid, PagesSafe;
    popped := region.PopBlocksImpl(maxBlockCount, batchClass);
    s' := s.(free := region.blockList, out := s.out + multiset(popped));
    StepInv(cfg, s, Event.Pop(multiset(popped)), s');
  }

  /** populateFreeListAndPopBlocks; its lock keeps releases out. */
  method Populate(cfg: Config, ghost s: State, region: RegionInfo, maxBlockCount: nat, canMap: bool,
                  random: (nat, nat) -> nat, batchClass: BatchClass)
    returns (popped: seq<nat>, ghost s': State)
    requires Matches(cfg, s, region) && batchClass.Valid() && s.phase == Idle && !region.exhausted && maxBlockCount > 0
    modifies region, batchClass, batchClass.region
    ensures batchClass.Valid() && Matches(cfg, s', region)
    ensures popped == [] ==> s' == s
    ensures popped != [] ==> s.carved < s'.carved && Step(cfg, s, Event.Populate(s'.carved - s.carved, multiset(popped)), s')
  {
    hide ListOk, ListBlocks, MetaKept, GroupOf, batchClass.Valid, PagesSafe, region.layout.Blocks, region.layout.MapSize;
    popped := region.PopulateFreeListAndPopBlocks(maxBlockCount, canMap, random, batchClass);
    s' := s;
    if popped != [] {
      s' := s.(carved := region.carved, free := region.blockList, out := s.out + multiset(popped));
      StepInv(cfg, s, Event.Populate(s'.carved - s.carved, multiset(popped)), s');
    }
  }

  lemma InOrder(cfg: Config, s: State)
    requires cfg.Valid() && Inv(cfg, s)
    ensures ListOk(s.free, cfg.cap, cfg.GroupScale())
  {
  }

  /** Steps 1 and 2 of releaseToOSMaybe, under both locks. */
  method Collect(cfg: Config, ghost s: State, region: RegionInfo, forceAll: bool, criteria: Criteria)
    returns (groups: seq<Group>, ghost s': State)
    requires Matches(cfg, s, region) && s.phase == Idle && criteria.cap == region.cap
    modifies region`blockList
    ensures Matches(cfg, s', region) && groups == s'.extracted
    ensures Step(cfg, s, Event.Collect(forceAll, criteria), s')
  {
    hide ListOk, ListBlocks, PagesSafe, criteria.Kept, criteria.Taken, Inv, ListMeta, region.layout.Valid;
    assert region.Valid() by { InOrder(cfg, s); }
    groups := region.CollectGroupsToRelease(forceAll, criteria);
    s' := s.(phase := if groups == [] then Idle else Collected, extracted := groups, free := region.blockList);
    StepInv(cfg, s, Event.Collect(forceAll, criteria), s');
  }

  /** Steps 3 and 4, which only touch the extracted groups: the pages of the new state
      are the ones that the calls release. */
  method Release(cfg: Config, ghost s: State, region: RegionInfo, groups: seq<Group>, wordLog: nat, regionBeg: nat, mapped: bool)
    returns (calls: seq<(nat, nat)>, ghost s': State)
    requires Matches(cfg, s, region) && s.phase == Collected && groups == s.extracted
    requires Pow2(cfg.pageLog) + 2 < Pow2(Pow2(wordLog))
    ensures Matches(cfg, s', region)
    ensures Step(cfg, s, Event.Release(mapped), s')
    ensures !mapped ==> calls == []
    ensures mapped ==>
      var a := cfg.TheArea(region.carved);
      && a.Valid() && Placed(a, groups) && groups != []
      && CallsFor(GroupVerdicts(a, groups, cfg.cap), regionBeg + Start(a, groups[0]), a.PageSize(), calls)
      && forall j: nat :: j in s'.pages <==> IsReleased(a, groups, cfg.cap, j)
  {
    hide ListOk, ListBlocks, PagesSafe, Pow2, FreeGroups, Placed, GroupVerdicts, CallsFor, IsReleased, Start;
    ExtractedFree(cfg, s);
    DivideProduct(region.carved, cfg.layout.blockSize);
    var a := cfg.TheArea(region.allocatedUser / cfg.layout.blockSize);
    calls := ReleaseGroups(a, wordLog, regionBeg, groups, cfg.cap, mapped);
    s' := s.(phase := Released, pages := if mapped then iset j: nat | IsReleased(a, groups, cfg.cap, j) else iset{});
    StepInv(cfg, s, Event.Release(mapped), s');
  }

  /** Step 5, under the free list lock. */
  method MergeBack(cfg: Config, ghost s: State, region: RegionInfo, groups: seq<Group>, batchClass: BatchClass)
    returns (ghost s': State)
    requires Matches(cfg, s, region) && batchClass.Valid() && s.phase == Released && groups == s.extracted
    modifies region`blockList, batchClass, batchClass.region
    ensures batchClass.Valid() && Matches(cfg, s', region)
    ensures Step(cfg, s, Event.MergeBack, s')
  {
    hide ListOk, ListBlocks, ListMeta, PagesSafe, batchClass.Valid, MergeLists, NoEmptyGroup;
    NotEmpty(s.free, cfg.cap, cfg.GroupScale());
    NotEmpty(s.extracted, cfg.cap, cfg.GroupScale());
    region.MergeGroupsToReleaseBack(groups, batchClass);
    s' := s.(phase := Idle, free := region.blockList, extracted := [], pages := iset{});
    StepInv(cfg, s, Event.MergeBack, s');
  }
}
