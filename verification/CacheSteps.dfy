/** The operations of a thread's cache are steps of the runs of all caches. A call of
    allocate is a refill, if the cache is empty, and then `Allocate`; a call of deallocate
    is a drain, if the cache is full, and then `Deallocate`. */
module CacheSteps {
  import opened Common
  import opened FreeList
  import opened BatchClassList
  import opened PrimaryRegion
  import opened LocalCache
  import opened CacheRun
  import Protocol = ReleaseProtocol
  import ReleaseSteps

  /** What a state says about the region and the cache of thread `t`. */
  ghost predicate Matches(cfg: Protocol.Config, s: State, t: nat, region: RegionInfo, cache: PerClass)
    reads region, cache, cache.chunks
  {
    && cfg.Valid() && ReleaseSteps.Matches(cfg, s.core, region) && Inv(cfg, s)
    && t < |s.caches| && cache.Valid() && s.caches[t] == cache.Cached()
    && region.poppedBlocks - region.pushedBlocks == |s.core.out|
  }

  /** Where the blocks of a class are that are neither free nor in cache `t`. */
  ghost function Elsewhere(s: State, t: nat): multiset<nat>
    requires t < |s.caches|
  {
    s.user + InCaches(s.caches[t := []])
  }

  lemma {:induction false} OutSplit(cfg: Protocol.Config, s: State, t: nat)
    requires cfg.Valid() && Inv(cfg, s) && t < |s.caches|
    ensures s.core.out == multiset(s.caches[t]) + Elsewhere(s, t)
  {
    hide Protocol.Inv, InCaches;
    UpdateCache(s.caches, t, []);
    Together(s.user, InCaches(s.caches), InCaches(s.caches[t := []]), multiset(s.caches[t]));
  }

  lemma {:induction false} Together(user: multiset<nat>, all: multiset<nat>, others: multiset<nat>, cached: multiset<nat>)
    requires others + cached == all + multiset([])
    ensures user + all == cached + (user + others)
  {
    assert all + multiset([]) == all;
  }

  /** The account of one cache, as seen from the run. */
  lemma {:induction false} HasLedger(cfg: Protocol.Config, s: State, t: nat, region: RegionInfo, cache: PerClass)
    requires Matches(cfg, s, t, region, cache)
    ensures cache.Ledger(region, s.core.extracted, Elsewhere(s, t))
  {
    hide ListBlocks, cfg.layout.Blocks, Protocol.PagesSafe, ListOk, Elsewhere;
    OutSplit(cfg, s, t);
    Regroup(multiset(ListBlocks(s.core.free)), multiset(ListBlocks(s.core.extracted)), multiset(s.caches[t]), Elsewhere(s, t));
    assert |s.core.out| == |multiset(s.caches[t])| + |Elsewhere(s, t)|;
  }

  lemma Regroup(a: multiset<nat>, b: multiset<nat>, c: multiset<nat>, d: multiset<nat>)
    ensures a + b + (c + d) == a + b + c + d
  {
  }

  lemma NowMatches(cfg: Protocol.Config, s: State, t: nat, region: RegionInfo, cache: PerClass, elsewhere: multiset<nat>)
    requires cfg.Valid() && Inv(cfg, s) && t < |s.caches| && cache.Valid() && s.caches[t] == cache.Cached()
    requires region.cap == cfg.cap && region.groupScale == cfg.GroupScale() && region.layout == cfg.layout
    requires s.core.free == region.blockList && s.core.carved == region.carved
    requires cache.Ledger(region, s.core.extracted, elsewhere) && region.poppedBlocks - region.pushedBlocks == |s.core.out|
    ensures Matches(cfg, s, t, region, cache)
  {
  }

  /** Taking the block on top of the cache. */
  method Allocate(cfg: Protocol.Config, ghost s: State, ghost t: nat, ghost region: RegionInfo, cache: PerClass)
    returns (block: nat, ghost s': State)
    requires Matches(cfg, s, t, region, cache) && cache.count > 0
    modifies cache`count
    ensures Matches(cfg, s', t, region, cache) && Step(cfg, s, t, Action.Allocate(block), s')
  {
    hide ReleaseSteps.Matches, Inv, InCaches;
    block := cache.Take();
    s' := s.(caches := s.caches[t := cache.Cached()], user := s.user + multiset{block});
    StepInv(cfg, s, t, Action.Allocate(block), s');
  }

  /** Putting a block of the user on top of the cache. */
  method Deallocate(cfg: Protocol.Config, ghost s: State, ghost t: nat, ghost region: RegionInfo, cache: PerClass, block: nat)
    returns (ghost s': State)
    requires Matches(cfg, s, t, region, cache) && cache.count < cache.maxCount && block in s.user
    modifies cache`count, cache.chunks
    ensures Matches(cfg, s', t, region, cache) && Step(cfg, s, t, Action.Deallocate(block), s')
  {
    hide ReleaseSteps.Matches, Inv, InCaches;
    cache.Put(block);
    s' := s.(caches := s.caches[t := cache.Cached()], user := s.user - multiset{block});
    StepInv(cfg, s, t, Action.Deallocate(block), s');
  }

  /** Draining the oldest blocks to the free list. */
  method Drain(cfg: Protocol.Config, ghost s: State, ghost t: nat, region: RegionInfo, cache: PerClass, batchClass: BatchClass)
    returns (ghost n: nat, ghost s': State)
    requires Matches(cfg, s, t, region, cache) && cache.count > 0 && batchClass.Valid()
    modifies cache`count, cache.chunks, region, batchClass, batchClass.region
    ensures batchClass.Valid() && Matches(cfg, s', t, region, cache)
    ensures n == Min(cache.maxCount / 2, |s.caches[t]|) && Step(cfg, s, t, Action.Drain(n), s')
  {
    hide batchClass.Valid, Inv, Step, PerClass.Ledger;
    HasLedger(cfg, s, t, region, cache);
    n := Min(cache.maxCount / 2, |s.caches[t]|);
    ghost var blocks := multiset(s.caches[t][..n]);
    cache.DrainHalf(region, batchClass, s.core.extracted, Elsewhere(s, t));
    ghost var core := s.core.(free := region.blockList, out := s.core.out - blocks);
    s' := s.(core := core, caches := s.caches[t := s.caches[t][n..]]);
    DrainIsPush(cfg, s, t, n, core, region, cache);
    StepInv(cfg, s, t, Action.Drain(n), s');
    NowMatches(cfg, s', t, region, cache, Elsewhere(s, t));
  }

  /** What a drain of the cache did is a push of the protocol. */
  lemma {:induction false} DrainIsPush(cfg: Protocol.Config, s: State, t: nat, n: nat, core: Protocol.State,
                                       region: RegionInfo, cache: PerClass)
    requires cfg.Valid() && Inv(cfg, s) && t < |s.caches| && n <= |s.caches[t]| && cache.Valid()
    requires core == s.core.(free := region.blockList, out := s.core.out - multiset(s.caches[t][..n]))
    requires cache.Cached() == s.caches[t][n..] && cache.Ledger(region, s.core.extracted, Elsewhere(s, t))
    requires region.cap == cfg.cap && region.groupScale == cfg.GroupScale() && region.layout == cfg.layout && region.carved == s.core.carved
    ensures Step(cfg, s, t, Action.Drain(n), s.(core := core, caches := s.caches[t := s.caches[t][n..]]))
    ensures region.poppedBlocks - region.pushedBlocks == |core.out|
  {
    hide ListBlocks, cfg.layout.Blocks, Protocol.PagesSafe, ListOk, Elsewhere, InCaches;
    var x, y := s.caches[t][..n], s.caches[t][n..];
    OutSplit(cfg, s, t);
    assert s.caches[t] == x + y;
    assert multiset(s.caches[t]) == multiset(x) + multiset(y);
    Pushed(multiset(ListBlocks(s.core.free)), multiset(ListBlocks(region.blockList)), multiset(ListBlocks(s.core.extracted)),
           multiset(x), multiset(y), Elsewhere(s, t));
    assert core.out == multiset(y) + Elsewhere(s, t);
  }

  lemma {:induction false} Pushed(free: multiset<nat>, free': multiset<nat>, extracted: multiset<nat>,
                                  x: multiset<nat>, y: multiset<nat>, elsewhere: multiset<nat>)
    requires free + extracted + (x + y + elsewhere) == free' + extracted + y + elsewhere
    ensures free' == free + x && x + y + elsewhere - x == y + elsewhere
  {
    forall c ensures free'[c] == (free + x)[c] {
      assert (free + extracted + (x + y + elsewhere))[c] == (free' + extracted + y + elsewhere)[c];
    }
  }

  /** refill: the empty cache gets blocks of the free list, or, if that is empty and no
      release is under way, new ones. */
  method Refill(cfg: Protocol.Config, ghost s: State, ghost t: nat, region: RegionInfo, cache: PerClass, batchClass: BatchClass,
                canMap: bool, random: (nat, nat) -> nat) returns (ok: bool, ghost event: Protocol.Event, ghost s': State)
    requires Matches(cfg, s, t, region, cache) && cache.count == 0 && batchClass.Valid()
    requires s.core.phase == Protocol.Idle || region.blockList != []
    modifies cache`count, cache.chunks, region, batchClass, batchClass.region
    ensures batchClass.Valid() && Matches(cfg, s', t, region, cache) && (ok <==> cache.count > 0)
    ensures Step(cfg, s, t, Action.Refill(event), s')
  {
    hide batchClass.Valid, Inv, Step, PerClass.Ledger;
    HasLedger(cfg, s, t, region, cache);
    ok := cache.Refill(region, batchClass, canMap, random, s.core.extracted, Elsewhere(s, t));
    ghost var blocks := multiset(cache.Cached());
    event := if region.carved == s.core.carved then Protocol.Event.Pop(blocks)
             else Protocol.Event.Populate(region.carved - s.core.carved, blocks);
    ghost var core := s.core.(carved := region.carved, free := region.blockList, out := s.core.out + blocks);
    s' := s.(core := core, caches := s.caches[t := cache.Cached()]);
    RefillIsPop(cfg, s, t, event, core, region, cache);
    StepInv(cfg, s, t, Action.Refill(event), s');
    NowMatches(cfg, s', t, region, cache, Elsewhere(s, t));
  }

  /** What a refill of the cache did is a pop or a refill of the protocol. */
  lemma {:induction false} RefillIsPop(cfg: Protocol.Config, s: State, t: nat, event: Protocol.Event, core: Protocol.State,
                                       region: RegionInfo, cache: PerClass)
    requires cfg.Valid() && Inv(cfg, s) && t < |s.caches| && s.caches[t] == [] && cache.Valid()
    requires s.core.carved <= region.carved && (s.core.phase == Protocol.Idle || region.carved == s.core.carved)
    requires event == if region.carved == s.core.carved then Protocol.Event.Pop(multiset(cache.Cached()))
                      else Protocol.Event.Populate(region.carved - s.core.carved, multiset(cache.Cached()))
    requires core == s.core.(carved := region.carved, free := region.blockList, out := s.core.out + multiset(cache.Cached()))
    requires cache.Ledger(region, s.core.extracted, Elsewhere(s, t))
    requires region.cap == cfg.cap && region.groupScale == cfg.GroupScale() && region.layout == cfg.layout
    ensures Step(cfg, s, t, Action.Refill(event), s.(core := core, caches := s.caches[t := cache.Cached()]))
    ensures region.poppedBlocks - region.pushedBlocks == |core.out|
  {
    hide ListBlocks, cfg.layout.Blocks, Protocol.PagesSafe, ListOk, Elsewhere, InCaches;
    OutSplit(cfg, s, t);
    cfg.layout.BlocksSplit(0, s.core.carved, region.carved);
    cfg.layout.BlocksNone(region.carved);
    var cut, more := cfg.layout.Blocks(0, s.core.carved), cfg.layout.Blocks(s.core.carved, region.carved);
    assert multiset(cut + more) == multiset(cut) + multiset(more);
    Popped(multiset(ListBlocks(s.core.free)), multiset(ListBlocks(region.blockList)), multiset(ListBlocks(s.core.extracted)),
           multiset(cache.Cached()), Elsewhere(s, t), multiset(cut), multiset(more));
  }

  lemma {:induction false} Popped(free: multiset<nat>, free': multiset<nat>, extracted: multiset<nat>, popped: multiset<nat>,
                                  elsewhere: multiset<nat>, cut: multiset<nat>, more: multiset<nat>)
    requires free + extracted + (multiset([]) + elsewhere) == cut && free' + extracted + popped + elsewhere == cut + more
    ensures free + more == free' + popped
  {
    forall c ensures (free + more)[c] == (free' + popped)[c] {
      assert (free + extracted + (multiset([]) + elsewhere))[c] == cut[c];
      assert (free' + extracted + popped + elsewhere)[c] == (cut + more)[c];
    }
  }
}
