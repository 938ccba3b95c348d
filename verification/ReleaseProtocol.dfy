/** releaseToOSMaybe of primary64.h among other threads. The steps are what happens
    under one lock: while groups are out of the free list, others push and pop. */
module ReleaseProtocol {
  import opened Common
  import opened Bits
  import opened Tiles
  import opened FreeList
  import opened GroupMerge
  import opened PageRelease
  import opened PageReleaseTheorems
  import opened GroupGeometry
  import opened GroupMarking
  import opened GroupRelease
  import opened ReleasedPages
  import Carving

  datatype Config = Config(layout: Carving.Layout, pageLog: nat, groupLog: nat, cap: nat)
  {
    ghost predicate Valid() {
      layout.Valid() && pageLog <= groupLog && layout.scale <= groupLog && cap > 0
    }

    function GroupScale(): nat
      requires Valid()
    {
      groupLog - layout.scale
    }

    function TheArea(carved: nat): Area {
      Area(pageLog, groupLog, layout.scale, layout.blockSize, carved)
    }

    /** The compact pointer of block `k`. */
    function Block(k: nat): nat {
      layout.Pointer(layout.Start(k))
    }
  }

  datatype Phase = Idle | Collected | Released

  /** `carved` blocks exist. Each is in the free list, in an extracted group, or out:
      in use or in some thread's cache. `pages` were released by the release under way. */
  datatype State = State(carved: nat, free: seq<Group>, extracted: seq<Group>, out: multiset<nat>,
                         phase: Phase, pages: iset<nat>)

  datatype Event =
    | Push(blocks: multiset<nat>)
    | Pop(blocks: multiset<nat>)
    | Populate(n: nat, blocks: multiset<nat>)
    | Collect(forceAll: bool, criteria: Criteria)
    | Release(mapped: bool)
    | MergeBack

  ghost predicate Init(s: State) {
    s == State(0, [], [], multiset{}, Idle, iset{})
  }

  ghost predicate Step(cfg: Config, s: State, e: Event, s': State)
    requires cfg.Valid()
  {
    match e
    case Push(blocks) =>
      // Under the free list lock; the caller owns the blocks.
      && blocks <= s.out && s' == s.(free := s'.free, out := s.out - blocks)
      && ListOk(s'.free, cfg.cap, cfg.GroupScale())
      && multiset(ListBlocks(s'.free)) == multiset(ListBlocks(s.free)) + blocks
    case Pop(blocks) =>
      && s' == s.(free := s'.free, out := s.out + blocks)
      && ListOk(s'.free, cfg.cap, cfg.GroupScale())
      && multiset(ListBlocks(s.free)) == multiset(ListBlocks(s'.free)) + blocks
    case Populate(n, blocks) =>
      // Needs the lock that a release holds throughout.
      && s.phase == Idle && s' == s.(carved := s.carved + n, free := s'.free, out := s.out + blocks)
      && ListOk(s'.free, cfg.cap, cfg.GroupScale())
      && multiset(ListBlocks(s.free)) + multiset(cfg.layout.Blocks(s.carved, s.carved + n))
         == multiset(ListBlocks(s'.free)) + blocks
    case Collect(forceAll, criteria) =>
      // A release that finds no group to take ends here.
      var taken := if forceAll then s.free else criteria.Taken(s.free);
      && s.phase == Idle && criteria.cap == cfg.cap
      && s' == s.(phase := if taken == [] then Idle else Collected, extracted := taken,
                  free := if forceAll then [] else criteria.Kept(s.free))
    case Release(mapped) =>
      // No free list lock: only the extracted groups are read.
      var a := cfg.TheArea(s.carved);
      && s.phase == Collected && Placed(a, s.extracted) && s.extracted != []
      && s' == s.(phase := Released,
                  pages := if mapped then iset j: nat | IsReleased(a, s.extracted, cfg.cap, j) else iset{})
    case MergeBack =>
      && s.phase == Released && NoEmptyGroup(s.free) && NoEmptyGroup(s.extracted)
      && s' == s.(phase := Idle, free := MergeLists(s.free, s.extracted, cfg.cap), extracted := [], pages := iset{})
  }

  /** Every block is in exactly one place, both lists are in order, and the pages
      released so far touch only blocks of the extracted groups. */
  ghost predicate Inv(cfg: Config, s: State)
    requires cfg.Valid()
  {
    && ListOk(s.free, cfg.cap, cfg.GroupScale()) && ListOk(s.extracted, cfg.cap, cfg.GroupScale())
    && multiset(ListBlocks(s.free)) + multiset(ListBlocks(s.extracted)) + s.out
       == multiset(cfg.layout.Blocks(0, s.carved))
    && (s.phase == Idle <==> s.extracted == [])
    && (s.phase != Released ==> s.pages == iset{})
    && PagesSafe(cfg, s)
  }

  /** All blocks that touch a released page are in the extracted groups. */
  ghost predicate PagesSafe(cfg: Config, s: State)
    requires cfg.Valid()
  {
    forall j, k: nat :: j in s.pages && k < s.carved && Overlaps(Pow2(cfg.pageLog), cfg.layout.blockSize, k, j)
      ==> cfg.Block(k) in ListBlocks(s.extracted)
  }

  // ---- Blocks are in one place ------------------------------------------

  lemma {:induction false} CarvedOnce(cfg: Config, n: nat, c: nat)
    requires cfg.Valid()
    ensures Occurs(cfg.layout.Blocks(0, n), c) <= 1
    ensures c in cfg.layout.Blocks(0, n) ==> exists k :: 0 <= k < n && c == cfg.Block(k)
  {
    hide cfg.layout.Pointer, cfg.layout.Start, Occurs, cfg.layout.Valid;
    if n == 0 {
      OccursNone(c);
    } else {
      CarvedOnce(cfg, n - 1, c);
      var init := cfg.layout.Blocks(0, n - 1);
      OccursConcat(init, [cfg.Block(n - 1)], c);
      if c == cfg.Block(n - 1) && c in init {
        var k :| 0 <= k < n - 1 && c == cfg.Block(k);
        cfg.layout.PointersDiffer(k, n - 1);
        assert false;
      }
      OccursOne(cfg.Block(n - 1), c);
      OccursIn(init, c);
    }
  }

  lemma OccursOne(x: nat, c: nat)
    ensures Occurs([x], c) == if x == c then 1 else 0
  {
  }

  lemma OccursIn(s: seq<nat>, c: nat)
    ensures Occurs(s, c) > 0 <==> c in s
  {
  }

  /** A sequence in which nothing occurs twice has no duplicates. */
  lemma {:induction false} NoneTwice(s: seq<nat>)
    requires forall c :: Occurs(s, c) <= 1
    ensures NoDuplicates(s)
  {
    forall i, j | 0 <= i < j < |s| ensures s[i] != s[j] {
      OccursAt(s, i, j);
    }
  }

  lemma {:induction false} OccursAt(s: seq<nat>, i: nat, j: nat)
    requires i < j < |s|
    ensures s[i] == s[j] ==> Occurs(s, s[i]) >= 2
  {
    var x, y := s[..j], s[j..];
    assert s == x + y;
    OccursConcat(x, y, s[i]);
    OccursIn(x, s[i]);
    OccursIn(y, s[i]);
    assert x[i] == s[i] && y[0] == s[j];
  }

  /** The blocks of a group occur no more often than in the whole list. */
  lemma {:induction false} GroupOccurs(gs: seq<Group>, i: nat, c: nat)
    requires i < |gs|
    ensures Occurs(BatchesBlocks(gs[i].batches), c) <= Occurs(ListBlocks(gs), c)
  {
    hide ListBlocks, BatchesBlocks, Occurs;
    ListAround(gs, i);
    var x, y, z := ListBlocks(gs[..i]), BatchesBlocks(gs[i].batches), ListBlocks(gs[i + 1..]);
    OccursConcat(x + y, z, c);
    OccursConcat(x, y, c);
  }

  lemma {:induction false} Placement(cfg: Config, s: State, c: nat)
    requires cfg.Valid() && Inv(cfg, s)
    ensures Occurs(ListBlocks(s.free), c) + Occurs(ListBlocks(s.extracted), c) + s.out[c] <= 1
    ensures c in ListBlocks(s.extracted) ==> exists k :: 0 <= k < s.carved && c == cfg.Block(k)
  {
    hide ListOk, PagesSafe, ListBlocks, cfg.layout.Blocks;
    CarvedOnce(cfg, s.carved, c);
    assert (multiset(ListBlocks(s.free)) + multiset(ListBlocks(s.extracted)) + s.out)[c]
        == multiset(cfg.layout.Blocks(0, s.carved))[c];
    OccursIn(cfg.layout.Blocks(0, s.carved), c);
  }

  // ---- Extracted groups can be marked -----------------------------------

  lemma {:induction false} BlockIsWhole(cfg: Config, carved: nat, k: nat)
    requires cfg.Valid() && k < carved
    ensures cfg.TheArea(carved).Valid() && WholeBlock(cfg.TheArea(carved), cfg.Block(k))
    ensures cfg.TheArea(carved).Offset(cfg.Block(k)) / cfg.layout.blockSize == k
  {
    cfg.layout.PointerRoundTrip(k);
    DivideProduct(k, cfg.layout.blockSize);
    MulMono(k + 1, carved, cfg.layout.blockSize);
    Area.AddMul(k, 1, cfg.layout.blockSize);
    hide cfg.layout.Pointer, Shl;
  }

  ghost predicate AllBlocks(cfg: Config, carved: nat, blocks: seq<nat>) {
    forall i :: 0 <= i < |blocks| ==> exists k :: 0 <= k < carved && blocks[i] == cfg.Block(k)
  }

  lemma {:induction false} DistinctBlocks(cfg: Config, carved: nat, blocks: seq<nat>)
    requires cfg.Valid() && carved > 0 && NoDuplicates(blocks) && AllBlocks(cfg, carved, blocks)
    ensures cfg.TheArea(carved).Valid() && Distinct(cfg.TheArea(carved), blocks)
  {
    var a := cfg.TheArea(carved);
    hide cfg.Block, WholeBlock;
    forall i | 0 <= i < |blocks|
      ensures WholeBlock(a, blocks[i]) && blocks[i] == cfg.Block(FreeTiles(a, blocks)[i])
    {
      var k :| 0 <= k < carved && blocks[i] == cfg.Block(k);
      BlockIsWhole(cfg, carved, k);
    }
    hide FreeTiles;
  }

  lemma {:induction false} ExtractedFree(cfg: Config, s: State)
    requires cfg.Valid() && Inv(cfg, s) && s.extracted != []
    ensures cfg.TheArea(s.carved).Valid() && FreeGroups(cfg.TheArea(s.carved), s.extracted, cfg.cap)
  {
    hide PagesSafe, ListBlocks, BatchesBlocks, cfg.Block, Occurs, cfg.layout.Blocks, GroupOf;
    forall i | 0 <= i < |s.extracted|
      ensures cfg.TheArea(s.carved).Valid() && FreeGroup(cfg.TheArea(s.carved), s.extracted[i], cfg.cap)
    {
      assert GroupOk(s.extracted[i], cfg.cap, cfg.GroupScale());
      var blocks := BatchesBlocks(s.extracted[i].batches);
      forall c ensures Occurs(blocks, c) <= 1 && (c in blocks ==> exists k :: 0 <= k < s.carved && c == cfg.Block(k)) {
        Placement(cfg, s, c);
        GroupOccurs(s.extracted, i, c);
        OccursIn(blocks, c);
        OccursIn(ListBlocks(s.extracted), c);
      }
      NoneTwice(blocks);
      FrontBlocks(s.extracted[i].batches, cfg.cap);
      assert blocks[0] in blocks;
      assert forall j :: 0 <= j < |blocks| ==> blocks[j] in blocks;
      DistinctBlocks(cfg, s.carved, blocks);
    }
    assert FreeGroup(cfg.TheArea(s.carved), s.extracted[0], cfg.cap);
  }

  lemma {:induction false} TileInExtracted(cfg: Config, s: State, k: nat)
    requires cfg.Valid() && Inv(cfg, s) && cfg.TheArea(s.carved).Valid()
    requires k in Elements(FreeTiles(cfg.TheArea(s.carved), ListBlocks(s.extracted)))
    ensures cfg.Block(k) in ListBlocks(s.extracted)
  {
    hide PagesSafe, ListBlocks, cfg.Block, ListOk, cfg.layout.Blocks, Area.Offset;
    var a, blocks := cfg.TheArea(s.carved), ListBlocks(s.extracted);
    var i :| 0 <= i < |blocks| && FreeTiles(a, blocks)[i] == k;
    Placement(cfg, s, blocks[i]);
    var m :| 0 <= m < s.carved && blocks[i] == cfg.Block(m);
    BlockIsWhole(cfg, s.carved, m);
  }

  // ---- The invariant ----------------------------------------------------

  lemma InitInv(cfg: Config, s: State)
    requires cfg.Valid() && Init(s)
    ensures Inv(cfg, s)
  {
  }

  lemma {:induction false} StepInv(cfg: Config, s: State, e: Event, s': State)
    requires cfg.Valid() && Inv(cfg, s) && Step(cfg, s, e, s')
    ensures Inv(cfg, s')
  {
    match e
    case Push(_) => PushInv(cfg, s, e, s');
    case Pop(_) => PopInv(cfg, s, e, s');
    case Populate(_, _) => PopulateInv(cfg, s, e, s');
    case Collect(_, _) => CollectInv(cfg, s, e, s');
    case Release(_) => ReleaseInv(cfg, s, e, s');
    case MergeBack => MergeInv(cfg, s, e, s');
  }

  lemma {:induction false} PushInv(cfg: Config, s: State, e: Event, s': State)
    requires cfg.Valid() && Inv(cfg, s) && e.Push? && Step(cfg, s, e, s')
    ensures Inv(cfg, s')
  {
    hide ListOk, ListBlocks, cfg.layout.Blocks, cfg.Block, Overlaps;
    assert s.out - e.blocks + e.blocks == s.out;
  }

  lemma {:induction false} PopInv(cfg: Config, s: State, e: Event, s': State)
    requires cfg.Valid() && Inv(cfg, s) && e.Pop? && Step(cfg, s, e, s')
    ensures Inv(cfg, s')
  {
    hide ListOk, ListBlocks, cfg.layout.Blocks, cfg.Block, Overlaps;
  }

  lemma {:induction false} PopulateInv(cfg: Config, s: State, e: Event, s': State)
    requires cfg.Valid() && Inv(cfg, s) && e.Populate? && Step(cfg, s, e, s')
    ensures Inv(cfg, s')
  {
    hide ListOk, ListBlocks, cfg.layout.Blocks, cfg.Block, Overlaps;
    cfg.layout.BlocksSplit(0, s.carved, s.carved + e.n);
    var x, y := cfg.layout.Blocks(0, s.carved), cfg.layout.Blocks(s.carved, s.carved + e.n);
    assert multiset(x + y) == multiset(x) + multiset(y);
    AddCarved(multiset(ListBlocks(s.free)), multiset(ListBlocks(s.extracted)), s.out, multiset(x),
              multiset(y), multiset(ListBlocks(s'.free)), e.blocks);
  }

  lemma {:induction false} AddCarved(free: multiset<nat>, extracted: multiset<nat>, out: multiset<nat>, all: multiset<nat>,
                                     more: multiset<nat>, free': multiset<nat>, handed: multiset<nat>)
    requires free + extracted + out == all && free + more == free' + handed
    ensures free' + extracted + (out + handed) == all + more
  {
    forall c ensures (free' + extracted + (out + handed))[c] == (all + more)[c] {
      assert (free + extracted + out)[c] == all[c] && (free + more)[c] == (free' + handed)[c];
    }
  }

  lemma {:induction false} CollectParts(cfg: Config, free: seq<Group>, forceAll: bool, criteria: Criteria)
    requires cfg.Valid() && criteria.cap == cfg.cap && ListOk(free, cfg.cap, cfg.GroupScale())
    ensures var kept := if forceAll then [] else criteria.Kept(free);
      var taken := if forceAll then free else criteria.Taken(free);
      && ListOk(kept, cfg.cap, cfg.GroupScale()) && ListOk(taken, cfg.cap, cfg.GroupScale())
      && multiset(ListBlocks(free)) == multiset(ListBlocks(kept)) + multiset(ListBlocks(taken))
  {
    NothingListed(cfg);
    EmptyList();
    hide *;
    if !forceAll {
      criteria.SplitContents(free);
      criteria.SplitOk(free, cfg.GroupScale());
    }
  }

  lemma {:induction false} CollectInv(cfg: Config, s: State, e: Event, s': State)
    requires cfg.Valid() && Inv(cfg, s) && e.Collect? && Step(cfg, s, e, s')
    ensures Inv(cfg, s')
  {
    hide ListOk, ListBlocks, cfg.layout.Blocks, cfg.Block, Overlaps, e.criteria.Kept, e.criteria.Taken;
    EmptyList();
    CollectParts(cfg, s.free, e.forceAll, e.criteria);
  }

  lemma {:induction false} ReleaseInv(cfg: Config, s: State, e: Event, s': State)
    requires cfg.Valid() && Inv(cfg, s) && e.Release? && Step(cfg, s, e, s')
    ensures Inv(cfg, s')
  {
    hide ListOk, ListBlocks, cfg.layout.Blocks, cfg.Block, Overlaps, IsReleased, FreeGroups, FreeTiles, Elements;
    var a := cfg.TheArea(s.carved);
    ExtractedFree(cfg, s);
    if e.mapped {
      forall j, k: nat | IsReleased(a, s.extracted, cfg.cap, j) && k < s.carved
          && Overlaps(Pow2(cfg.pageLog), cfg.layout.blockSize, k, j)
        ensures cfg.Block(k) in ListBlocks(s.extracted)
      {
        ReleasedPageIsFree(a, s.extracted, cfg.cap, j);
        TileInExtracted(cfg, s, k);
      }
    }
  }

  lemma {:induction false} MergeInv(cfg: Config, s: State, e: Event, s': State)
    requires cfg.Valid() && Inv(cfg, s) && e.MergeBack? && Step(cfg, s, e, s')
    ensures Inv(cfg, s')
  {
    hide ListOk, ListBlocks, cfg.layout.Blocks, cfg.Block, Overlaps, MergeLists;
    EmptyList();
    NoneBelowZero(s.free);
    NoneBelowZero(s.extracted);
    MergeOk(s.free, s.extracted, cfg.cap, cfg.GroupScale(), -1);
    MergeContents(s.free, s.extracted, cfg.cap);
    NothingListed(cfg);
  }

  lemma NothingListed(cfg: Config)
    requires cfg.Valid()
    ensures ListOk([], cfg.cap, cfg.GroupScale())
  {
  }

  // ---- Whole runs -------------------------------------------------------

  ghost predicate Run(cfg: Config, states: seq<State>, events: seq<Event>)
    requires cfg.Valid()
  {
    && |states| == |events| + 1 && Init(states[0])
    && forall i :: 0 <= i < |events| ==> Step(cfg, states[i], events[i], states[i + 1])
  }

  lemma {:induction false} RunInv(cfg: Config, states: seq<State>, events: seq<Event>, i: nat)
    requires cfg.Valid() && Run(cfg, states, events) && i < |states|
    ensures Inv(cfg, states[i])
  {
    hide Inv, Step;
    if i == 0 {
      InitInv(cfg, states[0]);
    } else {
      RunInv(cfg, states, events, i - 1);
      StepInv(cfg, states[i - 1], events[i - 1], states[i]);
    }
  }

  /** At every moment of every run, no block that touches a released page is in use,
      cached, or in the free list from which it could be popped. */
  lemma {:induction false} ReleaseIsSafe(cfg: Config, states: seq<State>, events: seq<Event>, i: nat, j: nat, k: nat)
    requires cfg.Valid() && Run(cfg, states, events) && i < |states|
    requires j in states[i].pages && k < states[i].carved && Overlaps(Pow2(cfg.pageLog), cfg.layout.blockSize, k, j)
    ensures cfg.Block(k) in ListBlocks(states[i].extracted)
    ensures cfg.Block(k) !in states[i].out && cfg.Block(k) !in ListBlocks(states[i].free)
  {
    hide Run, ListBlocks, cfg.Block, Overlaps, ListOk, cfg.layout.Blocks, Occurs;
    var s, c := states[i], cfg.Block(k);
    RunInv(cfg, states, events, i);
    Placement(cfg, s, c);
    OccursIn(ListBlocks(s.extracted), c);
    OccursIn(ListBlocks(s.free), c);
  }

  /** A release can always go on: what was collected can be marked, and then be
      merged back. */
  lemma {:induction false} ReleaseNeverStuck(cfg: Config, states: seq<State>, events: seq<Event>, i: nat)
    requires cfg.Valid() && Run(cfg, states, events) && i < |states| && states[i].phase != Idle
    ensures states[i].phase == Collected ==> exists s' :: Step(cfg, states[i], Release(true), s')
    ensures states[i].phase == Released ==> exists s' :: Step(cfg, states[i], MergeBack, s')
  {
    var s := states[i];
    RunInv(cfg, states, events, i);
    ExtractedFree(cfg, s);
    FreeGroupsPlaced(cfg.TheArea(s.carved), s.extracted, cfg.cap);
    NotEmpty(s.free, cfg.cap, cfg.GroupScale());
    NotEmpty(s.extracted, cfg.cap, cfg.GroupScale());
    hide Inv, FreeGroups, Placed, ListOk, IsReleased, NoEmptyGroup, Run;
    if s.phase == Collected {
      var pages := iset j: nat | IsReleased(cfg.TheArea(s.carved), s.extracted, cfg.cap, j);
      assert Step(cfg, s, Release(true), s.(phase := Released, pages := pages));
    } else {
      assert Step(cfg, s, MergeBack,
                  s.(phase := Idle, free := MergeLists(s.free, s.extracted, cfg.cap), extracted := [], pages := iset{}));
    }
  }
}
