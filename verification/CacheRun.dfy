/** One size class among any number of threads: their caches over the free list of the
    region, while pages are released. Every block is in exactly one place. */
module CacheRun {
  import opened Common
  import opened FreeList
  import opened Tiles
  import opened PageReleaseTheorems
  import Protocol = ReleaseProtocol

  /** What the region's protocol counts as out is in the threads' caches, last block on
      top, or with the user. */
  datatype State = State(core: Protocol.State, caches: seq<seq<nat>>, user: multiset<nat>)

  datatype Action =
    | Allocate(block: nat)         // from the top of the cache
    | Deallocate(block: nat)       // to the top of the cache
    | Refill(event: Protocol.Event) // an empty cache gets what is popped or cut
    | Drain(n: nat)                // the oldest blocks are pushed
    | Other(event: Protocol.Event) // a step of a release

  ghost predicate Init(s: State) {
    Protocol.Init(s.core) && s.user == multiset{} && forall t :: 0 <= t < |s.caches| ==> s.caches[t] == []
  }

  ghost predicate Step(cfg: Protocol.Config, s: State, t: nat, a: Action, s': State)
    requires cfg.Valid()
  {
    t < |s.caches| &&
    match a
    case Allocate(block) =>
      && |s'.caches| == |s.caches| && s.caches[t] == s'.caches[t] + [block]
      && s' == s.(caches := s.caches[t := s'.caches[t]], user := s.user + multiset{block})
    case Deallocate(block) =>
      && block in s.user
      && s' == s.(caches := s.caches[t := s.caches[t] + [block]], user := s.user - multiset{block})
    case Refill(event) =>
      && |s'.caches| == |s.caches| && s.caches[t] == []
      && (event.Pop? || event.Populate?) && event.blocks == multiset(s'.caches[t])
      && s' == s.(core := s'.core, caches := s.caches[t := s'.caches[t]])
      && Protocol.Step(cfg, s.core, event, s'.core)
    case Drain(n) =>
      && n <= |s.caches[t]|
      && s' == s.(core := s'.core, caches := s.caches[t := s.caches[t][n..]])
      && Protocol.Step(cfg, s.core, Protocol.Event.Push(multiset(s.caches[t][..n])), s'.core)
    case Other(event) =>
      && (event.Collect? || event.Release? || event.MergeBack?)
      && s' == s.(core := s'.core) && Protocol.Step(cfg, s.core, event, s'.core)
  }

  /** The blocks of all caches together. */
  ghost function InCaches(caches: seq<seq<nat>>): multiset<nat> {
    if caches == [] then multiset{} else InCaches(caches[..|caches| - 1]) + multiset(caches[|caches| - 1])
  }

  lemma {:induction false} UpdateCache(caches: seq<seq<nat>>, t: nat, x: seq<nat>)
    requires t < |caches|
    ensures InCaches(caches[t := x]) + multiset(caches[t]) == InCaches(caches) + multiset(x)
  {
    var n := |caches| - 1;
    if t < n {
      UpdateCache(caches[..n], t, x);
      assert caches[t := x][..n] == caches[..n][t := x];
      AddToBoth(InCaches(caches[..n][t := x]), multiset(caches[t]), InCaches(caches[..n]), multiset(x), multiset(caches[n]));
    } else {
      assert caches[t := x][..n] == caches[..n];
      AddToBoth(multiset(x), multiset(caches[n]), multiset(caches[n]), multiset(x), InCaches(caches[..n]));
    }
  }

  lemma {:induction false} AddToBoth(a: multiset<nat>, b: multiset<nat>, x: multiset<nat>, y: multiset<nat>, more: multiset<nat>)
    requires a + b == x + y
    ensures a + more + b == x + more + y && more + a + b == more + x + y
  {
    forall c ensures (a + more + b)[c] == (x + more + y)[c] {
      assert (a + b)[c] == (x + y)[c];
    }
    assert more + a + b == a + more + b && more + x + y == x + more + y;
  }

  lemma {:induction false} NothingCached(caches: seq<seq<nat>>)
    requires forall t :: 0 <= t < |caches| ==> caches[t] == []
    ensures InCaches(caches) == multiset{}
  {
    if caches != [] {
      NothingCached(caches[..|caches| - 1]);
    }
  }

  /** A block that occurs once in all caches is in one of them only. */
  lemma {:induction false} InOneCache(caches: seq<seq<nat>>, t: nat, u: nat, c: nat)
    requires t < u < |caches| && c in caches[t] && c in caches[u]
    ensures InCaches(caches)[c] >= 2
  {
    var n := |caches| - 1;
    if u < n {
      InOneCache(caches[..n], t, u, c);
    } else {
      CacheInAll(caches[..n], t, c);
    }
  }

  lemma {:induction false} CacheInAll(caches: seq<seq<nat>>, t: nat, c: nat)
    requires t < |caches| && c in caches[t]
    ensures InCaches(caches)[c] >= 1
  {
    if t < |caches| - 1 {
      CacheInAll(caches[..|caches| - 1], t, c);
    }
  }

  // ---- The invariant ----------------------------------------------------

  ghost predicate Inv(cfg: Protocol.Config, s: State)
    requires cfg.Valid()
  {
    Protocol.Inv(cfg, s.core) && s.core.out == s.user + InCaches(s.caches)
  }

  lemma {:induction false} InitInv(cfg: Protocol.Config, s: State)
    requires cfg.Valid() && Init(s)
    ensures Inv(cfg, s)
  {
    Protocol.InitInv(cfg, s.core);
    NothingCached(s.caches);
  }

  lemma {:induction false} StepInv(cfg: Protocol.Config, s: State, t: nat, a: Action, s': State)
    requires cfg.Valid() && Inv(cfg, s) && Step(cfg, s, t, a, s')
    ensures Inv(cfg, s')
  {
    match a
    case Allocate(_) => AllocateInv(cfg, s, t, a, s');
    case Deallocate(_) => DeallocateInv(cfg, s, t, a, s');
    case Refill(_) => RefillInv(cfg, s, t, a, s');
    case Drain(_) => DrainInv(cfg, s, t, a, s');
    case Other(event) => Protocol.StepInv(cfg, s.core, event, s'.core);
  }

  lemma {:induction false} AllocateInv(cfg: Protocol.Config, s: State, t: nat, a: Action, s': State)
    requires cfg.Valid() && Inv(cfg, s) && a.Allocate? && Step(cfg, s, t, a, s')
    ensures Inv(cfg, s')
  {
    hide Protocol.Inv, Protocol.Step, InCaches;
    UpdateCache(s.caches, t, s'.caches[t]);
    assert multiset(s.caches[t]) == multiset(s'.caches[t]) + multiset{a.block};
    MoveOver(s.user, InCaches(s.caches), InCaches(s'.caches), multiset(s.caches[t]), multiset(s'.caches[t]), multiset{a.block});
  }

  lemma {:induction false} DeallocateInv(cfg: Protocol.Config, s: State, t: nat, a: Action, s': State)
    requires cfg.Valid() && Inv(cfg, s) && a.Deallocate? && Step(cfg, s, t, a, s')
    ensures Inv(cfg, s')
  {
    hide Protocol.Inv, Protocol.Step, InCaches;
    UpdateCache(s.caches, t, s'.caches[t]);
    assert multiset(s'.caches[t]) == multiset(s.caches[t]) + multiset{a.block};
    assert s.user == s'.user + multiset{a.block};
    MoveOver(s'.user, InCaches(s'.caches), InCaches(s.caches), multiset(s'.caches[t]), multiset(s.caches[t]), multiset{a.block});
  }

  lemma {:induction false} RefillInv(cfg: Protocol.Config, s: State, t: nat, a: Action, s': State)
    requires cfg.Valid() && Inv(cfg, s) && a.Refill? && Step(cfg, s, t, a, s')
    ensures Inv(cfg, s')
  {
    hide Protocol.Inv, Protocol.Step, InCaches;
    PopOut(cfg, s.core, a.event, s'.core);
    UpdateCache(s.caches, t, s'.caches[t]);
    Gain(s.user, InCaches(s.caches), InCaches(s'.caches), multiset(s'.caches[t]));
  }

  lemma {:induction false} DrainInv(cfg: Protocol.Config, s: State, t: nat, a: Action, s': State)
    requires cfg.Valid() && Inv(cfg, s) && a.Drain? && Step(cfg, s, t, a, s')
    ensures Inv(cfg, s')
  {
    hide Protocol.Inv, Protocol.Step, InCaches;
    var x, y := s.caches[t][..a.n], s.caches[t][a.n..];
    PushOut(cfg, s.core, multiset(x), s'.core);
    UpdateCache(s.caches, t, y);
    assert s.caches[t] == x + y;
    assert multiset(x + y) == multiset(x) + multiset(y);
    Lose(s.user, InCaches(s.caches), InCaches(s'.caches), multiset(x), multiset(y));
  }

  lemma {:induction false} PopOut(cfg: Protocol.Config, s: Protocol.State, event: Protocol.Event, s': Protocol.State)
    requires cfg.Valid() && Protocol.Inv(cfg, s) && (event.Pop? || event.Populate?) && Protocol.Step(cfg, s, event, s')
    ensures Protocol.Inv(cfg, s') && s'.out == s.out + event.blocks
  {
    Protocol.StepInv(cfg, s, event, s');
  }

  lemma {:induction false} PushOut(cfg: Protocol.Config, s: Protocol.State, blocks: multiset<nat>, s': Protocol.State)
    requires cfg.Valid() && Protocol.Inv(cfg, s) && Protocol.Step(cfg, s, Protocol.Event.Push(blocks), s')
    ensures Protocol.Inv(cfg, s') && s'.out == s.out - blocks
  {
    Protocol.StepInv(cfg, s, Protocol.Event.Push(blocks), s');
  }

  /** One block moves from a cache to the user. */
  lemma {:induction false} MoveOver(user: multiset<nat>, all: multiset<nat>, all': multiset<nat>, cached: multiset<nat>,
                                    cached': multiset<nat>, x: multiset<nat>)
    requires all' + cached == all + cached' && cached == cached' + x
    ensures user + all == (user + x) + all'
  {
    forall c ensures (user + all)[c] == (user + x + all')[c] {
      assert (all' + cached)[c] == (all + cached')[c] && cached[c] == (cached' + x)[c];
    }
  }

  lemma {:induction false} Gain(user: multiset<nat>, all: multiset<nat>, all': multiset<nat>, x: multiset<nat>)
    requires all' + multiset([]) == all + x
    ensures (user + all) + x == user + all'
  {
    assert all' + multiset([]) == all';
  }

  lemma {:induction false} Lose(user: multiset<nat>, all: multiset<nat>, all': multiset<nat>, x: multiset<nat>, y: multiset<nat>)
    requires all' + (x + y) == all + y
    ensures user + all - x == user + all'
  {
    forall c ensures (user + all - x)[c] == (user + all')[c] {
      assert (all' + (x + y))[c] == (all + y)[c];
    }
  }

  // ---- Whole runs -------------------------------------------------------

  ghost predicate CanStep(cfg: Protocol.Config, s: State, s': State)
    requires cfg.Valid()
  {
    exists t, a :: Step(cfg, s, t, a, s')
  }

  ghost predicate Run(cfg: Protocol.Config, states: seq<State>)
    requires cfg.Valid()
  {
    states != [] && Init(states[0]) && forall i :: 0 < i < |states| ==> CanStep(cfg, states[i - 1], states[i])
  }

  lemma {:induction false} RunInv(cfg: Protocol.Config, states: seq<State>, i: nat)
    requires cfg.Valid() && Run(cfg, states) && i < |states|
    ensures Inv(cfg, states[i])
  {
    hide Inv, Init, Step;
    if i == 0 {
      InitInv(cfg, states[0]);
    } else {
      RunInv(cfg, states, i - 1);
      assert CanStep(cfg, states[i - 1], states[i]);
      var t, a :| Step(cfg, states[i - 1], t, a, states[i]);
      StepInv(cfg, states[i - 1], t, a, states[i]);
    }
  }

  /** In every run, each block that was cut is in exactly one place: with the user, in one
      cache, in the free list, or in an extracted group. */
  lemma {:induction false} InOnePlace(cfg: Protocol.Config, states: seq<State>, i: nat, k: nat)
    requires cfg.Valid() && Run(cfg, states) && i < |states| && k < states[i].core.carved
    ensures var s, c := states[i], cfg.Block(k);
      && s.user[c] + InCaches(s.caches)[c] + Occurs(ListBlocks(s.core.free), c) + Occurs(ListBlocks(s.core.extracted), c) == 1
      && forall t, u :: 0 <= t < |s.caches| && 0 <= u < |s.caches| && c in s.caches[t] && c in s.caches[u] ==> t == u
  {
    hide Run, ListBlocks, InCaches, cfg.layout.Blocks, Protocol.PagesSafe, ListOk;
    var s, c := states[i], cfg.Block(k);
    RunInv(cfg, states, i);
    Protocol.CarvedOnce(cfg, s.core.carved, c);
    cfg.layout.BlocksAt(0, s.core.carved, k);
    assert cfg.layout.Blocks(0, s.core.carved)[k] == c;
    Protocol.OccursIn(cfg.layout.Blocks(0, s.core.carved), c);
    assert (multiset(ListBlocks(s.core.free)) + multiset(ListBlocks(s.core.extracted)) + s.core.out)[c]
        == multiset(cfg.layout.Blocks(0, s.core.carved))[c];
    assert s.core.out[c] == (s.user + InCaches(s.caches))[c];
    forall t, u | 0 <= t < u < |s.caches| && c in s.caches[t] && c in s.caches[u] ensures false {
      InOneCache(s.caches, t, u, c);
    }
  }

  /** In every run, no block on a released page is with the user or in a cache. */
  lemma {:induction false} ReleasedNotInUse(cfg: Protocol.Config, states: seq<State>, i: nat, j: nat, k: nat)
    requires cfg.Valid() && Run(cfg, states) && i < |states|
    requires j in states[i].core.pages && k < states[i].core.carved
    requires Overlaps(Pow2(cfg.pageLog), cfg.layout.blockSize, k, j)
    ensures cfg.Block(k) !in states[i].user && forall t :: 0 <= t < |states[i].caches| ==> cfg.Block(k) !in states[i].caches[t]
  {
    hide Run, InCaches, ListBlocks, cfg.Block, Overlaps;
    var s, c := states[i], cfg.Block(k);
    InOnePlace(cfg, states, i, k);
    RunInv(cfg, states, i);
    Protocol.OccursIn(ListBlocks(s.core.extracted), c);
    forall t | 0 <= t < |s.caches| && c in s.caches[t] ensures false {
      CacheInAll(s.caches, t, c);
    }
  }
}
