/** The operations of the quarantine, each within its lock, are steps of its runs. Put,
    drain, recycle and drainAndRecycle are made of them. */
module QuarantineSteps {
  import opened Quarantine
  import opened QuarantineRun

  /** What a state says about the global quarantine, the cache of thread `t`, and the list
      of batches that the thread is about to recycle. */
  ghost predicate Matches(s: State, t: nat, g: GlobalQuarantine, c: QuarantineCache, tmp: QuarantineCache)
    reads g, g.cache, c, tmp
  {
    && Inv(s) && t < |s.caches|
    && g.cache.Valid() && c.Valid() && tmp.Valid() && g.cache != c && g.cache != tmp && c != tmp
    && g.cache.header == c.header == tmp.header
    && s.caches[t] == c.list && s.taken[t] == tmp.list && s.global == g.cache.list && s.recycled == g.recycled
  }

  /** put, up to its call of drain. */
  method Put(ghost s: State, ghost t: nat, ghost g: GlobalQuarantine, c: QuarantineCache, ghost tmp: QuarantineCache,
             chunk: Chunk, addr: nat) returns (ghost s': State)
    requires Matches(s, t, g, c, tmp)
    modifies c
    ensures Matches(s', t, g, c, tmp) && Step(s, t, Action.Put(chunk), s')
  {
    hide Chunks, Inv, SizeOf;
    assert |s.caches| == |s.taken| by { SameThreads(s); }
    c.Enqueue(chunk, addr);
    s' := s.(caches := s.caches[t := c.list], put := s.put + [chunk]);
    StepInv(s, t, Action.Put(chunk), s');
  }

  lemma SameThreads(s: State)
    requires Inv(s)
    ensures |s.caches| == |s.taken|
  {
  }

  /** The locked part of drain and of drainAndRecycle. */
  method Drain(ghost s: State, ghost t: nat, g: GlobalQuarantine, c: QuarantineCache, ghost tmp: QuarantineCache)
    returns (ghost s': State)
    requires Matches(s, t, g, c, tmp)
    modifies g.cache, c
    ensures Matches(s', t, g, c, tmp) && Step(s, t, Action.Drain, s')
  {
    hide Chunks, Inv, SizeOf;
    assert |s.caches| == |s.taken| by { SameThreads(s); }
    g.cache.Transfer(c);
    s' := s.(caches := s.caches[t := []], global := s.global + s.caches[t], arrived := s.arrived + Chunks(s.caches[t]));
    StepInv(s, t, Action.Drain, s');
  }

  /** The locked part of recycle. */
  method TakeOldest(ghost s: State, ghost t: nat, g: GlobalQuarantine, ghost c: QuarantineCache, tmp: QuarantineCache, minSize: nat)
    returns (ghost s': State)
    requires Matches(s, t, g, c, tmp) && tmp.list == []
    modifies g.cache, tmp
    ensures Matches(s', t, g, c, tmp) && Step(s, t, Action.Extract(minSize), s')
  {
    hide Chunks, Inv, SizeOf;
    assert |s.caches| == |s.taken| by { SameThreads(s); }
    ghost var merged, taken := g.TakeOldest(tmp, minSize);
    assert NoMoreThanNeeded(s.global, tmp.list, g.cache.list, minSize);
    s' := s.(global := g.cache.list, taken := s.taken[t := tmp.list]);
    StepInv(s, t, Action.Extract(minSize), s');
  }

  /** One round of the loop of doRecycle, outside of the locks. */
  method RecycleBatch(ghost s: State, ghost t: nat, g: GlobalQuarantine, ghost c: QuarantineCache, tmp: QuarantineCache,
                      random: (nat, nat) -> nat) returns (ghost s': State)
    requires Matches(s, t, g, c, tmp) && tmp.list != []
    modifies g`recycled, g`deallocated, tmp
    ensures Matches(s', t, g, c, tmp) && Step(s, t, Action.RecycleBatch, s')
  {
    hide Chunks, Inv, SizeOf;
    assert |s.caches| == |s.taken| by { SameThreads(s); }
    g.RecycleBatch(tmp, random);
    s' := s.(taken := s.taken[t := tmp.list], recycled := g.recycled);
    StepInv(s, t, Action.RecycleBatch, s');
  }
}
