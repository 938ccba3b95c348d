/** The quarantine of quarantine.h under any number of threads: one step for each
    critical section and for each batch that is recycled outside of the locks. */
module QuarantineRun {
  import opened Quarantine

  /** `caches[t]`: the cache of thread `t`; `taken[t]`: what it is about to recycle.
      `put`, `arrived`, `recycled`: all chunks ever put, moved to the global list,
      and recycled, in order. */
  datatype State = State(caches: seq<seq<Batch>>, global: seq<Batch>, taken: seq<seq<Batch>>,
                         put: seq<Chunk>, arrived: seq<Chunk>, recycled: seq<Chunk>)

  datatype Action = Put(chunk: Chunk) | Drain | Extract(minSize: nat) | RecycleBatch

  ghost predicate Init(s: State) {
    && |s.caches| == |s.taken| && s.global == [] && s.put == [] && s.arrived == [] && s.recycled == []
    && forall t :: 0 <= t < |s.caches| ==> s.caches[t] == [] && s.taken[t] == []
  }

  ghost predicate Step(s: State, t: nat, a: Action, s': State) {
    t < |s.caches| == |s.taken| &&
    match a
    case Put(chunk) =>
      && |s'.caches| == |s.caches| && Chunks(s'.caches[t]) == Chunks(s.caches[t]) + [chunk]
      && s' == s.(caches := s.caches[t := s'.caches[t]], put := s.put + [chunk])
    case Drain =>
      s' == s.(caches := s.caches[t := []], global := s.global + s.caches[t], arrived := s.arrived + Chunks(s.caches[t]))
    case Extract(minSize) =>
      && |s'.taken| == |s.taken| && s.taken[t] == []
      && Chunks(s.global) == Chunks(s'.taken[t]) + Chunks(s'.global) && SizeOf(s'.global) <= minSize
      && NoMoreThanNeeded(s.global, s'.taken[t], s'.global, minSize)
      && s' == s.(global := s'.global, taken := s.taken[t := s'.taken[t]])
    case RecycleBatch =>
      && s.taken[t] != []
      && multiset(s'.recycled) == multiset(s.recycled) + multiset(s.taken[t][0].chunks)
      && s' == s.(taken := s.taken[t := s.taken[t][1..]], recycled := s'.recycled)
  }

  /** Batches may have been merged first; of the result the fewest of the oldest left. */
  ghost predicate NoMoreThanNeeded(list: seq<Batch>, left: seq<Batch>, rest: seq<Batch>, minSize: nat) {
    exists merged, taken ::
      && FewestTaken(merged, taken, rest, minSize)
      && Chunks(merged) == Chunks(list) && SizeOf(merged) <= SizeOf(list) && Chunks(left) == Chunks(taken)
  }

  /** If the size fits already, no chunk leaves the global list. */
  lemma {:induction false} NothingLeaves(s: State, t: nat, minSize: nat, s': State)
    requires Step(s, t, Extract(minSize), s') && SizeOf(s.global) <= minSize
    ensures Chunks(s'.taken[t]) == [] && Chunks(s'.global) == Chunks(s.global)
  {
    var merged, taken :|
      && FewestTaken(merged, taken, s'.global, minSize)
      && Chunks(merged) == Chunks(s.global) && SizeOf(merged) <= SizeOf(s.global) && Chunks(s'.taken[t]) == Chunks(taken);
    LongestSuffix(merged, taken, s'.global, minSize, 0);
    NoneLeft();
  }

  /** The chunks in several lists of batches. */
  ghost function InLists(lists: seq<seq<Batch>>): multiset<Chunk> {
    if lists == [] then multiset{} else InLists(lists[..|lists| - 1]) + multiset(Chunks(lists[|lists| - 1]))
  }

  lemma {:induction false} UpdateList(lists: seq<seq<Batch>>, t: nat, x: seq<Batch>)
    requires t < |lists|
    ensures InLists(lists[t := x]) + multiset(Chunks(lists[t])) == InLists(lists) + multiset(Chunks(x))
  {
    hide Chunks;
    var n := |lists| - 1;
    if t < n {
      UpdateList(lists[..n], t, x);
      assert lists[t := x][..n] == lists[..n][t := x];
      AddToBoth(InLists(lists[..n][t := x]), multiset(Chunks(lists[t])), InLists(lists[..n]), multiset(Chunks(x)),
                multiset(Chunks(lists[n])));
    } else {
      assert lists[t := x][..n] == lists[..n];
      Swap(InLists(lists[..n]), multiset(Chunks(x)), multiset(Chunks(lists[n])));
    }
  }

  lemma {:induction false} AddToBoth(a: multiset<Chunk>, b: multiset<Chunk>, x: multiset<Chunk>, y: multiset<Chunk>,
                                     more: multiset<Chunk>)
    requires a + b == x + y
    ensures a + more + b == x + more + y
  {
    forall c ensures (a + more + b)[c] == (x + more + y)[c] {
      assert (a + b)[c] == (x + y)[c];
    }
  }

  lemma Swap(a: multiset<Chunk>, b: multiset<Chunk>, c: multiset<Chunk>)
    ensures a + b + c == a + c + b
  {
  }

  lemma {:induction false} EmptyLists(lists: seq<seq<Batch>>)
    requires forall t :: 0 <= t < |lists| ==> lists[t] == []
    ensures InLists(lists) == multiset{}
  {
    if lists != [] {
      EmptyLists(lists[..|lists| - 1]);
    }
  }

  /** Every chunk that was put waits somewhere or was recycled, and the global list
      holds the newest of the chunks that arrived in it. */
  ghost predicate Inv(s: State) {
    && |s.caches| == |s.taken|
    && multiset(s.put) == InLists(s.caches) + multiset(Chunks(s.global)) + InLists(s.taken) + multiset(s.recycled)
    && Suffix(Chunks(s.global), s.arrived)
  }

  lemma InitInv(s: State)
    requires Init(s)
    ensures Inv(s)
  {
    EmptyLists(s.caches);
    EmptyLists(s.taken);
  }

  lemma {:induction false} StepInv(s: State, t: nat, a: Action, s': State)
    requires Inv(s) && Step(s, t, a, s')
    ensures Inv(s')
  {
    match a
    case Put(_) => PutInv(s, t, a, s');
    case Drain => DrainInv(s, t, a, s');
    case Extract(_) => ExtractInv(s, t, a, s');
    case RecycleBatch => RecycleInv(s, t, a, s');
  }

  lemma {:induction false} PutInv(s: State, t: nat, a: Action, s': State)
    requires Inv(s) && Step(s, t, a, s') && a.Put?
    ensures Inv(s')
  {
    hide Chunks, InLists, Suffix;
    UpdateList(s.caches, t, s'.caches[t]);
    Shift(InLists(s'.caches), multiset(Chunks(s.caches[t])), InLists(s.caches), multiset{a.chunk});
  }

  lemma {:induction false} Shift(x: multiset<Chunk>, a: multiset<Chunk>, y: multiset<Chunk>, b: multiset<Chunk>)
    requires x + a == y + (a + b)
    ensures x == y + b
  {
    forall c ensures x[c] == (y + b)[c] {
      assert (x + a)[c] == (y + (a + b))[c];
    }
  }

  lemma {:induction false} DrainInv(s: State, t: nat, a: Action, s': State)
    requires Inv(s) && Step(s, t, a, s') && a.Drain?
    ensures Inv(s')
  {
    NoneLeft();
    hide Chunks, InLists;
    UpdateList(s.caches, t, []);
    ListConcat(s.global, s.caches[t]);
    Shift(InLists(s.caches), multiset{}, InLists(s'.caches), multiset(Chunks(s.caches[t])));
    var old', new' := Chunks(s.global), Chunks(s.global) + Chunks(s.caches[t]);
    assert s'.arrived[|s'.arrived| - |new'|..] == new';
  }

  lemma NoneLeft()
    ensures Chunks([]) == []
  {
  }

  lemma {:induction false} ExtractInv(s: State, t: nat, a: Action, s': State)
    requires Inv(s) && Step(s, t, a, s') && a.Extract?
    ensures Inv(s')
  {
    NoneLeft();
    hide Chunks, InLists, Suffix, NoMoreThanNeeded, SizeOf;
    UpdateList(s.taken, t, s'.taken[t]);
    Shift(InLists(s'.taken), multiset{}, InLists(s.taken), multiset(Chunks(s'.taken[t])));
    NewerPart(Chunks(s'.taken[t]), Chunks(s'.global), s.arrived);
  }

  lemma {:induction false} NewerPart(x: seq<Chunk>, y: seq<Chunk>, all: seq<Chunk>)
    requires Suffix(x + y, all)
    ensures Suffix(y, all) && multiset(x + y) == multiset(x) + multiset(y)
  {
    assert y == (x + y)[|x|..];
  }

  lemma {:induction false} RecycleInv(s: State, t: nat, a: Action, s': State)
    requires Inv(s) && Step(s, t, a, s') && a.RecycleBatch?
    ensures Inv(s')
  {
    hide Chunks, InLists, Suffix;
    var b, rest := s.taken[t][0], s.taken[t][1..];
    UpdateList(s.taken, t, rest);
    assert s.taken[t] == [b] + rest;
    ListConcat([b], rest);
    ListSingle(b);
    assert multiset(Chunks(s.taken[t])) == multiset(Chunks(rest)) + multiset(b.chunks);
    Shift(InLists(s.taken), multiset(Chunks(rest)), InLists(s'.taken), multiset(b.chunks));
  }

  ghost predicate CanStep(s: State, s': State) {
    exists t, a :: Step(s, t, a, s')
  }

  ghost predicate Run(states: seq<State>) {
    states != [] && Init(states[0]) && forall i :: 0 < i < |states| ==> CanStep(states[i - 1], states[i])
  }

  lemma {:induction false} RunInv(states: seq<State>, i: nat)
    requires Run(states) && i < |states|
    ensures Inv(states[i])
  {
    hide Inv, Init, Step;
    if i == 0 {
      InitInv(states[0]);
    } else {
      RunInv(states, i - 1);
      assert CanStep(states[i - 1], states[i]);
      var t, a :| Step(states[i - 1], t, a, states[i]);
      StepInv(states[i - 1], t, a, states[i]);
    }
  }

  /** No chunk is recycled more often than it was put, and once nothing waits any
      more, every chunk has been recycled exactly as often as it was put. */
  lemma {:induction false} RecycledOnce(states: seq<State>, i: nat, c: Chunk)
    requires Run(states) && i < |states|
    ensures multiset(states[i].recycled)[c] <= multiset(states[i].put)[c]
    ensures InLists(states[i].caches) == InLists(states[i].taken) == multiset{} && states[i].global == [] ==>
      multiset(states[i].recycled) == multiset(states[i].put)
  {
    hide Run, InLists;
    RunInv(states, i);
    var s := states[i];
    assert multiset(s.put)[c]
        == (InLists(s.caches) + multiset(Chunks(s.global)) + InLists(s.taken) + multiset(s.recycled))[c];
  }

  /** What the global quarantine holds is always the newest part of what arrived. */
  lemma {:induction false} GlobalIsNewest(states: seq<State>, i: nat)
    requires Run(states) && i < |states|
    ensures Suffix(Chunks(states[i].global), states[i].arrived)
  {
    RunInv(states, i);
  }
}
