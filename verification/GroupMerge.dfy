/** Taking groups out of a free list for page release, and merging them back:
    collectGroupsToRelease and mergeGroupsToReleaseBack as functions on lists. */
module GroupMerge {
  import opened Common
  import opened FreeList
  import opened PushOrder

  // ---- Collecting -------------------------------------------------------

  /** When a group is taken out: its free bytes have grown by at least
      `minAttempt` since they were last recorded, and the density test `dense`
      for small blocks lets it pass. */
  datatype Criteria = Criteria(cap: nat, blockSize: nat, minAttempt: nat, dense: Group -> bool)
  {
    function Bytes(g: Group): nat {
      if g.batches == [] then 0 else Max(NumBlocks(g, cap), 0) * blockSize
    }

    predicate Picked(g: Group) {
      Bytes(g) > g.checkpoint && Bytes(g) - g.checkpoint >= minAttempt && dense(g)
    }

    function Stamp(g: Group): Group {
      g.(checkpoint := Bytes(g))
    }

    /** A group that stays records its free bytes when they have shrunk. */
    function Keep(g: Group): Group {
      if Bytes(g) <= g.checkpoint then Stamp(g) else g
    }

    function Kept(gs: seq<Group>): seq<Group> {
      if gs == [] then []
      else Kept(gs[..|gs| - 1]) + (if Picked(gs[|gs| - 1]) then [] else [Keep(gs[|gs| - 1])])
    }

    function Taken(gs: seq<Group>): seq<Group> {
      if gs == [] then []
      else Taken(gs[..|gs| - 1]) + (if Picked(gs[|gs| - 1]) then [Stamp(gs[|gs| - 1])] else [])
    }

    /** Collecting splits the list: every block and every metadata block is in
        exactly one of the two parts. */
    lemma {:induction false} SplitContents(gs: seq<Group>)
      ensures multiset(ListBlocks(gs)) == multiset(ListBlocks(Kept(gs))) + multiset(ListBlocks(Taken(gs)))
      ensures multiset(ListMeta(gs)) == multiset(ListMeta(Kept(gs))) + multiset(ListMeta(Taken(gs)))
    {
      hide ListBlocks, ListMeta, Picked;
      if gs == [] {
        EmptyList();
      } else {
        SplitContents(gs[..|gs| - 1]);
        SplitStep(gs[..|gs| - 1], gs[|gs| - 1]);
        assert gs == gs[..|gs| - 1] + [gs[|gs| - 1]];
      }
    }

    lemma {:induction false} SplitStep(init: seq<Group>, last: Group)
      requires multiset(ListBlocks(init)) == multiset(ListBlocks(Kept(init))) + multiset(ListBlocks(Taken(init)))
      requires multiset(ListMeta(init)) == multiset(ListMeta(Kept(init))) + multiset(ListMeta(Taken(init)))
      ensures multiset(ListBlocks(init + [last]))
           == multiset(ListBlocks(Kept(init + [last]))) + multiset(ListBlocks(Taken(init + [last])))
      ensures multiset(ListMeta(init + [last]))
           == multiset(ListMeta(Kept(init + [last]))) + multiset(ListMeta(Taken(init + [last])))
    {
      hide ListBlocks, ListMeta, Picked, BatchesBlocks, GroupMeta;
      var g := if Picked(last) then Stamp(last) else Keep(last);
      SnocParts(init, last);
      SameContents(last);
      ListSnoc(init, last);
      ListSnoc(Kept(init), g);
      ListSnoc(Taken(init), g);
      EitherPart(multiset(ListBlocks(Kept(init))), multiset(ListBlocks(Taken(init))), multiset(BatchesBlocks(last.batches)));
      EitherPart(multiset(ListMeta(Kept(init))), multiset(ListMeta(Taken(init))), multiset(GroupMeta(last)));
    }

    lemma NoParts()
      ensures Kept([]) == [] && Taken([]) == []
    {
    }

    lemma SnocParts(init: seq<Group>, last: Group)
      ensures Kept(init + [last]) == if Picked(last) then Kept(init) else Kept(init) + [Keep(last)]
      ensures Taken(init + [last]) == if Picked(last) then Taken(init) + [Stamp(last)] else Taken(init)
    {
      hide Picked;
      assert (init + [last])[..|init|] == init;
    }

    lemma SameContents(g: Group)
      ensures Stamp(g).batches == Keep(g).batches == g.batches
      ensures GroupMeta(Stamp(g)) == GroupMeta(Keep(g)) == GroupMeta(g)
    {
    }

    lemma {:induction false} PartsBelow(gs: seq<Group>, base: nat)
      requires BasesBelow(gs, base)
      ensures BasesBelow(Kept(gs), base) && BasesBelow(Taken(gs), base)
    {
      hide Picked;
      if gs != [] {
        PartsBelow(gs[..|gs| - 1], base);
      }
    }

    /** Both parts are well formed, and no group base is in both. */
    lemma {:induction false} SplitOk(gs: seq<Group>, groupScale: nat)
      requires ListOk(gs, cap, groupScale)
      ensures ListOk(Kept(gs), cap, groupScale) && ListOk(Taken(gs), cap, groupScale)
      ensures DisjointBases(Kept(gs), Taken(gs))
    {
      hide GroupOk, Picked;
      if gs != [] {
        var init, last := gs[..|gs| - 1], gs[|gs| - 1];
        assert gs == init + [last];
        SplitOk(init, groupScale);
        PartsBelow(init, last.base);
        SplitOkStep(init, last, groupScale);
      }
    }

    lemma {:induction false} SplitOkStep(init: seq<Group>, last: Group, groupScale: nat)
      requires ListOk(Kept(init), cap, groupScale) && ListOk(Taken(init), cap, groupScale)
      requires DisjointBases(Kept(init), Taken(init)) && GroupOk(last, cap, groupScale)
      requires BasesBelow(Kept(init), last.base) && BasesBelow(Taken(init), last.base)
      ensures ListOk(Kept(init + [last]), cap, groupScale) && ListOk(Taken(init + [last]), cap, groupScale)
      ensures DisjointBases(Kept(init + [last]), Taken(init + [last]))
    {
      SnocParts(init, last);
      SameGroupOk(last, groupScale);
      hide ListOk, GroupOk, Picked, Kept, Taken;
      var g := if Picked(last) then Stamp(last) else Keep(last);
      SnocOk(Kept(init), g, cap, groupScale);
      SnocOk(Taken(init), g, cap, groupScale);
    }

    lemma SameGroupOk(g: Group, groupScale: nat)
      ensures GroupOk(Stamp(g), cap, groupScale) == GroupOk(g, cap, groupScale)
      ensures GroupOk(Keep(g), cap, groupScale) == GroupOk(g, cap, groupScale)
    {
    }

    /** Each group that was taken out had grown, and now records its exact size. */
    lemma {:induction false} TakenGrew(gs: seq<Group>, groupScale: nat, i: nat)
      requires ListOk(gs, cap, groupScale) && i < |Taken(gs)|
      ensures Taken(gs)[i].checkpoint == |BatchesBlocks(Taken(gs)[i].batches)| * blockSize
      ensures exists j :: 0 <= j < |gs| && Taken(gs)[i] == Stamp(gs[j]) && gs[j].checkpoint < Taken(gs)[i].checkpoint
    {
      var n := |gs| - 1;
      var last := gs[n];
      if i < |Taken(gs[..n])| {
        TakenGrew(gs[..n], groupScale, i);
        var j :| 0 <= j < |gs[..n]| && Taken(gs)[i] == Stamp(gs[..n][j]) && gs[..n][j].checkpoint < Taken(gs)[i].checkpoint;
        assert gs[..n][j] == gs[j];
      } else {
        assert GroupOk(last, cap, groupScale);
        NumBlocksExact(last, cap);
      }
    }

    /** The bytes of all its free blocks are what the short cut computes. */
    lemma {:induction false} BytesExact(g: Group, groupScale: nat)
      requires GroupOk(g, cap, groupScale)
      ensures Bytes(g) == |BatchesBlocks(g.batches)| * blockSize
    {
      NumBlocksExact(g, cap);
    }

    /** A group is due once its free bytes have grown by at least one byte and by
        at least `minAttempt`. */
    ghost predicate Due(g: Group) {
      var bytes := |BatchesBlocks(g.batches)| * blockSize;
      bytes >= g.checkpoint + Max(1, minAttempt) && dense(g)
    }

    /** What a group remembers after collecting: its size if it is due, and
        otherwise the least size seen since it was last due. */
    ghost function Remembered(g: Group): nat {
      var bytes := |BatchesBlocks(g.batches)| * blockSize;
      if Due(g) then bytes else Min(g.checkpoint, bytes)
    }

    /** A group that is due is taken out and any other stays, and either remembers
        what it should. */
    lemma {:induction false} TakenIff(gs: seq<Group>, groupScale: nat, j: nat)
      requires ListOk(gs, cap, groupScale) && j < |gs|
      ensures gs[j].(checkpoint := Remembered(gs[j])) in if Due(gs[j]) then Taken(gs) else Kept(gs)
      ensures DisjointBases(Kept(gs), Taken(gs))
    {
      SplitOk(gs, groupScale);
      var init, last := gs[..|gs| - 1], gs[|gs| - 1];
      assert gs == init + [last] && ListOk(init, cap, groupScale);
      assert GroupOk(last, cap, groupScale);
      hide Picked, Due, Remembered, Kept, Taken, GroupOk, DisjointBases, ListOk;
      SnocParts(init, last);
      if j < |init| {
        TakenIff(init, groupScale, j);
      } else {
        PartIff(last, groupScale);
        InSnoc(if Due(last) then Taken(init) else Kept(init), last.(checkpoint := Remembered(last)));
      }
    }

    lemma InSnoc(gs: seq<Group>, g: Group)
      ensures g in gs + [g]
    {
      assert (gs + [g])[|gs|] == g;
    }

    lemma {:induction false} PartIff(g: Group, groupScale: nat)
      requires GroupOk(g, cap, groupScale)
      ensures Picked(g) <==> Due(g)
      ensures (if Picked(g) then Stamp(g) else Keep(g)) == g.(checkpoint := Remembered(g))
    {
      BytesExact(g, groupScale);
      hide GroupOk, Bytes, BatchesBlocks;
    }
  }

  lemma EitherPart(k: multiset<nat>, t: multiset<nat>, b: multiset<nat>)
    ensures k + t + b == k + b + t
    ensures k + t + b == k + (t + b)
  {
  }

  ghost predicate DisjointBases(x: seq<Group>, y: seq<Group>) {
    forall i, j :: 0 <= i < |x| && 0 <= j < |y| ==> x[i].base != y[j].base
  }

  lemma {:induction false} SnocOk(gs: seq<Group>, g: Group, cap: nat, groupScale: nat)
    requires ListOk(gs, cap, groupScale) && GroupOk(g, cap, groupScale)
    requires BasesBelow(gs, g.base)
    ensures ListOk(gs + [g], cap, groupScale)
  {
    hide GroupOk;
  }

  ghost predicate BasesBelow(gs: seq<Group>, base: nat) {
    forall i :: 0 <= i < |gs| ==> gs[i].base < base
  }

  lemma {:induction false} ListSnoc(gs: seq<Group>, g: Group)
    ensures multiset(ListBlocks(gs + [g])) == multiset(ListBlocks(gs)) + multiset(BatchesBlocks(g.batches))
    ensures multiset(ListMeta(gs + [g])) == multiset(ListMeta(gs)) + multiset(GroupMeta(g))
  {
    ListConcat(gs, [g]);
    ListSingle(g);
  }

  // ---- Merging back -----------------------------------------------------

  /** The batches of a group after those of another group with the same base are
      merged in; at most the two front batches are partial. */
  function JoinBatches(x: seq<Batch>, y: seq<Batch>, cap: nat): seq<Batch>
    requires x != [] && y != []
  {
    if |y[0].blocks| == cap then x + y
    else if |x[0].blocks| == cap then [y[0]] + (x + y[1..])
    else
      var n := ToMove(x, y, cap);
      var front := Batch(x[0].addr, x[0].blocks + y[0].blocks[|y[0].blocks| - n..]);
      var left := y[0].blocks[..|y[0].blocks| - n];
      if left == [] then [front] + (x[1..] + y[1..])
      else [Batch(y[0].addr, left)] + ([front] + (x[1..] + y[1..]))
  }

  /** How many blocks of the second partial batch fit into the first. */
  function ToMove(x: seq<Batch>, y: seq<Batch>, cap: nat): (n: nat)
    requires x != [] && y != []
    ensures n <= |y[0].blocks|
  {
    Min(Max(cap - |x[0].blocks|, 0), |y[0].blocks|)
  }

  /** The batch that merging leaves without blocks, if any. */
  function UnusedBatch(x: seq<Batch>, y: seq<Batch>, cap: nat): seq<nat>
    requires x != [] && y != []
  {
    if |y[0].blocks| != cap && |x[0].blocks| != cap && ToMove(x, y, cap) == |y[0].blocks| then [y[0].addr] else []
  }

  lemma {:induction false} BatchesCons(b: Batch, batches: seq<Batch>)
    ensures BatchesBlocks([b] + batches) == b.blocks + BatchesBlocks(batches)
    ensures BatchesMeta([b] + batches) == [b.addr] + BatchesMeta(batches)
  {
    assert ([b] + batches)[1..] == batches;
  }

  lemma {:induction false} JoinOk(x: seq<Batch>, y: seq<Batch>, cap: nat)
    requires BatchesOk(x, cap) && BatchesOk(y, cap)
    ensures BatchesOk(JoinBatches(x, y, cap), cap)
  {
    var j := JoinBatches(x, y, cap);
    if |y[0].blocks| == cap {
      assert j[1..] == x[1..] + y;
      assert forall i :: 0 <= i < |y| ==> |y[i].blocks| == cap by {
        assert forall i :: 1 <= i < |y| ==> y[i] == y[1..][i - 1];
      }
    } else if |x[0].blocks| == cap {
      assert j[1..] == x + y[1..];
      assert forall i :: 1 <= i < |x| ==> x[i] == x[1..][i - 1];
    } else {
      assert j[1..] == x[1..] + y[1..] || j[1..][1..] == x[1..] + y[1..];
    }
  }

  /** Joining loses no block and no metadata block, except for the unused batch. */
  lemma {:induction false} JoinContents(x: seq<Batch>, y: seq<Batch>, cap: nat)
    requires x != [] && y != []
    ensures multiset(BatchesBlocks(JoinBatches(x, y, cap))) == multiset(BatchesBlocks(x)) + multiset(BatchesBlocks(y))
    ensures multiset(BatchesMeta(JoinBatches(x, y, cap))) + multiset(UnusedBatch(x, y, cap))
         == multiset(BatchesMeta(x)) + multiset(BatchesMeta(y))
  {
    if |y[0].blocks| == cap {
      BatchesConcat(x, y);
      hide BatchesBlocks, BatchesMeta;
    } else if |x[0].blocks| == cap {
      JoinFull(x, y, cap);
    } else {
      JoinPartial(x, y, cap);
    }
  }

  lemma {:induction false} JoinFull(x: seq<Batch>, y: seq<Batch>, cap: nat)
    requires x != [] && y != [] && |y[0].blocks| != cap && |x[0].blocks| == cap
    ensures multiset(BatchesBlocks(JoinBatches(x, y, cap))) == multiset(BatchesBlocks(x)) + multiset(BatchesBlocks(y))
    ensures multiset(BatchesMeta(JoinBatches(x, y, cap))) + multiset(UnusedBatch(x, y, cap))
         == multiset(BatchesMeta(x)) + multiset(BatchesMeta(y))
  {
    hide BatchesBlocks, BatchesMeta;
    assert y == [y[0]] + y[1..];
    BatchesCons(y[0], y[1..]);
    BatchesConcat(x, y[1..]);
    BatchesCons(y[0], x + y[1..]);
  }

  lemma {:induction false} JoinPartial(x: seq<Batch>, y: seq<Batch>, cap: nat)
    requires x != [] && y != [] && |y[0].blocks| != cap && |x[0].blocks| != cap
    ensures multiset(BatchesBlocks(JoinBatches(x, y, cap))) == multiset(BatchesBlocks(x)) + multiset(BatchesBlocks(y))
    ensures multiset(BatchesMeta(JoinBatches(x, y, cap))) + multiset(UnusedBatch(x, y, cap))
         == multiset(BatchesMeta(x)) + multiset(BatchesMeta(y))
  {
    JoinPartialBlocks(x, y, cap);
    JoinPartialMeta(x, y, cap);
  }

  lemma {:induction false} JoinPartialBlocks(x: seq<Batch>, y: seq<Batch>, cap: nat)
    requires x != [] && y != [] && |y[0].blocks| != cap && |x[0].blocks| != cap
    ensures multiset(BatchesBlocks(JoinBatches(x, y, cap))) == multiset(BatchesBlocks(x)) + multiset(BatchesBlocks(y))
  {
    hide *;
    forall c
      ensures Occurs(BatchesBlocks(JoinBatches(x, y, cap)), c) == Occurs(BatchesBlocks(x), c) + Occurs(BatchesBlocks(y), c)
    {
      JoinCounts(x, y, cap, c);
    }
    SameOccurrences(BatchesBlocks(JoinBatches(x, y, cap)), BatchesBlocks(x), BatchesBlocks(y));
  }

  lemma {:induction false} JoinPartialMeta(x: seq<Batch>, y: seq<Batch>, cap: nat)
    requires x != [] && y != [] && |y[0].blocks| != cap && |x[0].blocks| != cap
    ensures multiset(BatchesMeta(JoinBatches(x, y, cap))) + multiset(UnusedBatch(x, y, cap))
         == multiset(BatchesMeta(x)) + multiset(BatchesMeta(y))
  {
    hide *;
    var all := BatchesMeta(JoinBatches(x, y, cap)) + UnusedBatch(x, y, cap);
    forall c ensures Occurs(all, c) == Occurs(BatchesMeta(x), c) + Occurs(BatchesMeta(y), c) {
      OccursConcat(BatchesMeta(JoinBatches(x, y, cap)), UnusedBatch(x, y, cap), c);
      JoinCounts(x, y, cap, c);
    }
    SameOccurrences(all, BatchesMeta(x), BatchesMeta(y));
  }

  /** Joining, counted for one value: block by block and address by address. */
  lemma {:induction false} JoinCounts(x: seq<Batch>, y: seq<Batch>, cap: nat, c: nat)
    requires x != [] && y != [] && |y[0].blocks| != cap && |x[0].blocks| != cap
    ensures Occurs(BatchesBlocks(JoinBatches(x, y, cap)), c) == Occurs(BatchesBlocks(x), c) + Occurs(BatchesBlocks(y), c)
    ensures Occurs(BatchesMeta(JoinBatches(x, y, cap)), c) + Occurs(UnusedBatch(x, y, cap), c)
         == Occurs(BatchesMeta(x), c) + Occurs(BatchesMeta(y), c)
  {
    hide BatchesBlocks, BatchesMeta, JoinBatches, ToMove, UnusedBatch, Occurs;
    var k := |y[0].blocks| - ToMove(x, y, cap);
    var moved, left := y[0].blocks[k..], y[0].blocks[..k];
    var front, tail := Batch(x[0].addr, x[0].blocks + moved), x[1..] + y[1..];
    assert x == [x[0]] + x[1..] && y == [y[0]] + y[1..] && y[0].blocks == left + moved;
    BatchesConsOccurs(x[0], x[1..], c);
    BatchesConsOccurs(y[0], y[1..], c);
    BatchesConcat(x[1..], y[1..]);
    OccursConcat(BatchesBlocks(x[1..]), BatchesBlocks(y[1..]), c);
    OccursConcat(BatchesMeta(x[1..]), BatchesMeta(y[1..]), c);
    BatchesConsOccurs(front, tail, c);
    BatchesConsOccurs(Batch(y[0].addr, left), [front] + tail, c);
    OccursConcat(x[0].blocks, moved, c);
    OccursConcat(left, moved, c);
    OccursNone(c);
    JoinParts(x, y, cap, moved, left);
  }

  lemma {:induction false} BatchesConsOccurs(b: Batch, batches: seq<Batch>, c: nat)
    ensures Occurs(BatchesBlocks([b] + batches), c) == Occurs(b.blocks, c) + Occurs(BatchesBlocks(batches), c)
    ensures Occurs(BatchesMeta([b] + batches), c) == Occurs([b.addr], c) + Occurs(BatchesMeta(batches), c)
  {
    BatchesCons(b, batches);
    OccursConcat(b.blocks, BatchesBlocks(batches), c);
    OccursConcat([b.addr], BatchesMeta(batches), c);
  }

  lemma JoinParts(x: seq<Batch>, y: seq<Batch>, cap: nat, moved: seq<nat>, left: seq<nat>)
    requires x != [] && y != [] && |y[0].blocks| != cap && |x[0].blocks| != cap
    requires var k := |y[0].blocks| - ToMove(x, y, cap); moved == y[0].blocks[k..] && left == y[0].blocks[..k]
    ensures var joined := [Batch(x[0].addr, x[0].blocks + moved)] + (x[1..] + y[1..]);
      if left == [] then JoinBatches(x, y, cap) == joined && UnusedBatch(x, y, cap) == [y[0].addr]
      else JoinBatches(x, y, cap) == [Batch(y[0].addr, left)] + joined && UnusedBatch(x, y, cap) == []
  {
  }

  /** As stacks: what is merged in goes below, except that its partial batch goes on top,
      with the blocks that fill up the other partial batch below the rest. */
  lemma {:induction false} JoinStack(x: seq<Batch>, y: seq<Batch>, cap: nat)
    requires x != [] && y != [] && |x[0].blocks| <= cap
    ensures var b := y[0].blocks;
      var k := |b| - Min(cap - |x[0].blocks|, |b|);
      Stack(JoinBatches(x, y, cap)) == if |b| == cap then Stack(y) + Stack(x) else Stack(y[1..]) + Stack(x) + (b[k..] + b[..k])
  {
    hide Stack;
    var b := y[0].blocks;
    var k := |b| - Min(cap - |x[0].blocks|, |b|);
    if |b| == cap {
      StackConcat(x, y);
    } else if |x[0].blocks| == cap {
      StackConcat(x, y[1..]);
      StackCons(y[0], x + y[1..]);
      assert b[k..] + b[..k] == b;
    } else {
      hide JoinBatches;
      JoinParts(x, y, cap, b[k..], b[..k]);
      JoinedStack(x, y, b[k..], b[..k]);
    }
  }

  lemma {:induction false} JoinedStack(x: seq<Batch>, y: seq<Batch>, moved: seq<nat>, left: seq<nat>)
    requires x != [] && y != []
    ensures var joined := [Batch(x[0].addr, x[0].blocks + moved)] + (x[1..] + y[1..]);
      && (left == [] ==> Stack(joined) == Stack(y[1..]) + Stack(x) + (moved + left))
      && Stack([Batch(y[0].addr, left)] + joined) == Stack(y[1..]) + Stack(x) + (moved + left)
  {
    var joined := [Batch(x[0].addr, x[0].blocks + moved)] + (x[1..] + y[1..]);
    StackConcat(x[1..], y[1..]);
    StackCons(Batch(x[0].addr, x[0].blocks + moved), x[1..] + y[1..]);
    StackCons(Batch(y[0].addr, left), joined);
    StackCons(x[0], x[1..]);
    assert x == [x[0]] + x[1..];
    hide Stack;
    StackParts(Stack(y[1..]), Stack(x[1..]), x[0].blocks, moved, left);
  }

  lemma StackParts(y: seq<nat>, x: seq<nat>, front: seq<nat>, more: seq<nat>, rest: seq<nat>)
    ensures y + x + (front + more) + rest == y + (x + front) + (more + rest)
    ensures rest == [] ==> y + x + (front + more) == y + (x + front) + (more + rest)
  {
  }

  /** Two groups with the same base become one, which remembers the byte count
      recorded when the second was taken out. */
  function JoinGroups(x: Group, y: Group, cap: nat): Group
    requires x.batches != [] && y.batches != []
  {
    x.(checkpoint := y.checkpoint, batches := JoinBatches(x.batches, y.batches, cap))
  }

  /** The metadata blocks that joining two groups sets free. */
  function Leftover(x: Group, y: Group, cap: nat): seq<nat>
    requires x.batches != [] && y.batches != []
  {
    [y.addr] + UnusedBatch(x.batches, y.batches, cap)
  }

  ghost predicate NoEmptyGroup(gs: seq<Group>) {
    forall i :: 0 <= i < |gs| ==> gs[i].batches != []
  }

  ghost predicate FrontsFit(gs: seq<Group>, cap: nat) {
    forall i :: 0 <= i < |gs| ==> gs[i].batches != [] && |gs[i].batches[0].blocks| <= cap
  }

  lemma {:induction false} FrontsOfOk(gs: seq<Group>, cap: nat, groupScale: nat)
    requires ListOk(gs, cap, groupScale)
    ensures FrontsFit(gs, cap) && NoEmptyGroup(gs)
  {
    forall i | 0 <= i < |gs| ensures gs[i].batches != [] && |gs[i].batches[0].blocks| <= cap {
      assert GroupOk(gs[i], cap, groupScale);
    }
  }

  /** The sorted merge of two sorted lists of groups. */
  function MergeLists(x: seq<Group>, y: seq<Group>, cap: nat): seq<Group>
    requires NoEmptyGroup(x) && NoEmptyGroup(y)
    decreases |x| + |y|
  {
    if x == [] then y
    else if y == [] then x
    else if x[0].base < y[0].base then [x[0]] + MergeLists(x[1..], y, cap)
    else if x[0].base == y[0].base then [JoinGroups(x[0], y[0], cap)] + MergeLists(x[1..], y[1..], cap)
    else [y[0]] + MergeLists(x, y[1..], cap)
  }

  /** The metadata blocks that merging sets free, in order. */
  function MergeLeftover(x: seq<Group>, y: seq<Group>, cap: nat): seq<nat>
    requires NoEmptyGroup(x) && NoEmptyGroup(y)
    decreases |x| + |y|
  {
    if x == [] || y == [] then []
    else if x[0].base < y[0].base then MergeLeftover(x[1..], y, cap)
    else if x[0].base == y[0].base then Leftover(x[0], y[0], cap) + MergeLeftover(x[1..], y[1..], cap)
    else MergeLeftover(x, y[1..], cap)
  }

  lemma {:induction false} MergeStep(x: seq<Group>, y: seq<Group>, cap: nat)
    requires NoEmptyGroup(x) && NoEmptyGroup(y) && x != [] && y != []
    ensures NoEmptyGroup(x[1..]) && NoEmptyGroup(y[1..])
    ensures MergeLists(x, y, cap) ==
      if x[0].base < y[0].base then [x[0]] + MergeLists(x[1..], y, cap)
      else if x[0].base == y[0].base then [JoinGroups(x[0], y[0], cap)] + MergeLists(x[1..], y[1..], cap)
      else [y[0]] + MergeLists(x, y[1..], cap)
    ensures MergeLeftover(x, y, cap) ==
      if x[0].base < y[0].base then MergeLeftover(x[1..], y, cap)
      else if x[0].base == y[0].base then
        [y[0].addr] + UnusedBatch(x[0].batches, y[0].batches, cap) + MergeLeftover(x[1..], y[1..], cap)
      else MergeLeftover(x, y[1..], cap)
  {
    hide JoinGroups, UnusedBatch;
  }

  lemma {:induction false} FrontsTail(x: seq<Group>, cap: nat)
    requires FrontsFit(x, cap) && x != []
    ensures FrontsFit(x[1..], cap) && x == [x[0]] + x[1..]
    ensures x[0].batches != [] && |x[0].batches[0].blocks| <= cap
  {
  }

  /** What is merged so far (`done`, and the metadata `freed`), before the rest. */
  ghost predicate Merging(gs: seq<Group>, groups: seq<Group>, done: seq<Group>, freed: seq<nat>,
                          x: seq<Group>, y: seq<Group>, cap: nat)
  {
    && NoEmptyGroup(gs) && NoEmptyGroup(groups) && NoEmptyGroup(x) && NoEmptyGroup(y)
    && MergeLists(gs, groups, cap) == done + MergeLists(x, y, cap)
    && MergeLeftover(gs, groups, cap) == freed + MergeLeftover(x, y, cap)
  }

  lemma MergingStart(gs: seq<Group>, groups: seq<Group>, cap: nat)
    requires NoEmptyGroup(gs) && NoEmptyGroup(groups)
    ensures Merging(gs, groups, [], [], gs, groups, cap)
  {
  }

  /** One step of the merging walk. */
  lemma {:induction false} MergingStep(gs: seq<Group>, groups: seq<Group>, done: seq<Group>, freed: seq<nat>,
                                       x: seq<Group>, y: seq<Group>, cap: nat)
    requires Merging(gs, groups, done, freed, x, y, cap) && x != [] && y != []
    ensures x[0].batches != [] && y[0].batches != []
    ensures if x[0].base < y[0].base then Merging(gs, groups, done + [x[0]], freed, x[1..], y, cap)
      else if x[0].base == y[0].base then
        Merging(gs, groups, done + [JoinGroups(x[0], y[0], cap)],
                freed + ([y[0].addr] + UnusedBatch(x[0].batches, y[0].batches, cap)), x[1..], y[1..], cap)
      else Merging(gs, groups, done + [y[0]], freed, x, y[1..], cap)
  {
    assert x[0].batches != [] && y[0].batches != [];
    hide MergeLists, MergeLeftover, JoinGroups, UnusedBatch, NoEmptyGroup;
    MergeStep(x, y, cap);
    if x[0].base < y[0].base {
      AppendLater(done, [x[0]], MergeLists(x[1..], y, cap));
    } else if x[0].base == y[0].base {
      AppendLater(done, [JoinGroups(x[0], y[0], cap)], MergeLists(x[1..], y[1..], cap));
      FreeLater(freed, [y[0].addr] + UnusedBatch(x[0].batches, y[0].batches, cap), MergeLeftover(x[1..], y[1..], cap));
    } else {
      AppendLater(done, [y[0]], MergeLists(x, y[1..], cap));
    }
  }

  lemma FreeLater(x: seq<nat>, y: seq<nat>, z: seq<nat>)
    ensures (x + y) + z == x + (y + z)
  {
  }

  lemma {:induction false} MergingEnd(gs: seq<Group>, groups: seq<Group>, done: seq<Group>, freed: seq<nat>,
                                      x: seq<Group>, y: seq<Group>, cap: nat)
    requires Merging(gs, groups, done, freed, x, y, cap) && (x == [] || y == [])
    ensures MergeLists(gs, groups, cap) == done + x + y && MergeLeftover(gs, groups, cap) == freed
  {
    hide NoEmptyGroup;
  }

  lemma {:induction false} ListConsOccurs(g: Group, gs: seq<Group>, c: nat)
    ensures Occurs(ListBlocks([g] + gs), c) == Occurs(BatchesBlocks(g.batches), c) + Occurs(ListBlocks(gs), c)
    ensures Occurs(ListMeta([g] + gs), c) == Occurs([g.addr], c) + Occurs(BatchesMeta(g.batches), c) + Occurs(ListMeta(gs), c)
  {
    PopRest(g, gs);
    OccursConcat(BatchesBlocks(g.batches), ListBlocks(gs), c);
    OccursConcat(GroupMeta(g), ListMeta(gs), c);
    OccursConcat([g.addr], BatchesMeta(g.batches), c);
  }

  lemma {:induction false} ListHeadOccurs(gs: seq<Group>, c: nat)
    requires gs != []
    ensures Occurs(ListBlocks(gs), c) == Occurs(BatchesBlocks(gs[0].batches), c) + Occurs(ListBlocks(gs[1..]), c)
    ensures Occurs(ListMeta(gs), c)
         == Occurs([gs[0].addr], c) + Occurs(BatchesMeta(gs[0].batches), c) + Occurs(ListMeta(gs[1..]), c)
  {
    assert gs == [gs[0]] + gs[1..];
    ListConsOccurs(gs[0], gs[1..], c);
  }

  lemma {:induction false} JoinGroupsOccurs(x: Group, y: Group, cap: nat, c: nat)
    requires x.batches != [] && y.batches != []
    ensures var g := JoinGroups(x, y, cap);
      && Occurs(BatchesBlocks(g.batches), c) == Occurs(BatchesBlocks(x.batches), c) + Occurs(BatchesBlocks(y.batches), c)
      && Occurs(BatchesMeta(g.batches), c) + Occurs(Leftover(x, y, cap), c)
         == Occurs(BatchesMeta(x.batches), c) + Occurs([y.addr], c) + Occurs(BatchesMeta(y.batches), c)
  {
    JoinContents(x.batches, y.batches, cap);
    var u := UnusedBatch(x.batches, y.batches, cap);
    OccursInSum(BatchesMeta(JoinBatches(x.batches, y.batches, cap)), u,
                BatchesMeta(x.batches), BatchesMeta(y.batches), c);
    OccursInSum(BatchesBlocks(JoinBatches(x.batches, y.batches, cap)), [],
                BatchesBlocks(x.batches), BatchesBlocks(y.batches), c);
    OccursNone(c);
    OccursConcat([y.addr], u, c);
  }

  /** Merging keeps every block, and every metadata block is either still in use
      or among the left-over ones. */
  lemma {:induction false} MergeCounts(x: seq<Group>, y: seq<Group>, cap: nat, c: nat)
    requires NoEmptyGroup(x) && NoEmptyGroup(y)
    ensures Occurs(ListBlocks(MergeLists(x, y, cap)), c) == Occurs(ListBlocks(x), c) + Occurs(ListBlocks(y), c)
    ensures Occurs(ListMeta(MergeLists(x, y, cap)), c) + Occurs(MergeLeftover(x, y, cap), c)
         == Occurs(ListMeta(x), c) + Occurs(ListMeta(y), c)
    decreases |x| + |y|
  {
    hide Occurs, ListBlocks, ListMeta, JoinGroups, Leftover;
    EmptyList();
    OccursNone(c);
    if x != [] && y != [] {
      ListHeadOccurs(x, c);
      ListHeadOccurs(y, c);
      if x[0].base < y[0].base {
        MergeCounts(x[1..], y, cap, c);
        ListConsOccurs(x[0], MergeLists(x[1..], y, cap), c);
      } else if x[0].base == y[0].base {
        MergeCounts(x[1..], y[1..], cap, c);
        JoinGroupsOccurs(x[0], y[0], cap, c);
        JoinGroupsAddr(x[0], y[0], cap);
        ListConsOccurs(JoinGroups(x[0], y[0], cap), MergeLists(x[1..], y[1..], cap), c);
        OccursConcat(Leftover(x[0], y[0], cap), MergeLeftover(x[1..], y[1..], cap), c);
      } else {
        MergeCounts(x, y[1..], cap, c);
        ListConsOccurs(y[0], MergeLists(x, y[1..], cap), c);
      }
    }
  }

  lemma JoinGroupsAddr(x: Group, y: Group, cap: nat)
    requires x.batches != [] && y.batches != []
    ensures JoinGroups(x, y, cap).addr == x.addr && JoinGroups(x, y, cap).base == x.base
    ensures JoinGroups(x, y, cap).checkpoint == y.checkpoint
  {
  }

  ghost predicate BasesAbove(gs: seq<Group>, base: int) {
    forall i :: 0 <= i < |gs| ==> base < gs[i].base
  }

  lemma {:induction false} ConsOk(g: Group, gs: seq<Group>, cap: nat, groupScale: nat)
    requires ListOk(gs, cap, groupScale) && GroupOk(g, cap, groupScale) && BasesAbove(gs, g.base)
    ensures ListOk([g] + gs, cap, groupScale)
    ensures forall base :: base < g.base ==> BasesAbove([g] + gs, base)
  {
    hide GroupOk;
  }

  lemma {:induction false} TailOk(gs: seq<Group>, cap: nat, groupScale: nat)
    requires ListOk(gs, cap, groupScale) && gs != []
    ensures GroupOk(gs[0], cap, groupScale) && ListOk(gs[1..], cap, groupScale) && BasesAbove(gs[1..], gs[0].base)
    ensures NoEmptyGroup(gs[1..]) && gs[0].batches != []
  {
    DropFirst(gs, cap, groupScale);
    NotEmpty(gs[1..], cap, groupScale);
    hide GroupOk;
  }

  lemma {:induction false} NotEmpty(gs: seq<Group>, cap: nat, groupScale: nat)
    requires ListOk(gs, cap, groupScale)
    ensures NoEmptyGroup(gs)
  {
    forall i | 0 <= i < |gs| ensures gs[i].batches != [] {
      assert GroupOk(gs[i], cap, groupScale);
    }
  }

  lemma {:induction false} JoinGroupsOk(x: Group, y: Group, cap: nat, groupScale: nat)
    requires GroupOk(x, cap, groupScale) && GroupOk(y, cap, groupScale) && x.base == y.base
    ensures GroupOk(JoinGroups(x, y, cap), cap, groupScale)
  {
    hide AllInGroup, GroupOf, BatchesBlocks, JoinBatches;
    JoinOk(x.batches, y.batches, cap);
    JoinContents(x.batches, y.batches, cap);
    SameBlocksInGroup(BatchesBlocks(x.batches), BatchesBlocks(y.batches),
                      BatchesBlocks(JoinBatches(x.batches, y.batches, cap)), x.base, groupScale);
  }

  /** The merged list is sorted and well formed. */
  lemma {:induction false} MergeOk(x: seq<Group>, y: seq<Group>, cap: nat, groupScale: nat, low: int)
    requires ListOk(x, cap, groupScale) && ListOk(y, cap, groupScale)
    requires BasesAbove(x, low) && BasesAbove(y, low)
    ensures NoEmptyGroup(x) && NoEmptyGroup(y)
    ensures ListOk(MergeLists(x, y, cap), cap, groupScale) && BasesAbove(MergeLists(x, y, cap), low)
    decreases |x| + |y|
  {
    NotEmpty(x, cap, groupScale);
    NotEmpty(y, cap, groupScale);
    hide GroupOk, ListOk, NoEmptyGroup, JoinGroups;
    if x != [] && y != [] {
      TailOk(x, cap, groupScale);
      TailOk(y, cap, groupScale);
      if x[0].base < y[0].base {
        MergeOk(x[1..], y, cap, groupScale, x[0].base);
        ConsOk(x[0], MergeLists(x[1..], y, cap), cap, groupScale);
      } else if x[0].base == y[0].base {
        MergeOk(x[1..], y[1..], cap, groupScale, x[0].base);
        JoinGroupsAddr(x[0], y[0], cap);
        JoinGroupsOk(x[0], y[0], cap, groupScale);
        ConsOk(JoinGroups(x[0], y[0], cap), MergeLists(x[1..], y[1..], cap), cap, groupScale);
      } else {
        MergeOk(x, y[1..], cap, groupScale, y[0].base);
        ConsOk(y[0], MergeLists(x, y[1..], cap), cap, groupScale);
      }
    }
  }

  lemma NoneBelowZero(gs: seq<Group>)
    ensures BasesAbove(gs, -1)
  {
  }

  lemma {:induction false} MergeContents(x: seq<Group>, y: seq<Group>, cap: nat)
    requires NoEmptyGroup(x) && NoEmptyGroup(y)
    ensures multiset(ListBlocks(MergeLists(x, y, cap))) == multiset(ListBlocks(x)) + multiset(ListBlocks(y))
    ensures multiset(ListMeta(MergeLists(x, y, cap))) + multiset(MergeLeftover(x, y, cap))
         == multiset(ListMeta(x)) + multiset(ListMeta(y))
  {
    hide *;
    var m := MergeLists(x, y, cap);
    var meta := ListMeta(m) + MergeLeftover(x, y, cap);
    forall c
      ensures Occurs(ListBlocks(m), c) == Occurs(ListBlocks(x), c) + Occurs(ListBlocks(y), c)
      ensures Occurs(meta, c) == Occurs(ListMeta(x), c) + Occurs(ListMeta(y), c)
    {
      MergeCounts(x, y, cap, c);
      OccursConcat(ListMeta(m), MergeLeftover(x, y, cap), c);
    }
    SameOccurrences(ListBlocks(m), ListBlocks(x), ListBlocks(y));
    SameOccurrences(meta, ListMeta(x), ListMeta(y));
  }

  /** What each group of a list remembers, by base. */
  function Checkpoints(gs: seq<Group>): map<nat, nat> {
    if gs == [] then map[] else Checkpoints(gs[1..])[gs[0].base := gs[0].checkpoint]
  }

  lemma {:induction false} CheckpointsAbove(gs: seq<Group>, base: int)
    requires BasesAbove(gs, base)
    ensures forall b :: b in Checkpoints(gs) ==> base < b
  {
    if gs != [] {
      CheckpointsAbove(gs[1..], base);
    }
  }

  lemma CheckpointsCons(g: Group, gs: seq<Group>)
    ensures Checkpoints([g] + gs) == Checkpoints(gs)[g.base := g.checkpoint]
  {
    assert ([g] + gs)[1..] == gs;
  }

  lemma MapPut(x: map<nat, nat>, y: map<nat, nat>, b: nat, u: nat, v: nat)
    ensures b !in y ==> x[b := u] + y == (x + y)[b := u]
    ensures x + y[b := v] == (x + y)[b := v]
    ensures x[b := u] + y[b := v] == (x + y)[b := v]
  {
  }

  /** After merging every group remembers what it did, and if it was in both lists
      what the one merged in remembers. */
  lemma {:induction false} MergeCheckpoints(x: seq<Group>, y: seq<Group>, cap: nat, groupScale: nat)
    requires ListOk(x, cap, groupScale) && ListOk(y, cap, groupScale)
    ensures NoEmptyGroup(x) && NoEmptyGroup(y)
    ensures Checkpoints(MergeLists(x, y, cap)) == Checkpoints(x) + Checkpoints(y)
    decreases |x| + |y|
  {
    NotEmpty(x, cap, groupScale);
    NotEmpty(y, cap, groupScale);
    hide ListOk, GroupOk, NoEmptyGroup, BasesAbove, MergeLists, JoinGroups, Sorted;
    if x != [] && y != [] {
      MergeStep(x, y, cap);
      TailOk(x, cap, groupScale);
      TailOk(y, cap, groupScale);
      CheckpointsAbove(y[1..], y[0].base);
      if x[0].base < y[0].base {
        MergeCheckpoints(x[1..], y, cap, groupScale);
        CheckpointsCons(x[0], MergeLists(x[1..], y, cap));
        MapPut(Checkpoints(x[1..]), Checkpoints(y), x[0].base, x[0].checkpoint, 0);
      } else if x[0].base == y[0].base {
        MergeCheckpoints(x[1..], y[1..], cap, groupScale);
        CheckpointsCons(JoinGroups(x[0], y[0], cap), MergeLists(x[1..], y[1..], cap));
        JoinGroupsAddr(x[0], y[0], cap);
        MapPut(Checkpoints(x[1..]), Checkpoints(y[1..]), x[0].base, x[0].checkpoint, y[0].checkpoint);
      } else {
        MergeCheckpoints(x, y[1..], cap, groupScale);
        CheckpointsCons(y[0], MergeLists(x, y[1..], cap));
        MapPut(Checkpoints(x), Checkpoints(y[1..]), y[0].base, 0, y[0].checkpoint);
      }
    } else {
      MergeOneSided(x, y, cap);
    }
  }

  lemma MergeOneSided(x: seq<Group>, y: seq<Group>, cap: nat)
    requires NoEmptyGroup(x) && NoEmptyGroup(y) && (x == [] || y == [])
    ensures MergeLists(x, y, cap) == x + y
  {
  }

  // ---- Round trip -------------------------------------------------------

  /** `x` holds the groups of `y` with the same batches, and each remembers what it
      should after collecting. */
  ghost predicate Recorded(criteria: Criteria, x: seq<Group>, y: seq<Group>) {
    |x| == |y| && forall i :: 0 <= i < |x| ==> x[i] == y[i].(checkpoint := criteria.Remembered(y[i]))
  }

  lemma {:induction false} PartsCons(criteria: Criteria, g: Group, gs: seq<Group>)
    ensures criteria.Kept([g] + gs)
         == (if criteria.Picked(g) then [] else [criteria.Keep(g)]) + criteria.Kept(gs)
    ensures criteria.Taken([g] + gs)
         == (if criteria.Picked(g) then [criteria.Stamp(g)] else []) + criteria.Taken(gs)
  {
    hide criteria.Picked, criteria.Keep, criteria.Stamp;
    if gs == [] {
      assert [g] + gs == [] + [g];
      criteria.SnocParts([], g);
      criteria.NoParts();
    } else {
      var init, last := gs[..|gs| - 1], gs[|gs| - 1];
      assert gs == init + [last] && [g] + gs == ([g] + init) + [last];
      PartsCons(criteria, g, init);
      PartsConsStep(criteria, g, init, last);
    }
  }

  lemma {:induction false} PartsConsStep(criteria: Criteria, g: Group, init: seq<Group>, last: Group)
    requires criteria.Kept([g] + init)
          == (if criteria.Picked(g) then [] else [criteria.Keep(g)]) + criteria.Kept(init)
    requires criteria.Taken([g] + init)
          == (if criteria.Picked(g) then [criteria.Stamp(g)] else []) + criteria.Taken(init)
    ensures criteria.Kept(([g] + init) + [last])
         == (if criteria.Picked(g) then [] else [criteria.Keep(g)]) + criteria.Kept(init + [last])
    ensures criteria.Taken(([g] + init) + [last])
         == (if criteria.Picked(g) then [criteria.Stamp(g)] else []) + criteria.Taken(init + [last])
  {
    hide criteria.Picked, criteria.Keep, criteria.Stamp, criteria.Kept, criteria.Taken;
    criteria.SnocParts([g] + init, last);
    criteria.SnocParts(init, last);
    AppendLater(if criteria.Picked(g) then [] else [criteria.Keep(g)], criteria.Kept(init), [criteria.Keep(last)]);
    AppendLater(if criteria.Picked(g) then [criteria.Stamp(g)] else [], criteria.Taken(init), [criteria.Stamp(last)]);
  }

  lemma AppendLater(x: seq<Group>, y: seq<Group>, z: seq<Group>)
    ensures (x + y) + z == x + (y + z)
  {
  }


  lemma {:induction false} PartsAbove(criteria: Criteria, gs: seq<Group>, base: int)
    requires BasesAbove(gs, base)
    ensures BasesAbove(criteria.Kept(gs), base) && BasesAbove(criteria.Taken(gs), base)
  {
    hide criteria.Picked;
    if gs != [] {
      PartsAbove(criteria, gs[..|gs| - 1], base);
    }
  }

  lemma {:induction false} MergeConsLeft(s: Group, x: seq<Group>, y: seq<Group>, cap: nat)
    requires s.batches != [] && NoEmptyGroup(x) && NoEmptyGroup(y) && BasesAbove(y, s.base)
    ensures NoEmptyGroup([s] + x) && MergeLists([s] + x, y, cap) == [s] + MergeLists(x, y, cap)
    ensures MergeLeftover([s] + x, y, cap) == MergeLeftover(x, y, cap)
  {
    assert ([s] + x)[1..] == x;
  }

  lemma {:induction false} MergeConsRight(x: seq<Group>, s: Group, y: seq<Group>, cap: nat)
    requires s.batches != [] && NoEmptyGroup(x) && NoEmptyGroup(y) && BasesAbove(x, s.base)
    ensures NoEmptyGroup([s] + y) && MergeLists(x, [s] + y, cap) == [s] + MergeLists(x, y, cap)
    ensures MergeLeftover(x, [s] + y, cap) == MergeLeftover(x, y, cap)
  {
    assert ([s] + y)[1..] == y;
  }

  lemma {:induction false} RecordedCons(criteria: Criteria, g: Group, x: seq<Group>, y: seq<Group>)
    requires Recorded(criteria, x, y)
    ensures Recorded(criteria, [g.(checkpoint := criteria.Remembered(g))] + x, [g] + y)
  {
    hide criteria.Remembered;
  }

  /** Merging at once what was collected gives back the list that was collected
      from, with its sizes recorded, and nothing is left over. */
  lemma {:induction false} CollectThenMerge(criteria: Criteria, gs: seq<Group>, groupScale: nat)
    requires ListOk(gs, criteria.cap, groupScale)
    ensures NoEmptyGroup(criteria.Kept(gs)) && NoEmptyGroup(criteria.Taken(gs))
    ensures Recorded(criteria, MergeLists(criteria.Kept(gs), criteria.Taken(gs), criteria.cap), gs)
    ensures MergeLeftover(criteria.Kept(gs), criteria.Taken(gs), criteria.cap) == []
  {
    criteria.NoParts();
    if gs != [] {
      var g, tail := gs[0], gs[1..];
      assert gs == [g] + tail;
      TailOk(gs, criteria.cap, groupScale);
      CollectThenMerge(criteria, tail, groupScale);
      CollectThenMergeStep(criteria, g, tail, groupScale);
    }
  }

  lemma {:induction false} CollectThenMergeStep(criteria: Criteria, g: Group, tail: seq<Group>, groupScale: nat)
    requires GroupOk(g, criteria.cap, groupScale) && g.batches != [] && BasesAbove(tail, g.base)
    requires NoEmptyGroup(criteria.Kept(tail)) && NoEmptyGroup(criteria.Taken(tail))
    requires Recorded(criteria, MergeLists(criteria.Kept(tail), criteria.Taken(tail), criteria.cap), tail)
    requires MergeLeftover(criteria.Kept(tail), criteria.Taken(tail), criteria.cap) == []
    ensures NoEmptyGroup(criteria.Kept([g] + tail)) && NoEmptyGroup(criteria.Taken([g] + tail))
    ensures Recorded(criteria, MergeLists(criteria.Kept([g] + tail), criteria.Taken([g] + tail), criteria.cap), [g] + tail)
    ensures MergeLeftover(criteria.Kept([g] + tail), criteria.Taken([g] + tail), criteria.cap) == []
  {
    criteria.PartIff(g, groupScale);
    hide criteria.Kept, criteria.Taken, criteria.Picked, criteria.Bytes, criteria.Due, criteria.Remembered,
         MergeLists, MergeLeftover, NoEmptyGroup, Recorded, GroupOk;
    PartsCons(criteria, g, tail);
    PartsAbove(criteria, tail, g.base);
    var m := MergeLists(criteria.Kept(tail), criteria.Taken(tail), criteria.cap);
    if criteria.Picked(g) {
      MergeConsRight(criteria.Kept(tail), criteria.Stamp(g), criteria.Taken(tail), criteria.cap);
      RecordedCons(criteria, g, m, tail);
      assert [] + criteria.Kept(tail) == criteria.Kept(tail);
    } else {
      MergeConsLeft(criteria.Keep(g), criteria.Kept(tail), criteria.Taken(tail), criteria.cap);
      RecordedCons(criteria, g, m, tail);
      assert [] + criteria.Taken(tail) == criteria.Taken(tail);
    }
  }
}
