/** The grouped free list of primary64.h as a value: groups sorted by base, each a
    stack of batches of which only the front one may be partly filled. */
module FreeList {
  import opened Common
  import opened Bits

  /** A batch of free blocks. `addr` is the block of the batch class it lives in. */
  datatype Batch = Batch(addr: nat, blocks: seq<nat>)

  /** A group of batches; `addr` is the block of the batch class it lives in. */
  datatype Group = Group(addr: nat, base: nat, batches: seq<Batch>, checkpoint: nat)

  /** compactPtrGroup: the base of the group a compact pointer belongs to. */
  function GroupOf(c: nat, groupScale: nat): nat {
    Shl(Shr(c, groupScale), groupScale)
  }

  // ---- Contents ---------------------------------------------------------

  function BatchesBlocks(batches: seq<Batch>): seq<nat> {
    if batches == [] then [] else batches[0].blocks + BatchesBlocks(batches[1..])
  }

  function BatchesMeta(batches: seq<Batch>): seq<nat> {
    if batches == [] then [] else [batches[0].addr] + BatchesMeta(batches[1..])
  }

  function GroupMeta(g: Group): seq<nat> {
    [g.addr] + BatchesMeta(g.batches)
  }

  /** All free blocks recorded in a list of groups. */
  function ListBlocks(gs: seq<Group>): seq<nat> {
    if gs == [] then [] else BatchesBlocks(gs[0].batches) + ListBlocks(gs[1..])
  }

  /** The blocks of the batch class that hold the groups and batches themselves. */
  function ListMeta(gs: seq<Group>): seq<nat> {
    if gs == [] then [] else GroupMeta(gs[0]) + ListMeta(gs[1..])
  }

  lemma {:induction false} BatchesConcat(x: seq<Batch>, y: seq<Batch>)
    ensures BatchesBlocks(x + y) == BatchesBlocks(x) + BatchesBlocks(y)
    ensures BatchesMeta(x + y) == BatchesMeta(x) + BatchesMeta(y)
  {
    hide BatchesBlocks, BatchesMeta;
    if x == [] {
      assert x + y == y;
      NoBatches();
    } else {
      BatchesConcat(x[1..], y);
      BatchesStep(x, y);
      Assoc(x[0].blocks, BatchesBlocks(x[1..]), BatchesBlocks(y));
      Assoc([x[0].addr], BatchesMeta(x[1..]), BatchesMeta(y));
    }
  }

  lemma NoBatches()
    ensures BatchesBlocks([]) == [] && BatchesMeta([]) == []
  {
  }

  lemma BatchesStep(x: seq<Batch>, y: seq<Batch>)
    requires x != []
    ensures BatchesBlocks(x) == x[0].blocks + BatchesBlocks(x[1..]) && BatchesMeta(x) == [x[0].addr] + BatchesMeta(x[1..])
    ensures BatchesBlocks(x + y) == x[0].blocks + BatchesBlocks(x[1..] + y)
    ensures BatchesMeta(x + y) == [x[0].addr] + BatchesMeta(x[1..] + y)
  {
    assert (x + y)[1..] == x[1..] + y;
  }

  lemma {:induction false} ListConcat(x: seq<Group>, y: seq<Group>)
    ensures ListBlocks(x + y) == ListBlocks(x) + ListBlocks(y)
    ensures ListMeta(x + y) == ListMeta(x) + ListMeta(y)
  {
    hide ListBlocks, ListMeta, BatchesBlocks, GroupMeta;
    if x == [] {
      assert x + y == y;
      EmptyList();
    } else {
      ListConcat(x[1..], y);
      ListStep(x, y);
      Assoc(BatchesBlocks(x[0].batches), ListBlocks(x[1..]), ListBlocks(y));
      Assoc(GroupMeta(x[0]), ListMeta(x[1..]), ListMeta(y));
    }
  }

  lemma EmptyList()
    ensures ListBlocks([]) == [] && ListMeta([]) == []
  {
  }

  lemma ListStep(x: seq<Group>, y: seq<Group>)
    requires x != []
    ensures ListBlocks(x) == BatchesBlocks(x[0].batches) + ListBlocks(x[1..]) && ListMeta(x) == GroupMeta(x[0]) + ListMeta(x[1..])
    ensures ListBlocks(x + y) == BatchesBlocks(x[0].batches) + ListBlocks(x[1..] + y)
    ensures ListMeta(x + y) == GroupMeta(x[0]) + ListMeta(x[1..] + y)
  {
    assert (x + y)[1..] == x[1..] + y;
  }

  lemma Assoc(a: seq<nat>, b: seq<nat>, c: seq<nat>)
    ensures a + (b + c) == a + b + c
  {
  }

  lemma ListSingle(g: Group)
    ensures ListBlocks([g]) == BatchesBlocks(g.batches)
    ensures ListMeta([g]) == GroupMeta(g)
  {
    assert [g][1..] == [];
  }

  lemma BatchesSingle(b: Batch)
    ensures BatchesBlocks([b]) == b.blocks
    ensures BatchesMeta([b]) == [b.addr]
  {
    assert [b][1..] == [];
  }

  // ---- Counting occurrences ---------------------------------------------

  function Occurs(s: seq<nat>, c: nat): nat {
    multiset(s)[c]
  }

  lemma OccursConcat(x: seq<nat>, y: seq<nat>, c: nat)
    ensures Occurs(x + y, c) == Occurs(x, c) + Occurs(y, c)
  {
  }

  lemma OccursNone(c: nat)
    ensures Occurs([], c) == 0
  {
  }

  lemma OccursInSum(a: seq<nat>, b: seq<nat>, x: seq<nat>, y: seq<nat>, c: nat)
    requires multiset(a) + multiset(b) == multiset(x) + multiset(y)
    ensures Occurs(a, c) + Occurs(b, c) == Occurs(x, c) + Occurs(y, c)
  {
    assert (multiset(a) + multiset(b))[c] == (multiset(x) + multiset(y))[c];
  }

  lemma SameOccurrences(x: seq<nat>, y: seq<nat>, z: seq<nat>)
    requires forall c :: Occurs(x, c) == Occurs(y, c) + Occurs(z, c)
    ensures multiset(x) == multiset(y) + multiset(z)
  {
    forall c ensures multiset(x)[c] == (multiset(y) + multiset(z))[c] {
      assert Occurs(x, c) == Occurs(y, c) + Occurs(z, c);
    }
  }

  // ---- Well-formed lists ------------------------------------------------

  /** Only the front batch may be less than full, and no batch is empty. */
  ghost predicate BatchesOk(batches: seq<Batch>, cap: nat) {
    && batches != []
    && 0 < |batches[0].blocks| <= cap
    && AllFull(batches[1..], cap)
  }

  ghost predicate AllFull(batches: seq<Batch>, cap: nat) {
    forall i :: 0 <= i < |batches| ==> |batches[i].blocks| == cap
  }

  ghost predicate AllInGroup(blocks: seq<nat>, base: nat, groupScale: nat) {
    forall i :: 0 <= i < |blocks| ==> GroupOf(blocks[i], groupScale) == base
  }

  ghost predicate GroupOk(g: Group, cap: nat, groupScale: nat) {
    BatchesOk(g.batches, cap) && AllInGroup(BatchesBlocks(g.batches), g.base, groupScale)
  }

  ghost predicate Sorted(gs: seq<Group>) {
    forall i, j :: 0 <= i < j < |gs| ==> gs[i].base < gs[j].base
  }

  ghost predicate ListOk(gs: seq<Group>, cap: nat, groupScale: nat) {
    Sorted(gs) && forall i :: 0 <= i < |gs| ==> GroupOk(gs[i], cap, groupScale)
  }

  /** The block count of a group as the code computes it, without visiting it. */
  function NumBlocks(g: Group, cap: nat): int
    requires g.batches != []
  {
    (|g.batches| - 1) * cap + |g.batches[0].blocks|
  }

  /** Because only the front batch is partial, the short cut counts every block. */
  lemma {:induction false} NumBlocksExact(g: Group, cap: nat)
    requires BatchesOk(g.batches, cap)
    ensures NumBlocks(g, cap) == |BatchesBlocks(g.batches)|
  {
    FullCount(g.batches[1..], cap);
  }

  lemma {:induction false} FullCount(batches: seq<Batch>, cap: nat)
    requires AllFull(batches, cap)
    ensures |BatchesBlocks(batches)| == |batches| * cap
  {
    if batches != [] {
      FullCount(batches[1..], cap);
    }
  }

  /** Every block sits in the group of its own base: the groups hold disjoint
      sets of compact pointers. */
  lemma {:induction false} BlockGroup(gs: seq<Group>, cap: nat, groupScale: nat, c: nat)
    requires ListOk(gs, cap, groupScale) && c in ListBlocks(gs)
    ensures exists i :: 0 <= i < |gs| && c in BatchesBlocks(gs[i].batches) && gs[i].base == GroupOf(c, groupScale)
  {
    if c in BatchesBlocks(gs[0].batches) {
      assert GroupOk(gs[0], cap, groupScale);
    } else {
      BlockGroup(gs[1..], cap, groupScale, c);
      var i :| 0 <= i < |gs[1..]| && c in BatchesBlocks(gs[1..][i].batches) && gs[1..][i].base == GroupOf(c, groupScale);
      assert gs[1..][i] == gs[i + 1];
    }
  }

  // ---- Replacing and inserting groups -----------------------------------

  /** The list with group `i` replaced by `g`. */
  lemma {:induction false} ReplaceGroup(gs: seq<Group>, i: nat, g: Group)
    requires i < |gs|
    ensures multiset(ListBlocks(gs[i := g])) + multiset(BatchesBlocks(gs[i].batches))
         == multiset(ListBlocks(gs)) + multiset(BatchesBlocks(g.batches))
    ensures multiset(ListMeta(gs[i := g])) + multiset(GroupMeta(gs[i]))
         == multiset(ListMeta(gs)) + multiset(GroupMeta(g))
  {
    hide ListBlocks, ListMeta, BatchesBlocks, GroupMeta;
    ListAround(gs, i);
    ListAround(gs[i := g], i);
    assert gs[i := g][..i] == gs[..i] && gs[i := g][i + 1..] == gs[i + 1..];
  }

  lemma {:induction false} ListAround(gs: seq<Group>, i: nat)
    requires i < |gs|
    ensures ListBlocks(gs) == ListBlocks(gs[..i]) + BatchesBlocks(gs[i].batches) + ListBlocks(gs[i + 1..])
    ensures ListMeta(gs) == ListMeta(gs[..i]) + GroupMeta(gs[i]) + ListMeta(gs[i + 1..])
  {
    assert gs == gs[..i] + ([gs[i]] + gs[i + 1..]);
    ListConcat(gs[..i], [gs[i]] + gs[i + 1..]);
    ListConcat([gs[i]], gs[i + 1..]);
    ListSingle(gs[i]);
  }

  /** Inserting a group before position `i`. */
  lemma {:induction false} InsertGroup(gs: seq<Group>, i: nat, g: Group)
    requires i <= |gs|
    ensures multiset(ListBlocks(gs[..i] + [g] + gs[i..])) == multiset(ListBlocks(gs)) + multiset(BatchesBlocks(g.batches))
    ensures multiset(ListMeta(gs[..i] + [g] + gs[i..])) == multiset(ListMeta(gs)) + multiset(GroupMeta(g))
  {
    hide ListBlocks, ListMeta, BatchesBlocks, GroupMeta;
    var x, y := gs[..i], gs[i..];
    assert gs == x + y;
    ListConcat(x, y);
    ListConcat(x + [g], y);
    ListConcat(x, [g]);
    ListSingle(g);
  }

  /** All groups are in order, except that group `cur` may have an empty front batch. */
  ghost predicate ListOkBut(gs: seq<Group>, cap: nat, groupScale: nat, cur: nat) {
    && cur < |gs| && Sorted(gs)
    && (forall i :: 0 <= i < |gs| && i != cur ==> GroupOk(gs[i], cap, groupScale))
    && Fillable(gs[cur].batches, cap)
    && AllInGroup(BatchesBlocks(gs[cur].batches), gs[cur].base, groupScale)
  }

  /** The batches of a group under construction: as in the free list, but the
      front batch may still be empty. */
  ghost predicate Fillable(batches: seq<Batch>, cap: nat) {
    batches != [] && |batches[0].blocks| <= cap && AllFull(batches[1..], cap)
  }

  lemma {:induction false} SameBlocksInGroup(x: seq<nat>, y: seq<nat>, z: seq<nat>, base: nat, groupScale: nat)
    requires multiset(z) == multiset(x) + multiset(y)
    requires AllInGroup(x, base, groupScale) && AllInGroup(y, base, groupScale)
    ensures AllInGroup(z, base, groupScale)
  {
    hide GroupOf;
    forall i | 0 <= i < |z| ensures GroupOf(z[i], groupScale) == base {
      assert z[i] in multiset(z);
      assert z[i] in x || z[i] in y;
    }
  }

  /** Filling the group at `cur` makes the whole list well formed. */
  lemma {:induction false} FillGroup(gs: seq<Group>, cap: nat, groupScale: nat, cur: nat, batches: seq<Batch>, blocks: seq<nat>)
    requires ListOkBut(gs, cap, groupScale, cur) && BatchesOk(batches, cap)
    requires AllInGroup(blocks, gs[cur].base, groupScale)
    requires multiset(BatchesBlocks(batches)) == multiset(BatchesBlocks(gs[cur].batches)) + multiset(blocks)
    ensures ListOk(gs[cur := gs[cur].(batches := batches)], cap, groupScale)
    ensures multiset(ListBlocks(gs[cur := gs[cur].(batches := batches)])) == multiset(ListBlocks(gs)) + multiset(blocks)
  {
    hide ListBlocks, ListMeta, BatchesBlocks, GroupMeta, GroupOf, AllFull, AllInGroup;
    var g := gs[cur].(batches := batches);
    SameBlocksInGroup(BatchesBlocks(gs[cur].batches), blocks, BatchesBlocks(batches), gs[cur].base, groupScale);
    ReplaceGroup(gs, cur, g);
    Rearrange(multiset(ListBlocks(gs[cur := g])), multiset(ListBlocks(gs)), multiset(BatchesBlocks(gs[cur].batches)), multiset(blocks));
  }

  lemma {:induction false} Rearrange(x: multiset<nat>, y: multiset<nat>, a: multiset<nat>, b: multiset<nat>)
    requires x + a == y + (a + b)
    ensures x == y + b
  {
    forall c ensures x[c] == (y + b)[c] {
      assert (x + a)[c] == (y + (a + b))[c];
    }
  }

  /** A new, still empty group inserted where the order asks for it. */
  lemma {:induction false} NewGroup(gs: seq<Group>, cap: nat, groupScale: nat, cur: nat, g: Group, addr: nat)
    requires ListOk(gs, cap, groupScale) && cur <= |gs| && g.batches == [Batch(addr, [])]
    requires forall i :: 0 <= i < cur ==> gs[i].base < g.base
    requires cur < |gs| ==> g.base < gs[cur].base
    ensures ListOkBut(gs[..cur] + [g] + gs[cur..], cap, groupScale, cur)
  {
    hide GroupOk, GroupOf;
    InsertKeepsOrder(gs, cap, groupScale, cur, g);
    BatchesSingle(g.batches[0]);
    assert (gs[..cur] + [g] + gs[cur..])[cur] == g;
  }

  lemma {:induction false} NewGroupContents(gs: seq<Group>, cur: nat, g: Group, addr: nat)
    requires cur <= |gs| && g.batches == [Batch(addr, [])]
    ensures multiset(ListBlocks(gs[..cur] + [g] + gs[cur..])) == multiset(ListBlocks(gs))
    ensures multiset(ListMeta(gs[..cur] + [g] + gs[cur..])) == multiset(ListMeta(gs)) + multiset([g.addr, addr])
  {
    BatchesSingle(g.batches[0]);
    assert GroupMeta(g) == [g.addr, addr];
    hide *;
    InsertGroup(gs, cur, g);
  }

  lemma {:induction false} InsertKeepsOrder(gs: seq<Group>, cap: nat, groupScale: nat, cur: nat, g: Group)
    requires ListOk(gs, cap, groupScale) && cur <= |gs|
    requires forall i :: 0 <= i < cur ==> gs[i].base < g.base
    requires cur < |gs| ==> g.base < gs[cur].base
    ensures Sorted(gs[..cur] + [g] + gs[cur..])
    ensures forall i :: 0 <= i <= |gs| && i != cur ==> GroupOk((gs[..cur] + [g] + gs[cur..])[i], cap, groupScale)
  {
    hide GroupOk;
    var gs' := gs[..cur] + [g] + gs[cur..];
    assert forall i :: 0 <= i < cur ==> gs'[i] == gs[i];
    assert forall i :: cur < i <= |gs| ==> gs'[i] == gs[i - 1];
  }

  lemma {:induction false} OkIsOkBut(gs: seq<Group>, cap: nat, groupScale: nat, cur: nat)
    requires ListOk(gs, cap, groupScale) && cur < |gs|
    ensures ListOkBut(gs, cap, groupScale, cur)
  {
    assert GroupOk(gs[cur], cap, groupScale);
  }

  // ---- Popping ----------------------------------------------------------

  /** The list once only `rest` is left in the front batch: empty batches and
      groups are dropped. */
  function AfterPop(gs: seq<Group>, rest: seq<nat>): seq<Group>
    requires gs != [] && gs[0].batches != []
  {
    var g, batches := gs[0], gs[0].batches[1..];
    if rest != [] then [g.(batches := [g.batches[0].(blocks := rest)] + batches)] + gs[1..]
    else if batches != [] then [g.(batches := batches)] + gs[1..]
    else gs[1..]
  }

  /** The metadata blocks that popping sets free. */
  function Recycled(gs: seq<Group>, rest: seq<nat>): seq<nat>
    requires gs != [] && gs[0].batches != []
  {
    if rest != [] then []
    else if gs[0].batches[1..] != [] then [gs[0].batches[0].addr]
    else [gs[0].batches[0].addr, gs[0].addr]
  }

  /** `popped` are the last blocks of the front batch: as many as asked for, or all of
      them. What is left of the list is `after`. */
  ghost predicate FrontPopped(gs: seq<Group>, maxCount: nat, popped: seq<nat>, after: seq<Group>) {
    && gs != [] && gs[0].batches != []
    && var front := gs[0].batches[0].blocks;
       && |popped| == Min(maxCount, |front|)
       && popped == front[|front| - |popped|..] && after == AfterPop(gs, front[..|front| - |popped|])
  }

  lemma {:induction false} FrontBatchOk(gs: seq<Group>, cap: nat, groupScale: nat)
    requires ListOk(gs, cap, groupScale) && gs != []
    ensures BatchesOk(gs[0].batches, cap)
    ensures AllInGroup(BatchesBlocks(gs[0].batches), gs[0].base, groupScale)
  {
    assert GroupOk(gs[0], cap, groupScale);
  }

  lemma {:induction false} SubBlocksInGroup(x: seq<nat>, y: seq<nat>, base: nat, groupScale: nat)
    requires AllInGroup(x + y, base, groupScale)
    ensures AllInGroup(x, base, groupScale) && AllInGroup(y, base, groupScale)
  {
    hide GroupOf;
    assert forall i :: 0 <= i < |x| ==> x[i] == (x + y)[i];
    assert forall i :: 0 <= i < |y| ==> y[i] == (x + y)[|x| + i];
  }

  lemma {:induction false} DropFirst(gs: seq<Group>, cap: nat, groupScale: nat)
    requires ListOk(gs, cap, groupScale) && gs != []
    ensures ListOk(gs[1..], cap, groupScale)
  {
    hide GroupOk;
    assert forall i :: 0 <= i < |gs| - 1 ==> gs[1..][i] == gs[i + 1];
  }

  lemma {:induction false} ReplaceFirst(gs: seq<Group>, cap: nat, groupScale: nat, g: Group)
    requires ListOk(gs, cap, groupScale) && gs != [] && g.base == gs[0].base && GroupOk(g, cap, groupScale)
    ensures ListOk([g] + gs[1..], cap, groupScale)
  {
    hide GroupOk;
    assert forall i :: 1 <= i < |gs| ==> ([g] + gs[1..])[i] == gs[i];
  }

  lemma {:induction false} PopKeepsOrder(gs: seq<Group>, cap: nat, groupScale: nat, rest: seq<nat>, popped: seq<nat>)
    requires ListOk(gs, cap, groupScale) && gs != [] && gs[0].batches != []
    requires gs[0].batches[0].blocks == rest + popped
    ensures ListOk(AfterPop(gs, rest), cap, groupScale)
    ensures AllInGroup(popped, gs[0].base, groupScale)
  {
    hide GroupOf, AllInGroup;
    FrontBatchOk(gs, cap, groupScale);
    var g, batches := gs[0], gs[0].batches[1..];
    SubBlocksInGroup(rest + popped, BatchesBlocks(batches), g.base, groupScale);
    SubBlocksInGroup(rest, popped, g.base, groupScale);
    DropFirst(gs, cap, groupScale);
    if rest != [] {
      var b := [g.batches[0].(blocks := rest)] + batches;
      assert b[1..] == batches;
      assert AllInGroup(rest + BatchesBlocks(batches), g.base, groupScale) by {
        SameBlocksInGroup(rest, BatchesBlocks(batches), rest + BatchesBlocks(batches), g.base, groupScale);
      }
      assert GroupOk(g.(batches := b), cap, groupScale);
      ReplaceFirst(gs, cap, groupScale, g.(batches := b));
    } else if batches != [] {
      assert GroupOk(g.(batches := batches), cap, groupScale);
      ReplaceFirst(gs, cap, groupScale, g.(batches := batches));
    }
  }

  lemma {:induction false} PopContents(gs: seq<Group>, rest: seq<nat>, popped: seq<nat>)
    requires gs != [] && gs[0].batches != [] && gs[0].batches[0].blocks == rest + popped
    ensures multiset(ListBlocks(gs)) == multiset(ListBlocks(AfterPop(gs, rest))) + multiset(popped)
  {
    var g, batches := gs[0], gs[0].batches[1..];
    var tail, after := gs[1..], AfterPop(gs, rest);
    MoveToEnd(rest, popped, BatchesBlocks(batches), ListBlocks(tail));
    if rest != [] {
      var b := [g.batches[0].(blocks := rest)] + batches;
      assert b[1..] == batches;
      PopRest(g.(batches := b), tail);
    } else if batches != [] {
      PopRest(g.(batches := batches), tail);
    }
    assert ListBlocks(after) == rest + BatchesBlocks(batches) + ListBlocks(tail);
    assert ListBlocks(gs) == rest + popped + BatchesBlocks(batches) + ListBlocks(tail);
  }

  lemma {:induction false} PopMeta(gs: seq<Group>, rest: seq<nat>)
    requires gs != [] && gs[0].batches != []
    ensures multiset(ListMeta(gs)) == multiset(ListMeta(AfterPop(gs, rest))) + multiset(Recycled(gs, rest))
  {
    hide ListMeta, ListBlocks, BatchesMeta, BatchesBlocks;
    var g, batches := gs[0], gs[0].batches[1..];
    var tail := gs[1..];
    assert gs == [g] + tail;
    PopRest(g, tail);
    MetaOfFront(g.batches);
    if rest != [] {
      var b := [g.batches[0].(blocks := rest)] + batches;
      assert b[1..] == batches;
      MetaOfFront(b);
      PopRest(g.(batches := b), tail);
    } else if batches != [] {
      PopRest(g.(batches := batches), tail);
      SwapFront(g.addr, g.batches[0].addr, BatchesMeta(batches), ListMeta(tail));
    } else {
      SwapFront(g.addr, g.batches[0].addr, BatchesMeta(batches), ListMeta(tail));
      NoBatches();
    }
  }

  lemma MetaOfFront(batches: seq<Batch>)
    requires batches != []
    ensures BatchesMeta(batches) == [batches[0].addr] + BatchesMeta(batches[1..])
  {
  }

  lemma SwapFront(group: nat, batch: nat, x: seq<nat>, y: seq<nat>)
    ensures multiset([group] + ([batch] + x) + y) == multiset([group] + x + y) + multiset([batch])
    ensures x == [] ==> multiset([group] + ([batch] + x) + y) == multiset(y) + multiset([batch, group])
  {
  }

  lemma MoveToEnd(a: seq<nat>, b: seq<nat>, c: seq<nat>, d: seq<nat>)
    ensures multiset(a + b + c + d) == multiset(a + c + d) + multiset(b)
  {
  }

  lemma PopRest(g: Group, tail: seq<Group>)
    ensures ListBlocks([g] + tail) == BatchesBlocks(g.batches) + ListBlocks(tail)
    ensures ListMeta([g] + tail) == GroupMeta(g) + ListMeta(tail)
  {
    assert ([g] + tail)[1..] == tail;
  }

  // ---- Pushing ----------------------------------------------------------

  function Append(batches: seq<Batch>, blocks: seq<nat>): seq<Batch>
    requires batches != []
  {
    [Batch(batches[0].addr, batches[0].blocks + blocks)] + batches[1..]
  }

  lemma {:induction false} AppendBlocks(batches: seq<Batch>, blocks: seq<nat>, cap: nat)
    requires Fillable(batches, cap) && |batches[0].blocks| + |blocks| <= cap
    ensures Fillable(Append(batches, blocks), cap) && Append(batches, blocks)[0].blocks == batches[0].blocks + blocks
    ensures BatchesMeta(Append(batches, blocks)) == BatchesMeta(batches)
    ensures multiset(BatchesBlocks(Append(batches, blocks))) == multiset(BatchesBlocks(batches)) + multiset(blocks)
  {
    var b := Append(batches, blocks);
    assert b[1..] == batches[1..];
    assert BatchesBlocks(b) == batches[0].blocks + blocks + BatchesBlocks(batches[1..]);
  }
}
