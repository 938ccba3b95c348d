/** The order in which the free list gives blocks back: each group is a stack. */
module PushOrder {
  import opened Common
  import opened FreeList

  /** The blocks of a group in the order in which they were pushed: the last one is
      popped first. */
  function Stack(batches: seq<Batch>): seq<nat> {
    if batches == [] then [] else Stack(batches[1..]) + batches[0].blocks
  }

  /** The stack of the group with base `base`, empty if there is no such group. */
  function GroupStack(gs: seq<Group>, base: nat): seq<nat> {
    if gs == [] then [] else if gs[0].base == base then Stack(gs[0].batches) else GroupStack(gs[1..], base)
  }

  /** What the group with base `base` remembers; a group that is missing remembers nothing. */
  function Checkpoint(gs: seq<Group>, base: nat): nat {
    if gs == [] then 0 else if gs[0].base == base then gs[0].checkpoint else Checkpoint(gs[1..], base)
  }

  /** Those of `blocks` that belong to the group, in their order. */
  function OfGroup(blocks: seq<nat>, base: nat, groupScale: nat): seq<nat> {
    if blocks == [] then []
    else (if GroupOf(blocks[0], groupScale) == base then [blocks[0]] else []) + OfGroup(blocks[1..], base, groupScale)
  }

  /** From `x` to `y` every group got its share of `blocks` on top of its stack, and
      remembers what it did. */
  ghost predicate Pushed(x: seq<Group>, y: seq<Group>, blocks: seq<nat>, groupScale: nat) {
    forall base: nat ::
      GroupStack(y, base) == GroupStack(x, base) + OfGroup(blocks, base, groupScale) && Checkpoint(y, base) == Checkpoint(x, base)
  }

  // ---- Batches ----------------------------------------------------------

  lemma StackCons(b: Batch, batches: seq<Batch>)
    ensures Stack([b] + batches) == Stack(batches) + b.blocks
  {
    assert ([b] + batches)[1..] == batches;
  }

  lemma StackOpen(batches: seq<Batch>, addr: nat)
    ensures Stack([Batch(addr, [])] + batches) == Stack(batches)
  {
    assert ([Batch(addr, [])] + batches)[1..] == batches;
  }

  lemma {:induction false} StackAppend(batches: seq<Batch>, blocks: seq<nat>)
    requires batches != []
    ensures Stack(Append(batches, blocks)) == Stack(batches) + blocks
  {
    assert Append(batches, blocks)[1..] == batches[1..];
    assert Stack(batches[1..]) + (batches[0].blocks + blocks) == Stack(batches[1..]) + batches[0].blocks + blocks;
  }

  lemma {:induction false} StackContents(batches: seq<Batch>)
    ensures multiset(Stack(batches)) == multiset(BatchesBlocks(batches))
  {
    if batches != [] {
      StackContents(batches[1..]);
    }
  }

  lemma {:induction false} StackConcat(x: seq<Batch>, y: seq<Batch>)
    ensures Stack(x + y) == Stack(y) + Stack(x)
  {
    if x == [] {
      assert x + y == y;
    } else {
      assert (x + y)[1..] == x[1..] + y;
      StackConcat(x[1..], y);
      assert Stack(y) + Stack(x[1..]) + x[0].blocks == Stack(y) + (Stack(x[1..]) + x[0].blocks);
    }
  }

  // ---- Blocks of one group ----------------------------------------------

  lemma {:induction false} OfGroupConcat(x: seq<nat>, y: seq<nat>, base: nat, groupScale: nat)
    ensures OfGroup(x + y, base, groupScale) == OfGroup(x, base, groupScale) + OfGroup(y, base, groupScale)
  {
    hide GroupOf;
    if x == [] {
      assert x + y == y;
    } else {
      assert (x + y)[1..] == x[1..] + y && (x + y)[0] == x[0];
      OfGroupConcat(x[1..], y, base, groupScale);
      Regroup(if GroupOf(x[0], groupScale) == base then [x[0]] else [],
              OfGroup(x[1..], base, groupScale), OfGroup(y, base, groupScale));
    }
  }

  lemma Regroup(x: seq<nat>, y: seq<nat>, z: seq<nat>)
    ensures x + (y + z) == x + y + z
  {
  }

  lemma {:induction false} OfGroupAll(blocks: seq<nat>, base: nat, groupScale: nat)
    requires AllInGroup(blocks, base, groupScale)
    ensures OfGroup(blocks, base, groupScale) == blocks
  {
    hide GroupOf;
    if blocks != [] {
      OfGroupAll(blocks[1..], base, groupScale);
    }
  }

  lemma {:induction false} OfGroupNone(blocks: seq<nat>, base: nat, groupScale: nat)
    requires forall i :: 0 <= i < |blocks| ==> GroupOf(blocks[i], groupScale) != base
    ensures OfGroup(blocks, base, groupScale) == []
  {
    hide GroupOf;
    if blocks != [] {
      OfGroupNone(blocks[1..], base, groupScale);
    }
  }

  // ---- Groups -----------------------------------------------------------

  lemma {:induction false} GroupAt(gs: seq<Group>, i: nat)
    requires Sorted(gs) && i < |gs|
    ensures GroupStack(gs, gs[i].base) == Stack(gs[i].batches) && Checkpoint(gs, gs[i].base) == gs[i].checkpoint
  {
    if i > 0 {
      GroupAt(gs[1..], i - 1);
    }
  }

  lemma {:induction false} NoGroup(gs: seq<Group>, base: nat)
    requires forall i :: 0 <= i < |gs| ==> gs[i].base != base
    ensures GroupStack(gs, base) == [] && Checkpoint(gs, base) == 0
  {
    if gs != [] {
      NoGroup(gs[1..], base);
    }
  }

  lemma {:induction false} OtherGroup(gs: seq<Group>, i: nat, g: Group, base: nat)
    requires i < |gs| && g.base == gs[i].base != base
    ensures GroupStack(gs[i := g], base) == GroupStack(gs, base) && Checkpoint(gs[i := g], base) == Checkpoint(gs, base)
  {
    if i == 0 {
      assert gs[i := g][1..] == gs[1..];
    } else {
      assert gs[i := g][1..] == gs[1..][i - 1 := g];
      OtherGroup(gs[1..], i - 1, g, base);
    }
  }

  lemma {:induction false} InsertedGroup(gs: seq<Group>, i: nat, g: Group, base: nat)
    requires i <= |gs| && forall k :: 0 <= k < |gs| ==> gs[k].base != g.base
    ensures var gs' := gs[..i] + [g] + gs[i..];
      && GroupStack(gs', base) == (if base == g.base then Stack(g.batches) else GroupStack(gs, base))
      && Checkpoint(gs', base) == (if base == g.base then g.checkpoint else Checkpoint(gs, base))
  {
    hide Stack;
    var gs' := gs[..i] + [g] + gs[i..];
    if i == 0 {
      assert gs' == [g] + gs && gs'[1..] == gs;
    } else {
      InsertedGroup(gs[1..], i - 1, g, base);
      assert gs'[1..] == gs[1..][..i - 1] + [g] + gs[1..][i - 1..];
    }
  }

  // ---- Pushing ----------------------------------------------------------

  lemma {:induction false} PushedNothing(gs: seq<Group>, groupScale: nat)
    ensures Pushed(gs, gs, [], groupScale)
  {
    hide GroupStack, Checkpoint;
  }

  lemma {:induction false} PushedTrans(x: seq<Group>, y: seq<Group>, z: seq<Group>, a: seq<nat>, b: seq<nat>, groupScale: nat)
    requires Pushed(x, y, a, groupScale) && Pushed(y, z, b, groupScale)
    ensures Pushed(x, z, a + b, groupScale)
  {
    hide GroupStack, Checkpoint, OfGroup;
    forall base: nat
      ensures GroupStack(z, base) == GroupStack(x, base) + OfGroup(a + b, base, groupScale) && Checkpoint(z, base) == Checkpoint(x, base)
    {
      OfGroupConcat(a, b, base, groupScale);
    }
  }

  lemma {:induction false} PushedRun(gs: seq<Group>, cur: nat, batches: seq<Batch>, run: seq<nat>, groupScale: nat)
    requires Sorted(gs) && cur < |gs| && AllInGroup(run, gs[cur].base, groupScale)
    requires Stack(batches) == Stack(gs[cur].batches) + run
    ensures Pushed(gs, gs[cur := gs[cur].(batches := batches)], run, groupScale)
  {
    hide GroupStack, Checkpoint, OfGroup, Stack, GroupOf;
    var g := gs[cur].(batches := batches);
    var gs' := gs[cur := g];
    forall base: nat
      ensures GroupStack(gs', base) == GroupStack(gs, base) + OfGroup(run, base, groupScale) && Checkpoint(gs', base) == Checkpoint(gs, base)
    {
      if base == g.base {
        GroupAt(gs, cur);
        GroupAt(gs', cur);
        OfGroupAll(run, base, groupScale);
      } else {
        OtherGroup(gs, cur, g, base);
        OfGroupNone(run, base, groupScale);
      }
    }
  }

  lemma {:induction false} PushedNew(gs: seq<Group>, cur: nat, g: Group, groupScale: nat)
    requires Sorted(gs) && cur <= |gs| && g.checkpoint == 0 && Stack(g.batches) == []
    requires forall i :: 0 <= i < cur ==> gs[i].base < g.base
    requires cur < |gs| ==> g.base < gs[cur].base
    ensures Pushed(gs, gs[..cur] + [g] + gs[cur..], [], groupScale)
  {
    hide GroupStack, Checkpoint, Stack;
    var gs' := gs[..cur] + [g] + gs[cur..];
    forall base: nat
      ensures GroupStack(gs', base) == GroupStack(gs, base) + [] && Checkpoint(gs', base) == Checkpoint(gs, base)
    {
      InsertedGroup(gs, cur, g, base);
      NoGroup(gs, g.base);
    }
  }

  // ---- Popping ----------------------------------------------------------

  /** Popping takes from the top of the first stack only; a group that becomes empty
      is forgotten. */
  lemma {:induction false} PoppedFromTop(gs: seq<Group>, maxCount: nat, popped: seq<nat>, after: seq<Group>, base: nat)
    requires Sorted(gs) && FrontPopped(gs, maxCount, popped, after)
    ensures GroupStack(gs, base) == GroupStack(after, base) + if base == gs[0].base then popped else []
    ensures Checkpoint(after, base)
         == if base == gs[0].base && (after == [] || after[0].base != base) then 0 else Checkpoint(gs, base)
  {
    var g := gs[0];
    var front := g.batches[0].blocks;
    var rest := front[..|front| - |popped|];
    assert front == rest + popped;
    if base == g.base {
      NoGroup(gs[1..], base);
      assert Stack(g.batches) == Stack(g.batches[1..]) + rest + popped;
    }
    AfterPopStack(gs, rest, base);
  }

  lemma {:induction false} AfterPopStack(gs: seq<Group>, rest: seq<nat>, base: nat)
    requires Sorted(gs) && gs != [] && gs[0].batches != []
    ensures var after := AfterPop(gs, rest);
      && GroupStack(after, base) == (if base == gs[0].base then Stack(gs[0].batches[1..]) + rest else GroupStack(gs[1..], base))
      && Checkpoint(after, base)
         == if base == gs[0].base then if after == [] || after[0].base != base then 0 else gs[0].checkpoint else Checkpoint(gs[1..], base)
  {
    var after, batches := AfterPop(gs, rest), gs[0].batches[1..];
    if base == gs[0].base {
      NoGroup(gs[1..], base);
    }
    if rest != [] {
      var g := gs[0].(batches := [gs[0].batches[0].(blocks := rest)] + batches);
      assert after == [g] + gs[1..] && after[1..] == gs[1..] && g.batches[1..] == batches;
    } else if batches != [] {
      assert after[1..] == gs[1..];
    }
  }

  /** Last in, first out: of its group, what is popped next is what was pushed last. */
  lemma {:induction false} LastInFirstOut(x: seq<Group>, y: seq<Group>, blocks: seq<nat>, groupScale: nat,
                                          maxCount: nat, popped: seq<nat>, after: seq<Group>)
    requires Sorted(y) && Pushed(x, y, blocks, groupScale) && FrontPopped(y, maxCount, popped, after)
    ensures var stack := GroupStack(x, y[0].base) + OfGroup(blocks, y[0].base, groupScale);
      |popped| <= |stack| && popped == stack[|stack| - |popped|..]
  {
    hide GroupStack, OfGroup, Checkpoint;
    PoppedFromTop(y, maxCount, popped, after, y[0].base);
  }
}
