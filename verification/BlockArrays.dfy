/** Arrays of blocks on their way into the free list: the insertion sort of
    pushBlocks and the shuffle of freshly carved blocks, both in place. */
module BlockArrays {
  import opened FreeList
  import opened PushOrder
  import opened Shuffling

  ghost predicate SortedByGroup(input: seq<nat>, groupScale: nat) {
    forall i, j :: 0 <= i < j < |input| ==> GroupOf(input[i], groupScale) <= GroupOf(input[j], groupScale)
  }

  /** The blocks of each group are in the same order in both. */
  ghost predicate SameOrder(s: seq<nat>, t: seq<nat>, groupScale: nat) {
    forall base: nat :: OfGroup(s, base, groupScale) == OfGroup(t, base, groupScale)
  }

  /** `s` with the element at `i` taken out and put back at position `j`. */
  function MovedDown(s: seq<nat>, i: nat, j: nat): seq<nat>
    requires j <= i < |s|
  {
    s[..j] + [s[i]] + s[j..i] + s[i + 1..]
  }

  lemma {:induction false} MovedDownSame(s: seq<nat>, i: nat, j: nat)
    requires j <= i < |s|
    ensures multiset(MovedDown(s, i, j)) == multiset(s)
  {
    assert s == s[..j] + s[j..i] + [s[i]] + s[i + 1..];
    SameParts(s[..j], s[j..i], [s[i]], s[i + 1..]);
  }

  lemma SameParts(a: seq<nat>, b: seq<nat>, c: seq<nat>, d: seq<nat>)
    ensures multiset(a + b + c + d) == multiset(a + c + b + d)
  {
  }

  /** Where the sorted prefix `s[..i]` takes the element at `i`. */
  ghost predicate Slot(s: seq<nat>, i: nat, j: nat, groupScale: nat) {
    && j <= i < |s|
    && (forall k :: 0 <= k < j ==> GroupOf(s[k], groupScale) <= GroupOf(s[i], groupScale))
    && (forall k :: j <= k < i ==> GroupOf(s[i], groupScale) < GroupOf(s[k], groupScale))
  }

  lemma {:induction false} MovedDownSorted(s: seq<nat>, i: nat, j: nat, groupScale: nat)
    requires Slot(s, i, j, groupScale) && SortedByGroup(s[..i], groupScale)
    ensures SortedByGroup(MovedDown(s, i, j)[..i + 1], groupScale)
  {
    hide GroupOf;
    var t := MovedDown(s, i, j);
    assert forall k :: 0 <= k < j ==> t[k] == s[k] == s[..i][k];
    assert t[j] == s[i];
    assert forall k :: j < k <= i ==> t[k] == s[k - 1] == s[..i][k - 1];
  }

  /** An element that moves past elements of larger groups keeps its place in its own. */
  lemma {:induction false} MovedDownOrder(s: seq<nat>, i: nat, j: nat, groupScale: nat)
    requires Slot(s, i, j, groupScale)
    ensures SameOrder(MovedDown(s, i, j), s, groupScale)
  {
    hide GroupOf, OfGroup;
    forall base: nat ensures OfGroup(MovedDown(s, i, j), base, groupScale) == OfGroup(s, base, groupScale) {
      var a, b, x, c := s[..j], s[j..i], [s[i]], s[i + 1..];
      assert s == a + (b + (x + c)) && MovedDown(s, i, j) == a + (x + (b + c));
      FourParts(a, b, x, c, base, groupScale);
      FourParts(a, x, b, c, base, groupScale);
      if base == GroupOf(s[i], groupScale) {
        OfGroupNone(b, base, groupScale);
      } else {
        OfGroupNone(x, base, groupScale);
      }
    }
  }

  lemma FourParts(a: seq<nat>, b: seq<nat>, c: seq<nat>, d: seq<nat>, base: nat, groupScale: nat)
    ensures OfGroup(a + (b + (c + d)), base, groupScale)
         == OfGroup(a, base, groupScale) + (OfGroup(b, base, groupScale) + (OfGroup(c, base, groupScale) + OfGroup(d, base, groupScale)))
  {
    hide OfGroup;
    OfGroupConcat(a, b + (c + d), base, groupScale);
    OfGroupConcat(b, c + d, base, groupScale);
    OfGroupConcat(c, d, base, groupScale);
  }

  /** The inner loop of the sort: shifts larger groups up by one place. */
  method InsertInOrder(a: array<nat>, i: nat, groupScale: nat) returns (j: nat)
    requires 0 < i < a.Length && SortedByGroup(a[..i], groupScale)
    modifies a
    ensures j <= i && Slot(old(a[..]), i, j, groupScale) && a[..] == MovedDown(old(a[..]), i, j)
  {
    hide GroupOf;
    ghost var s := a[..];
    var cur := a[i];
    j := i;
    while j > 0 && GroupOf(cur, groupScale) < GroupOf(a[j - 1], groupScale)
      invariant 0 <= j <= i
      invariant forall k :: 0 <= k < j ==> a[k] == s[k]
      invariant forall k :: j < k <= i ==> a[k] == s[k - 1]
      invariant forall k :: i < k < a.Length ==> a[k] == s[k]
      invariant forall k :: j <= k < i ==> GroupOf(cur, groupScale) < GroupOf(s[k], groupScale)
    {
      a[j] := a[j - 1];
      j := j - 1;
    }
    a[j] := cur;
    assert forall k :: 0 <= k < i ==> s[k] == old(a[..i])[k];
    assert a[..] == MovedDown(s, i, j);
  }

  lemma {:induction false} GrowSame(s: seq<nat>, t: seq<nat>, i: nat, j: nat, groupScale: nat)
    requires Slot(s, i, j, groupScale) && t == MovedDown(s, i, j) && i > 0 && SortedByGroup(s[..i], groupScale)
    ensures AllInGroup(t[..i + 1], GroupOf(t[0], groupScale), groupScale)
       <==> AllInGroup(s[..i], GroupOf(s[0], groupScale), groupScale)
            && GroupOf(s[i - 1], groupScale) == GroupOf(s[i], groupScale)
  {
    hide GroupOf;
    assert forall k :: 0 <= k < j ==> t[k] == s[k] == s[..i][k];
    assert t[j] == s[i] && (j < i ==> t[i] == s[i - 1]);
    assert forall k :: j < k <= i ==> t[k] == s[k - 1] == s[..i][k - 1];
    assert forall k :: 0 <= k <= i ==> t[..i + 1][k] == t[k];
    if j == i {
      assert t[..i + 1] == s[..i] + [s[i]] && s[..i][i - 1] == s[i - 1];
    } else {
      assert t[..i + 1][j] == t[j] && t[..i + 1][i] == t[i];
    }
  }

  /** Sorts the array by group and says whether all its blocks share one group. The
      sort is stable. */
  method SortByGroup(a: array<nat>, groupScale: nat) returns (sameGroup: bool)
    requires a.Length > 0
    modifies a
    ensures SortedByGroup(a[..], groupScale) && multiset(a[..]) == multiset(old(a[..]))
    ensures SameOrder(a[..], old(a[..]), groupScale)
    ensures sameGroup <==> AllInGroup(a[..], GroupOf(a[0], groupScale), groupScale)
  {
    hide GroupOf, Slot, MovedDown, OfGroup;
    sameGroup := true;
    for i := 1 to a.Length
      invariant SortedByGroup(a[..i], groupScale) && multiset(a[..]) == multiset(old(a[..]))
      invariant SameOrder(a[..], old(a[..]), groupScale)
      invariant sameGroup <==> AllInGroup(a[..i], GroupOf(a[0], groupScale), groupScale)
    {
      if GroupOf(a[i - 1], groupScale) != GroupOf(a[i], groupScale) {
        sameGroup := false;
      }
      ghost var s := a[..];
      assert a[..i] == s[..i];
      var j := InsertInOrder(a, i, groupScale);
      MovedDownSame(s, i, j);
      MovedDownSorted(s, i, j, groupScale);
      MovedDownOrder(s, i, j, groupScale);
      GrowSame(s, a[..], i, j, groupScale);
      assert a[..i + 1] == a[..][..i + 1];
    }
    assert a[..a.Length] == a[..];
  }

  // ---- Shuffling runs ---------------------------------------------------

  /** `s[from..to]` are all the neighbouring blocks of one group. */
  ghost predicate IsRun(s: seq<nat>, from: nat, to: nat, groupScale: nat) {
    && from < to <= |s|
    && AllInGroup(s[from..to], GroupOf(s[from], groupScale), groupScale)
    && RunStarts(s, from, groupScale) && RunStarts(s, to, groupScale)
  }

  /** A run ends before `i` and the next one starts there. */
  ghost predicate RunStarts(s: seq<nat>, i: nat, groupScale: nat) {
    0 < i < |s| ==> GroupOf(s[i - 1], groupScale) != GroupOf(s[i], groupScale)
  }

  /** In `t` every run of `s` that ends by `upto` is shuffled with its own numbers. */
  ghost predicate RunsShuffled(s: seq<nat>, t: seq<nat>, random: (nat, nat) -> nat, groupScale: nat, upto: nat) {
    && |s| == |t|
    && forall from: nat, to: nat :: IsRun(s, from, to, groupScale) && to <= upto ==>
         t[from..to] == Shuffled(s[from..to], to - from, Drawn(random, to))
  }

  lemma NoRuns(s: seq<nat>, t: seq<nat>, random: (nat, nat) -> nat, groupScale: nat)
    requires |s| == |t|
    ensures RunsShuffled(s, t, random, groupScale, 0) && RunStarts(s, 0, groupScale)
  {
  }

  lemma OneRun(s: seq<nat>, from: nat, to: nat, groupScale: nat)
    requires from < to <= |s| && RunStarts(s, from, groupScale)
    requires AllInGroup(s[from..to], GroupOf(s[to - 1], groupScale), groupScale)
    requires to < |s| ==> GroupOf(s[to], groupScale) != GroupOf(s[to - 1], groupScale)
    ensures IsRun(s, from, to, groupScale) && RunStarts(s, to, groupScale)
  {
    hide GroupOf;
    assert s[from] == s[from..to][0];
  }

  /** Runs do not overlap. */
  lemma {:induction false} RunsApart(s: seq<nat>, from: nat, to: nat, f: nat, t: nat, groupScale: nat)
    requires IsRun(s, from, to, groupScale) && IsRun(s, f, t, groupScale) && t <= to
    ensures t <= from || (f == from && t == to)
  {
    hide GroupOf;
    assert forall i :: from <= i < to ==> s[i] == s[from..to][i - from];
    assert forall i :: f <= i < t ==> s[i] == s[f..t][i - f];
  }

  lemma {:induction false} OneMoreRun(s: seq<nat>, t: seq<nat>, t': seq<nat>, random: (nat, nat) -> nat, groupScale: nat,
                                      from: nat, to: nat)
    requires RunsShuffled(s, t, random, groupScale, from) && IsRun(s, from, to, groupScale)
    requires from < to <= |s| == |t| == |t'| && t'[..from] == t[..from] && t'[to..] == t[to..]
    requires t'[from..to] == Shuffled(s[from..to], to - from, Drawn(random, to))
    requires multiset(t'[from..to]) == multiset(t[from..to])
    ensures RunsShuffled(s, t', random, groupScale, to) && multiset(t') == multiset(t)
  {
    hide GroupOf, Shuffled, Drawn, AllInGroup;
    forall f: nat, g: nat | IsRun(s, f, g, groupScale) && g <= to
      ensures t'[f..g] == Shuffled(s[f..g], g - f, Drawn(random, g))
    {
      RunsApart(s, from, to, f, g, groupScale);
      if g <= from {
        assert t'[..from][f..g] == t[..from][f..g];
      }
    }
    assert t == t[..from] + t[from..to] + t[to..];
    assert t' == t'[..from] + t'[from..to] + t'[to..];
  }

  /** shuffle, on `n` elements from `from`: nothing else moves. */
  method Shuffle(a: array<nat>, from: nat, n: nat, random: nat -> nat)
    requires from + n <= a.Length
    modifies a
    ensures a[from..from + n] == Shuffled(old(a[from..from + n]), n, random)
    ensures multiset(a[from..from + n]) == multiset(old(a[from..from + n]))
    ensures a[..from] == old(a[..from]) && a[from + n..] == old(a[from + n..])
  {
    hide Shuffled, Swapped;
    ghost var s := a[from..from + n];
    ShuffledSame(s, n, random);
    if n <= 1 {
      ShortShuffle(s, n, random);
      return;
    }
    var i := n - 1;
    while i > 0
      invariant 0 <= i < n
      invariant Shuffled(a[from..from + n], i + 1, random) == Shuffled(s, n, random)
      invariant a[..from] == old(a[..from]) && a[from + n..] == old(a[from + n..])
    {
      NextSwap(a[from..from + n], i, random);
      Swap(a, from, n, i, random(i) % (i + 1));
      i := i - 1;
    }
    ShortShuffle(a[from..from + n], 1, random);
  }

  method Swap(a: array<nat>, from: nat, n: nat, i: nat, k: nat)
    requires k <= i < n && from + n <= a.Length
    modifies a
    ensures a[from..from + n] == Swapped(old(a[from..from + n]), i, k)
    ensures a[..from] == old(a[..from]) && a[from + n..] == old(a[from + n..])
  {
    ghost var all := a[..];
    SwapSlice(all, from, n, i, k);
    a[from + i], a[from + k] := a[from + k], a[from + i];
    assert a[..] == Swapped(all, from + i, from + k);
  }

  lemma NextSwap(s: seq<nat>, i: nat, random: nat -> nat)
    requires 0 < i < |s|
    ensures Shuffled(Swapped(s, i, random(i) % (i + 1)), i, random) == Shuffled(s, i + 1, random)
  {
  }

  lemma {:induction false} SwapSlice(s: seq<nat>, from: nat, n: nat, i: nat, k: nat)
    requires k <= i < n && from + n <= |s|
    ensures var t := Swapped(s, from + i, from + k);
      t[..from] == s[..from] && t[from + n..] == s[from + n..] && t[from..from + n] == Swapped(s[from..from + n], i, k)
  {
  }
}
