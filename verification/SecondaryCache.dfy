/** MapAllocatorCache of secondary.h, with memory tagging off: storing, evicting and
    releasing cached mappings. */
module SecondaryCache {
  import opened Common
  import opened CachedBlocks
  import opened SecondaryFit
  import opened Rounding

  // ---- The quarantine ring ----------------------------------------------

  /** How many stores ago, counted down, slot `s` was written: 0 is the slot that
      the next store overwrites. */
  function Age(s: nat, pos: nat, size: nat): int
    requires s < size && pos < size
  {
    if s > pos then s - pos - 1 else s + size - pos - 1
  }

  /** Blocks in the ring were stored in slot order, and after all in the list. */
  ghost predicate RingOk(ring: seq<Block>, pos: nat, e: seq<Block>, lru: seq<nat>)
    requires InRange(|e|, lru) && (ring == [] || pos < |ring|)
  {
    && (forall s, i :: 0 <= s < |ring| && 0 <= i < |lru| && IsValid(ring[s]) ==> Before(e[lru[i]], ring[s]))
    && (forall s, t :: 0 <= s < |ring| && 0 <= t < |ring| ==> InSlotOrder(ring, pos, s, t))
  }

  ghost predicate InSlotOrder(ring: seq<Block>, pos: nat, s: nat, t: nat)
    requires s < |ring| && t < |ring| && pos < |ring|
  {
    IsValid(ring[s]) && IsValid(ring[t]) && Age(s, pos, |ring|) < Age(t, pos, |ring|) ==> Before(ring[s], ring[t])
  }

  /** No block is newer than the clock. */
  ghost predicate NoneNewer(ring: seq<Block>, e: seq<Block>, lru: seq<nat>, now: nat)
    requires InRange(|e|, lru)
  {
    && (forall s :: 0 <= s < |ring| && IsValid(ring[s]) ==> ring[s].time <= now)
    && (forall i :: 0 <= i < |lru| ==> e[lru[i]].time <= now)
  }

  function NextPos(pos: nat, size: nat): (p: nat)
    requires size > 0
    ensures p < size
  {
    (pos + 1) % size
  }

  lemma {:induction false} AgesShift(pos: nat, size: nat, s: nat)
    requires pos < size && s < size
    ensures var p := NextPos(pos, size);
      && Age(p, pos, size) == 0 && Age(p, p, size) == size - 1
      && (s != p ==> Age(s, p, size) == Age(s, pos, size) - 1 >= 0)
  {
    if pos + 1 < size {
      ModUnique(pos + 1, size, 0, pos + 1);
    } else {
      ModUnique(pos + 1, size, 1, 0);
    }
  }

  /** A new block replaces the oldest in the ring, which is newer than the whole list
      and not newer than the rest of the ring. */
  lemma {:induction false} RingStep(ring: seq<Block>, pos: nat, e: seq<Block>, lru: seq<nat>, b: Block, now: nat)
    requires InRange(|e|, lru) && pos < |ring| && RingOk(ring, pos, e, lru) && NoneNewer(ring, e, lru, now)
    requires IsValid(b) && b.time >= now && b.time > 0
    ensures var p := NextPos(pos, |ring|);
      var ring' := ring[p := b];
      && RingOk(ring', p, e, lru) && NoneNewer(ring', e, lru, b.time)
      && (IsValid(ring[p]) ==>
           && (forall i :: 0 <= i < |lru| ==> Before(e[lru[i]], ring[p]))
           && (forall s :: 0 <= s < |ring'| && IsValid(ring'[s]) ==> Before(ring[p], ring'[s])))
  {
    var p := NextPos(pos, |ring|);
    var ring' := ring[p := b];
    AgesShift(pos, |ring|, p);
    forall s, t | 0 <= s < |ring| && 0 <= t < |ring|
      ensures InSlotOrder(ring', p, s, t)
    {
      assert s != p && t != p ==> InSlotOrder(ring, pos, s, t);
      AgesShift(pos, |ring|, s);
      AgesShift(pos, |ring|, t);
    }
    forall s | 0 <= s < |ring| && IsValid(ring'[s]) && IsValid(ring[p]) ensures Before(ring[p], ring'[s]) {
      AgesShift(pos, |ring|, s);
      assert s != p ==> InSlotOrder(ring, pos, p, s);
    }
  }

  /** The ring stays ordered with a block in front of the list that is not newer. */
  lemma {:induction false} RingAfterInsert(ring: seq<Block>, pos: nat, e: seq<Block>, lru: seq<nat>, avail: seq<nat>, b: Block, now: nat)
    requires Partition(|e|, lru, avail) && avail != [] && InRange(|e|, lru) && (ring == [] || pos < |ring|)
    requires RingOk(ring, pos, e, lru) && NoneNewer(ring, e, lru, now) && b.time <= now
    requires forall s :: 0 <= s < |ring| && IsValid(ring[s]) ==> Before(b, ring[s])
    ensures InRange(|e|, [avail[0]] + lru)
    ensures RingOk(ring, pos, e[avail[0] := b], [avail[0]] + lru)
    ensures NoneNewer(ring, e[avail[0] := b], [avail[0]] + lru, now)
  {
    var x, e', lru' := avail[0], e[avail[0] := b], [avail[0]] + lru;
    assert forall i :: 1 <= i <= |lru| ==> lru'[i] == lru[i - 1] && e'[lru'[i]] == e[lru[i - 1]];
  }

  lemma {:induction false} RingAfterRemove(ring: seq<Block>, pos: nat, e: seq<Block>, lru: seq<nat>, avail: seq<nat>, k: nat, b: Block, now: nat)
    requires Partition(|e|, lru, avail) && InRange(|e|, lru) && (ring == [] || pos < |ring|) && k < |lru|
    requires RingOk(ring, pos, e, lru) && NoneNewer(ring, e, lru, now)
    ensures InRange(|e|, Without(lru, k))
    ensures RingOk(ring, pos, e[lru[k] := b], Without(lru, k))
    ensures NoneNewer(ring, e[lru[k] := b], Without(lru, k), now)
  {
    var e', lru' := e[lru[k] := b], Without(lru, k);
    assert forall i :: 0 <= i < |lru'| ==> lru'[i] == lru[if i < k then i else i + 1] && e'[lru'[i]] == e[lru'[i]];
  }

  /** Releasing in the ring and in the list up to the same time keeps the order: if a
      block of the ring is released, so is the whole list. */
  lemma {:induction false} RingAfterScan(ring: seq<Block>, ring': seq<Block>, pos: nat, e: seq<Block>, e': seq<Block>,
                                         lru: seq<nat>, releaseTime: nat, now: nat)
    requires InRange(|e|, lru) && |e'| == |e| && |ring'| == |ring| && (ring == [] || pos < |ring|)
    requires RingOk(ring, pos, e, lru) && NoneNewer(ring, e, lru, now) && Ordered(e, lru)
    requires forall i :: 0 <= i < |lru| ==> e'[lru[i]] == Scanned(e[lru[i]], releaseTime)
    requires forall s :: 0 <= s < |ring| ==> ring'[s] == Scanned(ring[s], releaseTime)
    ensures RingOk(ring', pos, e', lru) && NoneNewer(ring', e', lru, now)
  {
    hide Age;
    forall s, t | 0 <= s < |ring| && 0 <= t < |ring|
      ensures InSlotOrder(ring', pos, s, t)
    {
      assert InSlotOrder(ring, pos, s, t);
    }
  }

  class MapAllocatorCache {
    const entries: array<Block>
    const ring: array<Block>
    var quarantinePos: nat
    var lru: seq<nat>              // positions in `entries`, most recent first
    var avail: seq<nat>
    var oldest: Option<nat>        // OldestPresentEntry
    var maxEntriesCount: nat
    ghost var now: nat             // the time of the last store
    var released: seq<Block>       // the blocks whose pages were released, in order
    var unmapped: seq<Block>       // the blocks that were evicted, in order

    ghost predicate Valid()
      reads this, entries, ring
    {
      && entries != ring && maxEntriesCount <= entries.Length
      && (ring.Length == 0 || quarantinePos < ring.Length)
      && ListsOk() && RingOk(ring[..], quarantinePos, entries[..], lru) && NoneNewer(ring[..], entries[..], lru, now)
    }

    ghost predicate ListsOk()
      reads this`lru, this`avail, this`oldest, entries
    {
      Partition(entries.Length, lru, avail) && Ordered(entries[..], lru) && OldestOk(entries[..], lru, oldest)
    }

    constructor (entriesArraySize: nat, quarantineSize: nat, maxEntriesCount: nat)
      requires maxEntriesCount <= entriesArraySize
      ensures Valid() && fresh(entries) && fresh(ring) && lru == [] && oldest == None && released == [] && unmapped == []
      ensures entries.Length == entriesArraySize && ring.Length == quarantineSize
      ensures this.maxEntriesCount == maxEntriesCount && now == 0
      ensures forall i :: 0 <= i < ring.Length ==> ring[i] == Block(0, 0, 0, 0)
    {
      this.maxEntriesCount := maxEntriesCount;
      entries := new Block[entriesArraySize](_ => Block(0, 0, 0, 0));
      ring := new Block[quarantineSize](_ => Block(0, 0, 0, 0));
      quarantinePos, lru, oldest, now, released, unmapped := 0, [], None, 0, [], [];
      avail := seq(entriesArraySize, i => i);
    }

    /** insert: the block becomes the most recent of the list. */
    method Insert(b: Block)
      requires Valid() && avail != [] && IsValid(b) && b.time <= now
      requires forall i :: 0 <= i < |lru| ==> Before(entries[lru[i]], b)
      requires forall s :: 0 <= s < ring.Length && IsValid(ring[s]) ==> Before(b, ring[s])
      modifies this`lru, this`avail, this`oldest, entries
      ensures Valid() && lru == [old(avail)[0]] + old(lru) && avail == old(avail)[1..]
      ensures old(avail)[0] < entries.Length && entries[old(avail)[0]] == b
      ensures entries[..] == old(entries[..])[old(avail)[0] := b]
    {
      hide Partition, Ordered, OldestOk, RingOk, NoneNewer;
      ghost var e := entries[..];
      InsertFacts(b);
      var x := avail[0];
      avail := avail[1..];
      entries[x] := b;
      lru := [x] + lru;
      if oldest == None && b.time != 0 {
        oldest := Some(x);
      }
      assert entries[..] == e[x := b];
    }

    lemma {:induction false} InsertFacts(b: Block)
      requires Valid() && avail != [] && IsValid(b) && b.time <= now
      requires forall i :: 0 <= i < |lru| ==> Before(entries[lru[i]], b)
      requires forall s :: 0 <= s < ring.Length && IsValid(ring[s]) ==> Before(b, ring[s])
      ensures avail[0] < entries.Length
      ensures var e, lru' := entries[..][avail[0] := b], [avail[0]] + lru;
        && Partition(entries.Length, lru', avail[1..]) && Ordered(e, lru')
        && OldestOk(e, lru', if oldest == None && b.time != 0 then Some(avail[0]) else oldest)
        && RingOk(ring[..], quarantinePos, e, lru') && NoneNewer(ring[..], e, lru', now)
    {
      var e := entries[..];
      hide Ordered, OldestOk, RingOk, NoneNewer, Before;
      InsertLists(e, lru, avail, b);
      InsertOldest(e, lru, avail, oldest, b);
      RingAfterInsert(ring[..], quarantinePos, e, lru, avail, b, now);
    }

    /** remove: the block at position `k` leaves the list, and its slot is free. */
    method Remove(k: nat) returns (b: Block)
      requires Valid() && k < |lru|
      modifies this`lru, this`avail, this`oldest, entries
      ensures Valid() && lru == Without(old(lru), k) && avail == [old(lru)[k]] + old(avail)
      ensures old(lru)[k] < entries.Length && b == old(entries[lru[k]]) && IsValid(b)
      ensures entries[..] == old(entries[..])[old(lru)[k] := b.(commitBase := 0)]
    {
      hide Partition, Ordered, OldestOk, RingOk, NoneNewer, Without;
      ghost var e := entries[..];
      RemoveFacts(k);
      var x := lru[k];
      b := entries[x];
      if oldest == Some(x) {
        oldest := if k == 0 then None else Some(lru[k - 1]);
      }
      lru := Without(lru, k);
      entries[x] := entries[x].(commitBase := 0);
      avail := [x] + avail;
      assert entries[..] == e[x := b.(commitBase := 0)];
    }

    lemma {:induction false} RemoveFacts(k: nat)
      requires Valid() && k < |lru|
      ensures lru[k] < entries.Length && IsValid(entries[lru[k]])
      ensures var b := entries[lru[k]].(commitBase := 0);
        var e, lru' := entries[..][lru[k] := b], Without(lru, k);
        && Partition(entries.Length, lru', [lru[k]] + avail) && Ordered(e, lru')
        && OldestOk(e, lru', NextOldest(lru, oldest, k))
        && RingOk(ring[..], quarantinePos, e, lru') && NoneNewer(ring[..], e, lru', now)
    {
      var e := entries[..];
      assert e[lru[k]] == entries[lru[k]];
      var b := entries[lru[k]].(commitBase := 0);
      hide OldestOk, RingOk, NoneNewer, Without, NextOldest, Partition;
      RemovePartition(entries.Length, lru, avail, k);
      RemoveOrdered(e, lru, avail, k, b);
      RemoveOldest(e, lru, avail, oldest, k, b);
      RingAfterRemove(ring[..], quarantinePos, e, lru, avail, k, b, now);
    }

    /** releaseOlderThan: following the shortcut releases exactly the blocks that a
        scan of everything would release. */
    method ReleaseOlderThan(releaseTime: nat)
      requires Valid()
      modifies this`oldest, this`released, entries, ring
      ensures Valid()
      ensures forall i :: 0 <= i < |lru| ==>
        old(lru[i]) < entries.Length && entries[lru[i]] == Scanned(old(entries[..])[lru[i]], releaseTime)
      ensures forall s :: 0 <= s < ring.Length ==> ring[s] == Scanned(old(ring[..])[s], releaseTime)
      ensures InRange(|old(entries[..])|, lru)
      ensures released == old(released) + DueInRing(old(ring[..]), releaseTime)
                          + DueBlocks(old(entries[..]), lru, releaseTime)
    {
      hide RingOk, NoneNewer, OldestOk, Ordered;
      ghost var e, r := entries[..], ring[..];
      OrderedInRange(e, lru);
      ReleaseRing(releaseTime);
      assert entries[..] == e;
      ReleaseList(releaseTime);
      ScanOrdered(e, entries[..], lru, releaseTime);
      RingAfterScan(r, ring[..], quarantinePos, e, entries[..], lru, releaseTime, now);
    }

    static lemma OrderedInRange(e: seq<Block>, lru: seq<nat>)
      requires Ordered(e, lru)
      ensures InRange(|e|, lru)
    {
    }

    method ReleaseRing(releaseTime: nat)
      requires entries != ring
      modifies this`released, ring
      ensures forall s :: 0 <= s < ring.Length ==> ring[s] == Scanned(old(ring[..])[s], releaseTime)
      ensures released == old(released) + DueInRing(old(ring[..]), releaseTime)
    {
      ghost var r := ring[..];
      for s := 0 to ring.Length
        invariant forall t :: 0 <= t < s ==> ring[t] == Scanned(r[t], releaseTime)
        invariant forall t :: s <= t < ring.Length ==> ring[t] == r[t]
        invariant released == old(released) + DueInRing(r[..s], releaseTime)
      {
        assert r[..s + 1][..s] == r[..s];
        var b := ring[s];
        if !(!IsValid(b) || b.time == 0 || b.time > releaseTime) {
          released := released + [b];
          ring[s] := b.(time := 0);
        }
      }
      assert r[..ring.Length] == r;
    }

    /** The walk from the oldest present block towards more recent ones. */
    method ReleaseList(releaseTime: nat)
      requires ListsOk() && entries != ring
      modifies this`oldest, this`released, entries
      ensures InRange(|old(entries[..])|, lru) && OldestOk(entries[..], lru, oldest)
      ensures forall i :: 0 <= i < |lru| ==>
        lru[i] < entries.Length && entries[lru[i]] == Scanned(old(entries[..])[lru[i]], releaseTime)
      ensures released == old(released) + DueBlocks(old(entries[..]), lru, releaseTime)
    {
      hide OldestAt, Before, Partition, Ordered, OldestOk, DueBlocks;
      ghost var e := entries[..];
      OrderedInRange(e, lru);
      var start: int := -1;
      if oldest.Some? {
        OldestPlace(e, lru, avail, oldest.value);
        start := IndexOf(lru, oldest.value);
      }
      StartOfWalk(e, lru, oldest, start, releaseTime);
      var at := ReleaseFrom(start, releaseTime);
      oldest := if at >= 0 then Some(lru[at]) else None;
      EndOfWalk(e, lru, at, releaseTime);
      ScanOldest(e, entries[..], lru, releaseTime, at);
    }

    /** Releases blocks from position `start` on, until one is too new. */
    method ReleaseFrom(start: int, releaseTime: nat) returns (at: int)
      requires Partition(entries.Length, lru, avail) && Ordered(entries[..], lru) && -1 <= start < |lru|
      requires forall j :: 0 <= j <= start ==> lru[j] < entries.Length && entries[lru[j]].time != 0
      modifies this`released, entries
      ensures InRange(|old(entries[..])|, lru) && -1 <= at <= start && (at >= 0 ==> old(entries[..])[lru[at]].time > releaseTime)
      ensures forall j :: 0 <= j < |lru| ==>
        (lru[j] < entries.Length
         && entries[lru[j]] == if at < j <= start then Scanned(old(entries[..])[lru[j]], releaseTime) else old(entries[..])[lru[j]])
      ensures forall j :: at < j <= start ==> entries[lru[j]].time == 0
      ensures released + DueBlocks(old(entries[..]), lru[..at + 1], releaseTime)
           == old(released) + DueBlocks(old(entries[..]), lru[..start + 1], releaseTime)
    {
      hide DueBlocks, Before;
      ghost var e := entries[..];
      at := start;
      while at >= 0
        invariant -1 <= at <= start && (forall j :: 0 <= j < |lru| ==> lru[j] < entries.Length)
        invariant forall j :: at < j <= start ==> entries[lru[j]] == Scanned(e[lru[j]], releaseTime) && entries[lru[j]].time == 0
        invariant forall j :: 0 <= j <= at || start < j < |lru| ==> entries[lru[j]] == e[lru[j]]
        invariant released + DueBlocks(e, lru[..at + 1], releaseTime) == old(released) + DueBlocks(e, lru[..start + 1], releaseTime)
      {
        var b := entries[lru[at]];
        if b.time > releaseTime {
          return;
        }
        DueNext(e, lru, releaseTime, at);
        released := released + [b];
        entries[lru[at]] := b.(time := 0);
        at := at - 1;
      }
    }

    static lemma {:induction false} EndOfWalk(e: seq<Block>, lru: seq<nat>, at: int, releaseTime: nat)
      requires Ordered(e, lru) && -1 <= at < |lru| && (at >= 0 ==> e[lru[at]].time > releaseTime)
      ensures DueBlocks(e, lru[..at + 1], releaseTime) == []
      ensures forall i :: 0 <= i <= at ==> e[lru[i]] == Scanned(e[lru[i]], releaseTime)
    {
      if at >= 0 {
        RestTooNew(e, lru, releaseTime, at);
      }
    }

    static lemma {:induction false} StartOfWalk(e: seq<Block>, lru: seq<nat>, oldest: Option<nat>, at: int, releaseTime: nat)
      requires Ordered(e, lru) && OldestOk(e, lru, oldest) && -1 <= at < |lru|
      requires oldest == None ==> at == -1
      requires oldest.Some? ==> at >= 0 && OldestAt(e, lru, oldest.value, at)
      ensures forall j :: at < j < |lru| ==> e[lru[j]] == Scanned(e[lru[j]], releaseTime) && e[lru[j]].time == 0
      ensures forall j :: 0 <= j <= at ==> e[lru[j]].time != 0
      ensures DueBlocks(e, lru[..at + 1], releaseTime) == DueBlocks(e, lru, releaseTime)
    {
      forall j | 0 <= j <= at ensures e[lru[j]].time != 0 {
        assert j < at ==> Before(e[lru[at]], e[lru[j]]);
      }
      SkipReleased(e, lru, releaseTime, at + 1);
    }

    /** Evicts the least recent blocks until there is room for one more. */
    method Evict()
      requires Valid() && maxEntriesCount > 0
      modifies this`lru, this`avail, this`oldest, this`unmapped, entries
      ensures Valid() && avail != []
      ensures lru == old(lru)[..Min(|old(lru)|, maxEntriesCount - 1)]
      ensures InRange(|old(entries[..])|, old(lru)) && unmapped == old(unmapped) + Evicted(old(entries[..]), old(lru), |lru|)
      ensures forall i :: 0 <= i < |lru| ==> lru[i] < entries.Length && entries[lru[i]] == old(entries[..])[lru[i]]
    {
      hide ListsOk, RingOk, NoneNewer;
      ghost var e, all := entries[..], lru;
      InListRange();
      while |lru| >= maxEntriesCount
        invariant Valid() && |lru| <= |all| && lru == all[..|lru|] && |lru| >= Min(|all|, maxEntriesCount - 1)
        invariant forall i :: 0 <= i < |lru| ==> lru[i] < entries.Length && entries[lru[i]] == e[lru[i]]
        invariant unmapped == old(unmapped) + Evicted(e, all, |lru|)
        decreases |lru|
      {
        EvictLast();
      }
      RoomLeft();
    }

    lemma RoomLeft()
      requires ListsOk() && |lru| < entries.Length
      ensures avail != []
    {
    }

    /** Evicts the least recent block. */
    method EvictLast()
      requires Valid() && lru != []
      modifies this`lru, this`avail, this`oldest, this`unmapped, entries
      ensures Valid() && lru == old(lru)[..|old(lru)| - 1]
      ensures old(lru)[|lru|] < entries.Length && unmapped == old(unmapped) + [old(entries[..])[old(lru)[|lru|]]]
      ensures forall i :: 0 <= i < |lru| ==> lru[i] < entries.Length && entries[lru[i]] == old(entries[..])[lru[i]]
    {
      hide OldestOk, RingOk, NoneNewer, Before;
      ghost var e, x := entries[..], lru[|lru| - 1];
      var b := Remove(|lru| - 1);
      unmapped := unmapped + [b];
      assert entries[..] == e[x := b.(commitBase := 0)];
    }

    /** The block takes the oldest slot of the ring, and what was there is returned. */
    method PutInRing(b: Block) returns (next: Block)
      requires Valid() && ring.Length > 0 && IsValid(b) && b.time > 0 && b.time >= now
      modifies this`quarantinePos, this`now, ring
      ensures Valid() && now == b.time
      ensures var p := NextPos(old(quarantinePos), ring.Length);
        quarantinePos == p && next == old(ring[..])[p] && ring[..] == old(ring[..])[p := b]
      ensures IsValid(next) ==> Fits(next)
    {
      hide RingOk, NoneNewer, NextPos, ListsOk;
      ghost var r := ring[..];
      InListRange();
      RingStep(r, quarantinePos, entries[..], lru, b, now);
      quarantinePos := NextPos(quarantinePos, ring.Length);
      next := ring[quarantinePos];
      ring[quarantinePos] := b;
      now := b.time;
      assert ring[..] == r[quarantinePos := b];
    }

    /** Without a ring, a block stored now is newer than the whole list. */
    ghost method Advance(b: Block)
      requires Valid() && ring.Length == 0 && IsValid(b) && b.time > 0 && b.time >= now
      modifies this`now
      ensures Valid() && now == b.time && Fits(b)
    {
      hide Partition, OldestOk;
      now := b.time;
      forall i | 0 <= i < |lru| ensures lru[i] < entries.Length && Before(entries[lru[i]], b) {
        assert entries[..][lru[i]] == entries[lru[i]];
      }
    }

    lemma InListRange()
      requires ListsOk()
      ensures InRange(|entries[..]|, lru)
    {
    }

    /** The block may go to the front of the list: nothing in the list is newer, and
        nothing in the ring older. */
    ghost predicate Fits(b: Block)
      reads this`lru, this`now, entries, ring
    {
      && IsValid(b) && b.time <= now
      && (forall i :: 0 <= i < |lru| ==> lru[i] < entries.Length && Before(entries[lru[i]], b))
      && (forall s :: 0 <= s < ring.Length && IsValid(ring[s]) ==> Before(b, ring[s]))
    }

    method InsertAndEvict(b: Block)
      requires Valid() && maxEntriesCount > 0 && Fits(b)
      modifies this`lru, this`avail, this`oldest, this`unmapped, entries
      ensures Valid()
      ensures var keep := Min(|old(lru)|, maxEntriesCount - 1);
        && |lru| == keep + 1 && lru[1..] == old(lru)[..keep]
        && lru[0] < entries.Length && entries[lru[0]] == b
        && InRange(|old(entries[..])|, old(lru)) && unmapped == old(unmapped) + Evicted(old(entries[..]), old(lru), keep)
        && InRange(|entries[..]|, lru) && Listed(entries[..], lru) == [b] + Listed(old(entries[..]), old(lru))[..keep]
    {
      hide ListsOk, RingOk, NoneNewer, Evicted;
      Evict();
      ghost var e, x, all := entries[..], avail[0], lru;
      AvailApart();
      assert forall i :: 0 <= i < |lru| ==> entries[lru[i]] == old(entries[..])[lru[i]] == old(entries[lru[i]]);
      Insert(b);
      ListedInsert(e, all, x, b);
    }

    lemma AvailApart()
      requires ListsOk() && avail != []
      ensures InRange(|entries[..]|, lru) && avail[0] < |entries[..]| && avail[0] !in lru
    {
    }

    static lemma {:induction false} ListedInsert(e: seq<Block>, lru: seq<nat>, x: nat, b: Block)
      requires InRange(|e|, lru) && x < |e| && x !in lru
      ensures InRange(|e|, [x] + lru) && Listed(e[x := b], [x] + lru) == [b] + Listed(e, lru)
    {
      assert forall i :: 1 <= i <= |lru| ==> ([x] + lru)[i] == lru[i - 1];
    }

    /** Releases what is older than `interval`. The block `b` was stored just now. */
    method ReleaseDue(time: nat, interval: nat, ghost b: Block)
      requires Valid() && now == time && InRange(|entries[..]|, lru)
      requires Present(b) && b in ring[..] + Listed(entries[..], lru)
      modifies this`oldest, this`released, entries, ring
      ensures Valid()
      ensures var t, r, blocks := ReleaseTime(time, interval), old(ring[..]), old(Listed(entries[..], lru));
        && (forall i :: 0 <= i < |lru| ==> lru[i] < entries.Length && entries[lru[i]] == Scanned(blocks[i], t))
        && (forall s :: 0 <= s < ring.Length ==> ring[s] == Scanned(r[s], t))
        && released == old(released) + DueIn(r, blocks, t)
      ensures time < WORD && interval * 1_000_000 < WORD ==>
        (AllOld(released[|old(released)|..], time, interval) <==> interval * 1_000_000 <= time)
    {
      hide ListsOk, RingOk, NoneNewer, ReleaseTime, AllOld, DueBlocks, DueOf, DueInRing, Scanned, Old;
      ghost var r, blocks := ring[..], Listed(entries[..], lru);
      TimesUpTo(r, entries[..], lru, now);
      DueListed(entries[..], lru, ReleaseTime(time, interval));
      ReleaseOlderThan(ReleaseTime(time, interval));
      assert released[|old(released)|..] == DueIn(r, blocks, ReleaseTime(time, interval));
      if time < WORD && interval * 1_000_000 < WORD {
        OnlyOldReleased(r, blocks, time, interval);
      }
    }

    static lemma TimesUpTo(r: seq<Block>, e: seq<Block>, lru: seq<nat>, now: nat)
      requires InRange(|e|, lru) && NoneNewer(r, e, lru, now)
      ensures forall b :: b in r + Listed(e, lru) && IsValid(b) ==> b.time <= now
    {
    }

    /** retrieve: takes the chosen block out of the list. Part of its unused front may
        go back to the system. */
    method Retrieve(r: Request) returns (entry: Option<Block>, headerPos: nat, bytesToRelease: nat, k: nat)
      requires Valid() && r.Valid() && InRange(|entries[..]|, lru)
      requires forall i :: 0 <= i < |lru| ==> Mapped(r, Listed(entries[..], lru)[i])
      modifies this`lru, this`avail, this`oldest, entries
      ensures Valid()
      ensures entry == None ==>
        NoneAccepted(r, old(Listed(entries[..], lru)), |old(lru)|) && lru == old(lru) && entries[..] == old(entries[..])
      ensures entry.Some? ==>
        && Chosen(r, old(Listed(entries[..], lru)), |old(lru)|, k) && entry.value == old(Listed(entries[..], lru))[k] && lru == Without(old(lru), k)
        && headerPos == r.HeaderPos(entry.value)
        && headerPos + r.headersSize + r.size <= r.End(entry.value) && (headerPos + r.headersSize) % r.alignment == 0
        && entry.value.commitBase + bytesToRelease <= headerPos && bytesToRelease % r.pageSize == 0
        && bytesToRelease == if entry.value.time == 0 then 0 else BytesToRelease(r.Diff(entry.value), r.pageSize)
    {
      hide ListsOk, RingOk, NoneNewer, Chosen, r.Accepts, r.HeaderPos, r.Diff, BytesToRelease, Without;
      entry, headerPos, bytesToRelease, k := None, 0, 0, 0;
      var blocks := Listed(entries[..], lru);
      var best := FindBest(r, blocks);
      if best == None {
        return;
      }
      k := best.value;
      ChosenFits(r, blocks, |blocks|, k);
      assert blocks[k] == entries[lru[k]];
      var b := Remove(k);
      entry, headerPos := Some(b), r.HeaderPos(b);
      if b.time != 0 {
        bytesToRelease := BytesToRelease(r.Diff(b), r.pageSize);
      }
    }

    static lemma {:induction false} ChosenFits(r: Request, blocks: seq<Block>, n: nat, k: nat)
      requires r.Valid() && n <= |blocks| && Chosen(r, blocks, n, k) && Mapped(r, blocks[k])
      ensures k < n && 0 % r.pageSize == 0
      ensures var b := blocks[k];
        && r.HeaderPos(b) + r.headersSize + r.size <= r.End(b) && (r.HeaderPos(b) + r.headersSize) % r.alignment == 0
        && b.commitBase <= r.HeaderPos(b)
        && b.commitBase + BytesToRelease(r.Diff(b), r.pageSize) <= r.HeaderPos(b)
        && BytesToRelease(r.Diff(b), r.pageSize) % r.pageSize == 0
    {
      var b := blocks[k];
      hide BytesToRelease, r.Diff, r.HeaderPos, r.AllocPos, RoundDown;
      r.AcceptedPlacement(b);
      r.DiffExact(b);
      PageMultiple(r.HeaderPos(b), b.commitBase, r.pageSize);
      ReleaseStopsBeforeHeaders(r.Diff(b), r.pageSize);
    }

    static lemma PageMultiple(x: nat, base: nat, p: nat)
      requires p > 0 && base % p == 0 && RoundDown(x, p) >= base
      ensures (RoundDown(x, p) - base) % p == 0
    {
      var q := x / p;
      DivBounds(base, p);
      DivAddMul(0, q - base / p, p);
      assert q * p - base == (q - base / p) * p;
    }

    /** store: the new block goes into the ring, if there is one, and the block it
        replaces there (or else the new block itself) to the front of the list. Then
        what is due in ring and list is released: only old blocks, exactly if the clock
        has reached the interval. */
    method Store(commitBase: nat, commitSize: nat, blockBegin: nat, time: nat, interval: int, gotLock: bool)
      requires Valid() && maxEntriesCount > 0 && commitBase != 0 && time > 0 && time >= now
      modifies this, entries, ring
      ensures Valid() && now == time && maxEntriesCount == old(maxEntriesCount)
      ensures quarantinePos == if ring.Length == 0 then old(quarantinePos) else NextPos(old(quarantinePos), ring.Length)
      ensures InRange(|old(entries[..])|, old(lru))
      ensures var b := Block(commitBase, commitSize, blockBegin, time);
        var p := if ring.Length == 0 then 0 else NextPos(old(quarantinePos), ring.Length);
        var next := if ring.Length == 0 then b else old(ring[..])[p];
        var ring' := if ring.Length == 0 then [] else old(ring[..])[p := b];
        if !IsValid(next) then
          && ring[..] == ring' && lru == old(lru) && entries[..] == old(entries[..])
          && released == old(released) && unmapped == old(unmapped)
        else
          var keep := Min(|old(lru)|, maxEntriesCount - 1);
          var scan := if interval >= 0 && gotLock then ReleaseTime(time, interval) else 0;
          var blocks := [next] + Listed(old(entries[..]), old(lru))[..keep];
          && |lru| == keep + 1 && lru[1..] == old(lru)[..keep]
          && (forall i :: 0 <= i < |lru| ==> lru[i] < entries.Length && entries[lru[i]] == Scanned(blocks[i], scan))
          && (forall s :: 0 <= s < ring.Length ==> ring[s] == Scanned(ring'[s], scan))
          && released == old(released) + DueIn(ring', blocks, scan)
          && unmapped == old(unmapped) + Evicted(old(entries[..]), old(lru), keep)
          && (interval >= 0 && gotLock && time < WORD && interval * 1_000_000 < WORD ==>
                (AllOld(released[|old(released)|..], time, interval) <==> interval * 1_000_000 <= time))
    {
      hide ListsOk, RingOk, NoneNewer, NextPos, DueIn, ReleaseTime, Evicted;
      var b := Block(commitBase, commitSize, blockBegin, time);
      var next := b;
      ghost var ring' := ring[..];
      InListRange();
      if ring.Length > 0 {
        next := PutInRing(b);
        ring' := ring[..];
        assert ring'[quarantinePos] == b by { assert ring' == old(ring[..])[NextPos(old(quarantinePos), ring.Length) := b]; }
        if !IsValid(next) {
          return;
        }
      } else {
        Advance(b);
      }
      InsertAndEvict(next);
      ghost var blocks := Listed(entries[..], lru);
      assert b in ring' + blocks by { assert ring.Length == 0 ==> blocks[0] == b; }
      if interval >= 0 && gotLock {
        ReleaseDue(time, interval, b);
      } else {
        NothingDueAtZero(ring', blocks);
      }
    }
  }

  /** `Time - Interval * 1000000` in 64-bit arithmetic. */
  function ReleaseTime(time: nat, interval: nat): nat {
    (time - interval * 1_000_000) % WORD
  }

  /** The block was stored at least an interval ago. */
  predicate Old(b: Block, time: nat, interval: nat) {
    b.time + interval * 1_000_000 <= time
  }

  /** A block is due if it is old, but before the clock has reached the interval the
      limit wraps around to a time in the future, and every block is due. */
  lemma {:induction false} DueIffOld(b: Block, time: nat, interval: nat)
    requires IsValid(b) && 0 < b.time <= time < WORD && interval * 1_000_000 < WORD
    ensures Due(b, ReleaseTime(time, interval)) <==> Old(b, time, interval) || time < interval * 1_000_000
  {
    if interval * 1_000_000 <= time {
      Request.Small(time - interval * 1_000_000);
    } else {
      Request.Wrapped(time - interval * 1_000_000);
    }
  }

  /** An input for which a new block is released: the clock is at 1 and the interval is
      one millisecond. */
  lemma NewBlockReleased(b: Block)
    requires IsValid(b) && b.time == 1
    ensures Due(b, ReleaseTime(1, 1)) && !Old(b, 1, 1)
  {
    DueIffOld(b, 1, 1);
  }

  ghost predicate AllOld(blocks: seq<Block>, time: nat, interval: nat) {
    forall i :: 0 <= i < |blocks| ==> Old(blocks[i], time, interval)
  }

  /** A block whose pages could still be released. */
  predicate Present(b: Block) {
    IsValid(b) && b.time != 0
  }

  /** A release gives up old blocks only, exactly if the clock has reached the interval
      or there is no block that it could release. */
  lemma {:induction false} OnlyOldReleased(ring: seq<Block>, blocks: seq<Block>, time: nat, interval: nat)
    requires time < WORD && interval * 1_000_000 < WORD
    requires forall b :: b in ring + blocks && IsValid(b) ==> b.time <= time
    ensures AllOld(DueIn(ring, blocks, ReleaseTime(time, interval)), time, interval)
       <==> interval * 1_000_000 <= time || forall b :: b in ring + blocks ==> !Present(b)
  {
    hide ReleaseTime, DueInRing, DueOf;
    var t := ReleaseTime(time, interval);
    var due := DueIn(ring, blocks, t);
    forall b ensures b in due <==> b in ring + blocks && Due(b, t) {
      DueInRingMembers(ring, t, b);
      DueOfMembers(blocks, t, b);
    }
    forall b | b in ring + blocks && Present(b)
      ensures Due(b, t) <==> Old(b, time, interval) || time < interval * 1_000_000
    {
      DueIffOld(b, time, interval);
    }
    if b :| b in ring + blocks && Present(b) {
      if time < interval * 1_000_000 {
        assert b in due;
        var i :| 0 <= i < |due| && due[i] == b;
        assert !Old(due[i], time, interval);
      }
    }
    forall i | 0 <= i < |due| && interval * 1_000_000 <= time ensures Old(due[i], time, interval) {
      assert due[i] in due;
    }
  }

  /** The blocks of the list after its first `keep`, least recent first. */
  function Evicted(e: seq<Block>, lru: seq<nat>, keep: nat): seq<Block>
    requires InRange(|e|, lru) && keep <= |lru|
    decreases |lru| - keep
  {
    if keep == |lru| then [] else Evicted(e, lru, keep + 1) + [e[lru[keep]]]
  }
}
