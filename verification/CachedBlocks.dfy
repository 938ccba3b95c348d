/** What the secondary cache of secondary.h keeps about its blocks: who is in the
    recency list, in which order, and which block is the oldest one not released. */
module CachedBlocks {
  import opened Common

  /** A cached mapping. `time` is when it was stored, or 0 once its pages were
      released; `commitBase` is 0 when the slot is not in use. */
  datatype Block = Block(commitBase: nat, commitSize: nat, blockBegin: nat, time: nat)

  predicate IsValid(b: Block) {
    b.commitBase != 0
  }

  /** `a` was stored no later than `b`, as far as the times still tell. */
  predicate Before(a: Block, b: Block) {
    a.time != 0 ==> b.time != 0 && a.time <= b.time
  }

  // ---- The recency list -------------------------------------------------

  /** The recency list and the list of unused slots share out the slots. */
  ghost predicate Partition(n: nat, lru: seq<nat>, avail: seq<nat>) {
    && |lru| + |avail| == n
    && (forall i :: 0 <= i < |lru| ==> lru[i] < n)
    && (forall i :: 0 <= i < |avail| ==> avail[i] < n)
    && (forall i, j :: 0 <= i < j < |lru| ==> lru[i] != lru[j])
    && (forall i, j :: 0 <= i < j < |avail| ==> avail[i] != avail[j])
    && (forall i, j :: 0 <= i < |lru| && 0 <= j < |avail| ==> lru[i] != avail[j])
  }

  predicate InRange(n: nat, lru: seq<nat>) {
    forall i :: 0 <= i < |lru| ==> lru[i] < n
  }

  /** Most recent first, and only valid blocks. */
  ghost predicate Ordered(e: seq<Block>, lru: seq<nat>) {
    && InRange(|e|, lru)
    && (forall i :: 0 <= i < |lru| ==> IsValid(e[lru[i]]))
    && (forall i, j :: 0 <= i < j < |lru| ==> Before(e[lru[j]], e[lru[i]]))
  }

  /** The shortcut points to the oldest block whose pages are still there. */
  ghost predicate OldestOk(e: seq<Block>, lru: seq<nat>, oldest: Option<nat>)
    requires InRange(|e|, lru)
  {
    match oldest
    case None => forall i :: 0 <= i < |lru| ==> e[lru[i]].time == 0
    case Some(x) => exists k :: 0 <= k < |lru| && OldestAt(e, lru, x, k)
  }

  ghost predicate OldestAt(e: seq<Block>, lru: seq<nat>, x: nat, k: nat)
    requires InRange(|e|, lru) && k < |lru|
  {
    lru[k] == x && e[lru[k]].time != 0 && forall j :: k < j < |lru| ==> e[lru[j]].time == 0
  }

  function IndexOf(s: seq<nat>, x: nat): (k: nat)
    requires x in s
    ensures k < |s| && s[k] == x
  {
    if s[0] == x then 0 else 1 + IndexOf(s[1..], x)
  }

  /** The oldest present block is where the list has it. */
  lemma {:induction false} OldestPlace(e: seq<Block>, lru: seq<nat>, avail: seq<nat>, x: nat)
    requires Partition(|e|, lru, avail) && InRange(|e|, lru) && OldestOk(e, lru, Some(x))
    ensures x in lru && OldestAt(e, lru, x, IndexOf(lru, x))
  {
    var k :| 0 <= k < |lru| && OldestAt(e, lru, x, k);
    assert lru[k] == x;
    assert IndexOf(lru, x) == k;
  }

  // ---- Insertion and removal --------------------------------------------

  lemma {:induction false} InsertLists(e: seq<Block>, lru: seq<nat>, avail: seq<nat>, b: Block)
    requires Partition(|e|, lru, avail) && avail != [] && Ordered(e, lru)
    requires IsValid(b) && forall i :: 0 <= i < |lru| ==> Before(e[lru[i]], b)
    ensures Partition(|e|, [avail[0]] + lru, avail[1..]) && Ordered(e[avail[0] := b], [avail[0]] + lru)
  {
    var x, e', lru' := avail[0], e[avail[0] := b], [avail[0]] + lru;
    assert forall i :: 1 <= i <= |lru| ==> lru'[i] == lru[i - 1] && e'[lru'[i]] == e[lru[i - 1]];
  }

  lemma {:induction false} InsertOldest(e: seq<Block>, lru: seq<nat>, avail: seq<nat>, oldest: Option<nat>, b: Block)
    requires Partition(|e|, lru, avail) && avail != [] && OldestOk(e, lru, oldest)
    ensures InRange(|e|, [avail[0]] + lru)
    ensures OldestOk(e[avail[0] := b], [avail[0]] + lru, if oldest == None && b.time != 0 then Some(avail[0]) else oldest)
  {
    var x, e', lru' := avail[0], e[avail[0] := b], [avail[0]] + lru;
    assert forall i :: 1 <= i <= |lru| ==> lru'[i] == lru[i - 1] && e'[lru'[i]] == e[lru[i - 1]];
    match oldest
    case None =>
      if b.time != 0 {
        assert OldestAt(e', lru', x, 0);
      }
    case Some(y) =>
      var k :| 0 <= k < |lru| && OldestAt(e, lru, y, k);
      assert OldestAt(e', lru', y, k + 1);
  }

  function Without(s: seq<nat>, k: nat): seq<nat>
    requires k < |s|
  {
    s[..k] + s[k + 1..]
  }

  /** The shortcut after the block at position `k` left the list. */
  function NextOldest(lru: seq<nat>, oldest: Option<nat>, k: nat): Option<nat>
    requires k < |lru|
  {
    if oldest == Some(lru[k]) then (if k == 0 then None else Some(lru[k - 1])) else oldest
  }

  lemma {:induction false} RemovePartition(n: nat, lru: seq<nat>, avail: seq<nat>, k: nat)
    requires Partition(n, lru, avail) && k < |lru|
    ensures Partition(n, Without(lru, k), [lru[k]] + avail)
  {
    var lru' := Without(lru, k);
    assert forall i :: 0 <= i < |lru'| ==> lru'[i] == lru[if i < k then i else i + 1];
  }

  lemma {:induction false} RemoveOrdered(e: seq<Block>, lru: seq<nat>, avail: seq<nat>, k: nat, b: Block)
    requires Partition(|e|, lru, avail) && Ordered(e, lru) && k < |lru|
    ensures Ordered(e[lru[k] := b], Without(lru, k))
  {
    var e', lru' := e[lru[k] := b], Without(lru, k);
    assert forall i :: 0 <= i < |lru'| ==> lru'[i] == lru[if i < k then i else i + 1] && e'[lru'[i]] == e[lru'[i]];
  }

  lemma {:induction false} RemoveOldest(e: seq<Block>, lru: seq<nat>, avail: seq<nat>, oldest: Option<nat>, k: nat, b: Block)
    requires Partition(|e|, lru, avail) && Ordered(e, lru) && OldestOk(e, lru, oldest) && k < |lru|
    ensures InRange(|e|, Without(lru, k))
    ensures OldestOk(e[lru[k] := b], Without(lru, k), NextOldest(lru, oldest, k))
  {
    var e', lru' := e[lru[k] := b], Without(lru, k);
    assert forall i :: 0 <= i < |lru'| ==> lru'[i] == lru[if i < k then i else i + 1] && e'[lru'[i]] == e[lru'[i]];
    match oldest
    case None =>
    case Some(y) =>
      var m :| 0 <= m < |lru| && OldestAt(e, lru, y, m);
      if m == k {
        if k > 0 {
          BeforeOldest(e, lru, k);
          hide Ordered;
          assert OldestAt(e', lru', lru[k - 1], k - 1);
        }
      } else {
        hide Ordered;
        assert OldestAt(e', lru', y, if m < k then m else m - 1);
      }
  }

  /** The block before the oldest present one is present too. */
  lemma BeforeOldest(e: seq<Block>, lru: seq<nat>, k: nat)
    requires Ordered(e, lru) && 0 < k < |lru| && e[lru[k]].time != 0
    ensures e[lru[k - 1]].time != 0
  {
    assert Before(e[lru[k]], e[lru[k - 1]]);
  }

  // ---- Releasing --------------------------------------------------------

  predicate Due(b: Block, releaseTime: nat) {
    IsValid(b) && 0 < b.time <= releaseTime
  }

  /** What a full scan does to a block. */
  function Scanned(b: Block, releaseTime: nat): Block {
    if Due(b, releaseTime) then b.(time := 0) else b
  }

  /** The blocks that a full scan of the list, oldest first, would release. */
  function DueBlocks(e: seq<Block>, lru: seq<nat>, releaseTime: nat): seq<Block>
    requires InRange(|e|, lru)
  {
    if lru == [] then []
    else
      var last := e[lru[|lru| - 1]];
      (if Due(last, releaseTime) then [last] else []) + DueBlocks(e, lru[..|lru| - 1], releaseTime)
  }

  /** The blocks of the list, most recent first. */
  function Listed(e: seq<Block>, lru: seq<nat>): (blocks: seq<Block>)
    requires InRange(|e|, lru)
    ensures |blocks| == |lru|
  {
    seq(|lru|, i requires 0 <= i < |lru| => e[lru[i]])
  }

  /** Those of some blocks, most recent first, that a scan releases, oldest first. */
  function DueOf(blocks: seq<Block>, releaseTime: nat): seq<Block> {
    if blocks == [] then []
    else
      var last := blocks[|blocks| - 1];
      (if Due(last, releaseTime) then [last] else []) + DueOf(blocks[..|blocks| - 1], releaseTime)
  }

  lemma {:induction false} DueListed(e: seq<Block>, lru: seq<nat>, releaseTime: nat)
    requires InRange(|e|, lru)
    ensures DueBlocks(e, lru, releaseTime) == DueOf(Listed(e, lru), releaseTime)
  {
    if lru != [] {
      var n := |lru| - 1;
      assert Listed(e, lru)[..n] == Listed(e, lru[..n]);
      DueListed(e, lru[..n], releaseTime);
    }
  }

  lemma {:induction false} DueOfMembers(blocks: seq<Block>, releaseTime: nat, b: Block)
    ensures b in DueOf(blocks, releaseTime) <==> b in blocks && Due(b, releaseTime)
  {
    if blocks != [] {
      var n := |blocks| - 1;
      assert blocks == blocks[..n] + [blocks[n]];
      DueOfMembers(blocks[..n], releaseTime, b);
    }
  }

  lemma {:induction false} DueInRingMembers(ring: seq<Block>, releaseTime: nat, b: Block)
    ensures b in DueInRing(ring, releaseTime) <==> b in ring && Due(b, releaseTime)
  {
    if ring != [] {
      var n := |ring| - 1;
      assert ring == ring[..n] + [ring[n]];
      DueInRingMembers(ring[..n], releaseTime, b);
    }
  }

  /** What a scan releases in the ring and then in the list. */
  function DueIn(ring: seq<Block>, blocks: seq<Block>, releaseTime: nat): seq<Block> {
    DueInRing(ring, releaseTime) + DueOf(blocks, releaseTime)
  }

  /** Nothing is due before time 1. */
  lemma {:induction false} NothingDueAtZero(ring: seq<Block>, blocks: seq<Block>)
    ensures DueIn(ring, blocks, 0) == []
  {
    if DueIn(ring, blocks, 0) != [] {
      var b := DueIn(ring, blocks, 0)[0];
      assert b in DueInRing(ring, 0) || b in DueOf(blocks, 0);
      DueInRingMembers(ring, 0, b);
      DueOfMembers(blocks, 0, b);
    }
  }

  /** Blocks that are released already are not due. */
  lemma {:induction false} SkipReleased(e: seq<Block>, lru: seq<nat>, releaseTime: nat, k: nat)
    requires InRange(|e|, lru) && k <= |lru| && forall j :: k <= j < |lru| ==> e[lru[j]].time == 0
    ensures DueBlocks(e, lru, releaseTime) == DueBlocks(e, lru[..k], releaseTime)
  {
    if k < |lru| {
      var n := |lru| - 1;
      SkipReleased(e, lru[..n], releaseTime, k);
      assert lru[..n][..k] == lru[..k];
    } else {
      assert lru[..k] == lru;
    }
  }

  /** Once a block is too new, so are all more recent ones. */
  lemma {:induction false} RestTooNew(e: seq<Block>, lru: seq<nat>, releaseTime: nat, k: nat)
    requires Ordered(e, lru) && k < |lru| && e[lru[k]].time > releaseTime
    ensures DueBlocks(e, lru[..k + 1], releaseTime) == []
    ensures forall i :: 0 <= i <= k ==> e[lru[i]].time > releaseTime
  {
    forall i | 0 <= i <= k ensures e[lru[i]].time > releaseTime {
      assert i < k ==> Before(e[lru[k]], e[lru[i]]);
    }
    NoneDue(e, lru[..k + 1], releaseTime);
  }

  lemma {:induction false} NoneDue(e: seq<Block>, lru: seq<nat>, releaseTime: nat)
    requires InRange(|e|, lru) && forall i :: 0 <= i < |lru| ==> !Due(e[lru[i]], releaseTime)
    ensures DueBlocks(e, lru, releaseTime) == []
  {
    if lru != [] {
      NoneDue(e, lru[..|lru| - 1], releaseTime);
    }
  }

  lemma {:induction false} DueNext(e: seq<Block>, lru: seq<nat>, releaseTime: nat, k: nat)
    requires InRange(|e|, lru) && k < |lru| && Due(e[lru[k]], releaseTime)
    ensures DueBlocks(e, lru[..k + 1], releaseTime) == [e[lru[k]]] + DueBlocks(e, lru[..k], releaseTime)
  {
    assert lru[..k + 1][..k] == lru[..k];
  }

  /** A full scan keeps the order. */
  lemma {:induction false} ScanOrdered(e: seq<Block>, e': seq<Block>, lru: seq<nat>, releaseTime: nat)
    requires Ordered(e, lru) && |e'| == |e|
    requires forall i :: 0 <= i < |lru| ==> e'[lru[i]] == Scanned(e[lru[i]], releaseTime)
    ensures Ordered(e', lru)
  {
  }

  /** The blocks of the ring that a scan releases. */
  function DueInRing(ring: seq<Block>, releaseTime: nat): seq<Block> {
    if ring == [] then []
    else
      var last := ring[|ring| - 1];
      DueInRing(ring[..|ring| - 1], releaseTime) + (if Due(last, releaseTime) then [last] else [])
  }

  /** A scan leaves the shortcut at the oldest block that is still present. */
  lemma {:induction false} ScanOldest(e: seq<Block>, e': seq<Block>, lru: seq<nat>, releaseTime: nat, at: int)
    requires Ordered(e, lru) && |e'| == |e| && -1 <= at < |lru|
    requires forall i :: 0 <= i < |lru| ==> e'[lru[i]] == Scanned(e[lru[i]], releaseTime)
    requires forall j :: at < j < |lru| ==> e'[lru[j]].time == 0
    requires at >= 0 ==> e'[lru[at]].time != 0
    ensures OldestOk(e', lru, if at >= 0 then Some(lru[at]) else None)
  {
    if at >= 0 {
      assert OldestAt(e', lru, lru[at], at);
    }
  }
}
