/** The quarantine of quarantine.h: freed chunks wait in batches, first in first out,
    until they are recycled. */
module Quarantine {
  import opened Common
  import opened Shuffling

  const MAX_COUNT := 1019

  /** A freed chunk and the size it counts for. */
  datatype Chunk = Chunk(ptr: nat, size: nat)

  /** A batch of chunks; `size` is what it counts for, itself included. */
  datatype Batch = Batch(addr: nat, chunks: seq<Chunk>, size: nat)

  function TotalSize(chunks: seq<Chunk>): nat {
    if chunks == [] then 0 else TotalSize(chunks[..|chunks| - 1]) + chunks[|chunks| - 1].size
  }

  /** The chunks of a list of batches, in the order in which they were put. */
  function Chunks(list: seq<Batch>): seq<Chunk> {
    if list == [] then [] else Chunks(list[..|list| - 1]) + list[|list| - 1].chunks
  }

  function SizeOf(list: seq<Batch>): nat {
    if list == [] then 0 else SizeOf(list[..|list| - 1]) + list[|list| - 1].size
  }

  ghost predicate BatchOk(b: Batch, header: nat) {
    |b.chunks| <= MAX_COUNT && b.size == header + TotalSize(b.chunks)
  }

  ghost predicate AllOk(list: seq<Batch>, header: nat) {
    forall i :: 0 <= i < |list| ==> BatchOk(list[i], header)
  }

  predicate CanMerge(b: Batch, c: Batch) {
    |b.chunks| + |c.chunks| <= MAX_COUNT
  }

  // ---- Sums over concatenations -----------------------------------------

  lemma {:induction false} TotalSizeConcat(x: seq<Chunk>, y: seq<Chunk>)
    ensures TotalSize(x + y) == TotalSize(x) + TotalSize(y)
  {
    if y == [] {
      assert x + y == x;
    } else {
      assert (x + y)[..|x + y| - 1] == x + y[..|y| - 1];
      TotalSizeConcat(x, y[..|y| - 1]);
    }
  }

  lemma {:induction false} ListConcat(x: seq<Batch>, y: seq<Batch>)
    ensures Chunks(x + y) == Chunks(x) + Chunks(y)
    ensures SizeOf(x + y) == SizeOf(x) + SizeOf(y)
  {
    if y == [] {
      assert x + y == x;
    } else {
      assert (x + y)[..|x + y| - 1] == x + y[..|y| - 1];
      ListConcat(x, y[..|y| - 1]);
    }
  }

  lemma ListSingle(b: Batch)
    ensures Chunks([b]) == b.chunks && SizeOf([b]) == b.size
  {
    assert [b][..0] == [];
  }

  /** The part of a list around two neighbours. */
  lemma {:induction false} ListAround(x: seq<Batch>, b: seq<Batch>, y: seq<Batch>)
    ensures Chunks(x + b + y) == Chunks(x) + Chunks(b) + Chunks(y)
    ensures SizeOf(x + b + y) == SizeOf(x) + SizeOf(b) + SizeOf(y)
  {
    ListConcat(x + b, y);
    ListConcat(x, b);
  }

  lemma {:induction false} TwoBatches(b: Batch, c: Batch)
    ensures Chunks([b, c]) == b.chunks + c.chunks && SizeOf([b, c]) == b.size + c.size
  {
    ListConcat([b], [c]);
    ListSingle(b);
    ListSingle(c);
    assert [b, c] == [b] + [c];
  }

  /** One more chunk needs a new batch: there is none, or the last one is full. */
  predicate NeedsBatch(list: seq<Batch>) {
    list == [] || |list[|list| - 1].chunks| == MAX_COUNT
  }

  /** The list with one more chunk at its end; `addr` is where a new batch would go. */
  function Enqueued(list: seq<Batch>, chunk: Chunk, addr: nat, header: nat): seq<Batch> {
    if NeedsBatch(list) then list + [Batch(addr, [chunk], chunk.size + header)]
    else
      var last := list[|list| - 1];
      list[|list| - 1 := last.(chunks := last.chunks + [chunk], size := last.size + chunk.size)]
  }

  /** The chunks of a list as they are recycled: batch by batch, each shuffled with its
      own random numbers. */
  function InRandomOrder(list: seq<Batch>, random: (nat, nat) -> nat): seq<Chunk> {
    if list == [] then []
    else Shuffled(list[0].chunks, |list[0].chunks|, Drawn(random, list[0].addr)) + InRandomOrder(list[1..], random)
  }

  /** No two neighbours fit into one batch. */
  ghost predicate NoneMerge(list: seq<Batch>) {
    forall i :: 0 < i < |list| ==> |list[i - 1].chunks| + |list[i].chunks| > MAX_COUNT
  }

  /** The oldest batches `taken` leave a list until the rest has at most `minSize` bytes:
      with one batch less taken it would have more. */
  ghost predicate FewestTaken(list: seq<Batch>, taken: seq<Batch>, rest: seq<Batch>, minSize: nat) {
    && list == taken + rest && SizeOf(rest) <= minSize
    && (taken != [] ==> SizeOf(rest) + taken[|taken| - 1].size > minSize)
  }

  /** What remains is the longest suffix that fits, and everything if everything fits. */
  lemma {:induction false} LongestSuffix(list: seq<Batch>, taken: seq<Batch>, rest: seq<Batch>, minSize: nat, k: nat)
    requires FewestTaken(list, taken, rest, minSize) && k <= |list|
    ensures SizeOf(list[k..]) <= minSize <==> k >= |taken|
    ensures SizeOf(list) <= minSize <==> taken == []
  {
    SuffixFits(list, taken, rest, minSize, k);
    SuffixFits(list, taken, rest, minSize, 0);
    assert list[0..] == list;
  }

  lemma {:induction false} SuffixFits(list: seq<Batch>, taken: seq<Batch>, rest: seq<Batch>, minSize: nat, k: nat)
    requires FewestTaken(list, taken, rest, minSize) && k <= |list|
    ensures SizeOf(list[k..]) <= minSize <==> k >= |taken|
  {
    hide SizeOf;
    if k >= |taken| {
      assert rest == rest[..k - |taken|] + list[k..];
      ListConcat(rest[..k - |taken|], list[k..]);
    } else {
      var n := |taken| - 1;
      assert list[k..] == taken[k..n] + [taken[n]] + rest;
      ListAround(taken[k..n], [taken[n]], rest);
      ListSingle(taken[n]);
    }
  }

  // ---- One list of batches ----------------------------------------------

  class QuarantineCache {
    const header: nat    // the bytes a batch itself takes
    var list: seq<Batch>
    var size: int

    /** The recorded size is the sum over all batches. */
    ghost predicate Valid()
      reads this
    {
      size == SizeOf(list) && AllOk(list, header)
    }

    constructor (header: nat)
      ensures Valid() && this.header == header && list == [] && size == 0
    {
      this.header := header;
      list, size := [], 0;
    }

    /** Puts a chunk at the end; `addr` is where a new batch would go. */
    method Enqueue(chunk: Chunk, addr: nat)
      requires Valid()
      modifies this
      ensures Valid() && list == Enqueued(old(list), chunk, addr, header) && Chunks(list) == Chunks(old(list)) + [chunk]
      ensures size == old(size) + chunk.size + if |list| > |old(list)| then header else 0
      ensures |list| > |old(list)| <==> NeedsBatch(old(list))
    {
      hide Chunks, SizeOf, TotalSize;
      OneChunk(chunk);
      if list == [] || |list[|list| - 1].chunks| == MAX_COUNT {
        EnqueueBatch(Batch(addr, [chunk], chunk.size + header));
      } else {
        var last := list[|list| - 1];
        var b := last.(chunks := last.chunks + [chunk], size := last.size + chunk.size);
        TotalSizeConcat(last.chunks, [chunk]);
        ReplaceLast(list, b, chunk);
        list := list[|list| - 1 := b];
        size := size + chunk.size;
      }
    }

    static lemma {:induction false} ReplaceLast(list: seq<Batch>, b: Batch, chunk: Chunk)
      requires list != [] && b.chunks == list[|list| - 1].chunks + [chunk] && b.size == list[|list| - 1].size + chunk.size
      ensures Chunks(list[|list| - 1 := b]) == Chunks(list) + [chunk]
      ensures SizeOf(list[|list| - 1 := b]) == SizeOf(list) + chunk.size
    {
      assert list[|list| - 1 := b][..|list| - 1] == list[..|list| - 1];
    }

    static lemma OneChunk(chunk: Chunk)
      ensures TotalSize([chunk]) == chunk.size
    {
      assert [chunk][..0] == [];
    }

    method EnqueueBatch(b: Batch)
      requires Valid() && BatchOk(b, header)
      modifies this
      ensures Valid() && list == old(list) + [b] && size == old(size) + b.size
      ensures Chunks(list) == Chunks(old(list)) + b.chunks
    {
      ListConcat(list, [b]);
      ListSingle(b);
      list := list + [b];
      size := size + b.size;
    }

    /** Takes over all batches of another list. */
    method Transfer(from: QuarantineCache)
      requires Valid() && from.Valid() && from != this && from.header == header
      modifies this, from
      ensures Valid() && from.Valid() && from.list == [] && list == old(list) + old(from.list)
      ensures Chunks(list) == Chunks(old(list)) + Chunks(old(from.list))
      ensures size == old(size) + old(from.size)
    {
      ListConcat(list, from.list);
      list := list + from.list;
      from.list := [];
      size := size + from.size;
      from.size := 0;
    }

    /** Takes the oldest batch out. */
    method DequeueBatch() returns (b: Batch)
      requires Valid() && list != []
      modifies this
      ensures Valid() && BatchOk(b, header) && old(list) == [b] + list
      ensures Chunks(old(list)) == b.chunks + Chunks(list) && size == old(size) - b.size
    {
      b := list[0];
      assert list == [b] + list[1..];
      ListConcat([b], list[1..]);
      ListSingle(b);
      list := list[1..];
      size := size - b.size;
    }

    /** Merges neighbours while two of them fit into one batch. The chunks stay in
        order; the emptied batches go to `toDeallocate`. */
    method MergeBatches(toDeallocate: QuarantineCache)
      requires Valid() && toDeallocate.Valid() && toDeallocate != this && toDeallocate.header == header
      modifies this, toDeallocate
      ensures Valid() && toDeallocate.Valid()
      ensures Chunks(list) == Chunks(old(list)) && Chunks(toDeallocate.list) == Chunks(old(toDeallocate.list))
      ensures NoneMerge(list)
      ensures size + toDeallocate.size == old(size) + old(toDeallocate.size)
      ensures |list| + |toDeallocate.list| == |old(list)| + |old(toDeallocate.list)|
    {
      hide SizeOf, Chunks, TotalSize;
      var extractedSize := 0;
      var current := 0;
      while current + 1 < |list|
        invariant current <= |list| && AllOk(list, header) && toDeallocate.Valid()
        invariant Chunks(list) == Chunks(old(list)) && Chunks(toDeallocate.list) == Chunks(old(toDeallocate.list))
        invariant forall i :: 0 < i <= current && i < |list| ==> !CanMerge(list[i - 1], list[i])
        invariant size == old(size) && SizeOf(list) == size - extractedSize
        invariant extractedSize + old(toDeallocate.size) == toDeallocate.size
        invariant |list| + |toDeallocate.list| == |old(list)| + |old(toDeallocate.list)|
        decreases |list| - current
      {
        if CanMerge(list[current], list[current + 1]) {
          var b, extracted := Merge(list[current], list[current + 1]);
          ReplacePair(list, current, b, extracted);
          list := list[..current] + [b] + list[current + 2..];
          extractedSize := extractedSize + extracted.size;
          toDeallocate.EnqueueBatch(extracted);
          assert Chunks(toDeallocate.list) == Chunks(old(toDeallocate.list)) + [];
        } else {
          current := current + 1;
        }
      }
      size := size - extractedSize;
    }

    /** Moves the chunks of one batch behind those of another. */
    method Merge(into: Batch, from: Batch) returns (merged: Batch, emptied: Batch)
      requires BatchOk(into, header) && BatchOk(from, header) && CanMerge(into, from)
      ensures BatchOk(merged, header) && BatchOk(emptied, header) && emptied.chunks == [] && emptied.addr == from.addr
      ensures merged.chunks == into.chunks + from.chunks && merged.size + emptied.size == into.size + from.size
    {
      TotalSizeConcat(into.chunks, from.chunks);
      merged := into.(chunks := into.chunks + from.chunks, size := into.size + (from.size - header));
      emptied := from.(chunks := [], size := header);
    }

    static lemma {:induction false} ReplacePair(list: seq<Batch>, i: nat, b: Batch, extracted: Batch)
      requires i + 1 < |list| && b.chunks == list[i].chunks + list[i + 1].chunks
      requires b.size + extracted.size == list[i].size + list[i + 1].size
      ensures Chunks(list[..i] + [b] + list[i + 2..]) == Chunks(list)
      ensures SizeOf(list[..i] + [b] + list[i + 2..]) + extracted.size == SizeOf(list)
    {
      hide Chunks, SizeOf;
      var x, y := list[..i], list[i + 2..];
      assert list == x + [list[i], list[i + 1]] + y;
      ListAround(x, [list[i], list[i + 1]], y);
      TwoBatches(list[i], list[i + 1]);
      ListAround(x, [b], y);
      ListSingle(b);
    }
  }

  // ---- The global quarantine --------------------------------------------

  class GlobalQuarantine {
    const cache: QuarantineCache
    const minSize: nat
    const maxSize: nat
    const maxCacheSize: nat
    /** What was handed to the recycle and deallocate callbacks, in order. */
    var recycled: seq<Chunk>
    var deallocated: seq<nat>

    constructor (size: nat, cacheSize: nat, header: nat)
      requires (size == 0 && cacheSize == 0) || cacheSize != 0
      ensures cache.Valid() && fresh(cache) && cache.list == [] && cache.header == header
      ensures maxSize == size && minSize == size / 10 * 9 && maxCacheSize == cacheSize
      ensures recycled == [] && deallocated == []
    {
      maxSize, minSize, maxCacheSize := size, size / 10 * 9, cacheSize;
      cache := new QuarantineCache(header);
      recycled, deallocated := [], [];
    }

    /** put: the chunk waits in the thread's cache, which moves to the global one
        when it has grown too large. `free` says that nobody else recycles. */
    method Put(c: QuarantineCache, chunk: Chunk, addr: nat, free: bool, random: (nat, nat) -> nat)
      requires c.Valid() && cache.Valid() && c != cache && c.header == cache.header
      modifies this, c, cache
      ensures c.Valid() && cache.Valid()
      ensures multiset(recycled) + multiset(Chunks(cache.list)) + multiset(Chunks(c.list))
           == multiset(old(recycled)) + multiset(Chunks(old(cache.list))) + multiset(Chunks(old(c.list))) + multiset{chunk}
      ensures c.size <= maxCacheSize || c.list == []
      ensures var grown := old(c.size) + chunk.size + if NeedsBatch(old(c.list)) then c.header else 0;
        if grown <= maxCacheSize then
          c.list == Enqueued(old(c.list), chunk, addr, c.header) && cache.list == old(cache.list) && recycled == old(recycled)
        else
          && c.list == []
          && var all := old(cache.list) + Enqueued(old(c.list), chunk, addr, c.header);
             if free && old(cache.size) + grown > maxSize then RecycledTo(all, old(cache.size) + grown, c.header, cache.list, minSize)
             else cache.list == all && recycled == old(recycled)
    {
      hide Chunks, SizeOf, AllOk, RecycledTo, Suffix, Enqueued, MergeDue;
      ghost var waiting := Chunks(c.list);
      c.Enqueue(chunk, addr);
      NoChunks();
      assert multiset(Chunks(c.list)) == multiset(waiting) + multiset{chunk};
      if c.size > maxCacheSize {
        Drain(c, free, random);
      }
    }

    /** drain: moves all batches of a thread to the end of the global list, and
        recycles if that has grown too large. */
    method Drain(c: QuarantineCache, free: bool, random: (nat, nat) -> nat)
      requires c.Valid() && cache.Valid() && c != cache && c.header == cache.header
      modifies this, c, cache
      ensures c.Valid() && cache.Valid() && c.list == []
      ensures multiset(recycled) + multiset(Chunks(cache.list))
           == multiset(old(recycled)) + multiset(Chunks(old(cache.list))) + multiset(Chunks(old(c.list)))
      ensures Suffix(Chunks(cache.list), Chunks(old(cache.list)) + Chunks(old(c.list)))
      ensures free ==> cache.size <= if minSize <= maxSize then maxSize else minSize
      ensures var all, size := old(cache.list) + old(c.list), old(cache.size) + old(c.size);
        if free && size > maxSize then RecycledTo(all, size, cache.header, cache.list, minSize) && cache.size <= minSize
        else cache.list == all && recycled == old(recycled)
    {
      hide Chunks;
      cache.Transfer(c);
      if cache.size > maxSize && free {
        Recycle(minSize, random);
      }
    }

    /** drainAndRecycle: afterwards the global quarantine counts no bytes. Since a batch
        itself counts for some, it is empty and everything in it was recycled. */
    method DrainAndRecycle(c: QuarantineCache, random: (nat, nat) -> nat)
      requires c.Valid() && cache.Valid() && c != cache && c.header == cache.header
      modifies this, c, cache
      ensures c.Valid() && cache.Valid() && c.list == [] && cache.size == 0
      ensures RecycledTo(old(cache.list) + old(c.list), old(cache.size) + old(c.size), cache.header, cache.list, 0)
      ensures multiset(recycled) + multiset(Chunks(cache.list))
           == multiset(old(recycled)) + multiset(Chunks(old(cache.list))) + multiset(Chunks(old(c.list)))
      ensures cache.header > 0 ==>
        && cache.list == []
        && multiset(recycled) == multiset(old(recycled)) + multiset(Chunks(old(cache.list))) + multiset(Chunks(old(c.list)))
    {
      hide Chunks, SizeOf, AllOk, RecycledTo, Suffix;
      cache.Transfer(c);
      Recycle(0, random);
      if cache.header > 0 {
        NoBytesNoBatch(cache.list, cache.header);
      }
      NoChunks();
    }

    static lemma NoBytesNoBatch(list: seq<Batch>, header: nat)
      requires AllOk(list, header) && header > 0 && SizeOf(list) <= 0
      ensures list == []
    {
    }

    /** recycle: takes batches out, oldest first, until at most `minSize` is left.
        What is left is the newest part of what was there. */
    method Recycle(minSize: nat, random: (nat, nat) -> nat)
      requires cache.Valid()
      modifies this, cache
      ensures cache.Valid() && cache.size <= minSize
      ensures multiset(recycled) + multiset(Chunks(cache.list)) == multiset(old(recycled)) + multiset(Chunks(old(cache.list)))
      ensures Suffix(Chunks(cache.list), Chunks(old(cache.list)))
      ensures RecycledTo(old(cache.list), old(cache.size), cache.header, cache.list, minSize)
      ensures old(cache.size) <= minSize ==> Chunks(cache.list) == Chunks(old(cache.list)) && multiset(recycled) == multiset(old(recycled))
    {
      hide Chunks, SizeOf, AllOk, Suffix;
      var tmp := new QuarantineCache(cache.header);
      ghost var before := Chunks(cache.list);
      ghost var merged, taken := TakeOldest(tmp, minSize);
      assert RecycledTo(old(cache.list), old(cache.size), cache.header, cache.list, minSize);
      LongestSuffix(merged, taken, cache.list, minSize, 0);
      NoChunks();
      SplitMultiset(before, Chunks(tmp.list), Chunks(cache.list));
      DoRecycle(tmp, random);
    }

    /** The locked part of recycle: merges batches if they take too much room themselves,
        and takes the oldest ones out, `taken`, but no more than are needed. */
    method TakeOldest(tmp: QuarantineCache, minSize: nat) returns (ghost merged: seq<Batch>, ghost taken: seq<Batch>)
      requires cache.Valid() && tmp.Valid() && tmp != cache && tmp.header == cache.header && tmp.list == []
      modifies cache, tmp
      ensures cache.Valid() && tmp.Valid()
      ensures Chunks(merged) == Chunks(old(cache.list)) && SizeOf(merged) <= SizeOf(old(cache.list))
      ensures if MergeDue(|old(cache.list)|, old(cache.size), cache.header) then NoneMerge(merged) else merged == old(cache.list)
      ensures FewestTaken(merged, taken, cache.list, minSize) && Chunks(tmp.list) == Chunks(taken)
      ensures Chunks(old(cache.list)) == Chunks(tmp.list) + Chunks(cache.list)
      ensures forall i :: 0 <= i < |taken| ==> taken[i] in tmp.list
    {
      NoChunks();
      hide Chunks, SizeOf;
      var overhead := |cache.list| * cache.header;
      if cache.size > overhead && overhead * 200 > cache.size * 100 {
        cache.MergeBatches(tmp);
      }
      merged := cache.list;
      taken := ExtractTo(tmp, minSize);
      ListConcat(taken, cache.list);
    }

    /** The batches themselves take more than half of the room, and there is something
        in them. */
    static predicate MergeDue(batches: nat, size: int, header: nat) {
      batches * header < size < 2 * (batches * header)
    }

    /** What recycling down to `minSize` leaves of a list: batches are merged first if they
        take too much room, and then no more of the oldest leave than need to. */
    static ghost predicate RecycledTo(list: seq<Batch>, size: int, header: nat, rest: seq<Batch>, minSize: nat) {
      exists merged, taken ::
        && FewestTaken(merged, taken, rest, minSize) && Chunks(merged) == Chunks(list) && SizeOf(merged) <= SizeOf(list)
        && if MergeDue(|list|, size, header) then NoneMerge(merged) else merged == list
    }

    static lemma NoChunks()
      ensures Chunks([]) == [] && SizeOf([]) == 0
    {
    }

    static lemma SplitMultiset(all: seq<Chunk>, x: seq<Chunk>, y: seq<Chunk>)
      requires all == x + y
      ensures multiset(all) == multiset(x) + multiset(y) && Suffix(y, all)
    {
      assert all[|x|..] == y;
    }

    /** Takes the oldest batches out until the size fits. Since the size is the sum
        over the batches, the list cannot run empty before. */
    method ExtractTo(tmp: QuarantineCache, minSize: nat) returns (ghost taken: seq<Batch>)
      requires cache.Valid() && tmp.Valid() && tmp != cache && tmp.header == cache.header
      modifies cache, tmp
      ensures cache.Valid() && tmp.Valid()
      ensures tmp.list == old(tmp.list) + taken && Chunks(tmp.list) == Chunks(old(tmp.list)) + Chunks(taken)
      ensures FewestTaken(old(cache.list), taken, cache.list, minSize)
    {
      hide Chunks, SizeOf, AllOk;
      ghost var all := cache.list;
      taken := [];
      NoChunks();
      assert all == [] + all;
      while cache.size > minSize
        invariant cache.Valid() && tmp.Valid() && tmp.header == cache.header
        invariant all == taken + cache.list && tmp.list == old(tmp.list) + taken
        invariant Chunks(tmp.list) == Chunks(old(tmp.list)) + Chunks(taken)
        invariant taken != [] ==> cache.size + taken[|taken| - 1].size > minSize
        decreases |cache.list|
      {
        SizeOfNone(cache.list);
        var b := cache.DequeueBatch();
        tmp.EnqueueBatch(b);
        ListConcat(taken, [b]);
        ListSingle(b);
        assert all == (taken + [b]) + cache.list;
        taken := taken + [b];
      }
    }

    static lemma SizeOfNone(list: seq<Batch>)
      ensures SizeOf(list) > 0 ==> list != []
    {
    }

    /** doRecycle: every chunk of every batch is handed back once, in a random order
        within its batch, and then the batch itself is freed. */
    method DoRecycle(c: QuarantineCache, random: (nat, nat) -> nat)
      requires c.Valid()
      modifies this, c
      ensures c.Valid() && c.list == []
      ensures multiset(recycled) == multiset(old(recycled)) + multiset(Chunks(old(c.list)))
      ensures deallocated == old(deallocated) + Addresses(old(c.list))
      ensures recycled == old(recycled) + InRandomOrder(old(c.list), random)
    {
      hide Chunks, QuarantineCache.Valid, Shuffled, InRandomOrder, Addresses;
      OrderSteps([], random);
      ghost var all := c.list;
      NoChunks();
      assert all[|all|..] == [] && all[0..] == all;
      ghost var k := 0;
      while c.list != []
        invariant c.Valid() && k <= |all| && c.list == all[k..]
        invariant multiset(recycled) + multiset(Chunks(c.list)) == multiset(old(recycled)) + multiset(Chunks(all))
        invariant deallocated + Addresses(c.list) == old(deallocated) + Addresses(all)
        invariant recycled + InRandomOrder(c.list, random) == old(recycled) + InRandomOrder(all, random)
        decreases |c.list|
      {
        OrderSteps(c.list, random);
        RecycleBatch(c, random);
        k := k + 1;
      }
    }

    static lemma OrderSteps(list: seq<Batch>, random: (nat, nat) -> nat)
      ensures InRandomOrder([], random) == [] && Addresses([]) == []
      ensures list != [] ==>
        && InRandomOrder(list, random)
           == Shuffled(list[0].chunks, |list[0].chunks|, Drawn(random, list[0].addr)) + InRandomOrder(list[1..], random)
        && Addresses(list) == [list[0].addr] + Addresses(list[1..])
    {
    }

    method RecycleBatch(c: QuarantineCache, random: (nat, nat) -> nat)
      requires c.Valid() && c.list != []
      modifies this`recycled, this`deallocated, c
      ensures c.Valid() && c.list == old(c.list)[1..]
      ensures Chunks(old(c.list)) == old(c.list)[0].chunks + Chunks(c.list)
      ensures multiset(recycled) == multiset(old(recycled)) + multiset(old(c.list)[0].chunks)
      ensures var b := old(c.list)[0]; recycled == old(recycled) + Shuffled(b.chunks, |b.chunks|, Drawn(random, b.addr))
      ensures deallocated == old(deallocated) + [old(c.list)[0].addr]
    {
      hide Chunks, SizeOf;
      var b := c.DequeueBatch();
      var chunks := Shuffle(b.chunks, Drawn(random, b.addr));
      recycled := recycled + chunks;
      deallocated := deallocated + [b.addr];
    }

    /** shuffle of a batch. */
    method Shuffle(chunks: seq<Chunk>, random: nat -> nat) returns (result: seq<Chunk>)
      ensures result == Shuffled(chunks, |chunks|, random) && multiset(result) == multiset(chunks)
    {
      ShuffledSame(chunks, |chunks|, random);
      result := chunks;
      if |chunks| > 1 {
        var i := |chunks| - 1;
        while i > 0
          invariant 0 <= i < |result| == |chunks| && Shuffled(result, i + 1, random) == Shuffled(chunks, |chunks|, random)
        {
          var k := random(i) % (i + 1);
          result := result[i := result[k]][k := result[i]];
          i := i - 1;
        }
      }
    }
  }

  function Addresses(list: seq<Batch>): seq<nat> {
    seq(|list|, i requires 0 <= i < |list| => list[i].addr)
  }

  ghost predicate Suffix(x: seq<Chunk>, y: seq<Chunk>) {
    |x| <= |y| && x == y[|y| - |x|..]
  }
}
