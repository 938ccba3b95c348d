/** How a region of primary64.h is cut into blocks and blocks are named by compact
    pointers: no block is cut twice, and a pointer gives back its block. */
module Carving {
  import opened Common
  import opened Bits

  /** The shape of a region; sizes are in bytes. A compact pointer is an offset
      from the start of the region without its low `scale` bits. */
  datatype Layout = Layout(blockSize: nat, scale: nat, regionSize: nat, offset: nat, increment: nat,
                           maxCached: nat, maxBatches: nat)
  {
    ghost predicate Valid() {
      && blockSize > 0 && blockSize % Pow2(scale) == 0
      && increment > 0 && maxCached > 0 && maxBatches > 0
    }

    function Pointer(at: nat): nat {
      Shr(at, scale)
    }

    /** Where the block with index `i` starts. */
    function Start(i: nat): nat {
      i * blockSize
    }

    /** The compact pointers of the blocks with indices from `i` up to `n`. */
    function Blocks(i: nat, n: nat): (s: seq<nat>)
      requires i <= n
      ensures |s| == n - i
    {
      if i == n then [] else Blocks(i, n - 1) + [Pointer(Start(n - 1))]
    }

    lemma BlocksNone(i: nat)
      ensures Blocks(i, i) == []
    {
    }

    lemma BlocksNext(i: nat, n: nat)
      requires i <= n
      ensures Blocks(i, n + 1) == Blocks(i, n) + [Shr(Start(n), scale)]
      ensures Start(n + 1) == Start(n) + blockSize
    {
      hide Shr;
      NextStart(n, blockSize);
    }

    static lemma NextStart(n: int, b: int)
      ensures (n + 1) * b == n * b + b
    {
    }

    lemma {:induction false} BlocksAt(i: nat, n: nat, k: nat)
      requires i <= n && k < n - i
      ensures Blocks(i, n)[k] == Pointer(Start(i + k))
    {
      if k < n - 1 - i {
        BlocksAt(i, n - 1, k);
      }
    }

    lemma {:induction false} BlocksSplit(i: nat, m: nat, n: nat)
      requires i <= m <= n
      ensures Blocks(i, n) == Blocks(i, m) + Blocks(m, n)
    {
      if m < n {
        BlocksSplit(i, m, n - 1);
      }
    }

    /** decompactPtrInternal undoes compactPtrInternal on block starts. */
    lemma {:induction false} PointerRoundTrip(i: nat)
      requires Valid()
      ensures Shl(Pointer(Start(i)), scale) == Start(i)
    {
      ClearLow(Start(i), scale);
      hide Pow2, Shl, Shr;
      WholeUnits(i, blockSize, Pow2(scale));
    }

    static lemma {:induction false} WholeUnits(i: nat, b: nat, p: nat)
      requires p > 0 && b % p == 0
      ensures i * b / p * p == i * b
    {
      DivBounds(b, p);
      MulAssoc(i, b / p, p);
      ModUnique(i * b, p, i * (b / p), 0);
    }

    static lemma MulAssoc(x: int, y: int, z: int)
      ensures x * (y * z) == x * y * z
    {
    }

    static lemma MulLess(x: int, y: int, b: int)
      requires x < y && b > 0
      ensures x * b < y * b
    {
      MulMono(x + 1, y, b);
    }

    /** Different blocks have different compact pointers. */
    lemma {:induction false} PointersDiffer(i: nat, k: nat)
      requires Valid() && i != k
      ensures Pointer(Start(i)) != Pointer(Start(k))
    {
      PointerRoundTrip(i);
      PointerRoundTrip(k);
      if i < k {
        MulLess(i, k, blockSize);
      } else {
        MulLess(k, i, blockSize);
      }
    }

    /** No block is carved twice. */
    lemma {:induction false} BlocksDistinct(n: nat, x: nat, y: nat)
      requires Valid() && x < y < n
      ensures Blocks(0, n)[x] != Blocks(0, n)[y]
    {
      BlocksAt(0, n, x);
      BlocksAt(0, n, y);
      PointersDiffer(x, y);
    }

    lemma StartSum(i: nat, n: nat)
      ensures Start(i + n) == Start(i) + blockSize * n
    {
    }

    /** How much memory populateFreeListAndPopBlocks asks the system for, when
        `mapped` bytes are mapped and `used` of them are cut up. */
    function MapSize(used: nat, mapped: nat): nat
      requires Valid()
    {
      var total := used + maxCached * blockSize;
      if total <= mapped then 0 else CeilDiv(total - mapped, increment) * increment
    }

    /** How many blocks it then cuts. */
    function BlocksToCut(used: nat, mapped: nat): nat
      requires Valid() && used <= mapped
    {
      Min(maxBatches * maxCached, (mapped - used) / blockSize)
    }

    /** What is mapped is the least multiple of the increment that gives room for
        `maxCached` more blocks. */
    lemma {:induction false} MapSizeLeast(used: nat, mapped: nat, k: nat)
      requires Valid()
      ensures MapSize(used, mapped) % increment == 0
      ensures used + maxCached * blockSize <= mapped + k * increment <==> MapSize(used, mapped) <= k * increment
    {
      var lack := used + maxCached * blockSize - mapped;
      if lack > 0 {
        LeastMultiple(lack, increment, k);
      }
    }

    static lemma {:induction false} LeastMultiple(x: nat, a: nat, k: nat)
      requires a > 0
      ensures CeilDiv(x, a) * a % a == 0 && (x <= k * a <==> CeilDiv(x, a) * a <= k * a)
    {
      CeilDivLeast(x, a, k);
      ModUnique(CeilDiv(x, a) * a, a, CeilDiv(x, a), 0);
      if CeilDiv(x, a) <= k {
        MulMono(CeilDiv(x, a), k, a);
      }
    }

    /** As many blocks are cut as fit, up to the limit. */
    lemma {:induction false} CutsAllThatFit(used: nat, mapped: nat, n: nat)
      requires Valid() && used <= mapped
      ensures n <= BlocksToCut(used, mapped) <==> n <= maxBatches * maxCached && used + n * blockSize <= mapped
    {
      var room := mapped - used;
      DivBounds(room, blockSize);
      DivLess(room, blockSize, n);
    }

    /** After mapping, at least one block can be cut, and the blocks fit. */
    lemma {:induction false} SomeBlocksFit(used: nat, mapped: nat)
      requires Valid() && used <= mapped
      ensures var n := BlocksToCut(used, mapped + MapSize(used, mapped));
        1 <= n <= maxBatches * maxCached && used + blockSize * n <= mapped + MapSize(used, mapped)
    {
      var mapSize := MapSize(used, mapped);
      var room := mapped + mapSize - used;
      if mapSize > 0 || used + maxCached * blockSize > mapped {
        CeilDivLeast(used + maxCached * blockSize - mapped, increment, 0);
      }
      assert room >= maxCached * blockSize;
      DivBounds(room, blockSize);
      if room / blockSize < maxCached {
        MulMono(room / blockSize + 1, maxCached, blockSize);
      }
      Positive(maxBatches, maxCached);
      MulMono(BlocksToCut(used, mapped + mapSize), room / blockSize, blockSize);
    }

    static lemma Positive(x: nat, y: nat)
      requires x > 0 && y > 0
      ensures x * y > 0
    {
    }
  }
}
