/** Blocks of one size laid end to end ("tiles") over pages of another size.
    Tile `k` covers bytes `[k*b, (k+1)*b)`, page `j` covers `[j*p, (j+1)*p)`. */
module Tiles {
  import opened Common

  ghost predicate Overlaps(p: nat, b: nat, k: nat, j: nat) {
    k * b < (j + 1) * p && j * p < (k + 1) * b
  }

  function FirstTile(p: nat, b: nat, j: nat): nat
    requires b > 0
  {
    j * p / b
  }

  function EndTile(p: nat, b: nat, j: nat): nat
    requires b > 0
  {
    CeilDiv((j + 1) * p, b)
  }

  function Interval(lo: nat, hi: int): (s: set<nat>)
    ensures forall k: nat :: k in s <==> lo <= k < hi
    ensures |s| == if lo <= hi then hi - lo else 0
    decreases hi - lo
  {
    if hi <= lo then {} else Interval(lo, hi - 1) + {hi - 1}
  }

  function TilesOn(p: nat, b: nat, j: nat): set<nat>
    requires b > 0
  {
    Interval(FirstTile(p, b, j), EndTile(p, b, j))
  }

  function TileCount(p: nat, b: nat, j: nat): int
    requires b > 0
  {
    EndTile(p, b, j) - FirstTile(p, b, j)
  }

  /** `TilesOn` is exactly the set of tiles that share a byte with the page. */
  lemma {:induction false} TilesOnOverlap(p: nat, b: nat, k: nat, j: nat)
    requires b > 0
    ensures k in TilesOn(p, b, j) <==> Overlaps(p, b, k, j)
  {
    CeilDivLeast((j + 1) * p, b, k);
    DivLess(j * p, b, k + 1);
  }

  /** The page range computed from a block's first and last byte is exactly the
      set of pages that the block overlaps. */
  lemma {:induction false} PagesOfTile(p: nat, b: nat, k: nat, j: nat)
    requires p > 0 && b > 0
    ensures k in TilesOn(p, b, j) <==> k * b / p <= j <= (k * b + b - 1) / p
  {
    TilesOnOverlap(p, b, k, j);
    DivLess(k * b, p, j + 1);
    DivLess(k * b + b - 1, p, j);
  }

  lemma {:induction false} IntervalMeet(a: nat, b: int, c: nat, d: int)
    ensures Interval(a, b) * Interval(c, d) == Interval(Max(a, c), Min(b, d))
  {
  }

  lemma {:induction false} TileCountPositive(p: nat, b: nat, j: nat)
    requires p > 0 && b > 0
    ensures TileCount(p, b, j) > 0
    ensures |TilesOn(p, b, j)| == TileCount(p, b, j)
  {
    var f := FirstTile(p, b, j);
    DivBounds(j * p, b);
    assert j * p < (j + 1) * p;
    CeilDivLeast((j + 1) * p, b, f);
  }

  // ---- How many tiles touch a page --------------------------------------

  /** The block count that PageReleaseContext expects on a full page, and
      whether every page has that same count. */
  datatype PageCount = PageCount(max: nat, same: bool)

  function ExpectedCount(p: nat, b: nat): PageCount
    requires p > 0 && b > 0
  {
    if b <= p then
      if p % b == 0 then PageCount(p / b, true)
      else if b % (p % b) == 0 then PageCount(p / b + 1, true)
      else PageCount(p / b + 2, false)
    else
      if b % p == 0 then PageCount(1, true)
      else PageCount(2, false)
  }

  lemma {:induction false} EndTileUnique(p: nat, b: nat, j: nat, e: nat)
    requires b > 0
    requires (e - 1) * b < (j + 1) * p <= e * b
    ensures EndTile(p, b, j) == e
  {
    CeilDivLeast((j + 1) * p, b, e);
    if e > 0 {
      CeilDivLeast((j + 1) * p, b, e - 1);
    }
  }

  lemma {:induction false} WholeTilesPerPage(p: nat, b: nat, j: nat)
    requires 0 < b <= p && p % b == 0
    ensures TileCount(p, b, j) == p / b
  {
    var q := p / b;
    assert p == q * b;
    assert j * p == j * q * b;
    DivUnique(j * p, b, j * q);
    assert (j + 1) * p == (j + 1) * q * b;
    assert ((j + 1) * q - 1) * b == (j + 1) * q * b - b;
    EndTileUnique(p, b, j, (j + 1) * q);
    assert (j + 1) * q - j * q == q;
  }

  lemma {:induction false} WholePagesPerTile(p: nat, b: nat, j: nat)
    requires 0 < p < b && b % p == 0
    ensures TileCount(p, b, j) == 1
  {
    var m := b / p;
    assert b == p * m;
    var f := j / m;
    DivDiv(j * p, p, m);
    DivUnique(j * p, p, j);
    DivBounds(j, m);
    MulMono(j + 1, (f + 1) * m, p);
    assert (f + 1) * m * p == (f + 1) * b;
    DivBounds(j * p, b);
    EndTileUnique(p, b, j, f + 1);
  }

  lemma {:induction false} MultiplesGap(r: int, t: int, m: int)
    requires r > 0 && r * t < r * m
    ensures r * t + r <= r * m
  {
    if t >= m {
      MulMono(m, t, r);
    } else {
      MulMono(t + 1, m, r);
    }
  }

  /** Tiles cross page boundaries, yet all pages carry the same number. */
  lemma {:induction false} CrossingTilesPerPage(p: nat, b: nat, j: nat)
    requires 0 < b <= p && p % b != 0 && b % (p % b) == 0
    ensures TileCount(p, b, j) == p / b + 1
  {
    var r, q := p % b, p / b;
    var f := FirstTile(p, b, j);
    DivBounds(j * p, b);
    OffsetIsMultiple(p, b, j, q, r, b / r, f);
    assert (j + 1) * p == j * p + p;
    NextPageEnd(p, b, q, r, f, j * p - f * b);
    EndTileUnique(p, b, j, f + q + 1);
  }

  lemma {:induction false} NextPageEnd(p: int, b: int, q: int, r: int, f: int, s: int)
    requires p == q * b + r
    ensures f * b + s + p == (f + q) * b + (s + r)
    ensures (f + q + 1) * b == (f + q) * b + b
  {
  }

  /** Every page starts at a multiple of `r` into its first tile. */
  lemma {:induction false} OffsetIsMultiple(p: int, b: int, j: int, q: int, r: int, m: int, f: int)
    requires b == r * m && p == q * b + r && r > 0
    requires j * p - f * b < b
    ensures j * p - f * b + r <= b
  {
    CommonFactor(p, b, j, q, r, m, f);
    MultiplesGap(r, j * (q * m + 1) - f * m, m);
  }

  lemma {:induction false} CommonFactor(p: int, b: int, j: int, q: int, r: int, m: int, f: int)
    requires b == r * m && p == q * b + r
    ensures j * p - f * b == r * (j * (q * m + 1) - f * m)
  {
    assert p == r * (q * m + 1);
    assert j * p == r * (j * (q * m + 1));
    assert f * b == r * (f * m);
  }

  /** The count on any page never exceeds `p / b + 2`. */
  lemma {:induction false} TileCountMax(p: nat, b: nat, j: nat)
    requires p > 0 && b > 0
    ensures TileCount(p, b, j) <= p / b + 2
  {
    var f, q := FirstTile(p, b, j), p / b;
    DivBounds(j * p, b);
    DivBounds(p, b);
    assert (j + 1) * p == j * p + p;
    assert (f + q + 2) * b == (f + 1) * b + (q + 1) * b;
    CeilDivLeast((j + 1) * p, b, f + q + 2);
  }

  /** The closed forms: on the constant-count path every page has exactly the
      expected number of tiles, and on every path that number bounds the count. */
  lemma {:induction false} ExpectedCountCorrect(p: nat, b: nat, j: nat)
    requires p > 0 && b > 0
    ensures TileCount(p, b, j) <= ExpectedCount(p, b).max
    ensures ExpectedCount(p, b).same ==> TileCount(p, b, j) == ExpectedCount(p, b).max
  {
    if b <= p {
      if p % b == 0 {
        WholeTilesPerPage(p, b, j);
      } else if b % (p % b) == 0 {
        CrossingTilesPerPage(p, b, j);
      } else {
        TileCountMax(p, b, j);
      }
    } else if b % p == 0 {
      WholePagesPerTile(p, b, j);
    } else {
      TileCountMax(p, b, j);
      DivUnique(p, b, 0);
    }
  }

  // ---- The incremental boundary walk ------------------------------------

  /** One page of the slow path: from the page start `prev` and the first tile
      boundary `current` at or after it, the tile count of the page and the
      first boundary at or after its end. */
  function BoundaryStep(p: nat, b: nat, prev: nat, current: nat): (nat, nat)
    requires b > 0
  {
    var pn := if b < p then p / b else 1;
    var pnc := pn * b;
    var pageBoundary := prev + p;
    if current < pageBoundary then
      var n := if current > prev then pn + 1 else pn;
      if current + pnc < pageBoundary then (n + 1, current + pnc + b) else (n, current + pnc)
    else (pn, current)
  }

  function Boundary(p: nat, b: nat, j: nat): nat
    requires b > 0
  {
    CeilDiv(j * p, b) * b
  }

  function PageStart(p: nat, j: nat): nat {
    j * p
  }

  /** The walk keeps `current` at the page's first tile boundary, and the count it
      adds up is the number of tiles on the page. */
  lemma {:induction false} BoundaryStepCorrect(p: nat, b: nat, j: nat)
    requires p > 0 && b > 0 && b != p
    ensures BoundaryStep(p, b, PageStart(p, j), Boundary(p, b, j)) == (TileCount(p, b, j), Boundary(p, b, j + 1))
  {
    CeilDivLeast(j * p, b, 0);
    StraddlingTile(j * p, b);
    if b < p {
      SmallTileStep(p, b, j, CeilDiv(j * p, b));
    } else {
      LargeTileStep(p, b, j, CeilDiv(j * p, b));
    }
  }

  lemma {:induction false} PageStartNext(p: nat, j: nat)
    ensures PageStart(p, j + 1) == PageStart(p, j) + p
  {
  }

  lemma {:induction false} SmallTileStep(p: nat, b: nat, j: nat, c: nat)
    requires 0 < b < p
    requires j * p <= c * b < j * p + b
    ensures var q := p / b;
      && c * b + q * b == (c + q) * b
      && c * b + q * b + b == (c + q + 1) * b
      && EndTile(p, b, j) == if (c + q) * b < j * p + p then c + q + 1 else c + q
  {
    var q := p / b;
    DivBounds(p, b);
    Distribute(c, q, b);
    assert (j + 1) * p == j * p + p;
    EndTileUnique(p, b, j, if (c + q) * b < j * p + p then c + q + 1 else c + q);
  }

  lemma {:induction false} LargeTileStep(p: nat, b: nat, j: nat, c: nat)
    requires 0 < p < b
    requires j * p <= c * b < j * p + b
    ensures c * b + b == (c + 1) * b >= j * p + p
    ensures EndTile(p, b, j) == if c * b < j * p + p then c + 1 else c
  {
    Distribute(c, 0, b);
    assert (j + 1) * p == j * p + p;
    EndTileUnique(p, b, j, if c * b < j * p + p then c + 1 else c);
  }

  lemma {:induction false} Distribute(c: int, q: int, b: int)
    ensures (c + q) * b == c * b + q * b
    ensures (c + q + 1) * b == c * b + q * b + b
    ensures (c + q - 1) * b == c * b + q * b - b
  {
  }

  /** A tile straddles `x` exactly when `x` is not a tile boundary. */
  lemma {:induction false} StraddlingTile(x: nat, b: nat)
    requires b > 0
    ensures CeilDiv(x, b) == x / b + (if CeilDiv(x, b) * b > x then 1 else 0)
  {
    var f, c := x / b, CeilDiv(x, b);
    DivBounds(x, b);
    CeilDivLeast(x, b, f);
    CeilDivLeast(x, b, f + 1);
    if c < f {
      MulMono(c, f, b);
    }
  }
}
