/** The logarithmic grid behind the size classes of size_class_map.h: between two
    powers of two lie `2^s` equally spaced sizes. */
module SizeGrid {
  import opened Common
  import opened Bits

  function OctaveOf(j: nat, s: nat): nat {
    hide Pow2;
    j / Pow2(s)
  }

  function StepOf(j: nat, s: nat): nat {
    hide Pow2;
    j % Pow2(s)
  }

  /** The `j`-th size of the grid that starts at `2^z`. */
  function Grid(z: nat, s: nat, j: nat): (g: nat)
    requires s <= z
  {
    Product(Pow2(z - s + OctaveOf(j, s)), Pow2(s) + StepOf(j, s))
  }

  function Product(x: nat, y: nat): nat {
    x * y
  }

  lemma OctaveAndStep(j: nat, s: nat)
    ensures j == OctaveOf(j, s) * Pow2(s) + StepOf(j, s) && StepOf(j, s) < Pow2(s)
  {
    hide Pow2;
    DivBounds(j, Pow2(s));
  }

  function ScaledLog2(size: nat, z: nat, s: nat): int
    requires s <= z && Pow2(z) <= size
  {
    var l := Log2(size);
    LogAtLeast(size, z);
    var lBits := Shr(size, l - s) - Pow2(s);
    var hBits := Shl(l - z, s);
    lBits + hBits
  }

  lemma {:induction false} LogAtLeast(size: nat, z: nat)
    requires Pow2(z) <= size
    ensures Log2(size) >= z
  {
    if Log2(size) < z {
      Pow2Mono(Log2(size) + 1, z);
    }
  }

  lemma {:induction false} GridAt(z: nat, s: nat, k: nat, r: nat)
    requires s <= z && r < Pow2(s)
    ensures OctaveOf(k * Pow2(s) + r, s) == k && StepOf(k * Pow2(s) + r, s) == r
    ensures Grid(z, s, k * Pow2(s) + r) == Product(Pow2(z - s + k), Pow2(s) + r)
  {
    hide Pow2, Product;
    ModUnique(k * Pow2(s) + r, Pow2(s), k, r);
  }

  /** The grid point after `r` steps in the `k`-th octave. */
  lemma {:induction false} GridNext(z: nat, s: nat, k: nat, r: nat)
    requires s <= z && r < Pow2(s)
    ensures Grid(z, s, k * Pow2(s) + r + 1) == Product(Pow2(z - s + k), Pow2(s) + r + 1)
  {
    var u, b := Pow2(z - s + k), Pow2(s);
    assert Pow2(z - s + (k + 1)) == 2 * u;
    hide Pow2, Grid, OctaveOf, StepOf;
    if r + 1 < b {
      GridAt(z, s, k, r + 1);
    } else {
      GridAt(z, s, k + 1, 0);
      NextOctave(k, u, b);
    }
  }

  lemma NextOctave(k: nat, u: nat, b: nat)
    ensures (k + 1) * b == k * b + b && Product(2 * u, b) == Product(u, b + b)
  {
  }

  lemma {:induction false} GridStep(z: nat, s: nat, j: nat)
    requires s <= z
    ensures Grid(z, s, j) < Grid(z, s, j + 1)
    ensures Grid(z, s, j + 1) - Grid(z, s, j) == Pow2(z - s + OctaveOf(j, s))
  {
    hide Pow2, Grid, OctaveOf, StepOf, Product;
    var k, r := OctaveOf(j, s), StepOf(j, s);
    OctaveAndStep(j, s);
    GridAt(z, s, k, r);
    GridNext(z, s, k, r);
    OneMore(Pow2(z - s + k), Pow2(s) + r);
  }

  lemma OneMore(u: nat, x: nat)
    ensures Product(u, x + 1) - Product(u, x) == u
  {
  }

  lemma {:induction false} GridMono(z: nat, s: nat, i: nat, j: nat)
    requires s <= z && i <= j
    ensures Grid(z, s, i) <= Grid(z, s, j) && (i < j ==> Grid(z, s, i) < Grid(z, s, j))
    decreases j - i
  {
    hide Grid;
    if i < j {
      GridMono(z, s, i, j - 1);
      GridStep(z, s, j - 1);
    }
  }

  /** scaledLog2 finds the last grid point that is not above its argument. */
  lemma {:induction false} ScaledLog2Bracket(size: nat, z: nat, s: nat)
    requires s <= z && Pow2(z) <= size
    ensures var j := ScaledLog2(size, z, s);
      j >= 0 && Grid(z, s, j) <= size < Grid(z, s, j + 1)
  {
    hide Pow2, Grid, Shr, Shl, Log2, Product;
    LogAtLeast(size, z);
    var l := Log2(size);
    var k := l - z;
    ShlIsMul(k, s);
    QuotientInOctave(size, l, s);
    assert z - s + k == l - s;
    GridAt(z, s, k, Shr(size, l - s) - Pow2(s));
    GridNext(z, s, k, Shr(size, l - s) - Pow2(s));
  }

  lemma {:induction false} QuotientInOctave(size: nat, l: nat, s: nat)
    requires s <= l && Pow2(l) <= size < Pow2(l + 1)
    ensures var q := Shr(size, l - s);
      Pow2(s) <= q < 2 * Pow2(s) && Product(Pow2(l - s), q) <= size < Product(Pow2(l - s), q + 1)
  {
    ShrIsDiv(size, l - s);
    Pow2Add(l - s, s);
    Pow2Add(l - s, s + 1);
    assert Pow2(s + 1) == 2 * Pow2(s);
    hide Pow2, Shr;
    Quotient(size, Pow2(l - s), Pow2(s));
  }

  lemma {:induction false} Quotient(x: nat, u: nat, b: nat)
    requires u > 0 && u * b <= x < u * (2 * b)
    ensures b <= x / u < 2 * b && Product(u, x / u) <= x < Product(u, x / u + 1)
  {
    var q := x / u;
    DivBounds(x, u);
    Commute(u, q);
    Commute(u, q + 1);
    Commute(u, b);
    Commute(u, 2 * b);
    if q < b {
      MulMono(q + 1, b, u);
    }
    if q >= 2 * b {
      MulMono(2 * b, q, u);
    }
  }

  lemma Commute(x: int, y: int)
    ensures x * y == y * x
  {
  }

  /** Octaves start at powers of two. */
  lemma {:induction false} GridOctave(z: nat, s: nat, k: nat)
    requires s <= z
    ensures Grid(z, s, k * Pow2(s)) == Pow2(z + k)
  {
    hide Pow2, Grid, OctaveOf, StepOf;
    GridAt(z, s, k, 0);
    Pow2Add(z - s + k, s);
    assert z - s + k + s == z + k;
  }

  /** Only octave starts are powers of two. */
  lemma {:induction false} GridPower(z: nat, s: nat, j: nat)
    requires s <= z
    ensures IsPowerOfTwo(Grid(z, s, j)) <==> StepOf(j, s) == 0
  {
    hide Grid, Pow2, OctaveOf, StepOf;
    var k, r := OctaveOf(j, s), StepOf(j, s);
    OctaveAndStep(j, s);
    GridOctave(z, s, k);
    GridOctave(z, s, k + 1);
    NextOctave(k, 0, Pow2(s));
    if r == 0 {
      assert Grid(z, s, j) == Pow2(z + k);
    } else {
      GridMono(z, s, k * Pow2(s), j);
      GridMono(z, s, j, (k + 1) * Pow2(s));
      forall n: nat ensures Grid(z, s, j) != Pow2(n) {
        BetweenPowers(Grid(z, s, j), z + k, n);
      }
    }
  }

  lemma {:induction false} BetweenPowers(x: nat, m: nat, n: nat)
    requires Pow2(m) < x < Pow2(m + 1)
    ensures x != Pow2(n)
  {
    if n <= m {
      Pow2Mono(n, m);
    } else {
      Pow2Mono(m + 1, n);
    }
  }
}
