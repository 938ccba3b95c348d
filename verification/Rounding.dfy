/** Rounding to multiples and alignment, as common.h has them in their division forms.
    For powers of two the mask forms agree, see `Bits`. */
module Rounding {
  import opened Common

  function RoundUp(x: nat, a: nat): nat
    requires a > 0
  {
    CeilDiv(x, a) * a
  }

  function RoundDown(x: nat, a: nat): nat
    requires a > 0
  {
    x / a * a
  }

  /** isAligned */
  predicate Aligned(x: nat, a: nat)
    requires a > 0
  {
    x % a == 0
  }

  lemma {:induction false} RoundUpFacts(x: nat, a: nat)
    requires a > 0
    ensures x <= RoundUp(x, a) < x + a && Aligned(RoundUp(x, a), a)
    ensures forall y: nat :: Aligned(y, a) && x <= y ==> RoundUp(x, a) <= y
  {
    CeilDivLeast(x, a, 0);
    ModUnique(RoundUp(x, a), a, CeilDiv(x, a), 0);
    hide CeilDiv, Aligned;
    forall y: nat | Aligned(y, a) && x <= y ensures RoundUp(x, a) <= y {
      RoundUpLeast(x, y, a);
    }
  }

  lemma {:induction false} RoundUpLeast(x: nat, y: nat, a: nat)
    requires a > 0 && Aligned(y, a) && x <= y
    ensures RoundUp(x, a) <= y
  {
    hide CeilDiv;
    Exact(y, a);
    CeilDivLeast(x, a, y / a);
    MulMono(CeilDiv(x, a), y / a, a);
  }

  lemma {:induction false} RoundDownFacts(x: nat, a: nat)
    requires a > 0
    ensures RoundDown(x, a) <= x < RoundDown(x, a) + a && Aligned(RoundDown(x, a), a)
    ensures forall y: nat :: Aligned(y, a) && y <= x ==> y <= RoundDown(x, a)
  {
    DivBounds(x, a);
    ModUnique(RoundDown(x, a), a, x / a, 0);
    forall y: nat | Aligned(y, a) && y <= x ensures y <= RoundDown(x, a) {
      DivBounds(y, a);
      DivMono(y, x, a);
      MulMono(y / a, x / a, a);
    }
  }

  lemma Exact(x: nat, a: nat)
    requires a > 0 && Aligned(x, a)
    ensures x == x / a * a
  {
    DivBounds(x, a);
  }

  lemma Scale(x: int, y: int, a: int)
    ensures (x + y) * a == x * a + y * a && (x - y) * a == x * a - y * a
  {
  }

  /** Sums and differences of multiples are multiples. */
  lemma {:induction false} Multiples(x: nat, y: nat, a: nat)
    requires a > 0 && Aligned(x, a) && Aligned(y, a)
    ensures Aligned(x + y, a) && (y <= x ==> Aligned(x - y, a))
    ensures y < x ==> y + a <= x
  {
    var i, j := x / a, y / a;
    Exact(x, a);
    Exact(y, a);
    Scale(i, j, a);
    ModUnique(x + y, a, i + j, 0);
    if y <= x {
      ModUnique(x - y, a, i - j, 0);
    }
    if y < x {
      Scale(j, 1, a);
      NextMultiple(i, j, a);
    }
  }

  lemma ZeroAndOne(a: nat)
    requires a > 0
    ensures Aligned(0, a) && Aligned(a, a)
  {
  }

  lemma NextMultiple(i: int, j: int, a: int)
    requires a > 0 && j * a < i * a
    ensures (j + 1) * a <= i * a
  {
    if i <= j {
      MulMono(i, j, a);
    } else {
      MulMono(j + 1, i, a);
    }
  }

  lemma {:induction false} MultipleOfMultiple(x: nat, p: nat, a: nat)
    requires a > 0 && p > 0 && Aligned(p, a) && Aligned(x, p)
    ensures Aligned(x, a)
  {
    Exact(x, p);
    Exact(p, a);
    Regroup(x / p, p / a, a);
    ModUnique(x, a, x / p * (p / a), 0);
  }

  lemma Regroup(x: int, y: int, z: int)
    ensures x * (y * z) == x * y * z
  {
  }
}
