/** Integer arithmetic of common.h: division facts, powers of two, bit masks on
    unsigned 64-bit words, and the two families of rounding functions. */
module Common {

  datatype Option<T> = None | Some(value: T)

  // ---- Division ---------------------------------------------------------

  lemma DivBounds(a: int, b: int)
    requires b > 0
    ensures a / b * b <= a < (a / b + 1) * b
  {
  }

  lemma DivUnique(a: int, b: int, q: int)
    requires b > 0
    requires q * b <= a < (q + 1) * b
    ensures a / b == q
  {
    DivBounds(a, b);
    if a / b < q {
      MulMono(a / b + 1, q, b);
    } else if a / b > q {
      MulMono(q + 1, a / b, b);
    }
  }

  lemma MulMono(x: int, y: int, b: int)
    requires x <= y && b >= 0
    ensures x * b <= y * b
  {
  }

  lemma {:induction false} DivLess(a: nat, b: nat, q: nat)
    requires b > 0
    ensures a < q * b <==> a / b < q
  {
    DivBounds(a, b);
    if a / b < q {
      MulMono(a / b + 1, q, b);
    } else {
      MulMono(q, a / b, b);
    }
  }

  lemma DivMono(a: int, c: int, b: int)
    requires b > 0 && a <= c
    ensures a / b <= c / b
  {
    DivBounds(a, b);
    DivBounds(c, b);
    if a / b > c / b {
      MulMono(c / b + 1, a / b, b);
    }
  }

  lemma ModUnique(a: int, b: int, q: int, r: int)
    requires 0 <= r < b && a == q * b + r
    ensures a % b == r && a / b == q
  {
    DivUnique(a, b, q);
  }

  lemma {:induction false} QuotientAtMost(a: nat, b: nat)
    requires b > 0
    ensures a / b <= a
  {
    var q := a / b;
    DivBounds(a, b);
    MulMono(1, b, q);
    assert q * b == b * q;
  }

  /** Adding whole multiples of the divisor moves the quotient and keeps the remainder. */
  lemma DivAddMul(a: int, k: int, b: int)
    requires b > 0
    ensures (a + k * b) / b == a / b + k
    ensures (a + k * b) % b == a % b
  {
    DivBounds(a, b);
    DivUnique(a + k * b, b, a / b + k);
  }

  lemma DivDiv(a: nat, b: nat, c: nat)
    requires b > 0 && c > 0
    ensures b * c > 0
    ensures a / b / c == a / (b * c)
  {
    var q := a / b / c;
    DivBounds(a, b);
    DivBounds(a / b, c);
    calc {
      q * (b * c);
      (q * c) * b;
      <= { MulMono(q * c, a / b, b); }
      a / b * b;
      <=
      a;
    }
    calc {
      a;
      <
      (a / b + 1) * b;
      <= { MulMono(a / b + 1, (q + 1) * c, b); }
      (q + 1) * c * b;
      (q + 1) * (b * c);
    }
    DivUnique(a, b * c, q);
  }

  /** A quotient and a small remainder are determined by the number they make up. */
  lemma MixedRadix(r: int, a: int, q: int, b: int, s: int)
    requires 0 <= a < s && 0 <= b < s
    requires r * s + a == q * s + b
    ensures r == q && a == b
  {
    if r < q {
      MulMono(r + 1, q, s);
    } else if q < r {
      MulMono(q + 1, r, s);
    }
  }

  function Min(a: int, b: int): int { if a < b then a else b }

  function Max(a: int, b: int): int { if a > b then a else b }

  function CeilDiv(a: nat, b: nat): nat
    requires b > 0
  {
    (a + b - 1) / b
  }

  /** `CeilDiv` is the least quotient whose multiple reaches `a`. */
  lemma CeilDivLeast(a: nat, b: nat, q: nat)
    requires b > 0
    ensures a <= CeilDiv(a, b) * b < a + b
    ensures a <= q * b <==> CeilDiv(a, b) <= q
  {
    DivBounds(a + b - 1, b);
    var c := CeilDiv(a, b);
    if c <= q {
      MulMono(c, q, b);
    } else {
      MulMono(q + 1, c, b);
    }
  }

  lemma {:induction false} CeilDivShift(x: nat, b: nat, k: nat)
    requires b > 0 && k * b <= x
    ensures CeilDiv(x - k * b, b) == CeilDiv(x, b) - k
  {
    DivAddMul(x - k * b + b - 1, k, b);
  }

  // ---- Powers of two ----------------------------------------------------

  function Pow2(n: nat): (r: nat)
    ensures r > 0
  {
    if n == 0 then 1 else 2 * Pow2(n - 1)
  }

  lemma {:induction false} Pow2Add(m: nat, n: nat)
    ensures Pow2(m + n) == Pow2(m) * Pow2(n)
  {
    if m > 0 {
      Pow2Add(m - 1, n);
    }
  }

  lemma {:induction false} Pow2Mono(m: nat, n: nat)
    requires m <= n
    ensures Pow2(m) <= Pow2(n)
    ensures m < n ==> Pow2(m) < Pow2(n)
  {
    Pow2Add(m, n - m);
    var d := n - m;
    if d > 0 {
      assert Pow2(d) == 2 * Pow2(d - 1);
      MulMono(2, Pow2(d), Pow2(m));
    }
  }

  ghost predicate IsPowerOfTwo(x: nat) {
    exists n: nat :: x == Pow2(n)
  }

  /** getMostSignificantSetBitIndex. */
  function Log2(x: nat): (r: nat)
    requires x > 0
    ensures Pow2(r) <= x < Pow2(r + 1)
  {
    if x == 1 then 0 else 1 + Log2(x / 2)
  }

  lemma Log2Unique(x: nat, n: nat)
    requires x > 0
    requires Pow2(n) <= x < Pow2(n + 1)
    ensures Log2(x) == n
  {
    var l := Log2(x);
    if l < n {
      Pow2Mono(l + 1, n);
    } else if n < l {
      Pow2Mono(n + 1, l);
    }
  }

  lemma Log2OfPow2(n: nat)
    ensures Log2(Pow2(n)) == n
  {
    Log2Unique(Pow2(n), n);
  }

  function RoundUpPowerOfTwo(size: nat): nat
    requires size > 0
  {
    if Pow2(Log2(size)) == size then size else Pow2(Log2(size) + 1)
  }

  /** roundUpPowerOfTwo returns the least power of two that is not below its argument. */
  lemma RoundUpPowerOfTwoIsLeast(size: nat, n: nat)
    requires size > 0
    ensures size <= RoundUpPowerOfTwo(size)
    ensures IsPowerOfTwo(RoundUpPowerOfTwo(size))
    ensures size <= Pow2(n) ==> RoundUpPowerOfTwo(size) <= Pow2(n)
  {
    var l := Log2(size);
    assert RoundUpPowerOfTwo(size) == Pow2(l) || RoundUpPowerOfTwo(size) == Pow2(l + 1);
    if size <= Pow2(n) {
      if n < l {
        Pow2Mono(n, l);
      } else if n > l {
        Pow2Mono(l + 1, n);
      }
    }
  }

  ghost predicate NoDuplicates(s: seq<nat>) {
    forall i, j :: 0 <= i < j < |s| ==> s[i] != s[j]
  }
}
