/** Shifts and bitwise operators on unsigned words, defined one bit at a time on
    naturals, and the mask identities that common.h and release.h rely on. */
module Bits {
  import opened Common

  /** `x << n`, before truncation to the word. */
  function Shl(x: nat, n: nat): (r: nat)
    ensures x <= r
  {
    if n == 0 then x else 2 * Shl(x, n - 1)
  }

  /** `x >> n`. */
  function Shr(x: nat, n: nat): (r: nat)
    ensures r <= x
  {
    if n == 0 then x else Shr(x / 2, n - 1)
  }

  /** The low `n` bits of `x`. */
  function Low(x: nat, n: nat): (r: nat)
    ensures r < Pow2(n)
  {
    if n == 0 then 0 else 2 * Low(x / 2, n - 1) + x % 2
  }

  function BitAnd(x: nat, y: nat): nat {
    if x == 0 || y == 0 then 0
    else 2 * BitAnd(x / 2, y / 2) + (if x % 2 == 1 && y % 2 == 1 then 1 else 0)
  }

  function BitOr(x: nat, y: nat): nat {
    if x == 0 then y
    else if y == 0 then x
    else 2 * BitOr(x / 2, y / 2) + (if x % 2 == 1 || y % 2 == 1 then 1 else 0)
  }

  // ---- Shifts -----------------------------------------------------------

  lemma {:induction false} ShlIsMul(x: nat, n: nat)
    ensures Shl(x, n) == x * Pow2(n)
  {
    if n > 0 {
      ShlIsMul(x, n - 1);
      DoubleMul(x, Pow2(n - 1));
    }
  }

  lemma DoubleMul(x: int, y: int)
    ensures 2 * (x * y) == x * (2 * y)
  {
  }

  lemma {:induction false} ShrIsDiv(x: nat, n: nat)
    ensures Shr(x, n) == x / Pow2(n)
  {
    if n > 0 {
      ShrIsDiv(x / 2, n - 1);
      DivDiv(x, 2, Pow2(n - 1));
    }
  }

  lemma {:induction false} LowIsMod(x: nat, n: nat)
    ensures Low(x, n) == x % Pow2(n)
  {
    Split(x, n);
    ShlIsMul(Shr(x, n), n);
    hide Low, Shr, Shl, Pow2;
    ModUnique(x, Pow2(n), Shr(x, n), Low(x, n));
  }

  /** Every word is its high part shifted back plus its low part. */
  lemma {:induction false} Split(x: nat, n: nat)
    ensures x == Shl(Shr(x, n), n) + Low(x, n)
  {
    if n > 0 {
      Split(x / 2, n - 1);
    }
  }

  /** The converse: a shifted high part and a small low part are read back. */
  lemma {:induction false} Join(hi: nat, lo: nat, n: nat)
    requires lo < Pow2(n)
    ensures Shr(Shl(hi, n) + lo, n) == hi
    ensures Low(Shl(hi, n) + lo, n) == lo
  {
    if n > 0 {
      Join(hi, lo / 2, n - 1);
      assert (Shl(hi, n) + lo) / 2 == Shl(hi, n - 1) + lo / 2;
      assert (Shl(hi, n) + lo) % 2 == lo % 2;
    }
  }

  lemma {:induction false} ShlAdd(x: nat, m: nat, n: nat)
    ensures Shl(x, m + n) == Shl(Shl(x, m), n)
  {
    if n > 0 {
      ShlAdd(x, m, n - 1);
    }
  }

  lemma {:induction false} ShrAdd(x: nat, m: nat, n: nat)
    ensures Shr(x, m + n) == Shr(Shr(x, m), n)
  {
    if m > 0 {
      ShrAdd(x / 2, m - 1, n);
    }
  }

  lemma {:induction false} ShlSum(x: nat, y: nat, n: nat)
    ensures Shl(x + y, n) == Shl(x, n) + Shl(y, n)
  {
    if n > 0 {
      ShlSum(x, y, n - 1);
    }
  }

  lemma {:induction false} ShlBound(x: nat, n: nat, w: nat)
    requires n <= w && x < Pow2(w - n)
    ensures Shl(x, n) + Pow2(n) <= Pow2(w)
  {
    if n > 0 {
      ShlBound(x, n - 1, w - 1);
    }
  }

  lemma {:induction false} ShrBound(x: nat, n: nat, w: nat)
    requires n <= w && x < Pow2(w)
    ensures Shr(x, n) < Pow2(w - n)
  {
    if n > 0 {
      ShrBound(x / 2, n - 1, w - 1);
    }
  }

  // ---- Masks ------------------------------------------------------------

  /** One bit of `&`, with no special case for zero. */
  lemma AndStep(x: nat, y: nat, bit: nat)
    requires bit < 2
    ensures BitAnd(x, 2 * y + bit) == 2 * BitAnd(x / 2, y) + (if x % 2 == 1 then bit else 0)
  {
    assert (2 * y + bit) / 2 == y && (2 * y + bit) % 2 == bit;
    if x > 0 && 2 * y + bit > 0 {
    } else if x == 0 {
    } else {
      assert BitAnd(x / 2, y) == 0;
    }
  }

  /** One bit of `|`, with no special case for zero. */
  lemma OrStep(x: nat, y: nat, bit: nat)
    requires bit < 2
    ensures BitOr(x, 2 * y + bit) == 2 * BitOr(x / 2, y) + (if x % 2 == 1 then 1 else bit)
  {
    assert (2 * y + bit) / 2 == y && (2 * y + bit) % 2 == bit;
    if x == 0 {
    } else if 2 * y + bit == 0 {
      assert BitOr(x / 2, y) == x / 2;
    }
  }

  /** `x & (2^k - 1)` keeps the low `k` bits. */
  lemma {:induction false} AndLowMask(x: nat, k: nat)
    ensures BitAnd(x, Pow2(k) - 1) == Low(x, k)
  {
    if k > 0 {
      AndLowMask(x / 2, k - 1);
      AndStep(x, Pow2(k - 1) - 1, 1);
    }
  }

  lemma {:induction false} LowIsAll(x: nat, w: nat)
    requires x < Pow2(w)
    ensures Low(x, w) == x
  {
    if w > 0 {
      LowIsAll(x / 2, w - 1);
    }
  }

  /** `x & ~(2^k - 1)` on a `w`-bit word clears the low `k` bits. */
  lemma {:induction false} AndHighMask(x: nat, k: nat, w: nat)
    requires k <= w && x < Pow2(w)
    ensures Pow2(w) >= Pow2(k)
    ensures BitAnd(x, Pow2(w) - Pow2(k)) == Shl(Shr(x, k), k)
  {
    Pow2Mono(k, w);
    if k == 0 {
      AndLowMask(x, w);
      LowIsAll(x, w);
    } else {
      AndHighMask(x / 2, k - 1, w - 1);
      AndStep(x, Pow2(w - 1) - Pow2(k - 1), 0);
    }
  }

  lemma {:induction false} AndSelf(x: nat)
    ensures BitAnd(x, x) == x
  {
    if x > 0 {
      AndSelf(x / 2);
    }
  }

  /** isPowerOfTwo: the test `X & (X - 1)` recognises exactly the powers of two. */
  lemma {:induction false} PowerOfTwoTest(x: nat)
    requires x > 0
    ensures BitAnd(x, x - 1) == 0 <==> IsPowerOfTwo(x)
  {
    if x == 1 {
      assert x == Pow2(0);
    } else if x % 2 == 1 {
      AndSelf(x / 2);
      assert (x - 1) / 2 == x / 2;
      forall n: nat ensures x != Pow2(n) {
        assert n > 0 ==> Pow2(n) % 2 == 0;
      }
    } else {
      PowerOfTwoTest(x / 2);
      assert (x - 1) / 2 == x / 2 - 1;
      if IsPowerOfTwo(x / 2) {
        var n: nat :| x / 2 == Pow2(n);
        assert x == Pow2(n + 1);
      }
      if IsPowerOfTwo(x) {
        var n: nat :| x == Pow2(n);
        assert x / 2 == Pow2(n - 1);
      }
    }
  }

  /** `w | (2^bits - 1)` sets the low field to all ones. */
  lemma {:induction false} OrLowMask(w: nat, bits: nat)
    ensures BitOr(w, Pow2(bits) - 1) == w + (Pow2(bits) - 1 - Low(w, bits))
  {
    if bits > 0 {
      OrLowMask(w / 2, bits - 1);
      OrStep(w, Pow2(bits - 1) - 1, 1);
    }
  }

  /** `w | ((2^bits - 1) << off)` adds to the field at `off` what it lacks. */
  lemma {:induction false} OrFieldMask(w: nat, off: nat, bits: nat)
    ensures BitOr(w, Shl(Pow2(bits) - 1, off))
         == w + Shl(Pow2(bits) - 1 - Low(Shr(w, off), bits), off)
  {
    if off == 0 {
      OrLowMask(w, bits);
    } else {
      OrFieldMask(w / 2, off - 1, bits);
      OrStep(w, Shl(Pow2(bits) - 1, off - 1), 0);
    }
  }

  // ---- Rounding ---------------------------------------------------------

  /** roundUp: the mask form on `w`-bit words. */
  function RoundUpMask(x: nat, boundary: nat, w: nat): nat
    requires 0 < boundary <= Pow2(w)
  {
    BitAnd(x + boundary - 1, Pow2(w) - boundary)
  }

  /** roundDown: the mask form on `w`-bit words. */
  function RoundDownMask(x: nat, boundary: nat, w: nat): nat
    requires 0 < boundary <= Pow2(w)
  {
    BitAnd(x, Pow2(w) - boundary)
  }

  lemma ClearLow(x: nat, k: nat)
    ensures Shl(Shr(x, k), k) == x / Pow2(k) * Pow2(k)
  {
    ShrIsDiv(x, k);
    ShlIsMul(Shr(x, k), k);
  }

  /** Below wrap-around the mask forms of roundUp and roundDown agree with the
      division forms roundUpSlow and roundDownSlow. */
  lemma MaskRoundingIsSlowRounding(x: nat, k: nat, w: nat)
    requires k <= w && x + Pow2(k) - 1 < Pow2(w)
    ensures Pow2(k) <= Pow2(w)
    ensures RoundUpMask(x, Pow2(k), w) == CeilDiv(x, Pow2(k)) * Pow2(k)
    ensures RoundDownMask(x, Pow2(k), w) == x / Pow2(k) * Pow2(k)
  {
    Pow2Mono(k, w);
    AndHighMask(x + Pow2(k) - 1, k, w);
    AndHighMask(x, k, w);
    ClearLow(x + Pow2(k) - 1, k);
    ClearLow(x, k);
  }

  // ---- Bit fields -------------------------------------------------------

  /** The `bits`-wide field of `w` that starts at bit `off`. */
  function Field(w: nat, off: nat, bits: nat): (r: nat)
    ensures r < Pow2(bits)
  {
    Low(Shr(w, off), bits)
  }

  lemma LowAdd(w: nat, n: nat, bits: nat)
    requires Low(w, bits) + n < Pow2(bits)
    ensures Low(w + n, bits) == Low(w, bits) + n
    ensures Shr(w + n, bits) == Shr(w, bits)
  {
    Split(w, bits);
    Join(Shr(w, bits), Low(w, bits) + n, bits);
  }

  /** Adding within a field changes that field, and no bit above or below it. */
  lemma {:induction false} FieldAdd(w: nat, n: nat, off: nat, bits: nat)
    requires Field(w, off, bits) + n < Pow2(bits)
    ensures Field(w + Shl(n, off), off, bits) == Field(w, off, bits) + n
    ensures Shr(w + Shl(n, off), off + bits) == Shr(w, off + bits)
    ensures Low(w + Shl(n, off), off) == Low(w, off)
  {
    if off == 0 {
      LowAdd(w, n, bits);
    } else {
      FieldAdd(w / 2, n, off - 1, bits);
      assert (w + Shl(n, off)) / 2 == w / 2 + Shl(n, off - 1);
    }
  }

  /** A field below bit `lim` only depends on the low `lim` bits. */
  lemma {:induction false} FieldOfLow(w: nat, v: nat, off: nat, bits: nat, lim: nat)
    requires off + bits <= lim && Low(w, lim) == Low(v, lim)
    ensures Field(w, off, bits) == Field(v, off, bits)
  {
    if off > 0 {
      FieldOfLow(w / 2, v / 2, off - 1, bits, lim - 1);
    } else {
      LowOfLow(w, v, bits, lim);
    }
  }

  lemma {:induction false} LowOfLow(w: nat, v: nat, n: nat, lim: nat)
    requires n <= lim && Low(w, lim) == Low(v, lim)
    ensures Low(w, n) == Low(v, n)
  {
    if n > 0 {
      LowOfLow(w / 2, v / 2, n - 1, lim - 1);
    }
  }

  /** A field from bit `lim` on only depends on the bits from `lim` on. */
  lemma {:induction false} FieldOfHigh(w: nat, v: nat, off: nat, bits: nat, lim: nat)
    requires lim <= off && Shr(w, lim) == Shr(v, lim)
    ensures Field(w, off, bits) == Field(v, off, bits)
  {
    ShrAdd(w, lim, off - lim);
    ShrAdd(v, lim, off - lim);
  }

  /** Disjoint fields are independent: adding within one keeps every other, and
      the word does not outgrow its width. */
  lemma {:induction false} FieldAddIndependent(w: nat, n: nat, off: nat, bits: nat, other: nat, width: nat)
    requires Field(w, off, bits) + n < Pow2(bits)
    requires off + bits <= width && w < Pow2(width)
    requires other + bits <= off || off + bits <= other
    ensures Field(w + Shl(n, off), other, bits) == Field(w, other, bits)
  {
    FieldAdd(w, n, off, bits);
    if other + bits <= off {
      FieldOfLow(w + Shl(n, off), w, other, bits, off);
    } else {
      FieldOfHigh(w + Shl(n, off), w, other, bits, off + bits);
    }
  }

  lemma {:induction false} FieldAddFits(w: nat, n: nat, off: nat, bits: nat, width: nat)
    requires Field(w, off, bits) + n < Pow2(bits)
    requires off + bits <= width && w < Pow2(width)
    ensures w + Shl(n, off) < Pow2(width)
  {
    var v := w + Shl(n, off);
    var top := off + bits;
    FieldAdd(w, n, off, bits);
    Split(v, top);
    ShrBound(w, top, width);
    ShlBound(Shr(w, top), top, width);
  }
}
