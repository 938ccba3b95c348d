/** The shuffle of common.h: from the last element on, each changes places with one that
    a random number picks among those up to it. */
module Shuffling {
  function Swapped<T>(s: seq<T>, i: nat, k: nat): (t: seq<T>)
    requires i < |s| && k < |s|
    ensures |t| == |s|
  {
    s[i := s[k]][k := s[i]]
  }

  /** The first `n` elements shuffled; `random(i)` is the number drawn for place `i`. */
  function Shuffled<T>(s: seq<T>, n: nat, random: nat -> nat): (t: seq<T>)
    requires n <= |s|
    ensures |t| == |s| && t[n..] == s[n..]
    decreases n
  {
    if n <= 1 then s
    else
      var t := Swapped(s, n - 1, random(n - 1) % n);
      var r := Shuffled(t, n - 1, random);
      assert r[n..] == r[n - 1..][1..] == t[n..];
      r
  }

  /** The numbers drawn by one of several shuffles. */
  function Drawn(random: (nat, nat) -> nat, i: nat): nat -> nat {
    k => random(i, k)
  }

  lemma SwappedSame<T>(s: seq<T>, i: nat, k: nat)
    requires i < |s| && k < |s|
    ensures multiset(Swapped(s, i, k)) == multiset(s)
  {
  }

  /** Whatever the random numbers, the elements are permuted. */
  lemma {:induction false} ShuffledSame<T>(s: seq<T>, n: nat, random: nat -> nat)
    requires n <= |s|
    ensures multiset(Shuffled(s, n, random)) == multiset(s)
    decreases n
  {
    if n > 1 {
      SwappedSame(s, n - 1, random(n - 1) % n);
      ShuffledSame(Swapped(s, n - 1, random(n - 1) % n), n - 1, random);
    }
  }

  lemma ShuffledStep<T>(s: seq<T>, n: nat, random: nat -> nat, k: nat)
    requires 1 < n <= |s| && random(n - 1) % n == k
    ensures k < n && Shuffled(s, n, random) == Shuffled(Swapped(s, n - 1, k), n - 1, random)
  {
    hide Swapped;
  }

  /** Only the numbers for the first `n` places matter. */
  lemma {:induction false} ShuffledAgrees<T>(s: seq<T>, n: nat, random: nat -> nat, other: nat -> nat)
    requires n <= |s| && forall i :: 0 < i < n ==> random(i) == other(i)
    ensures Shuffled(s, n, random) == Shuffled(s, n, other)
    decreases n
  {
    if n > 1 {
      var k := random(n - 1) % n;
      ShuffledStep(s, n, random, k);
      ShuffledStep(s, n, other, k);
      hide Swapped, Shuffled;
      ShuffledAgrees(Swapped(s, n - 1, k), n - 1, random, other);
    }
  }

  /** Every order of the elements comes from some random numbers. */
  lemma {:induction false} EveryOrder<T>(s: seq<T>, t: seq<T>, n: nat) returns (random: nat -> nat)
    requires n <= |s| == |t| && s[n..] == t[n..] && multiset(s[..n]) == multiset(t[..n])
    ensures Shuffled(s, n, random) == t
    decreases n
  {
    hide With, Swapped, Shuffled;
    if n <= 1 {
      random := i => i;
      OneElement(s, t, n);
      ShortShuffle(s, n, random);
    } else {
      var k := PlaceOfLast(s, t, n);
      LastInPlace(s, t, n, k);
      var rest := EveryOrder(Swapped(s, n - 1, k), t, n - 1);
      random := With(rest, n - 1, k);
      WithValues(rest, n - 1, k);
      SmallMod(k, n);
      ShuffledAgrees(Swapped(s, n - 1, k), n - 1, random, rest);
      ShuffledStep(s, n, random, k);
    }
  }

  function With(f: nat -> nat, p: nat, k: nat): nat -> nat {
    i => if i == p then k else f(i)
  }

  lemma WithValues(f: nat -> nat, p: nat, k: nat)
    ensures With(f, p, k)(p) == k && forall i :: 0 < i < p ==> With(f, p, k)(i) == f(i)
  {
  }

  lemma ShortShuffle<T>(s: seq<T>, n: nat, random: nat -> nat)
    requires n <= |s| && n <= 1
    ensures Shuffled(s, n, random) == s
  {
  }

  lemma SmallMod(k: nat, n: nat)
    requires k < n
    ensures k % n == k
  {
  }

  lemma {:induction false} PlaceOfLast<T>(s: seq<T>, t: seq<T>, n: nat) returns (k: nat)
    requires 0 < n <= |s| == |t| && multiset(s[..n]) == multiset(t[..n])
    ensures k < n && s[k] == t[n - 1]
  {
    assert t[..n][n - 1] in multiset(t[..n]);
    k :| 0 <= k < n && s[..n][k] == t[n - 1];
  }

  lemma OneElement<T>(s: seq<T>, t: seq<T>, n: nat)
    requires n <= |s| == |t| && n <= 1 && s[n..] == t[n..] && multiset(s[..n]) == multiset(t[..n])
    ensures s == t
  {
    if n == 1 {
      assert s[..1] == [s[0]] && t[..1] == [t[0]];
      assert s[0] in multiset(t[..1]);
      assert s == [s[0]] + s[1..] && t == [t[0]] + t[1..];
    }
  }

  lemma {:induction false} LastInPlace<T>(s: seq<T>, t: seq<T>, n: nat, k: nat)
    requires 0 < n <= |s| == |t| && k < n && s[n..] == t[n..] && multiset(s[..n]) == multiset(t[..n]) && s[k] == t[n - 1]
    ensures var s' := Swapped(s, n - 1, k);
      s'[n - 1..] == t[n - 1..] && multiset(s'[..n - 1]) == multiset(t[..n - 1])
  {
    var s' := Swapped(s, n - 1, k);
    SwappedPrefix(s, n, k);
    SwappedSame(s[..n], n - 1, k);
    hide Swapped;
    SameSuffix(s', t, n);
    DropLast(s', t, n);
  }

  lemma SameSuffix<T>(x: seq<T>, y: seq<T>, n: nat)
    requires 0 < n <= |x| == |y| && x[n - 1] == y[n - 1] && x[n..] == y[n..]
    ensures x[n - 1..] == y[n - 1..]
  {
    assert x[n - 1..] == [x[n - 1]] + x[n..] && y[n - 1..] == [y[n - 1]] + y[n..];
  }

  lemma SwappedPrefix<T>(s: seq<T>, n: nat, k: nat)
    requires 0 < n <= |s| && k < n
    ensures Swapped(s, n - 1, k)[..n] == Swapped(s[..n], n - 1, k) && Swapped(s, n - 1, k)[n - 1] == s[k]
    ensures Swapped(s, n - 1, k)[n..] == s[n..]
  {
  }

  lemma {:induction false} DropLast<T>(x: seq<T>, y: seq<T>, n: nat)
    requires 0 < n <= |x| == |y| && multiset(x[..n]) == multiset(y[..n]) && x[n - 1] == y[n - 1]
    ensures multiset(x[..n - 1]) == multiset(y[..n - 1])
  {
    assert x[..n] == x[..n - 1] + [x[n - 1]] && y[..n] == y[..n - 1] + [y[n - 1]];
    Cancel(multiset(x[..n - 1]), multiset(y[..n - 1]), multiset{x[n - 1]});
  }

  lemma Cancel<T>(a: multiset<T>, b: multiset<T>, x: multiset<T>)
    requires a + x == b + x
    ensures a == b
  {
    assert a == a + x - x && b == b + x - x;
  }
}
