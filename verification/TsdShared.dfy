/** The shared thread-specific data of tsd_shared.h: the table of numbers coprime to
    their count, and the walk over them. */
module TsdShared {
  import opened Common

  // ---- Greatest common divisors -----------------------------------------

  predicate Divides(d: nat, x: nat) {
    d > 0 && x % d == 0
  }

  /** No number but 1 divides both. */
  ghost predicate Coprime(a: nat, b: nat) {
    forall d: nat :: Divides(d, a) && Divides(d, b) ==> d == 1
  }

  lemma {:induction false} DividesMultiple(d: nat, x: nat, q: nat)
    requires Divides(d, x)
    ensures Divides(d, q * x)
  {
    DivBounds(x, d);
    assert x == x / d * d;
    assert q * x == q * (x / d) * d;
    ModUnique(q * x, d, q * (x / d), 0);
  }

  lemma {:induction false} DividesSum(d: nat, x: nat, y: nat)
    requires Divides(d, x)
    ensures Divides(d, x + y) <==> Divides(d, y)
  {
    DivBounds(x, d);
    assert x == x / d * d;
    DivAddMul(y, x / d, d);
  }

  /** A step of Euclid's loop keeps the common divisors. */
  lemma {:induction false} EuclidStep(a: nat, b: nat, d: nat)
    requires b > 0
    ensures Divides(d, a) && Divides(d, b) <==> Divides(d, b) && Divides(d, a % b)
  {
    hide Divides;
    var m := a / b * b;
    DivBounds(a, b);
    assert m + a % b == a;
    if Divides(d, b) {
      DividesMultiple(d, b, a / b);
      DividesSum(d, m, a % b);
    }
  }

  /** The loop of setNumberOfTSDs that decides whether two numbers are coprime. */
  method EuclidIsOne(x: nat, n: nat) returns (one: bool)
    requires x > 0
    ensures one <==> Coprime(x, n)
  {
    var a, b := x, n;
    while b != 0
      invariant a > 0 && Coprime(a, b) == Coprime(x, n)
      decreases b
    {
      SameCoprime(a, b);
      var t := a;
      a := b;
      b := t % b;
    }
    CoprimeToZero(a);
    one := a == 1;
  }

  lemma {:induction false} SameCoprime(a: nat, b: nat)
    requires b > 0
    ensures Coprime(a, b) <==> Coprime(b, a % b)
  {
    forall d: nat
      ensures Divides(d, a) && Divides(d, b) <==> Divides(d, b) && Divides(d, a % b)
    {
      EuclidStep(a, b, d);
    }
    hide Divides;
  }

  lemma {:induction false} CoprimeToZero(a: nat)
    requires a > 0
    ensures Coprime(a, 0) <==> a == 1
  {
    assert Divides(a, a) && Divides(a, 0);
    assert Divides(1, a) && Divides(1, 0);
    forall d: nat | a == 1 && Divides(d, a) && Divides(d, 0) ensures d == 1 {
      DivBounds(a, d);
    }
  }

  // ---- The walk ---------------------------------------------------------

  /** Where the walk is after `i` steps. */
  function WalkAt(start: nat, inc: nat, n: nat, i: nat): nat
    requires start < n && inc <= n
  {
    if i == 0 then start
    else
      var next := WalkAt(start, inc, n, i - 1) + inc;
      if next >= n then next - n else next
  }

  lemma {:induction false} WalkIsMod(start: nat, inc: nat, n: nat, i: nat)
    requires start < n && inc <= n
    ensures WalkAt(start, inc, n, i) < n && WalkAt(start, inc, n, i) == (start + i * inc) % n
  {
    if i == 0 {
      ModUnique(start, n, 0, start);
    } else {
      WalkIsMod(start, inc, n, i - 1);
      StepMod(start + (i - 1) * inc, inc, n);
      assert start + i * inc == start + (i - 1) * inc + inc;
    }
  }

  lemma {:induction false} StepMod(x: nat, inc: nat, n: nat)
    requires n > 0 && inc <= n
    ensures (x + inc) % n == if x % n + inc >= n then x % n + inc - n else x % n + inc
  {
    var q, r := x / n, x % n;
    assert x == q * n + r;
    if r + inc >= n {
      assert (q + 1) * n == q * n + n;
      ModUnique(x + inc, n, q + 1, r + inc - n);
    } else {
      ModUnique(x + inc, n, q, r + inc);
    }
  }

  /** Coprime numbers have a combination that is 1. */
  lemma {:induction false} Bezout(a: nat, b: nat) returns (x: int, y: int)
    requires a > 0 && Coprime(a, b)
    ensures x * a + y * b == 1
    decreases b
  {
    if b == 0 {
      CoprimeToZero(a);
      x, y := 1, 0;
    } else {
      SameCoprime(a, b);
      hide Coprime, Divides;
      var u, v := Bezout(b, a % b);
      DivBounds(a, b);
      assert a % b == a - a / b * b;
      x, y := v, u - v * (a / b);
      Recombine(u, v, a, b, a / b);
    }
  }

  lemma Recombine(u: int, v: int, a: int, b: int, q: int)
    ensures v * a + (u - v * q) * b == u * b + v * (a - q * b)
  {
    assert (u - v * q) * b == u * b - v * q * b;
    assert v * (a - q * b) == v * a - v * (q * b);
    assert v * q * b == v * (q * b);
  }

  /** Every place is reached: the step that reaches it, computed from a combination. */
  lemma {:induction false} WalkReaches(start: nat, inc: nat, n: nat, v: nat) returns (i: nat)
    requires 0 < inc <= n && start < n && v < n && Coprime(inc, n)
    ensures i < n && WalkAt(start, inc, n, i) == v
  {
    hide WalkAt, Coprime;
    var x, y := Bezout(inc, n);
    var d := v - start;
    i := d * x % n;
    var t := d * x / n;
    assert d * x == t * n + i;
    Solve(start, inc, n, v, x, y, i, t);
    ModUnique(start + i * inc, n, -d * y - t * inc, v);
    WalkIsMod(start, inc, n, i);
  }

  lemma Solve(start: int, inc: int, n: int, v: int, x: int, y: int, i: int, t: int)
    requires x * inc + y * n == 1 && (v - start) * x == t * n + i
    ensures start + i * inc == (-(v - start) * y - t * inc) * n + v
  {
    var d := v - start;
    calc {
      i * inc;
      (d * x - t * n) * inc;
      { Expand(d * x, t * n, inc); }
      d * x * inc - t * n * inc;
      { assert d * x * inc == d * (x * inc); }
      d * (1 - y * n) - t * n * inc;
      { Factor(d, y, n, t, inc); }
      d + (-d * y - t * inc) * n;
    }
  }

  lemma Expand(a: int, b: int, c: int)
    ensures (a - b) * c == a * c - b * c
  {
  }

  lemma Factor(d: int, y: int, n: int, t: int, inc: int)
    ensures d * (1 - y * n) - t * n * inc == d + (-d * y - t * inc) * n
  {
    assert d * (1 - y * n) == d - d * (y * n);
    assert d * (y * n) == d * y * n;
    assert t * n * inc == t * inc * n;
    Expand(-d * y, t * inc, n);
    assert -d * y * n == -(d * y * n);
  }

  /** The first `n` steps visit different places: the walk is a permutation. */
  lemma {:induction false} WalkDistinct(start: nat, inc: nat, n: nat, i: nat, j: nat)
    requires 0 < inc <= n && start < n && Coprime(inc, n) && i < j < n
    ensures WalkAt(start, inc, n, i) != WalkAt(start, inc, n, j)
  {
    hide WalkAt, Coprime;
    WalkIsMod(start, inc, n, i);
    WalkIsMod(start, inc, n, j);
    if (start + i * inc) % n == (start + j * inc) % n {
      var x, y := Bezout(inc, n);
      DifferenceDivides(start, inc, n, i, j);
      var m := (start + j * inc) / n - (start + i * inc) / n;
      NotBetween(x * m + (j - i) * y, n);
      CancelInc(j - i, inc, n, x, y, m);
    }
  }

  lemma {:induction false} DifferenceDivides(start: nat, inc: nat, n: nat, i: nat, j: nat)
    requires n > 0 && i < j && (start + i * inc) % n == (start + j * inc) % n
    ensures (j - i) * inc == ((start + j * inc) / n - (start + i * inc) / n) * n
  {
    var a, b := start + i * inc, start + j * inc;
    Expand(j, i, inc);
    Expand(b / n, a / n, n);
  }

  /** If `n` divides `k * inc`, it divides `k`. */
  lemma {:induction false} CancelInc(k: nat, inc: nat, n: nat, x: int, y: int, m: int)
    requires x * inc + y * n == 1 && k * inc == m * n
    ensures k == (x * m + k * y) * n
  {
    calc {
      k;
      k * (x * inc + y * n);
      { Spread(k, x * inc, y * n); }
      k * (x * inc) + k * (y * n);
      { Regroup(k, x, inc, y, n); }
      x * (k * inc) + k * y * n;
      { assert x * (m * n) == x * m * n; Spread2(x * m, k * y, n); }
      (x * m + k * y) * n;
    }
  }

  lemma NotBetween(q: int, n: nat)
    ensures q * n <= 0 || q * n >= n
  {
    if q <= 0 {
      MulMono(q, 0, n);
    } else {
      MulMono(1, q, n);
    }
  }

  lemma Spread(k: int, a: int, b: int)
    ensures k * (a + b) == k * a + k * b
  {
  }

  lemma Spread2(a: int, b: int, n: int)
    ensures a * n + b * n == (a + b) * n
  {
  }

  lemma Regroup(k: int, x: int, inc: int, y: int, n: int)
    ensures k * (x * inc) == x * (k * inc) && k * (y * n) == k * y * n
  {
  }

  // ---- The registry -----------------------------------------------------

  class TSDRegistry {
    const arraySize: nat
    var numberOfTSDs: nat
    var coPrimes: seq<nat>

    constructor (arraySize: nat)
      ensures this.arraySize == arraySize && numberOfTSDs == 0 && coPrimes == []
    {
      this.arraySize := arraySize;
      numberOfTSDs, coPrimes := 0, [];
    }

    /** The list is exactly the numbers from 1 to `n` that are coprime to `n`, in order. */
    static ghost predicate AllCoPrimes(list: seq<nat>, n: nat, upTo: nat) {
      && (forall i :: 0 <= i < |list| ==> 0 < list[i] <= upTo && Coprime(list[i], n))
      && (forall x: nat :: 0 < x <= upTo && Coprime(x, n) ==> x in list)
      && (forall i, j :: 0 <= i < j < |list| ==> list[i] < list[j])
    }

    /** setNumberOfTSDs: never lowers the count; computes the coprimes of the new one. */
    method SetNumberOfTSDs(n: nat) returns (ok: bool)
      modifies this
      ensures ok <==> n >= old(numberOfTSDs)
      ensures !ok ==> numberOfTSDs == old(numberOfTSDs) && coPrimes == old(coPrimes)
      ensures ok ==> numberOfTSDs == Min(n, arraySize) && AllCoPrimes(coPrimes, numberOfTSDs, numberOfTSDs)
      ensures ok && numberOfTSDs > 0 ==> coPrimes != []
    {
      if n < numberOfTSDs {
        return false;
      }
      numberOfTSDs := Min(n, arraySize);
      coPrimes := [];
      for i := 0 to numberOfTSDs
        invariant AllCoPrimes(coPrimes, numberOfTSDs, i) && numberOfTSDs == Min(n, arraySize)
      {
        var one := EuclidIsOne(i + 1, numberOfTSDs);
        AddNext(coPrimes, numberOfTSDs, i, one);
        if one {
          coPrimes := coPrimes + [i + 1];
        }
      }
      if numberOfTSDs > 0 {
        OneIsCoprime(numberOfTSDs);
        assert 1 in coPrimes;
      }
      return true;
    }

    static lemma {:induction false} AddNext(list: seq<nat>, n: nat, i: nat, one: bool)
      requires AllCoPrimes(list, n, i) && (one <==> Coprime(i + 1, n))
      ensures AllCoPrimes(if one then list + [i + 1] else list, n, i + 1)
    {
      hide Coprime;
      var all := if one then list + [i + 1] else list;
      forall x: nat | 0 < x <= i + 1 && Coprime(x, n) ensures x in all {
        if x == i + 1 {
          assert all[|list|] == x;
        } else {
          assert x in list;
        }
      }
    }

    static lemma {:induction false} OneIsCoprime(n: nat)
      ensures Coprime(1, n)
    {
      forall d: nat | Divides(d, 1) && Divides(d, n) ensures d == 1 {
        DivBounds(1, d);
      }
    }

    /** The slow path: tries at most four TSDs, starting anywhere, in steps of one of
        the coprimes. `free` and `precedence` are what is found there. */
    method Walk(r: nat, free: nat -> bool, precedence: nat -> nat) returns (choice: Option<nat>, visited: seq<nat>)
      requires AllCoPrimes(coPrimes, numberOfTSDs, numberOfTSDs) && coPrimes != []
      ensures |visited| <= Min(4, numberOfTSDs) && forall i :: 0 <= i < |visited| ==> visited[i] < numberOfTSDs
      ensures if numberOfTSDs <= 1 then choice == None && visited == []
        else choice == None || !free(choice.value) ==> |visited| == Min(4, numberOfTSDs)
      ensures forall i :: 0 <= i < |visited| ==>
        visited[i] == (r % numberOfTSDs + i * coPrimes[r % |coPrimes|]) % numberOfTSDs
      ensures choice.Some? && free(choice.value) ==> visited != [] && choice.value == visited[|visited| - 1]
      ensures forall i, j :: 0 <= i < j < |visited| ==> visited[i] != visited[j]
      ensures forall i :: 0 <= i < |visited| - 1 ==> !free(visited[i])
      ensures choice.Some? ==> choice.value in visited
      ensures choice.Some? && !free(choice.value) ==>
        && precedence(choice.value) > 0
        && forall i :: 0 <= i < |visited| ==>
             !free(visited[i]) && (precedence(visited[i]) == 0 || precedence(visited[i]) >= precedence(choice.value))
      ensures choice.Some? && !free(choice.value) ==> forall i, k :: 0 <= i < k < |visited| && visited[k] == choice.value ==>
        precedence(visited[i]) == 0 || precedence(visited[i]) > precedence(choice.value)
      ensures choice == None ==>
        forall i :: 0 <= i < |visited| ==> !free(visited[i]) && precedence(visited[i]) == 0
    {
      hide Coprime, AllCoPrimes;
      if numberOfTSDs <= 1 {
        return None, [];
      }
      IsCoPrime(coPrimes, numberOfTSDs, r % |coPrimes|);
      choice, visited := WalkFrom(r % numberOfTSDs, coPrimes[r % |coPrimes|], numberOfTSDs, free, precedence);
    }

    /** How many TSDs are tried at most. */
    static function Tries(n: nat): nat {
      if n <= 1 then 0 else Min(4, n)
    }

    static method WalkFrom(start: nat, inc: nat, n: nat, free: nat -> bool, precedence: nat -> nat)
      returns (choice: Option<nat>, visited: seq<nat>)
      requires n > 1 && start < n && 0 < inc <= n && Coprime(inc, n)
      ensures |visited| <= Tries(n) && forall i :: 0 <= i < |visited| ==> visited[i] < n
      ensures forall i :: 0 <= i < |visited| ==> visited[i] == (start + i * inc) % n
      ensures choice.Some? && free(choice.value) ==> visited != [] && choice.value == visited[|visited| - 1]
      ensures forall i, j :: 0 <= i < j < |visited| ==> visited[i] != visited[j]
      ensures forall i :: 0 <= i < |visited| - 1 ==> !free(visited[i])
      ensures choice.Some? ==> choice.value in visited
      ensures choice.Some? && !free(choice.value) ==>
        && |visited| == Tries(n) && precedence(choice.value) > 0
        && forall i :: 0 <= i < |visited| ==>
             !free(visited[i]) && (precedence(visited[i]) == 0 || precedence(visited[i]) >= precedence(choice.value))
      ensures choice.Some? && !free(choice.value) ==> forall i, k :: 0 <= i < k < |visited| && visited[k] == choice.value ==>
        precedence(visited[i]) == 0 || precedence(visited[i]) > precedence(choice.value)
      ensures choice == None ==>
        |visited| == Tries(n) && forall i :: 0 <= i < |visited| ==> !free(visited[i]) && precedence(visited[i]) == 0
    {
      hide Coprime, WalkAt, Best, OnPath, First;
      PathStart(start, inc, n);
      var index := start;
      choice, visited := None, [];
      WalkStart(start, inc, n);
      BestStart(free, precedence);
      for i := 0 to Tries(n)
        invariant |visited| == i && index == WalkAt(start, inc, n, i) < n
        invariant OnPath(visited, start, inc, n)
        invariant Best(visited, free, precedence, choice)
      {
        PathNext(visited, start, inc, n);
        visited := visited + [index];
        if free(index) {
          BestKnown(visited[..i], free, precedence, choice);
          VisitedDistinct(start, inc, n, visited);
          assert visited[i] == index && visited[..i] == visited[..|visited| - 1];
          choice := Some(index);
          return;
        }
        var p := precedence(index);
        assert visited[..i] + [index] == visited;
        BestNext(visited[..i], free, precedence, choice, index);
        if p != 0 && (choice == None || p < precedence(choice.value)) {
          choice := Some(index);
        }
        WalkNext(start, inc, n, i);
        index := index + inc;
        if index >= n {
          index := index - n;
        }
      }
      BestKnown(visited, free, precedence, choice);
      VisitedDistinct(start, inc, n, visited);
      if choice.Some? {
        FirstIsFirst(visited, precedence, choice.value);
      }
    }

    /** None of the TSDs visited is free, and the choice has the lowest positive
        precedence among them. */
    static ghost predicate Best(visited: seq<nat>, free: nat -> bool, precedence: nat -> nat, choice: Option<nat>) {
      && (forall i :: 0 <= i < |visited| ==> !free(visited[i]))
      && (choice == None ==> forall i :: 0 <= i < |visited| ==> precedence(visited[i]) == 0)
      && (choice.Some? ==>
            && choice.value in visited && precedence(choice.value) > 0
            && (forall i :: 0 <= i < |visited| ==> precedence(visited[i]) == 0 || precedence(visited[i]) >= precedence(choice.value))
            && First(visited, precedence, choice.value))
    }

    /** Before `x` only higher precedences were visited, or none. */
    static ghost predicate First(visited: seq<nat>, precedence: nat -> nat, x: nat) {
      exists k :: 0 <= k < |visited| && visited[k] == x && FirstAt(visited, precedence, k)
    }

    static ghost predicate FirstAt(visited: seq<nat>, precedence: nat -> nat, k: nat)
      requires k < |visited|
    {
      forall i :: 0 <= i < k ==> precedence(visited[i]) == 0 || precedence(visited[i]) > precedence(visited[k])
    }

    static lemma BestStart(free: nat -> bool, precedence: nat -> nat)
      ensures Best([], free, precedence, None)
    {
    }

    static lemma {:induction false} BestNext(visited: seq<nat>, free: nat -> bool, precedence: nat -> nat, choice: Option<nat>, index: nat)
      requires Best(visited, free, precedence, choice) && !free(index)
      ensures var better := precedence(index) != 0 && (choice == None || precedence(index) < precedence(choice.value));
        Best(visited + [index], free, precedence, if better then Some(index) else choice)
    {
      var all := visited + [index];
      assert all[|visited|] == index;
      assert choice.Some? ==> choice.value in all;
      if precedence(index) != 0 && (choice == None || precedence(index) < precedence(choice.value)) {
        assert FirstAt(all, precedence, |visited|);
      } else if choice.Some? {
        var k :| 0 <= k < |visited| && visited[k] == choice.value && FirstAt(visited, precedence, k);
        assert all[k] == visited[k] && FirstAt(all, precedence, k);
      }
    }

    static lemma BestKnown(visited: seq<nat>, free: nat -> bool, precedence: nat -> nat, choice: Option<nat>)
      requires Best(visited, free, precedence, choice)
      ensures forall i :: 0 <= i < |visited| ==> !free(visited[i])
      ensures choice.Some? ==> choice.value in visited && precedence(choice.value) > 0
      ensures choice.Some? ==> forall i :: 0 <= i < |visited| ==>
        precedence(visited[i]) == 0 || precedence(visited[i]) >= precedence(choice.value)
      ensures choice == None ==> forall i :: 0 <= i < |visited| ==> precedence(visited[i]) == 0
      ensures choice.Some? ==> First(visited, precedence, choice.value)
    {
    }

    static lemma {:induction false} FirstIsFirst(visited: seq<nat>, precedence: nat -> nat, x: nat)
      requires First(visited, precedence, x) && forall i, j :: 0 <= i < j < |visited| ==> visited[i] != visited[j]
      ensures forall i, k :: 0 <= i < k < |visited| && visited[k] == x ==>
        precedence(visited[i]) == 0 || precedence(visited[i]) > precedence(x)
    {
      var m :| 0 <= m < |visited| && visited[m] == x && FirstAt(visited, precedence, m);
      forall k | 0 <= k < |visited| && visited[k] == x ensures k == m {
      }
    }

    static lemma IsCoPrime(list: seq<nat>, n: nat, i: nat)
      requires AllCoPrimes(list, n, n) && i < |list|
      ensures 0 < list[i] <= n && Coprime(list[i], n)
    {
      hide Coprime;
    }

    /** The TSDs visited are the first ones of the walk. */
    static ghost predicate OnPath(visited: seq<nat>, start: nat, inc: nat, n: nat)
      requires start < n && inc <= n
    {
      forall k :: 0 <= k < |visited| ==> visited[k] == WalkAt(start, inc, n, k)
    }

    static lemma PathStart(start: nat, inc: nat, n: nat)
      requires start < n && inc <= n
      ensures OnPath([], start, inc, n)
    {
    }

    static lemma PathNext(visited: seq<nat>, start: nat, inc: nat, n: nat)
      requires start < n && inc <= n && OnPath(visited, start, inc, n)
      ensures OnPath(visited + [WalkAt(start, inc, n, |visited|)], start, inc, n)
    {
      hide WalkAt;
    }

    static lemma {:induction false} VisitedDistinct(start: nat, inc: nat, n: nat, visited: seq<nat>)
      requires 0 < inc <= n && start < n && |visited| <= n && Coprime(inc, n) && OnPath(visited, start, inc, n)
      ensures forall i :: 0 <= i < |visited| ==> visited[i] < n && visited[i] == (start + i * inc) % n
      ensures forall i, j :: 0 <= i < j < |visited| ==> visited[i] != visited[j]
    {
      hide Coprime, WalkAt;
      forall i | 0 <= i < |visited| ensures visited[i] < n && visited[i] == (start + i * inc) % n {
        WalkIsMod(start, inc, n, i);
      }
      forall i, j | 0 <= i < j < |visited| ensures visited[i] != visited[j] {
        WalkDistinct(start, inc, n, i, j);
      }
    }

    static lemma WalkStart(start: nat, inc: nat, n: nat)
      requires start < n && inc <= n
      ensures WalkAt(start, inc, n, 0) == start
    {
    }

    static lemma {:induction false} WalkNext(start: nat, inc: nat, n: nat, i: nat)
      requires start < n && inc <= n
      ensures var next := WalkAt(start, inc, n, i) + inc;
        WalkAt(start, inc, n, i + 1) == if next >= n then next - n else next
      ensures WalkAt(start, inc, n, i + 1) < n
    {
      WalkIsMod(start, inc, n, i + 1);
    }
  }
}
