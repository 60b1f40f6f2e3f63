/**
 * The enumeration of argument tuples in the search (solver.cpp,
 * `max_count` and `increment_count`): a counter of `k + 1` digits in base
 * `n`, the number of objects. Digit 0 moves fastest; digit `k` is a guard
 * that turns 1 once every combination of the first `k` digits has been
 * seen. The counter is little-endian: digit `i` weighs `n^i`.
 */
module Odometer {

  function Pow(n: nat, k: nat): (r: nat)
    ensures n >= 1 ==> r >= 1
  {
    if k == 0 then 1 else n * Pow(n, k - 1)
  }

  /** The number a counter stands for. */
  function Value(c: seq<nat>, n: nat): nat
    decreases |c|
  {
    if |c| == 0 then 0 else c[0] + n * Value(c[1..], n)
  }

  /** Every digit is below the base. */
  predicate Digits(c: seq<nat>, n: nat) {
    forall i :: 0 <= i < |c| ==> c[i] < n
  }

  function Zeros(len: nat): (c: seq<nat>)
    ensures |c| == len && forall i :: 0 <= i < len ==> c[i] == 0
  {
    seq(len, i => 0)
  }

  /** `max_count`: the guard digit has turned 1. */
  predicate MaxCount(c: seq<nat>, k: nat)
    requires k < |c|
  {
    c[k] == 1
  }

  /**
   * `increment_count` from digit `index`: the digit is incremented modulo
   * `n` and a wrap-around carries into the next digit. The carry test also
   * checks `index <= k`, which holds for every digit; it never carries out
   * of the guard digit because the guard is below `n - 1` (the source would
   * write past the counter if it did).
   */
  function IncrementCount(c: seq<nat>, n: nat, index: nat): (r: seq<nat>)
    requires n >= 2 && index < |c| && Digits(c, n) && c[|c| - 1] < n - 1
    ensures |r| == |c| && Digits(r, n) && r[|r| - 1] <= c[|c| - 1] + 1
    decreases |c| - index
  {
    var d := (c[index] + 1) % n;
    assert d < n && (c[index] + 1 < n ==> d == c[index] + 1) by {
      if c[index] + 1 < n { ModBelow(c[index] + 1, n); } else { ModBase(n); }
    }
    var c' := c[index := d];
    if c'[index] == 0 && index <= |c| - 1 then IncrementCount(c', n, index + 1)
    else c'
  }

  // ----- arithmetic on counters -----

  lemma ModBelow(a: nat, n: nat)
    requires a < n
    ensures a % n == a
  {
  }

  lemma ModBase(n: nat)
    requires n >= 1
    ensures n % n == 0
  {
  }

  lemma MulMono(n: nat, a: nat, b: nat)
    requires a <= b
    ensures n * a <= n * b
  {
  }

  lemma MulSucc(a: nat, w: nat)
    ensures (a + 1) * w == a * w + w
  {
  }

  /** Scaling the value equation of the tail by the base. */
  lemma ScaleStep(c0: nat, n: nat, v': nat, v: nat, cj: nat, x: nat, w: nat)
    requires v' + cj * w == v + x * w
    ensures c0 + n * v' + cj * (n * w) == c0 + n * v + x * (n * w)
  {
    calc {
      c0 + n * v' + cj * (n * w);
      { assert cj * (n * w) == n * (cj * w); }
      c0 + n * (v' + cj * w);
      c0 + n * (v + x * w);
      { assert x * (n * w) == n * (x * w); }
      c0 + n * v + x * (n * w);
    }
  }

  /** Changing one digit changes the value by the difference times the digit's weight. */
  lemma {:induction false} ValueUpdate(c: seq<nat>, n: nat, j: nat, x: nat)
    requires j < |c|
    ensures Value(c[j := x], n) + c[j] * Pow(n, j) == Value(c, n) + x * Pow(n, j)
    decreases |c|
  {
    if j == 0 {
      assert c[j := x][1..] == c[1..];
    } else {
      assert c[j := x][1..] == c[1..][j - 1 := x];
      ValueUpdate(c[1..], n, j - 1, x);
      assert Value(c[j := x], n) == c[0] + n * Value(c[1..][j - 1 := x], n);
      ScaleStep(c[0], n, Value(c[1..][j - 1 := x], n), Value(c[1..], n), c[j], x, Pow(n, j - 1));
    }
  }

  /** Incrementing from digit `i` adds `n^i` to the value. */
  lemma {:induction false} IncrementValue(c: seq<nat>, n: nat, i: nat)
    requires n >= 2 && i < |c| && Digits(c, n) && c[|c| - 1] < n - 1
    ensures Value(IncrementCount(c, n, i), n) == Value(c, n) + Pow(n, i)
    decreases |c| - i
  {
    var c' := c[i := (c[i] + 1) % n];
    ValueUpdate(c, n, i, (c[i] + 1) % n);
    MulSucc(c[i], Pow(n, i));
    if c[i] + 1 < n {
      ModBelow(c[i] + 1, n);
    } else {
      ModBase(n);
      IncrementValue(c', n, i + 1);
    }
  }

  /** A counter with digits below the base stands for less than `n^|c|`. */
  lemma {:induction false} ValueBound(c: seq<nat>, n: nat)
    requires n >= 1 && Digits(c, n)
    ensures Value(c, n) < Pow(n, |c|)
    decreases |c|
  {
    if |c| > 0 {
      ValueBound(c[1..], n);
      var v := Value(c[1..], n);
      MulMono(n, v + 1, Pow(n, |c| - 1));
      assert n * (v + 1) == n * v + n;
    }
  }

  /** The value splits at the top digit: the lower digits plus the top digit times its weight. */
  lemma {:induction false} ValueTop(c: seq<nat>, n: nat)
    requires |c| >= 1
    ensures Value(c, n) == Value(c[..|c| - 1], n) + c[|c| - 1] * Pow(n, |c| - 1)
    decreases |c|
  {
    if |c| == 1 {
      assert c[1..] == [];
      assert c[..0] == [];
    } else {
      var k := |c| - 1;
      assert c[1..][..k - 1] == c[..k][1..];
      assert c[1..][k - 1] == c[k];
      ValueTop(c[1..], n);
      var lo := Value(c[1..][..k - 1], n);
      assert Value(c[1..], n) == lo + c[k] * Pow(n, k - 1);
      assert Value(c[..k], n) == c[0] + n * lo;
      calc {
        Value(c, n);
        c[0] + n * (lo + c[k] * Pow(n, k - 1));
        c[0] + n * lo + n * (c[k] * Pow(n, k - 1));
        { assert n * (c[k] * Pow(n, k - 1)) == c[k] * (n * Pow(n, k - 1)); }
        Value(c[..k], n) + c[k] * Pow(n, k);
      }
    }
  }

  /** A top digit of weight `w` over lower digits worth less than `w`. */
  lemma TopDigit(lo: nat, d: nat, w: nat)
    requires lo < w
    ensures d == 0 <==> lo + d * w < w
    ensures lo + d * w == w ==> d == 1
  {
    if d >= 1 {
      MulMono(w, 1, d);
      assert d * w == w * d;
    }
    if d >= 2 {
      MulMono(w, 2, d);
      assert d * w == w * d;
    }
  }

  /** The top digit is 0 exactly when the value is below its weight. */
  lemma GuardValue(c: seq<nat>, n: nat)
    requires n >= 1 && |c| >= 1 && Digits(c, n)
    ensures c[|c| - 1] == 0 <==> Value(c, n) < Pow(n, |c| - 1)
    ensures Value(c, n) == Pow(n, |c| - 1) ==> c[|c| - 1] == 1
  {
    var k := |c| - 1;
    ValueTop(c, n);
    assert Digits(c[..k], n);
    ValueBound(c[..k], n);
    TopDigit(Value(c[..k], n), c[k], Pow(n, k));
  }

  /** Quotient and remainder are unique. */
  lemma DivModUnique(a: nat, x: nat, b: nat, y: nat, n: nat)
    requires a < n && b < n && a + n * x == b + n * y
    ensures a == b && x == y
  {
    if x < y {
      MulMono(n, x + 1, y);
    } else if y < x {
      MulMono(n, y + 1, x);
    }
  }

  /** Counters of one length with digits below the base are determined by their value. */
  lemma {:induction false} ValueInjective(c: seq<nat>, d: seq<nat>, n: nat)
    requires |c| == |d| && Digits(c, n) && Digits(d, n) && Value(c, n) == Value(d, n)
    ensures c == d
    decreases |c|
  {
    if |c| > 0 {
      DivModUnique(c[0], Value(c[1..], n), d[0], Value(d[1..], n), n);
      ValueInjective(c[1..], d[1..], n);
      assert c == [c[0]] + c[1..] && d == [d[0]] + d[1..];
    }
  }

  // ----- the enumeration -----

  /** A counter the loop can hold: `k + 1` digits below the base, at most `n^k`. */
  predicate Reachable(c: seq<nat>, k: nat, n: nat) {
    n >= 2 && |c| == k + 1 && Digits(c, n) && Value(c, n) <= Pow(n, k)
  }

  /**
   * The loop of the search over one action: while the guard is not 1, the
   * counter is used and then incremented from digit 0. The result lists the
   * counters used, in order.
   */
  function Visit(c: seq<nat>, k: nat, n: nat): (cs: seq<seq<nat>>)
    requires Reachable(c, k, n)
    ensures |cs| == Pow(n, k) - Value(c, n)
    ensures forall t :: 0 <= t < |cs| ==> |cs[t]| == k + 1 && Digits(cs[t], n) && Value(cs[t], n) == Value(c, n) + t
    decreases Pow(n, k) - Value(c, n)
  {
    GuardValue(c, n);
    if MaxCount(c, k) then []
    else
      assert c[k] == 0;
      var c' := IncrementCount(c, n, 0);
      IncrementValue(c, n, 0);
      var rest := Visit(c', k, n);
      [c] + rest
  }

  /** No counter is listed twice. */
  predicate Distinct<T(==)>(xs: seq<T>) {
    forall s, t :: 0 <= s < t < |xs| ==> xs[s] != xs[t]
  }

  /**
   * From the zero counter the loop uses `n^k` counters, one for every value
   * below `n^k`: each counter of `k` digits below `n` (guard 0) exactly once.
   */
  lemma VisitAll(k: nat, n: nat)
    requires n >= 2
    ensures Reachable(Zeros(k + 1), k, n)
    ensures |Visit(Zeros(k + 1), k, n)| == Pow(n, k)
    ensures forall c :: |c| == k + 1 && Digits(c, n) && c[k] == 0 ==> c in Visit(Zeros(k + 1), k, n)
    ensures Distinct(Visit(Zeros(k + 1), k, n))
  {
    var z := Zeros(k + 1);
    ZeroValue(z, n);
    assert Reachable(z, k, n);
    var cs := Visit(z, k, n);
    forall c | |c| == k + 1 && Digits(c, n) && c[k] == 0 ensures c in cs {
      VisitedByValue(c, cs, k, n);
    }
    forall s, t | 0 <= s < t < |cs| ensures cs[s] != cs[t] {
      assert Value(cs[s], n) == s && Value(cs[t], n) == t;
    }
  }

  /** A counter with guard 0 is the one listed at its value. */
  lemma VisitedByValue(c: seq<nat>, cs: seq<seq<nat>>, k: nat, n: nat)
    requires n >= 2 && |c| == k + 1 && Digits(c, n) && c[k] == 0
    requires |cs| == Pow(n, k)
    requires forall t :: 0 <= t < |cs| ==> |cs[t]| == k + 1 && Digits(cs[t], n) && Value(cs[t], n) == t
    ensures c in cs
  {
    GuardValue(c, n);
    var t := Value(c, n);
    ValueInjective(c, cs[t], n);
  }

  lemma {:induction false} ZeroValue(c: seq<nat>, n: nat)
    requires forall i :: 0 <= i < |c| ==> c[i] == 0
    ensures Value(c, n) == 0
    decreases |c|
  {
    if |c| > 0 {
      ZeroValue(c[1..], n);
    }
  }

  /**
   * The arguments a counter selects: the parameter loop runs from the last
   * parameter down, so argument `j` is the object at digit `k - 1 - j`.
   */
  function ArgsOf(objects: seq<nat>, c: seq<nat>, k: nat): (args: seq<nat>)
    requires k < |c| && forall i :: 0 <= i < k ==> c[i] < |objects|
    ensures |args| == k
    ensures forall j :: 0 <= j < k ==> args[j] == objects[c[k - 1 - j]]
  {
    seq(k, j requires 0 <= j < k => objects[c[k - 1 - j]])
  }

  /** The argument tuples the loop over one `k`-parameter action tries, in order. */
  function Combos(objects: seq<nat>, k: nat): (combos: seq<seq<nat>>)
    requires |objects| >= 2
    ensures |combos| == Pow(|objects|, k)
    ensures forall t :: 0 <= t < |combos| ==> |combos[t]| == k
    ensures forall t, j :: 0 <= t < |combos| && 0 <= j < k ==> combos[t][j] in objects
  {
    var n := |objects|;
    VisitAll(k, n);
    var cs := Visit(Zeros(k + 1), k, n);
    seq(|cs|, t requires 0 <= t < |cs| => ArgsOf(objects, cs[t], k))
  }

  /** Every tuple of `k` objects is tried. */
  lemma EveryArgumentTupleTried(objects: seq<nat>, k: nat, args: seq<nat>)
    requires |objects| >= 2 && |args| == k && forall j :: 0 <= j < k ==> args[j] in objects
    ensures args in Combos(objects, k)
  {
    var n := |objects|;
    VisitAll(k, n);
    var cs := Visit(Zeros(k + 1), k, n);
    var c := CounterOf(objects, args);
    var t :| 0 <= t < |cs| && cs[t] == c;
    assert ArgsOf(objects, cs[t], k) == args;
    assert Combos(objects, k)[t] == args;
  }

  /** The counter that selects `args`. */
  function CounterOf(objects: seq<nat>, args: seq<nat>): (c: seq<nat>)
    requires |objects| >= 1 && forall j :: 0 <= j < |args| ==> args[j] in objects
    ensures |c| == |args| + 1
    ensures Digits(c, |objects|)
    ensures c[|args|] == 0
    ensures forall j :: 0 <= j < |args| ==> objects[c[|args| - 1 - j]] == args[j]
  {
    var k := |args|;
    var c := seq(k + 1, i requires 0 <= i < k + 1 => if i < k then IndexOf(objects, args[k - 1 - i]) else 0);
    assert forall j :: 0 <= j < k ==> c[k - 1 - j] == IndexOf(objects, args[j]);
    c
  }

  /** With distinct objects, counters with the same guard that select the same arguments are equal. */
  lemma ArgsOfInjective(objects: seq<nat>, c: seq<nat>, d: seq<nat>, k: nat)
    requires Distinct(objects) && |c| == k + 1 && |d| == k + 1 && c[k] == d[k]
    requires Digits(c, |objects|) && Digits(d, |objects|)
    requires ArgsOf(objects, c, k) == ArgsOf(objects, d, k)
    ensures c == d
  {
    forall i | 0 <= i < k ensures c[i] == d[i] {
      assert ArgsOf(objects, c, k)[k - 1 - i] == objects[c[i]];
      assert ArgsOf(objects, d, k)[k - 1 - i] == objects[d[i]];
    }
  }

  /** With distinct objects, no argument tuple is tried twice. */
  lemma CombosDistinct(objects: seq<nat>, k: nat)
    requires |objects| >= 2 && Distinct(objects)
    ensures Distinct(Combos(objects, k))
  {
    var n := |objects|;
    VisitAll(k, n);
    var cs := Visit(Zeros(k + 1), k, n);
    var combos := Combos(objects, k);
    forall t | 0 <= t < |cs|
      ensures |cs[t]| == k + 1 && Digits(cs[t], n) && cs[t][k] == 0 && combos[t] == ArgsOf(objects, cs[t], k)
    {
      GuardValue(cs[t], n);
    }
    DistinctArgs(objects, cs, combos, k);
  }

  /** Distinct counters with guard 0 select distinct argument tuples. */
  lemma DistinctArgs(objects: seq<nat>, cs: seq<seq<nat>>, combos: seq<seq<nat>>, k: nat)
    requires Distinct(objects) && Distinct(cs) && |combos| == |cs|
    requires forall t :: 0 <= t < |cs| ==>
               && |cs[t]| == k + 1 && Digits(cs[t], |objects|) && cs[t][k] == 0
               && combos[t] == ArgsOf(objects, cs[t], k)
    ensures Distinct(combos)
  {
    forall s, t | 0 <= s < t < |combos| ensures combos[s] != combos[t] {
      if combos[s] == combos[t] {
        ArgsOfInjective(objects, cs[s], cs[t], k);
      }
    }
  }

  function IndexOf(xs: seq<nat>, x: nat): (i: nat)
    requires x in xs
    ensures i < |xs| && xs[i] == x
  {
    if xs[0] == x then 0 else 1 + IndexOf(xs[1..], x)
  }
}
