/**
 * The enumeration of goal subsets in `critical_path` (solver.cpp): an
 * array of `power` strictly increasing positions among the `n` facts of
 * the goal, started at 0, 1, .., power-1 and advanced by the update loop
 * until the loop test fails.
 */
module Subsets {
  import O = Odometer

  /** Strictly increasing positions below `n`: a choice of `|v|` facts out of `n`. */
  predicate Choice(v: seq<nat>, n: nat) {
    && (forall i, j :: 0 <= i < j < |v| ==> v[i] < v[j])
    && (forall i :: 0 <= i < |v| ==> v[i] < n)
  }

  /** The initial positions 0, 1, .., power-1. */
  function First(power: nat): (v: seq<nat>)
    ensures |v| == power && forall i :: 0 <= i < power ==> v[i] == i
    ensures forall n :: power <= n ==> Choice(v, n)
  {
    seq(power, i => i)
  }

  /** The loop test: the first position below `n - power`, or the last one below `n`. */
  predicate Continue(v: seq<nat>, n: nat)
    requires 1 <= |v| <= n
  {
    v[0] < n - |v| || v[|v| - 1] <= n - 1
  }

  /** The inner loop of the update: each position from `j` on is one more than the previous one. */
  function Refill(v: seq<nat>, j: nat): (r: seq<nat>)
    requires 1 <= j <= |v|
    ensures |r| == |v| && r[..j] == v[..j]
    ensures forall m :: j - 1 <= m < |v| ==> r[m] == v[j - 1] + (m - (j - 1))
    decreases |v| - j
  {
    if j == |v| then v
    else
      var v' := v[j := v[j - 1] + 1];
      var r := Refill(v', j + 1);
      assert r[..j] == r[..j + 1][..j] == v'[..j + 1][..j] == v[..j];
      r
  }

  /**
   * The update loop from position `i`: at the first `i` whose successor
   * sits at its highest value `n - power + i + 1`, position `i` is
   * incremented and the following ones refilled; with no such `i` the last
   * position is incremented.
   */
  function Advance(v: seq<nat>, n: nat, i: nat): (r: seq<nat>)
    requires 1 <= |v| <= n && i < |v|
    ensures |r| == |v|
    decreases |v| - i
  {
    var power := |v|;
    if i < power - 1 && v[i + 1] == n - power + i + 1 then Refill(v[i := v[i] + 1], i + 1)
    else if i == power - 1 then v[i := v[i] + 1]
    else Advance(v, n, i + 1)
  }

  function Next(v: seq<nat>, n: nat): (r: seq<nat>)
    requires 1 <= |v| <= n
    ensures |r| == |v|
  {
    Advance(v, n, 0)
  }

  // ----- the shape of one update -----

  /** The position the update increments: the first whose successor is at its highest value, else the last. */
  function Pivot(v: seq<nat>, n: nat, i: nat): (k: nat)
    requires 1 <= |v| <= n && i < |v|
    ensures i <= k < |v|
    decreases |v| - i
  {
    var power := |v|;
    if i < power - 1 && v[i + 1] == n - power + i + 1 then i
    else if i == power - 1 then i
    else Pivot(v, n, i + 1)
  }

  /** The update keeps the positions before the pivot and counts up from the incremented pivot. */
  lemma {:induction false} AdvanceShape(v: seq<nat>, n: nat, i: nat)
    requires 1 <= |v| <= n && i < |v|
    ensures var r, k := Advance(v, n, i), Pivot(v, n, i);
      && r[..k] == v[..k]
      && forall m :: k <= m < |v| ==> r[m] == v[k] + 1 + (m - k)
    decreases |v| - i
  {
    var power := |v|;
    if i < power - 1 && v[i + 1] == n - power + i + 1 {
      var v' := v[i := v[i] + 1];
      assert v'[..i] == v[..i];
      var r := Refill(v', i + 1);
      assert r[..i] == r[..i + 1][..i];
    } else if i == power - 1 {
      assert v[i := v[i] + 1][..i] == v[..i];
    } else {
      AdvanceShape(v, n, i + 1);
    }
  }

  /** No position before the pivot has a successor at its highest value; the pivot's successor has. */
  lemma {:induction false} PivotProperties(v: seq<nat>, n: nat, i: nat)
    requires 1 <= |v| <= n && i < |v|
    ensures var k := Pivot(v, n, i);
      && (forall m :: i < m <= k ==> v[m] != n - |v| + m)
      && (k < |v| - 1 ==> v[k + 1] == n - |v| + k + 1)
    decreases |v| - i
  {
    var power := |v|;
    if !(i < power - 1 && v[i + 1] == n - power + i + 1) && i != power - 1 {
      PivotProperties(v, n, i + 1);
    }
  }

  /** Strictly increasing naturals grow by at least one per position. */
  lemma {:induction false} Spread(v: seq<nat>, m: nat, j: nat)
    requires forall a, b :: 0 <= a < b < |v| ==> v[a] < v[b]
    requires m <= j < |v|
    ensures v[j] >= v[m] + (j - m)
    decreases j - m
  {
    if m < j {
      Spread(v, m, j - 1);
    }
  }

  /** In a choice of `p` out of `n`, position `m` lies between `m` and `n - p + m`. */
  lemma Bounds(v: seq<nat>, n: nat, m: nat)
    requires Choice(v, n) && m < |v|
    ensures m <= v[m] <= n - |v| + m
  {
    Spread(v, 0, m);
    Spread(v, m, |v| - 1);
  }

  /** What the update of a choice looks like, around its pivot `k`. */
  lemma NextShape(v: seq<nat>, n: nat)
    requires Choice(v, n) && 1 <= |v| <= n
    ensures var r, k := Next(v, n), Pivot(v, n, 0);
      && r[..k] == v[..k]
      && (forall m :: k <= m < |v| ==> r[m] == v[k] + 1 + (m - k))
      && (forall m :: k < m < |v| ==> v[m] == n - |v| + m)
      && (1 <= k ==> v[k] < n - |v| + k)
  {
    var k := Pivot(v, n, 0);
    AdvanceShape(v, n, 0);
    PivotProperties(v, n, 0);
    forall m | k < m < |v| ensures v[m] == n - |v| + m {
      Bounds(v, n, m);
      Spread(v, k + 1, m);
    }
    if 1 <= k {
      Bounds(v, n, k);
      assert v[k] != n - |v| + k;
    }
  }

  // ----- lexicographic order -----

  /** `v` is below `w` in lexicographic order, and they first differ at `d`. */
  predicate LexLessAt(v: seq<nat>, w: seq<nat>, d: nat) {
    d < |v| == |w| && v[..d] == w[..d] && v[d] < w[d]
  }

  ghost predicate LexLess(v: seq<nat>, w: seq<nat>) {
    exists d :: LexLessAt(v, w, d)
  }

  /** The first position where two sequences of one length differ. */
  function FirstDiff(v: seq<nat>, w: seq<nat>, from: nat): (d: nat)
    requires |v| == |w| && from <= |v|
    requires forall e :: 0 <= e < from ==> v[e] == w[e]
    requires exists e :: from <= e < |v| && v[e] != w[e]
    ensures from <= d < |v| && v[d] != w[d]
    ensures forall e :: 0 <= e < d ==> v[e] == w[e]
    ensures v[..d] == w[..d]
    decreases |v| - from
  {
    if v[from] != w[from] then from
    else FirstDiff(v, w, from + 1)
  }

  /** The positions 0, 1, .., p-1 come first among all choices of `p`. */
  lemma FirstIsLeast(w: seq<nat>, n: nat)
    requires Choice(w, n)
    ensures First(|w|) == w || LexLess(First(|w|), w)
  {
    var f := First(|w|);
    if f != w {
      assert exists e :: 0 <= e < |w| && f[e] != w[e];
      var d := FirstDiff(f, w, 0);
      Bounds(w, n, d);
      assert LexLessAt(f, w, d);
    }
  }

  /** The update moves a choice up in lexicographic order. */
  lemma NextIsGreater(v: seq<nat>, n: nat)
    requires Choice(v, n) && 1 <= |v| <= n
    ensures LexLessAt(v, Next(v, n), Pivot(v, n, 0))
  {
    NextShape(v, n);
  }

  /** After the update of a choice, the loop test holds exactly when the result is a choice. */
  lemma NextContinues(v: seq<nat>, n: nat)
    requires Choice(v, n) && 1 <= |v| <= n
    ensures Continue(Next(v, n), n) <==> Choice(Next(v, n), n)
  {
    var r, k, p := Next(v, n), Pivot(v, n, 0), |v|;
    NextShape(v, n);
    Bounds(v, n, k);
    assert r[p - 1] == v[k] + (p - k);
    IncreasingNext(v, n);
    if k >= 1 {
      assert r[p - 1] < n;
    } else if v[0] < n - p {
      assert r[p - 1] < n;
    } else {
      assert r[0] == n - p + 1 && r[p - 1] == n;
    }
  }

  /** The update keeps the positions strictly increasing. */
  lemma IncreasingNext(v: seq<nat>, n: nat)
    requires Choice(v, n) && 1 <= |v| <= n
    ensures forall i, j :: 0 <= i < j < |Next(v, n)| ==> Next(v, n)[i] < Next(v, n)[j]
  {
    var r, k := Next(v, n), Pivot(v, n, 0);
    NextShape(v, n);
    forall i, j | 0 <= i < j < |r| ensures r[i] < r[j] {
      if j < k {
        assert r[i] == r[..k][i] == v[i] && r[j] == r[..k][j] == v[j];
      } else if i < k {
        assert r[i] == r[..k][i] == v[i];
        assert r[j] >= v[k] + 1;
      }
    }
  }

  /**
   * The update reaches the next choice in lexicographic order: any choice
   * above `v` is the update's result or above it.
   */
  lemma NextIsSuccessor(v: seq<nat>, w: seq<nat>, n: nat, d: nat)
    requires Choice(v, n) && Choice(w, n) && 1 <= |v| <= n && LexLessAt(v, w, d)
    ensures Choice(Next(v, n), n)
    ensures Next(v, n) == w || LexLess(Next(v, n), w)
  {
    var r, k, p := Next(v, n), Pivot(v, n, 0), |v|;
    NextShape(v, n);
    Bounds(w, n, d);
    assert w[d] > v[d];
    // the pivot is at or after the first difference
    assert d <= k;
    NextContinues(v, n);
    IncreasingNext(v, n);
    if d < k {
      assert r[..d] == r[..k][..d] == v[..d] == w[..d];
      assert r[d] == r[..k][d] == v[d];
      assert LexLessAt(r, w, d);
      Bounds(v, n, k);
      assert r[p - 1] < n;
    } else {
      assert r[..d] == v[..d] == w[..d];
      assert r[d] == v[d] + 1 <= w[d];
      forall m | d <= m < p ensures r[m] <= w[m] {
        Spread(w, d, m);
      }
      assert r[p - 1] < n by {
        assert r[p - 1] <= w[p - 1];
      }
      if r != w {
        assert exists e :: 0 <= e < |w| && r[e] != w[e];
        var e := FirstDiff(r, w, 0);
        assert LexLessAt(r, w, e);
      }
    }
  }

  // ----- rank: the choices as numbers -----

  /** The positions read as the digits of a number in base `b`, most significant first. */
  function Rank(v: seq<nat>, b: nat): nat
    decreases |v|
  {
    if |v| == 0 then 0 else v[0] * O.Pow(b, |v| - 1) + Rank(v[1..], b)
  }

  predicate Below(v: seq<nat>, b: nat) {
    forall i :: 0 <= i < |v| ==> v[i] < b
  }

  lemma {:induction false} RankBound(v: seq<nat>, b: nat)
    requires Below(v, b)
    ensures Rank(v, b) < O.Pow(b, |v|)
    decreases |v|
  {
    if |v| > 0 {
      RankBound(v[1..], b);
      var w := O.Pow(b, |v| - 1);
      O.MulMono(w, v[0] + 1, b);
      assert (v[0] + 1) * w == w * (v[0] + 1) && b * w == w * b;
      O.MulSucc(v[0], w);
    }
  }

  /** Lexicographic order is the order of ranks. */
  lemma {:induction false} RankLex(v: seq<nat>, w: seq<nat>, b: nat, d: nat)
    requires Below(v, b) && Below(w, b) && LexLessAt(v, w, d)
    ensures Rank(v, b) < Rank(w, b)
    decreases |v|
  {
    if d == 0 {
      RankBound(v[1..], b);
      var x := O.Pow(b, |v| - 1);
      O.MulMono(x, v[0] + 1, w[0]);
      assert (v[0] + 1) * x == x * (v[0] + 1) && w[0] * x == x * w[0];
      O.MulSucc(v[0], x);
    } else {
      assert v[0] == v[..d][0] == w[..d][0] == w[0];
      assert v[1..][..d - 1] == v[..d][1..] && w[1..][..d - 1] == w[..d][1..];
      RankLex(v[1..], w[1..], b, d - 1);
    }
  }

  // ----- the enumeration -----

  /**
   * The index arrays the loop of `critical_path` runs its body on, from
   * `v`: `v` itself, then the updates while the loop test holds.
   */
  function Enumerate(v: seq<nat>, n: nat): (vs: seq<seq<nat>>)
    requires Choice(v, n) && 1 <= |v| <= n
    ensures |vs| >= 1 && vs[0] == v
    ensures forall t :: 0 <= t < |vs| ==> |vs[t]| == |v| && Choice(vs[t], n)
    ensures forall s, t :: 0 <= s < t < |vs| ==> Rank(vs[s], n) < Rank(vs[t], n)
    decreases O.Pow(n, |v|) - Rank(v, n)
  {
    var next := Next(v, n);
    NextContinues(v, n);
    if Continue(next, n) then
      NextIsGreater(v, n);
      RankLex(v, next, n, Pivot(v, n, 0));
      RankBound(next, n);
      var rest := Enumerate(next, n);
      [v] + rest
    else
      [v]
  }

  /** From `v`, the loop runs its body on every choice at or above `v`. */
  lemma {:induction false} EnumerateCovers(v: seq<nat>, w: seq<nat>, n: nat)
    requires Choice(v, n) && Choice(w, n) && 1 <= |v| <= n && |w| == |v|
    requires v == w || LexLess(v, w)
    ensures w in Enumerate(v, n)
    decreases O.Pow(n, |v|) - Rank(v, n)
  {
    if v != w {
      var d :| LexLessAt(v, w, d);
      NextIsSuccessor(v, w, n, d);
      var next := Next(v, n);
      NextContinues(v, n);
      NextIsGreater(v, n);
      RankLex(v, next, n, Pivot(v, n, 0));
      RankBound(next, n);
      EnumerateCovers(next, w, n);
    }
  }

  /**
   * The loop of `critical_path` runs its body once on every choice of
   * `power` facts out of `n`, and on nothing else, each time on a
   * different one.
   */
  lemma EnumerateAll(power: nat, n: nat)
    requires 1 <= power <= n
    ensures Choice(First(power), n)
    ensures forall w :: |w| == power && Choice(w, n) ==> w in Enumerate(First(power), n)
    ensures forall w :: w in Enumerate(First(power), n) ==> |w| == power && Choice(w, n)
    ensures forall s, t :: 0 <= s < t < |Enumerate(First(power), n)| ==> Enumerate(First(power), n)[s] != Enumerate(First(power), n)[t]
  {
    var vs := Enumerate(First(power), n);
    forall w | |w| == power && Choice(w, n) ensures w in vs {
      FirstIsLeast(w, n);
      EnumerateCovers(First(power), w, n);
    }
    forall s, t | 0 <= s < t < |vs| ensures vs[s] != vs[t] {
      assert Rank(vs[s], n) < Rank(vs[t], n);
    }
  }
}
