/**
 * The per-predicate discrimination tree (data_structures/kdt.hpp).
 *
 * A node at depth d compares coordinate d mod k of the tuples, k being the
 * tree's dimension. Insert, contains and erase walk the same path: a tuple
 * that differs from the node's value but is smaller or equal on the current
 * coordinate goes left, a strictly greater one goes right, the node's own
 * value stops the walk. The source keeps the coordinate of the current level
 * in an argument and passes `(c + 1) % k` one level down; so does this model.
 */
module KdTree {
  import opened Tuples

  datatype Tree = Nil | Node(left: Tree, value: Tuple, right: Tree)

  /** A tree with its dimension and the node counter the source keeps beside the root. */
  datatype Kdt = Kdt(dimension: nat, size: nat, root: Tree)

  /** The coordinate compared one level further down. */
  function Next(c: nat, k: nat): (n: nat)
    requires k > 0
    ensures n < k
  {
    (c + 1) % k
  }

  function Elements(t: Tree): set<Tuple> {
    match t
    case Nil => {}
    case Node(l, x, r) => Elements(l) + {x} + Elements(r)
  }

  function Count(t: Tree): nat {
    match t
    case Nil => 0
    case Node(l, _, r) => Count(l) + 1 + Count(r)
  }

  /** The order in which the tree's iterator visits the nodes: leftmost first, then successors. */
  function InOrder(t: Tree): seq<Tuple> {
    match t
    case Nil => []
    case Node(l, x, r) => InOrder(l) + [x] + InOrder(r)
  }

  /** Every stored tuple has the tree's dimension. */
  predicate Fits(t: Tree, k: nat) {
    forall y :: y in Elements(t) ==> |y| == k
  }

  /**
   * The search invariant of a k-d tree whose root compares coordinate `c`:
   * the left subtree holds values other than the node's that are smaller or
   * equal on `c`, the right subtree values strictly greater on `c`.
   */
  predicate Ordered(t: Tree, c: nat, k: nat)
    requires c < k && Fits(t, k)
  {
    match t
    case Nil => true
    case Node(l, x, r) =>
      && (forall y :: y in Elements(l) ==> y != x && y[c] <= x[c])
      && (forall y :: y in Elements(r) ==> y[c] > x[c])
      && Ordered(l, Next(c, k), k)
      && Ordered(r, Next(c, k), k)
  }

  /**
   * The private recursive `insert`: 0 when a new node was created at the end
   * of the path, 1 when the walk stopped on a node holding the value.
   */
  function InsertAt(t: Tree, c: nat, k: nat, v: Tuple): (res: (Tree, int))
    requires c < k && |v| == k && Fits(t, k)
    ensures Fits(res.0, k)
    ensures Elements(res.0) == Elements(t) + {v}
    ensures res.1 == 0 || res.1 == 1
    ensures res.1 == 0 ==> Count(res.0) == Count(t) + 1
    ensures res.1 == 1 ==> res.0 == t
  {
    match t
    case Nil => (Node(Nil, v, Nil), 0)
    case Node(l, x, r) =>
      if v[c] == x[c] && v != x then
        var sub := InsertAt(l, Next(c, k), k, v);
        (Node(sub.0, x, r), sub.1)
      else if v[c] < x[c] then
        var sub := InsertAt(l, Next(c, k), k, v);
        (Node(sub.0, x, r), sub.1)
      else if v[c] > x[c] then
        var sub := InsertAt(r, Next(c, k), k, v);
        (Node(l, x, sub.0), sub.1)
      else
        (t, 1)
  }

  /** The private recursive `contains`: `<=` on the current coordinate goes left. */
  function ContainsAt(t: Tree, c: nat, k: nat, v: Tuple): (b: bool)
    requires c < k && |v| == k && Fits(t, k)
    ensures b ==> v in Elements(t)
  {
    match t
    case Nil => false
    case Node(l, x, r) =>
      if v == x then true
      else if v[c] <= x[c] then ContainsAt(l, Next(c, k), k, v)
      else ContainsAt(r, Next(c, k), k, v)
  }

  /** Inserts the values one after another, in the order given. */
  function InsertAll(t: Tree, c: nat, k: nat, xs: seq<Tuple>): (r: Tree)
    requires c < k && Fits(t, k)
    requires forall y :: y in xs ==> |y| == k
    ensures Fits(r, k)
    ensures Elements(r) == Elements(t) + set y | y in xs
    decreases |xs|
  {
    if |xs| == 0 then t
    else
      assert xs == [xs[0]] + xs[1..];
      InsertAll(InsertAt(t, c, k, xs[0]).0, c, k, xs[1..])
  }

  /**
   * Builds the replacement for an erased node from the values of its two
   * subtrees, re-inserted at the erased node's level.
   */
  function Rebuild(l: Tree, r: Tree, c: nat, k: nat): (t: Tree)
    requires c < k && Fits(l, k) && Fits(r, k)
    ensures Fits(t, k)
    ensures Elements(t) == Elements(l) + Elements(r)
  {
    InOrderElements(l);
    InOrderElements(r);
    InsertAll(InsertAll(Nil, c, k, InOrder(l)), c, k, InOrder(r))
  }

  /**
   * `erase` as the source writes it, for the cases it splices: the walk follows
   * `insert`'s path; a node holding the value is replaced by its right subtree
   * when it has no left one, and by its left subtree when it has no right one.
   * The two-children case (kdt.hpp:219-231) is not part of this model, hence the
   * requirement that the erased node has at most one child.
   */
  function EraseAtAsWritten(t: Tree, c: nat, k: nat, v: Tuple): (res: (Tree, int))
    requires c < k && |v| == k && Fits(t, k)
    requires SplicesOnly(t, c, k, v)
    ensures Fits(res.0, k)
    ensures Elements(res.0) <= Elements(t)
    ensures res.1 == 0 || res.1 == 1
    ensures res.1 == 1 ==> res.0 == t
    ensures res.1 == 0 ==> Count(res.0) + 1 == Count(t)
    ensures res.1 == 0 <==> ContainsAt(t, c, k, v)
    ensures Ordered(t, c, k) && res.1 == 0 ==> Elements(res.0) == Elements(t) - {v}
  {
    match t
    case Nil => (Nil, 1)
    case Node(l, x, r) =>
      if v[c] == x[c] && v != x then
        var sub := EraseAtAsWritten(l, Next(c, k), k, v);
        (Node(sub.0, x, r), sub.1)
      else if v[c] < x[c] then
        var sub := EraseAtAsWritten(l, Next(c, k), k, v);
        (Node(sub.0, x, r), sub.1)
      else if v[c] > x[c] then
        var sub := EraseAtAsWritten(r, Next(c, k), k, v);
        (Node(l, x, sub.0), sub.1)
      else if l == Nil then
        (r, 0)
      else
        (l, 0)
  }

  /** The node `erase` would remove, if any, has at most one child. */
  predicate SplicesOnly(t: Tree, c: nat, k: nat, v: Tuple)
    requires c < k && |v| == k && Fits(t, k)
  {
    match t
    case Nil => true
    case Node(l, x, r) =>
      if v[c] == x[c] && v != x then SplicesOnly(l, Next(c, k), k, v)
      else if v[c] < x[c] then SplicesOnly(l, Next(c, k), k, v)
      else if v[c] > x[c] then SplicesOnly(r, Next(c, k), k, v)
      else l == Nil || r == Nil
  }

  /**
   * Erase with the defect corrected: the walk is the source's, but the node
   * holding the value is replaced by its subtrees' values re-inserted at that
   * level, so that every remaining value keeps a path that reaches it.
   */
  function EraseAt(t: Tree, c: nat, k: nat, v: Tuple): (res: (Tree, int))
    requires c < k && |v| == k && Fits(t, k)
    ensures Fits(res.0, k)
    ensures Elements(res.0) <= Elements(t)
    ensures res.1 == 0 || res.1 == 1
    ensures res.1 == 1 ==> res.0 == t
  {
    match t
    case Nil => (Nil, 1)
    case Node(l, x, r) =>
      if v[c] == x[c] && v != x then
        var sub := EraseAt(l, Next(c, k), k, v);
        (Node(sub.0, x, r), sub.1)
      else if v[c] < x[c] then
        var sub := EraseAt(l, Next(c, k), k, v);
        (Node(sub.0, x, r), sub.1)
      else if v[c] > x[c] then
        var sub := EraseAt(r, Next(c, k), k, v);
        (Node(l, x, sub.0), sub.1)
      else
        (Rebuild(l, r, c, k), 0)
  }

  // ----- tree-level lemmas -----

  lemma {:induction false} InOrderElements(t: Tree)
    ensures (set y | y in InOrder(t)) == Elements(t)
    ensures |InOrder(t)| == Count(t)
  {
    match t
    case Nil =>
    case Node(l, x, r) =>
      InOrderElements(l);
      InOrderElements(r);
      assert InOrder(t) == InOrder(l) + [x] + InOrder(r);
  }

  /** Cardinality of a union of two disjoint sets. */
  lemma DisjointUnion<T>(a: set<T>, b: set<T>)
    requires a !! b
    ensures |a + b| == |a| + |b|
  {
    assert a * b == {};
  }

  /** The values at a node whose subtrees and value are pairwise apart. */
  lemma NodeCardinality(t: Tree)
    requires t.Node?
    requires Elements(t.left) !! Elements(t.right)
    requires t.value !in Elements(t.left) && t.value !in Elements(t.right)
    ensures |Elements(t)| == |Elements(t.left)| + |Elements(t.right)| + 1
  {
    var el, er := Elements(t.left), Elements(t.right);
    DisjointUnion(el, er);
    DisjointUnion(el + er, {t.value});
    assert Elements(t) == (el + er) + {t.value};
  }

  /** At a node of an ordered tree the two subtrees and the node's value are pairwise apart. */
  lemma SidesApart(t: Tree, c: nat, k: nat)
    requires c < k && Fits(t, k) && Ordered(t, c, k) && t.Node?
    ensures Elements(t.left) !! Elements(t.right)
    ensures t.value !in Elements(t.left) && t.value !in Elements(t.right)
  {
    forall y | y in Elements(t.left)
      ensures y !in Elements(t.right)
    {
      assert y[c] <= t.value[c];
    }
  }

  /** `insert` reports a duplicate exactly when `contains` would find the value. */
  lemma {:induction false} InsertCodeMatchesContains(t: Tree, c: nat, k: nat, v: Tuple)
    requires c < k && |v| == k && Fits(t, k)
    ensures InsertAt(t, c, k, v).1 == 1 <==> ContainsAt(t, c, k, v)
  {
    match t
    case Nil =>
    case Node(l, x, r) =>
      if v == x {
      } else if v[c] <= x[c] {
        InsertCodeMatchesContains(l, Next(c, k), k, v);
      } else {
        InsertCodeMatchesContains(r, Next(c, k), k, v);
      }
  }

  /** Under the search invariant `contains` finds exactly the stored values. */
  lemma {:induction false} ContainsComplete(t: Tree, c: nat, k: nat, v: Tuple)
    requires c < k && |v| == k && Fits(t, k) && Ordered(t, c, k)
    ensures ContainsAt(t, c, k, v) <==> v in Elements(t)
  {
    match t
    case Nil =>
    case Node(l, x, r) =>
      if v == x {
      } else if v[c] <= x[c] {
        ContainsComplete(l, Next(c, k), k, v);
        assert v !in Elements(r);
      } else {
        ContainsComplete(r, Next(c, k), k, v);
        assert v !in Elements(l);
      }
  }

  /** Insertion keeps the search invariant. */
  lemma {:induction false} InsertOrdered(t: Tree, c: nat, k: nat, v: Tuple)
    requires c < k && |v| == k && Fits(t, k) && Ordered(t, c, k)
    ensures Ordered(InsertAt(t, c, k, v).0, c, k)
  {
    match t
    case Nil =>
    case Node(l, x, r) =>
      if v[c] == x[c] && v != x {
        InsertOrdered(l, Next(c, k), k, v);
      } else if v[c] < x[c] {
        InsertOrdered(l, Next(c, k), k, v);
      } else if v[c] > x[c] {
        InsertOrdered(r, Next(c, k), k, v);
      }
  }

  /** Insert and contains follow the same path, so an inserted value is found. */
  lemma {:induction false} InsertThenContains(t: Tree, c: nat, k: nat, v: Tuple)
    requires c < k && |v| == k && Fits(t, k)
    ensures ContainsAt(InsertAt(t, c, k, v).0, c, k, v)
  {
    match t
    case Nil =>
    case Node(l, x, r) =>
      if v[c] == x[c] && v != x {
        InsertThenContains(l, Next(c, k), k, v);
      } else if v[c] < x[c] {
        InsertThenContains(l, Next(c, k), k, v);
      } else if v[c] > x[c] {
        InsertThenContains(r, Next(c, k), k, v);
      }
  }

  /** A later insert never loses a value `contains` already finds. */
  lemma {:induction false} InsertKeepsContained(t: Tree, c: nat, k: nat, v: Tuple, w: Tuple)
    requires c < k && |v| == k && |w| == k && Fits(t, k)
    requires ContainsAt(t, c, k, w)
    ensures ContainsAt(InsertAt(t, c, k, v).0, c, k, w)
  {
    match t
    case Nil =>
    case Node(l, x, r) =>
      if w == x {
      } else if v[c] == x[c] && v != x {
        if w[c] <= x[c] {
          InsertKeepsContained(l, Next(c, k), k, v, w);
        }
      } else if v[c] < x[c] {
        if w[c] <= x[c] {
          InsertKeepsContained(l, Next(c, k), k, v, w);
        }
      } else if v[c] > x[c] {
        if w[c] > x[c] {
          InsertKeepsContained(r, Next(c, k), k, v, w);
        }
      }
  }

  /** Under the invariant no value is stored twice, so the node count is the number of values. */
  lemma {:induction false} CountIsCardinality(t: Tree, c: nat, k: nat)
    requires c < k && Fits(t, k) && Ordered(t, c, k)
    ensures Count(t) == |Elements(t)|
  {
    match t
    case Nil =>
    case Node(l, x, r) =>
      CountIsCardinality(l, Next(c, k), k);
      CountIsCardinality(r, Next(c, k), k);
      SidesApart(t, c, k);
      NodeCardinality(t);
  }

  lemma {:induction false} InsertAllOrdered(t: Tree, c: nat, k: nat, xs: seq<Tuple>)
    requires c < k && Fits(t, k) && Ordered(t, c, k)
    requires forall i :: 0 <= i < |xs| ==> |xs[i]| == k
    ensures Ordered(InsertAll(t, c, k, xs), c, k)
    decreases |xs|
  {
    if |xs| > 0 {
      InsertOrdered(t, c, k, xs[0]);
      InsertAllOrdered(InsertAt(t, c, k, xs[0]).0, c, k, xs[1..]);
    }
  }

  /** The corrected erase keeps the invariant and removes exactly the value. */
  lemma {:induction false} EraseCorrect(t: Tree, c: nat, k: nat, v: Tuple)
    requires c < k && |v| == k && Fits(t, k) && Ordered(t, c, k)
    ensures Ordered(EraseAt(t, c, k, v).0, c, k)
    ensures Elements(EraseAt(t, c, k, v).0) == Elements(t) - {v}
    ensures EraseAt(t, c, k, v).1 == 0 <==> v in Elements(t)
    ensures Count(EraseAt(t, c, k, v).0) == if v in Elements(t) then Count(t) - 1 else Count(t)
  {
    match t
    case Nil =>
    case Node(l, x, r) =>
      var c' := Next(c, k);
      if v[c] == x[c] && v != x {
        EraseCorrect(l, c', k, v);
        assert v !in Elements(r);
      } else if v[c] < x[c] {
        EraseCorrect(l, c', k, v);
        assert v !in Elements(r);
      } else if v[c] > x[c] {
        EraseCorrect(r, c', k, v);
        assert v !in Elements(l);
      } else {
        assert v == x;
        RebuildOrdered(l, r, c, k);
        RebuildElements(t, c, k);
        RebuildSize(t, c, k);
      }
  }

  /** Re-inserting any two value lists into an empty tree yields an ordered tree. */
  lemma RebuildOrdered(l: Tree, r: Tree, c: nat, k: nat)
    requires c < k && Fits(l, k) && Fits(r, k)
    ensures Ordered(Rebuild(l, r, c, k), c, k)
  {
    InOrderElements(l);
    InOrderElements(r);
    InsertAllOrdered(Nil, c, k, InOrder(l));
    InsertAllOrdered(InsertAll(Nil, c, k, InOrder(l)), c, k, InOrder(r));
  }

  /** The replacement of an erased node holds the node's other values. */
  lemma RebuildElements(t: Tree, c: nat, k: nat)
    requires c < k && Fits(t, k) && Ordered(t, c, k) && t.Node?
    ensures Elements(Rebuild(t.left, t.right, c, k)) == Elements(t) - {t.value}
  {
    SidesApart(t, c, k);
  }

  /** The replacement of an erased node has one node fewer. */
  lemma RebuildSize(t: Tree, c: nat, k: nat)
    requires c < k && Fits(t, k) && Ordered(t, c, k) && t.Node?
    ensures Count(Rebuild(t.left, t.right, c, k)) == Count(t) - 1
  {
    SidesApart(t, c, k);
    CountIsCardinality(t.left, Next(c, k), k);
    CountIsCardinality(t.right, Next(c, k), k);
    RebuildCount(t.left, t.right, c, k);
  }

  lemma RebuildCount(l: Tree, r: Tree, c: nat, k: nat)
    requires c < k && Fits(l, k) && Fits(r, k) && Elements(l) !! Elements(r)
    ensures Count(Rebuild(l, r, c, k)) == |Elements(l)| + |Elements(r)|
  {
    RebuildOrdered(l, r, c, k);
    CountIsCardinality(Rebuild(l, r, c, k), c, k);
    DisjointUnion(Elements(l), Elements(r));
  }

  // ----- the tree object -----

  /** The object invariant: a positive dimension, the search invariant and a node counter that matches. */
  predicate Valid(kd: Kdt) {
    && kd.dimension >= 1
    && Fits(kd.root, kd.dimension)
    && Ordered(kd.root, 0, kd.dimension)
    && kd.size == Count(kd.root)
  }

  /** `kdt(dimension)`: no root and a counter at 0. */
  function NewKdt(k: nat): (kd: Kdt)
    ensures kd.dimension == k && kd.size == 0 && Empty(kd)
    ensures Elements(kd.root) == {}
    ensures k >= 1 ==> Valid(kd)
  {
    Kdt(k, 0, Nil)
  }

  /** `size()`: the counter, which the invariant ties to the number of stored values. */
  function Size(kd: Kdt): (n: nat)
    ensures Valid(kd) ==> n == |Elements(kd.root)|
  {
    if Valid(kd) then CountIsCardinality(kd.root, 0, kd.dimension); kd.size else kd.size
  }

  /** `empty()`: true exactly when there is no root. */
  function Empty(kd: Kdt): (b: bool)
    ensures b <==> Elements(kd.root) == {}
    ensures Valid(kd) ==> (b <==> kd.size == 0)
  {
    if kd.root.Node? then assert kd.root.value in Elements(kd.root); false else true
  }

  /** `insert`: 0 and one more value when the value was absent, 1 and no change when present. */
  function Insert(kd: Kdt, v: Tuple): (res: (Kdt, int))
    requires Valid(kd) && |v| == kd.dimension
    ensures Valid(res.0) && res.0.dimension == kd.dimension
    ensures Elements(res.0.root) == Elements(kd.root) + {v}
    ensures res.1 == 0 || res.1 == 1
    ensures res.1 == 0 <==> v !in Elements(kd.root)
    ensures res.0.size == if res.1 == 0 then kd.size + 1 else kd.size
    ensures res.1 == 1 ==> res.0 == kd
  {
    var sub := InsertAt(kd.root, 0, kd.dimension, v);
    InsertOrdered(kd.root, 0, kd.dimension, v);
    InsertCodeMatchesContains(kd.root, 0, kd.dimension, v);
    ContainsComplete(kd.root, 0, kd.dimension, v);
    (Kdt(kd.dimension, if sub.1 == 0 then kd.size + 1 else kd.size, sub.0), sub.1)
  }

  /** `contains`: under the invariant it finds exactly the stored values. */
  function Contains(kd: Kdt, v: Tuple): (b: bool)
    requires Valid(kd) && |v| == kd.dimension
    ensures b <==> v in Elements(kd.root)
  {
    ContainsComplete(kd.root, 0, kd.dimension, v);
    ContainsAt(kd.root, 0, kd.dimension, v)
  }

  /** The corrected `erase`: 0 and one value fewer when found, 1 and no change otherwise. */
  function Erase(kd: Kdt, v: Tuple): (res: (Kdt, int))
    requires Valid(kd) && |v| == kd.dimension
    ensures Valid(res.0) && res.0.dimension == kd.dimension
    ensures Elements(res.0.root) == Elements(kd.root) - {v}
    ensures res.1 == 0 || res.1 == 1
    ensures res.1 == 0 <==> v in Elements(kd.root)
    ensures res.0.size == if res.1 == 0 then kd.size - 1 else kd.size
    ensures res.1 == 1 ==> res.0 == kd
  {
    var sub := EraseAt(kd.root, 0, kd.dimension, v);
    EraseCorrect(kd.root, 0, kd.dimension, v);
    (Kdt(kd.dimension, if sub.1 == 0 then kd.size - 1 else kd.size, sub.0), sub.1)
  }

  /** `erase` as written, restricted to erased nodes with at most one child. */
  function EraseAsWritten(kd: Kdt, v: Tuple): (res: (Kdt, int))
    requires kd.dimension >= 1 && |v| == kd.dimension && Fits(kd.root, kd.dimension)
    requires kd.size == Count(kd.root)
    requires SplicesOnly(kd.root, 0, kd.dimension, v)
    ensures res.1 == 0 || res.1 == 1
    ensures res.1 == 1 ==> res.0 == kd
    ensures res.0.dimension == kd.dimension && Fits(res.0.root, kd.dimension)
    ensures Elements(res.0.root) <= Elements(kd.root)
    ensures res.1 == 0 ==> res.0.size + 1 == kd.size && res.0.size == Count(res.0.root)
    ensures res.1 == 0 <==> ContainsAt(kd.root, 0, kd.dimension, v)
    ensures Ordered(kd.root, 0, kd.dimension) ==> (res.1 == 0 <==> v in Elements(kd.root))
    ensures Ordered(kd.root, 0, kd.dimension) && res.1 == 0 ==> Elements(res.0.root) == Elements(kd.root) - {v}
  {
    var sub := EraseAtAsWritten(kd.root, 0, kd.dimension, v);
    var res := (Kdt(kd.dimension, if sub.1 == 0 then kd.size - 1 else kd.size, sub.0), sub.1);
    if Ordered(kd.root, 0, kd.dimension) then ContainsComplete(kd.root, 0, kd.dimension, v); res else res
  }

  /**
   * `operator[](i)`: the value the iterator reaches after i successor steps
   * from the leftmost node. The source does not check the bound.
   */
  function At(kd: Kdt, i: nat): (v: Tuple)
    requires i < |InOrder(kd.root)|
    ensures v in Elements(kd.root)
  {
    InOrderElements(kd.root);
    InOrder(kd.root)[i]
  }

  /** The positions below `size()` select pairwise different values. */
  lemma AtInjective(kd: Kdt, i: nat, j: nat)
    requires Valid(kd) && i < j < Size(kd)
    ensures |InOrder(kd.root)| == Size(kd)
    ensures At(kd, i) != At(kd, j)
  {
    InOrderElements(kd.root);
    InOrderDistinct(kd, i, j);
  }

  /** The iteration order of a valid tree visits no value twice. */
  lemma InOrderDistinct(kd: Kdt, i: nat, j: nat)
    requires Valid(kd) && i < j < |InOrder(kd.root)|
    ensures InOrder(kd.root)[i] != InOrder(kd.root)[j]
  {
    InOrderElements(kd.root);
    CountIsCardinality(kd.root, 0, kd.dimension);
    NoRepeats(InOrder(kd.root), i, j);
  }

  /** Every stored value is reached at some position below `size()`. */
  lemma AtPosition(kd: Kdt, v: Tuple) returns (i: nat)
    requires Valid(kd) && v in Elements(kd.root)
    ensures i < |InOrder(kd.root)| && i < Size(kd) && i < kd.size && At(kd, i) == v
  {
    InOrderElements(kd.root);
    CountIsCardinality(kd.root, 0, kd.dimension);
    assert v in set y | y in InOrder(kd.root);
    i :| 0 <= i < |InOrder(kd.root)| && InOrder(kd.root)[i] == v;
  }

  /** A sequence has at most as many distinct elements as positions. */
  lemma {:induction false} DistinctAtMost<T>(s: seq<T>)
    ensures |set y | y in s| <= |s|
  {
    if |s| > 0 {
      var init := s[..|s| - 1];
      DistinctAtMost(init);
      assert (set y | y in s) == (set y | y in init) + {s[|s| - 1]} by {
        assert s == init + [s[|s| - 1]];
      }
    }
  }

  /** A sequence with as many distinct elements as positions repeats none. */
  lemma NoRepeats<T>(s: seq<T>, i: nat, j: nat)
    requires i < j < |s| && |set y | y in s| == |s|
    ensures s[i] != s[j]
  {
    if s[i] == s[j] {
      var rest := s[..j] + s[j + 1..];
      assert (set y | y in s) == (set y | y in rest) by {
        forall y | y in s ensures y in rest {
          var n :| 0 <= n < |s| && s[n] == y;
          if n < j { assert rest[n] == y; }
          else if n == j { assert rest[i] == y; }
          else { assert rest[n - 1] == y; }
        }
      }
      DistinctAtMost(rest);
    }
  }

  /**
   * Splicing moves a subtree one level up, where its nodes are compared on the
   * other coordinate. Insert (5,5), (3,3) and (4,1) into a two-dimensional
   * tree: (3,3) goes left of the root and (4,1) left of (3,3). Erasing the
   * root as written makes (3,3) the root; (4,1) is still stored, but the walk
   * now compares the first coordinate at (3,3), goes right and misses it.
   * The corrected erase keeps it reachable.
   */
  lemma SpliceLosesValue()
    ensures var kd := Sample();
      && SplicesOnly(kd.root, 0, 2, [5, 5])
      && var after := EraseAsWritten(kd, [5, 5]).0;
      && [4, 1] in Elements(after.root)
      && !ContainsAt(after.root, 0, 2, [4, 1])
      && Contains(Erase(kd, [5, 5]).0, [4, 1])
  {
    var kd := Sample();
    var spliced := EraseAtAsWritten(kd.root, 0, 2, [5, 5]);
    assert spliced.0 == Node(Node(Nil, [4, 1], Nil), [3, 3], Nil);
  }

  /** The tree of `SpliceLosesValue`: (5,5), (3,3) and (4,1) inserted in that order. */
  function Sample(): (kd: Kdt)
    ensures Valid(kd) && kd.dimension == 2
    ensures kd.root == Node(Node(Node(Nil, [4, 1], Nil), [3, 3], Nil), [5, 5], Nil)
  {
    var kd1 := Insert(NewKdt(2), [5, 5]).0;
    assert kd1.root == Node(Nil, [5, 5], Nil);
    var kd2 := Insert(kd1, [3, 3]).0;
    assert kd2.root == Node(Node(Nil, [3, 3], Nil), [5, 5], Nil);
    Insert(kd2, [4, 1]).0
  }
}
