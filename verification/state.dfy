/**
 * A planning state (planning_problem/state.cpp): one k-d tree per predicate
 * slot, the trees' dimensions, and a counter of the stored facts.
 *
 * Slot 0 is reserved for 0-arity predicates (dimension 1); every other slot
 * holds the ground atoms of one predicate, as tuples of its arity. The
 * default-constructed state owns no trees at all; it is the marker that
 * `action::apply` returns when the preconditions fail.
 */
module States {
  import opened Wrappers
  import opened Tuples
  import K = KdTree

  datatype State =
    | Sentinel
    | Slotted(size: nat, dims: seq<nat>, slots: seq<K.Kdt>)

  /** Raised when an effect deletes a fact the state does not hold: the source asserts it does. */
  datatype Abort = EraseMissing(slot: nat, value: Tuple)

  /** The dimensions as `dimensions()` returns them; the default-constructed state has none. */
  function Dims(s: State): seq<nat> {
    if s.Sentinel? then [] else s.dims
  }

  /** The tuples a state files under slot `i`; none for a slot it does not have. */
  function Slot(s: State, i: nat): set<Tuple> {
    if s.Slotted? && i < |s.slots| then K.Elements(s.slots[i].root) else {}
  }

  /** The two states hold the same facts, slot by slot. */
  ghost predicate SameFacts(s: State, o: State) {
    forall i :: Slot(s, i) == Slot(o, i)
  }

  /** Every fact of `s` is a fact of `o`. */
  ghost predicate SubFacts(s: State, o: State) {
    forall i :: Slot(s, i) <= Slot(o, i)
  }

  /** The state holds no fact at all. */
  ghost predicate NoFacts(s: State) {
    forall i :: Slot(s, i) == {}
  }

  /** The first `n` trees' node counters added up. */
  function Prefix(slots: seq<K.Kdt>, n: nat): nat
    requires n <= |slots|
  {
    if n == 0 then 0 else Prefix(slots, n - 1) + slots[n - 1].size
  }

  /**
   * The object invariant: one valid tree per dimension, of that dimension,
   * and a fact counter equal to the sum of the trees' counters.
   */
  predicate Valid(s: State) {
    s.Slotted? ==>
      && |s.slots| == |s.dims|
      && (forall i :: 0 <= i < |s.slots| ==> s.slots[i].dimension == s.dims[i] && K.Valid(s.slots[i]))
      && s.size == Prefix(s.slots, |s.slots|)
  }

  /** The tuple has the dimension of the tree it is meant for. */
  predicate FitsSlot(s: State, i: nat, t: Tuple) {
    s.Slotted? && i < |s.dims| && |t| == s.dims[i]
  }

  /** `state(statedims)`: one empty tree per dimension and no fact. */
  function NewState(dims: seq<nat>): (s: State)
    ensures s.Slotted? && Dims(s) == dims && |s.slots| == |dims|
    ensures NoFacts(s)
    ensures (forall i :: 0 <= i < |dims| ==> dims[i] >= 1) ==> Valid(s) && Size(s) == 0
  {
    var slots := seq(|dims|, i requires 0 <= i < |dims| => K.NewKdt(dims[i]));
    PrefixOfEmpty(slots, |slots|);
    Slotted(0, dims, slots)
  }

  lemma {:induction false} PrefixOfEmpty(slots: seq<K.Kdt>, n: nat)
    requires n <= |slots|
    requires forall i :: 0 <= i < |slots| ==> slots[i].size == 0
    ensures Prefix(slots, n) == 0
  {
    if n > 0 {
      PrefixOfEmpty(slots, n - 1);
    }
  }

  lemma {:induction false} PrefixOfPrefix(slots: seq<K.Kdt>, i: nat, n: nat)
    requires i <= n <= |slots|
    ensures Prefix(slots, n) >= Prefix(slots, i)
  {
    if n > i {
      PrefixOfPrefix(slots, i, n - 1);
    }
  }

  /** Replacing one tree changes the counter sum by the difference of the two counters. */
  lemma {:induction false} PrefixUpdate(slots: seq<K.Kdt>, i: nat, tree: K.Kdt, n: nat)
    requires i < |slots| && n <= |slots|
    ensures Prefix(slots[i := tree], n) == if n <= i then Prefix(slots, n) else Prefix(slots, n) - slots[i].size + tree.size
  {
    if n > 0 {
      PrefixUpdate(slots, i, tree, n - 1);
      if n - 1 == i {
        PrefixOfPrefix(slots, i, n - 1);
      }
    }
  }

  // ----- the fact counter -----

  /** The facts of the first `n` slots, as (slot, tuple) pairs. */
  function FactsBelow(s: State, n: nat): set<(nat, Tuple)> {
    if n == 0 then {} else FactsBelow(s, n - 1) + Tagged(n - 1, Slot(s, n - 1))
  }

  /** All facts of a state, as (slot, tuple) pairs. */
  function Facts(s: State): set<(nat, Tuple)> {
    FactsBelow(s, |Dims(s)|)
  }

  function Tagged(j: nat, e: set<Tuple>): set<(nat, Tuple)> {
    set t | t in e :: (j, t)
  }

  lemma {:induction false} TaggedCardinality(j: nat, e: set<Tuple>)
    ensures |Tagged(j, e)| == |e|
    decreases |e|
  {
    if e != {} {
      var x :| x in e;
      TaggedCardinality(j, e - {x});
      assert Tagged(j, e) == Tagged(j, e - {x}) + {(j, x)};
    }
  }

  lemma {:induction false} FactsBelowMembers(s: State, n: nat, p: (nat, Tuple))
    ensures p in FactsBelow(s, n) <==> p.0 < n && p.1 in Slot(s, p.0)
  {
    if n > 0 {
      FactsBelowMembers(s, n - 1, p);
    }
  }

  /** The pair view and the slot view agree. */
  lemma FactsMembers(s: State, i: nat, t: Tuple)
    requires Valid(s)
    ensures (i, t) in Facts(s) <==> t in Slot(s, i)
  {
    FactsBelowMembers(s, |Dims(s)|, (i, t));
  }

  lemma {:induction false} FactsBelowCardinality(s: State, n: nat)
    requires s.Slotted? && n <= |s.slots|
    requires forall i :: 0 <= i < |s.slots| ==> |Slot(s, i)| == s.slots[i].size
    ensures |FactsBelow(s, n)| == Prefix(s.slots, n)
  {
    if n > 0 {
      FactsBelowCardinality(s, n - 1);
      FactsBelowStep(s, n);
    }
  }

  /** One more slot adds exactly its own tuples. */
  lemma FactsBelowStep(s: State, n: nat)
    requires n > 0
    ensures |FactsBelow(s, n)| == |FactsBelow(s, n - 1)| + |Slot(s, n - 1)|
  {
    TaggedCardinality(n - 1, Slot(s, n - 1));
    var below, tagged := FactsBelow(s, n - 1), Tagged(n - 1, Slot(s, n - 1));
    forall p | p in below
      ensures p !in tagged
    {
      FactsBelowMembers(s, n - 1, p);
    }
    K.DisjointUnion(below, tagged);
  }

  /** The counter the source maintains beside the trees is the number of facts. */
  lemma SizeIsFactCount(s: State)
    requires Valid(s) && s.Slotted?
    ensures s.size == |Facts(s)|
  {
    forall i | 0 <= i < |s.slots|
      ensures |Slot(s, i)| == s.slots[i].size
    {
      var tree := s.slots[i];
      assert K.Valid(tree);
      K.CountIsCardinality(tree.root, 0, tree.dimension);
    }
    FactsBelowCardinality(s, |s.slots|);
  }

  // ----- accessors -----

  /** `size()`: the fact counter, which under the invariant is the number of facts. */
  function Size(s: State): (n: nat)
    ensures Valid(s) ==> n == |Facts(s)|
  {
    if s.Sentinel? then 0
    else
      (if Valid(s) then SizeIsFactCount(s); s.size else s.size)
  }

  /** `kdt_size(index)`: the index-th tree's counter, 0 for an index past the last tree. */
  function KdtSize(s: State, i: nat): (n: nat)
    ensures i >= |Dims(s)| ==> n == 0
    ensures Valid(s) ==> n == |Slot(s, i)|
  {
    if s.Slotted? && i < |s.dims| && i < |s.slots| then
      (if Valid(s) then K.Size(s.slots[i]) else s.slots[i].size)
    else 0
  }

  /** `reset()`: every tree emptied, dimensions kept; the default-constructed state stays as it is. */
  function Reset(s: State): (r: State)
    ensures Dims(r) == Dims(s) && r.Slotted? == s.Slotted?
    ensures NoFacts(r)
    ensures Valid(s) ==> Valid(r)
  {
    if s.Sentinel? then Sentinel
    else
      assert Valid(s) ==> forall i :: 0 <= i < |s.dims| ==> s.dims[i] >= 1 by {
        if Valid(s) {
          forall i | 0 <= i < |s.dims|
            ensures s.dims[i] >= 1
          {
            assert K.Valid(s.slots[i]);
          }
        }
      }
      NewState(s.dims)
  }

  /**
   * `contains(index, value)`: the index-th tree's `contains`. The source
   * indexes the tree array unchecked, so the slot must exist and the tuple
   * must have its dimension.
   */
  function Contains(s: State, i: nat, t: Tuple): (b: bool)
    requires Valid(s) && FitsSlot(s, i, t)
    ensures b <==> t in Slot(s, i)
  {
    K.Contains(s.slots[i], t)
  }

  /** `add(index, value)`: inserts into the index-th tree; the counter grows only for a new fact. */
  function Add(s: State, i: nat, t: Tuple): (r: State)
    requires Valid(s) && FitsSlot(s, i, t)
    ensures Valid(r) && r.Slotted? && Dims(r) == Dims(s)
    ensures Slot(r, i) == Slot(s, i) + {t}
    ensures forall j :: j != i ==> Slot(r, j) == Slot(s, j)
    ensures Size(r) == if t in Slot(s, i) then Size(s) else Size(s) + 1
  {
    var ins := K.Insert(s.slots[i], t);
    PrefixUpdate(s.slots, i, ins.0, |s.slots|);
    Slotted(if ins.1 == 0 then s.size + 1 else s.size, s.dims, s.slots[i := ins.0])
  }

  /** Facts added in either order give states with the same facts. */
  lemma AddCommutes(s: State, i: nat, x: Tuple, j: nat, y: Tuple)
    requires Valid(s) && FitsSlot(s, i, x) && FitsSlot(s, j, y)
    ensures FitsSlot(Add(s, i, x), j, y) && FitsSlot(Add(s, j, y), i, x)
    ensures SameFacts(Add(Add(s, i, x), j, y), Add(Add(s, j, y), i, x))
  {
    var sx := Add(s, i, x);
    var sy := Add(s, j, y);
    SlotsCommute(s, sx, sy, Add(sx, j, y), Add(sy, i, x), i, x, j, y);
  }

  /** Two one-fact additions in either order fill every slot alike. */
  lemma SlotsCommute(s: State, sx: State, sy: State, a: State, b: State, i: nat, x: Tuple, j: nat, y: Tuple)
    requires Slot(sx, i) == Slot(s, i) + {x} && forall k :: k != i ==> Slot(sx, k) == Slot(s, k)
    requires Slot(sy, j) == Slot(s, j) + {y} && forall k :: k != j ==> Slot(sy, k) == Slot(s, k)
    requires Slot(a, j) == Slot(sx, j) + {y} && forall k :: k != j ==> Slot(a, k) == Slot(sx, k)
    requires Slot(b, i) == Slot(sy, i) + {x} && forall k :: k != i ==> Slot(b, k) == Slot(sy, k)
    ensures SameFacts(a, b)
  {
    forall k: nat ensures Slot(a, k) == Slot(b, k) {
      if k == i && k == j {
        assert Slot(a, k) == Slot(s, k) + {x} + {y} == Slot(b, k);
      } else if k == i {
        assert Slot(a, k) == Slot(sx, k) == Slot(s, k) + {x};
        assert Slot(b, k) == Slot(sy, k) + {x} == Slot(s, k) + {x};
      } else if k == j {
        assert Slot(a, k) == Slot(sx, k) + {y} == Slot(s, k) + {y};
        assert Slot(b, k) == Slot(sy, k) == Slot(s, k) + {y};
      } else {
        assert Slot(a, k) == Slot(sx, k) == Slot(s, k);
        assert Slot(b, k) == Slot(sy, k) == Slot(s, k);
      }
    }
  }

  /**
   * `erase(index, value)`: removes from the index-th tree and decrements the
   * counter; the source asserts that the tree held the value, which the model
   * turns into an `Err`.
   */
  function Erase(s: State, i: nat, t: Tuple): (r: Result<State, Abort>)
    requires Valid(s) && FitsSlot(s, i, t)
    ensures r.Ok? <==> t in Slot(s, i)
    ensures r.Err? ==> r.error == EraseMissing(i, t)
    ensures r.Ok? ==> Valid(r.value) && r.value.Slotted? && Dims(r.value) == Dims(s)
    ensures r.Ok? ==> Slot(r.value, i) == Slot(s, i) - {t}
    ensures r.Ok? ==> forall j :: j != i ==> Slot(r.value, j) == Slot(s, j)
    ensures r.Ok? ==> Size(r.value) + 1 == Size(s)
  {
    var del := K.Erase(s.slots[i], t);
    if del.1 != 0 then Err(EraseMissing(i, t))
    else
      PrefixUpdate(s.slots, i, del.0, |s.slots|);
      Ok(Slotted(s.size - 1, s.dims, s.slots[i := del.0]))
  }

  // ----- copies -----

  /** Adds the values, in order, to the index-th tree. */
  function AddAll(s: State, i: nat, values: seq<Tuple>): (r: State)
    requires Valid(s) && s.Slotted? && i < |s.dims|
    requires forall t :: t in values ==> |t| == s.dims[i]
    ensures Valid(r) && r.Slotted? && Dims(r) == Dims(s)
    ensures Slot(r, i) == Slot(s, i) + (set t | t in values)
    ensures forall j :: j != i ==> Slot(r, j) == Slot(s, j)
    decreases |values|
  {
    if |values| == 0 then s
    else
      var next := Add(s, i, values[0]);
      ElementsSplit(values);
      AddAll(next, i, values[1..])
  }

  /** The elements of a non-empty sequence: its first and those of its rest. */
  lemma ElementsSplit(values: seq<Tuple>)
    requires |values| > 0
    ensures (set t | t in values) == {values[0]} + (set t | t in values[1..])
  {
  }

  /** Copies the trees from index `from` on, each in the order its iterator visits it. */
  function CopyFrom(s: State, into: State, from: nat): (r: State)
    requires Valid(s) && s.Slotted? && Valid(into) && into.Slotted? && Dims(into) == Dims(s)
    requires from <= |s.slots|
    ensures Valid(r) && r.Slotted? && Dims(r) == Dims(s)
    ensures forall j: nat :: Slot(r, j) == if j >= from then Slot(into, j) + Slot(s, j) else Slot(into, j)
    decreases |s.slots| - from
  {
    if from == |s.slots| then into
    else
      var tree := s.slots[from];
      K.InOrderElements(tree.root);
      CopyFrom(s, AddAll(into, from, K.InOrder(tree.root)), from + 1)
  }

  /**
   * The copy constructor and `operator=`: a fresh state of the same
   * dimensions into which every tree's values are re-added in iteration
   * order. A copy of the default-constructed state owns an array of zero
   * trees, so it is a state with no slot rather than the marker itself.
   */
  function Copy(s: State): (r: State)
    requires Valid(s)
    ensures Valid(r) && r.Slotted? && Dims(r) == Dims(s)
    ensures SameFacts(r, s)
  {
    if s.Sentinel? then Slotted(0, [], [])
    else CopyFrom(s, Reset(s), 0)
  }

  // ----- tests -----

  /**
   * `empty()` as written: the accumulation negates each tree's `empty()`, so
   * a state with trees reports empty exactly when every one of its trees
   * holds a value (and vacuously when it has no tree).
   */
  function EmptyAsWritten(s: State): (b: bool)
    ensures b <==> s.Sentinel? || forall i :: 0 <= i < |s.slots| ==> Slot(s, i) != {}
  {
    if s.Sentinel? then true
    else EmptyAsWrittenFrom(s, 0)
  }

  function EmptyAsWrittenFrom(s: State, i: nat): (b: bool)
    requires s.Slotted? && i <= |s.slots|
    ensures b <==> forall j :: i <= j < |s.slots| ==> Slot(s, j) != {}
    decreases |s.slots| - i
  {
    if i == |s.slots| then true
    else
      assert K.Empty(s.slots[i]) <==> Slot(s, i) == {};
      !K.Empty(s.slots[i]) && EmptyAsWrittenFrom(s, i + 1)
  }

  /**
   * The test the callers of `empty()` mean: the state is the marker that
   * `apply` returns for unmet preconditions, i.e. the default-constructed
   * state or a copy of it (which has no tree).
   */
  predicate IsNoState(s: State) {
    s.Sentinel? || |s.slots| == 0
  }

  /**
   * A state whose slot 0 is empty, the slot 0-arity facts would go to, is
   * reported empty as written exactly when it is the marker state.
   */
  lemma EmptyAsWrittenAgrees(s: State)
    requires Slot(s, 0) == {}
    ensures EmptyAsWritten(s) <==> IsNoState(s)
  {
  }

  /** A state with one fact in each of its two slots is reported empty as written. */
  lemma FullStateReportedEmpty()
    ensures var s := TwoFacts();
      && Valid(s) && Size(s) == 2 && EmptyAsWritten(s) && !IsNoState(s)
  {
    var s := TwoFacts();
    assert EmptyAsWrittenFrom(s, 2);
  }

  /** The state of `FullStateReportedEmpty`: the fact (3) added to slot 0 and (4) to slot 1 of a fresh two-slot state. */
  function TwoFacts(): (s: State)
    ensures Valid(s) && s.Slotted? && |s.slots| == 2 && Size(s) == 2
    ensures Slot(s, 0) == {[3]} && Slot(s, 1) == {[4]}
  {
    var s0 := NewState([1, 1]);
    assert Slot(s0, 0) == {};
    Add(Add(s0, 0, [3]), 1, [4])
  }

  /**
   * A copy can order a tree differently. (5,5), (3,3) and (4,1) added to a two-dimensional slot
   * in that order give the in-order (4,1), (3,3), (5,5); the copy re-adds them in that order and
   * gets (3,3), (4,1), (5,5), so position 0 names another fact in the copy.
   */
  lemma CopyReorders()
    ensures var s := ThreeFacts();
      && Valid(s) && Size(s) == 3 && At(s, 0) == [4, 1] && At(Copy(s), 0) == [3, 3]
  {
    CopyReordersAt(ThreeFacts());
  }

  /** `CopyReorders` for any state whose single slot holds that tree. */
  lemma CopyReordersAt(s: State)
    requires Valid(s) && s.Slotted? && s.dims == [2] && |s.slots| == 1
    requires s.slots[0].root == K.Node(K.Node(K.Node(K.Nil, [4, 1], K.Nil), [3, 3], K.Nil), [5, 5], K.Nil)
    ensures At(s, 0) == [4, 1] && At(Copy(s), 0) == [3, 3]
  {
    var order: seq<Tuple> := K.InOrder(s.slots[0].root);
    assert order == [[4, 1], [3, 3], [5, 5]];
    SlotZeroAt(s);
    var c0 := Reset(s);
    assert c0.slots == [K.NewKdt(2)];
    var c3 := AddAll(c0, 0, order);
    ReAddReorders(c0, order);
    assert CopyFrom(s, c3, 1) == c3;
    assert CopyFrom(s, c0, 0) == CopyFrom(s, c3, 1);
    assert Copy(s) == CopyFrom(s, c0, 0);
    SlotZeroAt(c3);
  }

  /** Re-adding (4,1), (3,3), (5,5) to an empty two-dimensional slot puts (3,3) first in order. */
  lemma ReAddReorders(c0: State, order: seq<Tuple>)
    requires Valid(c0) && c0.Slotted? && c0.dims == [2] && c0.slots == [K.NewKdt(2)]
    requires order == [[4, 1], [3, 3], [5, 5]]
    ensures var r := AddAll(c0, 0, order);
      && |r.slots| == 1 && r.slots[0].root == K.Node(K.Node(K.Nil, [3, 3], K.Nil), [4, 1], K.Node(K.Nil, [5, 5], K.Nil))
  {
    var c1 := Add(c0, 0, [4, 1]);
    assert c1.slots[0].root == K.Node(K.Nil, [4, 1], K.Nil);
    var c2 := Add(c1, 0, [3, 3]);
    assert c2.slots[0].root == K.Node(K.Node(K.Nil, [3, 3], K.Nil), [4, 1], K.Nil);
    var c3 := Add(c2, 0, [5, 5]);
    assert c3.slots[0].root == K.Node(K.Node(K.Nil, [3, 3], K.Nil), [4, 1], K.Node(K.Nil, [5, 5], K.Nil));
    var rest: seq<Tuple> := order[1..];
    var last: seq<Tuple> := rest[1..];
    assert last == [[5, 5]];
    assert AddAll(c2, 0, last) == AddAll(c3, 0, []) == c3;
    assert AddAll(c1, 0, rest) == AddAll(c2, 0, last);
    assert AddAll(c0, 0, order) == AddAll(c1, 0, rest);
  }

  /** In a state with one non-empty slot, position 0 is the first value of that slot's in-order. */
  lemma SlotZeroAt(s: State)
    requires Valid(s) && s.Slotted? && |s.slots| == 1 && s.slots[0].root.Node?
    ensures At(s, 0) == K.InOrder(s.slots[0].root)[0]
  {
    var tree := s.slots[0];
    ValidCounted(s);
    assert Prefix(s.slots, 1) == tree.size == |K.InOrder(tree.root)| > 0;
    assert AtFrom(s, 0, 0) == K.At(tree, 0);
  }

  /** The state of `CopyReorders`: one two-dimensional slot holding the tree of `KdTree.Sample`, (5,5), (3,3) and (4,1) inserted in that order. */
  function ThreeFacts(): (s: State)
    ensures Valid(s) && s.Slotted? && s.dims == [2] && |s.slots| == 1 && Size(s) == 3
    ensures s.slots[0].root == K.Node(K.Node(K.Node(K.Nil, [4, 1], K.Nil), [3, 3], K.Nil), [5, 5], K.Nil)
  {
    var kd := K.Sample();
    assert Prefix([kd], 1) == kd.size == 3;
    Slotted(kd.size, [2], [kd])
  }

  /** `other` has a tree of the right dimension for every fact of `s`, as `included` probes them. */
  ghost predicate CanProbe(s: State, other: State) {
    forall i, t :: t in Slot(s, i) ==> FitsSlot(other, i, t)
  }

  /** Two valid states of one layout can probe each other. */
  lemma SameLayoutProbes(s: State, other: State)
    requires Valid(s) && Valid(other) && other.Slotted? && Dims(s) == Dims(other)
    ensures CanProbe(s, other)
  {
    forall i: nat, t | t in Slot(s, i) ensures FitsSlot(other, i, t) {
      assert s.Slotted? && i < |s.slots|;
      assert t in K.Elements(s.slots[i].root);
    }
  }

  /** A fact of a valid state has the dimension of its tree. */
  lemma InSlotFits(s: State, i: nat, t: Tuple)
    requires Valid(s) && t in Slot(s, i)
    ensures FitsSlot(s, i, t)
  {
    assert s.Slotted? && i < |s.slots|;
    assert t in K.Elements(s.slots[i].root);
  }

  /** States of one layout with the same facts have the same view. */
  lemma SameFactsView(s: State, other: State)
    requires Dims(s) == Dims(other) && SameFacts(s, other)
    ensures View(s) == View(other)
  {
  }

  /** `included(other)`: every fact of this state is found in `other`. */
  function Included(s: State, other: State): (b: bool)
    requires Valid(s) && Valid(other) && CanProbe(s, other)
    ensures b <==> SubFacts(s, other)
  {
    if s.Sentinel? then true
    else IncludedFrom(s, other, 0)
  }

  function IncludedFrom(s: State, other: State, i: nat): (b: bool)
    requires Valid(s) && Valid(other) && CanProbe(s, other)
    requires s.Slotted? && i <= |s.slots|
    ensures b <==> forall j :: i <= j ==> Slot(s, j) <= Slot(other, j)
    decreases |s.slots| - i
  {
    if i == |s.slots| then true
    else
      var tree := s.slots[i];
      K.InOrderElements(tree.root);
      AllContained(other, i, K.InOrder(tree.root)) && IncludedFrom(s, other, i + 1)
  }

  /** The inner loop of `included`: each value is probed in the index-th tree of `other`. */
  function AllContained(other: State, i: nat, values: seq<Tuple>): (b: bool)
    requires Valid(other) && forall t :: t in values ==> FitsSlot(other, i, t)
    ensures b <==> forall t :: t in values ==> t in Slot(other, i)
    decreases |values|
  {
    if |values| == 0 then true
    else
      assert values == [values[0]] + values[1..];
      Contains(other, i, values[0]) && AllContained(other, i, values[1..])
  }

  /**
   * `operator==`: inclusion both ways, each side skipped when it owns no
   * trees. The accumulation is a conjunction, so this is mutual inclusion.
   */
  function Equal(s: State, other: State): (b: bool)
    requires Valid(s) && Valid(other) && CanProbe(s, other) && CanProbe(other, s)
    ensures b <==> SameFacts(s, other)
  {
    Included(s, other) && Included(other, s)
  }

  // ----- indexing -----

  /**
   * `operator[](index)`: the trees are laid end to end; the index selects a
   * tree by the running sum of their counters and then a position in that
   * tree's iteration order. Past the last fact the empty tuple is returned.
   */
  function At(s: State, index: nat): (t: Tuple)
    requires Valid(s)
    ensures index < Size(s) ==> SlotOf(s, index) < |Dims(s)| && t in Slot(s, SlotOf(s, index))
    ensures index >= Size(s) ==> t == []
  {
    if s.Sentinel? then []
    else ValidCounted(s); AtFrom(s, 0, index)
  }

  /** Each tree's counter is the length of its iteration order. */
  predicate Counted(slots: seq<K.Kdt>) {
    forall i :: 0 <= i < |slots| ==> slots[i].size == |K.InOrder(slots[i].root)|
  }

  lemma ValidCounted(s: State)
    requires Valid(s) && s.Slotted?
    ensures Counted(s.slots)
  {
    forall i | 0 <= i < |s.slots| ensures s.slots[i].size == |K.InOrder(s.slots[i].root)| {
      assert K.Valid(s.slots[i]);
      K.InOrderElements(s.slots[i].root);
    }
  }

  function AtFrom(s: State, j: nat, index: nat): (t: Tuple)
    requires s.Slotted? && Counted(s.slots) && j <= |s.slots| && index >= Prefix(s.slots, j)
    ensures index < Prefix(s.slots, |s.slots|) ==> SlotFrom(s, j, index) < |s.slots| && t in Slot(s, SlotFrom(s, j, index))
    ensures index >= Prefix(s.slots, |s.slots|) ==> t == []
    decreases |s.slots| - j
  {
    if j == |s.slots| then []
    else if index < Prefix(s.slots, j + 1) then
      assert SlotFrom(s, j, index) == j;
      K.At(s.slots[j], index - Prefix(s.slots, j))
    else
      AtFrom(s, j + 1, index)
  }

  /**
   * The slot `critical_path` files the index-th fact under: the first tree
   * whose running counter sum exceeds the index; the number of trees when
   * there is none.
   */
  function SlotOf(s: State, index: nat): (j: nat)
    requires Valid(s)
    ensures j <= |Dims(s)|
    ensures j < |Dims(s)| <==> index < Size(s)
  {
    if s.Sentinel? then 0
    else SlotFrom(s, 0, index)
  }

  function SlotFrom(s: State, j: nat, index: nat): (r: nat)
    requires s.Slotted? && j <= |s.slots| && index >= Prefix(s.slots, j)
    ensures j <= r <= |s.slots|
    ensures r < |s.slots| <==> index < Prefix(s.slots, |s.slots|)
    ensures r < |s.slots| ==> Prefix(s.slots, r) <= index < Prefix(s.slots, r + 1)
    decreases |s.slots| - j
  {
    if j == |s.slots| then j
    else if index < Prefix(s.slots, j + 1) then
      PrefixOfPrefix(s.slots, j + 1, |s.slots|);
      j
    else
      SlotFrom(s, j + 1, index)
  }

  /**
   * The index-th fact is the tree iterator's value at the index's offset
   * past the running counter sum of the trees before its slot.
   */
  lemma AtInSlot(s: State, index: nat)
    requires Valid(s) && index < Size(s)
    ensures s.Slotted? && SlotOf(s, index) < |s.slots|
    ensures var j := SlotOf(s, index);
      && Prefix(s.slots, j) <= index < Prefix(s.slots, j + 1)
      && index - Prefix(s.slots, j) < |K.InOrder(s.slots[j].root)|
      && At(s, index) == K.At(s.slots[j], index - Prefix(s.slots, j))
  {
    ValidCounted(s);
    AtFromInSlot(s, 0, index);
  }

  lemma {:induction false} AtFromInSlot(s: State, j: nat, index: nat)
    requires s.Slotted? && Counted(s.slots) && j <= |s.slots| && Prefix(s.slots, j) <= index < Prefix(s.slots, |s.slots|)
    ensures SlotFrom(s, j, index) < |s.slots|
    ensures index - Prefix(s.slots, SlotFrom(s, j, index)) < |K.InOrder(s.slots[SlotFrom(s, j, index)].root)|
    ensures AtFrom(s, j, index) == K.At(s.slots[SlotFrom(s, j, index)], index - Prefix(s.slots, SlotFrom(s, j, index)))
    decreases |s.slots| - j
  {
    if j < |s.slots| && Prefix(s.slots, j + 1) <= index {
      AtFromInSlot(s, j + 1, index);
    }
  }

  /** An index between a slot's running counter sums is filed under that slot. */
  lemma SlotFromBracket(s: State, r: nat, index: nat)
    requires s.Slotted? && r < |s.slots|
    requires Prefix(s.slots, r) <= index < Prefix(s.slots, r + 1)
    ensures index < Prefix(s.slots, |s.slots|) && SlotFrom(s, 0, index) == r
  {
    PrefixOfPrefix(s.slots, r + 1, |s.slots|);
    var q := SlotFrom(s, 0, index);
    if q < r {
      PrefixOfPrefix(s.slots, q + 1, r);
    } else if q > r {
      PrefixOfPrefix(s.slots, r + 1, q);
    }
  }

  /** Two different indices below `size()` select different facts: another slot or another tuple. */
  lemma AtInjective(s: State, a: nat, b: nat)
    requires Valid(s) && a < b < Size(s)
    ensures (SlotOf(s, a), At(s, a)) != (SlotOf(s, b), At(s, b))
  {
    AtIsFrom(s, a);
    AtIsFrom(s, b);
    AtFromInjective(s, a, b);
  }

  /** Under the invariant the public accessors are the walks from the first tree. */
  lemma AtIsFrom(s: State, index: nat)
    requires Valid(s)
    ensures s.Slotted? ==> Size(s) == Prefix(s.slots, |s.slots|) && Counted(s.slots)
    ensures s.Slotted? ==> SlotOf(s, index) == SlotFrom(s, 0, index) && At(s, index) == AtFrom(s, 0, index)
    ensures s.Slotted? ==> forall i :: 0 <= i < |s.slots| ==> K.Valid(s.slots[i])
  {
    if s.Slotted? {
      ValidCounted(s);
    }
  }

  lemma AtFromInjective(s: State, a: nat, b: nat)
    requires s.Slotted? && Counted(s.slots) && a < b < Prefix(s.slots, |s.slots|)
    requires forall i :: 0 <= i < |s.slots| ==> K.Valid(s.slots[i])
    ensures (SlotFrom(s, 0, a), AtFrom(s, 0, a)) != (SlotFrom(s, 0, b), AtFrom(s, 0, b))
  {
    AtFromInSlot(s, 0, a);
    AtFromInSlot(s, 0, b);
    var j := SlotFrom(s, 0, a);
    if SlotFrom(s, 0, b) == j {
      var tree := s.slots[j];
      var i, i' := a - Prefix(s.slots, j), b - Prefix(s.slots, j);
      K.InOrderDistinct(tree, i, i');
    }
  }

  /** Every fact of a valid state is selected by some index below `size()`. */
  lemma AtOnto(s: State, j: nat, t: Tuple) returns (index: nat)
    requires Valid(s) && t in Slot(s, j)
    ensures index < Size(s) && SlotOf(s, index) == j && At(s, index) == t
  {
    var pos := SlotPosition(s, j, t);
    index := Prefix(s.slots, j) + pos;
    OntoSlot(s, j, pos, index);
    OntoValue(s, j, pos, index);
  }

  /** The position of a fact in its own tree's iteration order. */
  lemma SlotPosition(s: State, j: nat, t: Tuple) returns (pos: nat)
    requires Valid(s) && t in Slot(s, j)
    ensures s.Slotted? && j < |s.slots| && pos < s.slots[j].size
    ensures pos < |K.InOrder(s.slots[j].root)| && K.At(s.slots[j], pos) == t
  {
    assert s.Slotted? && j < |s.slots|;
    assert K.Valid(s.slots[j]);
    pos := K.AtPosition(s.slots[j], t);
  }

  /** The index `pos` places past tree `j`'s running counter sum is filed under tree `j`. */
  lemma OntoSlot(s: State, j: nat, pos: nat, index: nat)
    requires Valid(s) && s.Slotted? && j < |s.slots| && pos < s.slots[j].size && index == Prefix(s.slots, j) + pos
    ensures index < Size(s) && SlotOf(s, index) == j
  {
    SlotFromBracket(s, j, index);
    SlotOfIsFrom(s, index, j);
  }

  lemma SlotOfIsFrom(s: State, index: nat, j: nat)
    requires Valid(s) && s.Slotted? && SlotFrom(s, 0, index) == j
    ensures SlotOf(s, index) == j
  {
  }

  /** That index selects the value at position `pos` of tree `j`. */
  lemma OntoValue(s: State, j: nat, pos: nat, index: nat)
    requires Valid(s) && s.Slotted? && j < |s.slots| && pos < |K.InOrder(s.slots[j].root)| && index == Prefix(s.slots, j) + pos
    ensures At(s, index) == K.At(s.slots[j], pos)
  {
    ValidCounted(s);
    OntoValueFrom(s, j, pos, index);
  }

  lemma OntoValueFrom(s: State, j: nat, pos: nat, index: nat)
    requires s.Slotted? && Counted(s.slots) && j < |s.slots| && pos < s.slots[j].size && index == Prefix(s.slots, j) + pos
    ensures index < Prefix(s.slots, |s.slots|) && AtFrom(s, 0, index) == K.At(s.slots[j], pos)
  {
    SlotFromBracket(s, j, index);
    AtFromInSlot(s, 0, index);
  }

  // ----- the set view -----

  /** One set of tuples per slot: what a state holds, independent of tree shapes. */
  function View(s: State): (v: seq<set<Tuple>>)
    ensures |v| == |Dims(s)|
    ensures forall i :: 0 <= i < |v| ==> v[i] == Slot(s, i)
  {
    seq(|Dims(s)|, i requires 0 <= i < |Dims(s)| => Slot(s, i))
  }

  lemma ViewOfAdd(s: State, i: nat, t: Tuple)
    requires Valid(s) && FitsSlot(s, i, t)
    ensures View(Add(s, i, t)) == View(s)[i := View(s)[i] + {t}]
  {
  }

  lemma ViewOfErase(s: State, i: nat, t: Tuple)
    requires Valid(s) && FitsSlot(s, i, t) && t in Slot(s, i)
    ensures View(Erase(s, i, t).value) == View(s)[i := View(s)[i] - {t}]
  {
  }

  lemma ViewOfCopy(s: State)
    requires Valid(s)
    ensures View(Copy(s)) == View(s)
  {
  }

  /** States with the same layout and the same facts have the same size. */
  lemma SameFactsSize(s: State, o: State)
    requires Valid(s) && Valid(o) && Dims(s) == Dims(o) && SameFacts(s, o)
    ensures Size(s) == Size(o)
  {
    FactsBelowSame(s, o, |Dims(s)|);
  }

  lemma {:induction false} FactsBelowSame(s: State, o: State, n: nat)
    requires SameFacts(s, o)
    ensures FactsBelow(s, n) == FactsBelow(o, n)
  {
    if n > 0 {
      FactsBelowSame(s, o, n - 1);
      assert Slot(s, n - 1) == Slot(o, n - 1);
    }
  }

  /** A copy has the size of the state copied. */
  lemma CopySize(s: State)
    requires Valid(s)
    ensures Size(Copy(s)) == Size(s)
  {
    SameFactsSize(Copy(s), s);
  }
}
