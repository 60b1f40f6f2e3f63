/**
 * Fixed-arity tuples of symbols (data_structures/tuple.hpp).
 *
 * Symbols are modelled as natural numbers so that the `<` the k-d tree
 * compares them with is a total order; a tuple is the sequence of its values.
 */
module Tuples {

  type Symbol = nat

  type Tuple = seq<Symbol>

  /** The default-constructed tuple: dimension 0, no values. */
  function EmptyTuple(): (t: Tuple)
    ensures Size(t) == 0
  {
    []
  }

  /** Construction from a vector or an initializer list: one position per value, in order. */
  function FromValues(values: seq<Symbol>): (t: Tuple)
    ensures Size(t) == |values|
    ensures forall i :: 0 <= i < |values| ==> Get(t, i) == values[i]
  {
    values
  }

  /**
   * Assignment from an initializer list drops the old contents: the result
   * has the new list's size and values whatever `t` held before.
   */
  function Assign(t: Tuple, values: seq<Symbol>): (r: Tuple)
    ensures Size(r) == |values|
    ensures forall i :: 0 <= i < |values| ==> Get(r, i) == values[i]
  {
    FromValues(values)
  }

  function Size(t: Tuple): nat {
    |t|
  }

  /** `operator[]`; the source does no bounds check, so the index must be in range. */
  function Get(t: Tuple, i: nat): Symbol
    requires i < |t|
  {
    t[i]
  }

  /**
   * `operator==`: the sizes must agree, and then every position is compared
   * (the loop keeps going after a mismatch, accumulating with `&=`).
   */
  method Equals(t: Tuple, u: Tuple) returns (r: bool)
    ensures r <==> |t| == |u| && forall i :: 0 <= i < |t| ==> t[i] == u[i]
    ensures r <==> t == u
    ensures |t| != |u| ==> !r
  {
    r := |u| == |t|;
    if r {
      var i := 0;
      while i < |t|
        invariant 0 <= i <= |t|
        invariant r <==> forall j :: 0 <= j < i ==> t[j] == u[j]
      {
        r := r && t[i] == u[i];
        i := i + 1;
      }
      assert r <==> forall j :: 0 <= j < |t| ==> t[j] == u[j];
      if r {
        assert t == u;
      }
    }
  }

  /** `operator!=` is the negation of `operator==`. */
  method NotEquals(t: Tuple, u: Tuple) returns (r: bool)
    ensures r <==> !(|t| == |u| && forall i :: 0 <= i < |t| ==> t[i] == u[i])
  {
    var e := Equals(t, u);
    r := !e;
  }
}
