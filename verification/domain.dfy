/**
 * A planning domain (planning_problem/domain.cpp): a registry of symbols,
 * the constants, the predicates with their arity and state slot, the
 * actions by name, and the slot layout of the states over the domain.
 *
 * Slot 0 has dimension 1 and is where 0-arity predicates point; every
 * predicate of positive arity gets the next slot, whose dimension is that
 * arity.
 */
module Domains {
  import opened Tuples
  import A = Actions

  datatype PredInfo = PredInfo(arity: nat, slot: nat)

  /** A literal as the builders receive it: predicate name, negation, parameter names. */
  datatype Atom = Atom(pred: Symbol, negated: bool, names: seq<Symbol>)

  datatype Domain = Domain(
    name: Symbol,
    symbols: set<Symbol>,
    constants: seq<Symbol>,
    predicates: map<Symbol, PredInfo>,
    actions: map<Symbol, A.Action>,
    dims: seq<nat>)

  // ----- invariant -----

  /** Slot `i` exists and its dimension is the arity of the literal, or the literal is 0-arity and points at slot 0. */
  predicate LiteralKnown(l: A.Literal, dims: seq<nat>) {
    || (l.slot == 0 && |l.params| == 0)
    || (1 <= l.slot < |dims| && |l.params| == dims[l.slot])
  }

  predicate LiteralsKnown(ls: seq<A.Literal>, dims: seq<nat>) {
    forall l :: l in ls ==> LiteralKnown(l, dims)
  }

  predicate ActionKnown(a: A.Action, dims: seq<nat>) {
    && LiteralsKnown(a.preconds, dims)
    && LiteralsKnown(a.effects, dims)
    && (forall c :: c in a.condEffects ==> LiteralsKnown(c.preconds, dims) && LiteralsKnown(c.effects, dims))
  }

  /** What a predicate entry records: arity 0 at slot 0, otherwise a slot past 0 of that dimension. */
  predicate PredFits(p: PredInfo, dims: seq<nat>) {
    if p.arity == 0 then p.slot == 0 else 1 <= p.slot < |dims| && dims[p.slot] == p.arity
  }

  /**
   * The invariant the builders keep: the layout starts with the dimension-1
   * slot and has positive dimensions; predicates and actions are registered
   * symbols; predicates of positive arity own distinct slots; every action
   * is stored under its own name and only uses its parameters and known
   * predicates.
   */
  predicate WellFormed(d: Domain) {
    && |d.dims| >= 1 && d.dims[0] == 1
    && (forall i :: 0 <= i < |d.dims| ==> d.dims[i] >= 1)
    && d.name in d.symbols
    && (forall p :: p in d.predicates ==> p in d.symbols && PredFits(d.predicates[p], d.dims))
    && (forall p, q :: p in d.predicates && q in d.predicates && p != q && d.predicates[p].arity > 0 ==>
          d.predicates[p].slot != d.predicates[q].slot)
    && (forall a :: a in d.actions ==> a in d.symbols && d.actions[a].name == a)
    && (forall a :: a in d.actions ==> A.WellFormed(d.actions[a]) && ActionKnown(d.actions[a], d.dims))
  }

  // ----- construction and queries -----

  /** `domain(name)`: the name is the only symbol and the layout is the single slot of dimension 1. */
  function NewDomain(name: Symbol): (d: Domain)
    ensures d.name == name && d.symbols == {name} && d.dims == [1]
    ensures d.constants == [] && d.predicates == map[] && d.actions == map[]
    ensures WellFormed(d)
  {
    Domain(name, {name}, [], map[], map[], [1])
  }

  /** `pred_index`: the source asserts the predicate exists with this arity. */
  function PredIndex(d: Domain, name: Symbol, arity: nat): (slot: nat)
    requires name in d.predicates && d.predicates[name].arity == arity
    ensures WellFormed(d) && arity == 0 ==> slot == 0
    ensures WellFormed(d) && arity > 0 ==> 1 <= slot < |d.dims| && d.dims[slot] == arity
  {
    d.predicates[name].slot
  }

  function IsSymbol(d: Domain, s: Symbol): (b: bool)
    ensures b <==> s in d.symbols
  {
    s in d.symbols
  }

  /** `add_symbol`: the source asserts the symbol is new. */
  function AddSymbol(d: Domain, s: Symbol): (r: Domain)
    requires s !in d.symbols
    ensures r.symbols == d.symbols + {s}
    ensures r == d.(symbols := r.symbols)
    ensures WellFormed(d) ==> WellFormed(r)
  {
    d.(symbols := d.symbols + {s})
  }

  /**
   * `add_constant`: the source asserts the name is not a symbol, then only
   * appends it to the constants; the name is not registered, so the same
   * constant can be added again.
   */
  function AddConstant(d: Domain, c: Symbol): (r: Domain)
    requires c !in d.symbols
    ensures r.constants == d.constants + [c]
    ensures r.symbols == d.symbols && r == d.(constants := r.constants)
    ensures WellFormed(d) ==> WellFormed(r)
  {
    d.(constants := d.constants + [c])
  }

  /**
   * `add_predicate`: registers the name; a positive arity appends a slot of
   * that dimension and points the predicate at it, arity 0 points at slot 0.
   */
  function AddPredicate(d: Domain, name: Symbol, arity: nat): (r: Domain)
    requires name !in d.symbols
    ensures r.symbols == d.symbols + {name}
    ensures r.dims == if arity > 0 then d.dims + [arity] else d.dims
    ensures name in r.predicates && r.predicates[name] == PredInfo(arity, if arity > 0 then |d.dims| else 0)
    ensures forall p :: p in d.predicates && p != name ==> p in r.predicates && r.predicates[p] == d.predicates[p]
    ensures r.predicates.Keys == d.predicates.Keys + {name}
    ensures r.actions == d.actions && r.constants == d.constants && r.name == d.name
    ensures WellFormed(d) ==> WellFormed(r)
  {
    var dims := if arity > 0 then d.dims + [arity] else d.dims;
    var info := PredInfo(arity, if arity > 0 then |d.dims| else 0);
    var r := d.(symbols := d.symbols + {name}, predicates := d.predicates[name := info], dims := dims);
    if WellFormed(d) then
      AddPredicateKeepsActions(d, dims);
      r
    else r
  }

  /** Appending a slot keeps every known literal known. */
  lemma AddPredicateKeepsActions(d: Domain, dims: seq<nat>)
    requires WellFormed(d)
    requires |dims| >= |d.dims| && dims[..|d.dims|] == d.dims
    ensures forall a :: a in d.actions ==> ActionKnown(d.actions[a], dims)
  {
    forall a | a in d.actions ensures ActionKnown(d.actions[a], dims) {
      var x := d.actions[a];
      assert forall l :: LiteralKnown(l, d.dims) ==> LiteralKnown(l, dims) by {
        forall l | LiteralKnown(l, d.dims) ensures LiteralKnown(l, dims) {
          if l.slot >= 1 {
            assert dims[l.slot] == dims[..|d.dims|][l.slot];
          }
        }
      }
    }
  }

  /** `add_action`: registers the name and stores a new action under it (no parameter, cost 1). */
  function AddAction(d: Domain, name: Symbol): (r: Domain)
    requires name !in d.symbols
    ensures r.symbols == d.symbols + {name}
    ensures r.actions == d.actions[name := A.NewAction(name)]
    ensures r.predicates == d.predicates && r.dims == d.dims && r.constants == d.constants && r.name == d.name
    ensures WellFormed(d) ==> WellFormed(r)
  {
    d.(symbols := d.symbols + {name}, actions := d.actions[name := A.NewAction(name)])
  }

  /** `set_action_cost`: the source asserts the action exists. */
  function SetActionCost(d: Domain, name: Symbol, cost: nat): (r: Domain)
    requires name in d.actions
    ensures r.actions == d.actions[name := A.SetCost(d.actions[name], cost)]
    ensures r == d.(actions := r.actions)
    ensures WellFormed(d) ==> WellFormed(r)
  {
    d.(actions := d.actions[name := A.SetCost(d.actions[name], cost)])
  }

  /** `add_action_param`: the action must exist and the parameter name be new to it. */
  function AddActionParam(d: Domain, name: Symbol, param: Symbol): (r: Domain)
    requires name in d.actions && param !in d.actions[name].params
    ensures r.actions == d.actions[name := A.AddParam(d.actions[name], param)]
    ensures r == d.(actions := r.actions)
    ensures WellFormed(d) ==> WellFormed(r)
  {
    d.(actions := d.actions[name := A.AddParam(d.actions[name], param)])
  }

  /**
   * The check the source makes on every literal it is given: the
   * predicate exists, has as many parameters as names, and every name is a
   * parameter of the action.
   */
  predicate AtomAccepted(d: Domain, act: Symbol, x: Atom)
    requires act in d.actions
  {
    && x.pred in d.predicates
    && |x.names| == d.predicates[x.pred].arity
    && forall n :: n in x.names ==> n in d.actions[act].params
  }

  predicate AtomsAccepted(d: Domain, act: Symbol, xs: seq<Atom>)
    requires act in d.actions
  {
    forall j :: 0 <= j < |xs| ==> AtomAccepted(d, act, xs[j])
  }

  /** The literal the action receives for an accepted atom: the predicate's slot in place of its name. */
  function Lower(d: Domain, x: Atom): (n: A.Named)
    requires x.pred in d.predicates
    ensures n.slot == d.predicates[x.pred].slot && n.negated == x.negated && n.names == x.names
  {
    A.Named(d.predicates[x.pred].slot, x.negated, x.names)
  }

  function LowerAll(d: Domain, act: Symbol, xs: seq<Atom>): (ns: seq<A.Named>)
    requires act in d.actions && AtomsAccepted(d, act, xs)
    ensures |ns| == |xs|
    ensures forall j :: 0 <= j < |xs| ==> ns[j] == Lower(d, xs[j])
    ensures A.NamesAmong(ns, d.actions[act].params)
  {
    seq(|xs|, j requires 0 <= j < |xs| => Lower(d, xs[j]))
  }

  /** An accepted atom resolves to a literal the layout knows. */
  lemma LowerKnown(d: Domain, act: Symbol, x: Atom)
    requires WellFormed(d) && act in d.actions && AtomAccepted(d, act, x)
    ensures LiteralKnown(A.Resolve(d.actions[act], Lower(d, x)), d.dims)
  {
    assert PredFits(d.predicates[x.pred], d.dims);
  }

  /** `add_action_precond`: appends the literal, the predicate name replaced by its slot. */
  function AddActionPrecond(d: Domain, act: Symbol, x: Atom): (r: Domain)
    requires act in d.actions && AtomAccepted(d, act, x)
    ensures r.actions == d.actions[act := A.AddPrecond(d.actions[act], d.predicates[x.pred].slot, x.negated, x.names)]
    ensures r == d.(actions := r.actions)
    ensures WellFormed(d) ==> WellFormed(r)
  {
    var a := A.AddPrecond(d.actions[act], d.predicates[x.pred].slot, x.negated, x.names);
    if WellFormed(d) then
      LowerKnown(d, act, x);
      d.(actions := d.actions[act := a])
    else d.(actions := d.actions[act := a])
  }

  /** `add_action_effect`: appends the literal, the predicate name replaced by its slot. */
  function AddActionEffect(d: Domain, act: Symbol, x: Atom): (r: Domain)
    requires act in d.actions && AtomAccepted(d, act, x)
    ensures r.actions == d.actions[act := A.AddEffect(d.actions[act], d.predicates[x.pred].slot, x.negated, x.names)]
    ensures r == d.(actions := r.actions)
    ensures WellFormed(d) ==> WellFormed(r)
  {
    var a := A.AddEffect(d.actions[act], d.predicates[x.pred].slot, x.negated, x.names);
    if WellFormed(d) then
      LowerKnown(d, act, x);
      d.(actions := d.actions[act := a])
    else d.(actions := d.actions[act := a])
  }

  /** `add_action_cond_effect`: every atom of both lists is checked, then exactly one block is appended. */
  function AddActionCondEffect(d: Domain, act: Symbol, pre: seq<Atom>, eff: seq<Atom>): (r: Domain)
    requires act in d.actions
    requires AtomsAccepted(d, act, pre) && AtomsAccepted(d, act, eff)
    ensures r.actions == d.actions[act := A.AddConditionalEffect(d.actions[act], LowerAll(d, act, pre), LowerAll(d, act, eff))]
    ensures |r.actions[act].condEffects| == |d.actions[act].condEffects| + 1
    ensures r == d.(actions := r.actions)
    ensures WellFormed(d) ==> WellFormed(r)
  {
    var a := d.actions[act];
    var lp := LowerAll(d, act, pre);
    var le := LowerAll(d, act, eff);
    var a' := A.AddConditionalEffect(a, lp, le);
    if WellFormed(d) then
      LowerAllKnown(d, act, pre);
      LowerAllKnown(d, act, eff);
      assert a'.condEffects == a.condEffects + [A.CondEffect(A.ResolveAll(a, lp), A.ResolveAll(a, le))];
      d.(actions := d.actions[act := a'])
    else d.(actions := d.actions[act := a'])
  }

  lemma LowerAllKnown(d: Domain, act: Symbol, xs: seq<Atom>)
    requires WellFormed(d) && act in d.actions && AtomsAccepted(d, act, xs)
    ensures LiteralsKnown(A.ResolveAll(d.actions[act], LowerAll(d, act, xs)), d.dims)
  {
    var ls := A.ResolveAll(d.actions[act], LowerAll(d, act, xs));
    forall l | l in ls ensures LiteralKnown(l, d.dims) {
      var j :| 0 <= j < |ls| && ls[j] == l;
      LowerKnown(d, act, xs[j]);
    }
  }

  // ----- relaxation -----

  /**
   * `delete_relax` into a default-constructed domain: name, symbols,
   * predicates and layout are copied, every action is relaxed, and the
   * constants stay those of the default domain, none.
   */
  function DeleteRelax(d: Domain): (r: Domain)
    ensures r.name == d.name && r.symbols == d.symbols && r.predicates == d.predicates && r.dims == d.dims
    ensures r.constants == []
    ensures r.actions.Keys == d.actions.Keys
    ensures forall a :: a in d.actions ==> r.actions[a] == A.DeleteRelax(d.actions[a])
    ensures WellFormed(d) ==> WellFormed(r)
  {
    var actions := map a | a in d.actions :: A.DeleteRelax(d.actions[a]);
    var r := Domain(d.name, d.symbols, [], d.predicates, actions, d.dims);
    if WellFormed(d) then
      forall a | a in d.actions ensures ActionKnown(actions[a], d.dims) {
        RelaxedKnown(d.actions[a], d.dims);
      }
      r
    else r
  }

  lemma RelaxedKnown(a: A.Action, dims: seq<nat>)
    requires ActionKnown(a, dims)
    ensures ActionKnown(A.DeleteRelax(a), dims)
  {
    var r := A.DeleteRelax(a);
    forall c | c in r.condEffects ensures LiteralsKnown(c.preconds, dims) && LiteralsKnown(c.effects, dims) {
      var j :| 0 <= j < |r.condEffects| && r.condEffects[j] == c;
      assert c == A.RelaxBlock(a.condEffects[j]);
      assert a.condEffects[j] in a.condEffects;
    }
  }

  // ----- the order actions are visited in -----

  /** The least element of a non-empty finite set of symbols. */
  ghost function Least(s: set<Symbol>): (m: Symbol)
    requires s != {}
    ensures m in s && forall y :: y in s ==> m <= y
  {
    var x :| x in s;
    if s - {x} == {} then
      assert forall y :: y in s ==> y == x || y in s - {x};
      x
    else
      var m := Least(s - {x});
      assert forall y :: y in s ==> y == x || y in s - {x};
      if x < m then x else m
  }

  lemma LeastExists(s: set<Symbol>)
    requires s != {}
    ensures exists m :: m in s && forall x :: x in s ==> m <= x
  {
    var m := Least(s);
  }

  /** The keys of a map in increasing order: the order a `std::map` iterates in. */
  function SortedKeys(keys: set<Symbol>): (ks: seq<Symbol>)
    ensures forall k :: k in ks <==> k in keys
    ensures |ks| == |keys|
    ensures Increasing(ks)
    decreases |keys|
  {
    if keys == {} then []
    else
      LeastExists(keys);
      var m :| m in keys && forall x :: x in keys ==> m <= x;
      var rest := SortedKeys(keys - {m});
      ConsSorted(m, rest, keys);
      [m] + rest
  }

  predicate Increasing(ks: seq<Symbol>) {
    forall i, j :: 0 <= i < j < |ks| ==> ks[i] < ks[j]
  }

  lemma ConsSorted(m: Symbol, rest: seq<Symbol>, keys: set<Symbol>)
    requires m in keys && forall x :: x in keys ==> m <= x
    requires forall k :: k in rest <==> k in keys - {m}
    requires |rest| == |keys - {m}| && Increasing(rest)
    ensures forall k :: k in [m] + rest <==> k in keys
    ensures |[m] + rest| == |keys| && Increasing([m] + rest)
  {
    var ks := [m] + rest;
    forall i, j | 0 <= i < j < |ks| ensures ks[i] < ks[j] {
      assert ks[j] == rest[j - 1] && rest[j - 1] in rest;
      if i > 0 { assert ks[i] == rest[i - 1]; }
    }
  }
}
