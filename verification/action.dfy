/**
 * A lifted action (planning_problem/action.cpp): named parameters, a cost,
 * preconditions, effects and conditional effects, each literal naming a
 * predicate slot, a negation flag and the positions of the action
 * parameters that instantiate it.
 */
module Actions {
  import opened Wrappers
  import opened Tuples
  import S = States

  /** A literal over the action's parameters: slot, negation, parameter positions. */
  datatype Literal = Literal(slot: nat, negated: bool, params: seq<nat>)

  /** A literal as the domain hands it over: slot, negation, parameter names. */
  datatype Named = Named(slot: nat, negated: bool, names: seq<Symbol>)

  /** A conditional effect: the effects apply when the preconditions hold in the state acted on. */
  datatype CondEffect = CondEffect(preconds: seq<Literal>, effects: seq<Literal>)

  datatype Action = Action(
    name: Symbol,
    nbparams: nat,
    cost: nat,
    params: map<Symbol, nat>,
    preconds: seq<Literal>,
    effects: seq<Literal>,
    condEffects: seq<CondEffect>)

  // ----- construction -----

  /** The parameter map numbers the parameters 0 .. nbparams-1, one name each. */
  predicate ParamsNumbered(a: Action) {
    && |a.params| == a.nbparams
    && (forall p :: p in a.params ==> a.params[p] < a.nbparams)
  }

  /** Every literal refers to parameter positions the action has. */
  predicate LiteralOver(l: Literal, n: nat) {
    forall j :: 0 <= j < |l.params| ==> l.params[j] < n
  }

  predicate LiteralsOver(ls: seq<Literal>, n: nat) {
    forall l :: l in ls ==> LiteralOver(l, n)
  }

  predicate WellFormed(a: Action) {
    && ParamsNumbered(a)
    && LiteralsOver(a.preconds, a.nbparams)
    && LiteralsOver(a.effects, a.nbparams)
    && (forall c :: c in a.condEffects ==> LiteralsOver(c.preconds, a.nbparams) && LiteralsOver(c.effects, a.nbparams))
  }

  /** `action(symb)`: no parameter, cost 1, no literal. */
  function NewAction(name: Symbol): (a: Action)
    ensures a.name == name && a.nbparams == 0 && a.cost == 1 && a.params == map[]
    ensures a.preconds == [] && a.effects == [] && a.condEffects == []
    ensures WellFormed(a)
  {
    Action(name, 0, 1, map[], [], [], [])
  }

  /** `set_cost`: replaces the cost, nothing else. */
  function SetCost(a: Action, cost: nat): (r: Action)
    ensures r.cost == cost && r == a.(cost := cost)
    ensures WellFormed(a) ==> WellFormed(r)
  {
    a.(cost := cost)
  }

  /** `add_param`: the new name gets the next position; the source asserts the name is new. */
  function AddParam(a: Action, name: Symbol): (r: Action)
    requires name !in a.params
    ensures r.nbparams == a.nbparams + 1
    ensures r.params == a.params[name := a.nbparams]
    ensures r.preconds == a.preconds && r.effects == a.effects && r.condEffects == a.condEffects
    ensures WellFormed(a) ==> WellFormed(r)
  {
    var r := a.(nbparams := a.nbparams + 1, params := a.params[name := a.nbparams]);
    assert WellFormed(a) ==> |r.params| == |a.params| + 1;
    r
  }

  /** `param_index`: the source asserts the name is a parameter. */
  function ParamIndex(a: Action, name: Symbol): (k: nat)
    requires name in a.params
    ensures ParamsNumbered(a) ==> k < a.nbparams
  {
    a.params[name]
  }

  /** The parameter positions of a list of names, in order. */
  function Positions(a: Action, names: seq<Symbol>): (ks: seq<nat>)
    requires forall n :: n in names ==> n in a.params
    ensures |ks| == |names|
    ensures forall j :: 0 <= j < |names| ==> ks[j] == a.params[names[j]]
    ensures ParamsNumbered(a) ==> forall j :: 0 <= j < |ks| ==> ks[j] < a.nbparams
  {
    seq(|names|, j requires 0 <= j < |names| => ParamIndex(a, names[j]))
  }

  function Resolve(a: Action, n: Named): (l: Literal)
    requires forall x :: x in n.names ==> x in a.params
    ensures l.slot == n.slot && l.negated == n.negated && |l.params| == |n.names|
    ensures ParamsNumbered(a) ==> LiteralOver(l, a.nbparams)
  {
    Literal(n.slot, n.negated, Positions(a, n.names))
  }

  /** Every name the literals use is a parameter. */
  predicate NamesAmong(ns: seq<Named>, params: map<Symbol, nat>) {
    forall j :: 0 <= j < |ns| ==> forall x :: x in ns[j].names ==> x in params
  }

  function ResolveAll(a: Action, ns: seq<Named>): (ls: seq<Literal>)
    requires NamesAmong(ns, a.params)
    ensures |ls| == |ns|
    ensures forall j :: 0 <= j < |ns| ==> ls[j] == Resolve(a, ns[j])
    ensures ParamsNumbered(a) ==> LiteralsOver(ls, a.nbparams)
  {
    seq(|ns|, j requires 0 <= j < |ns| => Resolve(a, ns[j]))
  }

  /** `add_precond`: appends the literal, its names turned into positions. */
  function AddPrecond(a: Action, slot: nat, negated: bool, names: seq<Symbol>): (r: Action)
    requires forall x :: x in names ==> x in a.params
    ensures r == a.(preconds := a.preconds + [Literal(slot, negated, Positions(a, names))])
    ensures WellFormed(a) ==> WellFormed(r)
  {
    a.(preconds := a.preconds + [Resolve(a, Named(slot, negated, names))])
  }

  /** `add_effect`: appends the literal, its names turned into positions. */
  function AddEffect(a: Action, slot: nat, negated: bool, names: seq<Symbol>): (r: Action)
    requires forall x :: x in names ==> x in a.params
    ensures r == a.(effects := a.effects + [Literal(slot, negated, Positions(a, names))])
    ensures WellFormed(a) ==> WellFormed(r)
  {
    a.(effects := a.effects + [Resolve(a, Named(slot, negated, names))])
  }

  /** `add_conditional_effect`: appends one block, both lists resolved in order. */
  function AddConditionalEffect(a: Action, pre: seq<Named>, eff: seq<Named>): (r: Action)
    requires NamesAmong(pre, a.params) && NamesAmong(eff, a.params)
    ensures r == a.(condEffects := a.condEffects + [CondEffect(ResolveAll(a, pre), ResolveAll(a, eff))])
    ensures WellFormed(a) ==> WellFormed(r)
  {
    a.(condEffects := a.condEffects + [CondEffect(ResolveAll(a, pre), ResolveAll(a, eff))])
  }

  // ----- instantiation -----

  /** Every literal names a slot of the layout and has that slot's dimension. */
  predicate LiteralFits(l: Literal, dims: seq<nat>) {
    l.slot < |dims| && |l.params| == dims[l.slot]
  }

  predicate LiteralsFit(ls: seq<Literal>, dims: seq<nat>) {
    forall l :: l in ls ==> LiteralFits(l, dims)
  }

  predicate Fits(a: Action, dims: seq<nat>) {
    && LiteralsFit(a.preconds, dims)
    && LiteralsFit(a.effects, dims)
    && (forall c :: c in a.condEffects ==> LiteralsFit(c.preconds, dims) && LiteralsFit(c.effects, dims))
  }

  /** The ground tuple of a literal: the arguments at the literal's parameter positions. */
  function Instantiate(l: Literal, args: seq<Symbol>): (t: Tuple)
    requires LiteralOver(l, |args|)
    ensures |t| == |l.params|
    ensures forall j :: 0 <= j < |t| ==> t[j] == args[l.params[j]]
  {
    seq(|l.params|, j requires 0 <= j < |l.params| => args[l.params[j]])
  }

  // ----- reference semantics on sets -----

  /** A literal holds in a per-slot view: its ground tuple is present, or absent when negated. */
  predicate HoldsIn(v: seq<set<Tuple>>, l: Literal, args: seq<Symbol>)
    requires l.slot < |v| && LiteralOver(l, |args|)
  {
    (Instantiate(l, args) in v[l.slot]) != l.negated
  }

  predicate AllHoldIn(v: seq<set<Tuple>>, ls: seq<Literal>, args: seq<Symbol>)
    requires forall l :: l in ls ==> l.slot < |v| && LiteralOver(l, |args|)
  {
    forall l :: l in ls ==> HoldsIn(v, l, args)
  }

  /**
   * The effects applied one after another to a per-slot view: a positive
   * literal adds its tuple, a negative one removes it and fails when it is
   * not there.
   */
  function EffectsOn(v: seq<set<Tuple>>, ls: seq<Literal>, args: seq<Symbol>): (r: Result<seq<set<Tuple>>, S.Abort>)
    requires forall l :: l in ls ==> l.slot < |v| && LiteralOver(l, |args|)
    ensures r.Ok? ==> |r.value| == |v|
    decreases |ls|
  {
    if |ls| == 0 then Ok(v)
    else
      var l := ls[0];
      var t := Instantiate(l, args);
      if l.negated then
        if t in v[l.slot] then EffectsOn(v[l.slot := v[l.slot] - {t}], ls[1..], args)
        else Err(S.EraseMissing(l.slot, t))
      else
        EffectsOn(v[l.slot := v[l.slot] + {t}], ls[1..], args)
  }

  /** Every literal of the block names a slot below `n` and parameter positions below `m`. */
  predicate BlockOver(c: CondEffect, n: nat, m: nat) {
    && (forall l :: l in c.preconds ==> l.slot < n && LiteralOver(l, m))
    && (forall l :: l in c.effects ==> l.slot < n && LiteralOver(l, m))
  }

  predicate BlocksOver(cs: seq<CondEffect>, n: nat, m: nat) {
    forall c :: c in cs ==> BlockOver(c, n, m)
  }

  /** Conditional-effect blocks: a block's effects apply when all its preconditions hold in `target`. */
  function CondEffectsOn(target: seq<set<Tuple>>, v: seq<set<Tuple>>, cs: seq<CondEffect>, args: seq<Symbol>): (r: Result<seq<set<Tuple>>, S.Abort>)
    requires |v| == |target|
    requires BlocksOver(cs, |v|, |args|)
    ensures r.Ok? ==> |r.value| == |v|
    decreases |cs|
  {
    if |cs| == 0 then Ok(v)
    else
      var c := cs[0];
      assert c in cs && forall x :: x in cs[1..] ==> x in cs;
      if AllHoldIn(target, c.preconds, args) then
        var v' :- EffectsOn(v, c.effects, args);
        CondEffectsOn(target, v', cs[1..], args)
      else
        CondEffectsOn(target, v, cs[1..], args)
  }

  /** Every literal of the action names a slot below `n`. */
  predicate Targets(a: Action, n: nat) {
    && (forall l :: l in a.preconds ==> l.slot < n)
    && (forall l :: l in a.effects ==> l.slot < n)
    && (forall c :: c in a.condEffects ==>
          (forall l :: l in c.preconds ==> l.slot < n) && (forall l :: l in c.effects ==> l.slot < n))
  }

  /**
   * The successor of a view under a ground action: `None` when a
   * precondition fails, the effects then the conditional effects otherwise,
   * `Err` when a deletion finds nothing to delete.
   */
  function Successor(v: seq<set<Tuple>>, a: Action, args: seq<Symbol>): (r: Result<Option<seq<set<Tuple>>>, S.Abort>)
    requires WellFormed(a) && |args| == a.nbparams && Targets(a, |v|)
    ensures r.Ok? && r.value.Some? ==> |r.value.value| == |v|
  {
    if !AllHoldIn(v, a.preconds, args) then Ok(None)
    else
      var v1 :- EffectsOn(v, a.effects, args);
      var v2 :- CondEffectsOn(v, v1, a.condEffects, args);
      Ok(Some(v2))
  }

  // ----- application to a state -----

  /** The tree-level check of one literal, through `state::contains`. */
  function Holds(s: S.State, l: Literal, args: seq<Symbol>): (b: bool)
    requires S.Valid(s) && LiteralOver(l, |args|) && LiteralFits(l, S.Dims(s))
    ensures b <==> HoldsIn(S.View(s), l, args)
  {
    S.Contains(s, l.slot, Instantiate(l, args)) != l.negated
  }

  /** The precondition loop: every literal is checked and the results are and-ed. */
  function AllHold(s: S.State, ls: seq<Literal>, args: seq<Symbol>): (b: bool)
    requires S.Valid(s) && LiteralsFit(ls, S.Dims(s)) && LiteralsOver(ls, |args|)
    ensures b <==> AllHoldIn(S.View(s), ls, args)
    decreases |ls|
  {
    if |ls| == 0 then true
    else
      assert ls == [ls[0]] + ls[1..];
      var here := Holds(s, ls[0], args);
      var rest := AllHold(s, ls[1..], args);
      here && rest
  }

  /** The effect loop: additions through `state::add`, deletions through `state::erase`. */
  function ApplyEffects(s: S.State, ls: seq<Literal>, args: seq<Symbol>): (r: Result<S.State, S.Abort>)
    requires S.Valid(s) && s.Slotted? && LiteralsFit(ls, S.Dims(s)) && LiteralsOver(ls, |args|)
    ensures r.Ok? <==> EffectsOn(S.View(s), ls, args).Ok?
    ensures r.Ok? ==> S.Valid(r.value) && r.value.Slotted? && S.Dims(r.value) == S.Dims(s)
    ensures r.Ok? ==> S.View(r.value) == EffectsOn(S.View(s), ls, args).value
    ensures r.Err? ==> r.error == EffectsOn(S.View(s), ls, args).error
    decreases |ls|
  {
    if |ls| == 0 then Ok(s)
    else
      var l := ls[0];
      assert l in ls && forall x :: x in ls[1..] ==> x in ls;
      var t := Instantiate(l, args);
      if l.negated then
        var e := S.Erase(s, l.slot, t);
        if e.Err? then Err(e.error)
        else
          S.ViewOfErase(s, l.slot, t);
          ApplyEffects(e.value, ls[1..], args)
      else
        S.ViewOfAdd(s, l.slot, t);
        ApplyEffects(S.Add(s, l.slot, t), ls[1..], args)
  }

  /** Every literal of the blocks fits the layout and the arguments. */
  predicate BlocksFit(cs: seq<CondEffect>, dims: seq<nat>, n: nat) {
    forall c :: c in cs ==>
      LiteralsFit(c.preconds, dims) && LiteralsFit(c.effects, dims) && LiteralsOver(c.preconds, n) && LiteralsOver(c.effects, n)
  }

  /** Conditional effects, read conjunctively: a block fires when all its preconditions hold in `target`. */
  function ApplyCondEffects(target: S.State, s: S.State, cs: seq<CondEffect>, args: seq<Symbol>): (r: Result<S.State, S.Abort>)
    requires S.Valid(target) && S.Valid(s) && s.Slotted? && S.Dims(s) == S.Dims(target)
    requires BlocksFit(cs, S.Dims(s), |args|)
    ensures r.Ok? <==> CondEffectsOn(S.View(target), S.View(s), cs, args).Ok?
    ensures r.Ok? ==> S.Valid(r.value) && r.value.Slotted? && S.Dims(r.value) == S.Dims(s)
    ensures r.Ok? ==> S.View(r.value) == CondEffectsOn(S.View(target), S.View(s), cs, args).value
    ensures r.Err? ==> r.error == CondEffectsOn(S.View(target), S.View(s), cs, args).error
    decreases |cs|
  {
    if |cs| == 0 then Ok(s)
    else
      var c := cs[0];
      assert forall x :: x in cs[1..] ==> x in cs;
      if AllHold(target, c.preconds, args) then
        var s' :- ApplyEffects(s, c.effects, args);
        ApplyCondEffects(target, s', cs[1..], args)
      else
        ApplyCondEffects(target, s, cs[1..], args)
  }

  /**
   * `apply`, with conditional effects read conjunctively: the marker state
   * when a precondition fails; otherwise a copy of the target with the
   * effects applied in order and then every conditional block whose
   * preconditions all hold in the target.
   */
  function Apply(a: Action, target: S.State, args: seq<Symbol>): (r: Result<S.State, S.Abort>)
    requires WellFormed(a) && |args| == a.nbparams && S.Valid(target) && Fits(a, S.Dims(target))
    ensures r == Ok(S.Sentinel) <==> !AllHoldIn(S.View(target), a.preconds, args)
    ensures r.Ok? <==> Successor(S.View(target), a, args).Ok?
    ensures r.Ok? && r.value.Slotted? ==> S.Valid(r.value) && S.Dims(r.value) == S.Dims(target)
    ensures r.Ok? && r.value.Slotted? ==> Successor(S.View(target), a, args).value == Some(S.View(r.value))
    ensures r.Err? ==> r.error == Successor(S.View(target), a, args).error
  {
    FitsTargets(a, S.Dims(target));
    if !AllHold(target, a.preconds, args) then Ok(S.Sentinel)
    else
      var obtained := S.Copy(target);
      S.ViewOfCopy(target);
      var s1 :- ApplyEffects(obtained, a.effects, args);
      var s2 :- ApplyCondEffects(target, s1, a.condEffects, args);
      Ok(s2)
  }

  lemma FitsTargets(a: Action, dims: seq<nat>)
    requires Fits(a, dims)
    ensures Targets(a, |dims|)
  {
  }

  // ----- conditional effects as written -----

  /**
   * One conditional block as `apply` runs it: after each precondition the
   * running conjunction is updated, and whenever it still holds the block's
   * effects are applied once more. A block without preconditions never
   * fires; a block whose first precondition fails never fires; a block
   * whose first n preconditions hold fires n times.
   */
  function BlockOnAsWritten(target: seq<set<Tuple>>, v: seq<set<Tuple>>, pre: seq<Literal>, eff: seq<Literal>, running: bool, args: seq<Symbol>): (r: Result<seq<set<Tuple>>, S.Abort>)
    requires |v| == |target|
    requires forall l :: l in pre ==> l.slot < |v| && LiteralOver(l, |args|)
    requires forall l :: l in eff ==> l.slot < |v| && LiteralOver(l, |args|)
    ensures r.Ok? ==> |r.value| == |v|
    decreases |pre|
  {
    if |pre| == 0 then Ok(v)
    else
      assert pre[0] in pre && forall x :: x in pre[1..] ==> x in pre;
      var running' := running && HoldsIn(target, pre[0], args);
      if running' then
        var v' :- EffectsOn(v, eff, args);
        BlockOnAsWritten(target, v', pre[1..], eff, running', args)
      else
        BlockOnAsWritten(target, v, pre[1..], eff, running', args)
  }

  function CondEffectsOnAsWritten(target: seq<set<Tuple>>, v: seq<set<Tuple>>, cs: seq<CondEffect>, args: seq<Symbol>): (r: Result<seq<set<Tuple>>, S.Abort>)
    requires |v| == |target|
    requires BlocksOver(cs, |v|, |args|)
    ensures r.Ok? ==> |r.value| == |v|
    decreases |cs|
  {
    if |cs| == 0 then Ok(v)
    else
      assert cs[0] in cs && forall x :: x in cs[1..] ==> x in cs;
      var v' :- BlockOnAsWritten(target, v, cs[0].preconds, cs[0].effects, true, args);
      CondEffectsOnAsWritten(target, v', cs[1..], args)
  }

  /** `Successor` with the conditional blocks run as the source runs them. */
  function SuccessorAsWritten(v: seq<set<Tuple>>, a: Action, args: seq<Symbol>): (r: Result<Option<seq<set<Tuple>>>, S.Abort>)
    requires WellFormed(a) && |args| == a.nbparams && Targets(a, |v|)
    ensures r.Ok? && r.value.Some? ==> |r.value.value| == |v|
  {
    if !AllHoldIn(v, a.preconds, args) then Ok(None)
    else
      var v1 :- EffectsOn(v, a.effects, args);
      var v2 :- CondEffectsOnAsWritten(v, v1, a.condEffects, args);
      Ok(Some(v2))
  }

  function BlockAsWritten(target: S.State, s: S.State, pre: seq<Literal>, eff: seq<Literal>, running: bool, args: seq<Symbol>): (r: Result<S.State, S.Abort>)
    requires S.Valid(target) && S.Valid(s) && s.Slotted? && S.Dims(s) == S.Dims(target)
    requires LiteralsFit(pre, S.Dims(s)) && LiteralsOver(pre, |args|)
    requires LiteralsFit(eff, S.Dims(s)) && LiteralsOver(eff, |args|)
    ensures r.Ok? <==> BlockOnAsWritten(S.View(target), S.View(s), pre, eff, running, args).Ok?
    ensures r.Ok? ==> S.Valid(r.value) && r.value.Slotted? && S.Dims(r.value) == S.Dims(s)
    ensures r.Ok? ==> S.View(r.value) == BlockOnAsWritten(S.View(target), S.View(s), pre, eff, running, args).value
    ensures r.Err? ==> r.error == BlockOnAsWritten(S.View(target), S.View(s), pre, eff, running, args).error
    decreases |pre|
  {
    if |pre| == 0 then Ok(s)
    else
      assert pre[0] in pre && forall x :: x in pre[1..] ==> x in pre;
      var running' := running && Holds(target, pre[0], args);
      if running' then
        var s' :- ApplyEffects(s, eff, args);
        BlockAsWritten(target, s', pre[1..], eff, running', args)
      else
        BlockAsWritten(target, s, pre[1..], eff, running', args)
  }

  function CondEffectsAsWritten(target: S.State, s: S.State, cs: seq<CondEffect>, args: seq<Symbol>): (r: Result<S.State, S.Abort>)
    requires S.Valid(target) && S.Valid(s) && s.Slotted? && S.Dims(s) == S.Dims(target)
    requires BlocksFit(cs, S.Dims(s), |args|)
    ensures r.Ok? <==> CondEffectsOnAsWritten(S.View(target), S.View(s), cs, args).Ok?
    ensures r.Ok? ==> S.Valid(r.value) && r.value.Slotted? && S.Dims(r.value) == S.Dims(s)
    ensures r.Ok? ==> S.View(r.value) == CondEffectsOnAsWritten(S.View(target), S.View(s), cs, args).value
    ensures r.Err? ==> r.error == CondEffectsOnAsWritten(S.View(target), S.View(s), cs, args).error
    decreases |cs|
  {
    if |cs| == 0 then Ok(s)
    else
      assert cs[0] in cs && forall x :: x in cs[1..] ==> x in cs;
      var s' :- BlockAsWritten(target, s, cs[0].preconds, cs[0].effects, true, args);
      CondEffectsAsWritten(target, s', cs[1..], args)
  }

  /** `apply` as written: the same as `Apply` except for the conditional blocks. */
  function ApplyAsWritten(a: Action, target: S.State, args: seq<Symbol>): (r: Result<S.State, S.Abort>)
    requires WellFormed(a) && |args| == a.nbparams && S.Valid(target) && Fits(a, S.Dims(target))
    ensures r == Ok(S.Sentinel) <==> !AllHoldIn(S.View(target), a.preconds, args)
    ensures r.Ok? <==> SuccessorAsWritten(S.View(target), a, args).Ok?
    ensures r.Ok? && r.value.Slotted? ==> S.Valid(r.value) && S.Dims(r.value) == S.Dims(target)
    ensures r.Ok? && r.value.Slotted? ==> SuccessorAsWritten(S.View(target), a, args).value == Some(S.View(r.value))
    ensures r.Err? ==> r.error == SuccessorAsWritten(S.View(target), a, args).error
  {
    FitsTargets(a, S.Dims(target));
    if !AllHold(target, a.preconds, args) then Ok(S.Sentinel)
    else
      var obtained := S.Copy(target);
      S.ViewOfCopy(target);
      var s1 :- ApplyEffects(obtained, a.effects, args);
      var s2 :- CondEffectsAsWritten(target, s1, a.condEffects, args);
      Ok(s2)
  }

  /** Every conditional block has exactly one precondition. */
  predicate SinglePreconds(cs: seq<CondEffect>) {
    forall c :: c in cs ==> |c.preconds| == 1
  }

  /** With one precondition per block the two readings of conditional effects agree. */
  lemma {:induction false} SinglePrecondBlocksAgree(target: seq<set<Tuple>>, v: seq<set<Tuple>>, cs: seq<CondEffect>, args: seq<Symbol>)
    requires |v| == |target|
    requires BlocksOver(cs, |v|, |args|)
    requires SinglePreconds(cs)
    ensures CondEffectsOnAsWritten(target, v, cs, args) == CondEffectsOn(target, v, cs, args)
    decreases |cs|
  {
    if |cs| > 0 {
      var c := cs[0];
      assert c in cs && forall x :: x in cs[1..] ==> x in cs;
      assert c.preconds == [c.preconds[0]] && c.preconds[1..] == [];
      var e := EffectsOn(v, c.effects, args);
      assert AllHoldIn(target, c.preconds, args) <==> HoldsIn(target, c.preconds[0], args);
      if AllHoldIn(target, c.preconds, args) && e.Ok? {
        assert BlockOnAsWritten(target, v, c.preconds, c.effects, true, args) == e;
        SinglePrecondBlocksAgree(target, e.value, cs[1..], args);
      } else if !AllHoldIn(target, c.preconds, args) {
        assert BlockOnAsWritten(target, v, c.preconds, c.effects, true, args) == BlockOnAsWritten(target, v, [], c.effects, false, args);
        SinglePrecondBlocksAgree(target, v, cs[1..], args);
      }
    }
  }

  lemma SinglePrecondActionsAgree(v: seq<set<Tuple>>, a: Action, args: seq<Symbol>)
    requires WellFormed(a) && |args| == a.nbparams && Targets(a, |v|)
    requires SinglePreconds(a.condEffects)
    ensures SuccessorAsWritten(v, a, args) == Successor(v, a, args)
  {
    if AllHoldIn(v, a.preconds, args) {
      var e := EffectsOn(v, a.effects, args);
      if e.Ok? {
        SinglePrecondBlocksAgree(v, e.value, a.condEffects, args);
      }
    }
  }

  /** A block without preconditions is skipped as written, and always fires when read conjunctively. */
  lemma UnconditionalBlock(target: seq<set<Tuple>>, v: seq<set<Tuple>>, eff: seq<Literal>, cs: seq<CondEffect>, args: seq<Symbol>)
    requires |v| == |target|
    requires forall l :: l in eff ==> l.slot < |v| && LiteralOver(l, |args|)
    requires BlocksOver(cs, |v|, |args|)
    ensures CondEffectsOnAsWritten(target, v, [CondEffect([], eff)] + cs, args) == CondEffectsOnAsWritten(target, v, cs, args)
    ensures CondEffectsOn(target, v, [CondEffect([], eff)] + cs, args)
         == (var e := EffectsOn(v, eff, args); if e.Err? then Err(e.error) else CondEffectsOn(target, e.value, cs, args))
  {
    assert ([CondEffect([], eff)] + cs)[1..] == cs;
  }

  /**
   * A block whose first precondition holds and whose second fails: as
   * written its effect is applied once, read conjunctively it is not.
   * Slot 1 holds p, slot 2 holds q; the block is (p(x) and not p(x)) => q(x).
   */
  lemma PartialBlockFires()
    ensures var target := [{}, {[7]}, {}];
      var c := CondEffect([Literal(1, false, [0]), Literal(1, true, [0])], [Literal(2, false, [0])]);
      && CondEffectsOnAsWritten(target, target, [c], [7]) == Ok([{}, {[7]}, {[7]}])
      && CondEffectsOn(target, target, [c], [7]) == Ok(target)
  {
    var target: seq<set<Tuple>> := [{}, {[7]}, {}];
    var c := CondEffect([Literal(1, false, [0]), Literal(1, true, [0])], [Literal(2, false, [0])]);
    assert Instantiate(Literal(1, false, [0]), [7]) == [7];
    assert Instantiate(Literal(2, false, [0]), [7]) == [7];
    assert !HoldsIn(target, c.preconds[1], [7]);
    assert c.effects[1..] == [];
    var t: Tuple := [7];
    assert target[2] + {t} == {t};
    assert target[2 := target[2] + {t}] == [{}, {t}, {t}];
    assert EffectsOn(target, c.effects, [7]) == Ok([{}, {[7]}, {[7]}]);
  }

  /**
   * A block whose two preconditions hold deletes its atom twice as written,
   * and the second deletion aborts; read conjunctively it deletes it once.
   * The block is (p(x) and p(x)) => not p(x).
   */
  lemma RepeatedBlockAborts()
    ensures var target := [{}, {[7]}];
      var c := CondEffect([Literal(1, false, [0]), Literal(1, false, [0])], [Literal(1, true, [0])]);
      && CondEffectsOnAsWritten(target, target, [c], [7]) == Err(S.EraseMissing(1, [7]))
      && CondEffectsOn(target, target, [c], [7]) == Ok([{}, {}])
  {
    var target: seq<set<Tuple>> := [{}, {[7]}];
    var c := CondEffect([Literal(1, false, [0]), Literal(1, false, [0])], [Literal(1, true, [0])]);
    assert Instantiate(Literal(1, false, [0]), [7]) == [7];
    assert Instantiate(Literal(1, true, [0]), [7]) == [7];
    assert c.effects[1..] == [];
    var t: Tuple := [7];
    assert target[1] - {t} == {};
    assert target[1 := target[1] - {t}] == [{}, {}];
    assert EffectsOn(target, c.effects, [7]) == Ok([{}, {}]);
    assert EffectsOn([{}, {}], c.effects, [7]) == Err(S.EraseMissing(1, [7]));
  }

  // ----- delete relaxation -----

  /** The positive literals of a list, in order. */
  function Positive(ls: seq<Literal>): (r: seq<Literal>)
    ensures forall l :: l in r <==> l in ls && !l.negated
    ensures |r| <= |ls|
    decreases |ls|
  {
    if |ls| == 0 then []
    else
      assert ls == [ls[0]] + ls[1..];
      if ls[0].negated then Positive(ls[1..]) else [ls[0]] + Positive(ls[1..])
  }

  function RelaxBlock(c: CondEffect): (r: CondEffect)
    ensures r.preconds == c.preconds
    ensures forall l :: l in r.effects <==> l in c.effects && !l.negated
  {
    CondEffect(c.preconds, Positive(c.effects))
  }

  /**
   * `delete_relax`: the same action without its negative effects, in the
   * plain effects and in every conditional block; preconditions, including
   * negative ones, are kept.
   */
  function DeleteRelax(a: Action): (r: Action)
    ensures r.name == a.name && r.nbparams == a.nbparams && r.cost == a.cost && r.params == a.params
    ensures r.preconds == a.preconds
    ensures forall l :: l in r.effects <==> l in a.effects && !l.negated
    ensures |r.condEffects| == |a.condEffects|
    ensures forall j :: 0 <= j < |a.condEffects| ==> r.condEffects[j] == RelaxBlock(a.condEffects[j])
    ensures WellFormed(a) ==> WellFormed(r)
    ensures forall dims :: Fits(a, dims) ==> Fits(r, dims)
    ensures forall n :: Targets(a, n) ==> Targets(r, n)
  {
    var r := a.(effects := Positive(a.effects),
                condEffects := seq(|a.condEffects|, j requires 0 <= j < |a.condEffects| => RelaxBlock(a.condEffects[j])));
    assert forall c :: c in r.condEffects ==> exists j :: 0 <= j < |a.condEffects| && c == RelaxBlock(a.condEffects[j]);
    r
  }

  /** Positive effects never abort and only add. */
  lemma {:induction false} PositiveEffectsGrow(v: seq<set<Tuple>>, ls: seq<Literal>, args: seq<Symbol>)
    requires forall l :: l in ls ==> l.slot < |v| && LiteralOver(l, |args|) && !l.negated
    ensures EffectsOn(v, ls, args).Ok?
    ensures forall i :: 0 <= i < |v| ==> v[i] <= EffectsOn(v, ls, args).value[i]
    decreases |ls|
  {
    if |ls| > 0 {
      var l := ls[0];
      assert l in ls && forall x :: x in ls[1..] ==> x in ls;
      var t := Instantiate(l, args);
      PositiveEffectsGrow(v[l.slot := v[l.slot] + {t}], ls[1..], args);
    }
  }

  /** Pointwise inclusion of per-slot views. */
  predicate Below(v: seq<set<Tuple>>, w: seq<set<Tuple>>) {
    |v| == |w| && forall i :: 0 <= i < |v| ==> v[i] <= w[i]
  }

  /**
   * The positive effects, run from a larger view, end at least as high as
   * all the effects run from a smaller one.
   */
  lemma {:induction false} RelaxedEffectsDominate(v: seq<set<Tuple>>, w: seq<set<Tuple>>, ls: seq<Literal>, args: seq<Symbol>)
    requires Below(v, w)
    requires forall l :: l in ls ==> l.slot < |v| && LiteralOver(l, |args|)
    requires EffectsOn(v, ls, args).Ok?
    ensures EffectsOn(w, Positive(ls), args).Ok?
    ensures Below(EffectsOn(v, ls, args).value, EffectsOn(w, Positive(ls), args).value)
    decreases |ls|
  {
    if |ls| > 0 {
      var l := ls[0];
      assert l in ls && forall x :: x in ls[1..] ==> x in ls;
      var t := Instantiate(l, args);
      if l.negated {
        assert Positive(ls) == Positive(ls[1..]);
        RelaxedEffectsDominate(v[l.slot := v[l.slot] - {t}], w, ls[1..], args);
      } else {
        assert Positive(ls) == [l] + Positive(ls[1..]);
        assert ([l] + Positive(ls[1..]))[1..] == Positive(ls[1..]);
        RelaxedEffectsDominate(v[l.slot := v[l.slot] + {t}], w[l.slot := w[l.slot] + {t}], ls[1..], args);
      }
    }
  }

  lemma {:induction false} RelaxedBlocksDominate(target: seq<set<Tuple>>, v: seq<set<Tuple>>, w: seq<set<Tuple>>, cs: seq<CondEffect>, rs: seq<CondEffect>, args: seq<Symbol>)
    requires Below(v, w) && |v| == |target|
    requires BlocksOver(cs, |v|, |args|)
    requires |rs| == |cs| && forall j :: 0 <= j < |cs| ==> rs[j] == RelaxBlock(cs[j])
    requires CondEffectsOn(target, v, cs, args).Ok?
    ensures BlocksOver(rs, |v|, |args|)
    ensures CondEffectsOn(target, w, rs, args).Ok?
    ensures Below(CondEffectsOn(target, v, cs, args).value, CondEffectsOn(target, w, rs, args).value)
    decreases |cs|
  {
    assert forall c :: c in rs ==> exists j :: 0 <= j < |cs| && c == RelaxBlock(cs[j]);
    if |cs| > 0 {
      var c := cs[0];
      assert c in cs && forall x :: x in cs[1..] ==> x in cs;
      assert rs[0] == RelaxBlock(c);
      if AllHoldIn(target, c.preconds, args) {
        RelaxedEffectsDominate(v, w, c.effects, args);
        RelaxedBlocksDominate(target, EffectsOn(v, c.effects, args).value, EffectsOn(w, rs[0].effects, args).value, cs[1..], rs[1..], args);
      } else {
        RelaxedBlocksDominate(target, v, w, cs[1..], rs[1..], args);
      }
    }
  }

  /** Blocks whose effects are all positive never abort and only add. */
  lemma {:induction false} PositiveBlocksGrow(target: seq<set<Tuple>>, v: seq<set<Tuple>>, cs: seq<CondEffect>, args: seq<Symbol>)
    requires |v| == |target| && BlocksOver(cs, |v|, |args|)
    requires forall c :: c in cs ==> forall l :: l in c.effects ==> !l.negated
    ensures CondEffectsOn(target, v, cs, args).Ok?
    ensures Below(v, CondEffectsOn(target, v, cs, args).value)
    decreases |cs|
  {
    if |cs| > 0 {
      var c := cs[0];
      assert c in cs && forall x :: x in cs[1..] ==> x in cs;
      if AllHoldIn(target, c.preconds, args) {
        PositiveEffectsGrow(v, c.effects, args);
        PositiveBlocksGrow(target, EffectsOn(v, c.effects, args).value, cs[1..], args);
      } else {
        PositiveBlocksGrow(target, v, cs[1..], args);
      }
    }
  }

  /** The facts about the relaxed action the relaxation lemmas draw on. */
  lemma RelaxedShape(a: Action, n: nat)
    requires WellFormed(a) && Targets(a, n)
    ensures WellFormed(DeleteRelax(a)) && Targets(DeleteRelax(a), n)
    ensures BlocksOver(a.condEffects, n, a.nbparams)
    ensures BlocksOver(DeleteRelax(a).condEffects, n, a.nbparams)
    ensures forall l :: l in DeleteRelax(a).effects ==> !l.negated
    ensures forall c :: c in DeleteRelax(a).condEffects ==> forall l :: l in c.effects ==> !l.negated
  {
    var r := DeleteRelax(a);
    assert forall c :: c in r.condEffects ==> exists j :: 0 <= j < |a.condEffects| && c == RelaxBlock(a.condEffects[j]);
  }

  /**
   * The relaxed action is applicable exactly when the action is, never
   * aborts and only adds to the view.
   */
  lemma RelaxedSuccessorGrows(v: seq<set<Tuple>>, a: Action, args: seq<Symbol>)
    requires WellFormed(a) && |args| == a.nbparams && Targets(a, |v|)
    ensures WellFormed(DeleteRelax(a)) && Targets(DeleteRelax(a), |v|)
    ensures Successor(v, DeleteRelax(a), args).Ok?
    ensures Successor(v, DeleteRelax(a), args).value.None? <==> !AllHoldIn(v, a.preconds, args)
    ensures Successor(v, DeleteRelax(a), args).value.Some? ==> Below(v, Successor(v, DeleteRelax(a), args).value.value)
  {
    var r := DeleteRelax(a);
    RelaxedShape(a, |v|);
    if AllHoldIn(v, a.preconds, args) {
      PositiveEffectsGrow(v, r.effects, args);
      var v1 := EffectsOn(v, r.effects, args).value;
      PositiveBlocksGrow(v, v1, r.condEffects, args);
      var v2 := CondEffectsOn(v, v1, r.condEffects, args).value;
      assert Successor(v, r, args) == Ok(Some(v2));
    }
  }

  /** The relaxed action reaches at least every atom the action reaches. */
  lemma RelaxedSuccessorDominates(v: seq<set<Tuple>>, a: Action, args: seq<Symbol>)
    requires WellFormed(a) && |args| == a.nbparams && Targets(a, |v|)
    requires Successor(v, a, args).Ok? && Successor(v, a, args).value.Some?
    ensures WellFormed(DeleteRelax(a)) && Targets(DeleteRelax(a), |v|)
    ensures Successor(v, DeleteRelax(a), args).Ok? && Successor(v, DeleteRelax(a), args).value.Some?
    ensures Below(Successor(v, a, args).value.value, Successor(v, DeleteRelax(a), args).value.value)
  {
    var r := DeleteRelax(a);
    RelaxedShape(a, |v|);
    var e := EffectsOn(v, a.effects, args);
    assert Below(v, v);
    RelaxedEffectsDominate(v, v, a.effects, args);
    var v1 := EffectsOn(v, r.effects, args).value;
    RelaxedBlocksDominate(v, e.value, v1, a.condEffects, r.condEffects, args);
    var v2 := CondEffectsOn(v, v1, r.condEffects, args).value;
    assert Successor(v, r, args) == Ok(Some(v2));
  }

  /** The per-slot view of a valid state lists exactly its slots. */
  lemma BelowIsSubFacts(s: S.State, o: S.State)
    requires S.Valid(s) && S.Valid(o) && S.Dims(s) == S.Dims(o)
    requires Below(S.View(s), S.View(o))
    ensures S.SubFacts(s, o)
  {
    forall i: nat ensures S.Slot(s, i) <= S.Slot(o, i) {
      if i < |S.Dims(s)| {
        assert S.View(s)[i] <= S.View(o)[i];
      }
    }
  }

  /**
   * `Apply` on the relaxed action: never aborts, yields the marker state
   * exactly when the action does not apply, keeps every fact of the
   * target and every fact the action itself would produce.
   */
  lemma RelaxedApplyDominates(a: Action, target: S.State, args: seq<Symbol>)
    requires WellFormed(a) && |args| == a.nbparams && S.Valid(target) && Fits(a, S.Dims(target))
    ensures WellFormed(DeleteRelax(a)) && Fits(DeleteRelax(a), S.Dims(target))
    ensures Apply(DeleteRelax(a), target, args).Ok?
    ensures Apply(DeleteRelax(a), target, args) == Ok(S.Sentinel) <==> !AllHoldIn(S.View(target), a.preconds, args)
    ensures Apply(DeleteRelax(a), target, args).value.Slotted? ==> S.SubFacts(target, Apply(DeleteRelax(a), target, args).value)
    ensures Apply(a, target, args).Ok? && Apply(a, target, args).value.Slotted? ==>
              S.SubFacts(Apply(a, target, args).value, Apply(DeleteRelax(a), target, args).value)
  {
    FitsTargets(a, S.Dims(target));
    RelaxedSuccessorGrows(S.View(target), a, args);
    var r := Apply(DeleteRelax(a), target, args);
    if r.value.Slotted? {
      BelowIsSubFacts(target, r.value);
      var o := Apply(a, target, args);
      if o.Ok? && o.value.Slotted? {
        RelaxedSuccessorDominates(S.View(target), a, args);
        BelowIsSubFacts(o.value, r.value);
      }
    }
  }

  /** The action deletes nothing: no negative effect, plain or conditional. */
  predicate Additive(a: Action) {
    && (forall l :: l in a.effects ==> !l.negated)
    && (forall c :: c in a.condEffects ==> forall l :: l in c.effects ==> !l.negated)
  }

  /** A relaxed action deletes nothing. */
  lemma RelaxedIsAdditive(a: Action)
    ensures Additive(DeleteRelax(a))
  {
    var r := DeleteRelax(a);
    assert forall c :: c in r.condEffects ==> exists j :: 0 <= j < |a.condEffects| && c == RelaxBlock(a.condEffects[j]);
  }

  /** An action that deletes nothing never aborts: no erase assertion can fail. */
  lemma AdditiveNeverAborts(a: Action, target: S.State, args: seq<Symbol>)
    requires WellFormed(a) && |args| == a.nbparams && S.Valid(target) && Fits(a, S.Dims(target))
    requires Additive(a)
    ensures Apply(a, target, args).Ok?
  {
    var v := S.View(target);
    FitsTargets(a, S.Dims(target));
    RelaxedShape(a, |v|);
    if AllHoldIn(v, a.preconds, args) {
      PositiveEffectsGrow(v, a.effects, args);
      PositiveBlocksGrow(v, EffectsOn(v, a.effects, args).value, a.condEffects, args);
    }
  }

  // ----- STRIPS reading of the effects -----

  /** The atoms of slot `i` the literals delete. */
  function Deleted(ls: seq<Literal>, args: seq<Symbol>, i: nat): set<Tuple>
    requires LiteralsOver(ls, |args|)
  {
    set l | l in ls && l.negated && l.slot == i :: Instantiate(l, args)
  }

  /** The atoms of slot `i` the literals add. */
  function Added(ls: seq<Literal>, args: seq<Symbol>, i: nat): set<Tuple>
    requires LiteralsOver(ls, |args|)
  {
    set l | l in ls && !l.negated && l.slot == i :: Instantiate(l, args)
  }

  /** No atom is deleted by two literals. */
  predicate DeletesOnce(ls: seq<Literal>, args: seq<Symbol>)
    requires LiteralsOver(ls, |args|)
  {
    forall j, k :: 0 <= j < k < |ls| && ls[j].negated && ls[k].negated && ls[j].slot == ls[k].slot ==>
      Instantiate(ls[j], args) != Instantiate(ls[k], args)
  }

  /**
   * Set algebra of one effect: `x'` is `x` with the atom `t` deleted, added
   * or left alone, and the deleted or added atoms grow by `t` alike.
   */
  lemma StripsStep(x: set<Tuple>, x': set<Tuple>, r: set<Tuple>, d': set<Tuple>, a': set<Tuple>, d: set<Tuple>, a: set<Tuple>, t: Tuple)
    requires r == (x' - d') + a' && d !! a
    requires || (x' == x - {t} && d == d' + {t} && a == a')
             || (x' == x + {t} && d == d' && a == a' + {t})
             || (x' == x && d == d' && a == a')
    ensures r == (x - d) + a
  {
  }

  lemma DeletedAddedStep(ls: seq<Literal>, args: seq<Symbol>, i: nat)
    requires |ls| > 0 && LiteralsOver(ls, |args|)
    ensures LiteralsOver(ls[1..], |args|)
    ensures Deleted(ls, args, i) == Deleted(ls[1..], args, i) + (if ls[0].negated && ls[0].slot == i then {Instantiate(ls[0], args)} else {})
    ensures Added(ls, args, i) == Added(ls[1..], args, i) + (if !ls[0].negated && ls[0].slot == i then {Instantiate(ls[0], args)} else {})
  {
    assert ls == [ls[0]] + ls[1..];
    assert forall x :: x in ls <==> x == ls[0] || x in ls[1..];
  }

  lemma DeletesOnceStep(ls: seq<Literal>, args: seq<Symbol>)
    requires |ls| > 0 && LiteralsOver(ls, |args|) && DeletesOnce(ls, args)
    ensures LiteralsOver(ls[1..], |args|) && DeletesOnce(ls[1..], args)
    ensures ls[0].negated ==> Instantiate(ls[0], args) !in Deleted(ls[1..], args, ls[0].slot)
  {
    assert forall x :: x in ls[1..] ==> x in ls;
    var rest := ls[1..];
    forall j, k | 0 <= j < k < |rest| && rest[j].negated && rest[k].negated && rest[j].slot == rest[k].slot
      ensures Instantiate(rest[j], args) != Instantiate(rest[k], args)
    {
      assert rest[j] == ls[j + 1] && rest[k] == ls[k + 1];
    }
    if ls[0].negated {
      forall l | l in rest && l.negated && l.slot == ls[0].slot
        ensures Instantiate(l, args) != Instantiate(ls[0], args)
      {
        var k :| 0 <= k < |rest| && rest[k] == l;
        assert ls[k + 1] == l;
      }
    }
  }

  /**
   * When every deleted atom is present, no atom is deleted twice and none
   * is both added and deleted, the effects compute the STRIPS successor
   * (S minus the deletions) plus the additions, whatever their order.
   */
  lemma {:induction false} EffectsAreStrips(v: seq<set<Tuple>>, ls: seq<Literal>, args: seq<Symbol>)
    requires forall l :: l in ls ==> l.slot < |v| && LiteralOver(l, |args|)
    requires DeletesOnce(ls, args)
    requires forall i :: 0 <= i < |v| ==> Deleted(ls, args, i) <= v[i] && Deleted(ls, args, i) !! Added(ls, args, i)
    ensures EffectsOn(v, ls, args).Ok?
    ensures forall i :: 0 <= i < |v| ==> EffectsOn(v, ls, args).value[i] == (v[i] - Deleted(ls, args, i)) + Added(ls, args, i)
    decreases |ls|
  {
    if |ls| > 0 {
      var v' := StripsPre(v, ls, args);
      EffectsAreStrips(v', ls[1..], args);
      StripsPost(v, v', ls, args, EffectsOn(v', ls[1..], args).value);
    }
  }

  /**
   * The first effect of a STRIPS list applies, to the state `v'`, and the
   * rest of the list is again a STRIPS list for `v'`.
   */
  lemma StripsPre(v: seq<set<Tuple>>, ls: seq<Literal>, args: seq<Symbol>) returns (v': seq<set<Tuple>>)
    requires |ls| > 0 && forall l :: l in ls ==> l.slot < |v| && LiteralOver(l, |args|)
    requires DeletesOnce(ls, args)
    requires forall i :: 0 <= i < |v| ==> Deleted(ls, args, i) <= v[i] && Deleted(ls, args, i) !! Added(ls, args, i)
    ensures |v'| == |v| && EffectsOn(v, ls, args) == EffectsOn(v', ls[1..], args)
    ensures var t := Instantiate(ls[0], args);
      v' == if ls[0].negated then v[ls[0].slot := v[ls[0].slot] - {t}] else v[ls[0].slot := v[ls[0].slot] + {t}]
    ensures ls[0].negated ==> Instantiate(ls[0], args) in v[ls[0].slot]
    ensures forall l :: l in ls[1..] ==> l.slot < |v'| && LiteralOver(l, |args|)
    ensures DeletesOnce(ls[1..], args)
    ensures forall i :: 0 <= i < |v'| ==> Deleted(ls[1..], args, i) <= v'[i] && Deleted(ls[1..], args, i) !! Added(ls[1..], args, i)
  {
    var l := ls[0];
    assert l in ls && forall x :: x in ls[1..] ==> x in ls;
    var t := Instantiate(l, args);
    var rest := ls[1..];
    DeletesOnceStep(ls, args);
    v' := if l.negated then v[l.slot := v[l.slot] - {t}] else v[l.slot := v[l.slot] + {t}];
    if l.negated {
      DeletedAddedStep(ls, args, l.slot);
      assert t in v[l.slot];
    }
    forall i | 0 <= i < |v|
      ensures Deleted(rest, args, i) <= v'[i] && Deleted(rest, args, i) !! Added(rest, args, i)
    {
      DeletedAddedStep(ls, args, i);
    }
  }

  /** The STRIPS result of the rest of the list from `v'` is the STRIPS result of the whole list from `v`. */
  lemma StripsPost(v: seq<set<Tuple>>, v': seq<set<Tuple>>, ls: seq<Literal>, args: seq<Symbol>, r: seq<set<Tuple>>)
    requires |ls| > 0 && LiteralsOver(ls, |args|) && ls[0].slot < |v| && |v'| == |v| && |r| == |v|
    requires var t := Instantiate(ls[0], args);
      v' == if ls[0].negated then v[ls[0].slot := v[ls[0].slot] - {t}] else v[ls[0].slot := v[ls[0].slot] + {t}]
    requires forall i :: 0 <= i < |v| ==> Deleted(ls, args, i) !! Added(ls, args, i)
    requires forall i :: 0 <= i < |v| ==> r[i] == (v'[i] - Deleted(ls[1..], args, i)) + Added(ls[1..], args, i)
    ensures forall i :: 0 <= i < |v| ==> r[i] == (v[i] - Deleted(ls, args, i)) + Added(ls, args, i)
  {
    var t := Instantiate(ls[0], args);
    var rest := ls[1..];
    forall i | 0 <= i < |v| ensures r[i] == (v[i] - Deleted(ls, args, i)) + Added(ls, args, i) {
      DeletedAddedStep(ls, args, i);
      StripsStep(v[i], v'[i], r[i], Deleted(rest, args, i), Added(rest, args, i), Deleted(ls, args, i), Added(ls, args, i), t);
    }
  }


  /**
   * A ground action without conditional effects whose preconditions hold
   * takes a state to its STRIPS successor, under the same hypotheses.
   */
  lemma ApplyIsStrips(a: Action, target: S.State, args: seq<Symbol>)
    requires WellFormed(a) && |args| == a.nbparams && S.Valid(target) && Fits(a, S.Dims(target))
    requires a.condEffects == [] && AllHoldIn(S.View(target), a.preconds, args)
    requires DeletesOnce(a.effects, args)
    requires forall i :: 0 <= i < |S.Dims(target)| ==>
               Deleted(a.effects, args, i) <= S.Slot(target, i) && Deleted(a.effects, args, i) !! Added(a.effects, args, i)
    ensures Apply(a, target, args).Ok? && Apply(a, target, args).value.Slotted?
    ensures forall i :: 0 <= i < |S.Dims(target)| ==>
              S.Slot(Apply(a, target, args).value, i) == (S.Slot(target, i) - Deleted(a.effects, args, i)) + Added(a.effects, args, i)
  {
    FitsTargets(a, S.Dims(target));
    var v := S.View(target);
    EffectsAreStrips(v, a.effects, args);
    var r := Apply(a, target, args);
    assert r.Ok? && r.value.Slotted?;
    assert S.View(r.value) == EffectsOn(v, a.effects, args).value;
  }
}
