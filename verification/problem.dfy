/**
 * A planning problem (planning_problem/problem.cpp): a domain, the objects
 * that may instantiate action parameters, an initial state and a goal
 * state over the domain's slot layout.
 *
 * The source holds the domain through a pointer, so `add_object` registers
 * the object in a domain that other problems may share; here the problem
 * owns its domain value.
 */
module Problems {
  import opened Tuples
  import S = States
  import D = Domains

  datatype Problem = Problem(domain: D.Domain, objects: seq<Symbol>, init: S.State, goal: S.State)

  /** The invariant: a well-formed domain and two valid states of its layout. */
  predicate Valid(p: Problem) {
    && D.WellFormed(p.domain)
    && S.Valid(p.init) && p.init.Slotted? && S.Dims(p.init) == p.domain.dims
    && S.Valid(p.goal) && p.goal.Slotted? && S.Dims(p.goal) == p.domain.dims
  }

  /** `problem(dom)`: the domain's constants as objects, init and goal empty over its layout. */
  function NewProblem(dom: D.Domain): (p: Problem)
    ensures p.domain == dom && p.objects == dom.constants
    ensures S.Dims(p.init) == dom.dims && S.NoFacts(p.init)
    ensures S.Dims(p.goal) == dom.dims && S.NoFacts(p.goal)
    ensures D.WellFormed(dom) ==> Valid(p)
  {
    Problem(dom, dom.constants, S.NewState(dom.dims), S.NewState(dom.dims))
  }

  /** `add_object`: registers the name in the domain (the source asserts it is new) and appends it. */
  function AddObject(p: Problem, o: Symbol): (r: Problem)
    requires o !in p.domain.symbols
    ensures r.domain == D.AddSymbol(p.domain, o) && r.domain.symbols == p.domain.symbols + {o}
    ensures r.objects == p.objects + [o]
    ensures r.init == p.init && r.goal == p.goal
    ensures Valid(p) ==> Valid(r)
  {
    p.(domain := D.AddSymbol(p.domain, o), objects := p.objects + [o])
  }

  /**
   * What `ground_init` and `ground_final` check: the predicate exists with
   * as many parameters as the tuple has values, and every value is an
   * object. The arity must be positive: a 0-arity fact would be filed as an
   * empty tuple in the dimension-1 slot 0, which the tree cannot compare.
   */
  predicate Groundable(p: Problem, pred: Symbol, objs: Tuple) {
    && pred in p.domain.predicates
    && p.domain.predicates[pred].arity == |objs|
    && |objs| >= 1
    && forall o :: o in objs ==> o in p.objects
  }

  /** The slot a groundable fact goes to, through `pred_index`. */
  function FactSlot(p: Problem, pred: Symbol, objs: Tuple): (i: nat)
    requires Groundable(p, pred, objs)
    ensures Valid(p) ==> S.FitsSlot(p.init, i, objs) && S.FitsSlot(p.goal, i, objs)
  {
    D.PredIndex(p.domain, pred, |objs|)
  }

  /** `ground_init`: adds the fact to the initial state only. */
  function GroundInit(p: Problem, pred: Symbol, objs: Tuple): (r: Problem)
    requires Valid(p) && Groundable(p, pred, objs)
    ensures Valid(r)
    ensures r.domain == p.domain && r.objects == p.objects && r.goal == p.goal
    ensures S.Slot(r.init, FactSlot(p, pred, objs)) == S.Slot(p.init, FactSlot(p, pred, objs)) + {objs}
    ensures forall j :: j != FactSlot(p, pred, objs) ==> S.Slot(r.init, j) == S.Slot(p.init, j)
  {
    p.(init := S.Add(p.init, FactSlot(p, pred, objs), objs))
  }

  /** `ground_final`: adds the fact to the goal state only. */
  function GroundFinal(p: Problem, pred: Symbol, objs: Tuple): (r: Problem)
    requires Valid(p) && Groundable(p, pred, objs)
    ensures Valid(r)
    ensures r.domain == p.domain && r.objects == p.objects && r.init == p.init
    ensures S.Slot(r.goal, FactSlot(p, pred, objs)) == S.Slot(p.goal, FactSlot(p, pred, objs)) + {objs}
    ensures forall j :: j != FactSlot(p, pred, objs) ==> S.Slot(r.goal, j) == S.Slot(p.goal, j)
  {
    p.(goal := S.Add(p.goal, FactSlot(p, pred, objs), objs))
  }

  /** Grounding two facts into the initial state in either order gives the same facts. */
  lemma GroundInitCommutes(p: Problem, f: Symbol, x: Tuple, g: Symbol, y: Tuple)
    requires Valid(p) && Groundable(p, f, x) && Groundable(p, g, y)
    ensures Groundable(GroundInit(p, f, x), g, y) && Groundable(GroundInit(p, g, y), f, x)
    ensures S.SameFacts(GroundInit(GroundInit(p, f, x), g, y).init, GroundInit(GroundInit(p, g, y), f, x).init)
  {
    var px := GroundInit(p, f, x);
    var py := GroundInit(p, g, y);
    assert FactSlot(px, g, y) == FactSlot(p, g, y) && FactSlot(py, f, x) == FactSlot(p, f, x);
    S.AddCommutes(p.init, FactSlot(p, f, x), x, FactSlot(p, g, y), y);
  }

  /** `final_state()`: a copy of the goal, with its layout, its facts and its size. */
  function FinalState(p: Problem): (g: S.State)
    requires S.Valid(p.goal)
    ensures S.Valid(g) && g.Slotted? && S.Dims(g) == S.Dims(p.goal)
    ensures S.SameFacts(g, p.goal) && S.Size(g) == S.Size(p.goal)
  {
    S.CopySize(p.goal);
    S.Copy(p.goal)
  }

  /** `set_initial`: the initial state becomes a copy of `s` (assignment re-adds its facts). */
  function SetInitial(p: Problem, s: S.State): (r: Problem)
    requires S.Valid(s)
    ensures S.SameFacts(r.init, s) && S.Dims(r.init) == S.Dims(s) && S.Valid(r.init)
    ensures r.domain == p.domain && r.objects == p.objects && r.goal == p.goal
    ensures Valid(p) && s.Slotted? && S.Dims(s) == p.domain.dims ==> Valid(r)
  {
    p.(init := S.Copy(s))
  }

  /** `set_final`: the goal state becomes a copy of `s`. */
  function SetFinal(p: Problem, s: S.State): (r: Problem)
    requires S.Valid(s)
    ensures S.SameFacts(r.goal, s) && S.Dims(r.goal) == S.Dims(s) && S.Valid(r.goal)
    ensures r.domain == p.domain && r.objects == p.objects && r.init == p.init
    ensures Valid(p) && s.Slotted? && S.Dims(s) == p.domain.dims ==> Valid(r)
  {
    p.(goal := S.Copy(s))
  }

  /** `delete_relax`: the relaxed domain with the same objects, initial state and goal. */
  function DeleteRelax(p: Problem): (r: Problem)
    ensures r.domain == D.DeleteRelax(p.domain)
    ensures r.objects == p.objects && r.init == p.init && r.goal == p.goal
    ensures Valid(p) ==> Valid(r)
  {
    Problem(D.DeleteRelax(p.domain), p.objects, p.init, p.goal)
  }
}
