/**
 * The planner (solver.cpp): a best-first search over a table of
 * predecessors, with the zero, delete-relaxation and critical-path
 * heuristics.
 *
 * The search and the heuristics call each other (a heuristic runs searches
 * of its own), so every member of that group takes a `fuel` bound; a
 * search that runs out returns `OutOfFuel`. One unit of fuel is spent per
 * iteration of the main loop, and a heuristic's searches run on the fuel
 * left to the iteration that computes it.
 */
module Search {
  import opened Wrappers
  import opened Tuples
  import S = States
  import K = KdTree
  import A = Actions
  import D = Domains
  import P = Problems
  import O = Odometer
  import C = Subsets

  /** The heuristics a search can be given; the source passes them as function pointers. */
  datatype Heuristic = Zero | DeleteRelaxation | CriticalPath

  /** `path`: the states from the initial one, the action labels between them, and the cost. */
  datatype Path = Path(states: seq<S.State>, actions: seq<seq<Symbol>>, cost: nat)

  /** A row of the predecessor table: a state, its predecessor, its cost, and the label (action name and arguments) of the step reaching it. */
  datatype Entry = Entry(state: S.State, pred: S.State, cost: nat, move: seq<Symbol>)

  /** Why a search has no answer: an erase assertion of `apply` fails, or the fuel runs out. */
  datatype Stop = Aborted(abort: S.Abort) | OutOfFuel

  /** A waiting state with its estimated cost, the cost so far plus the heuristic value. */
  datatype Item = Item(state: S.State, estimate: nat)

  /** The waiting list; the search pops from its end. */
  type Waiting = seq<Item>

  /** The two lists `astar` updates while expanding a state. */
  datatype Lists = Lists(waiting: Waiting, preds: seq<Entry>)

  // ----- what the search needs -----

  /** A state of the problem's slot layout. */
  predicate Good(p: P.Problem, s: S.State) {
    S.Valid(s) && s.Slotted? && S.Dims(s) == p.domain.dims
  }

  /**
   * A problem the search can run on: valid, every action's literals fit the
   * layout, and at least two objects (with one the argument counter's carry
   * runs past its last digit, with none the modulo divides by zero).
   */
  predicate Ready(p: P.Problem) {
    && P.Valid(p)
    && |p.objects| >= 2
    && forall a :: a in p.domain.actions ==> A.Fits(p.domain.actions[a], p.domain.dims)
  }

  /** `critical_path` asserts that the power is at most the goal's size; power 0 would index before its array. */
  predicate HeuristicReady(p: P.Problem, h: Heuristic, power: nat) {
    h.CriticalPath? ==> 1 <= power <= S.Size(p.goal)
  }

  /** No action of the domain deletes anything. */
  predicate Additive(p: P.Problem) {
    forall a :: a in p.domain.actions ==> A.Additive(p.domain.actions[a])
  }

  /** `operator==` between two states of the layout. */
  function Same(p: P.Problem, s: S.State, t: S.State): (b: bool)
    requires Good(p, s) && Good(p, t)
    ensures b <==> S.SameFacts(s, t)
  {
    S.SameLayoutProbes(s, t);
    S.SameLayoutProbes(t, s);
    S.Equal(s, t)
  }

  /** The goal is a state of the problem's slot layout. */
  predicate GoalFits(p: P.Problem) {
    S.Valid(p.goal) && S.Dims(p.goal) == p.domain.dims
  }

  /** The goal test: the goal is included in the state. */
  function Reached(p: P.Problem, s: S.State): (b: bool)
    requires GoalFits(p) && Good(p, s)
    ensures b <==> S.SubFacts(p.goal, s)
  {
    S.SameLayoutProbes(p.goal, s);
    S.Included(p.goal, s)
  }

  /** States with the same facts both include the goal or both do not. */
  lemma ReachedSame(p: P.Problem, s: S.State, t: S.State)
    requires GoalFits(p) && Good(p, s) && Good(p, t) && Same(p, s, t)
    ensures Reached(p, s) == Reached(p, t)
  {
  }

  // ----- what a plan is -----

  /**
   * `t` is reached from `s` by the action named by the label's head,
   * instantiated with the rest of the label, a tuple of objects.
   */
  ghost predicate Step(p: P.Problem, s: S.State, move: seq<Symbol>, t: S.State) {
    && |move| >= 1 && move[0] in p.domain.actions
    && (forall j :: 1 <= j < |move| ==> move[j] in p.objects)
    && var a := p.domain.actions[move[0]];
       && A.WellFormed(a) && |move| - 1 == a.nbparams && A.Targets(a, |S.View(s)|)
       && A.Successor(S.View(s), a, move[1..]) == Ok(Some(S.View(t)))
  }

  /** Each state is reached from the one before by the label between them. */
  ghost predicate Steps(p: P.Problem, states: seq<S.State>, labels: seq<seq<Symbol>>) {
    && |states| == |labels| + 1
    && forall i :: 0 <= i < |labels| ==> Step(p, states[i], labels[i], states[i + 1])
  }

  /** A plan: from the initial state, one step per action, ending in a state that includes the goal. */
  ghost predicate Plan(p: P.Problem, path: Path) {
    && Steps(p, path.states, path.actions)
    && path.states[0] == p.init
    && S.SubFacts(p.goal, path.states[|path.states| - 1])
  }

  /** A step from the last state extends a sequence of steps. */
  lemma StepsSnoc(p: P.Problem, states: seq<S.State>, labels: seq<seq<Symbol>>, move: seq<Symbol>, t: S.State)
    requires Steps(p, states, labels) && Step(p, states[|states| - 1], move, t)
    ensures Steps(p, states + [t], labels + [move])
  {
    var states', labels' := states + [t], labels + [move];
    forall i | 0 <= i < |labels'| ensures Step(p, states'[i], labels'[i], states'[i + 1]) {
      if i < |labels| {
        assert states'[i] == states[i] && states'[i + 1] == states[i + 1] && labels'[i] == labels[i];
      } else {
        assert states'[i] == states[|states| - 1] && states'[i + 1] == t && labels'[i] == move;
      }
    }
  }

  // ----- the predecessor table -----

  /** The state of entry `k`; the table's invariants are stated on it so that they are only used where an entry is named. */
  function StateOf(preds: seq<Entry>, k: nat): S.State
    requires k < |preds|
  {
    preds[k].state
  }

  /** Entry `j` holds the facts of `s`. */
  ghost predicate HoldsAt(p: P.Problem, preds: seq<Entry>, j: nat, s: S.State) {
    j < |preds| && Good(p, StateOf(preds, j)) && Good(p, s) && Same(p, StateOf(preds, j), s)
  }

  /** Some entry of the table holds the facts of `s`. */
  ghost predicate Covered(p: P.Problem, preds: seq<Entry>, s: S.State) {
    exists j :: HoldsAt(p, preds, j, s)
  }

  /** Every state of the table is of the layout. */
  ghost predicate AllGood(p: P.Problem, preds: seq<Entry>) {
    forall k :: 0 <= k < |preds| ==> Good(p, StateOf(preds, k))
  }

  /** Entry `k`'s predecessor is a state of the table, and the entry's state is reached from it by the entry's label. */
  ghost predicate Linked(p: P.Problem, preds: seq<Entry>, k: nat) {
    && k < |preds|
    && Good(p, preds[k].pred)
    && !S.IsNoState(preds[k].state)
    && Step(p, preds[k].pred, preds[k].move, preds[k].state)
    && Covered(p, preds, preds[k].pred)
  }

  /** States of the layout either both have trees or both have none. */
  lemma NoStateSame(p: P.Problem, s: S.State, t: S.State)
    requires Good(p, s) && Good(p, t)
    ensures S.IsNoState(s) == S.IsNoState(t)
  {
  }

  /**
   * The table's invariant: the first entry is the initial state with the
   * marker as predecessor and cost 0, and every other entry is linked.
   */
  ghost predicate Table(p: P.Problem, preds: seq<Entry>) {
    && |preds| >= 1
    && preds[0] == Entry(p.init, S.Sentinel, 0, [])
    && AllGood(p, preds)
    && forall k :: 1 <= k < |preds| ==> Linked(p, preds, k)
  }

  /** A waiting item is of the layout and has an entry in the table. */
  ghost predicate Queued(p: P.Problem, preds: seq<Entry>, x: Item) {
    Good(p, x.state) && Covered(p, preds, x.state)
  }

  /** Every waiting item is queued. */
  ghost predicate Frontier(p: P.Problem, preds: seq<Entry>, waiting: Waiting) {
    forall x {:trigger Queued(p, preds, x)} :: x in waiting ==> Queued(p, preds, x)
  }

  /** `preds'` keeps the states of `preds` in place, possibly followed by more entries. */
  ghost predicate Extends(preds: seq<Entry>, preds': seq<Entry>) {
    |preds| <= |preds'| && forall k :: 0 <= k < |preds| ==> StateOf(preds', k) == StateOf(preds, k)
  }

  lemma CoveredExtends(p: P.Problem, preds: seq<Entry>, preds': seq<Entry>)
    requires Extends(preds, preds')
    ensures forall s :: Covered(p, preds, s) ==> Covered(p, preds', s)
  {
    forall s | Covered(p, preds, s) ensures Covered(p, preds', s) {
      var j :| HoldsAt(p, preds, j, s);
      assert StateOf(preds', j) == StateOf(preds, j);
      assert HoldsAt(p, preds', j, s);
    }
  }

  /** Equality of facts is transitive, so a state with the facts of a covered one is covered. */
  lemma CoveredBySame(p: P.Problem, preds: seq<Entry>, s: S.State, t: S.State)
    requires Covered(p, preds, s) && Good(p, t) && Same(p, s, t)
    ensures Covered(p, preds, t)
  {
    var j :| HoldsAt(p, preds, j, s);
    assert HoldsAt(p, preds, j, t);
  }

  /** Which entries hold the facts of `s`: `operator==` against each entry's state. */
  function Matches(p: P.Problem, preds: seq<Entry>, s: S.State): (bs: seq<bool>)
    requires Good(p, s) && AllGood(p, preds)
    ensures |bs| == |preds| && forall j :: 0 <= j < |preds| ==> (bs[j] <==> HoldsAt(p, preds, j, s))
  {
    seq(|preds|, j requires 0 <= j < |preds| => Same(p, StateOf(preds, j), s))
  }

  /** The lookup of `s` in the table: the first entry that holds its facts. */
  function FindEntry(p: P.Problem, preds: seq<Entry>, s: S.State): (r: Option<nat>)
    requires Good(p, s) && AllGood(p, preds)
    ensures r.Some? ==> r.value < |preds| && HoldsAt(p, preds, r.value, s)
    ensures forall j :: 0 <= j < (if r.Some? then r.value else |preds|) ==> !HoldsAt(p, preds, j, s)
  {
    FirstTrue(Matches(p, preds, s), 0)
  }

  /** A covered state is found by the lookup. */
  lemma CoveredFound(p: P.Problem, preds: seq<Entry>, s: S.State)
    requires Good(p, s) && AllGood(p, preds) && Covered(p, preds, s)
    ensures FindEntry(p, preds, s).Some?
  {
    var j :| HoldsAt(p, preds, j, s);
  }

  /** Facts equal slot by slot give the same view, and a copy has the view of its original. */
  lemma SameView(p: P.Problem, s: S.State, t: S.State)
    requires Good(p, s) && Good(p, t) && Same(p, s, t)
    ensures S.View(s) == S.View(t)
  {
    S.SameFactsView(s, t);
  }

  /** A step only depends on the views of its two ends. */
  lemma StepByView(p: P.Problem, s: S.State, move: seq<Symbol>, t: S.State, s': S.State, t': S.State)
    requires Step(p, s, move, t) && S.View(s) == S.View(s') && S.View(t) == S.View(t')
    ensures Step(p, s', move, t')
  {
  }

  /**
   * Relaxing a successor `next` of `cur` reached at `cost`: a state without
   * an entry gets a new one and is pushed; a state whose entry has a
   * strictly higher cost gets that entry's predecessor, cost and label
   * replaced and is pushed again; otherwise nothing changes.
   */
  function Relax(p: P.Problem, waiting: Waiting, preds: seq<Entry>, cur: S.State, next: S.State, cost: nat, hv: nat, move: seq<Symbol>): (r: Lists)
    requires P.Valid(p) && Table(p, preds) && Frontier(p, preds, waiting)
    requires Good(p, cur) && Covered(p, preds, cur) && Good(p, next) && !S.IsNoState(next) && Step(p, cur, move, next)
    ensures Table(p, r.preds) && Frontier(p, r.preds, r.waiting) && Extends(preds, r.preds)
  {
    var f := FindEntry(p, preds, next);
    if f.Some? then
      if preds[f.value].cost > cost then
        UpdateKeeps(p, waiting, preds, cur, next, f.value, cost, cost + hv, move);
        Lists(waiting + [Item(next, cost + hv)], preds[f.value := Entry(preds[f.value].state, S.Copy(cur), cost, move)])
      else
        Lists(waiting, preds)
    else
      AppendKeeps(p, waiting, preds, cur, next, cost, cost + hv, move);
      Lists(waiting + [Item(next, cost + hv)], preds + [Entry(next, S.Copy(cur), cost, move)])
  }

  /**
   * What relaxing does to the lists: `next` is pushed exactly when it had no
   * entry or a costlier one, and the table grows exactly when it had none.
   */
  lemma RelaxPushes(p: P.Problem, waiting: Waiting, preds: seq<Entry>, cur: S.State, next: S.State, cost: nat, hv: nat, move: seq<Symbol>)
    requires P.Valid(p) && Table(p, preds) && Frontier(p, preds, waiting)
    requires Good(p, cur) && Covered(p, preds, cur) && Good(p, next) && !S.IsNoState(next) && Step(p, cur, move, next)
    ensures var r := Relax(p, waiting, preds, cur, next, cost, hv, move);
      var f := FindEntry(p, preds, next);
      && (if f.None? || preds[f.value].cost > cost then r.waiting == waiting + [Item(next, cost + hv)] else r == Lists(waiting, preds))
      && |r.preds| == |preds| + (if f.None? then 1 else 0)
  {
  }

  /** A state without an entry gets one appended, after the old entries, which stay as they were. */
  lemma RelaxAppends(p: P.Problem, waiting: Waiting, preds: seq<Entry>, cur: S.State, next: S.State, cost: nat, hv: nat, move: seq<Symbol>)
    requires P.Valid(p) && Table(p, preds) && Frontier(p, preds, waiting)
    requires Good(p, cur) && Covered(p, preds, cur) && Good(p, next) && !S.IsNoState(next) && Step(p, cur, move, next)
    requires FindEntry(p, preds, next).None?
    ensures var r := Relax(p, waiting, preds, cur, next, cost, hv, move);
      && r.waiting == waiting + [Item(next, cost + hv)]
      && r.preds == preds + [Entry(next, S.Copy(cur), cost, move)]
  {
  }

  /**
   * A state whose entry is costlier gets, in that entry's place, the copy of
   * `cur` as predecessor, the new cost and the label; the entry keeps its
   * state and no other entry changes.
   */
  lemma RelaxReplaces(p: P.Problem, waiting: Waiting, preds: seq<Entry>, cur: S.State, next: S.State, cost: nat, hv: nat, move: seq<Symbol>)
    requires P.Valid(p) && Table(p, preds) && Frontier(p, preds, waiting)
    requires Good(p, cur) && Covered(p, preds, cur) && Good(p, next) && !S.IsNoState(next) && Step(p, cur, move, next)
    requires FindEntry(p, preds, next).Some? && preds[FindEntry(p, preds, next).value].cost > cost
    ensures var r := Relax(p, waiting, preds, cur, next, cost, hv, move);
      var u := FindEntry(p, preds, next).value;
      && r.waiting == waiting + [Item(next, cost + hv)]
      && r.preds == preds[u := Entry(preds[u].state, S.Copy(cur), cost, move)]
  {
  }

  /** Relaxing never raises a cost. */
  lemma RelaxLowers(p: P.Problem, waiting: Waiting, preds: seq<Entry>, cur: S.State, next: S.State, cost: nat, hv: nat, move: seq<Symbol>)
    requires P.Valid(p) && Table(p, preds) && Frontier(p, preds, waiting)
    requires Good(p, cur) && Covered(p, preds, cur) && Good(p, next) && !S.IsNoState(next) && Step(p, cur, move, next)
    ensures var r := Relax(p, waiting, preds, cur, next, cost, hv, move);
      forall k :: 0 <= k < |preds| ==> r.preds[k].cost <= preds[k].cost
  {
    var f := FindEntry(p, preds, next);
    var r := Relax(p, waiting, preds, cur, next, cost, hv, move);
    if f.None? {
      CostsAppend(preds, Entry(next, S.Copy(cur), cost, move));
    } else if preds[f.value].cost > cost {
      CostsUpdate(preds, f.value, Entry(preds[f.value].state, S.Copy(cur), cost, move));
    }
  }

  /** Appending an entry keeps the costs of the others. */
  lemma CostsAppend(preds: seq<Entry>, e: Entry)
    ensures forall k :: 0 <= k < |preds| ==> (preds + [e])[k].cost <= preds[k].cost
  {
  }

  /** Replacing an entry by a cheaper one raises no cost. */
  lemma CostsUpdate(preds: seq<Entry>, k: nat, e: Entry)
    requires k < |preds| && e.cost <= preds[k].cost
    ensures forall j :: 0 <= j < |preds| ==> preds[k := e][j].cost <= preds[j].cost
  {
  }

  /** The copy of `cur` stored as a predecessor has the facts of `cur`. */
  lemma CopyIsSame(p: P.Problem, cur: S.State)
    requires Good(p, cur)
    ensures Good(p, S.Copy(cur)) && Same(p, cur, S.Copy(cur)) && S.View(S.Copy(cur)) == S.View(cur)
  {
    S.ViewOfCopy(cur);
  }

  /** Replacing the predecessor, cost and label of `next`'s entry keeps the invariants. */
  lemma UpdateKeeps(p: P.Problem, waiting: Waiting, preds: seq<Entry>, cur: S.State, next: S.State, k: nat, cost: nat, estimate: nat, move: seq<Symbol>)
    requires P.Valid(p) && Table(p, preds) && Frontier(p, preds, waiting)
    requires Good(p, cur) && Covered(p, preds, cur) && Good(p, next) && !S.IsNoState(next) && Step(p, cur, move, next)
    requires FindEntry(p, preds, next) == Some(k) && preds[k].cost > cost
    ensures var preds' := preds[k := Entry(preds[k].state, S.Copy(cur), cost, move)];
      && Table(p, preds') && Frontier(p, preds', waiting + [Item(next, estimate)]) && Extends(preds, preds')
      && FindEntry(p, preds', next) == Some(k)
  {
    var pred := S.Copy(cur);
    CopyIsSame(p, cur);
    var e := Entry(preds[k].state, pred, cost, move);
    var preds' := preds[k := e];
    SameView(p, StateOf(preds, k), next);
    StepByView(p, cur, move, next, pred, preds[k].state);
    CoveredBySame(p, preds, cur, pred);
    TableAfterUpdate(p, preds, k, e);
    assert HoldsAt(p, preds', k, next) by {
      assert StateOf(preds', k) == StateOf(preds, k);
    }
    FrontierAfter(p, preds, preds', waiting, next, estimate);
    FindEntryKeeps(p, preds, preds', next, k);
  }

  /** Appending an entry for a new state `next` keeps the invariants. */
  lemma AppendKeeps(p: P.Problem, waiting: Waiting, preds: seq<Entry>, cur: S.State, next: S.State, cost: nat, estimate: nat, move: seq<Symbol>)
    requires P.Valid(p) && Table(p, preds) && Frontier(p, preds, waiting)
    requires Good(p, cur) && Covered(p, preds, cur) && Good(p, next) && !S.IsNoState(next) && Step(p, cur, move, next)
    requires FindEntry(p, preds, next).None?
    ensures var preds' := preds + [Entry(next, S.Copy(cur), cost, move)];
      && Table(p, preds') && Frontier(p, preds', waiting + [Item(next, estimate)]) && Extends(preds, preds')
      && FindEntry(p, preds', next) == Some(|preds|)
  {
    var pred := S.Copy(cur);
    CopyIsSame(p, cur);
    var e := Entry(next, pred, cost, move);
    var preds' := preds + [e];
    StepByView(p, cur, move, next, pred, next);
    CoveredBySame(p, preds, cur, pred);
    TableAfterAppend(p, preds, e);
    assert HoldsAt(p, preds', |preds|, next);
    FrontierAfter(p, preds, preds', waiting, next, estimate);
    FindEntryKeeps(p, preds, preds', next, |preds|);
  }

  /** An entry after the first may be replaced by one for the same state reached by a step from a covered state. */
  lemma TableAfterUpdate(p: P.Problem, preds: seq<Entry>, k: nat, e: Entry)
    requires Table(p, preds) && 1 <= k < |preds| && e.state == preds[k].state
    requires Good(p, e.pred) && Step(p, e.pred, e.move, e.state) && Covered(p, preds, e.pred)
    ensures Table(p, preds[k := e]) && Extends(preds, preds[k := e])
  {
    var q := preds[k := e];
    assert forall i :: 0 <= i < |q| ==> StateOf(q, i) == StateOf(preds, i);
    assert Extends(preds, q);
    forall i | 1 <= i < |q| ensures Linked(p, q, i) {
      if i == k {
        assert Linked(p, preds, k);
        CoveredExtends(p, preds, q);
      } else {
        LinkedKeeps(p, preds, q, i);
      }
    }
  }

  /** An entry may be appended for a good state reached by a step from a covered state. */
  lemma TableAfterAppend(p: P.Problem, preds: seq<Entry>, e: Entry)
    requires Table(p, preds) && Good(p, e.state) && !S.IsNoState(e.state)
    requires Good(p, e.pred) && Step(p, e.pred, e.move, e.state) && Covered(p, preds, e.pred)
    ensures Table(p, preds + [e]) && Extends(preds, preds + [e])
  {
    var q := preds + [e];
    assert forall i :: 0 <= i < |preds| ==> StateOf(q, i) == StateOf(preds, i);
    assert StateOf(q, |preds|) == e.state;
    assert Extends(preds, q);
    forall i | 1 <= i < |q| ensures Linked(p, q, i) {
      if i == |preds| {
        CoveredExtends(p, preds, q);
      } else {
        LinkedKeeps(p, preds, q, i);
      }
    }
  }

  /** A linked entry stays linked in a table that keeps it and the states before it. */
  lemma LinkedKeeps(p: P.Problem, preds: seq<Entry>, q: seq<Entry>, i: nat)
    requires Linked(p, preds, i) && Extends(preds, q) && i < |q| && q[i] == preds[i]
    ensures Linked(p, q, i)
  {
    CoveredExtends(p, preds, q);
  }

  /** A grown table covers the old waiting list and a newly pushed covered state. */
  lemma FrontierAfter(p: P.Problem, preds: seq<Entry>, preds': seq<Entry>, waiting: Waiting, next: S.State, estimate: nat)
    requires Frontier(p, preds, waiting) && Extends(preds, preds') && Good(p, next) && Covered(p, preds', next)
    ensures Frontier(p, preds', waiting + [Item(next, estimate)])
  {
    CoveredExtends(p, preds, preds');
    forall x | x in waiting + [Item(next, estimate)] ensures Queued(p, preds', x) {
      if x in waiting {
        assert Queued(p, preds, x);
      }
    }
  }

  /** Lookups in a table whose states are kept find the same first entry. */
  lemma FindEntryKeeps(p: P.Problem, preds: seq<Entry>, preds': seq<Entry>, s: S.State, k: nat)
    requires Good(p, s) && Extends(preds, preds') && k < |preds'| && k <= |preds|
    requires AllGood(p, preds) && AllGood(p, preds')
    requires HoldsAt(p, preds', k, s)
    requires forall j :: 0 <= j < k ==> !HoldsAt(p, preds, j, s)
    ensures FindEntry(p, preds', s) == Some(k)
  {
    var bs := Matches(p, preds', s);
    forall j | 0 <= j < k ensures !bs[j] {
      assert StateOf(preds', j) == StateOf(preds, j);
      assert !HoldsAt(p, preds, j, s);
    }
    assert bs[k];
    FirstTrueIs(bs, k);
  }

  /** A covered state is found at the same entry in a table that keeps the states in place. */
  lemma FindEntrySame(p: P.Problem, preds: seq<Entry>, preds': seq<Entry>, s: S.State)
    requires Good(p, s) && AllGood(p, preds) && AllGood(p, preds') && Extends(preds, preds') && Covered(p, preds, s)
    ensures FindEntry(p, preds', s) == FindEntry(p, preds, s)
  {
    CoveredFound(p, preds, s);
    var k := FindEntry(p, preds, s).value;
    assert StateOf(preds', k) == StateOf(preds, k);
    FindEntryKeeps(p, preds, preds', s, k);
  }

  /** States with the same facts are found at the same entry. */
  lemma FindEntryBySame(p: P.Problem, preds: seq<Entry>, s: S.State, t: S.State)
    requires Good(p, s) && Good(p, t) && AllGood(p, preds) && Same(p, s, t)
    ensures FindEntry(p, preds, s) == FindEntry(p, preds, t)
  {
    var bs, bt := Matches(p, preds, s), Matches(p, preds, t);
    forall j | 0 <= j < |preds| ensures bs[j] == bt[j] {
      assert HoldsAt(p, preds, j, s) == HoldsAt(p, preds, j, t);
    }
    assert bs == bt;
  }

  // ----- costs along the links -----

  /** The cost of the action a label names. */
  ghost function ActionCost(p: P.Problem, move: seq<Symbol>): nat {
    if |move| >= 1 && move[0] in p.domain.actions then p.domain.actions[move[0]].cost else 0
  }

  /** The costs of the actions the labels name, added up. */
  ghost function PlanCost(p: P.Problem, labels: seq<seq<Symbol>>): nat
    decreases |labels|
  {
    if |labels| == 0 then 0 else PlanCost(p, labels[..|labels| - 1]) + ActionCost(p, labels[|labels| - 1])
  }

  /** The entry the lookup finds for the predecessor of entry `k`. */
  ghost function Parent(p: P.Problem, preds: seq<Entry>, k: nat): (j: nat)
    requires Table(p, preds) && 1 <= k < |preds|
    ensures j < |preds|
  {
    EntryLinked(p, preds, k);
    CoveredFound(p, preds, preds[k].pred);
    FindEntry(p, preds, preds[k].pred).value
  }

  /** The cost the table records for the entry the lookup finds for `s`. */
  ghost function CostOf(p: P.Problem, preds: seq<Entry>, s: S.State): nat
    requires Good(p, s) && AllGood(p, preds) && Covered(p, preds, s)
  {
    CoveredFound(p, preds, s);
    preds[FindEntry(p, preds, s).value].cost
  }

  /**
   * The link from entry `k` descends: its cost covers its predecessor's
   * cost plus that of the action between them, and the pair of cost and
   * rank is strictly smaller at the predecessor.
   */
  ghost predicate Descends(p: P.Problem, preds: seq<Entry>, rank: seq<nat>, k: nat)
    requires Table(p, preds) && 1 <= k < |preds| && |rank| == |preds|
  {
    var j := Parent(p, preds, k);
    && preds[j].cost + ActionCost(p, preds[k].move) <= preds[k].cost
    && (preds[j].cost < preds[k].cost || rank[j] < rank[k])
  }

  /** Every link of the table descends under `rank`. */
  ghost predicate RankedBy(p: P.Problem, preds: seq<Entry>, rank: seq<nat>) {
    && Table(p, preds) && |rank| == |preds|
    && forall k :: 1 <= k < |preds| ==> Descends(p, preds, rank, k)
  }

  /**
   * The cost invariant of the table: every link descends under some
   * ranking. An update only ever lowers an entry below its old cost, so no
   * walk back through the predecessors returns to an entry it has left.
   */
  ghost predicate Costed(p: P.Problem, preds: seq<Entry>) {
    exists rank :: RankedBy(p, preds, rank)
  }

  /** A link's cost covers its predecessor's and the action's. */
  lemma LinkCost(p: P.Problem, preds: seq<Entry>, k: nat)
    requires Table(p, preds) && 1 <= k < |preds|
    ensures Costed(p, preds) ==> preds[Parent(p, preds, k)].cost + ActionCost(p, preds[k].move) <= preds[k].cost
  {
    if Costed(p, preds) {
      var rank :| RankedBy(p, preds, rank);
      assert Descends(p, preds, rank, k);
    }
  }

  /** A label added at the end adds its action's cost. */
  lemma PlanCostSnoc(p: P.Problem, labels: seq<seq<Symbol>>, move: seq<Symbol>)
    ensures PlanCost(p, labels + [move]) == PlanCost(p, labels) + ActionCost(p, move)
  {
    assert (labels + [move])[..|labels|] == labels;
  }

  /** The first table is costed: it has no link. */
  lemma StartCosted(p: P.Problem)
    requires Table(p, [Entry(p.init, S.Sentinel, 0, [])])
    ensures Costed(p, [Entry(p.init, S.Sentinel, 0, [])])
  {
    assert RankedBy(p, [Entry(p.init, S.Sentinel, 0, [])], [0]);
  }

  /**
   * Relaxing a successor of `cur` by a label whose action costs no more than
   * the step from `cur`'s recorded cost keeps the cost invariant and the
   * cost recorded for `cur`.
   */
  lemma RelaxCosted(p: P.Problem, waiting: Waiting, preds: seq<Entry>, cur: S.State, next: S.State, cost: nat, hv: nat, move: seq<Symbol>)
    requires P.Valid(p) && Table(p, preds) && Frontier(p, preds, waiting)
    requires Good(p, cur) && Covered(p, preds, cur) && Good(p, next) && !S.IsNoState(next) && Step(p, cur, move, next)
    requires Costed(p, preds) && CostOf(p, preds, cur) + ActionCost(p, move) <= cost
    ensures var r := Relax(p, waiting, preds, cur, next, cost, hv, move);
      && Costed(p, r.preds) && Covered(p, r.preds, cur) && CostOf(p, r.preds, cur) == CostOf(p, preds, cur)
  {
    var r := Relax(p, waiting, preds, cur, next, cost, hv, move);
    var f := FindEntry(p, preds, next);
    if f.None? {
      RelaxAppends(p, waiting, preds, cur, next, cost, hv, move);
      CostedAppend(p, preds, cur, Entry(next, S.Copy(cur), cost, move));
    } else if preds[f.value].cost > cost {
      RelaxReplaces(p, waiting, preds, cur, next, cost, hv, move);
      CostedUpdate(p, preds, cur, f.value, Entry(preds[f.value].state, S.Copy(cur), cost, move));
    }
  }

  /** The table after `e`, whose predecessor is the copy of `cur`, is appended: still costed, with `cur`'s cost kept. */
  lemma CostedAppend(p: P.Problem, preds: seq<Entry>, cur: S.State, e: Entry)
    requires Table(p, preds) && Table(p, preds + [e]) && Extends(preds, preds + [e]) && Costed(p, preds)
    requires Good(p, cur) && Covered(p, preds, cur) && e.pred == S.Copy(cur)
    requires CostOf(p, preds, cur) + ActionCost(p, e.move) <= e.cost
    ensures Costed(p, preds + [e]) && Covered(p, preds + [e], cur) && CostOf(p, preds + [e], cur) == CostOf(p, preds, cur)
  {
    var c0 := CurFound(p, preds, preds + [e], cur);
    AppendRanked(p, preds, e, c0);
    assert (preds + [e])[c0] == preds[c0];
  }

  /** The table after `e`, whose predecessor is the copy of `cur`, overwrites the costlier entry `u` of its state: still costed, with `cur`'s cost kept. */
  lemma CostedUpdate(p: P.Problem, preds: seq<Entry>, cur: S.State, u: nat, e: Entry)
    requires u < |preds| && e.state == preds[u].state && e.cost < preds[u].cost
    requires Table(p, preds) && Table(p, preds[u := e]) && Extends(preds, preds[u := e]) && Costed(p, preds)
    requires Good(p, cur) && Covered(p, preds, cur) && e.pred == S.Copy(cur)
    requires CostOf(p, preds, cur) + ActionCost(p, e.move) <= e.cost
    ensures Costed(p, preds[u := e]) && Covered(p, preds[u := e], cur) && CostOf(p, preds[u := e], cur) == CostOf(p, preds, cur)
  {
    var c0 := CurFound(p, preds, preds[u := e], cur);
    UpdateRanked(p, preds, u, e, c0);
    assert preds[u := e][c0] == preds[c0];
  }

  /** `cur` and its copy are found, in the table before and after, at the same entry. */
  lemma CurFound(p: P.Problem, preds: seq<Entry>, q: seq<Entry>, cur: S.State) returns (c0: nat)
    requires Table(p, preds) && Table(p, q) && Extends(preds, q) && Good(p, cur) && Covered(p, preds, cur)
    ensures c0 < |preds| && FindEntry(p, preds, cur) == Some(c0) && FindEntry(p, q, cur) == Some(c0)
    ensures Good(p, S.Copy(cur)) && FindEntry(p, q, S.Copy(cur)) == Some(c0)
  {
    CoveredFound(p, preds, cur);
    c0 := FindEntry(p, preds, cur).value;
    CoveredExtends(p, preds, q);
    FindEntrySame(p, preds, q, cur);
    CopyIsSame(p, cur);
    FindEntryBySame(p, q, cur, S.Copy(cur));
  }

  /** Appending such an entry to a costed table leaves it costed. */
  lemma AppendRanked(p: P.Problem, preds: seq<Entry>, e: Entry, c0: nat)
    requires Costed(p, preds) && Table(p, preds + [e]) && Extends(preds, preds + [e])
    requires c0 < |preds| && Good(p, e.pred) && FindEntry(p, preds + [e], e.pred) == Some(c0)
    requires preds[c0].cost + ActionCost(p, e.move) <= e.cost
    ensures Costed(p, preds + [e])
  {
    var rank :| RankedBy(p, preds, rank);
    AppendCosted(p, preds, rank, e, c0);
  }

  /** Lowering an entry this way leaves a costed table costed, and `cur`'s entry is another one. */
  lemma UpdateRanked(p: P.Problem, preds: seq<Entry>, u: nat, e: Entry, c0: nat)
    requires Costed(p, preds) && u < |preds| && e.cost < preds[u].cost && e.state == preds[u].state
    requires Table(p, preds[u := e]) && Extends(preds, preds[u := e])
    requires c0 < |preds| && Good(p, e.pred) && FindEntry(p, preds[u := e], e.pred) == Some(c0)
    requires preds[c0].cost + ActionCost(p, e.move) <= e.cost
    ensures c0 != u && Costed(p, preds[u := e])
  {
    var rank :| RankedBy(p, preds, rank);
    UpdateCosted(p, preds, rank, u, e, c0);
  }

  /** An appended entry whose predecessor is found at `c0` descends with rank one above `c0`'s. */
  lemma AppendCosted(p: P.Problem, preds: seq<Entry>, rank: seq<nat>, e: Entry, c0: nat)
    requires RankedBy(p, preds, rank) && Table(p, preds + [e]) && Extends(preds, preds + [e])
    requires c0 < |preds| && Good(p, e.pred) && FindEntry(p, preds + [e], e.pred) == Some(c0)
    requires preds[c0].cost + ActionCost(p, e.move) <= e.cost
    ensures RankedBy(p, preds + [e], rank + [rank[c0] + 1])
  {
    var q, rank' := preds + [e], rank + [rank[c0] + 1];
    forall k | 1 <= k < |q| ensures Descends(p, q, rank', k) {
      if k < |preds| {
        assert Descends(p, preds, rank, k);
        ParentKept(p, preds, q, k);
      } else {
        assert Parent(p, q, k) == c0;
      }
    }
  }

  /**
   * An entry lowered below its old cost, with a predecessor found at `c0`,
   * descends with rank one above `c0`'s; links into it become strictly
   * cheaper, and `c0` is not the entry itself.
   */
  lemma UpdateCosted(p: P.Problem, preds: seq<Entry>, rank: seq<nat>, u: nat, e: Entry, c0: nat)
    requires RankedBy(p, preds, rank) && u < |preds| && e.cost < preds[u].cost && e.state == preds[u].state
    requires Table(p, preds[u := e]) && Extends(preds, preds[u := e])
    requires c0 < |preds| && Good(p, e.pred) && FindEntry(p, preds[u := e], e.pred) == Some(c0)
    requires preds[c0].cost + ActionCost(p, e.move) <= e.cost
    ensures c0 != u && RankedBy(p, preds[u := e], rank[u := rank[c0] + 1])
  {
    var q, rank' := preds[u := e], rank[u := rank[c0] + 1];
    forall k | 1 <= k < |q| ensures Descends(p, q, rank', k) {
      if k != u {
        assert Descends(p, preds, rank, k);
        ParentKept(p, preds, q, k);
      } else {
        assert Parent(p, q, k) == c0;
      }
    }
  }

  /** An entry kept in place in a table that keeps the states has the same parent. */
  lemma ParentKept(p: P.Problem, preds: seq<Entry>, q: seq<Entry>, k: nat)
    requires Table(p, preds) && Table(p, q) && Extends(preds, q) && 1 <= k < |preds| && q[k] == preds[k]
    ensures Parent(p, q, k) == Parent(p, preds, k)
  {
    EntryLinked(p, preds, k);
    FindEntrySame(p, preds, q, preds[k].pred);
  }

  /** Popping the last item keeps the frontier of what is left. */
  lemma FrontierPop(p: P.Problem, preds: seq<Entry>, waiting: Waiting)
    requires |waiting| > 0 && Frontier(p, preds, waiting)
    ensures Queued(p, preds, waiting[|waiting| - 1]) && Frontier(p, preds, waiting[..|waiting| - 1])
  {
    assert waiting[|waiting| - 1] in waiting;
    forall x | x in waiting[..|waiting| - 1] ensures Queued(p, preds, x) {
      assert x in waiting;
    }
  }

  /** A permutation of a frontier is a frontier. */
  lemma FrontierPermuted(p: P.Problem, preds: seq<Entry>, waiting: Waiting, w: Waiting)
    requires Frontier(p, preds, waiting) && multiset(w) == multiset(waiting)
    ensures Frontier(p, preds, w)
  {
    forall x | x in w ensures Queued(p, preds, x) {
      assert x in multiset(w);
      assert x in waiting;
    }
  }

  // ----- the waiting list -----

  /** Estimated costs never increase along the list. */
  predicate NonIncreasing(w: Waiting) {
    forall i, j :: 0 <= i < j < |w| ==> w[i].estimate >= w[j].estimate
  }

  function InsertDesc(x: Item, w: Waiting): (r: Waiting)
    requires NonIncreasing(w)
    ensures NonIncreasing(r) && multiset(r) == multiset(w) + multiset{x} && |r| == |w| + 1
    ensures forall y :: y in r ==> y in w || y == x
    decreases |w|
  {
    if |w| == 0 || w[0].estimate <= x.estimate then [x] + w
    else
      var rest := InsertDesc(x, w[1..]);
      assert w == [w[0]] + w[1..];
      assert forall y :: y in rest ==> y.estimate <= w[0].estimate;
      [w[0]] + rest
  }

  /** `std::sort` with `greater`: a permutation with non-increasing estimated costs; ties in a fixed order. */
  function SortDesc(w: Waiting): (r: Waiting)
    ensures NonIncreasing(r) && multiset(r) == multiset(w) && |r| == |w|
    decreases |w|
  {
    if |w| == 0 then []
    else
      assert w == [w[0]] + w[1..];
      InsertDesc(w[0], SortDesc(w[1..]))
  }

  /** After sorting, the last element, the one popped next, has the least estimated cost. */
  lemma PopIsCheapest(w: Waiting)
    requires |w| > 0
    ensures forall x :: x in w ==> SortDesc(w)[|w| - 1].estimate <= x.estimate
  {
    LastIsLeast(SortDesc(w), w);
  }

  /** The last element of a non-increasing permutation of `w` has the least estimate of `w`. */
  lemma LastIsLeast(r: Waiting, w: Waiting)
    requires |r| > 0 && NonIncreasing(r) && multiset(r) == multiset(w)
    ensures forall x :: x in w ==> r[|r| - 1].estimate <= x.estimate
  {
    forall x | x in w ensures r[|r| - 1].estimate <= x.estimate {
      assert x in multiset(w);
      assert x in multiset(r);
      var i :| 0 <= i < |r| && r[i] == x;
      if i < |r| - 1 {
        assert r[i].estimate >= r[|r| - 1].estimate;
      }
    }
  }

  // ----- the search -----

  /**
   * `astar`: the initial state is pushed with estimate 0 and entered with
   * the marker as predecessor and cost 0, then the main loop runs. On
   * success the path is a plan; when the waiting list runs empty it is the
   * empty path with cost 0.
   */
  function Astar(p: P.Problem, h: Heuristic, power: nat, fuel: nat): (r: Result<Path, Stop>)
    requires Ready(p) && HeuristicReady(p, h, power)
    ensures r.Ok? && |r.value.states| > 0 ==> Plan(p, r.value)
    ensures r.Ok? && |r.value.states| == 0 ==> r.value == Path([], [], 0)
    ensures Additive(p) ==> !(r.Err? && r.error.Aborted?)
    ensures r.Ok? && |r.value.states| > 0 ==> PlanCost(p, r.value.actions) <= r.value.cost
    ensures fuel > 0 && NextReached(p, [Item(p.init, 0)]) ==> r.Ok? && |r.value.states| > 0
    decreases fuel, 2, 0
  {
    var start := [Entry(p.init, S.Sentinel, 0, [])];
    Started(p);
    StartCosted(p);
    Loop(p, h, power, [Item(p.init, 0)], start, fuel)
  }

  /** The initial lists satisfy the invariants. */
  lemma Started(p: P.Problem)
    requires P.Valid(p)
    ensures Table(p, [Entry(p.init, S.Sentinel, 0, [])])
    ensures Frontier(p, [Entry(p.init, S.Sentinel, 0, [])], [Item(p.init, 0)])
  {
    var start := [Entry(p.init, S.Sentinel, 0, [])];
    assert StateOf(start, 0) == p.init;
    assert HoldsAt(p, start, 0, p.init);
    assert Queued(p, start, Item(p.init, 0));
  }

  /** The last waiting state includes the goal. */
  ghost predicate NextReached(p: P.Problem, waiting: Waiting) {
    && |waiting| > 0 && GoalFits(p) && Good(p, waiting[|waiting| - 1].state)
    && Reached(p, waiting[|waiting| - 1].state)
  }

  /**
   * The main loop: stop when the fuel or the waiting list runs out,
   * otherwise take a turn on the last waiting state.
   */
  function Loop(p: P.Problem, h: Heuristic, power: nat, waiting: Waiting, preds: seq<Entry>, fuel: nat): (r: Result<Path, Stop>)
    requires Ready(p) && HeuristicReady(p, h, power)
    requires Table(p, preds) && Frontier(p, preds, waiting) && Costed(p, preds)
    ensures r.Ok? && |r.value.states| > 0 ==> Plan(p, r.value)
    ensures r.Ok? && |r.value.states| == 0 ==> r.value == Path([], [], 0)
    ensures Additive(p) ==> !(r.Err? && r.error.Aborted?)
    ensures r.Ok? && |r.value.states| > 0 ==> PlanCost(p, r.value.actions) <= r.value.cost
    ensures fuel > 0 && |waiting| == 0 ==> r == Ok(Path([], [], 0))
    ensures fuel > 0 && NextReached(p, waiting) ==> r.Ok? && |r.value.states| > 0
    decreases fuel, 1, 0
  {
    if fuel == 0 then Err(OutOfFuel)
    else if |waiting| == 0 then Ok(Path([], [], 0))
    else Turn(p, h, power, waiting, preds, fuel - 1)
  }

  /**
   * One turn: pop the last waiting state, look up its cost, stop if it
   * includes the goal, otherwise expand it.
   */
  function Turn(p: P.Problem, h: Heuristic, power: nat, waiting: Waiting, preds: seq<Entry>, fuel: nat): (r: Result<Path, Stop>)
    requires Ready(p) && HeuristicReady(p, h, power)
    requires Table(p, preds) && Frontier(p, preds, waiting) && Costed(p, preds) && |waiting| > 0
    ensures r.Ok? && |r.value.states| > 0 ==> Plan(p, r.value)
    ensures r.Ok? && |r.value.states| == 0 ==> r.value == Path([], [], 0)
    ensures Additive(p) ==> !(r.Err? && r.error.Aborted?)
    ensures r.Ok? && |r.value.states| > 0 ==> PlanCost(p, r.value.actions) <= r.value.cost
    ensures NextReached(p, waiting) ==> r.Ok? && |r.value.states| > 0
    decreases fuel, 8, 0
  {
    FrontierPop(p, preds, waiting);
    var cur := waiting[|waiting| - 1].state;
    CoveredFound(p, preds, cur);
    var k := FindEntry(p, preds, cur).value;
    if Reached(p, cur) then
      ReachedSame(p, StateOf(preds, k), cur);
      assert GoalAt(p, preds, k);
      Reconstruct(p, preds, k)
    else
      Advance(p, h, power, cur, preds[k].cost, waiting[..|waiting| - 1], preds, fuel)
  }

  /**
   * Expand `cur`, reached at `cost`, with every action in name order, sort
   * the waiting list and go on with the loop.
   */
  function Advance(p: P.Problem, h: Heuristic, power: nat, cur: S.State, cost: nat, waiting: Waiting, preds: seq<Entry>, fuel: nat): (r: Result<Path, Stop>)
    requires Ready(p) && HeuristicReady(p, h, power)
    requires Table(p, preds) && Frontier(p, preds, waiting) && Good(p, cur) && Covered(p, preds, cur)
    requires Costed(p, preds) && CostOf(p, preds, cur) <= cost
    ensures r.Ok? && |r.value.states| > 0 ==> Plan(p, r.value)
    ensures r.Ok? && |r.value.states| == 0 ==> r.value == Path([], [], 0)
    ensures Additive(p) ==> !(r.Err? && r.error.Aborted?)
    ensures r.Ok? && |r.value.states| > 0 ==> PlanCost(p, r.value.actions) <= r.value.cost
    decreases fuel, 7, 0
  {
    Resume(p, h, power, ExpandActions(p, h, power, cur, cost, ActionNames(p), 0, waiting, preds, fuel), fuel)
  }

  /** The domain's action names in the order its action map iterates, i.e. sorted. */
  function ActionNames(p: P.Problem): (names: seq<Symbol>)
    ensures forall i :: 0 <= i < |names| ==> names[i] in p.domain.actions
  {
    var names := D.SortedKeys(p.domain.actions.Keys);
    assert forall i :: 0 <= i < |names| ==> names[i] in p.domain.actions;
    names
  }

  /** After an expansion: stop on its failure, otherwise sort the waiting list and go on with the loop. */
  function Resume(p: P.Problem, h: Heuristic, power: nat, expanded: Result<Lists, Stop>, fuel: nat): (r: Result<Path, Stop>)
    requires Ready(p) && HeuristicReady(p, h, power)
    requires expanded.Ok? ==> Table(p, expanded.value.preds) && Frontier(p, expanded.value.preds, expanded.value.waiting)
    requires expanded.Ok? ==> Costed(p, expanded.value.preds)
    requires Additive(p) ==> !(expanded.Err? && expanded.error.Aborted?)
    ensures r.Ok? && |r.value.states| > 0 ==> Plan(p, r.value)
    ensures r.Ok? && |r.value.states| == 0 ==> r.value == Path([], [], 0)
    ensures Additive(p) ==> !(r.Err? && r.error.Aborted?)
    ensures r.Ok? && |r.value.states| > 0 ==> PlanCost(p, r.value.actions) <= r.value.cost
    decreases fuel, 1, 1
  {
    var next :- expanded;
    var sorted := SortDesc(next.waiting);
    FrontierPermuted(p, next.preds, next.waiting, sorted);
    Loop(p, h, power, sorted, next.preds, fuel)
  }

  /** The loop over the actions, in the order the domain's action map iterates. */
  function ExpandActions(p: P.Problem, h: Heuristic, power: nat, cur: S.State, cost: nat, names: seq<Symbol>, from: nat,
                         waiting: Waiting, preds: seq<Entry>, fuel: nat): (r: Result<Lists, Stop>)
    requires Ready(p) && HeuristicReady(p, h, power)
    requires Table(p, preds) && Frontier(p, preds, waiting) && Good(p, cur) && Covered(p, preds, cur)
    requires Costed(p, preds) && CostOf(p, preds, cur) <= cost
    requires from <= |names| && forall i :: 0 <= i < |names| ==> names[i] in p.domain.actions
    ensures r.Ok? ==> Table(p, r.value.preds) && Frontier(p, r.value.preds, r.value.waiting) && Extends(preds, r.value.preds)
    ensures Additive(p) ==> !(r.Err? && r.error.Aborted?)
    ensures r.Ok? ==> Costed(p, r.value.preds) && Covered(p, r.value.preds, cur) && CostOf(p, r.value.preds, cur) == CostOf(p, preds, cur)
    decreases fuel, 6, |names| - from
  {
    if from == |names| then Ok(Lists(waiting, preds))
    else
      var a := p.domain.actions[names[from]];
      var combos := O.Combos(p.objects, a.nbparams);
      var mid :- ExpandCombos(p, h, power, cur, cost, names[from], combos, 0, waiting, preds, fuel);
      ExpandActions(p, h, power, cur, cost, names, from + 1, mid.waiting, mid.preds, fuel)
  }

  /** `apply` never aborts for an action that deletes nothing. */
  lemma NeverAborts(p: P.Problem, key: Symbol, cur: S.State, args: seq<Symbol>)
    requires Ready(p) && key in p.domain.actions && Good(p, cur) && |args| == p.domain.actions[key].nbparams
    ensures Additive(p) ==> A.Apply(p.domain.actions[key], cur, args).Ok?
  {
    if Additive(p) {
      A.AdditiveNeverAborts(p.domain.actions[key], cur, args);
    }
  }

  /** The loop over the argument tuples of one action, in order. */
  function ExpandCombos(p: P.Problem, h: Heuristic, power: nat, cur: S.State, cost: nat, key: Symbol,
                        combos: seq<seq<Symbol>>, from: nat, waiting: Waiting, preds: seq<Entry>, fuel: nat): (r: Result<Lists, Stop>)
    requires Ready(p) && HeuristicReady(p, h, power)
    requires Table(p, preds) && Frontier(p, preds, waiting) && Good(p, cur) && Covered(p, preds, cur)
    requires Costed(p, preds) && CostOf(p, preds, cur) <= cost
    requires key in p.domain.actions && from <= |combos|
    requires forall t :: 0 <= t < |combos| ==> |combos[t]| == p.domain.actions[key].nbparams
    requires forall t, j :: 0 <= t < |combos| && 0 <= j < |combos[t]| ==> combos[t][j] in p.objects
    ensures r.Ok? ==> Table(p, r.value.preds) && Frontier(p, r.value.preds, r.value.waiting) && Extends(preds, r.value.preds)
    ensures Additive(p) ==> !(r.Err? && r.error.Aborted?)
    ensures r.Ok? ==> Costed(p, r.value.preds) && Covered(p, r.value.preds, cur) && CostOf(p, r.value.preds, cur) == CostOf(p, preds, cur)
    decreases fuel, 5, |combos| - from
  {
    if from == |combos| then Ok(Lists(waiting, preds))
    else
      var mid :- ExpandOne(p, h, power, cur, cost, key, combos[from], waiting, preds, fuel);
      ExpandCombos(p, h, power, cur, cost, key, combos, from + 1, mid.waiting, mid.preds, fuel)
  }

  /**
   * One argument tuple: apply the action; a valid successor gets its
   * heuristic value and is relaxed, moved with the action name followed by
   * the arguments; the marker leaves the lists as they are.
   */
  function ExpandOne(p: P.Problem, h: Heuristic, power: nat, cur: S.State, cost: nat, key: Symbol,
                     args: seq<Symbol>, waiting: Waiting, preds: seq<Entry>, fuel: nat): (r: Result<Lists, Stop>)
    requires Ready(p) && HeuristicReady(p, h, power)
    requires Table(p, preds) && Frontier(p, preds, waiting) && Good(p, cur) && Covered(p, preds, cur)
    requires Costed(p, preds) && CostOf(p, preds, cur) <= cost
    requires key in p.domain.actions && |args| == p.domain.actions[key].nbparams
    requires forall j :: 0 <= j < |args| ==> args[j] in p.objects
    ensures r.Ok? ==> Table(p, r.value.preds) && Frontier(p, r.value.preds, r.value.waiting) && Extends(preds, r.value.preds)
    ensures Additive(p) ==> !(r.Err? && r.error.Aborted?)
    ensures r.Ok? ==> Costed(p, r.value.preds) && Covered(p, r.value.preds, cur) && CostOf(p, r.value.preds, cur) == CostOf(p, preds, cur)
    decreases fuel, 4, 1
  {
    var a := p.domain.actions[key];
    NeverAborts(p, key, cur, args);
    match A.Apply(a, cur, args)
    case Err(e) => Err(Aborted(e))
    case Ok(next) =>
      if S.IsNoState(next) then Ok(Lists(waiting, preds))
      else
        var hv :- Estimate(p, h, power, next, fuel);
        Ok(RelaxSuccessor(p, waiting, preds, cur, cost, key, args, next, hv))
  }

  /** `Relax` on a valid successor from `apply`, at the cost of the step to it. */
  function RelaxSuccessor(p: P.Problem, waiting: Waiting, preds: seq<Entry>, cur: S.State, cost: nat, key: Symbol,
                          args: seq<Symbol>, next: S.State, hv: nat): (r: Lists)
    requires Ready(p) && Table(p, preds) && Frontier(p, preds, waiting) && Good(p, cur) && Covered(p, preds, cur)
    requires Costed(p, preds) && CostOf(p, preds, cur) <= cost
    requires key in p.domain.actions && |args| == p.domain.actions[key].nbparams
    requires forall j :: 0 <= j < |args| ==> args[j] in p.objects
    requires A.Apply(p.domain.actions[key], cur, args) == Ok(next) && !S.IsNoState(next)
    ensures Table(p, r.preds) && Frontier(p, r.preds, r.waiting) && Extends(preds, r.preds)
    ensures Costed(p, r.preds) && Covered(p, r.preds, cur) && CostOf(p, r.preds, cur) == CostOf(p, preds, cur)
  {
    var a := p.domain.actions[key];
    var move := [a.name] + args;
    SuccessorStep(p, key, cur, args, next);
    LabelCost(p, key, args);
    RelaxCosted(p, waiting, preds, cur, next, cost + a.cost, hv, move);
    Relax(p, waiting, preds, cur, next, cost + a.cost, hv, move)
  }

  /** A label made of an action's name and arguments costs that action's cost. */
  lemma LabelCost(p: P.Problem, key: Symbol, args: seq<Symbol>)
    requires P.Valid(p) && key in p.domain.actions
    ensures ActionCost(p, [p.domain.actions[key].name] + args) == p.domain.actions[key].cost
  {
  }

  /** A valid successor from `apply` is a step labelled with the action's name and the arguments. */
  lemma SuccessorStep(p: P.Problem, key: Symbol, cur: S.State, args: seq<Symbol>, next: S.State)
    requires Ready(p) && key in p.domain.actions && Good(p, cur)
    requires |args| == p.domain.actions[key].nbparams && forall j :: 0 <= j < |args| ==> args[j] in p.objects
    requires A.Apply(p.domain.actions[key], cur, args) == Ok(next) && !S.IsNoState(next)
    ensures Good(p, next) && Step(p, cur, [p.domain.actions[key].name] + args, next)
  {
    var a := p.domain.actions[key];
    var move := [a.name] + args;
    A.FitsTargets(a, S.Dims(cur));
    assert move[1..] == args;
  }

  // ----- the heuristics -----

  /**
   * The heuristic value of `s`: 0 for the zero heuristic; the cost of the
   * search from `s` on the delete relaxation; for the critical path, the
   * highest cost of the searches for every `power`-fact subset of the goal.
   */
  function Estimate(p: P.Problem, h: Heuristic, power: nat, s: S.State, fuel: nat): (r: Result<nat, Stop>)
    requires Ready(p) && HeuristicReady(p, h, power) && Good(p, s)
    ensures h.Zero? ==> r == Ok(0)
    ensures h.CriticalPath? ==> r == CriticalCost(p, power, s, fuel)
    ensures Additive(p) || h.DeleteRelaxation? ==> !(r.Err? && r.error.Aborted?)
    decreases fuel, 4, 0
  {
    match h
    case Zero => Ok(0)
    case DeleteRelaxation =>
      var relaxed := RelaxedFrom(p, s);
      var path :- Astar(relaxed, Zero, 1, fuel);
      Ok(path.cost)
    case CriticalPath => CriticalCost(p, power, s, fuel)
  }

  /** `delete_relaxation`'s problem: the relaxed problem with `s` as initial state. */
  function RelaxedFrom(p: P.Problem, s: S.State): (r: P.Problem)
    requires Ready(p) && Good(p, s)
    ensures Ready(r) && Additive(r)
    ensures r.domain == D.DeleteRelax(p.domain) && r.objects == p.objects && r.goal == p.goal
    ensures S.SameFacts(r.init, s)
  {
    var q := P.DeleteRelax(p);
    forall a | a in q.domain.actions ensures A.Fits(q.domain.actions[a], q.domain.dims) && A.Additive(q.domain.actions[a]) {
      A.RelaxedIsAdditive(p.domain.actions[a]);
    }
    P.SetInitial(q, s)
  }

  /**
   * `critical_path`: the highest cost of the zero-heuristic searches from
   * `s` to every `power`-fact subset of the goal, in the order of the
   * index arrays; the first failing search stops it.
   */
  function CriticalCost(p: P.Problem, power: nat, s: S.State, fuel: nat): (r: Result<nat, Stop>)
    requires Ready(p) && HeuristicReady(p, CriticalPath, power) && Good(p, s)
    ensures Additive(p) ==> !(r.Err? && r.error.Aborted?)
    decreases fuel, 3, 2
  {
    var n := S.Size(p.goal);
    C.EnumerateAll(power, n);
    var costs := SubCosts(p, s, C.Enumerate(C.First(power), n), fuel);
    MaxLoop(costs, 0, 0)
  }

  /**
   * The searches of `critical_path`, one per index array, in order: a
   * search with the zero heuristic from `s` to the chosen goal facts.
   */
  function SubCosts(p: P.Problem, s: S.State, subsets: seq<seq<nat>>, fuel: nat): (cs: seq<Result<nat, Stop>>)
    requires Ready(p) && Good(p, s)
    requires forall t :: 0 <= t < |subsets| ==> C.Choice(subsets[t], S.Size(p.goal))
    ensures |cs| == |subsets|
    ensures Additive(p) ==> forall t :: 0 <= t < |cs| ==> !(cs[t].Err? && cs[t].error.Aborted?)
    decreases fuel, 3, 1
  {
    seq(|subsets|, t requires 0 <= t < |subsets| => SubCost(p, s, subsets[t], fuel))
  }

  /** The critical-path loop over precomputed costs: the first failure, or the running maximum. */
  function MaxLoop(cs: seq<Result<nat, Stop>>, from: nat, hmax: nat): (r: Result<nat, Stop>)
    requires from <= |cs|
    ensures r.Ok? ==> MaxFrom(cs, from, hmax, r.value)
    ensures r.Err? ==> exists t :: from <= t < |cs| && cs[t] == Err(r.error)
    decreases |cs| - from
  {
    if from == |cs| then Ok(hmax)
    else if cs[from].Err? then Err(cs[from].error)
    else
      var c := cs[from].value;
      var r := MaxLoop(cs, from + 1, if c > hmax then c else hmax);
      if r.Ok? then MaxStep(cs, from, hmax, if c > hmax then c else hmax, r.value); r
      else r
  }

  /**
   * `r` is the running maximum of `hmax` and the costs from `from` on:
   * each of them succeeded and is at most `r`, and `r` is `hmax` or one
   * of them.
   */
  predicate MaxFrom(cs: seq<Result<nat, Stop>>, from: nat, hmax: nat, r: nat) {
    && hmax <= r
    && (forall t :: from <= t < |cs| ==> cs[t].Ok? && cs[t].value <= r)
    && (r == hmax || exists t :: from <= t < |cs| && cs[t] == Ok(r))
  }

  /** Each cost under the running maximum succeeded and is at most the maximum. */
  lemma MaxBounds(cs: seq<Result<nat, Stop>>, r: nat, t: nat)
    requires t < |cs| && MaxFrom(cs, 0, 0, r)
    ensures cs[t].Ok? && cs[t].value <= r
  {
  }

  /** Started from 0 on at least one cost, the running maximum is one of the costs. */
  lemma MaxIsOneOf(cs: seq<Result<nat, Stop>>, r: nat) returns (t: nat)
    requires |cs| >= 1 && MaxFrom(cs, 0, 0, r)
    ensures t < |cs| && cs[t] == Ok(r)
  {
    if r == 0 {
      t := 0;
    } else {
      t :| 0 <= t < |cs| && cs[t] == Ok(r);
    }
  }

  /**
   * The critical-path heuristic bounds every subgoal search: each search for
   * a `power`-fact subset of the goal succeeded with a cost no higher than
   * the estimate.
   */
  lemma CriticalPathBounds(p: P.Problem, power: nat, s: S.State, fuel: nat)
    requires Ready(p) && HeuristicReady(p, CriticalPath, power) && Good(p, s)
    requires CriticalCost(p, power, s, fuel).Ok?
    ensures forall w :: |w| == power && C.Choice(w, S.Size(p.goal)) ==>
              SubCost(p, s, w, fuel).Ok? && SubCost(p, s, w, fuel).value <= CriticalCost(p, power, s, fuel).value
  {
    forall w | |w| == power && C.Choice(w, S.Size(p.goal))
      ensures SubCost(p, s, w, fuel).Ok? && SubCost(p, s, w, fuel).value <= CriticalCost(p, power, s, fuel).value
    {
      BoundsOne(p, power, s, fuel, w);
    }
  }

  /** One subset of `CriticalPathBounds`. */
  lemma BoundsOne(p: P.Problem, power: nat, s: S.State, fuel: nat, w: seq<nat>)
    requires Ready(p) && HeuristicReady(p, CriticalPath, power) && Good(p, s)
    requires CriticalCost(p, power, s, fuel).Ok?
    requires |w| == power && C.Choice(w, S.Size(p.goal))
    ensures SubCost(p, s, w, fuel).Ok? && SubCost(p, s, w, fuel).value <= CriticalCost(p, power, s, fuel).value
  {
    var n := S.Size(p.goal);
    C.EnumerateAll(power, n);
    var vs := C.Enumerate(C.First(power), n);
    var cs := SubCosts(p, s, vs, fuel);
    var r := MaxLoop(cs, 0, 0);
    assert CriticalCost(p, power, s, fuel) == r;
    assert w in vs;
    var t :| 0 <= t < |vs| && vs[t] == w;
    MaxBounds(cs, r.value, t);
    assert cs[t] == SubCost(p, s, w, fuel);
  }

  /** The critical-path heuristic is reached: it is the cost of the search for one `power`-fact subset of the goal. */
  lemma CriticalPathReached(p: P.Problem, power: nat, s: S.State, fuel: nat)
    requires Ready(p) && HeuristicReady(p, CriticalPath, power) && Good(p, s)
    requires CriticalCost(p, power, s, fuel).Ok?
    ensures exists w :: |w| == power && C.Choice(w, S.Size(p.goal)) && SubCost(p, s, w, fuel) == CriticalCost(p, power, s, fuel)
  {
    var n := S.Size(p.goal);
    C.EnumerateAll(power, n);
    var vs := C.Enumerate(C.First(power), n);
    var cs := SubCosts(p, s, vs, fuel);
    var r := MaxLoop(cs, 0, 0);
    assert CriticalCost(p, power, s, fuel) == r;
    var t := MaxIsOneOf(cs, r.value);
    assert cs[t] == SubCost(p, s, vs[t], fuel);
    assert |vs[t]| == power && C.Choice(vs[t], n);
  }

  /** One step of the running maximum. */
  lemma MaxStep(cs: seq<Result<nat, Stop>>, from: nat, hmax: nat, h': nat, r: nat)
    requires from < |cs| && cs[from].Ok?
    requires h' == if cs[from].value > hmax then cs[from].value else hmax
    requires MaxFrom(cs, from + 1, h', r)
    ensures MaxFrom(cs, from, hmax, r)
  {
    if r != hmax && r == h' { assert cs[from] == Ok(r); }
  }

  /** The cost of the plan the zero-heuristic search finds for one subgoal, from `s`. */
  function SubCost(p: P.Problem, s: S.State, idxs: seq<nat>, fuel: nat): (r: Result<nat, Stop>)
    requires Ready(p) && Good(p, s) && C.Choice(idxs, S.Size(p.goal))
    ensures Additive(p) ==> !(r.Err? && r.error.Aborted?)
    decreases fuel, 3, 0
  {
    var sub := SubProblem(p, s, idxs);
    var path :- Astar(sub, Zero, 1, fuel);
    Ok(path.cost)
  }

  /** The problem `critical_path` solves for one index array: initial state `s`, goal the chosen goal facts. */
  function SubProblem(p: P.Problem, s: S.State, idxs: seq<nat>): (r: P.Problem)
    requires Ready(p) && Good(p, s) && C.Choice(idxs, S.Size(p.goal))
    ensures Ready(r) && (Additive(p) ==> Additive(r))
    ensures r.domain == p.domain && r.objects == p.objects
    ensures S.SameFacts(r.init, s)
    ensures forall j :: S.Slot(r.goal, j) == Picked(Chosen(P.FinalState(p), idxs), |idxs|, j)
    ensures S.SubFacts(r.goal, p.goal)
  {
    var q := P.SetInitial(p, s);
    // the positions are read in the trees of the copy `final_state()` hands back
    var g := Subgoal(P.FinalState(p), idxs);
    P.SetFinal(q, g)
  }

  /** A goal fact with the slot it falls in. */
  datatype Fact = Fact(slot: nat, tuple: Tuple)

  /** The facts at the chosen positions of `goal`, each with its slot, in the order of the index array. */
  function Chosen(goal: S.State, idxs: seq<nat>): (fs: seq<Fact>)
    requires S.Valid(goal) && forall i :: 0 <= i < |idxs| ==> idxs[i] < S.Size(goal)
    ensures |fs| == |idxs|
    ensures forall i :: 0 <= i < |idxs| ==> fs[i].tuple in S.Slot(goal, fs[i].slot) && S.FitsSlot(goal, fs[i].slot, fs[i].tuple)
  {
    var fs := seq(|idxs|, i requires 0 <= i < |idxs| => Fact(S.SlotOf(goal, idxs[i]), S.At(goal, idxs[i])));
    assert forall i :: 0 <= i < |idxs| ==> S.FitsSlot(goal, fs[i].slot, fs[i].tuple) by {
      forall i | 0 <= i < |idxs| ensures S.FitsSlot(goal, fs[i].slot, fs[i].tuple) {
        S.InSlotFits(goal, fs[i].slot, fs[i].tuple);
      }
    }
    fs
  }

  /**
   * The goal facts are read from the copy `final_state()` returns: on a goal like
   * `States.ThreeFacts`, index array [0] names (4,1) in the goal itself but (3,3),
   * the first fact of the copy's tree, in the copy.
   */
  lemma ChosenReadsCopy(p: P.Problem)
    requires S.Valid(p.goal) && p.goal.Slotted? && p.goal.dims == [2] && |p.goal.slots| == 1 && S.Size(p.goal) == 3
    requires p.goal.slots[0].root == K.Node(K.Node(K.Node(K.Nil, [4, 1], K.Nil), [3, 3], K.Nil), [5, 5], K.Nil)
    ensures Chosen(p.goal, [0]) == [Fact(0, [4, 1])] && Chosen(P.FinalState(p), [0]) == [Fact(0, [3, 3])]
  {
    S.CopyReordersAt(p.goal);
    ChosenFirst(p.goal);
    ChosenFirst(P.FinalState(p));
  }

  /** With one slot, index array [0] chooses that slot and its first fact. */
  lemma ChosenFirst(g: S.State)
    requires S.Valid(g) && g.Slotted? && |g.slots| == 1 && S.Size(g) > 0
    ensures Chosen(g, [0]) == [Fact(0, S.At(g, 0))]
  {
    assert S.SlotOf(g, 0) == 0;
  }

  /** Different positions of the goal select different goal facts. */
  lemma ChosenDistinct(goal: S.State, idxs: seq<nat>, a: nat, b: nat)
    requires S.Valid(goal) && forall i :: 0 <= i < |idxs| ==> idxs[i] < S.Size(goal)
    requires a < |idxs| && b < |idxs| && idxs[a] != idxs[b]
    ensures Chosen(goal, idxs)[a] != Chosen(goal, idxs)[b]
  {
    if idxs[a] < idxs[b] {
      S.AtInjective(goal, idxs[a], idxs[b]);
    } else {
      S.AtInjective(goal, idxs[b], idxs[a]);
    }
  }

  /** Every goal fact is the one chosen in `final_state()` by some position below the goal's size. */
  lemma GoalFactChosen(p: P.Problem, j: nat, t: Tuple) returns (index: nat)
    requires S.Valid(p.goal) && t in S.Slot(p.goal, j)
    ensures index < S.Size(p.goal) && Chosen(P.FinalState(p), [index]) == [Fact(j, t)]
  {
    index := S.AtOnto(P.FinalState(p), j, t);
  }

  /** The first `n` facts of `fs` that fall in slot `j`. */
  ghost function Picked(fs: seq<Fact>, n: nat, j: nat): set<Tuple>
    requires n <= |fs|
  {
    set i | 0 <= i < n && fs[i].slot == j :: fs[i].tuple
  }

  /** One more fact joins the slot it falls in and no other. */
  lemma PickedStep(fs: seq<Fact>, n: nat, j: nat)
    requires 0 < n <= |fs|
    ensures Picked(fs, n, j) == if fs[n - 1].slot == j then Picked(fs, n - 1, j) + {fs[n - 1].tuple} else Picked(fs, n - 1, j)
  {
    if fs[n - 1].slot == j {
      assert fs[n - 1].tuple in Picked(fs, n, j);
    }
  }

  /** The subgoal: the goal facts at the chosen positions, each added to the tree its position falls in. */
  function Subgoal(goal: S.State, idxs: seq<nat>): (g: S.State)
    requires S.Valid(goal) && goal.Slotted? && forall i :: 0 <= i < |idxs| ==> idxs[i] < S.Size(goal)
    ensures S.Valid(g) && g.Slotted? && S.Dims(g) == S.Dims(goal)
    ensures forall j :: S.Slot(g, j) == Picked(Chosen(goal, idxs), |idxs|, j)
    ensures S.SubFacts(g, goal)
  {
    var s := EmptyOf(goal);
    var fs := Chosen(goal, idxs);
    assert forall i :: 0 <= i < |fs| ==> S.FitsSlot(s, fs[i].slot, fs[i].tuple);
    var g := AddGoalFacts(s, fs, |fs|);
    PickedFromEmpty(s, g, fs, |fs|);
    PickedWithin(fs, |fs|, goal);
    g
  }

  /** `state(statedims)` with the goal's dimensions: no fact, and every goal fact fits it. */
  function EmptyOf(goal: S.State): (s: S.State)
    requires S.Valid(goal) && goal.Slotted?
    ensures S.Valid(s) && s.Slotted? && S.Dims(s) == S.Dims(goal) && S.NoFacts(s)
  {
    assert forall i :: 0 <= i < |goal.dims| ==> goal.dims[i] >= 1 by {
      forall i | 0 <= i < |goal.dims| ensures goal.dims[i] >= 1 {
        assert K.Valid(goal.slots[i]);
      }
    }
    S.NewState(goal.dims)
  }

  /** Facts added to a state with none are exactly the picked ones. */
  lemma PickedFromEmpty(s: S.State, g: S.State, fs: seq<Fact>, n: nat)
    requires n <= |fs| && S.NoFacts(s) && forall j :: S.Slot(g, j) == S.Slot(s, j) + Picked(fs, n, j)
    ensures forall j :: S.Slot(g, j) == Picked(fs, n, j)
  {
    forall j ensures S.Slot(g, j) == Picked(fs, n, j) {
      assert S.Slot(s, j) == {};
    }
  }

  /** Facts each in their slot of `g` are picked only from those slots of `g`. */
  lemma PickedWithin(fs: seq<Fact>, n: nat, g: S.State)
    requires n <= |fs| && forall i :: 0 <= i < |fs| ==> fs[i].tuple in S.Slot(g, fs[i].slot)
    ensures forall j :: Picked(fs, n, j) <= S.Slot(g, j)
  {
  }

  /** The subgoal loop of `critical_path`: the first `n` facts are added to `s`, in order. */
  function AddGoalFacts(s: S.State, fs: seq<Fact>, n: nat): (r: S.State)
    requires S.Valid(s) && s.Slotted? && n <= |fs| && forall i :: 0 <= i < |fs| ==> S.FitsSlot(s, fs[i].slot, fs[i].tuple)
    ensures S.Valid(r) && r.Slotted? && S.Dims(r) == S.Dims(s)
    ensures forall j :: S.Slot(r, j) == S.Slot(s, j) + Picked(fs, n, j)
  {
    if n == 0 then s
    else
      var r := AddGoalFacts(s, fs, n - 1);
      var r' := S.Add(r, fs[n - 1].slot, fs[n - 1].tuple);
      AddedPicked(s, r, r', fs, n);
      r'
  }

  /** One more fact adds it to the slot it falls in. */
  lemma AddedPicked(s: S.State, r: S.State, r': S.State, fs: seq<Fact>, n: nat)
    requires 0 < n <= |fs|
    requires forall j :: S.Slot(r, j) == S.Slot(s, j) + Picked(fs, n - 1, j)
    requires S.Slot(r', fs[n - 1].slot) == S.Slot(r, fs[n - 1].slot) + {fs[n - 1].tuple}
    requires forall j :: j != fs[n - 1].slot ==> S.Slot(r', j) == S.Slot(r, j)
    ensures forall j :: S.Slot(r', j) == S.Slot(s, j) + Picked(fs, n, j)
  {
    forall j ensures S.Slot(r', j) == S.Slot(s, j) + Picked(fs, n, j) {
      PickedStep(fs, n, j);
    }
  }

  // ----- reconstruction -----

  /** Entry `k`'s state includes the goal. */
  ghost predicate GoalAt(p: P.Problem, preds: seq<Entry>, k: nat) {
    k < |preds| && S.SubFacts(p.goal, StateOf(preds, k))
  }

  /** Which entries' states include the goal. */
  function Hits(p: P.Problem, preds: seq<Entry>): (bs: seq<bool>)
    requires GoalFits(p) && AllGood(p, preds)
    ensures |bs| == |preds| && forall i :: 0 <= i < |preds| ==> (bs[i] <==> GoalAt(p, preds, i))
  {
    seq(|preds|, i requires 0 <= i < |preds| => Reached(p, StateOf(preds, i)))
  }

  /** The first true position from `from` on. */
  function FirstTrue(bs: seq<bool>, from: nat): (r: Option<nat>)
    requires from <= |bs|
    ensures r.Some? ==> from <= r.value < |bs| && bs[r.value]
    ensures forall i :: from <= i < (if r.Some? then r.value else |bs|) ==> !bs[i]
    decreases |bs| - from
  {
    if from == |bs| then None
    else if bs[from] then Some(from)
    else FirstTrue(bs, from + 1)
  }

  /** A true position with none before it is the first. */
  lemma FirstTrueIs(bs: seq<bool>, k: nat)
    requires k < |bs| && bs[k] && forall j :: 0 <= j < k ==> !bs[j]
    ensures FirstTrue(bs, 0) == Some(k)
  {
    var r := FirstTrue(bs, 0);
    assert r.Some? && r.value <= k;
  }

  /** The first entry whose state includes the goal. */
  function FirstGoal(p: P.Problem, preds: seq<Entry>): (r: Option<nat>)
    requires GoalFits(p) && AllGood(p, preds)
    ensures r.Some? ==> r.value < |preds| && GoalAt(p, preds, r.value)
    ensures forall i :: 0 <= i < (if r.Some? then r.value else |preds|) ==> !GoalAt(p, preds, i)
  {
    FirstTrue(Hits(p, preds), 0)
  }

  /** Every entry but the first is linked, and its predecessor is not the marker. */
  lemma EntryLinked(p: P.Problem, preds: seq<Entry>, k: nat)
    requires Table(p, preds) && k < |preds|
    ensures k > 0 ==> Linked(p, preds, k) && !S.IsNoState(preds[k].pred)
  {
    if k > 0 {
      assert Linked(p, preds, k);
      assert Good(p, StateOf(preds, k));
      NoStateSame(p, preds[k].pred, preds[k].state);
    }
  }

  /**
   * The walk back through the predecessors from entry `k` until the entry
   * whose predecessor is the marker, i.e. the initial state's: the states
   * and labels met, in forward order. The loop test (solver.cpp:144) calls
   * the same inverted `empty()` as the successor test (solver.cpp:93); the
   * walk uses the intended `S.IsNoState` for both (see `States.EmptyAsWritten`).
   */
  function Chain(p: P.Problem, preds: seq<Entry>, k: nat, fuel: nat): (r: Result<(seq<S.State>, seq<seq<Symbol>>), Stop>)
    requires P.Valid(p) && Table(p, preds) && k < |preds|
    ensures r.Ok? ==> Steps(p, r.value.0, r.value.1)
    ensures r.Ok? ==> r.value.0[0] == p.init && r.value.0[|r.value.0| - 1] == preds[k].state
    ensures r.Err? ==> r.error == OutOfFuel
    ensures r.Ok? && Costed(p, preds) ==> PlanCost(p, r.value.1) <= preds[k].cost
    ensures Costed(p, preds) && Depth(p, preds, k) <= fuel ==> r.Ok?
    decreases fuel
  {
    EntryLinked(p, preds, k);
    if S.IsNoState(preds[k].pred) then
      Ok(([preds[k].state], []))
    else if fuel == 0 then DepthShrinks(p, preds, k); Err(OutOfFuel)
    else
      DepthShrinks(p, preds, k);
      CoveredFound(p, preds, preds[k].pred);
      var j := FindEntry(p, preds, preds[k].pred).value;
      var rest :- Chain(p, preds, j, fuel - 1);
      SameView(p, StateOf(preds, j), preds[k].pred);
      StepByView(p, preds[k].pred, preds[k].move, preds[k].state, preds[j].state, preds[k].state);
      StepsSnoc(p, rest.0, rest.1, preds[k].move, preds[k].state);
      LinkCost(p, preds, k);
      PlanCostSnoc(p, rest.1, preds[k].move);
      Ok((rest.0 + [preds[k].state], rest.1 + [preds[k].move]))
  }

  /** Entry `x` comes before entry `y` in the order of cost, then rank. */
  ghost predicate Lower(preds: seq<Entry>, rank: seq<nat>, x: nat, y: nat)
    requires |rank| == |preds| && x < |preds| && y < |preds|
  {
    preds[x].cost < preds[y].cost || (preds[x].cost == preds[y].cost && rank[x] < rank[y])
  }

  /** The entries that come before entry `k`. */
  ghost function Below(preds: seq<Entry>, rank: seq<nat>, k: nat): set<nat>
    requires |rank| == |preds| && k < |preds|
  {
    set x: nat | x < |preds| && Lower(preds, rank, x, k)
  }

  /** The indices below `n`. */
  ghost function Range(n: nat): (r: set<nat>)
    ensures |r| == n && forall x: nat :: x in r <==> x < n
  {
    if n == 0 then {} else Range(n - 1) + {n - 1}
  }

  /** An entry comes before no more entries than the table has others. */
  lemma BelowBounded(preds: seq<Entry>, rank: seq<nat>, k: nat)
    requires |rank| == |preds| && k < |preds|
    ensures |Below(preds, rank, k)| < |preds|
  {
    assert Below(preds, rank, k) <= Range(|preds|) - {k};
    SubsetSmaller(Below(preds, rank, k), Range(|preds|) - {k});
  }

  /** A ranking of a costed table. */
  ghost function Rank(p: P.Problem, preds: seq<Entry>): (rank: seq<nat>)
    requires Costed(p, preds)
    ensures RankedBy(p, preds, rank)
  {
    var rank :| RankedBy(p, preds, rank); rank
  }

  /** How many entries come before entry `k` under the table's ranking; 0 for a table without the cost invariant. */
  ghost function Depth(p: P.Problem, preds: seq<Entry>, k: nat): nat
    requires k < |preds|
  {
    if Costed(p, preds) then |Below(preds, Rank(p, preds), k)| else 0
  }

  /** The predecessor's entry has fewer entries before it. */
  lemma DepthShrinks(p: P.Problem, preds: seq<Entry>, k: nat)
    requires Table(p, preds) && 1 <= k < |preds|
    ensures Costed(p, preds) ==> Depth(p, preds, Parent(p, preds, k)) < Depth(p, preds, k)
  {
    if Costed(p, preds) {
      BelowShrinks(p, preds, Rank(p, preds), k);
    }
  }

  /** What comes before the predecessor's entry also comes before the entry, and the predecessor's entry does. */
  lemma BelowShrinks(p: P.Problem, preds: seq<Entry>, rank: seq<nat>, k: nat)
    requires RankedBy(p, preds, rank) && 1 <= k < |preds|
    ensures |Below(preds, rank, Parent(p, preds, k))| < |Below(preds, rank, k)|
  {
    var j := Parent(p, preds, k);
    assert Descends(p, preds, rank, k);
    BelowNested(preds, rank, j, k);
    SubsetSmaller(Below(preds, rank, j), Below(preds, rank, k) - {j});
  }

  /** The order is transitive and strict: an entry before `k` has below it only entries before `k`, and not itself. */
  lemma BelowNested(preds: seq<Entry>, rank: seq<nat>, j: nat, k: nat)
    requires |rank| == |preds| && j < |preds| && k < |preds| && Lower(preds, rank, j, k)
    ensures Below(preds, rank, j) <= Below(preds, rank, k) - {j}
  {
  }

  /** A subset is no larger than its superset. */
  lemma SubsetSmaller<T>(a: set<T>, b: set<T>)
    requires a <= b
    ensures |a| <= |b|
  {
    assert b == a + (b - a);
  }

  /** Under the cost invariant the walk back with one step per entry never runs out of fuel. */
  lemma ChainTerminatesIf(p: P.Problem, preds: seq<Entry>, k: nat)
    requires P.Valid(p) && Table(p, preds) && k < |preds|
    ensures Costed(p, preds) ==> Chain(p, preds, k, |preds|).Ok?
  {
    if Costed(p, preds) {
      BelowBounded(preds, Rank(p, preds), k);
    }
  }

  /**
   * The path from the predecessor table: from the first entry that includes
   * the goal back to the initial state, with that entry's cost.
   */
  function Reconstruct(p: P.Problem, preds: seq<Entry>, ghost hit: nat): (r: Result<Path, Stop>)
    requires P.Valid(p) && Table(p, preds) && GoalAt(p, preds, hit)
    ensures FirstGoal(p, preds).Some?
    ensures r.Ok? ==> Plan(p, r.value) && r.value.cost == preds[FirstGoal(p, preds).value].cost
    ensures r.Err? ==> r.error == OutOfFuel
    ensures Costed(p, preds) ==> r.Ok? && PlanCost(p, r.value.actions) <= r.value.cost
  {
    var k := FirstGoal(p, preds).value;
    ChainTerminatesIf(p, preds, k);
    var c :- Chain(p, preds, k, |preds|);
    Ok(Path(c.0, c.1, preds[k].cost))
  }
}
