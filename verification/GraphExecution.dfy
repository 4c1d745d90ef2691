/** Running a validated graph: any order that respects the dependencies finds every input
    it reads and leaves the same artifacts. */
module GraphExecution {
  import opened Exactness
  import opened Outcomes
  import opened StageGraph
  import opened TopologicalOrder
  import opened GraphValidation

  /** Artifact values are only ever compared. */
  type Value = int

  type Store = map<Name, Value>

  /** What a stage's callable does to the store. */
  type Callable = (Stage, Store) -> Store

  ghost predicate Reads(s: Stage, store: Store) {
    forall a :: a in s.consumes ==> a in store
  }

  ghost predicate SameInputs(s: Stage, a: Store, b: Store) {
    Reads(s, a) && Reads(s, b) && forall x :: x in s.consumes ==> a[x] == b[x]
  }

  /** Given its inputs, the stage adds exactly what it declares to produce to the artifacts
      the graph names; it may leave anything under names the graph does not use. */
  ghost predicate WritesOnlyProduced(run: Callable, s: Stage, named: set<Name>) {
    forall store :: Reads(s, store) ==>
      (forall a :: a in named ==> (a in run(s, store) <==> a in store || a in s.produces)) &&
      forall a :: a in named && a in store && a !in s.produces ==> run(s, store)[a] == store[a]
  }

  /** What it produces depends only on what it declares to consume. */
  ghost predicate DependsOnlyOnConsumed(run: Callable, s: Stage) {
    forall one, two :: SameInputs(s, one, two) ==> SameOutputs(s, run(s, one), run(s, two))
  }

  ghost predicate SameOutputs(s: Stage, a: Store, b: Store) {
    forall x :: x in s.produces ==> (x in a <==> x in b) && (x in a ==> a[x] == b[x])
  }

  ghost predicate Honest(run: Callable, s: Stage, named: set<Name>) {
    WritesOnlyProduced(run, s, named) && DependsOnlyOnConsumed(run, s)
  }

  /** The artifacts a valid graph names: whatever a stage consumes is one of them. */
  function Named(g: Graph): set<Name> {
    g.initial + ProducedBy(g.nodes)
  }

  /** Both stores hold every artifact the graph starts from or makes, with the same value. */
  ghost predicate SameArtifacts(g: Graph, a: Store, b: Store) {
    && (forall x :: x in g.initial ==> x in a && x in b && a[x] == b[x])
    && forall s, x :: s in g.nodes && x in s.produces ==> x in a && x in b && a[x] == b[x]
  }

  /** The initial artifacts are as they were, and all that any stage declares is there as
      that stage makes it of this very store. */
  ghost predicate IsOutcome(g: Graph, run: Callable, store: Store, final: Store) {
    && (forall x :: x in g.initial ==> x in store && x in final && final[x] == store[x])
    && forall s :: s in g.nodes ==> Reads(s, final) && IsMade(s, run(s, final), final)
  }

  ghost predicate IsMade(s: Stage, made: Store, final: Store) {
    forall x :: x in s.produces ==> x in made && x in final && made[x] == final[x]
  }

  /** The store after the first `i` stages have run in turn. */
  function After(run: Callable, order: seq<Stage>, store: Store, i: nat): Store
    requires i <= |order|
  {
    if i == 0 then store else run(order[i - 1], After(run, order, store, i - 1))
  }

  function Execute(run: Callable, order: seq<Stage>, store: Store): Store {
    After(run, order, store, |order|)
  }

  /** A dependency-respecting order of a valid graph's stages. */
  ghost predicate IsSchedule(g: Graph, order: seq<Stage>)
    requires UniqueIds(g.nodes)
  {
    && Respects(DependenciesOf(g.nodes), Ids(order))
    && forall s :: s in order <==> s in g.nodes
  }

  /** A valid graph of honest stages, in a dependency-respecting order, from its initial
      artifacts. */
  ghost predicate Runnable(g: Graph, order: seq<Stage>, run: Callable, store: Store) {
    && ValidGraph(g) && IsSchedule(g, order) && store.Keys == g.initial
    && forall s :: s in g.nodes ==> Honest(run, s, Named(g))
  }

  /** At its turn a stage finds everything it consumes, and what it makes is new. */
  ghost predicate InTurn(named: set<Name>, initial: set<Name>, order: seq<Stage>, i: nat)
    requires i < |order|
  {
    && (forall a :: a in order[i].consumes ==> a in named && (a in initial || a in ProducedBy(order[..i])))
    && forall a :: a in order[i].produces ==> a in named && a !in initial && a !in ProducedBy(order[..i])
  }

  ghost predicate RunsInTurn(named: set<Name>, initial: set<Name>, order: seq<Stage>, run: Callable, i: nat)
    requires i < |order|
  {
    InTurn(named, initial, order, i) && Honest(run, order[i], named)
  }

  /** Honest stages, each in turn. */
  ghost predicate IsPlan(named: set<Name>, initial: set<Name>, order: seq<Stage>, run: Callable) {
    forall i {:trigger RunsInTurn(named, initial, order, run, i)} :: 0 <= i < |order| ==>
      RunsInTurn(named, initial, order, run, i)
  }

  lemma InputsAreMadeEarlier(g: Graph, order: seq<Stage>, i: nat, a: Name)
    requires ValidGraph(g) && IsSchedule(g, order) && i < |order| && a in order[i].consumes
    ensures a in Named(g) && (a in g.initial || a in ProducedBy(order[..i]))
  {
    var deps := DependenciesOf(g.nodes);
    assert order[i] in g.nodes;
    assert StageOk(g.nodes, deps, g.initial, order[i]);
    if a !in g.initial {
      assert MadeByAncestor(g.nodes, deps, order[i].id, a);
      var p :| p in g.nodes && a in p.produces && Reaches(deps, order[i].id, p.id);
      var j := ProducerIsEarlier(order, i, deps, p);
      assert order[..i][j] == p;
      var m :| 0 <= m < |g.nodes| && g.nodes[m] == p;
    }
  }

  /** A stage never makes what an earlier one made or what was there from the start. */
  lemma NotOverwritten(g: Graph, order: seq<Stage>, i: nat, a: Name)
    requires ValidGraph(g) && IsSchedule(g, order) && i < |order| && a in order[i].produces
    ensures a in Named(g) && a !in g.initial && a !in ProducedBy(order[..i])
  {
    assert order[i] in g.nodes;
    assert a in Members(order[i].produces);
    var m :| 0 <= m < |g.nodes| && g.nodes[m] == order[i];
    forall q | 0 <= q < i ensures a !in order[..i][q].produces {
      assert order[q] in g.nodes && Ids(order)[q] != Ids(order)[i];
      assert Members(order[q].produces) !! Members(order[i].produces);
      assert a in order[q].produces <==> a in Members(order[q].produces);
    }
  }

  /** A schedule of a valid graph lets every stage run in its turn. */
  lemma RunnableIsPlan(g: Graph, order: seq<Stage>, run: Callable, store: Store)
    requires Runnable(g, order, run, store)
    ensures IsPlan(Named(g), g.initial, order, run)
  {
    forall i | 0 <= i < |order| ensures RunsInTurn(Named(g), g.initial, order, run, i) {
      assert order[i] in g.nodes;
      forall a | a in order[i].consumes ensures a in Named(g) && (a in g.initial || a in ProducedBy(order[..i])) {
        InputsAreMadeEarlier(g, order, i, a);
      }
      forall a | a in order[i].produces ensures a in Named(g) && a !in g.initial && a !in ProducedBy(order[..i]) {
        NotOverwritten(g, order, i, a);
      }
    }
  }

  /** What is there before the i-th stage, as far as it is named. */
  ghost predicate Holds(named: set<Name>, initial: set<Name>, order: seq<Stage>, i: nat, now: Store)
    requires i <= |order|
  {
    forall a :: a in named ==> (a in now <==> a in initial || a in ProducedBy(order[..i]))
  }

  /** One stage run in its turn. */
  lemma StageRuns(named: set<Name>, initial: set<Name>, order: seq<Stage>, run: Callable, i: nat, now: Store)
    requires i < |order| && RunsInTurn(named, initial, order, run, i)
    requires Holds(named, initial, order, i, now)
    ensures Reads(order[i], now) && Holds(named, initial, order, i + 1, run(order[i], now))
    ensures KeptIn(named, now, run(order[i], now))
    ensures forall a :: a in order[i].produces ==> a in named && a in run(order[i], now)
  {
    assert WritesOnlyProduced(run, order[i], named);
    AvailableNext(order, i, initial);
    assert forall a :: a in order[i].produces <==> a in Members(order[i].produces);
  }

  /** After `i` stages the store holds, of what the graph names, the initial artifacts and
      what those stages make; so no stage reads a missing artifact. */
  lemma {:induction false} StoreContents(
      named: set<Name>, order: seq<Stage>, run: Callable, store: Store, i: nat)
    requires IsPlan(named, store.Keys, order, run) && i <= |order|
    ensures Holds(named, store.Keys, order, i, After(run, order, store, i))
    ensures i < |order| ==> Reads(order[i], After(run, order, store, i))
  {
    if i == 0 {
      assert order[..0] == [];
    } else {
      StoreContents(named, order, run, store, i - 1);
      StageRuns(named, store.Keys, order, run, i - 1, After(run, order, store, i - 1));
    }
    if i < |order| {
      StageRuns(named, store.Keys, order, run, i, After(run, order, store, i));
    }
  }

  /** Every named artifact that is in `a` is in `b` with the same value. */
  ghost predicate KeptIn(named: set<Name>, a: Store, b: Store) {
    forall x :: x in named && x in a ==> x in b && a[x] == b[x]
  }

  /** A named artifact keeps its value once it is there. */
  lemma {:induction false} ValuesPersist(
      named: set<Name>, order: seq<Stage>, run: Callable, store: Store, i: nat, j: nat)
    requires IsPlan(named, store.Keys, order, run) && i <= j <= |order|
    ensures KeptIn(named, After(run, order, store, i), After(run, order, store, j))
    decreases j
  {
    if i < j {
      ValuesPersist(named, order, run, store, i, j - 1);
      StoreContents(named, order, run, store, j - 1);
      StageRuns(named, store.Keys, order, run, j - 1, After(run, order, store, j - 1));
    }
  }

  /** A stage that reads the same inputs makes the same of them, whatever else is there. */
  lemma StageRepeats(named: set<Name>, run: Callable, s: Stage, now: Store, later: Store)
    requires Honest(run, s, named) && Reads(s, now) && KeptIn(named, now, later)
    requires forall a :: a in s.consumes ==> a in named
    ensures Reads(s, later) && SameOutputs(s, run(s, later), run(s, now))
  {
    assert SameInputs(s, later, now);
  }

  /** In the final store every stage's outputs are what it makes of that same store. */
  lemma FinalStoreIsFixed(named: set<Name>, order: seq<Stage>, run: Callable, store: Store, i: nat)
    requires IsPlan(named, store.Keys, order, run) && i < |order|
    ensures var final := Execute(run, order, store);
      Reads(order[i], final) && SameOutputs(order[i], run(order[i], final), final)
  {
    var s, now, final := order[i], After(run, order, store, i), Execute(run, order, store);
    StoreContents(named, order, run, store, i);
    StageRuns(named, store.Keys, order, run, i, now);
    ValuesPersist(named, order, run, store, i, |order|);
    ValuesPersist(named, order, run, store, i + 1, |order|);
    assert RunsInTurn(named, store.Keys, order, run, i);
    StageRepeats(named, run, s, now, final);
  }

  /** Any schedule ends with an outcome of the graph. */
  lemma ScheduleHasOutcome(g: Graph, order: seq<Stage>, run: Callable, store: Store)
    requires Runnable(g, order, run, store)
    ensures IsOutcome(g, run, store, Execute(run, order, store))
  {
    var named, final := Named(g), Execute(run, order, store);
    RunnableIsPlan(g, order, run, store);
    ValuesPersist(named, order, run, store, 0, |order|);
    forall s | s in g.nodes ensures Reads(s, final) && IsMade(s, run(s, final), final) {
      assert s in order;
      var i :| 0 <= i < |order| && order[i] == s;
      FinalStoreIsFixed(named, order, run, store, i);
      ProducedAreLeft(named, order, run, store, i);
    }
  }

  ghost predicate AgreeOn(names: set<Name>, a: Store, b: Store) {
    forall x :: x in names ==> x in a && x in b && a[x] == b[x]
  }

  /** A stage makes the same of two outcomes that agree on what it consumes. */
  lemma MadeAlike(run: Callable, s: Stage, named: set<Name>, a: Store, b: Store)
    requires Honest(run, s, named) && SameInputs(s, a, b) && IsMade(s, run(s, a), a) && IsMade(s, run(s, b), b)
    ensures AgreeOn(Members(s.produces), a, b)
  {
    assert SameOutputs(s, run(s, a), run(s, b));
    assert forall x :: x in s.produces <==> x in Members(s.produces);
  }

  lemma InTurnAgrees(
      g: Graph, order: seq<Stage>, run: Callable, store: Store, i: nat, a: Store, b: Store)
    requires i < |order| && order[i] in g.nodes && RunsInTurn(Named(g), g.initial, order, run, i)
    requires IsOutcome(g, run, store, a) && IsOutcome(g, run, store, b)
    requires AgreeOn(g.initial + ProducedBy(order[..i]), a, b)
    ensures AgreeOn(Members(order[i].produces), a, b)
  {
    assert SameInputs(order[i], a, b);
    MadeAlike(run, order[i], Named(g), a, b);
  }

  /** Stage by stage, two outcomes agree. */
  lemma {:induction false} OutcomesAgree(
      g: Graph, order: seq<Stage>, run: Callable, store: Store, a: Store, b: Store, i: nat)
    requires IsPlan(Named(g), g.initial, order, run) && (forall s :: s in order ==> s in g.nodes) && i <= |order|
    requires IsOutcome(g, run, store, a) && IsOutcome(g, run, store, b)
    ensures AgreeOn(g.initial + ProducedBy(order[..i]), a, b)
  {
    if i == 0 {
      assert order[..0] == [];
    } else {
      OutcomesAgree(g, order, run, store, a, b, i - 1);
      InTurnAgrees(g, order, run, store, i - 1, a, b);
      AvailableNext(order, i - 1, g.initial);
    }
  }

  /** A graph that can be scheduled at all has one outcome. */
  lemma OutcomeIsUnique(g: Graph, order: seq<Stage>, run: Callable, store: Store, a: Store, b: Store)
    requires Runnable(g, order, run, store) && IsOutcome(g, run, store, a) && IsOutcome(g, run, store, b)
    ensures SameArtifacts(g, a, b)
  {
    RunnableIsPlan(g, order, run, store);
    OutcomesAgree(g, order, run, store, a, b, |order|);
    assert order[..|order|] == order;
    forall s, x | s in g.nodes && x in s.produces ensures x in g.initial + ProducedBy(order) {
      assert s in order;
    }
  }

  /** Confluence: all schedules of a valid graph end with the same artifacts. */
  lemma SchedulesAgree(g: Graph, order: seq<Stage>, other: seq<Stage>, run: Callable, store: Store)
    requires Runnable(g, order, run, store) && Runnable(g, other, run, store)
    ensures SameArtifacts(g, Execute(run, order, store), Execute(run, other, store))
  {
    ScheduleHasOutcome(g, order, run, store);
    ScheduleHasOutcome(g, other, run, store);
    OutcomeIsUnique(g, order, run, store, Execute(run, order, store), Execute(run, other, store));
  }

  /** The executor. With `validateProduced` it stops at the first stage that leaves one of
      its declared artifacts out. */
  method ExecutePrevalidated(order: seq<Stage>, run: Callable, artifacts0: Store, validateProduced: bool)
    returns (result: Result<Store, nat>)
    ensures result.Ok? ==> result.value == Execute(run, order, artifacts0)
    ensures result.Ok? <==> !validateProduced || forall i :: 0 <= i < |order| ==>
      LeavesDeclared(run, order, artifacts0, i)
    ensures result.Err? ==> result.error < |order| && !LeavesDeclared(run, order, artifacts0, result.error)
    ensures result.Err? ==> forall i :: 0 <= i < result.error ==> LeavesDeclared(run, order, artifacts0, i)
  {
    var artifacts := artifacts0;
    for i := 0 to |order|
      invariant artifacts == After(run, order, artifacts0, i)
      invariant validateProduced ==> forall q :: 0 <= q < i ==> LeavesDeclared(run, order, artifacts0, q)
    {
      artifacts := run(order[i], artifacts);
      if validateProduced && exists a :: a in order[i].produces && a !in artifacts {
        assert !LeavesDeclared(run, order, artifacts0, i);
        return Err(i);
      }
    }
    return Ok(artifacts);
  }

  /** After its turn the stage's declared artifacts are there. */
  ghost predicate LeavesDeclared(run: Callable, order: seq<Stage>, store: Store, i: nat)
    requires i < |order|
  {
    forall a :: a in order[i].produces ==> a in After(run, order, store, i + 1)
  }

  lemma ProducedAreLeft(named: set<Name>, order: seq<Stage>, run: Callable, store: Store, i: nat)
    requires IsPlan(named, store.Keys, order, run) && i < |order|
    ensures LeavesDeclared(run, order, store, i)
    ensures forall a :: a in order[i].produces ==> a in Execute(run, order, store)
  {
    StoreContents(named, order, run, store, i);
    StageRuns(named, store.Keys, order, run, i, After(run, order, store, i));
    ValuesPersist(named, order, run, store, i + 1, |order|);
  }

  /** Some stage of the schedule makes the terminal artifact. */
  lemma TerminalStage(g: Graph, order: seq<Stage>) returns (m: nat)
    requires ValidGraph(g) && IsSchedule(g, order)
    ensures m < |order| && g.terminal in order[m].produces
  {
    var p :| p in g.nodes && g.terminal in p.produces && TerminalCovered(g.nodes, DependenciesOf(g.nodes), p.id);
    assert p in order;
    m :| 0 <= m < |order| && order[m] == p;
  }

  /** A valid graph of honest stages always runs to the end, the produced-artifact check
      included, and what the graph names ends as in every other schedule. */
  method ExecuteGraph(g: Graph, spelling: Spelling, run: Callable, store: Store) returns (result: Result<Store, Fault>)
    requires store.Keys == g.initial && forall s :: s in g.nodes ==> Honest(run, s, Named(g))
    ensures result.Ok? <==> IdsMatch(g, spelling) && ValidGraph(g)
    ensures result.Ok? ==> forall order :: IsSchedule(g, order) ==>
      SameArtifacts(g, result.value, Execute(run, order, store))
    ensures result.Ok? ==> IsOutcome(g, run, store, result.value) && g.terminal in result.value
  {
    var validated, _ := ValidateGraph(g, spelling);
    if validated.Err? { return Err(validated.error); }
    var order := validated.value;
    GreedyRespects(DependenciesOf(g.nodes), []);
    assert Runnable(g, order, run, store);
    RunnableIsPlan(g, order, run, store);
    forall i | 0 <= i < |order| ensures LeavesDeclared(run, order, store, i) {
      ProducedAreLeft(Named(g), order, run, store, i);
    }
    var executed := ExecutePrevalidated(order, run, store, true);
    forall other | IsSchedule(g, other)
      ensures SameArtifacts(g, Execute(run, order, store), Execute(run, other, store))
    {
      SchedulesAgree(g, order, other, run, store);
    }
    ScheduleHasOutcome(g, order, run, store);
    ghost var m := TerminalStage(g, order);
    ProducedAreLeft(Named(g), order, run, store, m);
    return Ok(executed.value);
  }
}
