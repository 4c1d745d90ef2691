/** The stage graph that the plugin itself prepares, and that it passes validation. */
module ShippedGraph {
  import opened Exactness
  import opened Outcomes
  import opened SafeIds
  import opened StageGraph
  import opened TopologicalOrder
  import opened GraphValidation

  // The stages, numbered as their texts sort.
  const FUSED_TOPK: Name := 0
  const HIERARCHICAL_REPAIR: Name := 1
  const SAMPLE_GATHER: Name := 2
  const SAMPLE_INDEXER: Name := 3
  const SAMPLE_THRESHOLD: Name := 4

  // The artifacts.
  const INPUTS: Name := 10
  const SAMPLED_KV: Name := 11
  const SAMPLED_SCALES: Name := 12
  const SAMPLED_SCORES: Name := 13
  const THRESHOLDS: Name := 14
  const FAST_FAILURE_FLAGS: Name := 15
  const FAST_INDICES: Name := 16
  const FAILURE_FLAGS: Name := 17
  const REPAIR_ERROR_FLAGS: Name := 18
  const INDICES: Name := 19

  function StageText(n: Name): string {
    if n == FUSED_TOPK then "fused_topk"
    else if n == HIERARCHICAL_REPAIR then "hierarchical_repair"
    else if n == SAMPLE_GATHER then "sample_gather"
    else if n == SAMPLE_INDEXER then "sample_indexer"
    else "sample_threshold"
  }

  const GATHER: Stage := Stage(SAMPLE_GATHER, [], [INPUTS], [SAMPLED_KV, SAMPLED_SCALES], [Indexer])

  const INDEXER: Stage := Stage(
    SAMPLE_INDEXER, [SAMPLE_GATHER], [INPUTS, SAMPLED_KV, SAMPLED_SCALES], [SAMPLED_SCORES], [Indexer])

  const THRESHOLD: Stage := Stage(
    SAMPLE_THRESHOLD, [SAMPLE_INDEXER], [INPUTS, SAMPLED_SCORES], [THRESHOLDS], [TopK])

  const FUSED: Stage := Stage(
    FUSED_TOPK, [SAMPLE_THRESHOLD], [INPUTS, THRESHOLDS], [FAST_FAILURE_FLAGS, FAST_INDICES], [Indexer, TopK, Output])

  const REPAIR: Stage := Stage(
    HIERARCHICAL_REPAIR, [FUSED_TOPK], [INPUTS, FAST_FAILURE_FLAGS, FAST_INDICES],
    [FAILURE_FLAGS, REPAIR_ERROR_FLAGS, INDICES], [Indexer, TopK, Output])

  const SHIPPED: Graph := Graph("fused_index_topk", [GATHER, INDEXER, THRESHOLD, FUSED, REPAIR], {INPUTS}, INDICES)

  /** The order in which its stages run. */
  const RUN_ORDER: seq<Name> := [SAMPLE_GATHER, SAMPLE_INDEXER, SAMPLE_THRESHOLD, FUSED_TOPK, HIERARCHICAL_REPAIR]

  lemma ShippedNodes()
    ensures |SHIPPED.nodes| == 5 && Ids(SHIPPED.nodes) == RUN_ORDER && UniqueIds(SHIPPED.nodes)
    ensures SHIPPED.nodes[0] == GATHER && SHIPPED.nodes[1] == INDEXER && SHIPPED.nodes[2] == THRESHOLD
    ensures SHIPPED.nodes[3] == FUSED && SHIPPED.nodes[4] == REPAIR
    ensures forall s :: s in SHIPPED.nodes <==> s in {GATHER, INDEXER, THRESHOLD, FUSED, REPAIR}
  {
  }

  lemma OperatorTextsAreSafe()
    ensures IsSafeId("fused_index_topk") && IsSafeId("fused_topk") && IsSafeId("hierarchical_repair")
  {
  }

  lemma SamplingTextsAreSafe()
    ensures IsSafeId("sample_gather") && IsSafeId("sample_indexer") && IsSafeId("sample_threshold")
  {
  }

  lemma ShippedIdsMatch()
    ensures IdsMatch(SHIPPED, StageText)
  {
    OperatorTextsAreSafe();
    SafeIdIsPattern(SHIPPED.plugin);
    forall s | s in SHIPPED.nodes ensures Matches(ID_PATTERN, StageText(s.id)) {
      StageTextMatches(s.id);
    }
  }

  lemma StageTextMatches(n: Name)
    ensures Matches(ID_PATTERN, StageText(n))
  {
    OperatorTextsAreSafe();
    SamplingTextsAreSafe();
    SafeIdIsPattern(StageText(n));
  }

  function OneBefore(order: seq<Name>, i: nat): seq<Name>
    requires i < |order|
  {
    if i == 0 then [] else [order[i - 1]]
  }

  /** Each stage depends on the one before it in the list and on nothing else. */
  ghost predicate IsChain(deps: Dependencies, order: seq<Name>) {
    && NoDuplicates(order) && deps.Keys == Members(order)
    && forall i {:trigger OneBefore(order, i)} ::
         0 <= i < |order| ==> order[i] in deps && deps[order[i]] == OneBefore(order, i)
  }

  lemma ListedBefore(order: seq<Name>, i: nat, j: nat)
    requires NoDuplicates(order) && i <= |order| && j < |order|
    ensures order[j] in order[..i] <==> j < i
  {
    if order[j] in order[..i] {
      var m :| 0 <= m < i && order[..i][m] == order[j];
    }
    if j < i { assert order[..i][j] == order[j]; }
  }

  lemma AllInOne(n: Name, done: seq<Name>)
    ensures AllIn([n], done) <==> n in done
  {
    assert n in [n];
    if n in done {
      forall d | d in [n] ensures d in done {
        assert d == n;
      }
    }
  }

  /** A stage of a chain has its dependencies listed exactly when it comes next or is listed. */
  lemma ChainAt(deps: Dependencies, order: seq<Name>, i: nat, j: nat)
    requires IsChain(deps, order) && i <= |order| && j < |order|
    ensures order[j] in deps && (order[j] in order[..i] <==> j < i)
    ensures AllIn(deps[order[j]], order[..i]) <==> j <= i
  {
    ListedBefore(order, i, j);
    assert deps[order[j]] == OneBefore(order, j);
    if j > 0 {
      ListedBefore(order, i, j - 1);
      assert deps[order[j]] == [order[j - 1]];
      AllInOne(order[j - 1], order[..i]);
    }
  }

  /** In a chain only the next stage is ever ready. */
  lemma ChainIsReady(deps: Dependencies, order: seq<Name>, i: nat)
    requires IsChain(deps, order) && i <= |order|
    ensures Ready(deps, order[..i]) == if i < |order| then {order[i]} else {}
  {
    forall n | n in Ready(deps, order[..i]) ensures i < |order| && n == order[i] {
      assert n in Members(order);
      var j :| 0 <= j < |order| && order[j] == n;
      ChainAt(deps, order, i, j);
    }
    if i < |order| { ChainAt(deps, order, i, i); }
  }

  /** A chain runs in its own order. */
  lemma ChainIsGreedy(deps: Dependencies, order: seq<Name>)
    requires IsChain(deps, order)
    ensures Greedy(deps, []) == order && Closed(deps) && !Cyclic(deps)
  {
    forall i | 0 <= i < |order| ensures IsLeast(order[i], Ready(deps, order[..i])) {
      ChainIsReady(deps, order, i);
    }
    ChainIsReady(deps, order, |order|);
    assert order[..|order|] == order && order[..0] == [];
    GreedySmallestIsUnique(deps, order, 0);
    forall n, d | n in deps && d in deps[n] ensures d in deps {
      assert n in Members(order);
      var i :| 0 <= i < |order| && order[i] == n;
      assert OneBefore(order, i) == deps[n];
      if i > 0 { assert OneBefore(order, i - 1) == deps[order[i - 1]]; }
    }
    GreedyRespects(deps, []);
    assert forall n :: n in deps ==> n in Members(order);
    CompleteIsAcyclic(deps, order);
  }

  lemma ShippedDependencies(deps: Dependencies)
    requires deps == DependenciesOf(SHIPPED.nodes)
    ensures IsChain(deps, RUN_ORDER)
  {
    ShippedNodes();
    forall i | 0 <= i < 5
      ensures RUN_ORDER[i] in deps && deps[RUN_ORDER[i]] == OneBefore(RUN_ORDER, i)
    {
      DependenciesAt(SHIPPED.nodes, i);
      assert Ids(SHIPPED.nodes)[i] == SHIPPED.nodes[i].id;
    }
    forall n | n in deps ensures n in Members(RUN_ORDER) {
      var i := StageAt(SHIPPED.nodes, n);
      assert Ids(SHIPPED.nodes)[i] == n;
    }
    forall n | n in Members(RUN_ORDER) ensures n in deps {
      var i :| 0 <= i < 5 && RUN_ORDER[i] == n;
    }
    assert deps.Keys == Members(RUN_ORDER) && NoDuplicates(RUN_ORDER);
  }

  /** In a chain every stage reaches all earlier ones. */
  lemma {:induction false} ChainReaches(deps: Dependencies, order: seq<Name>, i: nat, j: nat)
    requires IsChain(deps, order) && j < i < |order|
    ensures Reaches(deps, order[i], order[j])
  {
    assert OneBefore(order, i) == [order[i - 1]] && OneBefore(order, i - 1) == deps[order[i - 1]];
    DirectReaches(deps, order[i], order[i - 1]);
    if j < i - 1 {
      ChainReaches(deps, order, i - 1, j);
      StepReaches(deps, order[i], order[i - 1], order[j]);
    }
  }

  /** What an earlier stage makes has been made by an ancestor. */
  lemma MadeBefore(deps: Dependencies, i: nat, j: nat, a: Name)
    requires deps == DependenciesOf(SHIPPED.nodes) && j < i < 5 == |SHIPPED.nodes| && a in SHIPPED.nodes[j].produces
    ensures MadeByAncestor(SHIPPED.nodes, deps, RUN_ORDER[i], a)
  {
    ShippedNodes();
    ShippedDependencies(deps);
    ChainReaches(deps, RUN_ORDER, i, j);
    assert Ids(SHIPPED.nodes)[j] == SHIPPED.nodes[j].id;
    assert SHIPPED.nodes[j] in SHIPPED.nodes;
  }

  lemma ShippedFlow(deps: Dependencies)
    requires deps == DependenciesOf(SHIPPED.nodes)
    ensures forall s :: s in SHIPPED.nodes ==> StageOk(SHIPPED.nodes, deps, SHIPPED.initial, s)
  {
    ShippedNodes();
    forall s | s in SHIPPED.nodes ensures StageOk(SHIPPED.nodes, deps, SHIPPED.initial, s) {
      var i :| 0 <= i < 5 && SHIPPED.nodes[i] == s;
      StageFlows(deps, i);
    }
  }

  /** A stage consumes the inputs and what the stage before it makes. */
  lemma StageFlows(deps: Dependencies, i: nat)
    requires deps == DependenciesOf(SHIPPED.nodes) && i < 5 == |SHIPPED.nodes|
    ensures StageOk(SHIPPED.nodes, deps, SHIPPED.initial, SHIPPED.nodes[i])
  {
    ShippedNodes();
    var s := SHIPPED.nodes[i];
    assert s.id == RUN_ORDER[i] by { assert Ids(SHIPPED.nodes)[i] == s.id; }
    forall a | a in s.consumes && a !in SHIPPED.initial ensures MadeByAncestor(SHIPPED.nodes, deps, s.id, a) {
      MadeBefore(deps, i, i - 1, a);
    }
  }

  lemma ShippedTerminal(deps: Dependencies)
    requires deps == DependenciesOf(SHIPPED.nodes)
    ensures TerminalOk(SHIPPED.nodes, deps, SHIPPED.terminal)
  {
    ShippedNodes();
    ShippedDependencies(deps);
    forall s | s in SHIPPED.nodes ensures Contributes(deps, s.id, HIERARCHICAL_REPAIR) {
      var j :| 0 <= j < 5 && SHIPPED.nodes[j] == s;
      assert Ids(SHIPPED.nodes)[j] == s.id && RUN_ORDER[4] == HIERARCHICAL_REPAIR;
      if j < 4 { ChainReaches(deps, RUN_ORDER, 4, j); }
    }
    assert REPAIR in SHIPPED.nodes && Indexer in REPAIR.operations && TopK in REPAIR.operations;
    assert TerminalCovered(SHIPPED.nodes, deps, REPAIR.id);
  }

  /** No artifact is made twice. */
  lemma ShippedOwners()
    ensures OwnedOnce(SHIPPED.nodes, SHIPPED.initial)
  {
    ShippedNodes();
    forall s, a | s in SHIPPED.nodes && a in s.produces
      ensures a != INPUTS
      ensures s.id == (if a in {SAMPLED_KV, SAMPLED_SCALES} then SAMPLE_GATHER
                       else if a == SAMPLED_SCORES then SAMPLE_INDEXER
                       else if a == THRESHOLDS then SAMPLE_THRESHOLD
                       else if a in {FAST_FAILURE_FLAGS, FAST_INDICES} then FUSED_TOPK
                       else HIERARCHICAL_REPAIR)
    {
    }
    forall s | s in SHIPPED.nodes ensures NoDuplicates(s.produces) && Members(s.produces) !! {INPUTS} {
      forall a | a in Members(s.produces) ensures a != INPUTS {
        assert a in s.produces;
      }
    }
    forall s, t | s in SHIPPED.nodes && t in SHIPPED.nodes && s.id != t.id
      ensures Members(s.produces) !! Members(t.produces)
    {
      forall a | a in Members(s.produces) ensures a !in Members(t.produces) {
        assert a in s.produces;
      }
    }
  }

  lemma ShippedIsValid()
    ensures IdsMatch(SHIPPED, StageText) && ValidGraph(SHIPPED)
    ensures Greedy(DependenciesOf(SHIPPED.nodes), []) == RUN_ORDER
  {
    var deps := DependenciesOf(SHIPPED.nodes);
    ShippedIdsMatch();
    ShippedDependencies(deps);
    ChainIsGreedy(deps, RUN_ORDER);
    ShippedFlow(deps);
    ShippedTerminal(deps);
    ShippedOwners();
    ShippedNodes();
  }

  /** Stages of the graph that are listed in that order are exactly these. */
  lemma InRunOrder(ordered: seq<Stage>)
    requires Ids(ordered) == RUN_ORDER && forall s :: s in ordered ==> s in SHIPPED.nodes
    ensures ordered == [GATHER, INDEXER, THRESHOLD, FUSED, REPAIR]
  {
    ShippedNodes();
    forall i | 0 <= i < 5 ensures ordered[i] == SHIPPED.nodes[i] {
      assert Ids(ordered)[i] == ordered[i].id && ordered[i] in SHIPPED.nodes;
    }
  }

  /** Validation accepts the plugin's own graph and runs sampling, selection and repair in turn. */
  method ValidateShipped() returns (result: Result<seq<Stage>, Fault>)
    ensures result == Ok([GATHER, INDEXER, THRESHOLD, FUSED, REPAIR])
  {
    ShippedIsValid();
    ghost var ordered;
    result, ordered := ValidateGraph(SHIPPED, StageText);
    InRunOrder(result.value);
  }
}
