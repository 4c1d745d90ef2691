/** Validation of a stage graph: order, artifact ownership, artifact flow and coverage. */
module GraphValidation {
  import opened Exactness
  import opened Outcomes
  import opened SafeIds
  import opened StageGraph
  import opened TopologicalOrder

  /** The plugin's ID, the stages, the artifacts present from the start, and the one the
      graph is for. */
  datatype Graph = Graph(plugin: string, nodes: seq<Stage>, initial: set<Name>, terminal: Name)

  /** The text behind each name. */
  type Spelling = Name -> string

  datatype Fault =
    | UnsafePlugin | DuplicateStageIds | UnsafeStage | Unordered(why: GraphError) | ProducedTwice
    | NotExecutable | ConsumesMissing | ConsumesUnrelated | UnknownOperation
    | TerminalNotProduced | TerminalNotCovered | DeadComparable

  // ---------- safe IDs ----------

  predicate SafeStages(nodes: seq<Stage>, spelling: Spelling) {
    forall i :: 0 <= i < |nodes| ==> IsSafeId(spelling(nodes[i].id))
  }

  /** The plugin's ID and every stage's match the regular expression. */
  ghost predicate IdsMatch(g: Graph, spelling: Spelling) {
    Matches(ID_PATTERN, g.plugin) && StageIdsMatch(g.nodes, spelling)
  }

  ghost predicate StageIdsMatch(nodes: seq<Stage>, spelling: Spelling) {
    forall s :: s in nodes ==> Matches(ID_PATTERN, spelling(s.id))
  }

  lemma SafeStagesMatch(nodes: seq<Stage>, spelling: Spelling)
    ensures SafeStages(nodes, spelling) <==> StageIdsMatch(nodes, spelling)
  {
    forall s | s in nodes ensures IsSafeId(spelling(s.id)) <==> Matches(ID_PATTERN, spelling(s.id)) {
      SafeIdIsPattern(spelling(s.id));
    }
    if StageIdsMatch(nodes, spelling) {
      forall i | 0 <= i < |nodes| ensures IsSafeId(spelling(nodes[i].id)) {
        assert nodes[i] in nodes;
      }
    }
  }

  // ---------- ancestors ----------

  ghost predicate ReachesBy(deps: Dependencies, path: seq<Name>, from: Name, to: Name) {
    IsWalk(deps, path) && |path| >= 2 && path[0] == from && path[|path| - 1] == to
  }

  /** `to` is a dependency of `from`, or a dependency's dependency, and so on. */
  ghost predicate Reaches(deps: Dependencies, from: Name, to: Name) {
    exists path :: ReachesBy(deps, path, from, to)
  }

  lemma DirectReaches(deps: Dependencies, from: Name, to: Name)
    requires from in deps && to in deps && to in deps[from]
    ensures Reaches(deps, from, to)
  {
    assert ReachesBy(deps, [from, to], from, to);
  }

  lemma StepReaches(deps: Dependencies, from: Name, via: Name, to: Name)
    requires from in deps && via in deps[from] && Reaches(deps, via, to)
    ensures Reaches(deps, from, to)
  {
    var path :| ReachesBy(deps, path, via, to);
    var longer := [from] + path;
    forall i | 0 <= i < |longer| - 1 ensures longer[i + 1] in deps[longer[i]] {
      assert i > 0 ==> path[i - 1 + 1] in deps[path[i - 1]];
    }
    assert ReachesBy(deps, longer, from, to);
  }

  lemma FirstStep(deps: Dependencies, from: Name, to: Name) returns (via: Name)
    requires Reaches(deps, from, to)
    ensures from in deps && via in deps[from] && via in deps && to in deps && (via == to || Reaches(deps, via, to))
  {
    var path :| ReachesBy(deps, path, from, to);
    via := path[1];
    assert path[0 + 1] in deps[path[0]];
    if |path| > 2 {
      TailIsWalk(deps, path, 1);
      assert ReachesBy(deps, path[1..], via, to);
    }
  }

  /** A stage's ancestors are its dependencies and theirs. */
  lemma AncestorsUnfold(
      deps: Dependencies, from: Name, direct: set<Name>, ancestors: map<Name, set<Name>>, all: set<Name>)
    requires Closed(deps) && from in deps && direct == Members(deps[from])
    requires forall d :: d in direct ==> d in ancestors && forall a :: a in ancestors[d] <==> Reaches(deps, d, a)
    requires forall a :: a in all <==> a in direct || exists d :: d in direct && a in ancestors[d]
    ensures forall a :: a in all <==> Reaches(deps, from, a)
  {
    forall a ensures a in all <==> Reaches(deps, from, a) {
      if a in direct {
        DirectReaches(deps, from, a);
      } else if a in all {
        var d :| d in direct && a in ancestors[d];
        StepReaches(deps, from, d, a);
      }
      if Reaches(deps, from, a) {
        var via := FirstStep(deps, from, a);
        assert via in direct;
      }
    }
  }

  /** Ancestors come earlier in any order that respects the dependencies. */
  lemma {:induction false} AncestorsComeFirst(deps: Dependencies, order: seq<Name>, path: seq<Name>, i: nat)
    returns (j: nat)
    requires Respects(deps, order) && i < |order| && IsWalk(deps, path) && |path| >= 2 && path[0] == order[i]
    ensures j < i && order[j] == path[|path| - 1]
    decreases |path|
  {
    assert AllIn(deps[order[i]], order[..i]);
    assert path[0 + 1] in deps[path[0]];
    var m :| 0 <= m < i && order[..i][m] == path[1];
    if |path| == 2 {
      j := m;
    } else {
      TailIsWalk(deps, path, 1);
      j := AncestorsComeFirst(deps, order, path[1..], m);
    }
  }

  /** The ancestor sets, stage by stage in order. */
  ghost predicate AreAncestors(deps: Dependencies, names: seq<Name>, ancestors: map<Name, set<Name>>) {
    forall n :: n in names ==> n in ancestors && forall a :: a in ancestors[n] <==> Reaches(deps, n, a)
  }

  /** A stage's dependencies, and the ancestors of each. */
  method AllAncestors(
      s: Stage, ghost deps: Dependencies, ghost done: seq<Name>, ancestors: map<Name, set<Name>>)
    returns (all: set<Name>)
    requires Closed(deps) && s.id in deps && deps[s.id] == s.dependencies && AllIn(s.dependencies, done)
    requires AreAncestors(deps, done, ancestors)
    ensures forall a :: a in all <==> Reaches(deps, s.id, a)
  {
    var direct := set d | d in s.dependencies;
    all := direct + set d, a | d in direct && a in ancestors[d] :: a;
    AncestorsUnfold(deps, s.id, direct, ancestors, all);
  }

  method ComputeAncestors(ordered: seq<Stage>, ghost deps: Dependencies) returns (ancestors: map<Name, set<Name>>)
    requires Closed(deps) && Respects(deps, Ids(ordered))
    requires forall i :: 0 <= i < |ordered| ==>
      ordered[i].id in deps && deps[ordered[i].id] == ordered[i].dependencies
    ensures AreAncestors(deps, Ids(ordered), ancestors)
  {
    ancestors := map[];
    for i := 0 to |ordered|
      invariant AreAncestors(deps, Ids(ordered)[..i], ancestors)
    {
      var s := ordered[i];
      assert Ids(ordered)[i] == s.id && AllIn(deps[Ids(ordered)[i]], Ids(ordered)[..i]);
      var all := AllAncestors(s, deps, Ids(ordered)[..i], ancestors);
      assert Ids(ordered)[..i + 1] == Ids(ordered)[..i] + [s.id];
      ancestors := ancestors[s.id := all];
    }
    assert Ids(ordered)[..|ordered|] == Ids(ordered);
  }

  // ---------- who produces what ----------

  /** No artifact is produced twice or present from the start. */
  ghost predicate SingleProducers(stages: seq<Stage>, initial: set<Name>) {
    && (forall i :: 0 <= i < |stages| ==> NoDuplicates(stages[i].produces) && Members(stages[i].produces) !! initial)
    && forall i, j :: 0 <= i < j < |stages| ==> Members(stages[i].produces) !! Members(stages[j].produces)
  }

  /** The same, whatever the order the stages are listed in. */
  ghost predicate OwnedOnce(nodes: seq<Stage>, initial: set<Name>) {
    && (forall s :: s in nodes ==> NoDuplicates(s.produces) && Members(s.produces) !! initial)
    && forall s, t :: s in nodes && t in nodes && s.id != t.id ==> Members(s.produces) !! Members(t.produces)
  }

  lemma OwnedOnceIsSingle(nodes: seq<Stage>, ordered: seq<Stage>, initial: set<Name>)
    requires NoDuplicates(Ids(ordered)) && forall s :: s in ordered <==> s in nodes
    ensures SingleProducers(ordered, initial) <==> OwnedOnce(nodes, initial)
  {
    if SingleProducers(ordered, initial) {
      forall s | s in nodes ensures NoDuplicates(s.produces) && Members(s.produces) !! initial {
        assert s in ordered;
      }
      forall s, t | s in nodes && t in nodes && s.id != t.id ensures Members(s.produces) !! Members(t.produces) {
        var i :| 0 <= i < |ordered| && ordered[i] == s;
        var j :| 0 <= j < |ordered| && ordered[j] == t;
        assert i < j || j < i;
      }
    }
    if OwnedOnce(nodes, initial) {
      forall i, j | 0 <= i < j < |ordered| ensures Members(ordered[i].produces) !! Members(ordered[j].produces) {
        assert Ids(ordered)[i] != Ids(ordered)[j];
      }
    }
  }

  /** The owner map: exactly the artifacts of the listed stages, each with its stage. */
  ghost predicate IsOwnerMap(owners: map<Name, Name>, stages: seq<Stage>) {
    && (forall a :: a in owners ==> exists i :: 0 <= i < |stages| && a in stages[i].produces)
    && forall i, a :: 0 <= i < |stages| && a in stages[i].produces ==> a in owners && owners[a] == stages[i].id
  }

  /** Claim one stage's artifacts. */
  method ClaimArtifacts(s: Stage, owners0: map<Name, Name>, initial: set<Name>)
    returns (ok: bool, owners: map<Name, Name>)
    ensures ok <==> NoDuplicates(s.produces) && Members(s.produces) !! initial && Members(s.produces) !! owners0.Keys
    ensures ok ==> owners.Keys == owners0.Keys + Members(s.produces)
    ensures ok ==> forall a :: a in owners ==> owners[a] == if a in s.produces then s.id else owners0[a]
  {
    owners := owners0;
    for j := 0 to |s.produces|
      invariant NoDuplicates(s.produces[..j]) && Members(s.produces[..j]) !! initial + owners0.Keys
      invariant owners.Keys == owners0.Keys + Members(s.produces[..j])
      invariant forall a :: a in owners ==> owners[a] == if a in s.produces[..j] then s.id else owners0[a]
    {
      var a := s.produces[j];
      if a in owners || a in initial {
        if a in s.produces[..j] {
          var i :| 0 <= i < j && s.produces[i] == a;
        }
        assert a in Members(s.produces);
        return false, owners;
      }
      assert s.produces[..j + 1] == s.produces[..j] + [a];
      owners := owners[a := s.id];
    }
    assert s.produces[..|s.produces|] == s.produces;
    ok := true;
  }

  method ClaimAll(ordered: seq<Stage>, initial: set<Name>) returns (ok: bool, owners: map<Name, Name>)
    ensures ok <==> SingleProducers(ordered, initial)
    ensures ok ==> IsOwnerMap(owners, ordered)
  {
    owners := map[];
    for i := 0 to |ordered|
      invariant SingleProducers(ordered[..i], initial) && IsOwnerMap(owners, ordered[..i])
    {
      ClaimStep(ordered, i, initial, owners);
      var claimed, extended := ClaimArtifacts(ordered[i], owners, initial);
      if !claimed { return false, owners; }
      OwnersExtend(ordered, i, owners, extended);
      owners := extended;
    }
    assert ordered[..|ordered|] == ordered;
    ok := true;
  }

  lemma OwnersExtend(ordered: seq<Stage>, i: nat, owners: map<Name, Name>, extended: map<Name, Name>)
    requires i < |ordered| && IsOwnerMap(owners, ordered[..i])
    requires Members(ordered[i].produces) !! owners.Keys
    requires extended.Keys == owners.Keys + Members(ordered[i].produces)
    requires forall a :: a in extended ==> extended[a] == if a in ordered[i].produces then ordered[i].id else owners[a]
    ensures IsOwnerMap(extended, ordered[..i + 1])
  {
    var part, longer := ordered[..i], ordered[..i + 1];
    forall a | a in extended ensures exists q :: 0 <= q < |longer| && a in longer[q].produces {
      if a in owners {
        var q :| 0 <= q < |part| && a in part[q].produces;
        assert a in longer[q].produces;
      } else {
        assert a in longer[i].produces;
      }
    }
    forall q, a | 0 <= q < |longer| && a in longer[q].produces ensures a in extended && extended[a] == longer[q].id {
      if q < i {
        assert a in part[q].produces;
      }
      assert a in ordered[i].produces <==> a in Members(ordered[i].produces);
    }
  }

  lemma ClaimStep(ordered: seq<Stage>, i: nat, initial: set<Name>, owners: map<Name, Name>)
    requires i < |ordered| && SingleProducers(ordered[..i], initial) && IsOwnerMap(owners, ordered[..i])
    ensures SingleProducers(ordered[..i + 1], initial) <==>
      NoDuplicates(ordered[i].produces) && Members(ordered[i].produces) !! initial &&
        Members(ordered[i].produces) !! owners.Keys
    ensures SingleProducers(ordered, initial) ==> SingleProducers(ordered[..i + 1], initial)
  {
    var longer, s := ordered[..i + 1], ordered[i];
    if Members(s.produces) !! owners.Keys && NoDuplicates(s.produces) && Members(s.produces) !! initial {
      forall p, q | 0 <= p < q < |longer| ensures Members(longer[p].produces) !! Members(longer[q].produces) {
        if q == i {
          forall a | a in longer[p].produces ensures a !in s.produces {
            assert a in ordered[..i][p].produces;
            assert a in owners.Keys;
            assert a in s.produces <==> a in Members(s.produces);
          }
        } else {
          assert longer[p] == ordered[..i][p] && longer[q] == ordered[..i][q];
        }
      }
    }
    if SingleProducers(longer, initial) {
      assert longer[i] == s;
      forall a | a in owners ensures a !in Members(s.produces) {
        var p :| 0 <= p < i && a in ordered[..i][p].produces;
        assert Members(longer[p].produces) !! Members(longer[i].produces);
        assert a in Members(longer[p].produces);
      }
    }
  }

  // ---------- artifact flow ----------

  /** Everything the stage consumes is there from the start or made by one of its ancestors. */
  ghost predicate FlowOk(nodes: seq<Stage>, deps: Dependencies, initial: set<Name>, s: Stage) {
    forall a :: a in s.consumes ==> a in initial || MadeByAncestor(nodes, deps, s.id, a)
  }

  /** The stage's inputs flow to it along dependencies and its operations are known. */
  ghost predicate StageOk(nodes: seq<Stage>, deps: Dependencies, initial: set<Name>, s: Stage) {
    FlowOk(nodes, deps, initial, s) && Unknown !in s.operations
  }

  ghost predicate MadeByAncestor(nodes: seq<Stage>, deps: Dependencies, stage: Name, a: Name) {
    exists p :: p in nodes && a in p.produces && Reaches(deps, stage, p.id)
  }

  /** The per-stage checks, in order. */
  function StageFault(
      s: Stage, available: set<Name>, completed: set<Name>, owners: map<Name, Name>,
      ancestors: set<Name>): Option<Fault>
  {
    if exists d :: d in s.dependencies && d !in completed then Some(NotExecutable)
    else if exists a :: a in s.consumes && a !in available then Some(ConsumesMissing)
    else if exists a :: a in s.consumes && a in owners && owners[a] !in ancestors then Some(ConsumesUnrelated)
    else if Unknown in s.operations then Some(UnknownOperation)
    else None
  }

  function ProducedBy(stages: seq<Stage>): (artifacts: set<Name>)
    ensures forall a :: a in artifacts <==> exists i :: 0 <= i < |stages| && a in stages[i].produces
  {
    set i, a | 0 <= i < |stages| && a in stages[i].produces :: a
  }

  /** At its turn a stage finds its inputs exactly when its ancestors make them. */
  lemma StageFaultMeans(
      ordered: seq<Stage>, i: nat, deps: Dependencies, initial: set<Name>, owners: map<Name, Name>,
      ancestors: map<Name, set<Name>>)
    requires Respects(deps, Ids(ordered)) && i < |ordered|
    requires ordered[i].id in deps && deps[ordered[i].id] == ordered[i].dependencies
    requires SingleProducers(ordered, initial) && IsOwnerMap(owners, ordered) &&
      AreAncestors(deps, Ids(ordered), ancestors)
    ensures ordered[i].id in ancestors
    ensures
      var available, completed := initial + ProducedBy(ordered[..i]), Members(Ids(ordered)[..i]);
      StageFault(ordered[i], available, completed, owners, ancestors[ordered[i].id]) == None
      <==> StageOk(ordered, deps, initial, ordered[i])
  {
    var s, available, names := ordered[i], initial + ProducedBy(ordered[..i]), Ids(ordered);
    assert names[i] == s.id && AllIn(deps[names[i]], names[..i]);
    forall a | a in s.consumes
      ensures a in available && (a in owners ==> owners[a] in ancestors[s.id]) <==>
        a in initial || MadeByAncestor(ordered, deps, s.id, a)
    {
      ConsumedArtifact(ordered, i, deps, initial, owners, ancestors, a);
    }
  }

  /** What the first failing check says of a stage. */
  lemma StageFaultExplains(
      ordered: seq<Stage>, i: nat, deps: Dependencies, initial: set<Name>, owners: map<Name, Name>,
      ancestors: set<Name>, completed: set<Name>)
    requires Respects(deps, Ids(ordered)) && i < |ordered|
    requires SingleProducers(ordered, initial) && IsOwnerMap(owners, ordered)
    requires forall b :: b in ancestors <==> Reaches(deps, ordered[i].id, b)
    requires forall d :: d in ordered[i].dependencies ==> d in completed
    ensures
      var fault := StageFault(ordered[i], initial + ProducedBy(ordered[..i]), completed, owners, ancestors);
      fault.Some? ==> StageExplains(ordered, deps, initial, i, fault.value)
  {
    var s, available := ordered[i], initial + ProducedBy(ordered[..i]);
    forall a ensures a in available <==> a in initial || MadeEarlier(ordered, i, a) {
      if MadeEarlier(ordered, i, a) {
        var j :| 0 <= j < i && a in ordered[j].produces;
        assert ordered[..i][j] == ordered[j];
      }
    }
    var all := map[s.id := ancestors];
    forall a | a in s.consumes
      ensures a in available && (a in owners ==> owners[a] in ancestors) <==>
        a in initial || MadeByAncestor(ordered, deps, s.id, a)
    {
      ConsumedArtifact(ordered, i, deps, initial, owners, all, a);
    }
  }

  lemma ConsumedArtifact(
      ordered: seq<Stage>, i: nat, deps: Dependencies, initial: set<Name>, owners: map<Name, Name>,
      ancestors: map<Name, set<Name>>, a: Name)
    requires Respects(deps, Ids(ordered)) && i < |ordered| && ordered[i].id in ancestors
    requires SingleProducers(ordered, initial) && IsOwnerMap(owners, ordered)
    requires forall b :: b in ancestors[ordered[i].id] <==> Reaches(deps, ordered[i].id, b)
    ensures a in initial + ProducedBy(ordered[..i]) && (a in owners ==> owners[a] in ancestors[ordered[i].id]) <==>
      a in initial || MadeByAncestor(ordered, deps, ordered[i].id, a)
  {
    var s := ordered[i];
    if a in initial {
      forall q | 0 <= q < |ordered| ensures a !in ordered[q].produces {
        assert a in ordered[q].produces <==> a in Members(ordered[q].produces);
      }
    } else if MadeByAncestor(ordered, deps, s.id, a) {
      var p :| p in ordered && a in p.produces && Reaches(deps, s.id, p.id);
      var j := ProducerIsEarlier(ordered, i, deps, p);
      assert ordered[..i][j] == p;
    } else if a in ProducedBy(ordered[..i]) {
      var q :| 0 <= q < i && a in ordered[..i][q].produces;
      assert ordered[q] in ordered && a in ordered[q].produces;
    }
  }

  lemma ProducerIsEarlier(ordered: seq<Stage>, i: nat, deps: Dependencies, p: Stage) returns (j: nat)
    requires Respects(deps, Ids(ordered)) && i < |ordered| && p in ordered && Reaches(deps, ordered[i].id, p.id)
    ensures j < i && ordered[j] == p
  {
    var path :| ReachesBy(deps, path, ordered[i].id, p.id);
    j := AncestorsComeFirst(deps, Ids(ordered), path, i);
    var q :| 0 <= q < |ordered| && ordered[q] == p;
    assert Ids(ordered)[q] == Ids(ordered)[j];
  }

  // ---------- the terminal artifact ----------

  predicate Covers(nodes: seq<Stage>, closure: set<Name>, op: Operation) {
    exists i :: 0 <= i < |nodes| && nodes[i].id in closure && op in nodes[i].operations
  }

  predicate HasDeadComparable(nodes: seq<Stage>, closure: set<Name>) {
    exists i :: 0 <= i < |nodes| && nodes[i].id !in closure &&
      (Indexer in nodes[i].operations || TopK in nodes[i].operations)
  }

  ghost predicate IsClosure(deps: Dependencies, closure: set<Name>, owner: Name) {
    forall n :: n in closure <==> n == owner || Reaches(deps, owner, n)
  }

  /** The stage is the given one or one of its ancestors. */
  ghost predicate Contributes(deps: Dependencies, n: Name, to: Name) {
    n == to || Reaches(deps, to, n)
  }

  /** Some contributor to `owner` performs the operation. */
  ghost predicate ContributorDoes(nodes: seq<Stage>, deps: Dependencies, owner: Name, op: Operation) {
    exists s :: s in nodes && op in s.operations && Contributes(deps, s.id, owner)
  }

  /** Every stage that indexes or selects contributes to `owner`. */
  ghost predicate AllComparableContribute(nodes: seq<Stage>, deps: Dependencies, owner: Name) {
    forall s :: s in nodes && (Indexer in s.operations || TopK in s.operations) ==> Contributes(deps, s.id, owner)
  }

  /** Some stage makes the terminal artifact; with its ancestors it covers indexing and
      selection, and nothing outside them indexes or selects. */
  ghost predicate TerminalOk(nodes: seq<Stage>, deps: Dependencies, terminal: Name) {
    exists p :: p in nodes && terminal in p.produces && TerminalCovered(nodes, deps, p.id)
  }

  ghost predicate TerminalCovered(nodes: seq<Stage>, deps: Dependencies, owner: Name) {
    && ContributorDoes(nodes, deps, owner, Indexer) && ContributorDoes(nodes, deps, owner, TopK)
    && AllComparableContribute(nodes, deps, owner)
  }

  ghost predicate ValidGraph(g: Graph) {
    && UniqueIds(g.nodes)
    && var deps := DependenciesOf(g.nodes);
    && Closed(deps) && !Cyclic(deps) && OwnedOnce(g.nodes, g.initial)
    && (forall s :: s in g.nodes ==> StageOk(g.nodes, deps, g.initial, s))
    && TerminalOk(g.nodes, deps, g.terminal)
  }

  // ---------- which fault is reported ----------

  /** An earlier stage makes the artifact. */
  ghost predicate MadeEarlier(ordered: seq<Stage>, i: nat, a: Name) {
    exists j :: 0 <= j < i && j < |ordered| && a in ordered[j].produces
  }

  /** What is wrong with the i-th stage when the stages before it are right. */
  ghost predicate StageExplains(ordered: seq<Stage>, deps: Dependencies, initial: set<Name>, i: nat, fault: Fault)
    requires i < |ordered|
  {
    match fault
    case ConsumesMissing => exists a :: a in ordered[i].consumes && a !in initial && !MadeEarlier(ordered, i, a)
    case ConsumesUnrelated =>
      && (forall a :: a in ordered[i].consumes ==> a in initial || MadeEarlier(ordered, i, a))
      && !FlowOk(ordered, deps, initial, ordered[i])
    case UnknownOperation => FlowOk(ordered, deps, initial, ordered[i]) && Unknown in ordered[i].operations
    case _ => false
  }

  ghost predicate FirstFlowFault(ordered: seq<Stage>, deps: Dependencies, initial: set<Name>, i: nat, fault: Fault) {
    && i < |ordered| && StageExplains(ordered, deps, initial, i, fault)
    && forall q :: 0 <= q < i ==> StageOk(ordered, deps, initial, ordered[q])
  }

  /** What is wrong with the terminal artifact. */
  ghost predicate TerminalExplains(nodes: seq<Stage>, deps: Dependencies, terminal: Name, fault: Fault) {
    if fault.TerminalNotProduced? then forall s :: s in nodes ==> terminal !in s.produces
    else exists p :: p in nodes && terminal in p.produces && OwnerExplains(nodes, deps, p.id, fault)
  }

  ghost predicate OwnerExplains(nodes: seq<Stage>, deps: Dependencies, owner: Name, fault: Fault) {
    var covered := ContributorDoes(nodes, deps, owner, Indexer) && ContributorDoes(nodes, deps, owner, TopK);
    (fault == TerminalNotCovered && !covered) ||
    (fault == DeadComparable && covered && !AllComparableContribute(nodes, deps, owner))
  }

  ghost predicate OrderExplains(nodes: seq<Stage>, why: GraphError) {
    match why
    case DependsOnMissing(stage, dependency) => LacksDependency(nodes, stage, dependency)
    case CycleFound => Closed(DependenciesOf(nodes)) && Cyclic(DependenciesOf(nodes))
  }

  /** The first check that fails, in the order in which they are made. */
  ghost predicate Explains(g: Graph, ordered: seq<Stage>, fault: Fault) {
    var deps := DependenciesOf(g.nodes);
    match fault
    case Unordered(why) => OrderExplains(g.nodes, why)
    case ProducedTwice => Closed(deps) && !Cyclic(deps) && !OwnedOnce(g.nodes, g.initial)
    case TerminalNotProduced => FlowsWell(g, deps) && TerminalExplains(g.nodes, deps, g.terminal, fault)
    case TerminalNotCovered => FlowsWell(g, deps) && TerminalExplains(g.nodes, deps, g.terminal, fault)
    case DeadComparable => FlowsWell(g, deps) && TerminalExplains(g.nodes, deps, g.terminal, fault)
    case _ =>
      && Closed(deps) && !Cyclic(deps) && OwnedOnce(g.nodes, g.initial) && Ids(ordered) == Greedy(deps, [])
      && (forall s :: s in ordered <==> s in g.nodes)
      && exists i: nat :: FirstFlowFault(ordered, deps, g.initial, i, fault)
  }

  ghost predicate FlowsWell(g: Graph, deps: Dependencies) {
    && Closed(deps) && !Cyclic(deps) && OwnedOnce(g.nodes, g.initial)
    && forall s :: s in g.nodes ==> StageOk(g.nodes, deps, g.initial, s)
  }

  /** The checks of one stage. */
  method CheckStage(
      ordered: seq<Stage>, i: nat, ghost deps: Dependencies, initial: set<Name>, owners: map<Name, Name>,
      ancestors: map<Name, set<Name>>, available: set<Name>, completed: set<Name>)
    returns (fault: Option<Fault>)
    requires Respects(deps, Ids(ordered)) && IsOwnerMap(owners, ordered) && SingleProducers(ordered, initial)
    requires i < |ordered| && ordered[i].id in deps && deps[ordered[i].id] == ordered[i].dependencies
    requires AreAncestors(deps, Ids(ordered), ancestors)
    requires available == initial + ProducedBy(ordered[..i]) && completed == Members(Ids(ordered)[..i])
    ensures fault == None <==> StageOk(ordered, deps, initial, ordered[i])
    ensures fault.Some? ==> StageExplains(ordered, deps, initial, i, fault.value)
  {
    StageFaultMeans(ordered, i, deps, initial, owners, ancestors);
    DependenciesDone(ordered, i, deps);
    assert Ids(ordered)[i] == ordered[i].id;
    StageFaultExplains(ordered, i, deps, initial, owners, ancestors[ordered[i].id], completed);
    fault := StageFault(ordered[i], available, completed, owners, ancestors[ordered[i].id]);
  }

  /** The flow loop: stage by stage in order, first fault wins. */
  method CheckFlow(
      ordered: seq<Stage>, ghost deps: Dependencies, initial: set<Name>, owners: map<Name, Name>,
      ancestors: map<Name, set<Name>>)
    returns (fault: Option<Fault>)
    requires Respects(deps, Ids(ordered)) && IsOwnerMap(owners, ordered) && SingleProducers(ordered, initial)
    requires forall i :: 0 <= i < |ordered| ==> ordered[i].id in deps && deps[ordered[i].id] == ordered[i].dependencies
    requires AreAncestors(deps, Ids(ordered), ancestors)
    ensures fault == None <==> forall s :: s in ordered ==> StageOk(ordered, deps, initial, s)
    ensures fault.Some? ==> exists i: nat :: FirstFlowFault(ordered, deps, initial, i, fault.value)
  {
    var available, completed := initial, {};
    for i := 0 to |ordered|
      invariant available == initial + ProducedBy(ordered[..i]) && completed == Members(Ids(ordered)[..i])
      invariant forall q :: 0 <= q < i ==> StageOk(ordered, deps, initial, ordered[q])
    {
      fault := CheckStage(ordered, i, deps, initial, owners, ancestors, available, completed);
      if fault != None {
        assert ordered[i] in ordered;
        assert FirstFlowFault(ordered, deps, initial, i, fault.value);
        return;
      }
      AvailableNext(ordered, i, initial);
      available := available + set a | a in ordered[i].produces;
      completed := completed + {ordered[i].id};
    }
    fault := None;
  }

  lemma DependenciesDone(ordered: seq<Stage>, i: nat, deps: Dependencies)
    requires Respects(deps, Ids(ordered)) && i < |ordered|
    requires ordered[i].id in deps && deps[ordered[i].id] == ordered[i].dependencies
    ensures forall d :: d in ordered[i].dependencies ==> d in Members(Ids(ordered)[..i])
  {
    assert Ids(ordered)[i] == ordered[i].id && AllIn(deps[Ids(ordered)[i]], Ids(ordered)[..i]);
  }

  lemma AvailableNext(ordered: seq<Stage>, i: nat, initial: set<Name>)
    requires i < |ordered|
    ensures ProducedBy(ordered[..i + 1]) == ProducedBy(ordered[..i]) + Members(ordered[i].produces)
    ensures Members(Ids(ordered)[..i + 1]) == Members(Ids(ordered)[..i]) + {ordered[i].id}
  {
    var longer, part := ordered[..i + 1], ordered[..i];
    forall a ensures a in ProducedBy(longer) <==> a in ProducedBy(part) || a in ordered[i].produces {
      if a in ordered[i].produces { assert a in longer[i].produces; }
      if a in ProducedBy(part) {
        var q :| 0 <= q < i && a in part[q].produces;
        assert a in longer[q].produces;
      }
      if a in ProducedBy(longer) {
        var q :| 0 <= q <= i && a in longer[q].produces;
        assert q < i ==> a in part[q].produces;
      }
    }
    assert Ids(ordered)[..i + 1] == Ids(ordered)[..i] + [ordered[i].id];
  }

  /** The terminal checks. */
  method CheckTerminal(
      ordered: seq<Stage>, ghost deps: Dependencies, terminal: Name, owners: map<Name, Name>,
      ancestors: map<Name, set<Name>>)
    returns (fault: Option<Fault>)
    requires IsOwnerMap(owners, ordered) && AreAncestors(deps, Ids(ordered), ancestors)
    ensures fault == None <==> TerminalOk(ordered, deps, terminal)
    ensures fault.Some? ==>
      fault.value in {TerminalNotProduced, TerminalNotCovered, DeadComparable} &&
      TerminalExplains(ordered, deps, terminal, fault.value)
  {
    if terminal !in owners {
      forall s | s in ordered ensures terminal !in s.produces {
        var q :| 0 <= q < |ordered| && ordered[q] == s;
      }
      return Some(TerminalNotProduced);
    }
    var owner := owners[terminal];
    ghost var i := OwnerIndex(ordered, owners, terminal);
    assert Ids(ordered)[i] == owner;
    var closure := {owner} + ancestors[owner];
    TerminalClosure(ordered, deps, terminal, owners, closure, i);
    CoversMeans(ordered, deps, closure, owner, Indexer);
    CoversMeans(ordered, deps, closure, owner, TopK);
    DeadMeans(ordered, deps, closure, owner);
    assert ordered[i] in ordered && ordered[i].id == owner;
    if !(Covers(ordered, closure, Indexer) && Covers(ordered, closure, TopK)) { return Some(TerminalNotCovered); }
    if HasDeadComparable(ordered, closure) { return Some(DeadComparable); }
    return None;
  }

  lemma OwnerIndex(ordered: seq<Stage>, owners: map<Name, Name>, terminal: Name) returns (i: nat)
    requires IsOwnerMap(owners, ordered) && terminal in owners
    ensures i < |ordered| && terminal in ordered[i].produces && ordered[i].id == owners[terminal]
  {
    i :| 0 <= i < |ordered| && terminal in ordered[i].produces;
  }

  /** The two predicates that the checks evaluate on the closure. */
  lemma CoversMeans(nodes: seq<Stage>, deps: Dependencies, closure: set<Name>, owner: Name, op: Operation)
    requires IsClosure(deps, closure, owner)
    ensures Covers(nodes, closure, op) <==> ContributorDoes(nodes, deps, owner, op)
  {
    if Covers(nodes, closure, op) {
      var i :| 0 <= i < |nodes| && nodes[i].id in closure && op in nodes[i].operations;
      assert nodes[i] in nodes && Contributes(deps, nodes[i].id, owner);
    }
    if ContributorDoes(nodes, deps, owner, op) {
      var s :| s in nodes && op in s.operations && Contributes(deps, s.id, owner);
      var i :| 0 <= i < |nodes| && nodes[i] == s;
    }
  }

  lemma DeadMeans(nodes: seq<Stage>, deps: Dependencies, closure: set<Name>, owner: Name)
    requires IsClosure(deps, closure, owner)
    ensures HasDeadComparable(nodes, closure) <==> !AllComparableContribute(nodes, deps, owner)
  {
    if HasDeadComparable(nodes, closure) {
      var i :| 0 <= i < |nodes| && nodes[i].id !in closure &&
        (Indexer in nodes[i].operations || TopK in nodes[i].operations);
      assert nodes[i] in nodes && !Contributes(deps, nodes[i].id, owner);
    }
    if s :| s in nodes && (Indexer in s.operations || TopK in s.operations) && !Contributes(deps, s.id, owner) {
      var i :| 0 <= i < |nodes| && nodes[i] == s;
    }
  }

  lemma TerminalClosure(
      ordered: seq<Stage>, deps: Dependencies, terminal: Name, owners: map<Name, Name>, closure: set<Name>, i: nat)
    requires IsOwnerMap(owners, ordered) && i < |ordered| && terminal in ordered[i].produces
    requires IsClosure(deps, closure, ordered[i].id)
    ensures TerminalOk(ordered, deps, terminal) <==>
      Covers(ordered, closure, Indexer) && Covers(ordered, closure, TopK) && !HasDeadComparable(ordered, closure)
  {
    CoversMeans(ordered, deps, closure, ordered[i].id, Indexer);
    CoversMeans(ordered, deps, closure, ordered[i].id, TopK);
    DeadMeans(ordered, deps, closure, ordered[i].id);
    if TerminalOk(ordered, deps, terminal) {
      var p :| p in ordered && terminal in p.produces && TerminalCovered(ordered, deps, p.id);
      var q :| 0 <= q < |ordered| && ordered[q] == p;
      assert terminal in ordered[q].produces;
      assert owners[terminal] == ordered[q].id == ordered[i].id;
    }
    assert ordered[i] in ordered;
  }

  /** The conditions do not depend on how the stages are listed. */
  lemma ListingIrrelevant(
      nodes: seq<Stage>, ordered: seq<Stage>, deps: Dependencies, initial: set<Name>, terminal: Name)
    requires forall s :: s in ordered <==> s in nodes
    ensures forall s :: StageOk(ordered, deps, initial, s) <==> StageOk(nodes, deps, initial, s)
    ensures TerminalOk(ordered, deps, terminal) <==> TerminalOk(nodes, deps, terminal)
  {
    forall owner, op ensures ContributorDoes(ordered, deps, owner, op) <==> ContributorDoes(nodes, deps, owner, op) {
    }
    forall owner
      ensures AllComparableContribute(ordered, deps, owner) <==> AllComparableContribute(nodes, deps, owner)
    {
    }
    forall s, a ensures MadeByAncestor(ordered, deps, s, a) <==> MadeByAncestor(nodes, deps, s, a) {
    }
  }

  /** Nor does what explains a fault of the terminal artifact. */
  lemma TerminalFaultListing(nodes: seq<Stage>, ordered: seq<Stage>, deps: Dependencies, terminal: Name, fault: Fault)
    requires forall s :: s in ordered <==> s in nodes
    requires TerminalExplains(ordered, deps, terminal, fault)
    ensures TerminalExplains(nodes, deps, terminal, fault)
  {
    ListingIrrelevant(nodes, ordered, deps, {}, terminal);
    if !fault.TerminalNotProduced? {
      var p :| p in ordered && terminal in p.produces && OwnerExplains(ordered, deps, p.id, fault);
      forall op ensures ContributorDoes(ordered, deps, p.id, op) <==> ContributorDoes(nodes, deps, p.id, op) {
      }
      assert AllComparableContribute(ordered, deps, p.id) <==> AllComparableContribute(nodes, deps, p.id);
      assert p in nodes && OwnerExplains(nodes, deps, p.id, fault);
    }
  }

  lemma TerminalFaultIsExplained(g: Graph, ordered: seq<Stage>, deps: Dependencies, fault: Fault)
    requires deps == DependenciesOf(g.nodes) && FlowsWell(g, deps) && forall s :: s in ordered <==> s in g.nodes
    requires fault in {TerminalNotProduced, TerminalNotCovered, DeadComparable}
    requires TerminalExplains(ordered, deps, g.terminal, fault)
    ensures Explains(g, ordered, fault)
  {
    TerminalFaultListing(g.nodes, ordered, deps, g.terminal, fault);
  }

  /** The checks that follow the ordering. */
  method CheckOrdered(g: Graph, ordered: seq<Stage>, ghost deps: Dependencies) returns (fault: Option<Fault>)
    requires deps == DependenciesOf(g.nodes) && Closed(deps) && !Cyclic(deps) && Ids(ordered) == Greedy(deps, [])
    requires Respects(deps, Ids(ordered))
    requires forall s :: s in ordered <==> s in g.nodes
    requires forall i :: 0 <= i < |ordered| ==> ordered[i].id in deps && deps[ordered[i].id] == ordered[i].dependencies
    ensures fault == None <==>
      OwnedOnce(g.nodes, g.initial) && (forall s :: s in g.nodes ==> StageOk(g.nodes, deps, g.initial, s)) &&
      TerminalOk(g.nodes, deps, g.terminal)
    ensures fault.Some? ==>
      Explains(g, ordered, fault.value) && !fault.value.Unordered? &&
      fault.value !in {UnsafePlugin, DuplicateStageIds, UnsafeStage, NotExecutable}
  {
    var ancestors := ComputeAncestors(ordered, deps);
    OwnedOnceIsSingle(g.nodes, ordered, g.initial);
    ListingIrrelevant(g.nodes, ordered, deps, g.initial, g.terminal);
    var single, owners := ClaimAll(ordered, g.initial);
    if !single { return Some(ProducedTwice); }
    fault := CheckFlow(ordered, deps, g.initial, owners, ancestors);
    if fault.Some? { return; }
    fault := CheckTerminal(ordered, deps, g.terminal, owners, ancestors);
    if fault.Some? { TerminalFaultIsExplained(g, ordered, deps, fault.value); }
  }

  /** Accepts exactly the valid graphs with safe IDs and returns their stages in greedy
      order. The executability re-check never finds anything. */
  method ValidateGraph(g: Graph, spelling: Spelling)
    returns (result: Result<seq<Stage>, Fault>, ghost ordered: seq<Stage>)
    ensures result.Ok? <==> IdsMatch(g, spelling) && ValidGraph(g)
    ensures result.Ok? ==> Ids(result.value) == Greedy(DependenciesOf(g.nodes), [])
    ensures result.Ok? ==> |result.value| == |g.nodes| && forall s :: s in result.value <==> s in g.nodes
    ensures result == Err(UnsafePlugin) <==> !Matches(ID_PATTERN, g.plugin)
    ensures result == Err(DuplicateStageIds) <==> Matches(ID_PATTERN, g.plugin) && !UniqueIds(g.nodes)
    ensures result == Err(UnsafeStage) <==>
      Matches(ID_PATTERN, g.plugin) && UniqueIds(g.nodes) && !StageIdsMatch(g.nodes, spelling)
    ensures result != Err(NotExecutable)
    ensures result.Err? && result.error !in {UnsafePlugin, DuplicateStageIds, UnsafeStage} ==>
      IdsMatch(g, spelling) && UniqueIds(g.nodes) && Explains(g, ordered, result.error)
  {
    SafeIdIsPattern(g.plugin);
    SafeStagesMatch(g.nodes, spelling);
    if !IsSafeId(g.plugin) { return Err(UnsafePlugin), []; }
    if !HasUniqueIds(g.nodes) { return Err(DuplicateStageIds), []; }
    if !SafeStages(g.nodes, spelling) { return Err(UnsafeStage), []; }
    var topological := TopologicalNodes(g.nodes);
    if topological.Err? { return Err(Unordered(topological.error)), []; }
    OrderFacts(g.nodes, topological.value);
    var fault := CheckOrdered(g, topological.value, DependenciesOf(g.nodes));
    if fault.Some? { return Err(fault.value), topological.value; }
    return Ok(topological.value), topological.value;
  }

  predicate HasUniqueIds(nodes: seq<Stage>)
    ensures HasUniqueIds(nodes) <==> UniqueIds(nodes)
  {
    forall i, j :: 0 <= i < |nodes| && 0 <= j < |nodes| && i < j ==> nodes[i].id != nodes[j].id
  }

  lemma OrderFacts(nodes: seq<Stage>, ordered: seq<Stage>)
    requires UniqueIds(nodes) && Ids(ordered) == Greedy(DependenciesOf(nodes), [])
    requires Members(Ids(ordered)) == DependenciesOf(nodes).Keys && forall s :: s in ordered ==> IsLastNamed(nodes, s)
    ensures |ordered| == |nodes| && forall s :: s in ordered <==> s in nodes
    ensures Respects(DependenciesOf(nodes), Ids(ordered))
    ensures forall i :: 0 <= i < |ordered| ==>
      ordered[i].id in DependenciesOf(nodes) && DependenciesOf(nodes)[ordered[i].id] == ordered[i].dependencies
  {
    GreedyRespects(DependenciesOf(nodes), []);
    SameStages(nodes, ordered);
    forall i | 0 <= i < |ordered|
      ensures ordered[i].id in DependenciesOf(nodes) && DependenciesOf(nodes)[ordered[i].id] == ordered[i].dependencies
    {
      assert ordered[i] in nodes;
      var j :| 0 <= j < |nodes| && nodes[j] == ordered[i];
      DependenciesAt(nodes, j);
    }
  }
}
