/** Kahn's algorithm over mutable indegree counts, child lists and a sorted ready list. */
module TopologicalOrder {
  import opened Exactness
  import opened TensorOps
  import opened Outcomes
  import opened StageGraph

  datatype GraphError = DependsOnMissing(stage: Name, dependency: Name) | CycleFound

  // ---------- counting open dependencies ----------

  /** How many entries of a dependency list are not listed yet, duplicates counted. */
  ghost function Waiting(names: seq<Name>, done: seq<Name>): nat {
    if names == [] then 0
    else Waiting(names[..|names| - 1], done) + if names[|names| - 1] in done then 0 else 1
  }

  lemma {:induction false} WaitingDrops(names: seq<Name>, done: seq<Name>, x: Name)
    requires x !in done
    ensures Waiting(names, done) == Waiting(names, done + [x]) + multiset(names)[x]
  {
    if names != [] {
      FrontAndLast(names);
      WaitingDrops(names[..|names| - 1], done, x);
    }
  }

  lemma {:induction false} WaitingZero(names: seq<Name>, done: seq<Name>)
    ensures Waiting(names, done) == 0 <==> AllIn(names, done)
  {
    if names != [] {
      FrontAndLast(names);
      WaitingZero(names[..|names| - 1], done);
    }
  }

  lemma {:induction false} WaitingInitially(names: seq<Name>)
    ensures Waiting(names, []) == |names|
  {
    if names != [] {
      WaitingInitially(names[..|names| - 1]);
    }
  }

  // ---------- the books ----------

  /** `children` is the dependency relation turned around, duplicates included. */
  ghost predicate AreChildren(deps: Dependencies, children: map<Name, seq<Name>>) {
    && children.Keys == deps.Keys
    && forall d :: d in children ==>
      (forall v :: v in children[d] ==> v in deps) && forall n :: n in deps ==>
        multiset(children[d])[n] == multiset(deps[n])[d]
  }

  /** Each count is the stage's open dependencies plus the decrements still owed to it. */
  ghost predicate CountsOwe(deps: Dependencies, indegree: map<Name, int>, done: seq<Name>, owed: multiset<Name>) {
    && indegree.Keys == deps.Keys
    && forall n :: n in deps ==> indegree[n] == Waiting(deps[n], done) + owed[n]
  }

  /** The ready list is sorted and holds each unlisted stage with count zero once. */
  ghost predicate IsReadyList(deps: Dependencies, indegree: map<Name, int>, done: seq<Name>, ready: seq<Name>) {
    && IsSorted(ready)
    && forall n :: multiset(ready)[n] == if n in deps && n in indegree && n !in done && indegree[n] == 0 then 1 else 0
  }

  ghost predicate NothingOwed(done: seq<Name>, owed: multiset<Name>) {
    forall n :: n in done ==> owed[n] == 0
  }

  /** With nothing owed the ready list lists the ready stages, smallest first. */
  lemma ReadyListIsReady(deps: Dependencies, indegree: map<Name, int>, done: seq<Name>, ready: seq<Name>)
    requires CountsOwe(deps, indegree, done, multiset{}) && IsReadyList(deps, indegree, done, ready)
    ensures forall n :: n in multiset(ready) <==> n in Ready(deps, done)
    ensures ready != [] ==> IsLeast(ready[0], Ready(deps, done))
    ensures ready == [] <==> Ready(deps, done) == {}
  {
    forall n | n in deps ensures indegree[n] == 0 <==> AllIn(deps[n], done) {
      WaitingZero(deps[n], done);
    }
    if ready != [] {
      HeadAndTail(ready);
    }
  }

  /** Listing a ready stage moves its children's counts into the owed decrements. */
  lemma ListNext(
      deps: Dependencies, children: map<Name, seq<Name>>, indegree: map<Name, int>, done: seq<Name>, ready: seq<Name>)
    requires AreChildren(deps, children) && Respects(deps, done)
    requires CountsOwe(deps, indegree, done, multiset{}) && IsReadyList(deps, indegree, done, ready) && ready != []
    ensures ready[0] in Ready(deps, done)
    ensures Respects(deps, done + [ready[0]])
    ensures CountsOwe(deps, indegree, done + [ready[0]], multiset(children[ready[0]]))
    ensures IsReadyList(deps, indegree, done + [ready[0]], ready[1..])
    ensures NothingOwed(done + [ready[0]], multiset(children[ready[0]]))
  {
    var name := ready[0];
    ReadyListIsReady(deps, indegree, done, ready);
    RespectsExtends(deps, done, name);
    HeadAndTail(ready);
    forall n | n in deps
      ensures indegree[n] == Waiting(deps[n], done + [name]) + multiset(children[name])[n]
    {
      WaitingDrops(deps[n], done, name);
    }
    forall n | n in done + [name] ensures multiset(children[name])[n] == 0 {
      var i :| 0 <= i < |done + [name]| && (done + [name])[i] == n;
      assert AllIn(deps[n], (done + [name])[..i]);
      assert name !in deps[n];
    }
  }

  /** Paying one decrement keeps the books; the child joins the ready list when its count
      reaches zero. */
  lemma PayOne(
      deps: Dependencies, indegree: map<Name, int>, done: seq<Name>, ready: seq<Name>, owed: multiset<Name>,
      child: Name,
      paid: map<Name, int>, longer: seq<Name>)
    requires CountsOwe(deps, indegree, done, owed) && IsReadyList(deps, indegree, done, ready) &&
      NothingOwed(done, owed)
    requires child in owed && child in deps
    requires paid == indegree[child := indegree[child] - 1]
    requires longer == if paid[child] == 0 then Sort(ready + [child]) else ready
    ensures CountsOwe(deps, paid, done, owed - multiset{child}) && IsReadyList(deps, paid, done, longer)
    ensures NothingOwed(done, owed - multiset{child})
  {
    assert child !in done;
    assert indegree[child] > 0;
    if paid[child] == 0 {
      SortFacts(ready + [child]);
    }
  }

  // ---------- setting the books up ----------

  /** The books agree with the dependency entries seen so far. */
  ghost predicate Tallies(seen: Dependencies, indegree: map<Name, int>, children: map<Name, seq<Name>>) {
    && indegree.Keys == seen.Keys && AreChildren(seen, children)
    && forall n :: n in seen ==> indegree[n] == |seen[n]|
  }

  lemma TallyOne(
      seen: Dependencies, indegree: map<Name, int>, children: map<Name, seq<Name>>, id: Name, d: Name)
    requires Tallies(seen, indegree, children) && id in seen && d in seen
    ensures Tallies(seen[id := seen[id] + [d]], indegree[id := indegree[id] + 1], children[d := children[d] + [id]])
  {
    var seen', children' := seen[id := seen[id] + [d]], children[d := children[d] + [id]];
    forall e, n | e in children' && n in seen' ensures multiset(children'[e])[n] == multiset(seen'[n])[e] {
      assert multiset(children[e])[n] == multiset(seen[n])[e];
    }
  }

  lemma ExtendedNone(deps: Dependencies, n: Name)
    requires n in deps
    ensures Extended(deps, n, []) == deps
  {
    assert deps[n] + [] == deps[n];
  }

  lemma ExtendedOne(deps: Dependencies, n: Name, more: seq<Name>, j: nat)
    requires n in deps && j < |more|
    ensures
      var part := Extended(deps, n, more[..j]);
      Extended(deps, n, more[..j + 1]) == part[n := part[n] + [more[j]]]
  {
    assert deps[n] + more[..j + 1] == deps[n] + more[..j] + [more[j]];
  }

  /** The books once the first `j` entries of a stage are counted. */
  ghost predicate TalliesTo(
      seen: Dependencies, id: Name, dependencies: seq<Name>, j: nat, indegree: map<Name, int>,
      children: map<Name, seq<Name>>)
    requires j <= |dependencies|
  {
    Tallies(Extended(seen, id, dependencies[..j]), indegree, children)
  }

  /** One dependency entry, unless it names no stage. */
  method TallyEntry(
      id: Name, dependencies: seq<Name>, j: nat, indegree0: map<Name, int>, children0: map<Name, seq<Name>>,
      ghost seen: Dependencies)
    returns (found: bool, indegree: map<Name, int>, children: map<Name, seq<Name>>)
    requires j < |dependencies| && id in seen && TalliesTo(seen, id, dependencies, j, indegree0, children0)
    ensures found <==> dependencies[j] in seen
    ensures found ==> TalliesTo(seen, id, dependencies, j + 1, indegree, children)
  {
    var d := dependencies[j];
    ghost var part := Extended(seen, id, dependencies[..j]);
    found, indegree, children := d in indegree0, indegree0, children0;
    assert d in part <==> d in seen;
    if found {
      TallyOne(part, indegree0, children0, id, d);
      ExtendedOne(seen, id, dependencies, j);
      indegree, children := indegree0[id := indegree0[id] + 1], children0[d := children0[d] + [id]];
    }
  }

  /** Every dependency entry of one stage. */
  method TallyStage(
      id: Name, dependencies: seq<Name>, indegree0: map<Name, int>, children0: map<Name, seq<Name>>,
      ghost seen: Dependencies)
    returns (missing: Option<Name>, indegree: map<Name, int>, children: map<Name, seq<Name>>)
    requires id in seen && TalliesTo(seen, id, dependencies, 0, indegree0, children0)
    ensures missing.None? <==> forall d :: d in dependencies ==> d in seen
    ensures missing.Some? ==> missing.value in dependencies && missing.value !in seen
    ensures missing.None? ==> TalliesTo(seen, id, dependencies, |dependencies|, indegree, children)
  {
    indegree, children := indegree0, children0;
    for j := 0 to |dependencies|
      invariant TalliesTo(seen, id, dependencies, j, indegree, children)
      invariant forall l :: 0 <= l < j ==> dependencies[l] in seen
    {
      var d := dependencies[j];
      var found;
      found, indegree, children := TallyEntry(id, dependencies, j, indegree, children, seen);
      if !found { return Some(d), indegree, children; }
    }
    missing := None;
  }

  /** The stages tallied so far have their entries, the others none. */
  ghost predicate SeenSoFar(seen: Dependencies, names: set<Name>, tallied: Dependencies) {
    seen.Keys == names && forall n :: n in names ==> seen[n] == EntriesOf(tallied, n)
  }

  lemma {:induction false} ListedIsNamed(nodes: seq<Stage>, i: nat)
    requires i < |nodes|
    ensures nodes[i].id in DependenciesOf(nodes)
  {
    if i < |nodes| - 1 {
      ListedIsNamed(nodes[..|nodes| - 1], i);
    }
  }

  lemma OneStageMore(nodes: seq<Stage>, i: nat)
    requires i < |nodes|
    ensures
      DependenciesOf(nodes[..i + 1]) == Extended(DependenciesOf(nodes[..i]), nodes[i].id, nodes[i].dependencies)
  {
    assert nodes[..i + 1][..i] == nodes[..i];
  }

  /** The stages tallied so far depend only on stages. */
  ghost predicate ClosedIn(tallied: Dependencies, names: set<Name>) {
    forall n, d :: n in tallied && d in tallied[n] ==> d in names
  }

  lemma ClosedOneMore(names: set<Name>, tallied: Dependencies, id: Name, dependencies: seq<Name>)
    ensures ClosedIn(Extended(tallied, id, dependencies), names) <==>
      ClosedIn(tallied, names) && forall d :: d in dependencies ==> d in names
  {
    var longer := Extended(tallied, id, dependencies);
    if ClosedIn(longer, names) {
      forall d | d in dependencies ensures d in names {
        assert d in longer[id];
      }
      forall n, d | n in tallied && d in tallied[n] ensures d in names {
        assert d in longer[n];
      }
    }
  }

  lemma SeenOneMore(seen: Dependencies, names: set<Name>, tallied: Dependencies, id: Name, dependencies: seq<Name>)
    requires SeenSoFar(seen, names, tallied) && id in names
    ensures SeenSoFar(Extended(seen, id, dependencies), names, Extended(tallied, id, dependencies))
  {
  }

  lemma SeenAll(seen: Dependencies, tallied: Dependencies)
    requires SeenSoFar(seen, tallied.Keys, tallied)
    ensures seen == tallied
  {
    forall n ensures n in seen <==> n in tallied {
      assert n in seen.Keys <==> n in tallied.Keys;
    }
    assert forall n :: n in tallied ==> n in tallied.Keys && seen[n] == tallied[n];
  }

  lemma {:induction false} ClosedPrefix(nodes: seq<Stage>, i: nat, names: set<Name>)
    requires i <= |nodes| && ClosedIn(DependenciesOf(nodes), names)
    ensures ClosedIn(DependenciesOf(nodes[..i]), names)
  {
    if i < |nodes| {
      var front, last := nodes[..|nodes| - 1], nodes[|nodes| - 1];
      ClosedOneMore(names, DependenciesOf(front), last.id, last.dependencies);
      ClosedPrefix(front, i, names);
      assert front[..i] == nodes[..i];
    } else {
      assert nodes[..i] == nodes;
    }
  }

  /** What the counting loop knows after `i` stages. */
  ghost predicate TalliedTo(
      nodes: seq<Stage>, i: nat, names: set<Name>, seen: Dependencies, indegree: map<Name, int>,
      children: map<Name, seq<Name>>)
    requires i <= |nodes|
  {
    && SeenSoFar(seen, names, DependenciesOf(nodes[..i])) && Tallies(seen, indegree, children)
    && ClosedIn(DependenciesOf(nodes[..i]), names)
  }

  /** One more stage. */
  method TallyNext(
      nodes: seq<Stage>, i: nat, ghost names: set<Name>, ghost seen0: Dependencies, indegree0: map<Name, int>,
      children0: map<Name, seq<Name>>)
    returns (missing: Option<Name>, ghost seen: Dependencies, indegree: map<Name, int>, children: map<Name, seq<Name>>)
    requires i < |nodes| && TalliedTo(nodes, i, names, seen0, indegree0, children0) && nodes[i].id in names
    ensures missing == None ==> TalliedTo(nodes, i + 1, names, seen, indegree, children)
    ensures missing != None ==> !ClosedIn(DependenciesOf(nodes[..i + 1]), names)
    ensures missing != None ==> missing.value in nodes[i].dependencies && missing.value !in names
  {
    ghost var part := DependenciesOf(nodes[..i]);
    var id, dependencies := nodes[i].id, nodes[i].dependencies;
    OneStageMore(nodes, i);
    ClosedOneMore(names, part, id, dependencies);
    ExtendedNone(seen0, id);
    assert dependencies[..0] == [] && dependencies[..|dependencies|] == dependencies;
    missing, indegree, children := TallyStage(id, dependencies, indegree0, children0, seen0);
    seen := Extended(seen0, id, dependencies);
    if missing == None { SeenOneMore(seen0, names, part, id, dependencies); }
  }

  /** A stage with that ID depends on a name that no stage has. */
  ghost predicate LacksDependency(nodes: seq<Stage>, stage: Name, dependency: Name) {
    && (exists s :: s in nodes && s.id == stage && dependency in s.dependencies)
    && forall s :: s in nodes ==> s.id != dependency
  }

  lemma DependencyIsLacking(nodes: seq<Stage>, i: nat, d: Name)
    requires i < |nodes| && d in nodes[i].dependencies && d !in DependenciesOf(nodes)
    ensures LacksDependency(nodes, nodes[i].id, d)
  {
    assert nodes[i] in nodes;
    forall s | s in nodes ensures s.id != d {
      var j :| 0 <= j < |nodes| && nodes[j] == s;
      ListedIsNamed(nodes, j);
    }
  }

  /** Count every dependency entry, or report the first one that names no stage. */
  method TallyAll(nodes: seq<Stage>)
    returns (error: Option<GraphError>, indegree: map<Name, int>, children: map<Name, seq<Name>>)
    ensures error == None <==> Closed(DependenciesOf(nodes))
    ensures error.Some? ==>
      error.value.DependsOnMissing? && LacksDependency(nodes, error.value.stage, error.value.dependency)
    ensures error == None ==> Tallies(DependenciesOf(nodes), indegree, children)
  {
    var names := DependenciesOf(nodes).Keys;
    indegree := map n | n in names :: 0;
    children := map n | n in names :: [];
    ghost var seen: Dependencies := map n | n in names :: [];
    for i := 0 to |nodes|
      invariant TalliedTo(nodes, i, names, seen, indegree, children)
    {
      ListedIsNamed(nodes, i);
      var missing;
      missing, seen, indegree, children := TallyNext(nodes, i, names, seen, indegree, children);
      if missing.Some? {
        if Closed(DependenciesOf(nodes)) { ClosedPrefix(nodes, i + 1, names); }
        DependencyIsLacking(nodes, i, missing.value);
        return Some(DependsOnMissing(nodes[i].id, missing.value)), indegree, children;
      }
    }
    assert nodes[..|nodes|] == nodes;
    error := None;
    SeenAll(seen, DependenciesOf(nodes));
  }

  // ---------- the main loop ----------

  /** Pay every child of the stage just listed, in name order. */
  method PayChildren(
      ghost deps: Dependencies, indegree0: map<Name, int>, ready0: seq<Name>, ghost done: seq<Name>, list: seq<Name>)
    returns (indegree: map<Name, int>, ready: seq<Name>)
    requires CountsOwe(deps, indegree0, done, multiset(list)) && IsReadyList(deps, indegree0, done, ready0)
    requires NothingOwed(done, multiset(list)) && forall v :: v in list ==> v in deps
    ensures CountsOwe(deps, indegree, done, multiset{}) && IsReadyList(deps, indegree, done, ready)
  {
    indegree, ready := indegree0, ready0;
    for t := 0 to |list|
      invariant CountsOwe(deps, indegree, done, multiset(list[t..])) && IsReadyList(deps, indegree, done, ready)
      invariant NothingOwed(done, multiset(list[t..]))
    {
      var child := list[t];
      HeadAndTail(list[t..]);
      assert list[t..][1..] == list[t + 1..];
      assert multiset(list[t..]) - multiset{child} == multiset(list[t + 1..]);
      var paid := indegree[child := indegree[child] - 1];
      var longer := if paid[child] == 0 then Sort(ready + [child]) else ready;
      PayOne(deps, indegree, done, ready, multiset(list[t..]), child, paid, longer);
      indegree, ready := paid, longer;
    }
    assert list[|list|..] == [];
  }

  /** The initially ready names, sorted. */
  method InitialReady(ghost deps: Dependencies, indegree: map<Name, int>) returns (ready: seq<Name>)
    requires indegree.Keys == deps.Keys && forall n :: n in deps ==> indegree[n] == |deps[n]|
    ensures CountsOwe(deps, indegree, [], multiset{}) && IsReadyList(deps, indegree, [], ready)
  {
    var open := set n | n in indegree && indegree[n] == 0;
    ready := [];
    ghost var listed: set<Name> := {};
    var rest := open;
    while rest != {}
      invariant rest <= open && IsSorted(ready)
      invariant forall n :: multiset(ready)[n] == if n in open && n !in rest then 1 else 0
      decreases |rest|
    {
      var member := SomeMember(rest);
      var n :| n in rest;
      SortFacts(ready + [n]);
      ready, rest := Sort(ready + [n]), rest - {n};
    }
    forall n | n in deps ensures indegree[n] == Waiting(deps[n], []) {
      WaitingInitially(deps[n]);
    }
  }

  /** Where the loop stands: what is listed, the counts, and the ready list. */
  ghost predicate InOrder(deps: Dependencies, indegree: map<Name, int>, ordered: seq<Name>, ready: seq<Name>) {
    && Respects(deps, ordered)
    && CountsOwe(deps, indegree, ordered, multiset{}) && IsReadyList(deps, indegree, ordered, ready)
  }

  /** List the smallest ready stage and pay its children. */
  method ListOne(
      ghost deps: Dependencies, indegree0: map<Name, int>, children: map<Name, seq<Name>>, ghost ordered: seq<Name>,
      ready0: seq<Name>)
    returns (indegree: map<Name, int>, ready: seq<Name>)
    requires AreChildren(deps, children) && InOrder(deps, indegree0, ordered, ready0) && ready0 != []
    ensures IsLeast(ready0[0], Ready(deps, ordered))
    ensures InOrder(deps, indegree, ordered + [ready0[0]], ready)
  {
    var name := ready0[0];
    ReadyListIsReady(deps, indegree0, ordered, ready0);
    ListNext(deps, children, indegree0, ordered, ready0);
    SortFacts(children[name]);
    MembersOfSort(children[name]);
    indegree, ready := PayChildren(deps, indegree0, ready0[1..], ordered + [name], Sort(children[name]));
  }

  /** The names of the stages in greedy order. */
  method ListNames(ghost deps: Dependencies, indegree0: map<Name, int>, children: map<Name, seq<Name>>)
    returns (ordered: seq<Name>)
    requires Tallies(deps, indegree0, children)
    ensures ordered == Greedy(deps, [])
  {
    var indegree := indegree0;
    var ready := InitialReady(deps, indegree);
    ordered := [];
    while ready != []
      invariant InOrder(deps, indegree, ordered, ready) && Greedy(deps, ordered) == Greedy(deps, [])
      decreases |Remaining(deps, ordered)|
    {
      var name := ready[0];
      ghost var before := ordered;
      indegree, ready := ListOne(deps, indegree, children, ordered, ready);
      GreedyStep(deps, before, name);
      ordered := ordered + [name];
    }
    NothingReady(deps, indegree, ordered, ready);
  }

  lemma NothingReady(deps: Dependencies, indegree: map<Name, int>, ordered: seq<Name>, ready: seq<Name>)
    requires InOrder(deps, indegree, ordered, ready) && ready == []
    ensures Greedy(deps, ordered) == ordered
  {
    ReadyListIsReady(deps, indegree, ordered, ready);
  }

  lemma MembersOfSort(s: seq<Name>)
    ensures forall v :: v in Sort(s) <==> v in s
  {
    SortFacts(s);
    forall v ensures v in Sort(s) <==> v in s {
      assert v in multiset(Sort(s)) <==> v in multiset(s);
    }
  }

  function StageNamed(nodes: seq<Stage>, name: Name): (s: Stage)
    requires name in DependenciesOf(nodes)
    ensures s in nodes && s.id == name
  {
    if nodes[|nodes| - 1].id == name then nodes[|nodes| - 1] else StageNamed(nodes[..|nodes| - 1], name)
  }

  function Ids(nodes: seq<Stage>): (ids: seq<Name>)
    ensures |ids| == |nodes|
  {
    seq(|nodes|, i requires 0 <= i < |nodes| => nodes[i].id)
  }

  /** The last stage listed under its name, which is the one the name stands for. */
  ghost predicate IsLastNamed(nodes: seq<Stage>, s: Stage) {
    exists i :: 0 <= i < |nodes| && nodes[i] == s && forall j :: i < j < |nodes| ==> nodes[j].id != s.id
  }

  lemma {:induction false} StageNamedIsLast(nodes: seq<Stage>, name: Name)
    requires name in DependenciesOf(nodes)
    ensures IsLastNamed(nodes, StageNamed(nodes, name))
  {
    var n, s := |nodes| - 1, StageNamed(nodes, name);
    if nodes[n].id == name {
      assert nodes[n] == s;
    } else {
      StageNamedIsLast(nodes[..n], name);
      var i :| 0 <= i < n && nodes[..n][i] == s && forall j :: i < j < n ==> nodes[..n][j].id != s.id;
      assert nodes[i] == s;
      forall j | i < j < |nodes| ensures nodes[j].id != s.id {
        assert j < n ==> nodes[..n][j] == nodes[j];
      }
    }
  }

  /** The stages behind the ordered names. */
  method ListStages(nodes: seq<Stage>, names: seq<Name>) returns (ordered: seq<Stage>)
    requires forall n :: n in names ==> n in DependenciesOf(nodes)
    ensures Ids(ordered) == names && forall s :: s in ordered ==> IsLastNamed(nodes, s)
  {
    ordered := [];
    for i := 0 to |names|
      invariant |ordered| == i
      invariant forall q :: 0 <= q < i ==> IsLastNamed(nodes, ordered[q]) && ordered[q].id == names[q]
    {
      StageNamedIsLast(nodes, names[i]);
      ordered := ordered + [StageNamed(nodes, names[i])];
    }
  }

  /** The greedy-smallest order of the stages, or the reason there is none: a dependency
      that names no stage, or else a cycle. */
  method TopologicalNodes(nodes: seq<Stage>) returns (result: Result<seq<Stage>, GraphError>)
    ensures result.Ok? <==> Closed(DependenciesOf(nodes)) && !Cyclic(DependenciesOf(nodes))
    ensures result.Err? ==> (result.error.DependsOnMissing? <==> !Closed(DependenciesOf(nodes)))
    ensures result.Err? && result.error.DependsOnMissing? ==>
      LacksDependency(nodes, result.error.stage, result.error.dependency)
    ensures result.Ok? ==> Ids(result.value) == Greedy(DependenciesOf(nodes), [])
    ensures result.Ok? ==> Members(Ids(result.value)) == DependenciesOf(nodes).Keys
    ensures result.Ok? ==> forall s :: s in result.value ==> IsLastNamed(nodes, s)
  {
    var error, indegree, children := TallyAll(nodes);
    if error.Some? { return Err(error.value); }
    var deps := DependenciesOf(nodes);
    var names := ListNames(deps, indegree, children);
    GreedyCompleteIffAcyclic(deps);
    if |names| != |deps| { return Err(CycleFound); }
    assert forall n :: n in names ==> n in Members(names);
    var ordered := ListStages(nodes, names);
    return Ok(ordered);
  }

  lemma {:induction false} DependencyCount(nodes: seq<Stage>)
    requires UniqueIds(nodes)
    ensures |DependenciesOf(nodes)| == |nodes|
  {
    if nodes != [] {
      var front, last := nodes[..|nodes| - 1], nodes[|nodes| - 1];
      DependencyCount(front);
      if last.id in DependenciesOf(front) {
        var j := StageAt(front, last.id);
      }
    }
  }

  /** Under unique names a name stands for one stage. */
  lemma OneStagePerName(nodes: seq<Stage>, s: Stage, t: Stage)
    requires UniqueIds(nodes) && s in nodes && IsLastNamed(nodes, t) && s.id == t.id
    ensures s == t
  {
    var i :| 0 <= i < |nodes| && nodes[i] == s;
    var j :| 0 <= j < |nodes| && nodes[j] == t;
  }

  /** With unique names the ordered stages are the listed ones. */
  lemma SameStages(nodes: seq<Stage>, ordered: seq<Stage>)
    requires UniqueIds(nodes) && NoDuplicates(Ids(ordered)) && Members(Ids(ordered)) == DependenciesOf(nodes).Keys
    requires forall s :: s in ordered ==> IsLastNamed(nodes, s)
    ensures |ordered| == |nodes| && forall s :: s in ordered <==> s in nodes
  {
    DependencyCount(nodes);
    NoDuplicatesCardinality(Ids(ordered));
    forall i | 0 <= i < |nodes| ensures nodes[i] in ordered {
      ListedIsNamed(nodes, i);
      assert nodes[i].id in Members(Ids(ordered));
      var q :| 0 <= q < |ordered| && Ids(ordered)[q] == nodes[i].id;
      OneStagePerName(nodes, nodes[i], ordered[q]);
    }
  }
}
