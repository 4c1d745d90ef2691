/** Stage graphs and their topological order. Names are integers ordered as the strings
    they stand for. */
module StageGraph {
  import opened Exactness

  type Name = int

  datatype Operation = Indexer | TopK | Output | Unknown

  datatype Stage = Stage(
    id: Name, dependencies: seq<Name>, consumes: seq<Name>, produces: seq<Name>, operations: seq<Operation>)

  /** Each stage's dependency list, duplicates included. */
  type Dependencies = map<Name, seq<Name>>

  ghost predicate UniqueIds(nodes: seq<Stage>) {
    forall i, j :: 0 <= i < j < |nodes| ==> nodes[i].id != nodes[j].id
  }

  function EntriesOf(deps: Dependencies, n: Name): seq<Name> {
    if n in deps then deps[n] else []
  }

  /** The dependencies with more entries for one stage. */
  function Extended(deps: Dependencies, n: Name, more: seq<Name>): Dependencies {
    deps[n := EntriesOf(deps, n) + more]
  }

  /** Stages listed under one name pool their dependencies. */
  function DependenciesOf(nodes: seq<Stage>): Dependencies {
    if nodes == [] then map[]
    else
      Extended(DependenciesOf(nodes[..|nodes| - 1]), nodes[|nodes| - 1].id, nodes[|nodes| - 1].dependencies)
  }

  lemma {:induction false} DependenciesAt(nodes: seq<Stage>, i: nat)
    requires UniqueIds(nodes) && i < |nodes|
    ensures nodes[i].id in DependenciesOf(nodes) && DependenciesOf(nodes)[nodes[i].id] == nodes[i].dependencies
  {
    var front := nodes[..|nodes| - 1];
    if i < |front| {
      DependenciesAt(front, i);
    } else if nodes[i].id in DependenciesOf(front) {
      var j := StageAt(front, nodes[i].id);
    }
  }

  lemma {:induction false} StageAt(nodes: seq<Stage>, n: Name) returns (i: nat)
    requires n in DependenciesOf(nodes)
    ensures i < |nodes| && nodes[i].id == n
  {
    if nodes[|nodes| - 1].id == n {
      i := |nodes| - 1;
    } else {
      i := StageAt(nodes[..|nodes| - 1], n);
    }
  }

  lemma SameEntry(a: seq<Stage>, b: seq<Stage>, n: Name)
    requires UniqueIds(a) && UniqueIds(b) && multiset(a) == multiset(b) && n in DependenciesOf(a)
    ensures n in DependenciesOf(b) && DependenciesOf(b)[n] == DependenciesOf(a)[n]
  {
    var i := StageAt(a, n);
    assert a[i] in multiset(b);
    var j :| 0 <= j < |b| && b[j] == a[i];
    DependenciesAt(a, i);
    DependenciesAt(b, j);
  }

  /** Listing the nodes in another order does not change the dependencies. */
  lemma SameStagesSameDependencies(a: seq<Stage>, b: seq<Stage>)
    requires UniqueIds(a) && UniqueIds(b) && multiset(a) == multiset(b)
    ensures DependenciesOf(a) == DependenciesOf(b)
  {
    forall n | n in DependenciesOf(a) ensures n in DependenciesOf(b) && DependenciesOf(b)[n] == DependenciesOf(a)[n] {
      SameEntry(a, b, n);
    }
    forall n | n in DependenciesOf(b) ensures n in DependenciesOf(a) {
      SameEntry(b, a, n);
    }
  }

  // ---------- the greedy order ----------

  predicate AllIn(names: seq<Name>, done: seq<Name>) {
    forall d :: d in names ==> d in done
  }

  /** The stages not yet listed whose dependencies all are. */
  ghost function Ready(deps: Dependencies, done: seq<Name>): set<Name> {
    set n | n in deps && n !in done && AllIn(deps[n], done)
  }

  ghost function Remaining(deps: Dependencies, done: seq<Name>): set<Name> {
    set n | n in deps && n !in done
  }

  ghost predicate IsLeast(x: Name, names: set<Name>) {
    x in names && forall y :: y in names ==> x <= y
  }

  ghost function Least(names: set<Name>): (least: Name)
    requires names != {}
    ensures IsLeast(least, names)
    decreases |names|
  {
    assert exists x :: x in names by { var x := SomeMember(names); }
    var x :| x in names;
    assert names == (names - {x}) + {x};
    if names - {x} == {} then x
    else
      var rest := Least(names - {x});
      if rest < x then rest else x
  }

  /** Keep listing the smallest ready stage until none is. */
  ghost function Greedy(deps: Dependencies, done: seq<Name>): seq<Name>
    decreases |Remaining(deps, done)|
  {
    var ready := Ready(deps, done);
    if ready == {} then done
    else
      var next := Least(ready);
      assert Remaining(deps, done + [next]) == Remaining(deps, done) - {next};
      Greedy(deps, done + [next])
  }

  /** Listing the least ready stage is the next step of the greedy order. */
  lemma GreedyStep(deps: Dependencies, done: seq<Name>, next: Name)
    requires IsLeast(next, Ready(deps, done))
    ensures Greedy(deps, done) == Greedy(deps, done + [next])
    ensures |Remaining(deps, done + [next])| < |Remaining(deps, done)|
  {
    assert Least(Ready(deps, done)) == next;
    assert Remaining(deps, done + [next]) == Remaining(deps, done) - {next};
  }

  /** No stage twice, and every stage after all its dependencies. */
  ghost predicate Respects(deps: Dependencies, order: seq<Name>) {
    && NoDuplicates(order)
    && forall i :: 0 <= i < |order| ==> order[i] in deps && AllIn(deps[order[i]], order[..i])
  }

  lemma RespectsExtends(deps: Dependencies, order: seq<Name>, next: Name)
    requires Respects(deps, order) && next in Ready(deps, order)
    ensures Respects(deps, order + [next])
  {
    var longer := order + [next];
    forall i | 0 <= i < |longer| ensures longer[i] in deps && AllIn(deps[longer[i]], longer[..i]) {
      if i < |order| {
        assert longer[..i] == order[..i];
      } else {
        assert longer[..i] == order;
      }
    }
  }

  /** The greedy order continues what is listed, respects the dependencies and stops only
      when nothing is ready. */
  lemma {:induction false} GreedyRespects(deps: Dependencies, done: seq<Name>)
    requires Respects(deps, done)
    ensures Respects(deps, Greedy(deps, done)) && done <= Greedy(deps, done) && Ready(deps, Greedy(deps, done)) == {}
    decreases |Remaining(deps, done)|
  {
    var ready := Ready(deps, done);
    if ready != {} {
      var next := Least(ready);
      assert Remaining(deps, done + [next]) == Remaining(deps, done) - {next};
      RespectsExtends(deps, done, next);
      GreedyRespects(deps, done + [next]);
    }
  }

  /** Every entry is the smallest stage that was ready when it was listed. */
  ghost predicate IsGreedySmallest(deps: Dependencies, order: seq<Name>) {
    && (forall i :: 0 <= i < |order| ==> IsLeast(order[i], Ready(deps, order[..i])))
    && Ready(deps, order) == {}
  }

  lemma GreedyAt(deps: Dependencies, order: seq<Name>, n: nat)
    requires n < |order| && IsLeast(order[n], Ready(deps, order[..n]))
    ensures Greedy(deps, order[..n]) == Greedy(deps, order[..n + 1])
  {
    assert order[..n] + [order[n]] == order[..n + 1];
    GreedyStep(deps, order[..n], order[n]);
  }

  /** There is only one such order. */
  lemma {:induction false} GreedySmallestIsUnique(deps: Dependencies, order: seq<Name>, n: nat)
    requires IsGreedySmallest(deps, order) && n <= |order|
    ensures Greedy(deps, order[..n]) == order
    decreases |order| - n
  {
    if n == |order| {
      assert order[..n] == order;
    } else {
      GreedySmallestIsUnique(deps, order, n + 1);
      GreedyAt(deps, order, n);
    }
  }

  lemma {:induction false} GreedyIsSmallest(deps: Dependencies, done: seq<Name>)
    requires forall i :: 0 <= i < |done| ==> IsLeast(done[i], Ready(deps, done[..i]))
    ensures IsGreedySmallest(deps, Greedy(deps, done))
    decreases |Remaining(deps, done)|
  {
    var ready := Ready(deps, done);
    if ready != {} {
      var next := Least(ready);
      var longer := done + [next];
      assert Remaining(deps, longer) == Remaining(deps, done) - {next};
      forall i | 0 <= i < |longer| ensures IsLeast(longer[i], Ready(deps, longer[..i])) {
        assert longer[..i] == if i < |done| then done[..i] else done;
      }
      GreedyIsSmallest(deps, longer);
    }
  }

  /** However the stages are listed, the order is the same one. */
  lemma OrderIgnoresListing(a: seq<Stage>, b: seq<Stage>, order: seq<Name>)
    requires UniqueIds(a) && UniqueIds(b) && multiset(a) == multiset(b)
    ensures IsGreedySmallest(DependenciesOf(a), order) <==> order == Greedy(DependenciesOf(b), [])
  {
    SameStagesSameDependencies(a, b);
    GreedyIsSmallest(DependenciesOf(b), []);
    if IsGreedySmallest(DependenciesOf(a), order) {
      GreedySmallestIsUnique(DependenciesOf(a), order, 0);
    }
  }

  // ---------- cycles ----------

  /** Every dependency is itself a stage. */
  predicate Closed(deps: Dependencies) {
    forall n, d :: n in deps && d in deps[n] ==> d in deps
  }

  /** Each stage depends on the next. */
  ghost predicate IsWalk(deps: Dependencies, path: seq<Name>) {
    && path != []
    && (forall i :: 0 <= i < |path| ==> path[i] in deps)
    && forall i :: 0 <= i < |path| - 1 ==> path[i + 1] in deps[path[i]]
  }

  /** A walk whose last stage depends on the first. */
  ghost predicate IsCycle(deps: Dependencies, c: seq<Name>) {
    IsWalk(deps, c) && c[0] in deps[c[|c| - 1]]
  }

  ghost predicate Cyclic(deps: Dependencies) {
    exists c :: IsCycle(deps, c)
  }

  lemma {:induction false} CycleFalls(deps: Dependencies, order: seq<Name>, c: seq<Name>, p: nat, i: nat)
    returns (q: nat)
    requires Respects(deps, order) && IsCycle(deps, c) && p < |order| && order[p] == c[0] && i < |c|
    ensures q <= p && order[q] == c[i]
  {
    if i == 0 {
      q := p;
    } else {
      var before := CycleFalls(deps, order, c, p, i - 1);
      assert c[i - 1 + 1] in deps[c[i - 1]];
      assert AllIn(deps[order[before]], order[..before]);
      q :| 0 <= q < before && order[..before][q] == c[i];
    }
  }

  /** A complete order leaves no room for a cycle. */
  lemma CompleteIsAcyclic(deps: Dependencies, order: seq<Name>)
    requires Respects(deps, order) && forall n :: n in deps ==> n in order
    ensures !Cyclic(deps)
  {
    if c :| IsCycle(deps, c) {
      assert c[0] in deps;
      var p :| 0 <= p < |order| && order[p] == c[0];
      var q := CycleFalls(deps, order, c, p, |c| - 1);
      assert AllIn(deps[order[q]], order[..q]);
    }
  }

  ghost predicate DependsInside(deps: Dependencies, stuck: set<Name>, n: Name) {
    n in deps && exists d :: d in deps[n] && d in stuck
  }

  lemma TailIsWalk(deps: Dependencies, path: seq<Name>, i: nat)
    requires IsWalk(deps, path) && i < |path|
    ensures IsWalk(deps, path[i..])
  {
    var c := path[i..];
    forall j | 0 <= j < |c| - 1 ensures c[j + 1] in deps[c[j]] {
      assert path[i + j + 1] in deps[path[i + j]];
    }
  }

  lemma LongerWalk(deps: Dependencies, path: seq<Name>, d: Name)
    requires IsWalk(deps, path) && d in deps && d in deps[path[|path| - 1]]
    ensures IsWalk(deps, path + [d])
  {
    var longer := path + [d];
    forall j | 0 <= j < |longer| - 1 ensures longer[j + 1] in deps[longer[j]] {
      if j < |path| - 1 { assert path[j + 1] in deps[path[j]]; }
    }
  }

  /** A walk that comes back to itself contains a cycle. */
  lemma ReturnIsCycle(deps: Dependencies, path: seq<Name>, d: Name)
    requires IsWalk(deps, path) && d in path && d in deps[path[|path| - 1]]
    ensures Cyclic(deps)
  {
    var i :| 0 <= i < |path| && path[i] == d;
    TailIsWalk(deps, path, i);
    assert IsCycle(deps, path[i..]);
  }

  lemma FewerLeft(stuck: set<Name>, path: seq<Name>, d: Name)
    requires Members(path) <= stuck && d in stuck && d !in path
    ensures Members(path + [d]) <= stuck && |stuck - Members(path + [d])| < |stuck - Members(path)|
  {
    assert Members(path + [d]) == Members(path) + {d};
    assert stuck - Members(path) == (stuck - Members(path + [d])) + {d};
  }

  /** Following unlisted dependencies around a stuck set must close a cycle. */
  lemma {:induction false} WalkClosesCycle(deps: Dependencies, stuck: set<Name>, path: seq<Name>)
    requires forall n :: n in stuck ==> DependsInside(deps, stuck, n)
    requires IsWalk(deps, path) && NoDuplicates(path) && Members(path) <= stuck
    ensures Cyclic(deps)
    decreases |stuck - Members(path)|
  {
    var last := path[|path| - 1];
    assert last in Members(path);
    var d :| d in deps[last] && d in stuck;
    if d in path {
      ReturnIsCycle(deps, path, d);
    } else {
      assert DependsInside(deps, stuck, d);
      LongerWalk(deps, path, d);
      FewerLeft(stuck, path, d);
      WalkClosesCycle(deps, stuck, path + [d]);
    }
  }

  lemma StuckDependsInside(deps: Dependencies, order: seq<Name>, n: Name)
    requires Closed(deps) && Ready(deps, order) == {} && n in Remaining(deps, order)
    ensures DependsInside(deps, Remaining(deps, order), n)
  {
    assert n !in Ready(deps, order);
    var d :| d in deps[n] && d !in order;
    assert d in Remaining(deps, order);
  }

  lemma CompleteListing(deps: Dependencies, order: seq<Name>)
    requires Respects(deps, order) && Remaining(deps, order) == {}
    ensures Members(order) == deps.Keys && !Cyclic(deps)
  {
    forall n | n in deps ensures n in order {
      assert n !in Remaining(deps, order);
    }
    forall n | n in Members(order) ensures n in deps {
      var i :| 0 <= i < |order| && order[i] == n;
    }
    CompleteIsAcyclic(deps, order);
  }

  lemma StuckListing(deps: Dependencies, order: seq<Name>)
    requires Closed(deps) && Respects(deps, order) && Ready(deps, order) == {} && Remaining(deps, order) != {}
    ensures Members(order) < deps.Keys && Cyclic(deps)
  {
    var stuck := Remaining(deps, order);
    forall n | n in stuck ensures DependsInside(deps, stuck, n) {
      StuckDependsInside(deps, order, n);
    }
    forall n | n in Members(order) ensures n in deps {
      var i :| 0 <= i < |order| && order[i] == n;
    }
    var n := SomeMember(stuck);
    assert n in deps.Keys && n !in Members(order);
    WalkClosesCycle(deps, stuck, [n]);
  }

  /** The greedy order lists every stage exactly when there is no cycle. */
  lemma GreedyCompleteIffAcyclic(deps: Dependencies)
    requires Closed(deps)
    ensures |Greedy(deps, [])| == |deps| <==> !Cyclic(deps)
    ensures !Cyclic(deps) ==> Members(Greedy(deps, [])) == deps.Keys
  {
    var order := Greedy(deps, []);
    GreedyRespects(deps, []);
    NoDuplicatesCardinality(order);
    if Remaining(deps, order) == {} {
      CompleteListing(deps, order);
    } else {
      StuckListing(deps, order);
      SubsetCardinality(Members(order), deps.Keys);
    }
  }
}
