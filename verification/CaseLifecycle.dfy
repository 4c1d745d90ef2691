/** One benchmark case: two fixtures, their reference oracles, and the candidate that is
    prepared once and must be exact on both. Tensor content stands for its own digest. */
module CaseLifecycle {
  import opened Arithmetic
  import opened Exactness
  import opened RadixSelect
  import opened Outcomes
  import opened OutputValidation
  import opened ScoreOracle

  type Content = int

  type Rows = seq<seq<int>>

  /** One execution of a graph: the iteration number it is told and the content it reads. */
  datatype Run = Run(iteration: int, content: Content)

  /** A prepared graph: what it returns, and the in-place writes it makes to its input while
      running. It keeps its workspaces, so both may depend on all of its runs so far, the
      current one last. */
  datatype Prepared = Prepared(output: seq<Run> -> Rows, writes: seq<Run> -> seq<Content>)

  /** Preparation sees fixture A's content and may keep whatever it likes of it. */
  datatype Plugin = Plugin(supported: bool, prepare: Content -> Prepared, preparationWrites: Content -> seq<Content>)

  /** One fixture's tensors. Every in-place write raises the version counter. */
  class Inputs {
    var content: Content
    var version: nat

    constructor (content: Content, version: nat)
      ensures this.content == content && this.version == version
    {
      this.content, this.version := content, version;
    }

    method Apply(writes: seq<Content>)
      modifies this
      ensures version == old(version) + |writes|
      ensures content == if writes == [] then old(content) else writes[|writes| - 1]
    {
      for w := 0 to |writes|
        invariant version == old(version) + w && content == if w == 0 then old(content) else writes[w - 1]
      {
        content, version := writes[w], version + 1;
      }
    }
  }

  datatype Oracle = Oracle(indices: Rows, ties: map<nat, TieRow>)

  datatype LifecycleError =
    | UnknownFixture | NoOracles | NoCandidate | Unsupported | OracleRejected | OutputRejected | InputsChanged

  const FIXTURES: nat := 2

  /** The recorded oracle is a correct oracle for the scores. */
  ghost predicate OracleFits(oracle: Oracle, scores: seq<seq<nat>>, c: Case)
    requires c.Valid()
  {
    && ShapeMatches(scores, c.queryTokens, c.contextTokens)
    && WellFormed(oracle.indices, c) && AllExact(scores, oracle.indices, c) && IsOracle(scores, c, oracle.ties)
  }

  /** The reference scores of a content: what the reference graph's logits are. */
  ghost predicate TruthValid(truth: Content -> seq<seq<nat>>, c: Case)
    requires c.Valid()
  {
    forall x :: ShapeMatches(truth(x), c.queryTokens, c.contextTokens) && ScoresValid(truth(x), c)
  }

  /** The rows of the last of these runs are exact for the content it read, and it wrote to
      nothing. */
  ghost predicate RunPasses(graph: Prepared, truth: Content -> seq<seq<nat>>, runs: seq<Run>, c: Case)
    requires c.Valid() && TruthValid(truth, c) && runs != []
  {
    graph.writes(runs) == [] && AllExact(truth(runs[|runs| - 1].content), graph.output(runs), c)
  }

  /** The rows pass the reference's own gate. */
  ghost predicate ReferenceAccepted(rows: Rows, scores: seq<seq<nat>>, c: Case)
    requires c.Valid() && ShapeMatches(scores, c.queryTokens, c.contextTokens) && ScoresValid(scores, c)
  {
    TensorAccepts(rows, c) && FiniteCutoffs(scores, c) && AllExact(scores, rows, c)
  }

  /** The last of these runs of the reference wrote to nothing and is accepted. */
  ghost predicate GoodReference(graph: Prepared, truth: Content -> seq<seq<nat>>, runs: seq<Run>, c: Case)
    requires c.Valid() && TruthValid(truth, c) && runs != []
  {
    graph.writes(runs) == [] && ReferenceAccepted(graph.output(runs), truth(runs[|runs| - 1].content), c)
  }

  class Lifecycle {
    const c: Case
    const truth: Content -> seq<seq<nat>>
    const inputs: seq<Inputs>
    const contentBefore: seq<Content>
    const versionBefore: seq<nat>
    var oracles: map<nat, Oracle>
    var candidate: Option<Prepared>
    /** The candidate's executions since it was prepared. */
    var runs: seq<Run>
    var integrityChecks: seq<string>

    /** Fixture `f` has not been written to since it was created. */
    ghost predicate Pristine(f: nat)
      requires f < |inputs| == |versionBefore|
      reads inputs[f]
    {
      inputs[f].version == versionBefore[f]
    }

    ghost predicate Shape()
    {
      && c.Valid() && SentinelUnused(c) && TruthValid(truth, c)
      && |inputs| == |contentBefore| == |versionBefore| == FIXTURES
      && inputs[0] != inputs[1] && contentBefore[0] != contentBefore[1]
    }

    /** Versions never fall behind, an untouched version means untouched content, and the
        oracles of untouched fixtures are correct. */
    ghost predicate Valid()
      reads this, inputs
    {
      && Shape()
      && (forall f :: 0 <= f < FIXTURES ==>
            inputs[f].version >= versionBefore[f] && (Pristine(f) ==> inputs[f].content == contentBefore[f]))
      && forall f :: f in oracles ==>
           f < FIXTURES && (Pristine(f) ==> OracleFits(oracles[f], truth(contentBefore[f]), c))
    }

    /** Two fixtures; the caller has checked that their contents differ. */
    constructor (c: Case, truth: Content -> seq<seq<nat>>, a: Inputs, b: Inputs)
      requires c.Valid() && SentinelUnused(c) && TruthValid(truth, c)
      requires a != b && a.content != b.content
      ensures Valid() && oracles == map[] && candidate == None && runs == [] && integrityChecks == []
      ensures inputs == [a, b] && this.c == c && this.truth == truth
      ensures contentBefore == [a.content, b.content] && forall f :: 0 <= f < FIXTURES ==> Pristine(f)
    {
      this.c, this.truth, inputs := c, truth, [a, b];
      contentBefore, versionBefore := [a.content, b.content], [a.version, b.version];
      oracles, candidate, runs, integrityChecks := map[], None, [], [];
    }

    /** Appends a passed check exactly when no fixture has been written to. */
    method VerifyInputIntegrity(phase: string) returns (ok: bool)
      requires Valid()
      modifies this`integrityChecks
      ensures Valid() && (ok <==> forall f :: 0 <= f < FIXTURES ==> Pristine(f))
      ensures integrityChecks == if ok then old(integrityChecks) + [phase] else old(integrityChecks)
    {
      ok := true;
      for f := 0 to FIXTURES
        invariant ok <==> forall g :: 0 <= g < f ==> Pristine(g)
      {
        assert Pristine(f) ==> inputs[f].content == contentBefore[f];
        ok := ok && inputs[f].content == contentBefore[f] && inputs[f].version == versionBefore[f];
      }
      if ok { integrityChecks := integrityChecks + [phase]; }
    }

    /** Run a graph, with the given runs behind it, on the fixture's current content. */
    method Execute(graph: Prepared, history: seq<Run>, f: nat, iteration: int) returns (rows: Rows, after: seq<Run>)
      requires Valid() && f < FIXTURES
      modifies inputs[f]
      ensures Valid() && after == history + [Run(iteration, old(inputs[f].content))] && rows == graph.output(after)
      ensures Pristine(f) <==> old(Pristine(f)) && graph.writes(history + [Run(iteration, contentBefore[f])]) == []
      ensures forall g :: 0 <= g < FIXTURES && g != f ==> (Pristine(g) <==> old(Pristine(g)))
    {
      after := history + [Run(iteration, inputs[f].content)];
      rows := graph.output(after);
      inputs[f].Apply(graph.writes(after));
      assert forall g :: 0 <= g < FIXTURES && g != f ==> inputs[g] != inputs[f];
    }

    /** The graph a plugin prepares, always on fixture A. */
    method Prepare(plugin: Plugin) returns (graph: Option<Prepared>)
      requires Valid()
      modifies inputs[0]
      ensures Valid() && (graph == None <==> !plugin.supported)
      ensures graph.Some? && old(Pristine(0)) ==> graph.value == plugin.prepare(contentBefore[0])
      ensures Pristine(0) <==>
        old(Pristine(0)) && (plugin.supported ==> plugin.preparationWrites(contentBefore[0]) == [])
      ensures Pristine(1) <==> old(Pristine(1))
    {
      if !plugin.supported { return None; }
      var seen := inputs[0].content;
      graph := Some(plugin.prepare(seen));
      inputs[0].Apply(plugin.preparationWrites(seen));
      assert inputs[1] != inputs[0];
    }

    /** Run the reference on one fixture and keep its oracle. */
    method BuildOracle(graph: Prepared, history: seq<Run>, f: nat, iteration: int) returns (ok: bool, after: seq<Run>)
      requires Valid() && f < FIXTURES
      modifies this`oracles, inputs[f]
      ensures Valid()
      ensures old(Pristine(f)) ==> after == history + [Run(iteration, contentBefore[f])]
      ensures ok && Pristine(f) <==>
        old(Pristine(f)) && GoodReference(graph, truth, history + [Run(iteration, contentBefore[f])], c)
      ensures ok ==> oracles.Keys == old(oracles).Keys + {f}
      ensures !ok ==> oracles == old(oracles)
      ensures Pristine(f) ==> old(Pristine(f))
      ensures forall g :: 0 <= g < FIXTURES && g != f ==> (Pristine(g) <==> old(Pristine(g)))
    {
      var seen := inputs[f].content;
      assert Pristine(f) ==> seen == contentBefore[f];
      var rows;
      rows, after := Execute(graph, history, f, iteration);
      var built := BuildScoreThresholdOracle(truth(seen), rows, c);
      ok := built.Ok?;
      if ok {
        AgreeWhenUnused(rows, c);
        oracles := oracles[f := Oracle(rows, built.value)];
      }
    }

    /** Both oracles: A as iteration 0, then B as iteration 1. */
    method BuildBoth(graph: Prepared) returns (ok: bool)
      requires Valid()
      modifies this`oracles, inputs[0], inputs[1]
      ensures Valid()
      ensures ok && Pristine(0) && Pristine(1) <==>
        && old(Pristine(0)) && old(Pristine(1))
        && ReferenceRunsWell(graph, truth, contentBefore[0], contentBefore[1], c)
      ensures ok ==> 0 in oracles && 1 in oracles
    {
      var after;
      ok, after := BuildOracle(graph, [], 0, 0);
      assert [] + [Run(0, contentBefore[0])] == [Run(0, contentBefore[0])];
      if ok {
        assert [Run(0, contentBefore[0])] + [Run(1, contentBefore[1])] ==
               [Run(0, contentBefore[0]), Run(1, contentBefore[1])];
        ok, after := BuildOracle(graph, after, 1, 1);
      }
    }

    /** Compute both oracles, then check that nothing was written. A rejected fixture ends the
        run and leaves whatever oracle was already there. */
    method BuildOracles(reference: Plugin) returns (error: Option<LifecycleError>)
      requires Valid()
      modifies this`oracles, this`integrityChecks, inputs[0], inputs[1]
      ensures Valid()
      ensures error == None <==>
        && old(Pristine(0)) && old(Pristine(1))
        && reference.supported && reference.preparationWrites(contentBefore[0]) == []
        && ReferenceRunsWell(reference.prepare(contentBefore[0]), truth, contentBefore[0], contentBefore[1], c)
      ensures error == Some(Unsupported) <==> !reference.supported
      ensures error == None ==> 0 in oracles && 1 in oracles && forall f :: 0 <= f < FIXTURES ==> Pristine(f)
      ensures integrityChecks == old(integrityChecks) + if error == None then ["before_candidate"] else []
    {
      var graph := Prepare(reference);
      if graph.None? { return Some(Unsupported); }
      var built := BuildBoth(graph.value);
      if !built { return Some(OracleRejected); }
      var intact := VerifyInputIntegrity("before_candidate");
      assert intact <==> Pristine(0) && Pristine(1);
      error := if intact then None else Some(InputsChanged);
    }

    /** Prepare the candidate on fixture A. */
    method PrepareCandidate(plugin: Plugin) returns (error: Option<LifecycleError>)
      requires Valid()
      modifies this`candidate, this`runs, this`integrityChecks, inputs[0]
      ensures Valid()
      ensures error == None <==>
        old(oracles) != map[] && plugin.supported && old(Pristine(0)) && old(Pristine(1)) &&
        plugin.preparationWrites(contentBefore[0]) == []
      ensures error == Some(NoOracles) <==> old(oracles) == map[]
      ensures error == Some(Unsupported) <==> old(oracles) != map[] && !plugin.supported
      ensures error.Some? ==> error.value in {NoOracles, Unsupported, InputsChanged}
      ensures candidate == if error == None then Some(plugin.prepare(contentBefore[0])) else old(candidate)
      ensures runs == if error == None then [] else old(runs)
      ensures integrityChecks == old(integrityChecks) + if error == None then ["candidate_prepare"] else []
      ensures error == None ==> forall f :: 0 <= f < FIXTURES ==> Pristine(f)
    {
      if oracles == map[] { return Some(NoOracles); }
      var graph := Prepare(plugin);
      if graph.None? { return Some(Unsupported); }
      var intact := VerifyInputIntegrity("candidate_prepare");
      if !intact { return Some(InputsChanged); }
      assert Pristine(0) && Pristine(1);
      candidate, runs := graph, [];
      error := None;
    }

    /** The terminal contract and the fixture's own oracle. */
    method ValidateOutputs(rows: Rows, f: nat) returns (error: Option<LifecycleError>)
      requires Valid()
      ensures candidate == None ==> error == Some(NoCandidate)
      ensures candidate.Some? ==> (error == Some(UnknownFixture) <==> f !in oracles)
      ensures candidate.Some? && f in oracles && error.Some? ==> error == Some(OutputRejected)
      ensures f in oracles && OracleFits(oracles[f], truth(contentBefore[f]), c) ==>
        (error == None <==> candidate.Some? && AllExact(truth(contentBefore[f]), rows, c))
    {
      if candidate.None? { return Some(NoCandidate); }
      if f !in oracles { return Some(UnknownFixture); }
      error := JudgeRows(rows, oracles[f], c, truth(contentBefore[f]));
    }

    /** Run and judge one fixture of the check. */
    method CheckFixture(graph: Prepared, f: nat, iteration: int) returns (error: Option<LifecycleError>)
      requires Valid() && candidate == Some(graph)
      modifies this`runs, if f < FIXTURES then {inputs[f]} else {}
      ensures Valid()
      ensures f >= FIXTURES ==> error == Some(UnknownFixture)
      ensures f < FIXTURES ==>
        var next := old(runs) + [Run(iteration, contentBefore[f])];
        && (Pristine(0) && Pristine(1) ==>
              old(Pristine(0)) && old(Pristine(1)) && runs == next && graph.writes(next) == [])
        && (old(Pristine(0)) && old(Pristine(1)) && graph.writes(next) == [] ==> Pristine(0) && Pristine(1))
        && (Pristine(0) && Pristine(1) && f in oracles ==> (error == None <==> RunPasses(graph, truth, next, c)))
    {
      if f >= FIXTURES { return Some(UnknownFixture); }
      var rows;
      rows, runs := Execute(graph, runs, f, iteration);
      error := ValidateOutputs(rows, f);
    }

    /** Where a check stands after the runs of `done`: `clean` says that nothing had been written
        when it started. */
    ghost predicate OnTrack(graph: Prepared, history: seq<Run>, done: seq<nat>, start: int, clean: bool)
      requires Shape()
      reads this, inputs
    {
      && Known(done)
      && (Pristine(0) && Pristine(1) ==> runs == history + CheckRuns(contentBefore, done, start))
      && (0 in oracles && 1 in oracles ==>
            (Pristine(0) && Pristine(1) <==> clean && Passes(graph, truth, history, contentBefore, done, start, c)))
    }

    /** One more run of the check. */
    method CheckNext(graph: Prepared, ghost history: seq<Run>, order: seq<nat>, i: nat, start: int, ghost clean: bool)
      returns (error: Option<LifecycleError>)
      requires Valid() && candidate == Some(graph) && i < |order| && OnTrack(graph, history, order[..i], start, clean)
      modifies this`runs, inputs[0], inputs[1]
      ensures Valid() && (error == None ==> OnTrack(graph, history, order[..i + 1], start, clean))
      ensures error.Some? && 0 in oracles && 1 in oracles ==>
        !(clean && Passes(graph, truth, history, contentBefore, order, start, c))
    {
      PassesOneMore(graph, truth, history, contentBefore, order, i, start, c);
      error := CheckFixture(graph, order[i], start + i);
    }

    /** The check of the candidate: with both oracles in place it passes exactly when nothing
        was ever written to a fixture and every run of the check, on top of all earlier ones,
        is exact for its fixture's original content. */
    method CheckCandidate(phase: string, order: seq<nat>, start: int) returns (error: Option<LifecycleError>)
      requires Valid()
      modifies this`runs, this`integrityChecks, inputs[0], inputs[1]
      ensures Valid()
      ensures candidate == None ==> error == Some(NoCandidate)
      ensures candidate.Some? && 0 in oracles && 1 in oracles ==>
        (error == None <==>
          && old(Pristine(0)) && old(Pristine(1))
          && Passes(candidate.value, truth, old(runs), contentBefore, order, start, c))
      ensures error == None ==> Known(order) && runs == old(runs) + CheckRuns(contentBefore, order, start)
      ensures integrityChecks == if error == None then old(integrityChecks) + [phase] else old(integrityChecks)
    {
      if candidate.None? { return Some(NoCandidate); }
      var graph := candidate.value;
      ghost var clean := Pristine(0) && Pristine(1);
      for i := 0 to |order|
        invariant Valid() && integrityChecks == old(integrityChecks)
        invariant OnTrack(graph, old(runs), order[..i], start, clean)
      {
        error := CheckNext(graph, old(runs), order, i, start, clean);
        if error.Some? { return; }
      }
      assert order[..|order|] == order;
      var intact := VerifyInputIntegrity(phase);
      assert intact <==> Pristine(0) && Pristine(1);
      error := if intact then None else Some(InputsChanged);
    }
  }

  /** The terminal contract, then the comparison with an oracle. */
  method JudgeRows(rows: Rows, oracle: Oracle, c: Case, ghost scores: seq<seq<nat>>)
    returns (error: Option<LifecycleError>)
    requires c.Valid() && SentinelUnused(c) && ShapeMatches(scores, c.queryTokens, c.contextTokens)
    requires ScoresValid(scores, c)
    ensures OracleFits(oracle, scores, c) ==> (error == None <==> AllExact(scores, rows, c))
    ensures error.Some? ==> error == Some(OutputRejected)
  {
    AgreeWhenUnused(rows, c);
    AllWellFormedLists(rows, c);
    AllWellFormedLists(oracle.indices, c);
    if AllExact(scores, rows, c) { ExactIsWellFormed(scores, rows, c); }
    if !TensorAccepts(rows, c) { return Some(OutputRejected); }
    var verdict := CompareTopKIndices(rows, oracle.indices, c, oracle.ties, true);
    if OracleFits(oracle, scores, c) {
      ComparisonDecidesExactness(scores, oracle.indices, rows, c, oracle.ties);
    }
    error := if verdict.Ok? then None else Some(OutputRejected);
  }

  /** The fixtures of a case must differ. */
  method CreateFixtures(c: Case, truth: Content -> seq<seq<nat>>, a: Inputs, b: Inputs)
    returns (created: Option<Lifecycle>)
    requires c.Valid() && SentinelUnused(c) && TruthValid(truth, c) && a != b
    ensures created.Some? <==> a.content != b.content
    ensures created.Some? ==> fresh(created.value) && created.value.Valid() && created.value.inputs == [a, b]
    ensures created.Some? ==> created.value.contentBefore == [a.content, b.content]
    ensures created.Some? ==> created.value.Pristine(0) && created.value.Pristine(1)
    ensures created.Some? ==> created.value.c == c && created.value.truth == truth && created.value.candidate == None
  {
    if a.content == b.content { return None; }
    var life := new Lifecycle(c, truth, a, b);
    created := Some(life);
  }

  /** The reference's run on A, and then its run on B. */
  ghost predicate ReferenceRunsWell(
      graph: Prepared, truth: Content -> seq<seq<nat>>, a: Content, b: Content, c: Case)
    requires c.Valid() && TruthValid(truth, c)
  {
    GoodReference(graph, truth, [Run(0, a)], c) && GoodReference(graph, truth, [Run(0, a), Run(1, b)], c)
  }

  /** The reference is usable: it writes to nothing and its rows are accepted on both fixtures. */
  ghost predicate ReferenceUsable(reference: Plugin, truth: Content -> seq<seq<nat>>, a: Content, b: Content, c: Case)
    requires c.Valid() && TruthValid(truth, c)
  {
    && reference.supported && reference.preparationWrites(a) == []
    && ReferenceRunsWell(reference.prepare(a), truth, a, b, c)
  }

  /** The order names the two fixtures only. */
  predicate Known(order: seq<nat>) {
    forall i :: 0 <= i < |order| ==> order[i] < FIXTURES
  }

  /** The runs of a check on untouched fixtures. */
  function CheckRuns(contents: seq<Content>, order: seq<nat>, start: int): (runs: seq<Run>)
    requires |contents| == FIXTURES && Known(order)
    ensures |runs| == |order|
    ensures forall i :: 0 <= i < |order| ==> runs[i] == Run(start + i, contents[order[i]])
  {
    seq(|order|, i requires 0 <= i < |order| => Run(start + i, contents[order[i]]))
  }

  /** What it takes to pass a check of the fixtures in the given order, after earlier runs. */
  ghost predicate Passes(
      graph: Prepared, truth: Content -> seq<seq<nat>>, history: seq<Run>, contents: seq<Content>, order: seq<nat>,
      start: int, c: Case)
    requires c.Valid() && TruthValid(truth, c) && |contents| == FIXTURES
  {
    Known(order) &&
    forall n :: 0 < n <= |order| ==>
      RunPasses(graph, truth, history + CheckRuns(contents, order, start)[..n], c)
  }

  /** A check stopped after `n` runs has made the first `n` runs of the whole. */
  lemma CheckRunsPrefix(contents: seq<Content>, order: seq<nat>, start: int, n: nat)
    requires |contents| == FIXTURES && n <= |order| && Known(order)
    ensures CheckRuns(contents, order[..n], start) == CheckRuns(contents, order, start)[..n]
  {
  }

  lemma PassesOneMore(
      graph: Prepared, truth: Content -> seq<seq<nat>>, history: seq<Run>, contents: seq<Content>, order: seq<nat>,
      i: nat, start: int, c: Case)
    requires c.Valid() && TruthValid(truth, c) && |contents| == FIXTURES && i < |order| && Known(order[..i])
    ensures Passes(graph, truth, history, contents, order[..i + 1], start, c) <==>
      && Passes(graph, truth, history, contents, order[..i], start, c) && order[i] < FIXTURES
      && RunPasses(graph, truth, history + CheckRuns(contents, order[..i], start) +
                                 [Run(start + i, contents[order[i]])], c)
    ensures Known(order[..i + 1]) <==> order[i] < FIXTURES
    ensures order[i] < FIXTURES ==>
      CheckRuns(contents, order[..i + 1], start) ==
      CheckRuns(contents, order[..i], start) + [Run(start + i, contents[order[i]])]
    ensures Passes(graph, truth, history, contents, order, start, c) ==>
      Passes(graph, truth, history, contents, order[..i + 1], start, c)
  {
    var part, longer := order[..i], order[..i + 1];
    assert longer[i] == order[i] && forall q :: 0 <= q < i ==> longer[q] == part[q];
    if order[i] < FIXTURES {
      var before, after := CheckRuns(contents, part, start), CheckRuns(contents, longer, start);
      assert after == before + [Run(start + i, contents[order[i]])];
      assert history + after[..i + 1] == history + before + [Run(start + i, contents[order[i]])];
      forall n | 0 <= n <= i ensures after[..n] == before[..n] {
      }
      if Known(order) {
        CheckRunsPrefix(contents, order, start, i + 1);
        forall n | 0 <= n <= i + 1 ensures CheckRuns(contents, order, start)[..n] == after[..n] {
        }
      }
    }
  }

  /** The graph returns the same rows whatever it has run on. */
  ghost predicate IgnoresInput(graph: Prepared) {
    forall h, h' :: graph.output(h) == graph.output(h')
  }

  /** The rows may depend on the iteration and on earlier runs, but not on the content read now. */
  ghost predicate IgnoresCurrentInput(graph: Prepared) {
    forall h, i, x, y :: graph.output(h + [Run(i, x)]) == graph.output(h + [Run(i, y)])
  }

  /** No rows are exact for both contents. */
  ghost predicate NoCommonRows(truth: Content -> seq<seq<nat>>, a: Content, b: Content, c: Case)
    requires c.Valid() && TruthValid(truth, c)
  {
    forall rows :: AllExact(truth(a), rows, c) ==> !AllExact(truth(b), rows, c)
  }

  /** An exact row takes every token above its cutoff. */
  lemma HigherIsTaken(row: seq<nat>, end: nat, k: nat, out: seq<int>, id: nat, cutoff: nat, needed: nat)
    requires CausalScores(row, end) && id < end && end > k && IsKthLargest(row, Interval(0, end), k, cutoff, needed)
    requires row[id] > cutoff && IsExactRow(RowKey(row), out, 0, end, k)
    ensures id in SelectedIds(out)
  {
    ExactMeansBetween(row, end, k, cutoff, needed, out);
    assert id in Above(row, end, cutoff);
  }

  /** And none below it. */
  lemma LowerIsLeft(row: seq<nat>, end: nat, k: nat, out: seq<int>, id: nat, cutoff: nat, needed: nat)
    requires CausalScores(row, end) && id < end && end > k && IsKthLargest(row, Interval(0, end), k, cutoff, needed)
    requires row[id] < cutoff && IsExactRow(RowKey(row), out, 0, end, k)
    ensures id !in SelectedIds(out)
  {
    ExactMeansBetween(row, end, k, cutoff, needed, out);
    assert id !in Above(row, end, cutoff) && id !in At(row, end, cutoff);
  }

  /** One such token keeps the fixtures from having any rows in common. */
  lemma SeparatedFixtures(
      truth: Content -> seq<seq<nat>>, a: Content, b: Content, c: Case, r: nat, id: nat,
      cutoff: nat, needed: nat, cutoff': nat, needed': nat)
    requires c.Valid() && TruthValid(truth, c) && r < c.queryTokens && id < c.CausalEnd(r) && c.CausalEnd(r) > c.topK
    requires IsKthLargest(truth(a)[r], Interval(0, c.CausalEnd(r)), c.topK, cutoff, needed)
    requires IsKthLargest(truth(b)[r], Interval(0, c.CausalEnd(r)), c.topK, cutoff', needed')
    requires id < |truth(a)[r]| && truth(a)[r][id] > cutoff && id < |truth(b)[r]| && truth(b)[r][id] < cutoff'
    ensures NoCommonRows(truth, a, b, c)
  {
    assert ScoresValid(truth(a), c) && ScoresValid(truth(b), c);
    forall rows | AllExact(truth(a), rows, c) ensures !RowExact(truth(b)[r], rows[r], c, r) {
      assert RowExact(truth(a)[r], rows[r], c, r);
      HigherIsTaken(truth(a)[r], c.CausalEnd(r), c.topK, rows[r], id, cutoff, needed);
      if RowExact(truth(b)[r], rows[r], c, r) {
        LowerIsLeft(truth(b)[r], c.CausalEnd(r), c.topK, rows[r], id, cutoff', needed');
      }
    }
  }

  /** The run that a passed check made on the fixture at position `j` of its order. */
  lemma VisitIsExact(
      graph: Prepared, truth: Content -> seq<seq<nat>>, contents: seq<Content>, order: seq<nat>, start: int, j: nat,
      x: Content, c: Case)
    requires c.Valid() && TruthValid(truth, c) && |contents| == FIXTURES && j < |order|
    requires Passes(graph, truth, [], contents, order, start, c) && x == contents[order[j]]
    ensures AllExact(truth(x), graph.output(CheckRuns(contents, order, start)[..j] + [Run(start + j, x)]), c)
  {
    var runs := CheckRuns(contents, order, start);
    assert [] + runs[..j + 1] == runs[..j] + [Run(start + j, x)];
    assert RunPasses(graph, truth, [] + runs[..j + 1], c);
  }

  /** The same rows at every run must be exact for each fixture the check visits. */
  lemma KeptRowsFit(
      graph: Prepared, truth: Content -> seq<seq<nat>>, contents: seq<Content>, order: seq<nat>, start: int, f: nat,
      x: Content, c: Case)
    requires c.Valid() && TruthValid(truth, c) && |contents| == FIXTURES && f < FIXTURES && x == contents[f]
    requires IgnoresInput(graph) && f in order && Passes(graph, truth, [], contents, order, start, c)
    ensures AllExact(truth(x), graph.output([]), c)
  {
    var j :| 0 <= j < |order| && order[j] == f;
    VisitIsExact(graph, truth, contents, order, start, j, x, c);
  }

  /** The first visit to fixture B. */
  lemma FirstVisit(order: seq<nat>) returns (j: nat)
    requires 1 in order && Known(order)
    ensures j < |order| && order[j] == 1 && forall q :: 0 <= q < j ==> order[q] == 0
  {
    j := 0;
    while order[j] != 1
      invariant j < |order| && forall q :: 0 <= q < j ==> order[q] == 0
      invariant 1 in order[j..]
      decreases |order| - j
    {
      assert 1 in order[j + 1..];
      j := j + 1;
    }
  }

  /** What it takes for a whole case to pass: fixtures that differ, a usable reference, and a
      candidate that writes to nothing and whose graph, prepared on A, is exact in every run
      of the check. */
  ghost predicate CasePasses(
      c: Case, truth: Content -> seq<seq<nat>>, a: Content, b: Content, reference: Plugin, plugin: Plugin,
      order: seq<nat>, start: int)
    requires c.Valid() && TruthValid(truth, c)
  {
    && a != b && ReferenceUsable(reference, truth, a, b, c)
    && plugin.supported && plugin.preparationWrites(a) == []
    && Passes(plugin.prepare(a), truth, [], [a, b], order, start, c)
  }

  /** The reference's half of a case. */
  method BuildReference(life: Lifecycle, reference: Plugin) returns (built: bool)
    requires life.Valid() && life.Pristine(0) && life.Pristine(1)
    modifies life, life.inputs[0], life.inputs[1]
    ensures life.Valid() && life.candidate == old(life.candidate)
    ensures built <==> ReferenceUsable(reference, life.truth, life.contentBefore[0], life.contentBefore[1], life.c)
    ensures built ==> life.Pristine(0) && life.Pristine(1) && 0 in life.oracles && 1 in life.oracles
  {
    var error := life.BuildOracles(reference);
    built := error == None;
  }

  /** The candidate's half, once the oracles are built. */
  method JudgePlugin(life: Lifecycle, plugin: Plugin, order: seq<nat>, start: int) returns (passed: bool)
    requires life.Valid() && life.Pristine(0) && life.Pristine(1) && 0 in life.oracles && 1 in life.oracles
    modifies life, life.inputs[0], life.inputs[1]
    ensures passed <==>
      && plugin.supported && plugin.preparationWrites(life.contentBefore[0]) == []
      && Passes(plugin.prepare(life.contentBefore[0]), life.truth, [], life.contentBefore, order, start, life.c)
  {
    var error := life.PrepareCandidate(plugin);
    if error.Some? { return false; }
    error := life.CheckCandidate("gate", order, start);
    passed := error == None;
  }

  /** A case whose graph ignores its input passes only with rows that are exact for both
      contents, so not at all when there are none. */
  lemma PrecomputedResultMustFitBoth(
      c: Case, truth: Content -> seq<seq<nat>>, a: Content, b: Content, reference: Plugin, plugin: Plugin,
      order: seq<nat>, start: int)
    requires c.Valid() && TruthValid(truth, c) && IgnoresInput(plugin.prepare(a)) && 0 in order && 1 in order
    ensures
      var kept := plugin.prepare(a).output([]);
      CasePasses(c, truth, a, b, reference, plugin, order, start) ==>
        AllExact(truth(a), kept, c) && AllExact(truth(b), kept, c)
    ensures NoCommonRows(truth, a, b, c) ==> !CasePasses(c, truth, a, b, reference, plugin, order, start)
  {
    if CasePasses(c, truth, a, b, reference, plugin, order, start) {
      KeptRowsFit(plugin.prepare(a), truth, [a, b], order, start, 0, a, c);
      KeptRowsFit(plugin.prepare(a), truth, [a, b], order, start, 1, b, c);
    }
  }

  /** Two passed checks on different fixtures B leave rows that are exact for both. */
  lemma ReplayedRowsFit(
      graph: Prepared, truth: Content -> seq<seq<nat>>, a: Content, b: Content, b': Content, order: seq<nat>,
      start: int, c: Case)
    requires c.Valid() && TruthValid(truth, c) && IgnoresCurrentInput(graph) && 1 in order
    requires Passes(graph, truth, [], [a, b], order, start, c) && Passes(graph, truth, [], [a, b'], order, start, c)
    ensures !NoCommonRows(truth, b, b', c)
  {
    var j := FirstVisit(order);
    var before, before' := CheckRuns([a, b], order, start)[..j], CheckRuns([a, b'], order, start)[..j];
    assert before == before';
    VisitIsExact(graph, truth, [a, b], order, start, j, b, c);
    VisitIsExact(graph, truth, [a, b'], order, start, j, b', c);
    assert graph.output(before + [Run(start + j, b)]) == graph.output(before + [Run(start + j, b')]);
  }

  /** A graph whose rows never depend on the content it is reading, only on the iteration, on
      what preparation kept and on earlier runs, passes with two different fixtures B only if
      some rows are exact for both: it cannot be right about B except by chance. */
  lemma ReplayMustFitEveryB(
      c: Case, truth: Content -> seq<seq<nat>>, a: Content, b: Content, b': Content, reference: Plugin,
      plugin: Plugin, order: seq<nat>, start: int)
    requires c.Valid() && TruthValid(truth, c) && IgnoresCurrentInput(plugin.prepare(a)) && 1 in order
    requires NoCommonRows(truth, b, b', c)
    ensures CasePasses(c, truth, a, b, reference, plugin, order, start) ==>
      !CasePasses(c, truth, a, b', reference, plugin, order, start)
  {
    if CasePasses(c, truth, a, b, reference, plugin, order, start) &&
       CasePasses(c, truth, a, b', reference, plugin, order, start) {
      ReplayedRowsFit(plugin.prepare(a), truth, a, b, b', order, start, c);
    }
  }

  /** A whole case, checked in any order from any iteration. A graph that ignores its input is
      rejected unless some rows are exact for both contents. */
  method RunCase(
      c: Case, truth: Content -> seq<seq<nat>>, a: Inputs, b: Inputs, reference: Plugin, plugin: Plugin,
      order: seq<nat>, start: int)
    returns (passed: bool)
    requires c.Valid() && SentinelUnused(c) && TruthValid(truth, c) && a != b
    modifies a, b
    ensures passed <==> CasePasses(c, truth, old(a.content), old(b.content), reference, plugin, order, start)
    ensures IgnoresInput(plugin.prepare(old(a.content))) && NoCommonRows(truth, old(a.content), old(b.content), c) ==>
      0 in order && 1 in order ==> !passed
  {
    if IgnoresInput(plugin.prepare(a.content)) && 0 in order && 1 in order {
      PrecomputedResultMustFitBoth(c, truth, a.content, b.content, reference, plugin, order, start);
    }
    var created := CreateFixtures(c, truth, a, b);
    if created.None? { return false; }
    var life := created.value;
    var built := BuildReference(life, reference);
    if !built { return false; }
    passed := JudgePlugin(life, plugin, order, start);
  }

  lemma ExactIsWellFormed(scores: seq<seq<nat>>, rows: Rows, c: Case)
    requires c.Valid() && |scores| == c.queryTokens && AllExact(scores, rows, c)
    ensures WellFormed(rows, c)
  {
    forall r | 0 <= r < c.queryTokens
      ensures |rows[r]| == c.topK && IsWellFormedRow(rows[r], 0, c.CausalEnd(r), c.topK)
    {
      assert RowExact(scores[r], rows[r], c, r);
    }
  }
}
