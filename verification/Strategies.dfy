/** The strategies compared: what each shows its steps, and when they come to the same. */
module Strategies {
  import opened Prelude
  import opened DependencyGraph
  import opened Workflows
  import opened Levels
  import opened Executor
  import opened WorkflowRuns

  // ---- What a sequential run hands to its steps ------------------------------

  ghost predicate ListedInOrder(steps: seq<Step>) {
    forall i, d :: 0 <= i < |steps| && d in steps[i].dependsOn ==> d in Ids(steps[..i])
  }

  /** The outputs handed to each step that is executed, one that stops the run included. */
  ghost function Handed(o: Oracle, steps: seq<Step>, outputs: Outputs): (handed: seq<Outputs>)
    ensures |handed| <= |steps| && (handed == [] <==> steps == [])
    decreases |steps|
  {
    if steps == [] then []
    else
      match Run(o, steps[0], outputs)
      case Aborted(_) => [outputs]
      case Finished(r) =>
        if r.status == Failed then [outputs]
        else [outputs] + Handed(o, steps[1..], AddOutput(outputs, r))
  }

  /** Executed step i left in the run's results what it does on the outputs handed to it. */
  ghost predicate LeavesItsResult(o: Oracle, steps: seq<Step>, handed: seq<Outputs>, end: Ending, i: nat)
    requires i < |handed| <= |steps|
  {
    var s := steps[i];
    if !GoesWell(o, s, handed[i]) then
      && i + 1 == |handed|
      && end.error == Some(if !o.resolve(s) then NoAgent(s.id)
                           else if o.prepare(s, handed[i]) == None then NotPrepared(s.id)
                           else StepFailed(s.name))
      && (s.id in end.results <==> o.resolve(s) && o.prepare(s, handed[i]).Some?)
      && (s.id in end.results ==> IsResult(o, s, o.prepare(s, handed[i]).value, end.results[s.id]))
    else
      && s.id in end.results && IsResult(o, s, o.prepare(s, handed[i]).value, end.results[s.id])
      && (i + 1 == |handed| ==> end.error == None && |handed| == |steps|)
  }

  lemma {:induction false} EarlierResultsStay(o: Oracle, steps: seq<Step>, outputs: Outputs,
                                              results: map<Id, StepResult>)
    ensures var after := RunInOrder(o, steps, outputs, results).results;
            && results.Keys <= after.Keys <= results.Keys + Ids(steps)
            && forall id :: id in results && id !in Ids(steps) ==> after[id] == results[id]
    decreases |steps|
  {
    if steps == [] {
    } else if Run(o, steps[0], outputs).Finished? {
      var r := Run(o, steps[0], outputs).result;
      assert steps == [steps[0]] + steps[1..];
      EarlierResultsStay(o, steps[1..], AddOutput(outputs, r), results[steps[0].id := r]);
    }
  }

  lemma LeftByFirstAndRest(o: Oracle, steps: seq<Step>, handed: seq<Outputs>, end: Ending)
    requires 0 < |handed| <= |steps| && LeavesItsResult(o, steps, handed, end, 0)
    requires forall i :: 0 <= i < |handed| - 1 ==> LeavesItsResult(o, steps[1..], handed[1..], end, i)
    ensures forall i :: 0 <= i < |handed| ==> LeavesItsResult(o, steps, handed, end, i)
  {
    forall i | 0 < i < |handed|
      ensures LeavesItsResult(o, steps, handed, end, i)
    {
      assert LeavesItsResult(o, steps[1..], handed[1..], end, i - 1);
    }
  }

  lemma IdsOfPrefix(steps: seq<Step>, n: nat)
    requires 0 < n <= |steps|
    ensures Ids(steps[..n]) == {steps[0].id} + Ids(steps[1..][..n - 1])
    ensures Ids(steps[1..]) <= Ids(steps)
    ensures steps[0].id in Ids(steps) && (DistinctIds(steps) ==> steps[0].id !in Ids(steps[1..]))
  {
    assert steps[..n] == [steps[0]] + steps[1..][..n - 1];
    assert steps == [steps[0]] + steps[1..];
  }

  /** One unfolding of a sequential run whose first step does not stop it. */
  lemma AfterFirst(o: Oracle, steps: seq<Step>, outputs: Outputs, results: map<Id, StepResult>)
    requires steps != [] && Succeeds(Run(o, steps[0], outputs))
    ensures var r := Run(o, steps[0], outputs).result;
            && RunInOrder(o, steps, outputs, results)
               == RunInOrder(o, steps[1..], AddOutput(outputs, r), results[steps[0].id := r])
            && Handed(o, steps, outputs) == [outputs] + Handed(o, steps[1..], AddOutput(outputs, r))
            && r.stepId == steps[0].id && r.output.Some?
            && GoesWell(o, steps[0], outputs)
            && IsResult(o, steps[0], o.prepare(steps[0], outputs).value, r)
  {
    RunMeaning(o, steps[0], outputs);
  }

  lemma StoppedByFirst(o: Oracle, steps: seq<Step>, outputs: Outputs, results: map<Id, StepResult>)
    requires steps != [] && !Succeeds(Run(o, steps[0], outputs)) && steps[0].id !in results
    ensures var end := RunInOrder(o, steps, outputs, results);
            && Handed(o, steps, outputs) == [outputs] && end.error.Some?
            && end.results.Keys <= results.Keys + {steps[0].id}
            && LeavesItsResult(o, steps, [outputs], end, 0)
  {
    RunMeaning(o, steps[0], outputs);
  }

  /** The executed steps are those that `Handed` lists, on those outputs. */
  lemma {:induction false} HandedAsRun(o: Oracle, steps: seq<Step>, outputs: Outputs, results: map<Id, StepResult>)
    requires DistinctIds(steps) && results.Keys !! Ids(steps)
    ensures var end, handed := RunInOrder(o, steps, outputs, results), Handed(o, steps, outputs);
            && end.results.Keys <= results.Keys + Ids(steps[..|handed|])
            && (end.error == None ==> |handed| == |steps|)
            && forall i :: 0 <= i < |handed| ==> LeavesItsResult(o, steps, handed, end, i)
    decreases |steps|
  {
    if steps == [] {
    } else {
      var end, handed := RunInOrder(o, steps, outputs, results), Handed(o, steps, outputs);
      var out, rest := Run(o, steps[0], outputs), steps[1..];
      IdsOfPrefix(steps, |handed|);
      if Succeeds(out) {
        var outputs', results' := AddOutput(outputs, out.result), results[steps[0].id := out.result];
        AfterFirst(o, steps, outputs, results);
        HandedAsRun(o, rest, outputs', results');
        EarlierResultsStay(o, rest, outputs', results');
        LeftByFirstAndRest(o, steps, handed, end);
      } else {
        StoppedByFirst(o, steps, outputs, results);
      }
    }
  }

  /** Step i is handed the outputs of exactly the steps before it. */
  lemma {:induction false} HandedKeys(o: Oracle, steps: seq<Step>, outputs: Outputs, i: nat)
    requires i < |Handed(o, steps, outputs)|
    ensures Handed(o, steps, outputs)[i].Keys == outputs.Keys + Ids(steps[..i])
  {
    if i == 0 {
      assert steps[..0] == [];
    } else {
      OutcomeCases(o, steps[0], outputs);
      var r := Run(o, steps[0], outputs).result;
      HandedKeys(o, steps[1..], AddOutput(outputs, r), i - 1);
      assert steps[..i] == [steps[0]] + steps[1..][..i - 1];
    }
  }

  /** What is handed on is not lost or overwritten before step i. */
  lemma {:induction false} HandedKeeps(o: Oracle, steps: seq<Step>, outputs: Outputs, i: nat, id: Id)
    requires i < |Handed(o, steps, outputs)| && id in outputs && id !in Ids(steps)
    ensures id in Handed(o, steps, outputs)[i] && Handed(o, steps, outputs)[i][id] == outputs[id]
    decreases i
  {
    if i == 0 {
    } else {
      var r := Run(o, steps[0], outputs).result;
      StopsUnlessSuccessful(o, steps, outputs);
      AfterFirst(o, steps, outputs, map[]);
      IdsOfPrefix(steps, 1);
      HandedKeeps(o, steps[1..], AddOutput(outputs, r), i - 1, id);
    }
  }

  lemma StopsUnlessSuccessful(o: Oracle, steps: seq<Step>, outputs: Outputs)
    requires |Handed(o, steps, outputs)| > 1
    ensures Succeeds(Run(o, steps[0], outputs))
  {
    OutcomeCases(o, steps[0], outputs);
  }

  /** Step i is handed what step j before it recorded. */
  lemma {:induction false} HandedOutput(o: Oracle, steps: seq<Step>, outputs: Outputs, results: map<Id, StepResult>,
                                        i: nat, j: nat)
    requires DistinctIds(steps) && j < i < |Handed(o, steps, outputs)|
    ensures var end, handed, id := RunInOrder(o, steps, outputs, results), Handed(o, steps, outputs), steps[j].id;
            id in end.results && id in handed[i] && end.results[id].output == Some(handed[i][id])
    decreases i
  {
    var r := Run(o, steps[0], outputs).result;
    StopsUnlessSuccessful(o, steps, outputs);
    AfterFirst(o, steps, outputs, results);
    IdsOfPrefix(steps, 1);
    if j == 0 {
      EarlierResultsStay(o, steps[1..], AddOutput(outputs, r), results[steps[0].id := r]);
      HandedKeeps(o, steps[1..], AddOutput(outputs, r), i - 1, steps[0].id);
    } else {
      HandedOutput(o, steps[1..], AddOutput(outputs, r), results[steps[0].id := r], i - 1, j - 1);
    }
  }

  /** Every step is handed exactly the recorded outputs of the steps listed before it. */
  lemma HandedIsRecorded(o: Oracle, steps: seq<Step>, i: nat)
    requires DistinctIds(steps) && i < |Handed(o, steps, map[])|
    ensures IsOutputsBefore(OneByOne(steps), RunInOrder(o, steps, map[], map[]).results, i, Handed(o, steps, map[])[i])
  {
    var results, snapshot := RunInOrder(o, steps, map[], map[]).results, Handed(o, steps, map[])[i];
    HandedKeys(o, steps, map[], i);
    forall j | 0 <= j < i
      ensures var id := steps[j].id;
              id in results && id in snapshot && results[id].output == Some(snapshot[id])
    {
      HandedOutput(o, steps, map[], map[], i, j);
    }
    forall id
      ensures id in snapshot <==> exists j :: 0 <= j < i && id in OneByOne(steps)[j]
    {
      assert id in snapshot <==> exists j :: 0 <= j < i && steps[..i][j].id == id;
      assert forall j :: 0 <= j < i ==> steps[..i][j] == steps[j];
      if j :| 0 <= j < i && steps[..i][j].id == id {
        assert id in OneByOne(steps)[j];
      }
    }
  }

  function Obliging(): Oracle {
    Oracle(_ => true, (_, _) => Some(PreparedTask("")), (_, _, _) => Ok(Json("")))
  }

  lemma {:induction false} ObligingHandsAll(steps: seq<Step>, outputs: Outputs)
    ensures |Handed(Obliging(), steps, outputs)| == |steps|
    decreases |steps|
  {
    if steps == [] {
    } else {
      var out := Run(Obliging(), steps[0], outputs);
      assert Succeeds(out);
      ObligingHandsAll(steps[1..], AddOutput(outputs, out.result));
    }
  }

  /** Whichever steps a sequential run executes are handed the outputs of all their dependencies. */
  ghost predicate FindsDependencies(o: Oracle, steps: seq<Step>) {
    var handed := Handed(o, steps, map[]);
    forall i, d :: 0 <= i < |handed| && d in steps[i].dependsOn ==> d in handed[i]
  }

  /**
   * Sequential runs do not look at `depends_on`. The steps find their
   * dependencies, whatever the agents do, exactly if the workflow lists every
   * step after those it depends on.
   */
  lemma SequentialFindsDependenciesIff(steps: seq<Step>)
    ensures (forall o :: FindsDependencies(o, steps)) <==> ListedInOrder(steps)
  {
    if ListedInOrder(steps) {
      forall o
        ensures FindsDependencies(o, steps)
      {
        var handed := Handed(o, steps, map[]);
        forall i, d | 0 <= i < |handed| && d in steps[i].dependsOn
          ensures d in handed[i]
        {
          HandedKeys(o, steps, map[], i);
        }
      }
    }
    if FindsDependencies(Obliging(), steps) {
      ObligingHandsAll(steps, map[]);
      forall i, d | 0 <= i < |steps| && d in steps[i].dependsOn
        ensures d in Ids(steps[..i])
      {
        HandedKeys(Obliging(), steps, map[], i);
      }
    }
  }

  /** The first step depends on the second. */
  const OUT_OF_ORDER: seq<Step> := [Step("a", "a", ["b"], 1), Step("b", "b", [], 1)]

  lemma OutOfOrderIsAcyclic()
    ensures DistinctIds(OUT_OF_ORDER) && DependenciesExist(OUT_OF_ORDER) && !Cyclic(GraphOf(OUT_OF_ORDER))
  {
    assert OUT_OF_ORDER[1] in OUT_OF_ORDER;
    GraphLookup(OUT_OF_ORDER, 0);
    GraphLookup(OUT_OF_ORDER, 1);
    GraphKeys(OUT_OF_ORDER);
    assert Ids(OUT_OF_ORDER) == {"a", "b"};
    assert ["b", "a"][..1] == ["b"];
    TopologicalIsAcyclic(GraphOf(OUT_OF_ORDER), ["b", "a"]);
  }

  /** An accepted workflow whose first step is run without what it depends on, whatever the agents do. */
  lemma SequentialMissesDependency(w: Workflow, o: Oracle)
    requires w.steps == OUT_OF_ORDER
    ensures WellFormed(w) && !ListedInOrder(w.steps) && !FindsDependencies(o, w.steps)
  {
    OutOfOrderIsAcyclic();
    assert "b" in w.steps[0].dependsOn && "b" !in Ids(w.steps[..0]);
    assert Handed(o, w.steps, map[])[0] == map[];
  }

  // ---- Layerings compared ----------------------------------------------------

  /** Preparing a task looks at nothing but the outputs of the declared dependencies. */
  ghost predicate PreparesFromDependencies(o: Oracle) {
    forall s: Step, a: Outputs, b: Outputs :: SameInputs(s, a, b) ==> o.prepare(s, a) == o.prepare(s, b)
  }

  ghost predicate SameInputs(s: Step, a: Outputs, b: Outputs) {
    forall d :: d in s.dependsOn ==> d in a && d in b && a[d] == b[d]
  }

  /** A layering that runs dependencies first, with what a run over it has recorded so far. */
  ghost predicate Layered(o: Oracle, steps: seq<Step>, levels: seq<seq<Id>>, results: map<Id, StepResult>) {
    Fresh(steps, levels) && Honours(steps, levels) && Faithful(o, steps, levels, results)
  }

  /** Dependencies of a step of level i have their level before i and, once completed, an output in its snapshot. */
  lemma DependencyPlaced(o: Oracle, steps: seq<Step>, levels: seq<seq<Id>>, results: map<Id, StepResult>,
                         i: nat, s: Step, d: Id)
    returns (j: nat)
    requires Layered(o, steps, levels, results)
    requires i < |levels| && CompletedOn(results, Placed(levels[..i]))
    requires s in steps && s.id in levels[i] && d in s.dependsOn
    ensures j < i && d in levels[j] && CompletedOn(results, Placed(levels[..j]))
    ensures d in Ids(steps) && d in results
    ensures Run(o, StepOf(steps, d), Snapshot(levels, results, j)) == Finished(results[d])
    ensures d in Snapshot(levels, results, i) && Some(Snapshot(levels, results, i)[d]) == results[d].output
  {
    PlacedMembers(levels[..i], d);
    var k :| 0 <= k < i && d in levels[..i][k];
    j := k;
    PlacedMonotone(levels, j, i);
    assert d in Elements(levels[j]) && FaithfulAt(o, steps, levels, results, j);
  }

  /**
   * By induction over the levels before it, a step does the same in two runs:
   * both hand it the same outputs of its dependencies.
   */
  lemma {:induction false} SnapshotsAgree(o: Oracle, steps: seq<Step>, a: seq<seq<Id>>, b: seq<seq<Id>>,
                                          ra: map<Id, StepResult>, rb: map<Id, StepResult>, i: nat, j: nat, id: Id)
    requires Layered(o, steps, a, ra) && Layered(o, steps, b, rb)
    requires PreparesFromDependencies(o)
    requires i < |a| && id in a[i] && CompletedOn(ra, Placed(a[..i]))
    requires j < |b| && id in b[j] && CompletedOn(rb, Placed(b[..j]))
    ensures id in Elements(a[i]) && id in Elements(b[j])
    ensures Run(o, StepOf(steps, id), Snapshot(a, ra, i)) == Run(o, StepOf(steps, id), Snapshot(b, rb, j))
    decreases i
  {
    assert id in Elements(a[i]) && id in Elements(b[j]);
    var s := StepOf(steps, id);
    var before, before' := Snapshot(a, ra, i), Snapshot(b, rb, j);
    forall d | d in s.dependsOn
      ensures d in before && d in before' && before[d] == before'[d]
    {
      var i' := DependencyPlaced(o, steps, a, ra, i, s, d);
      var j' := DependencyPlaced(o, steps, b, rb, j, s, d);
      SnapshotsAgree(o, steps, a, b, ra, rb, i', j', d);
    }
    assert SameInputs(s, before, before');
  }

  /** Where the run over `a` has completed everything, a level that the run over `b` reaches succeeds. */
  lemma CannotStop(o: Oracle, steps: seq<Step>, a: seq<seq<Id>>, b: seq<seq<Id>>,
                   ra: map<Id, StepResult>, rb: map<Id, StepResult>, m: nat)
    requires Layered(o, steps, a, ra) && Layered(o, steps, b, rb)
    requires PreparesFromDependencies(o) && Placed(b) <= Placed(a)
    requires CompletedOn(ra, Placed(a))
    requires m < |b| && CompletedOn(rb, Placed(b[..m]))
    ensures LevelSucceeds(o, steps, b, rb, m)
  {
    forall id | id in Elements(b[m])
      ensures Succeeds(Run(o, StepOf(steps, id), Snapshot(b, rb, m)))
    {
      PlacedMembers(b, id);
      assert id in b[m] && id in Placed(a);
      PlacedMembers(a, id);
      var i :| 0 <= i < |a| && id in a[i];
      assert a[..|a|] == a;
      PlacedMonotone(a, i, |a|);
      SnapshotsAgree(o, steps, a, b, ra, rb, i, m, id);
      assert FaithfulAt(o, steps, a, ra, i);
    }
  }

  lemma OneCompletesThenOther(o: Oracle, steps: seq<Step>, a: seq<seq<Id>>, b: seq<seq<Id>>)
    requires Fresh(steps, a) && Honours(steps, a) && Fresh(steps, b) && Honours(steps, b)
    requires Placed(b) <= Placed(a)
    requires PreparesFromDependencies(o)
    requires RunLevels(o, steps, a, map[], map[]).error == None
    ensures RunLevels(o, steps, b, map[], map[]).error == None
  {
    LayeredRun(o, steps, a);
    LayeredRun(o, steps, b);
    var ea, eb := RunLevels(o, steps, a, map[], map[]), RunLevels(o, steps, b, map[], map[]);
    forall m: nat | StoppedAt(o, steps, b, eb, m)
      ensures false
    {
      CannotStop(o, steps, a, b, ea.results, eb.results, m);
      LevelVerdict(o, steps, b, eb.results, m, Runs(o, steps, Elements(b[m]), Snapshot(b, eb.results, m)));
    }
  }

  /** Two completed runs record the same for every step. */
  lemma SameResult(o: Oracle, steps: seq<Step>, a: seq<seq<Id>>, b: seq<seq<Id>>,
                   ra: map<Id, StepResult>, rb: map<Id, StepResult>, id: Id)
    requires Layered(o, steps, a, ra) && Layered(o, steps, b, rb)
    requires PreparesFromDependencies(o)
    requires CompletedOn(ra, Placed(a)) && CompletedOn(rb, Placed(b))
    requires id in Placed(a) && id in Placed(b)
    ensures id in ra && id in rb && ra[id] == rb[id]
  {
    PlacedMembers(a, id);
    PlacedMembers(b, id);
    var i :| 0 <= i < |a| && id in a[i];
    var j :| 0 <= j < |b| && id in b[j];
    assert a[..|a|] == a && b[..|b|] == b;
    PlacedMonotone(a, i, |a|);
    PlacedMonotone(b, j, |b|);
    SnapshotsAgree(o, steps, a, b, ra, rb, i, j, id);
    assert FaithfulAt(o, steps, a, ra, i) && FaithfulAt(o, steps, b, rb, j);
  }

  /**
   * Two ways of layering the same steps that both honour the dependencies
   * complete on the same agents, and then with the same results.
   */
  lemma LayeringsAgree(o: Oracle, steps: seq<Step>, a: seq<seq<Id>>, b: seq<seq<Id>>)
    requires Fresh(steps, a) && Honours(steps, a) && Fresh(steps, b) && Honours(steps, b)
    requires Placed(a) == Placed(b)
    requires PreparesFromDependencies(o)
    ensures var ea, eb := RunLevels(o, steps, a, map[], map[]), RunLevels(o, steps, b, map[], map[]);
            && (ea.error == None <==> eb.error == None)
            && (ea.error == None ==> ea.results == eb.results)
  {
    var ea, eb := RunLevels(o, steps, a, map[], map[]), RunLevels(o, steps, b, map[], map[]);
    if ea.error == None {
      OneCompletesThenOther(o, steps, a, b);
    }
    if eb.error == None {
      OneCompletesThenOther(o, steps, b, a);
    }
    LayeredRun(o, steps, a);
    LayeredRun(o, steps, b);
    if ea.error == None {
      forall id | id in Placed(a)
        ensures ea.results[id] == eb.results[id]
      {
        SameResult(o, steps, a, b, ea.results, eb.results, id);
      }
    }
  }

  /** For a workflow listed dependencies-first, Sequential and Parallel complete alike and with the same results. */
  lemma StrategiesAgree(o: Oracle, w: Workflow, levels: seq<seq<Id>>)
    requires WellFormed(w) && IsLeveling(w.steps, levels) && LevelsOf(w.steps, levels)
    requires ListedInOrder(w.steps) && PreparesFromDependencies(o)
    ensures var par, sq := RunLevels(o, w.steps, levels, map[], map[]), RunInOrder(o, w.steps, map[], map[]);
            && (par.error == None <==> sq.error == None)
            && (par.error == None ==> par.results == sq.results)
  {
    LevelingIsFresh(w, levels);
    OneByOneIsFresh(w.steps);
    var single := OneByOne(w.steps);
    forall k, s, d | 0 <= k < |single| && s in w.steps && s.id in single[k] && d in s.dependsOn
      ensures d in Placed(single[..k])
    {
      var i :| 0 <= i < |w.steps| && w.steps[i] == s;
      assert i == k;
      PlacedOneByOne(w.steps, k);
    }
    SequentialRun(o, w);
    LayeringsAgree(o, w.steps, levels, single);
  }

  // ---- Preparation that always fails -----------------------------------------

  ghost predicate NeverPrepares(o: Oracle) {
    forall s, snapshot :: o.prepare(s, snapshot) == None
  }

  /** What giving up on the step is reported as when nothing is ever prepared. */
  ghost predicate GaveUpOn(o: Oracle, step: Step, error: Option<ExecutionError>) {
    error == Some(if o.resolve(step) then NotPrepared(step.id) else NoAgent(step.id))
  }

  /**
   * With `prepare_task` as it stands, every execution of a workflow with steps
   * records nothing and fails on its first step: in a sequential run the first in
   * the list, otherwise the first in the list without dependencies.
   */
  lemma UnpreparedNeverCompletes(o: Oracle, w: Workflow, levels: seq<seq<Id>>) returns (i: nat)
    requires WellFormed(w) && IsLeveling(w.steps, levels) && LevelsOf(w.steps, levels)
    requires w.steps != [] && NeverPrepares(o)
    ensures var sq := RunInOrder(o, w.steps, map[], map[]);
            sq.results == map[] && GaveUpOn(o, w.steps[0], sq.error)
    ensures var par := RunLevels(o, w.steps, levels, map[], map[]);
            && i < |w.steps| && w.steps[i].dependsOn == []
            && (forall j :: 0 <= j < i ==> w.steps[j].dependsOn != [])
            && par.results == map[] && GaveUpOn(o, w.steps[i], par.error)
  {
    LevelingIsFresh(w, levels);
    assert w.steps[0].id in Ids(w.steps);
    UnpreparedAborts(o, w.steps);
    UnpreparedRecordsNothing(o, w.steps, levels);
    var m, i', snapshot := StoppedByFirstInList(o, w, levels);
    i := i';
    forall j | 0 <= j <= i && w.steps[j].id in levels[m]
      ensures !GoesWell(o, w.steps[j], snapshot)
    {
      assert o.prepare(w.steps[j], snapshot) == None;
    }
    assert m == 0 by {
      FirstLevelIsTried(o, w, levels, m);
    }
    FirstLevelIsRoots(w.steps, levels);
  }

  /** Nothing is recorded, so the level where the run stops can have none before it. */
  lemma FirstLevelIsTried(o: Oracle, w: Workflow, levels: seq<seq<Id>>, m: nat)
    requires WellFormed(w) && IsLeveling(w.steps, levels) && LevelsOf(w.steps, levels)
    requires m < |levels| && CompletedOn(map[], Placed(levels[..m]))
    ensures m == 0
  {
    if m > 0 {
      assert IsPeeledAt(w.steps, levels, 0);
      PlacedMembers(levels[..m], levels[0][0]);
    }
  }

  lemma FirstLevelIsRoots(steps: seq<Step>, levels: seq<seq<Id>>)
    requires DistinctIds(steps) && IsPeeling(steps, levels) && levels != []
    ensures forall j :: 0 <= j < |steps| ==> (steps[j].id in levels[0] <==> steps[j].dependsOn == [])
  {
    assert IsPeeledAt(steps, levels, 0) && levels[..0] == [];
    forall j | 0 <= j < |steps|
      ensures steps[j].id in levels[0] <==> steps[j].dependsOn == []
    {
      ReadyMembers(steps, {}, steps[j].id);
      assert steps[j].dependsOn != [] ==> steps[j].dependsOn[0] in steps[j].dependsOn;
    }
  }

  lemma UnpreparedAborts(o: Oracle, steps: seq<Step>)
    requires steps != [] && NeverPrepares(o)
    ensures var sq := RunInOrder(o, steps, map[], map[]);
            sq.results == map[] && GaveUpOn(o, steps[0], sq.error)
  {
    assert Run(o, steps[0], map[]).Aborted?;
    RunMeaning(o, steps[0], map[]);
  }

  lemma UnpreparedRecordsNothing(o: Oracle, steps: seq<Step>, levels: seq<seq<Id>>)
    requires Fresh(steps, levels) && NeverPrepares(o)
    requires Placed(levels) != {}
    ensures var end := RunLevels(o, steps, levels, map[], map[]);
            end.error.Some? && end.results == map[]
  {
    LayeredRun(o, steps, levels);
    var end := RunLevels(o, steps, levels, map[], map[]);
    assert levels[..|levels|] == levels;
    if m: nat :| StoppedAt(o, steps, levels, end, m) {
      PlacedMonotone(levels, m + 1, |levels|);
    }
    forall id | id in end.results
      ensures false
    {
      RecordedWasPrepared(o, steps, levels, end.results, id);
    }
  }

  lemma RecordedWasPrepared(o: Oracle, steps: seq<Step>, levels: seq<seq<Id>>, results: map<Id, StepResult>, id: Id)
    requires Fresh(steps, levels) && Faithful(o, steps, levels, results)
    requires id in Placed(levels) && id in results
    ensures !NeverPrepares(o)
  {
    PlacedMembers(levels, id);
    var k :| 0 <= k < |levels| && id in levels[k];
    assert FaithfulAt(o, steps, levels, results, k) && id in Elements(levels[k]);
    assert o.prepare(StepOf(steps, id), Snapshot(levels, results, k)).Some?;
  }
}
