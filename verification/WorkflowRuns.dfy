/** Whole executions of accepted workflows: what a Completed or Failed ending means. */
module WorkflowRuns {
  import opened Prelude
  import opened DependencyGraph
  import opened Workflows
  import opened Levels
  import opened Executor

  ghost predicate CompletedOn(results: map<Id, StepResult>, ids: set<Id>) {
    forall id :: id in ids ==> id in results && results[id].status == Completed && results[id].output.Some?
  }

  /** Every level names steps only, and none that an earlier level named. */
  ghost predicate Fresh(steps: seq<Step>, levels: seq<seq<Id>>) {
    LevelsOf(steps, levels) && forall k :: 0 <= k < |levels| ==> Elements(levels[k]) !! Placed(levels[..k])
  }

  /** Dependencies are placed in earlier levels. */
  ghost predicate Honours(steps: seq<Step>, levels: seq<seq<Id>>) {
    forall k, s, d :: 0 <= k < |levels| && s in steps && s.id in levels[k] && d in s.dependsOn ==>
      d in Placed(levels[..k])
  }

  /** The one snapshot that all steps of level k are given. */
  ghost function Snapshot(levels: seq<seq<Id>>, results: map<Id, StepResult>, k: nat): Outputs
    requires k <= |levels|
  {
    Available(results, Placed(levels[..k]))
  }

  /** What level k records is what its steps do on the snapshot of that level. */
  ghost predicate FaithfulAt(o: Oracle, steps: seq<Step>, levels: seq<seq<Id>>, results: map<Id, StepResult>, k: nat)
    requires LevelsOf(steps, levels) && k < |levels|
  {
    forall id :: id in Elements(levels[k]) && id in results ==>
      Run(o, StepOf(steps, id), Snapshot(levels, results, k)) == Finished(results[id])
  }

  ghost predicate Faithful(o: Oracle, steps: seq<Step>, levels: seq<seq<Id>>, results: map<Id, StepResult>)
    requires LevelsOf(steps, levels)
  {
    forall k :: 0 <= k < |levels| ==> FaithfulAt(o, steps, levels, results, k)
  }

  ghost predicate LevelSucceeds(o: Oracle, steps: seq<Step>, levels: seq<seq<Id>>, results: map<Id, StepResult>, k: nat)
    requires LevelsOf(steps, levels) && k < |levels|
  {
    forall id :: id in Elements(levels[k]) ==> Succeeds(Run(o, StepOf(steps, id), Snapshot(levels, results, k)))
  }

  /**
   * The run got through the levels before m and no further. In level m exactly
   * the steps that finished have results, and the error is the one the join
   * loop met first.
   */
  ghost predicate StoppedAt(o: Oracle, steps: seq<Step>, levels: seq<seq<Id>>, end: Ending, m: nat)
    requires LevelsOf(steps, levels)
  {
    && m < |levels|
    && CompletedOn(end.results, Placed(levels[..m]))
    && end.results.Keys <= Placed(levels[..m + 1])
    && var runs := Runs(o, steps, Elements(levels[m]), Snapshot(levels, end.results, m));
       && end.error.Some? && end.error == FirstError(levels[m], runs)
       && forall id :: id in runs ==> (id in end.results <==> runs[id].Finished?)
  }

  ghost predicate Reached(o: Oracle, steps: seq<Step>, levels: seq<seq<Id>>, results: map<Id, StepResult>, k: nat)
    requires LevelsOf(steps, levels)
  {
    && k <= |levels|
    && results.Keys == Placed(levels[..k])
    && CompletedOn(results, results.Keys)
    && Faithful(o, steps, levels, results)
  }

  /** Level k adds results for its own steps only, so no snapshot up to its own changes. */
  lemma SnapshotKept(steps: seq<Step>, levels: seq<seq<Id>>, results: map<Id, StepResult>,
                     added: map<Id, StepResult>, k: nat, j: nat)
    requires Fresh(steps, levels) && j <= k < |levels| && added.Keys <= Elements(levels[k])
    ensures Snapshot(levels, results + added, j) == Snapshot(levels, results, j)
  {
    PlacedMonotone(levels, j, k);
    assert added.Keys !! Placed(levels[..j]);
  }

  /** The results of level k do not touch what another level recorded. */
  lemma FaithfulKept(o: Oracle, steps: seq<Step>, levels: seq<seq<Id>>, results: map<Id, StepResult>,
                     added: map<Id, StepResult>, k: nat, j: nat)
    requires Fresh(steps, levels) && j < |levels| && k < |levels| && j != k
    requires added.Keys <= Elements(levels[k]) && results.Keys <= Placed(levels[..k])
    requires FaithfulAt(o, steps, levels, results, j)
    ensures FaithfulAt(o, steps, levels, results + added, j)
  {
    PlacedNext(levels, j);
    PlacedNext(levels, k);
    if j < k {
      PlacedMonotone(levels, j + 1, k);
      SnapshotKept(steps, levels, results, added, k, j);
    } else {
      PlacedMonotone(levels, k + 1, j);
      assert (results + added).Keys !! Elements(levels[j]);
    }
  }

  lemma LevelRecorded(o: Oracle, steps: seq<Step>, levels: seq<seq<Id>>, results: map<Id, StepResult>, k: nat,
                      runs: map<Id, Outcome>)
    requires Fresh(steps, levels) && k < |levels| && Reached(o, steps, levels, results, k)
    requires runs == Runs(o, steps, Elements(levels[k]), Snapshot(levels, results, k))
    ensures var after := results + Recordable(runs);
            && Snapshot(levels, after, k) == Snapshot(levels, results, k)
            && Faithful(o, steps, levels, after)
            && CompletedOn(after, Placed(levels[..k]))
            && after.Keys <= Placed(levels[..k + 1])
  {
    var added := Recordable(runs);
    PlacedNext(levels, k);
    SnapshotKept(steps, levels, results, added, k, k);
    assert added.Keys !! Placed(levels[..k]);
    forall j | 0 <= j < |levels|
      ensures FaithfulAt(o, steps, levels, results + added, j)
    {
      if j != k {
        FaithfulKept(o, steps, levels, results, added, k, j);
      }
    }
  }

  /** The join loop reports an error exactly if some task of the level did not succeed. */
  lemma LevelVerdict(o: Oracle, steps: seq<Step>, levels: seq<seq<Id>>, results: map<Id, StepResult>, k: nat,
                     runs: map<Id, Outcome>)
    requires LevelsOf(steps, levels) && k < |levels|
    requires runs == Runs(o, steps, Elements(levels[k]), Snapshot(levels, results, k))
    ensures FirstError(levels[k], runs) == None <==> LevelSucceeds(o, steps, levels, results, k)
  {
    NoErrorIffNoneFails(levels[k], runs);
    forall id | id in Elements(levels[k])
      ensures Succeeds(runs[id]) <==> runs[id].Finished? && runs[id].result.status != Failed
    {
      OutcomeCases(o, StepOf(steps, id), Snapshot(levels, results, k));
    }
  }

  lemma AllRecorded(o: Oracle, steps: seq<Step>, ids: set<Id>, snapshot: Outputs)
    requires ids <= Ids(steps)
    requires forall id :: id in ids ==> Succeeds(Run(o, StepOf(steps, id), snapshot))
    ensures var added := Recordable(Runs(o, steps, ids, snapshot));
            added.Keys == ids && CompletedOn(added, ids)
  {
    forall id | id in ids
      ensures Run(o, StepOf(steps, id), snapshot).result.output.Some?
    {
      OutcomeCases(o, StepOf(steps, id), snapshot);
    }
    var runs := Runs(o, steps, ids, snapshot);
    assert forall id :: id in ids ==> id in runs && runs[id].Finished?;
  }

  lemma AvailableSplit(results: map<Id, StepResult>, added: map<Id, StepResult>, p: set<Id>, e: set<Id>)
    requires results.Keys <= p && added.Keys <= e && p !! e
    ensures Available(results + added, p + e) == Available(results, p) + Available(added, e)
  {
  }

  lemma LevelReached(o: Oracle, steps: seq<Step>, levels: seq<seq<Id>>, results: map<Id, StepResult>, k: nat,
                     runs: map<Id, Outcome>)
    requires Fresh(steps, levels) && k < |levels| && Reached(o, steps, levels, results, k)
    requires runs == Runs(o, steps, Elements(levels[k]), Snapshot(levels, results, k))
    requires LevelSucceeds(o, steps, levels, results, k)
    ensures var after := results + Recordable(runs);
            && Reached(o, steps, levels, after, k + 1)
            && Snapshot(levels, results, k) + Collected(levels[k], runs) == Snapshot(levels, after, k + 1)
  {
    LevelRecorded(o, steps, levels, results, k, runs);
    CollectedIsAvailable(levels[k], runs);
    PlacedNext(levels, k);
    AvailableSplit(results, Recordable(runs), Placed(levels[..k]), Elements(levels[k]));
    AllRecorded(o, steps, Elements(levels[k]), Snapshot(levels, results, k));
  }

  lemma {:induction false} RunLevelsFrom(o: Oracle, steps: seq<Step>, levels: seq<seq<Id>>, k: nat,
                                         results: map<Id, StepResult>)
    requires Fresh(steps, levels) && Reached(o, steps, levels, results, k)
    ensures var end := RunLevels(o, steps, levels[k..], Snapshot(levels, results, k), results);
            && Faithful(o, steps, levels, end.results)
            && (end.error == None ==> Reached(o, steps, levels, end.results, |levels|))
            && (end.error.Some? ==> exists m: nat :: StoppedAt(o, steps, levels, end, m))
    decreases |levels| - k
  {
    if k == |levels| {
    } else {
      assert levels[k..][0] == levels[k] && levels[k..][1..] == levels[k + 1..];
      var runs := Runs(o, steps, Elements(levels[k]), Snapshot(levels, results, k));
      var after := results + Recordable(runs);
      LevelVerdict(o, steps, levels, results, k, runs);
      LevelRecorded(o, steps, levels, results, k, runs);
      if FirstError(levels[k], runs).Some? {
        assert StoppedAt(o, steps, levels, Ending(after, FirstError(levels[k], runs)), k);
      } else {
        LevelReached(o, steps, levels, results, k, runs);
        RunLevelsFrom(o, steps, levels, k + 1, after);
      }
    }
  }

  /**
   * A run over fresh levels either completes every step or stops inside one
   * level; in both cases each recorded result is what its step does on the
   * snapshot of its level, whichever way the tasks were interleaved.
   */
  lemma LayeredRun(o: Oracle, steps: seq<Step>, levels: seq<seq<Id>>)
    requires Fresh(steps, levels)
    ensures var end := RunLevels(o, steps, levels, map[], map[]);
            && Faithful(o, steps, levels, end.results)
            && (end.error == None ==>
                  end.results.Keys == Placed(levels) && CompletedOn(end.results, Placed(levels)))
            && (end.error.Some? ==> exists m: nat :: StoppedAt(o, steps, levels, end, m))
  {
    assert levels[..0] == [] && levels[0..] == levels && levels[..|levels|] == levels;
    assert Snapshot(levels, map[], 0) == map[];
    RunLevelsFrom(o, steps, levels, 0, map[]);
  }

  lemma LevelingIsFresh(w: Workflow, levels: seq<seq<Id>>)
    requires WellFormed(w) && IsLeveling(w.steps, levels)
    ensures Fresh(w.steps, levels) && Honours(w.steps, levels) && Placed(levels) == Ids(w.steps)
  {
    PeelingLevels(w.steps, levels);
    CompleteIffAcyclic(w.steps, levels);
    forall k, id | 0 <= k < |levels| && id in Elements(levels[k])
      ensures id !in Placed(levels[..k])
    {
      NewAtLevel(w.steps, levels, k, id);
    }
    forall k, s, d | 0 <= k < |levels| && s in w.steps && s.id in levels[k] && d in s.dependsOn
      ensures d in Placed(levels[..k])
    {
      DependencyEarlier(w.steps, levels, k, s, d);
    }
  }

  /** A parallel run that reports no error has completed every step of the workflow. */
  lemma ParallelRun(o: Oracle, w: Workflow, levels: seq<seq<Id>>)
    requires WellFormed(w) && IsLeveling(w.steps, levels) && LevelsOf(w.steps, levels)
    ensures var end := RunLevels(o, w.steps, levels, map[], map[]);
            && Faithful(o, w.steps, levels, end.results)
            && (end.error == None ==> end.results.Keys == Ids(w.steps) && CompletedOn(end.results, Ids(w.steps)))
            && (end.error.Some? ==> exists m: nat :: StoppedAt(o, w.steps, levels, end, m))
  {
    LevelingIsFresh(w, levels);
    LayeredRun(o, w.steps, levels);
  }

  /** What the first k levels hand on if all their steps succeed: computed from the oracle, without a run. */
  ghost function Ideal(o: Oracle, steps: seq<Step>, levels: seq<seq<Id>>, k: nat): Outputs
    requires LevelsOf(steps, levels) && k <= |levels|
  {
    if k == 0 then map[]
    else
      var before := Ideal(o, steps, levels, k - 1);
      before + Available(Recordable(Runs(o, steps, Elements(levels[k - 1]), before)), Elements(levels[k - 1]))
  }

  ghost predicate IdeallySucceeds(o: Oracle, steps: seq<Step>, levels: seq<seq<Id>>, k: nat)
    requires LevelsOf(steps, levels) && k < |levels|
  {
    forall id :: id in Elements(levels[k]) ==> Succeeds(Run(o, StepOf(steps, id), Ideal(o, steps, levels, k)))
  }

  /** As far as a run gets, its snapshots are the ideal ones. */
  lemma {:induction false} SnapshotIsIdeal(o: Oracle, steps: seq<Step>, levels: seq<seq<Id>>,
                                           results: map<Id, StepResult>, k: nat)
    requires LevelsOf(steps, levels) && k <= |levels|
    requires Faithful(o, steps, levels, results) && CompletedOn(results, Placed(levels[..k]))
    ensures Snapshot(levels, results, k) == Ideal(o, steps, levels, k)
  {
    if k == 0 {
      assert levels[..0] == [];
    } else {
      PlacedNext(levels, k - 1);
      SnapshotIsIdeal(o, steps, levels, results, k - 1);
      LevelAvailable(o, steps, levels, results, k - 1);
      AvailableUnion(results, Placed(levels[..k - 1]), Elements(levels[k - 1]));
    }
  }

  lemma AvailableUnion(results: map<Id, StepResult>, p: set<Id>, e: set<Id>)
    ensures Available(results, p + e) == Available(results, p) + Available(results, e)
  {
  }

  lemma LevelAvailable(o: Oracle, steps: seq<Step>, levels: seq<seq<Id>>, results: map<Id, StepResult>, k: nat)
    requires LevelsOf(steps, levels) && k < |levels|
    requires Faithful(o, steps, levels, results) && CompletedOn(results, Elements(levels[k]))
    ensures var ids := Elements(levels[k]);
            Available(Recordable(Runs(o, steps, ids, Snapshot(levels, results, k))), ids) == Available(results, ids)
  {
    assert FaithfulAt(o, steps, levels, results, k);
    var runs := Runs(o, steps, Elements(levels[k]), Snapshot(levels, results, k));
    assert forall id :: id in Elements(levels[k]) ==> id in runs && runs[id] == Finished(results[id]);
  }

  /** A run completes exactly if every step succeeds on what the levels before its own would ideally hand on. */
  lemma LayeredCompletesIff(o: Oracle, steps: seq<Step>, levels: seq<seq<Id>>)
    requires Fresh(steps, levels)
    ensures RunLevels(o, steps, levels, map[], map[]).error == None <==>
              forall k :: 0 <= k < |levels| ==> IdeallySucceeds(o, steps, levels, k)
  {
    LayeredRun(o, steps, levels);
    var end := RunLevels(o, steps, levels, map[], map[]);
    if end.error == None {
      forall k | 0 <= k < |levels|
        ensures IdeallySucceeds(o, steps, levels, k)
      {
        CompletedLevel(o, steps, levels, end.results, k);
      }
    } else {
      var m: nat :| StoppedAt(o, steps, levels, end, m);
      SnapshotIsIdeal(o, steps, levels, end.results, m);
      LevelVerdict(o, steps, levels, end.results, m,
                   Runs(o, steps, Elements(levels[m]), Snapshot(levels, end.results, m)));
      assert !IdeallySucceeds(o, steps, levels, m);
    }
  }

  lemma CompletedLevel(o: Oracle, steps: seq<Step>, levels: seq<seq<Id>>, results: map<Id, StepResult>, k: nat)
    requires Fresh(steps, levels) && k < |levels|
    requires Faithful(o, steps, levels, results) && CompletedOn(results, Placed(levels))
    ensures IdeallySucceeds(o, steps, levels, k)
  {
    assert levels[..|levels|] == levels;
    PlacedNext(levels, k);
    PlacedMonotone(levels, k + 1, |levels|);
    SnapshotIsIdeal(o, steps, levels, results, k);
    assert FaithfulAt(o, steps, levels, results, k);
  }

  /** Whether a parallel run completes can be told from the oracle before the run. */
  lemma ParallelCompletesIff(o: Oracle, w: Workflow, levels: seq<seq<Id>>)
    requires WellFormed(w) && IsLeveling(w.steps, levels) && LevelsOf(w.steps, levels)
    ensures RunLevels(o, w.steps, levels, map[], map[]).error == None <==>
              forall k :: 0 <= k < |levels| ==> IdeallySucceeds(o, w.steps, levels, k)
  {
    LevelingIsFresh(w, levels);
    LayeredCompletesIff(o, w.steps, levels);
  }

  /** In the snapshot of level k each step of the level finds the outputs of all its dependencies. */
  ghost predicate DependenciesAtHand(steps: seq<Step>, levels: seq<seq<Id>>, results: map<Id, StepResult>, k: nat)
    requires k < |levels|
  {
    forall s, d :: s in steps && s.id in levels[k] && d in s.dependsOn ==>
      && d in results && d in Snapshot(levels, results, k)
      && results[d].output == Some(Snapshot(levels, results, k)[d])
  }

  lemma SnapshotHasDependencies(steps: seq<Step>, levels: seq<seq<Id>>, results: map<Id, StepResult>, k: nat)
    requires Honours(steps, levels) && k < |levels| && CompletedOn(results, Placed(levels[..k]))
    ensures DependenciesAtHand(steps, levels, results, k)
  {
  }

  lemma NothingBeyond(steps: seq<Step>, levels: seq<seq<Id>>, results: map<Id, StepResult>, m: nat)
    requires Fresh(steps, levels) && m < |levels| && results.Keys <= Placed(levels[..m + 1])
    ensures forall j, id :: m < j < |levels| && id in levels[j] ==> id !in results
  {
    forall j, id | m < j < |levels| && id in levels[j]
      ensures id !in results
    {
      PlacedMonotone(levels, m + 1, j);
      assert id in Elements(levels[j]);
    }
  }

  /**
   * A parallel run gets through the levels before some m, all of them exactly if
   * it reports no error. No level after m has a result, and in every level that
   * is started, m included, each step finds the outputs of all its dependencies
   * in the snapshot it is given.
   */
  lemma WhereRunStops(o: Oracle, w: Workflow, levels: seq<seq<Id>>) returns (m: nat)
    requires WellFormed(w) && IsLeveling(w.steps, levels) && LevelsOf(w.steps, levels)
    ensures m <= |levels|
    ensures var end := RunLevels(o, w.steps, levels, map[], map[]);
            && (end.error == None <==> m == |levels|)
            && CompletedOn(end.results, Placed(levels[..m]))
            && (end.error.Some? ==> StoppedAt(o, w.steps, levels, end, m))
            && (forall j, id :: m < j < |levels| && id in levels[j] ==> id !in end.results)
            && (forall k :: 0 <= k <= m && k < |levels| ==> DependenciesAtHand(w.steps, levels, end.results, k))
  {
    ParallelRun(o, w, levels);
    LevelingIsFresh(w, levels);
    var end := RunLevels(o, w.steps, levels, map[], map[]);
    if end.error == None {
      assert levels[..|levels|] == levels;
      m := |levels|;
    } else {
      m :| StoppedAt(o, w.steps, levels, end, m);
      NothingBeyond(w.steps, levels, end.results, m);
    }
    forall k | 0 <= k <= m && k < |levels|
      ensures DependenciesAtHand(w.steps, levels, end.results, k)
    {
      PlacedMonotone(levels, k, m);
      SnapshotHasDependencies(w.steps, levels, end.results, k);
    }
  }

  // ---- Sequential ------------------------------------------------------------

  /** List order, seen as levels of one step each. */
  ghost function OneByOne(steps: seq<Step>): (levels: seq<seq<Id>>)
    ensures |levels| == |steps| && forall i :: 0 <= i < |steps| ==> levels[i] == [steps[i].id]
  {
    seq(|steps|, i requires 0 <= i < |steps| => [steps[i].id])
  }

  lemma {:induction false} PlacedOneByOne(steps: seq<Step>, i: nat)
    requires i <= |steps|
    ensures Placed(OneByOne(steps)[..i]) == Ids(steps[..i])
  {
    if i == 0 {
    } else {
      PlacedOneByOne(steps, i - 1);
      PlacedNext(OneByOne(steps), i - 1);
      assert steps[..i] == steps[..i - 1] + [steps[i - 1]];
    }
  }

  lemma OneByOneIsFresh(steps: seq<Step>)
    requires DistinctIds(steps)
    ensures Fresh(steps, OneByOne(steps)) && Placed(OneByOne(steps)) == Ids(steps)
  {
    var levels := OneByOne(steps);
    assert levels[..|levels|] == levels && steps[..|steps|] == steps;
    PlacedOneByOne(steps, |steps|);
    forall k | 0 <= k < |levels|
      ensures Elements(levels[k]) <= Ids(steps) && Elements(levels[k]) !! Placed(levels[..k])
    {
      PlacedOneByOne(steps, k);
      assert steps[k] in steps;
    }
  }

  /** The sequential run is the layered run over those levels; only the wording of the error differs. */
  lemma {:induction false} SequentialIsLayered(o: Oracle, steps: seq<Step>, rest: seq<Step>, outputs: Outputs,
                                               results: map<Id, StepResult>)
    requires LevelsOf(steps, OneByOne(rest))
    requires forall s :: s in rest ==> s.id in Ids(steps) && StepOf(steps, s.id) == s
    ensures var sq, end := RunInOrder(o, rest, outputs, results),
                           RunLevels(o, steps, OneByOne(rest), outputs, results);
            sq.results == end.results && (sq.error == None <==> end.error == None)
  {
    if rest == [] {
    } else {
      var s := rest[0];
      assert OneByOne(rest)[1..] == OneByOne(rest[1..]);
      SingleLevelRun(o, steps, rest, outputs, results);
      if Run(o, s, outputs).Finished? {
        var r := Run(o, s, outputs).result;
        SequentialIsLayered(o, steps, rest[1..], AddOutput(outputs, r), results[s.id := r]);
      }
    }
  }

  lemma SingleLevel(o: Oracle, steps: seq<Step>, s: Step, outputs: Outputs)
    requires s in steps && s.id in Ids(steps) && StepOf(steps, s.id) == s
    ensures Elements([s.id]) <= Ids(steps)
    ensures var runs, out := Runs(o, steps, Elements([s.id]), outputs), Run(o, s, outputs);
            && runs == map[s.id := out]
            && (FirstError([s.id], runs) == None <==> out.Finished? && out.result.status != Failed)
            && Recordable(runs) == (if out.Finished? then map[s.id := out.result] else map[])
            && (out.Finished? ==> outputs + Collected([s.id], runs) == AddOutput(outputs, out.result))
  {
    OutcomeCases(o, s, outputs);
    assert [s.id][1..] == [] && [s.id][..0] == [];
  }

  /** One unfolding of the layered run over single-step levels. */
  lemma SingleLevelRun(o: Oracle, steps: seq<Step>, rest: seq<Step>, outputs: Outputs, results: map<Id, StepResult>)
    requires rest != [] && LevelsOf(steps, OneByOne(rest)) && LevelsOf(steps, OneByOne(rest[1..]))
    requires rest[0] in steps && rest[0].id in Ids(steps) && StepOf(steps, rest[0].id) == rest[0]
    ensures var s, end := rest[0], RunLevels(o, steps, OneByOne(rest), outputs, results);
            match Run(o, s, outputs)
            case Aborted(_) => end.error.Some? && end.results == results
            case Finished(r) =>
              if r.status == Failed then end.error.Some? && end.results == results[s.id := r]
              else end == RunLevels(o, steps, OneByOne(rest[1..]), AddOutput(outputs, r), results[s.id := r])
  {
    var s, levels := rest[0], OneByOne(rest);
    assert levels[0] == [s.id] && levels[1..] == OneByOne(rest[1..]);
    SingleLevel(o, steps, s, outputs);
    match Run(o, s, outputs)
    case Aborted(_) => assert results + map[] == results;
    case Finished(r) => assert results + map[s.id := r] == results[s.id := r];
  }

  lemma SequentialRun(o: Oracle, w: Workflow)
    requires DistinctIds(w.steps)
    ensures Fresh(w.steps, OneByOne(w.steps))
    ensures var sq, end := RunInOrder(o, w.steps, map[], map[]),
                           RunLevels(o, w.steps, OneByOne(w.steps), map[], map[]);
            sq.results == end.results && (sq.error == None <==> end.error == None)
    ensures var sq := RunInOrder(o, w.steps, map[], map[]);
            && Faithful(o, w.steps, OneByOne(w.steps), sq.results)
            && (sq.error == None ==> sq.results.Keys == Ids(w.steps) && CompletedOn(sq.results, Ids(w.steps)))
  {
    OneByOneIsFresh(w.steps);
    LayeredRun(o, w.steps, OneByOne(w.steps));
    forall s | s in w.steps
      ensures s.id in Ids(w.steps) && StepOf(w.steps, s.id) == s
    {
      StepOfOwnId(w.steps, s);
    }
    SequentialIsLayered(o, w.steps, w.steps, map[], map[]);
  }

  /** Likewise for a sequential run, with one step per level. */
  lemma SequentialCompletesIff(o: Oracle, w: Workflow)
    requires DistinctIds(w.steps)
    ensures LevelsOf(w.steps, OneByOne(w.steps))
    ensures RunInOrder(o, w.steps, map[], map[]).error == None <==>
              forall i :: 0 <= i < |w.steps| ==> IdeallySucceeds(o, w.steps, OneByOne(w.steps), i)
  {
    SequentialRun(o, w);
    LayeredCompletesIff(o, w.steps, OneByOne(w.steps));
  }

  // ---- Runs in terms of the agents -------------------------------------------

  /** The outputs that the levels before k have recorded, and nothing else. */
  ghost predicate IsOutputsBefore(levels: seq<seq<Id>>, results: map<Id, StepResult>, k: nat, snapshot: Outputs)
    requires k <= |levels|
  {
    && (forall id :: id in snapshot <==>
          id in results && results[id].output.Some? && exists j :: 0 <= j < k && id in levels[j])
    && (forall id :: id in snapshot ==> results[id].output == Some(snapshot[id]))
  }

  lemma SnapshotMeaning(levels: seq<seq<Id>>, results: map<Id, StepResult>, k: nat)
    requires k <= |levels|
    ensures IsOutputsBefore(levels, results, k, Snapshot(levels, results, k))
  {
    forall id
      ensures id in Placed(levels[..k]) <==> exists j :: 0 <= j < k && id in levels[j]
    {
      PlacedMembers(levels[..k], id);
      if j :| 0 <= j < k && id in levels[j] {
        assert id in levels[..k][j];
      }
      if j :| 0 <= j < k && id in levels[..k][j] {
        assert id in levels[j];
      }
    }
  }

  /** The recorded result is what the step's agent makes of the task prepared from the levels before k. */
  ghost predicate IsEarned(o: Oracle, step: Step, levels: seq<seq<Id>>, k: nat, results: map<Id, StepResult>)
    requires k <= |levels| && step.id in results
  {
    exists snapshot, task ::
      && IsOutputsBefore(levels, results, k, snapshot)
      && o.resolve(step) && o.prepare(step, snapshot) == Some(task)
      && IsResult(o, step, task, results[step.id])
  }

  ghost predicate AllEarned(o: Oracle, steps: seq<Step>, levels: seq<seq<Id>>, results: map<Id, StepResult>) {
    && (forall id :: id in results ==> exists k :: 0 <= k < |levels| && id in levels[k])
    && (forall k, s :: 0 <= k < |levels| && s in steps && s.id in levels[k] && s.id in results ==>
          IsEarned(o, s, levels, k, results))
  }

  lemma FaithfulIsEarned(o: Oracle, steps: seq<Step>, levels: seq<seq<Id>>, results: map<Id, StepResult>)
    requires DistinctIds(steps) && LevelsOf(steps, levels) && Faithful(o, steps, levels, results)
    requires results.Keys <= Placed(levels)
    ensures AllEarned(o, steps, levels, results)
  {
    forall id | id in results
      ensures exists k :: 0 <= k < |levels| && id in levels[k]
    {
      PlacedMembers(levels, id);
    }
    forall k, s | 0 <= k < |levels| && s in steps && s.id in levels[k] && s.id in results
      ensures IsEarned(o, s, levels, k, results)
    {
      var snapshot := Snapshot(levels, results, k);
      StepOfOwnId(steps, s);
      assert FaithfulAt(o, steps, levels, results, k) && s.id in Elements(levels[k]);
      SnapshotMeaning(levels, results, k);
      RunMeaning(o, s, snapshot);
      assert o.prepare(s, snapshot) == Some(o.prepare(s, snapshot).value);
    }
  }

  /** Whatever a run over fresh levels records, failed or not, is earned. */
  lemma RecordedIsEarned(o: Oracle, steps: seq<Step>, levels: seq<seq<Id>>)
    requires DistinctIds(steps) && Fresh(steps, levels)
    ensures AllEarned(o, steps, levels, RunLevels(o, steps, levels, map[], map[]).results)
  {
    LayeredRun(o, steps, levels);
    var end := RunLevels(o, steps, levels, map[], map[]);
    assert levels[..|levels|] == levels;
    if end.error.Some? {
      var m: nat :| StoppedAt(o, steps, levels, end, m);
      PlacedMonotone(levels, m + 1, |levels|);
    }
    FaithfulIsEarned(o, steps, levels, end.results);
  }

  /** The agent of the step can be found, its task prepared, and some attempt within the budget succeeds. */
  ghost predicate GoesWell(o: Oracle, step: Step, snapshot: Outputs) {
    && o.resolve(step) && o.prepare(step, snapshot).Some?
    && exists k :: 1 <= k <= Budget(step) && o.attempt(step, o.prepare(step, snapshot).value, k).Ok?
  }

  /** What is reported of a step of a parallel level that does not go well. */
  ghost function Complaint(o: Oracle, step: Step, snapshot: Outputs): ExecutionError {
    if !o.resolve(step) then NoAgent(step.id)
    else if o.prepare(step, snapshot) == None then NotPrepared(step.id)
    else StepFailed(step.id)
  }

  lemma GoesWellIff(o: Oracle, step: Step, snapshot: Outputs)
    ensures var out := Run(o, step, snapshot);
            && (GoesWell(o, step, snapshot) <==> !Unsuccessful(out))
            && (out.Aborted? ==> out.error == Complaint(o, step, snapshot))
            && (out.Finished? ==> Complaint(o, step, snapshot) == StepFailed(step.id))
  {
    RunMeaning(o, step, snapshot);
  }

  /**
   * A parallel run that stops does so in some level, and reports the step of that
   * level that comes first in the workflow's own list among those that do not go
   * well on the outputs of the levels before.
   */
  lemma StoppedByFirstInList(o: Oracle, w: Workflow, levels: seq<seq<Id>>)
    returns (m: nat, i: nat, snapshot: Outputs)
    requires WellFormed(w) && IsLeveling(w.steps, levels) && LevelsOf(w.steps, levels)
    requires RunLevels(o, w.steps, levels, map[], map[]).error.Some?
    ensures var end := RunLevels(o, w.steps, levels, map[], map[]);
            && m < |levels| && CompletedOn(end.results, Placed(levels[..m]))
            && IsOutputsBefore(levels, end.results, m, snapshot)
            && i < |w.steps| && w.steps[i].id in levels[m]
            && !GoesWell(o, w.steps[i], snapshot)
            && end.error == Some(Complaint(o, w.steps[i], snapshot))
            && forall j :: 0 <= j < i && w.steps[j].id in levels[m] ==> GoesWell(o, w.steps[j], snapshot)
  {
    ParallelRun(o, w, levels);
    var end := RunLevels(o, w.steps, levels, map[], map[]);
    m :| StoppedAt(o, w.steps, levels, end, m);
    snapshot := Snapshot(levels, end.results, m);
    SnapshotMeaning(levels, end.results, m);
    i := FirstUnsuccessful(o, w.steps, levels, m, snapshot);
  }

  lemma FirstUnsuccessful(o: Oracle, steps: seq<Step>, levels: seq<seq<Id>>, m: nat, snapshot: Outputs)
    returns (i: nat)
    requires DistinctIds(steps) && IsPeeling(steps, levels) && LevelsOf(steps, levels) && m < |levels|
    requires FirstError(levels[m], Runs(o, steps, Elements(levels[m]), snapshot)).Some?
    ensures i < |steps| && steps[i].id in levels[m] && !GoesWell(o, steps[i], snapshot)
    ensures FirstError(levels[m], Runs(o, steps, Elements(levels[m]), snapshot))
            == Some(Complaint(o, steps[i], snapshot))
    ensures forall j :: 0 <= j < i && steps[j].id in levels[m] ==> GoesWell(o, steps[j], snapshot)
  {
    var p := FirstErrorIsFirst(levels[m], Runs(o, steps, Elements(levels[m]), snapshot));
    assert levels[m][p] in Elements(levels[m]);
    var s := StepOf(steps, levels[m][p]);
    i :| 0 <= i < |steps| && steps[i] == s;
    GoesWellIff(o, s, snapshot);
    forall j | 0 <= j < i && steps[j].id in levels[m]
      ensures GoesWell(o, steps[j], snapshot)
    {
      var q :| 0 <= q < |levels[m]| && levels[m][q] == steps[j].id;
      LevelInListOrder(steps, levels, m, q, p, j, i);
      StepOfOwnId(steps, steps[j]);
      GoesWellIff(o, steps[j], snapshot);
    }
  }

  // ---- The entry points ------------------------------------------------------

  method RunWorkflow(o: Oracle, registry: WorkflowRegistry, w: Workflow, executionId: Id)
    returns (error: Option<ExecutionError>, ghost levels: seq<seq<Id>>)
    requires registry.Valid() && executionId in registry.executions
    modifies registry
    ensures registry.Valid() && executionId in registry.executions
    ensures var before, after := old(registry.executions[executionId]), registry.executions[executionId];
            && after == before.(status := if error == None then Completed else Running,
                                stepResults := after.stepResults, currentStep := after.currentStep)
            && (w.strategy == Sequential ==>
                  Ending(after.stepResults, error) == RunInOrder(o, w.steps, map[], before.stepResults))
            && (w.strategy != Sequential ==>
                  && IsLeveling(w.steps, levels) && LevelsOf(w.steps, levels)
                  && Ending(after.stepResults, error) == RunLevels(o, w.steps, levels, map[], before.stepResults))
  {
    levels := [];
    ghost var before := registry.executions[executionId];
    SetStatus(registry, executionId, Running, registry.executions[executionId].error);
    OthersRun(registry, executionId);
    match w.strategy {
      case Sequential =>
        error := ExecuteSequential(o, registry, w, executionId);
      case Parallel =>
        error, levels := ExecuteParallel(o, registry, w, executionId);
      case Dag =>
        error, levels := ExecuteParallel(o, registry, w, executionId);
    }
    OthersRun(registry, executionId);
    if error == None {
      SetStatus(registry, executionId, Completed, registry.executions[executionId].error);
    }
  }

  /** What the registry shows once the background task has ended. */
  ghost predicate EndsAs(o: Oracle, w: Workflow, e: Execution, levels: seq<seq<Id>>) {
    && e.status == (if e.error == None then Completed else Failed)
    && (w.strategy == Sequential ==> Ending(e.stepResults, e.error) == RunInOrder(o, w.steps, map[], map[]))
    && (w.strategy != Sequential ==>
          && IsLeveling(w.steps, levels) && LevelsOf(w.steps, levels)
          && Ending(e.stepResults, e.error) == RunLevels(o, w.steps, levels, map[], map[]))
  }

  /** The order in which a strategy lets steps see one another's outputs. */
  ghost function LayersOf(w: Workflow, levels: seq<seq<Id>>): seq<seq<Id>> {
    if w.strategy == Sequential then OneByOne(w.steps) else levels
  }

  lemma WhatTheRegistryShows(o: Oracle, w: Workflow, e: Execution, levels: seq<seq<Id>>)
    requires WellFormed(w) && EndsAs(o, w, e, levels)
    ensures AllEarned(o, w.steps, LayersOf(w, levels), e.stepResults)
    ensures e.status == Completed ==>
              e.stepResults.Keys == Ids(w.steps) && CompletedOn(e.stepResults, Ids(w.steps))
  {
    if w.strategy == Sequential {
      SequentialRun(o, w);
      RecordedIsEarned(o, w.steps, OneByOne(w.steps));
    } else {
      ParallelRun(o, w, levels);
      LevelingIsFresh(w, levels);
      RecordedIsEarned(o, w.steps, levels);
    }
  }

  /**
   * `execute_workflow` followed by its background task to the end. The request's
   * own strategy is not consulted by the code, so it is no parameter here.
   */
  method ExecuteWorkflow(o: Oracle, registry: WorkflowRegistry, workflowId: Id, executionId: Id)
    returns (r: Result<Id, RegistryError>, ghost levels: seq<seq<Id>>)
    requires registry.Valid()
    modifies registry
    ensures registry.Valid()
    ensures r.Ok? <==> workflowId in old(registry.workflows) && old(registry.workflows)[workflowId].enabled
    ensures r.Err? ==> registry.executions == old(registry.executions)
    ensures r.Ok? ==> r.value == executionId && executionId in registry.executions
    ensures r.Ok? ==>
              var w, e := old(registry.workflows)[workflowId], registry.executions[executionId];
              && e.id == executionId && e.workflowId == workflowId
              && (e.status == Completed <==> e.error == None) && (e.status == Failed <==> e.error.Some?)
              && EndsAs(o, w, e, levels)
              && AllEarned(o, w.steps, LayersOf(w, levels), e.stepResults)
              && (e.status == Completed ==>
                    e.stepResults.Keys == Ids(w.steps) && CompletedOn(e.stepResults, Ids(w.steps)))
  {
    levels := [];
    r := registry.StartExecution(workflowId, executionId);
    if r.Err? {
      return;
    }
    var w := registry.workflows[registry.executions[executionId].workflowId];
    OthersRun(registry, executionId);
    var error, found := RunWorkflow(o, registry, w, executionId);
    levels := found;
    OthersRun(registry, executionId);
    if error.Some? {
      SetStatus(registry, executionId, Failed, error);
    }
    assert EndsAs(o, w, registry.executions[executionId], levels);
    WhatTheRegistryShows(o, w, registry.executions[executionId], levels);
  }
}
