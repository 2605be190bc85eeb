/**
 * The workflow executor: one step with retries, one level of concurrent tasks,
 * and whole runs under the three strategies.
 *
 * Agents and task preparation are an oracle. It is fixed for one execution, in
 * which each step is tried by at most one task, so functions of the step, the
 * prepared task and the attempt can express every way they may behave. The
 * code at present drops the prepared task; that is an `attempt` that ignores it.
 */
module Executor {
  import opened Prelude
  import opened DependencyGraph
  import opened Workflows
  import opened Levels

  type Outputs = map<Id, Json>

  /** A task with the outputs it refers to filled in. */
  datatype PreparedTask = PreparedTask(content: string)

  datatype Oracle = Oracle(
    resolve: Step -> bool,
    prepare: (Step, Outputs) -> Option<PreparedTask>,
    attempt: (Step, PreparedTask, nat) -> Result<Json, string>)

  /** `execute_step` either yields a result or gives up with an error before trying. */
  datatype Outcome = Finished(result: StepResult) | Aborted(error: ExecutionError)

  /** The first attempt is made whatever `max_attempts` says. */
  function Budget(step: Step): (n: nat)
    ensures n >= 1 && n >= step.maxAttempts && (n == 1 || n == step.maxAttempts)
  {
    if step.maxAttempts == 0 then 1 else step.maxAttempts
  }

  function Attempts(o: Oracle, step: Step, task: PreparedTask, n: nat): StepResult
    requires 1 <= n <= Budget(step)
    decreases Budget(step) - n
  {
    match o.attempt(step, task, n)
    case Ok(v) => StepResult(step.id, Completed, Some(v), None)
    case Err(e) =>
      if n >= step.maxAttempts
      then StepResult(step.id, Failed, None, Some(Exhausted(n, e)))
      else Attempts(o, step, task, n + 1)
  }

  function Run(o: Oracle, step: Step, snapshot: Outputs): Outcome {
    if !o.resolve(step) then Aborted(NoAgent(step.id))
    else
      match o.prepare(step, snapshot)
      case None => Aborted(NotPrepared(step.id))
      case Some(task) => Finished(Attempts(o, step, task, 1))
  }

  predicate Succeeds(out: Outcome) {
    out.Finished? && out.result.status == Completed
  }

  ghost predicate FirstSuccess(o: Oracle, step: Step, task: PreparedTask, n: nat, r: StepResult) {
    && r.error == None && r.output.Some?
    && exists k ::
         && n <= k <= Budget(step)
         && o.attempt(step, task, k) == Ok(r.output.value)
         && forall j :: n <= j < k ==> o.attempt(step, task, j).Err?
  }

  ghost predicate LastFailure(o: Oracle, step: Step, task: PreparedTask, r: StepResult) {
    var last := o.attempt(step, task, Budget(step));
    r.output == None && last.Err? && r.error == Some(Exhausted(Budget(step), last.error))
  }

  /** The step completes exactly if some attempt within the budget succeeds; the first such one gives the output. */
  lemma {:induction false} RetryOutcome(o: Oracle, step: Step, task: PreparedTask, n: nat)
    requires 1 <= n <= Budget(step)
    ensures var r := Attempts(o, step, task, n);
            && r.stepId == step.id
            && (r.status == Completed || r.status == Failed)
            && (r.status == Completed <==> exists k :: n <= k <= Budget(step) && o.attempt(step, task, k).Ok?)
            && (r.status == Completed ==> FirstSuccess(o, step, task, n, r))
            && (r.status == Failed ==> LastFailure(o, step, task, r))
    decreases Budget(step) - n
  {
    if o.attempt(step, task, n).Ok? || n >= step.maxAttempts {
    } else {
      RetryOutcome(o, step, task, n + 1);
    }
  }

  /** The result that a prepared task earns from the agent's answers within the budget. */
  ghost predicate IsResult(o: Oracle, step: Step, task: PreparedTask, r: StepResult) {
    && r.stepId == step.id
    && (r.status == Completed || r.status == Failed)
    && (r.status == Completed <==> exists k :: 1 <= k <= Budget(step) && o.attempt(step, task, k).Ok?)
    && (r.status == Completed ==> FirstSuccess(o, step, task, 1, r))
    && (r.status == Failed ==> LastFailure(o, step, task, r))
  }

  /** The agent's answers leave no choice. */
  lemma ResultIsDetermined(o: Oracle, step: Step, task: PreparedTask, a: StepResult, b: StepResult)
    requires IsResult(o, step, task, a) && IsResult(o, step, task, b)
    ensures a == b
  {
    if a.status == Completed {
      var i :| 1 <= i <= Budget(step) && o.attempt(step, task, i) == Ok(a.output.value)
               && forall k :: 1 <= k < i ==> o.attempt(step, task, k).Err?;
      var j :| 1 <= j <= Budget(step) && o.attempt(step, task, j) == Ok(b.output.value)
               && forall k :: 1 <= k < j ==> o.attempt(step, task, k).Err?;
      assert i == j;
    }
  }

  /** What a step comes to, in terms of the agents alone: which error it gives up with, or what it earns. */
  lemma RunMeaning(o: Oracle, step: Step, snapshot: Outputs)
    ensures var out := Run(o, step, snapshot);
            && (out == Aborted(NoAgent(step.id)) <==> !o.resolve(step))
            && (out == Aborted(NotPrepared(step.id)) <==> o.resolve(step) && o.prepare(step, snapshot) == None)
            && (out.Finished? <==> o.resolve(step) && o.prepare(step, snapshot).Some?)
            && (out.Finished? ==> IsResult(o, step, o.prepare(step, snapshot).value, out.result))
  {
    if o.prepare(step, snapshot).Some? {
      RetryOutcome(o, step, o.prepare(step, snapshot).value, 1);
    }
  }

  /** A result names its step; it is either completed with an output or failed without one. */
  lemma OutcomeCases(o: Oracle, step: Step, snapshot: Outputs)
    ensures var out := Run(o, step, snapshot);
            out.Finished? ==>
              && out.result.stepId == step.id
              && ((out.result.status == Failed && out.result.output == None)
                  || (out.result.status == Completed && out.result.output.Some?))
  {
    if o.prepare(step, snapshot).Some? {
      RetryOutcome(o, step, o.prepare(step, snapshot).value, 1);
    }
  }

  method ExecuteStep(o: Oracle, step: Step, snapshot: Outputs) returns (out: Outcome)
    ensures out == Aborted(NoAgent(step.id)) <==> !o.resolve(step)
    ensures out == Aborted(NotPrepared(step.id)) <==> o.resolve(step) && o.prepare(step, snapshot) == None
    ensures out.Finished? <==> o.resolve(step) && o.prepare(step, snapshot).Some?
    ensures out.Finished? ==> IsResult(o, step, o.prepare(step, snapshot).value, out.result)
    ensures out == Run(o, step, snapshot)
  {
    RunMeaning(o, step, snapshot);
    var attempt := 0;
    if !o.resolve(step) {
      return Aborted(NoAgent(step.id));
    }
    var prepared := o.prepare(step, snapshot);
    if prepared.None? {
      return Aborted(NotPrepared(step.id));
    }
    var task := prepared.value;
    while true
      invariant 0 <= attempt < Budget(step)
      invariant Attempts(o, step, task, attempt + 1) == Attempts(o, step, task, 1)
      decreases Budget(step) - attempt
    {
      attempt := attempt + 1;
      match o.attempt(step, task, attempt) {
        case Ok(output) =>
          return Finished(StepResult(step.id, Completed, Some(output), None));
        case Err(e) =>
          if attempt >= step.maxAttempts {
            return Finished(StepResult(step.id, Failed, None, Some(Exhausted(attempt, e))));
          }
      }
    }
  }

  /** The first step that bears the id. */
  function StepOf(steps: seq<Step>, id: Id): (s: Step)
    requires id in Ids(steps)
    ensures s in steps && s.id == id
  {
    if steps[0].id == id then steps[0] else StepOf(steps[1..], id)
  }

  lemma StepOfOwnId(steps: seq<Step>, s: Step)
    requires DistinctIds(steps) && s in steps
    ensures StepOf(steps, s.id) == s
  {
    var t := StepOf(steps, s.id);
    var i :| 0 <= i < |steps| && steps[i] == s;
    var j :| 0 <= j < |steps| && steps[j] == t;
  }

  /** What every task of a level comes to when all start from one snapshot. */
  ghost function Runs(o: Oracle, steps: seq<Step>, ids: set<Id>, snapshot: Outputs): map<Id, Outcome>
    requires ids <= Ids(steps)
  {
    map id | id in ids :: Run(o, StepOf(steps, id), snapshot)
  }

  /** What those tasks write to the execution: aborted ones write nothing. */
  ghost function Recordable(outs: map<Id, Outcome>): map<Id, StepResult> {
    map id | id in outs && outs[id].Finished? :: outs[id].result
  }

  /** The outputs that a set of steps has made available. */
  ghost function Available(results: map<Id, StepResult>, ids: set<Id>): Outputs {
    map id | id in ids && id in results && results[id].output.Some? :: results[id].output.value
  }

  /** Joining the tasks of a level in order: the error of the first one that did not succeed. */
  ghost function FirstError(level: seq<Id>, outs: map<Id, Outcome>): Option<ExecutionError>
    requires forall id :: id in level ==> id in outs
  {
    if level == [] then None
    else
      match outs[level[0]]
      case Aborted(e) => Some(e)
      case Finished(r) =>
        if r.status == Failed then Some(StepFailed(level[0]))
        else FirstError(level[1..], outs)
  }

  /** The outputs the join loop collects on its way. */
  ghost function Collected(level: seq<Id>, outs: map<Id, Outcome>): Outputs
    requires forall id :: id in level ==> id in outs
  {
    if level == [] then map[]
    else
      var init, last := level[..|level| - 1], level[|level| - 1];
      match outs[last]
      case Aborted(_) => Collected(init, outs)
      case Finished(r) =>
        if r.output.Some? then Collected(init, outs)[last := r.output.value] else Collected(init, outs)
  }

  lemma {:induction false} NoErrorIffNoneFails(level: seq<Id>, outs: map<Id, Outcome>)
    requires forall id :: id in level ==> id in outs
    ensures FirstError(level, outs) == None <==>
              forall id :: id in level ==> outs[id].Finished? && outs[id].result.status != Failed
  {
    if level == [] {
    } else {
      NoErrorIffNoneFails(level[1..], outs);
      assert level == [level[0]] + level[1..];
    }
  }

  ghost predicate Unsuccessful(out: Outcome) {
    out.Finished? ==> out.result.status == Failed
  }

  /** The error reported is that of the first unsuccessful task in level order. */
  lemma {:induction false} FirstErrorIsFirst(level: seq<Id>, outs: map<Id, Outcome>) returns (i: nat)
    requires forall id :: id in level ==> id in outs
    requires FirstError(level, outs).Some?
    ensures i < |level| && Unsuccessful(outs[level[i]])
    ensures forall j :: 0 <= j < i ==> !Unsuccessful(outs[level[j]])
    ensures FirstError(level, outs) == Some(
              match outs[level[i]] case Aborted(e) => e case Finished(_) => StepFailed(level[i]))
  {
    if Unsuccessful(outs[level[0]]) {
      i := 0;
    } else {
      var k := FirstErrorIsFirst(level[1..], outs);
      i := k + 1;
      assert forall j :: 0 < j < i ==> level[j] == level[1..][j - 1];
    }
  }

  lemma {:induction false} CollectedIsAvailable(level: seq<Id>, outs: map<Id, Outcome>)
    requires forall id :: id in level ==> id in outs
    ensures Collected(level, outs) == Available(Recordable(outs), Elements(level))
  {
    if level == [] {
    } else {
      var init, last := level[..|level| - 1], level[|level| - 1];
      assert level == init + [last];
      CollectedIsAvailable(init, outs);
      ElementsAppend(init, last);
    }
  }

  /** Under the registry's write lock: other executions and the workflows stay as they are. */
  method RecordResult(registry: WorkflowRegistry, executionId: Id, stepId: Id, result: StepResult)
    modifies registry`executions
    ensures executionId !in old(registry.executions) ==> registry.executions == old(registry.executions)
    ensures executionId in old(registry.executions) ==>
              var e := old(registry.executions[executionId]);
              registry.executions == old(registry.executions)[executionId :=
                e.(stepResults := e.stepResults[stepId := result], currentStep := Some(stepId))]
  {
    if executionId in registry.executions {
      var e := registry.executions[executionId];
      registry.executions := registry.executions[executionId :=
        e.(stepResults := e.stepResults[stepId := result], currentStep := Some(stepId))];
    }
  }

  /** The status writes of `run_workflow` and of the error handler. */
  method SetStatus(registry: WorkflowRegistry, executionId: Id, status: Status, error: Option<ExecutionError>)
    modifies registry`executions
    ensures executionId !in old(registry.executions) ==> registry.executions == old(registry.executions)
    ensures executionId in old(registry.executions) ==>
              registry.executions == old(registry.executions)[executionId :=
                old(registry.executions[executionId]).(status := status, error := error)]
  {
    if executionId in registry.executions {
      registry.executions := registry.executions[executionId :=
        registry.executions[executionId].(status := status, error := error)];
    }
  }

  /**
   * Whatever the rest of the process may do to the shared registry while this
   * execution does not hold its lock: register workflows, start executions,
   * and run them. Execution ids are UUIDs, so nobody else writes this entry.
   */
  method OthersRun(registry: WorkflowRegistry, executionId: Id)
    requires registry.Valid() && executionId in registry.executions
    modifies registry
    ensures registry.Valid() && executionId in registry.executions
    ensures registry.executions[executionId] == old(registry.executions[executionId])
  {
    var own := registry.executions[executionId];
    var registrations: nat := *;
    while registrations > 0
      invariant registry.Valid()
    {
      var w: Workflow := *;
      var _ := registry.RegisterWorkflow(w);
      registrations := registrations - 1;
    }
    var executions: map<Id, Execution> := *;
    registry.executions := executions[executionId := own];
  }

  ghost predicate Recorded(before: Execution, after: Execution, added: map<Id, StepResult>) {
    && after.stepResults == before.stepResults + added
    && after == before.(stepResults := after.stepResults, currentStep := after.currentStep)
  }

  /** Outcomes are those of the runs; the tasks no longer running are done. */
  ghost predicate Scheduled(runs: map<Id, Outcome>, running: set<Id>, outcomes: map<Id, Outcome>,
                            done: map<Id, Outcome>)
  {
    && running <= runs.Keys
    && done.Keys == runs.Keys - running
    && done.Keys <= outcomes.Keys <= runs.Keys
    && (forall id :: id in outcomes ==> outcomes[id] == runs[id])
    && (forall id :: id in done ==> done[id] == runs[id])
  }

  lemma TaskStarts(runs: map<Id, Outcome>, running: set<Id>, outcomes: map<Id, Outcome>,
                   done: map<Id, Outcome>, task: Id)
    requires Scheduled(runs, running, outcomes, done) && task in running && task !in outcomes
    ensures Scheduled(runs, running, outcomes[task := runs[task]], done)
    ensures runs.Keys - outcomes[task := runs[task]].Keys < runs.Keys - outcomes.Keys
  {
    assert task in runs.Keys - outcomes.Keys;
  }

  lemma TaskEnds(runs: map<Id, Outcome>, running: set<Id>, outcomes: map<Id, Outcome>,
                 done: map<Id, Outcome>, task: Id)
    requires Scheduled(runs, running, outcomes, done) && task in running && task in outcomes
    ensures Scheduled(runs, running - {task}, outcomes, done[task := outcomes[task]])
  {
  }

  /** The second half of a task: an aborted one records nothing. */
  method FinishTask(registry: WorkflowRegistry, executionId: Id, task: Id, out: Outcome,
                    ghost before: Execution, ghost done: map<Id, Outcome>)
    requires registry.Valid() && executionId in registry.executions
    requires task !in done
    requires Recorded(before, registry.executions[executionId], Recordable(done))
    modifies registry`executions
    ensures registry.Valid() && executionId in registry.executions
    ensures Recorded(before, registry.executions[executionId], Recordable(done[task := out]))
  {
    if out.Finished? {
      RecordResult(registry, executionId, task, out.result);
      assert Recordable(done[task := out]) == Recordable(done)[task := out.result];
    } else {
      assert Recordable(done[task := out]) == Recordable(done);
    }
  }

  /**
   * One level of `execute_parallel`. Every spawned task first runs its step on
   * the snapshot and later records the result; the scheduler advances any
   * unfinished task, and other executions may act before every move. The tasks
   * of a level are named by their step ids, which do not repeat (`ScheduledOnce`).
   */
  method ExecuteLevel(o: Oracle, registry: WorkflowRegistry, w: Workflow, level: seq<Id>, executionId: Id,
                      snapshot: Outputs)
    returns (outcomes: map<Id, Outcome>)
    requires registry.Valid() && executionId in registry.executions
    requires Elements(level) <= Ids(w.steps)
    modifies registry
    ensures registry.Valid() && executionId in registry.executions
    ensures outcomes == Runs(o, w.steps, Elements(level), snapshot)
    ensures Recorded(old(registry.executions[executionId]), registry.executions[executionId], Recordable(outcomes))
  {
    var running := set id | id in level;
    outcomes := map[];
    ghost var done: map<Id, Outcome> := map[];
    ghost var runs := Runs(o, w.steps, Elements(level), snapshot);
    ghost var before := registry.executions[executionId];
    while running != {}
      invariant registry.Valid() && executionId in registry.executions
      invariant Scheduled(runs, running, outcomes, done)
      invariant Recorded(before, registry.executions[executionId], Recordable(done))
      decreases running, runs.Keys - outcomes.Keys
    {
      OthersRun(registry, executionId);
      var task :| task in running;
      if task !in outcomes {
        TaskStarts(runs, running, outcomes, done, task);
        var out := ExecuteStep(o, StepOf(w.steps, task), snapshot);
        outcomes := outcomes[task := out];
      } else {
        TaskEnds(runs, running, outcomes, done, task);
        FinishTask(registry, executionId, task, outcomes[task], before, done);
        done := done[task := outcomes[task]];
        running := running - {task};
      }
    }
    assert outcomes == runs && done == runs;
  }

  /** The join loop: collects outputs in level order and stops at the first task that did not succeed. */
  method JoinLevel(level: seq<Id>, outcomes: map<Id, Outcome>, stepOutputs: Outputs)
    returns (r: Result<Outputs, ExecutionError>)
    requires forall id :: id in level ==> id in outcomes
    ensures FirstError(level, outcomes) == if r.Err? then Some(r.error) else None
    ensures r.Ok? ==> r.value == stepOutputs + Collected(level, outcomes)
  {
    var outputs := stepOutputs;
    var i := 0;
    while i < |level|
      invariant 0 <= i <= |level|
      invariant FirstError(level, outcomes) == FirstError(level[i..], outcomes)
      invariant outputs == stepOutputs + Collected(level[..i], outcomes)
    {
      assert level[i..][0] == level[i] && level[i..][1..] == level[i + 1..];
      assert level[..i + 1][..i] == level[..i];
      match outcomes[level[i]] {
        case Aborted(e) =>
          return Err(e);
        case Finished(result) =>
          if result.output.Some? {
            outputs := outputs[level[i] := result.output.value];
          }
          if result.status == Failed {
            return Err(StepFailed(level[i]));
          }
      }
      i := i + 1;
    }
    assert level[..i] == level;
    return Ok(outputs);
  }

  /** How a run ends: the recorded results, and the error that stopped it, if any. */
  datatype Ending = Ending(results: map<Id, StepResult>, error: Option<ExecutionError>)

  ghost predicate LevelsOf(steps: seq<Step>, levels: seq<seq<Id>>) {
    forall k :: 0 <= k < |levels| ==> Elements(levels[k]) <= Ids(steps)
  }

  /** Level by level, every level on the outputs of those before it. */
  ghost function RunLevels(o: Oracle, steps: seq<Step>, levels: seq<seq<Id>>, outputs: Outputs,
                           results: map<Id, StepResult>): Ending
    requires LevelsOf(steps, levels)
    decreases |levels|
  {
    if levels == [] then Ending(results, None)
    else
      var runs := Runs(o, steps, Elements(levels[0]), outputs);
      var e := FirstError(levels[0], runs);
      if e.Some? then Ending(results + Recordable(runs), e)
      else RunLevels(o, steps, levels[1..], outputs + Collected(levels[0], runs), results + Recordable(runs))
  }

  lemma PeelingLevels(steps: seq<Step>, levels: seq<seq<Id>>)
    requires IsPeeling(steps, levels)
    ensures LevelsOf(steps, levels)
  {
    forall k, id | 0 <= k < |levels| && id in levels[k]
      ensures id in Ids(steps)
    {
      NewAtLevel(steps, levels, k, id);
    }
  }

  method ExecuteParallel(o: Oracle, registry: WorkflowRegistry, w: Workflow, executionId: Id)
    returns (error: Option<ExecutionError>, ghost levels: seq<seq<Id>>)
    requires registry.Valid() && executionId in registry.executions
    modifies registry
    ensures registry.Valid() && executionId in registry.executions
    ensures IsLeveling(w.steps, levels) && LevelsOf(w.steps, levels)
    ensures var before, after := old(registry.executions[executionId]), registry.executions[executionId];
            && Ending(after.stepResults, error) == RunLevels(o, w.steps, levels, map[], before.stepResults)
            && after == before.(stepResults := after.stepResults, currentStep := after.currentStep)
  {
    var todo := GetDependencyLevels(w);
    levels := todo;
    PeelingLevels(w.steps, levels);
    var stepOutputs: Outputs := map[];
    ghost var before := registry.executions[executionId];
    while todo != []
      invariant registry.Valid() && executionId in registry.executions
      invariant LevelsOf(w.steps, todo)
      invariant var now := registry.executions[executionId];
                && RunLevels(o, w.steps, levels, map[], before.stepResults)
                   == RunLevels(o, w.steps, todo, stepOutputs, now.stepResults)
                && now == before.(stepResults := now.stepResults, currentStep := now.currentStep)
      decreases |todo|
    {
      var level := todo[0];
      var outcomes := ExecuteLevel(o, registry, w, level, executionId, stepOutputs);
      var joined := JoinLevel(level, outcomes, stepOutputs);
      if joined.Err? {
        return Some(joined.error), levels;
      }
      stepOutputs := joined.value;
      todo := todo[1..];
    }
    return None, levels;
  }

  /** Step by step in list order, whatever `depends_on` says. */
  ghost function RunInOrder(o: Oracle, steps: seq<Step>, outputs: Outputs, results: map<Id, StepResult>): Ending
    decreases |steps|
  {
    if steps == [] then Ending(results, None)
    else
      match Run(o, steps[0], outputs)
      case Aborted(e) => Ending(results, Some(e))
      case Finished(r) =>
        if r.status == Failed then Ending(results[steps[0].id := r], Some(StepFailed(steps[0].name)))
        else RunInOrder(o, steps[1..], AddOutput(outputs, r), results[steps[0].id := r])
  }

  function AddOutput(outputs: Outputs, r: StepResult): Outputs {
    if r.output.Some? then outputs[r.stepId := r.output.value] else outputs
  }

  method ExecuteSequential(o: Oracle, registry: WorkflowRegistry, w: Workflow, executionId: Id)
    returns (error: Option<ExecutionError>)
    requires registry.Valid() && executionId in registry.executions
    modifies registry
    ensures registry.Valid() && executionId in registry.executions
    ensures var before, after := old(registry.executions[executionId]), registry.executions[executionId];
            && Ending(after.stepResults, error) == RunInOrder(o, w.steps, map[], before.stepResults)
            && after == before.(stepResults := after.stepResults, currentStep := after.currentStep)
  {
    var stepOutputs: Outputs := map[];
    var i := 0;
    ghost var before := registry.executions[executionId];
    while i < |w.steps|
      invariant 0 <= i <= |w.steps|
      invariant registry.Valid() && executionId in registry.executions
      invariant var now := registry.executions[executionId];
                && RunInOrder(o, w.steps, map[], before.stepResults)
                   == RunInOrder(o, w.steps[i..], stepOutputs, now.stepResults)
                && now == before.(stepResults := now.stepResults, currentStep := now.currentStep)
    {
      OthersRun(registry, executionId);
      var step := w.steps[i];
      assert w.steps[i..][0] == step && w.steps[i..][1..] == w.steps[i + 1..];
      var out := ExecuteStep(o, step, stepOutputs);
      if out.Aborted? {
        return Some(out.error);
      }
      OutcomeCases(o, step, stepOutputs);
      stepOutputs := AddOutput(stepOutputs, out.result);
      RecordResult(registry, executionId, step.id, out.result);
      OthersRun(registry, executionId);
      if registry.executions[executionId].stepResults[step.id].status == Failed {
        return Some(StepFailed(step.name));
      }
      i := i + 1;
    }
    return None;
  }
}
