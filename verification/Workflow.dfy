/** Workflow definitions, their validation, and the registry that stores them. */
module Workflows {
  import opened Prelude
  import opened DependencyGraph

  datatype Json = Json(text: string)

  datatype Strategy = Sequential | Parallel | Dag

  datatype Step = Step(id: Id, name: string, dependsOn: seq<Id>, maxAttempts: nat)

  datatype Workflow = Workflow(id: Id, steps: seq<Step>, strategy: Strategy, enabled: bool)

  datatype Status = Pending | Running | Completed | Failed | Cancelled

  /** What `execute_step` reports when all attempts have failed. */
  datatype Exhausted = Exhausted(attempts: nat, cause: string)

  datatype StepResult = StepResult(stepId: Id, status: Status, output: Option<Json>, error: Option<Exhausted>)

  datatype ExecutionError =
    | StepFailed(step: string)
    | NoAgent(step: Id)
    | NotPrepared(step: Id)

  datatype Execution = Execution(
    id: Id,
    workflowId: Id,
    status: Status,
    currentStep: Option<Id>,
    stepResults: map<Id, StepResult>,
    error: Option<ExecutionError>)

  datatype RegistryError =
    | AlreadyExists(workflow: Id)
    | NotFound(workflow: Id)
    | Disabled
    | DuplicateStep(step: Id)
    | DanglingDependency(step: Id, dependency: Id)
    | CircularDependencies

  ghost function Ids(steps: seq<Step>): set<Id> {
    set s | s in steps :: s.id
  }

  ghost predicate DistinctIds(steps: seq<Step>) {
    forall i, j :: 0 <= i < j < |steps| ==> steps[i].id != steps[j].id
  }

  ghost predicate DependenciesExist(steps: seq<Step>) {
    forall s, d :: s in steps && d in s.dependsOn ==> d in Ids(steps)
  }

  /** The hash map the detector builds; for a repeated id the last step wins. */
  function GraphOf(steps: seq<Step>): Graph {
    if steps == [] then map[]
    else
      var last := steps[|steps| - 1];
      GraphOf(steps[..|steps| - 1])[last.id := last.dependsOn]
  }

  ghost predicate WellFormed(w: Workflow) {
    DistinctIds(w.steps) && DependenciesExist(w.steps) && !Cyclic(GraphOf(w.steps))
  }

  lemma {:induction false} GraphKeys(steps: seq<Step>)
    ensures GraphOf(steps).Keys == Ids(steps)
  {
    if steps == [] {
    } else {
      var init, last := steps[..|steps| - 1], steps[|steps| - 1];
      GraphKeys(init);
      assert steps == init + [last];
    }
  }

  /** The last step with an id determines its successors. */
  lemma {:induction false} GraphLookup(steps: seq<Step>, i: nat)
    requires i < |steps| && forall j :: i < j < |steps| ==> steps[j].id != steps[i].id
    ensures steps[i].id in GraphOf(steps)
    ensures GraphOf(steps)[steps[i].id] == steps[i].dependsOn
  {
    var init := steps[..|steps| - 1];
    if i == |init| {
    } else {
      GraphLookup(init, i);
    }
  }

  lemma {:induction false} IdCount(steps: seq<Step>)
    ensures |Ids(steps)| <= |steps|
    ensures DistinctIds(steps) ==> |Ids(steps)| == |steps|
  {
    if steps == [] {
      assert Ids(steps) == {};
    } else {
      var init, last := steps[..|steps| - 1], steps[|steps| - 1];
      IdCount(init);
      assert steps == init + [last];
      assert Ids(steps) == Ids(init) + {last.id};
    }
  }

  /** Position i passes the checks of the validation loop. */
  ghost predicate StepAccepted(steps: seq<Step>, i: nat)
    requires i < |steps|
  {
    steps[i].id !in Ids(steps[..i]) && forall d :: d in steps[i].dependsOn ==> d in Ids(steps)
  }

  /** d is the first of the dependencies that no step has as its id. */
  ghost predicate IsFirstMissing(steps: seq<Step>, dependencies: seq<Id>, d: Id) {
    d !in Ids(steps)
    && exists k :: 0 <= k < |dependencies| && dependencies[k] == d
         && forall j :: 0 <= j < k ==> dependencies[j] in Ids(steps)
  }

  /** The error names the first step, and in it the first check and dependency, that fails. */
  ghost predicate ExplainsRejection(steps: seq<Step>, e: RegistryError) {
    match e
    case DuplicateStep(id) =>
      exists i :: 0 <= i < |steps| && (forall j :: 0 <= j < i ==> StepAccepted(steps, j))
        && steps[i].id == id && id in Ids(steps[..i])
    case DanglingDependency(id, d) =>
      exists i :: 0 <= i < |steps| && (forall j :: 0 <= j < i ==> StepAccepted(steps, j))
        && steps[i].id == id && id !in Ids(steps[..i])
        && IsFirstMissing(steps, steps[i].dependsOn, d)
    case CircularDependencies =>
      DistinctIds(steps) && DependenciesExist(steps) && Cyclic(GraphOf(steps))
    case _ => false
  }

  lemma AllAccepted(steps: seq<Step>)
    requires forall i :: 0 <= i < |steps| ==> StepAccepted(steps, i)
    ensures DistinctIds(steps) && DependenciesExist(steps)
  {
    forall i, j | 0 <= i < j < |steps|
      ensures steps[i].id != steps[j].id
    {
      assert StepAccepted(steps, j);
      assert steps[i] in steps[..j];
    }
    forall s, d | s in steps && d in s.dependsOn
      ensures d in Ids(steps)
    {
      var i :| 0 <= i < |steps| && steps[i] == s;
      assert StepAccepted(steps, i);
    }
  }

  lemma RejectedIsIllFormed(w: Workflow, e: RegistryError)
    requires ExplainsRejection(w.steps, e)
    ensures !WellFormed(w)
  {
    match e
    case DuplicateStep(id) =>
      var i :| 0 <= i < |w.steps| && w.steps[i].id == id && id in Ids(w.steps[..i]);
      var s :| s in w.steps[..i] && s.id == id;
      var j :| 0 <= j < i && w.steps[j] == s;
    case DanglingDependency(id, d) =>
      var i :| 0 <= i < |w.steps| && IsFirstMissing(w.steps, w.steps[i].dependsOn, d);
      assert w.steps[i] in w.steps;
    case CircularDependencies =>
  }

  method HasCircularDependencies(w: Workflow) returns (found: bool)
    ensures found <==> Cyclic(GraphOf(w.steps))
  {
    var graph: Graph := map[];
    var i := 0;
    while i < |w.steps|
      invariant 0 <= i <= |w.steps|
      invariant graph == GraphOf(w.steps[..i])
    {
      assert w.steps[..i + 1][..i] == w.steps[..i];
      graph := graph[w.steps[i].id := w.steps[i].dependsOn];
      i := i + 1;
    }
    assert w.steps[..i] == w.steps;
    found := DetectCycle(graph);
  }

  /** Whether some step has this id. */
  method HasStep(steps: seq<Step>, id: Id) returns (found: bool)
    ensures found <==> id in Ids(steps)
  {
    var i := 0;
    while i < |steps|
      invariant 0 <= i <= |steps|
      invariant forall j :: 0 <= j < i ==> steps[j].id != id
    {
      if steps[i].id == id {
        return true;
      }
      i := i + 1;
    }
    return false;
  }

  method ValidateWorkflow(w: Workflow) returns (r: Result<(), RegistryError>)
    ensures r.Ok? <==> WellFormed(w)
    ensures r.Err? ==> ExplainsRejection(w.steps, r.error)
  {
    var steps := w.steps;
    var stepIds: set<Id> := {};
    var i := 0;
    while i < |steps|
      invariant 0 <= i <= |steps|
      invariant stepIds == Ids(steps[..i])
      invariant forall j :: 0 <= j < i ==> StepAccepted(steps, j)
    {
      var step := steps[i];
      if step.id in stepIds {
        r := Err(DuplicateStep(step.id));
        RejectedIsIllFormed(w, r.error);
        return;
      }
      assert steps[..i + 1] == steps[..i] + [step];
      stepIds := stepIds + {step.id};

      var k := 0;
      while k < |step.dependsOn|
        invariant 0 <= k <= |step.dependsOn|
        invariant forall j :: 0 <= j < k ==> step.dependsOn[j] in Ids(steps)
      {
        var dep := step.dependsOn[k];
        var present := HasStep(steps, dep);
        if !present {
          assert IsFirstMissing(steps, steps[i].dependsOn, dep);
          r := Err(DanglingDependency(step.id, dep));
          RejectedIsIllFormed(w, r.error);
          return;
        }
        k := k + 1;
      }
      assert StepAccepted(steps, i);
      i := i + 1;
    }
    AllAccepted(steps);

    var circular := HasCircularDependencies(w);
    if circular {
      return Err(CircularDependencies);
    }
    return Ok(());
  }

  class WorkflowRegistry {
    var workflows: map<Id, Workflow>
    var executions: map<Id, Execution>

    constructor ()
      ensures Valid() && workflows == map[] && executions == map[]
    {
      workflows, executions := map[], map[];
    }

    /** Every stored workflow has passed validation and sits under its own id. */
    ghost predicate Valid()
      reads this
    {
      forall id :: id in workflows ==> workflows[id].id == id && WellFormed(workflows[id])
    }

    method RegisterWorkflow(w: Workflow) returns (r: Result<(), RegistryError>)
      requires Valid()
      modifies this`workflows
      ensures Valid()
      ensures r.Ok? <==> w.id !in old(workflows) && WellFormed(w)
      ensures workflows == if r.Ok? then old(workflows)[w.id := w] else old(workflows)
      ensures r.Err? && w.id in old(workflows) ==> r.error == AlreadyExists(w.id)
      ensures r.Err? && w.id !in old(workflows) ==> ExplainsRejection(w.steps, r.error)
    {
      if w.id in workflows {
        return Err(AlreadyExists(w.id));
      }
      r := ValidateWorkflow(w);
      if r.Err? {
        return;
      }
      workflows := workflows[w.id := w];
    }

    /** `executionId` stands for the freshly drawn UUID. */
    method StartExecution(workflowId: Id, executionId: Id) returns (r: Result<Id, RegistryError>)
      requires Valid()
      modifies this`executions
      ensures Valid()
      ensures r.Ok? <==> workflowId in workflows && workflows[workflowId].enabled
      ensures r.Ok? ==> r.value == executionId
      ensures r.Ok? ==> executions == old(executions)[executionId :=
                          Execution(executionId, workflowId, Pending, None, map[], None)]
      ensures r.Err? ==> executions == old(executions)
      ensures r.Err? ==> r.error == if workflowId in workflows then Disabled else NotFound(workflowId)
    {
      if workflowId !in workflows {
        return Err(NotFound(workflowId));
      }
      var workflow := workflows[workflowId];
      if !workflow.enabled {
        return Err(Disabled);
      }
      executions := executions[executionId := Execution(executionId, workflow.id, Pending, None, map[], None)];
      return Ok(executionId);
    }
  }
}
