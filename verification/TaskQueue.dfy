/** The shared task queue: a table of rows, claimed by priority and age. */
module TaskQueue {
  import opened Prelude

  type Agent = string

  datatype TaskStatus = Pending | Claimed | InProgress | Completed | Failed | Cancelled

  /** `createdAt` is the push time, in whole seconds, so that ties are common. */
  datatype Task = Task(id: nat, fromAgent: Agent, toAgent: Option<Agent>, taskType: string, payload: Option<string>,
                       priority: int, status: TaskStatus, createdAt: nat)

  datatype NewTask = NewTask(fromAgent: Agent, toAgent: Option<Agent>, taskType: string, payload: Option<string>,
                             priority: int)

  datatype Table = Table(rows: seq<Task>, nextId: nat)

  const EMPTY := Table([], 1)

  datatype Event =
    | Push(task: Task)
    | Pop(caller: Option<Agent>, result: Option<Task>)
    | Update(id: nat, status: TaskStatus)

  predicate Eligible(t: Task, caller: Option<Agent>) {
    t.status == Pending && (caller.None? || t.toAgent.None? || t.toAgent == caller)
  }

  /** The order of the query, by falling priority and then by age, does not put u strictly before t. */
  predicate NotAfter(t: Task, u: Task) {
    t.priority > u.priority || (t.priority == u.priority && t.createdAt <= u.createdAt)
  }

  /** A row that the query may return; rows that tie are returned in any order. */
  predicate IsFirst(rows: seq<Task>, caller: Option<Agent>, i: nat) {
    && i < |rows| && Eligible(rows[i], caller)
    && forall j :: 0 <= j < |rows| && Eligible(rows[j], caller) ==> NotAfter(rows[i], rows[j])
  }

  function WithStatus(rows: seq<Task>, id: nat, status: TaskStatus): (r: seq<Task>)
    ensures |r| == |rows|
    ensures forall i :: 0 <= i < |rows| ==> r[i] == if rows[i].id == id then rows[i].(status := status) else rows[i]
  {
    if rows == [] then []
    else [if rows[0].id == id then rows[0].(status := status) else rows[0]] + WithStatus(rows[1..], id, status)
  }

  ghost predicate Step(s: Table, e: Event, t: Table) {
    match e
    case Push(task) =>
      task.id == s.nextId && task.status == Pending && t == Table(s.rows + [task], s.nextId + 1)
    case Pop(caller, None) =>
      t == s && forall i :: 0 <= i < |s.rows| ==> !Eligible(s.rows[i], caller)
    case Pop(caller, Some(task)) =>
      exists i: nat :: IsFirst(s.rows, caller, i) && task == s.rows[i].(status := Claimed)
        && t == s.(rows := s.rows[i := task])
    case Update(id, status) =>
      t == s.(rows := WithStatus(s.rows, id, status))
  }

  /** Row ids are distinct, and lower than any id still to come. */
  ghost predicate WellKeyed(s: Table) {
    && (forall i :: 0 <= i < |s.rows| ==> s.rows[i].id < s.nextId)
    && (forall i, j :: 0 <= i < j < |s.rows| ==> s.rows[i].id != s.rows[j].id)
  }

  lemma {:induction false} FirstExists(rows: seq<Task>, caller: Option<Agent>, n: nat) returns (best: nat)
    requires n <= |rows| && exists i :: 0 <= i < n && Eligible(rows[i], caller)
    ensures best < n && Eligible(rows[best], caller)
    ensures forall j :: 0 <= j < n && Eligible(rows[j], caller) ==> NotAfter(rows[best], rows[j])
  {
    if exists i :: 0 <= i < n - 1 && Eligible(rows[i], caller) {
      best := FirstExists(rows, caller, n - 1);
      if Eligible(rows[n - 1], caller) && !NotAfter(rows[best], rows[n - 1]) {
        best := n - 1;
      }
    } else {
      best := n - 1;
    }
  }

  /**
   * Row i goes from pending to claimed and is handed out; it is not addressed to
   * somebody else, and no such row has a higher priority, or the same and an
   * earlier push.
   */
  ghost predicate ClaimedRow(before: seq<Task>, after: seq<Task>, caller: Option<Agent>, i: nat, task: Task)
    requires i < |before|
  {
    && before[i].status == Pending
    && (caller.Some? ==> before[i].toAgent == None || before[i].toAgent == caller)
    && task == before[i].(status := Claimed) && after == before[i := task]
    && forall j :: 0 <= j < |before| ==>
         || before[j].status != Pending
         || (caller.Some? && before[j].toAgent.Some? && before[j].toAgent != caller)
         || before[j].priority < task.priority
         || (before[j].priority == task.priority && before[j].createdAt >= task.createdAt)
  }

  /** What a pop does, in the fields of the rows. */
  lemma PopMeaning(s: Table, caller: Option<Agent>, result: Option<Task>, t: Table)
    requires Step(s, Pop(caller, result), t)
    ensures result == None <==>
              forall i :: 0 <= i < |s.rows| && s.rows[i].status == Pending ==>
                caller.Some? && s.rows[i].toAgent.Some? && s.rows[i].toAgent != caller
    ensures t.nextId == s.nextId && (result == None ==> t == s)
    ensures result.Some? ==> exists i :: 0 <= i < |s.rows| && ClaimedRow(s.rows, t.rows, caller, i, result.value)
  {
    if result.Some? {
      var i: nat :| IsFirst(s.rows, caller, i) && result.value == s.rows[i].(status := Claimed)
                    && t == s.(rows := s.rows[i := result.value]);
      forall j | 0 <= j < |s.rows| && Eligible(s.rows[j], caller)
        ensures NotAfter(s.rows[i], s.rows[j])
      {
      }
      assert ClaimedRow(s.rows, t.rows, caller, i, result.value);
    }
  }

  class SharedMemory {
    var rows: seq<Task>
    var nextId: nat

    constructor ()
      ensures Contents() == EMPTY && Valid()
    {
      rows, nextId := [], 1;
    }

    ghost function Contents(): Table
      reads this
    {
      Table(rows, nextId)
    }

    ghost predicate Valid()
      reads this
    {
      WellKeyed(Contents())
    }

    method PushTask(task: NewTask, now: nat) returns (id: nat)
      requires Valid()
      modifies this
      ensures Valid() && id == old(nextId) && nextId == id + 1
      ensures rows == old(rows) +
                [Task(id, task.fromAgent, task.toAgent, task.taskType, task.payload, task.priority, Pending, now)]
      ensures Step(old(Contents()),
                   Push(Task(id, task.fromAgent, task.toAgent, task.taskType, task.payload, task.priority,
                             Pending, now)),
                   Contents())
    {
      id := nextId;
      rows := rows +
        [Task(id, task.fromAgent, task.toAgent, task.taskType, task.payload, task.priority, Pending, now)];
      nextId := nextId + 1;
    }

    method PopTask(forAgent: Option<Agent>) returns (result: Option<Task>)
      requires Valid()
      modifies this`rows
      ensures Valid()
      ensures Step(old(Contents()), Pop(forAgent, result), Contents())
      ensures result == None <==>
                forall i :: 0 <= i < |old(rows)| && old(rows)[i].status == Pending ==>
                  forAgent.Some? && old(rows)[i].toAgent.Some? && old(rows)[i].toAgent != forAgent
      ensures nextId == old(nextId) && (result == None ==> rows == old(rows))
      ensures result.Some? ==>
                exists i :: 0 <= i < |old(rows)| && ClaimedRow(old(rows), rows, forAgent, i, result.value)
    {
      ghost var before := Contents();
      if !exists i :: 0 <= i < |rows| && Eligible(rows[i], forAgent) {
        PopMeaning(before, forAgent, None, before);
        return None;
      }
      ghost var best := FirstExists(rows, forAgent, |rows|);
      assert IsFirst(rows, forAgent, best);
      var i: nat :| i < |rows| && IsFirst(rows, forAgent, i);
      var claimed := rows[i].(status := Claimed);
      rows := rows[i := claimed];
      result := Some(claimed);
      PopMeaning(before, forAgent, result, Contents());
    }

    method UpdateTaskStatus(taskId: nat, status: TaskStatus)
      requires Valid()
      modifies this`rows
      ensures Valid()
      ensures Step(old(Contents()), Update(taskId, status), Contents())
      ensures nextId == old(nextId) && |rows| == |old(rows)|
      ensures forall i :: 0 <= i < |rows| ==>
                rows[i] == if old(rows)[i].id == taskId then old(rows)[i].(status := status) else old(rows)[i]
    {
      rows := WithStatus(rows, taskId, status);
    }
  }

  // ---- Whole runs ------------------------------------------------------------

  /** A run of the queue from a given table: any events, by any callers, in any order. */
  ghost predicate IsRun(states: seq<Table>, events: seq<Event>) {
    |states| == |events| + 1 && forall k :: 0 <= k < |events| ==> StepAt(states, events, k)
  }

  ghost predicate StepAt(states: seq<Table>, events: seq<Event>, k: nat)
    requires k < |events| && k + 1 < |states|
  {
    Step(states[k], events[k], states[k + 1])
  }

  lemma RunInit(states: seq<Table>, events: seq<Event>)
    requires IsRun(states, events) && events != []
    ensures var n := |events| - 1;
            IsRun(states[..n + 1], events[..n]) && Step(states[n], events[n], states[n + 1])
  {
    var n := |events| - 1;
    assert StepAt(states, events, n);
    var init, before := states[..n + 1], events[..n];
    forall k | 0 <= k < n
      ensures StepAt(init, before, k)
    {
      assert StepAt(states, events, k);
    }
  }

  /** Successful pops of one task. */
  ghost function Claims(events: seq<Event>, id: nat): nat {
    if events == [] then 0
    else
      var last := events[|events| - 1];
      Claims(events[..|events| - 1], id) + if last.Pop? && last.result.Some? && last.result.value.id == id then 1 else 0
  }

  ghost function PushesOf(events: seq<Event>, id: nat): nat {
    if events == [] then 0
    else
      var last := events[|events| - 1];
      PushesOf(events[..|events| - 1], id) + if last.Push? && last.task.id == id then 1 else 0
  }

  /** Status updates that put the task back to pending. */
  ghost function Resets(events: seq<Event>, id: nat): nat {
    if events == [] then 0
    else
      var last := events[|events| - 1];
      Resets(events[..|events| - 1], id) + if last == Update(id, Pending) then 1 else 0
  }

  ghost predicate IsPending(s: Table, id: nat) {
    exists i :: 0 <= i < |s.rows| && s.rows[i].id == id && s.rows[i].status == Pending
  }

  lemma StepKeepsKeys(s: Table, e: Event, t: Table)
    requires WellKeyed(s) && Step(s, e, t)
    ensures WellKeyed(t)
  {
  }

  /** A claim takes the task out of the pending ones; only a push or a reset puts it there. */
  lemma StepBalance(s: Table, e: Event, t: Table, id: nat)
    requires WellKeyed(s) && Step(s, e, t)
    ensures Claims([e], id) + (if IsPending(t, id) then 1 else 0)
              <= PushesOf([e], id) + Resets([e], id) + (if IsPending(s, id) then 1 else 0)
  {
    assert [e][..0] == [];
    if i :| 0 <= i < |t.rows| && t.rows[i].id == id && t.rows[i].status == Pending {
      assert i < |s.rows| ==> s.rows[i].id == id;
    }
  }

  lemma {:induction false} ClaimsAreBalanced(states: seq<Table>, events: seq<Event>, id: nat)
    requires IsRun(states, events) && states[0] == EMPTY
    ensures WellKeyed(states[|events|])
    ensures Claims(events, id) + (if IsPending(states[|events|], id) then 1 else 0)
              <= PushesOf(events, id) + Resets(events, id)
  {
    if events == [] {
    } else {
      var n := |events| - 1;
      RunInit(states, events);
      ClaimsAreBalanced(states[..n + 1], events[..n], id);
      StepKeepsKeys(states[n], events[n], states[n + 1]);
      StepBalance(states[n], events[n], states[n + 1], id);
      assert [events[n]][..0] == [];
    }
  }

  /** Over every run from the empty queue, exactly the ids below the next one have been pushed, each once. */
  lemma {:induction false} PushedOnce(states: seq<Table>, events: seq<Event>, id: nat)
    requires IsRun(states, events) && states[0] == EMPTY
    ensures states[|events|].nextId >= 1
    ensures PushesOf(events, id) == if 1 <= id < states[|events|].nextId then 1 else 0
  {
    if events == [] {
    } else {
      var n := |events| - 1;
      RunInit(states, events);
      PushedOnce(states[..n + 1], events[..n], id);
    }
  }

  /**
   * Over every run from the empty queue, a task is claimed at most once, plus
   * once for each time it is put back to pending; one less while it is pending.
   */
  lemma ClaimedAtMostOncePerReset(states: seq<Table>, events: seq<Event>, id: nat)
    requires IsRun(states, events) && states[0] == EMPTY
    ensures Claims(events, id) + (if IsPending(states[|events|], id) then 1 else 0) <= 1 + Resets(events, id)
  {
    ClaimsAreBalanced(states, events, id);
    PushedOnce(states, events, id);
  }

  ghost function Pushes(events: seq<Event>): seq<Task> {
    if events == [] then []
    else
      var last := events[|events| - 1];
      Pushes(events[..|events| - 1]) + if last.Push? then [last.task] else []
  }

  /** No task is lost, duplicated or altered: the rows are the pushed tasks in order, but for their status. */
  lemma {:induction false} RowsArePushes(states: seq<Table>, events: seq<Event>)
    requires IsRun(states, events) && states[0] == EMPTY
    ensures RowsFrom(states[|events|], Pushes(events))
  {
    if events == [] {
    } else {
      var n := |events| - 1;
      RunInit(states, events);
      RowsArePushes(states[..n + 1], events[..n]);
      StepKeepsRows(states[n], events[n], states[n + 1], Pushes(events[..n]));
    }
  }

  /** Row by row the table holds the given tasks, but for their status. */
  ghost predicate RowsFrom(s: Table, tasks: seq<Task>) {
    |s.rows| == |tasks| && forall i :: 0 <= i < |tasks| ==> s.rows[i].(status := Pending) == tasks[i]
  }

  lemma StepKeepsRows(s: Table, e: Event, t: Table, tasks: seq<Task>)
    requires RowsFrom(s, tasks) && Step(s, e, t)
    ensures RowsFrom(t, tasks + if e.Push? then [e.task] else [])
  {
  }

  /** Uninterrupted successful pops by one caller. */
  ghost predicate Drains(states: seq<Table>, caller: Option<Agent>, popped: seq<Task>) {
    && |states| == |popped| + 1
    && forall k :: 0 <= k < |popped| ==> PopAt(states, caller, popped, k)
  }

  ghost predicate PopAt(states: seq<Table>, caller: Option<Agent>, popped: seq<Task>, k: nat)
    requires k < |popped| && k + 1 < |states|
  {
    Step(states[k], Pop(caller, Some(popped[k])), states[k + 1])
  }

  lemma DrainsPrefix(states: seq<Table>, caller: Option<Agent>, popped: seq<Task>, n: nat)
    requires Drains(states, caller, popped) && n < |popped|
    ensures Drains(states[..n + 1], caller, popped[..n]) && Step(states[n], Pop(caller, Some(popped[n])), states[n + 1])
  {
    assert PopAt(states, caller, popped, n);
    var init, before := states[..n + 1], popped[..n];
    forall k | 0 <= k < n
      ensures PopAt(init, caller, before, k)
    {
      assert PopAt(states, caller, popped, k);
    }
  }

  ghost predicate IsEligible(s: Table, caller: Option<Agent>, id: nat) {
    exists i :: 0 <= i < |s.rows| && s.rows[i].id == id && s.rows[i].status == Pending
      && (caller == None || s.rows[i].toAgent == None || s.rows[i].toAgent == caller)
  }

  /** A pop claims an eligible task that nothing eligible precedes, and makes exactly that one ineligible. */
  lemma PopTakesFirst(s: Table, caller: Option<Agent>, task: Task, t: Table, id: nat)
    requires WellKeyed(s) && Step(s, Pop(caller, Some(task)), t)
    ensures WellKeyed(t) && IsEligible(s, caller, task.id)
    ensures IsEligible(t, caller, id) <==> IsEligible(s, caller, id) && id != task.id
    ensures forall j :: 0 <= j < |t.rows| && Eligible(t.rows[j], caller) ==> NotAfter(task, t.rows[j])
  {
    var i: nat :| IsFirst(s.rows, caller, i) && task == s.rows[i].(status := Claimed)
                  && t == s.(rows := s.rows[i := task]);
    assert forall j :: 0 <= j < |t.rows| && j != i ==> t.rows[j] == s.rows[j];
    OneLessEligible(s, caller, i, t, id);
  }

  lemma OneLessEligible(s: Table, caller: Option<Agent>, i: nat, t: Table, id: nat)
    requires WellKeyed(s) && i < |s.rows| == |t.rows|
    requires t.rows[i].id == s.rows[i].id && t.rows[i].status == Claimed
    requires forall j :: 0 <= j < |t.rows| && j != i ==> t.rows[j] == s.rows[j]
    ensures IsEligible(t, caller, id) <==> IsEligible(s, caller, id) && id != s.rows[i].id
  {
    if j :| 0 <= j < |t.rows| && t.rows[j].id == id && Eligible(t.rows[j], caller) {
      assert s.rows[j].id == id;
    }
    if j :| 0 <= j < |s.rows| && s.rows[j].id == id && Eligible(s.rows[j], caller) && id != s.rows[i].id {
      assert t.rows[j].id == id;
    }
  }

  ghost predicate Precede(before: seq<Task>, s: Table, caller: Option<Agent>) {
    forall i, j :: 0 <= i < |before| && 0 <= j < |s.rows| && Eligible(s.rows[j], caller) ==>
      NotAfter(before[i], s.rows[j])
  }

  /** What had been popped before precedes the newly popped task and everything still eligible. */
  lemma StillAhead(s: Table, caller: Option<Agent>, last: Task, t: Table, before: seq<Task>)
    requires WellKeyed(s) && Step(s, Pop(caller, Some(last)), t)
    requires Precede(before, s, caller)
    ensures forall i :: 0 <= i < |before| ==> NotAfter(before[i], last)
    ensures Precede(before, t, caller)
  {
    var k: nat :| IsFirst(s.rows, caller, k) && last == s.rows[k].(status := Claimed)
                  && t == s.(rows := s.rows[k := last]);
    forall i | 0 <= i < |before|
      ensures NotAfter(before[i], last)
    {
      assert NotAfter(before[i], s.rows[k]);
    }
  }

  ghost predicate InOrder(popped: seq<Task>) {
    forall i, j :: 0 <= i < j < |popped| ==>
      || popped[i].priority > popped[j].priority
      || (popped[i].priority == popped[j].priority && popped[i].createdAt <= popped[j].createdAt)
  }

  lemma InOrderSnoc(before: seq<Task>, last: Task)
    requires InOrder(before) && forall i :: 0 <= i < |before| ==> NotAfter(before[i], last)
    ensures InOrder(before + [last])
  {
  }

  lemma PrecedeSnoc(before: seq<Task>, last: Task, t: Table, caller: Option<Agent>)
    requires Precede(before, t, caller) && Precede([last], t, caller)
    ensures Precede(before + [last], t, caller)
  {
    forall i, j | 0 <= i < |before + [last]| && 0 <= j < |t.rows| && Eligible(t.rows[j], caller)
      ensures NotAfter((before + [last])[i], t.rows[j])
    {
      assert i == |before| ==> NotAfter([last][0], t.rows[j]);
    }
  }

  lemma OneMoreInOrder(s: Table, caller: Option<Agent>, before: seq<Task>, last: Task, t: Table)
    requires WellKeyed(s) && Step(s, Pop(caller, Some(last)), t)
    requires Precede(before, s, caller) && InOrder(before)
    ensures WellKeyed(t) && Precede(before + [last], t, caller) && InOrder(before + [last])
  {
    PopTakesFirst(s, caller, last, t, last.id);
    StillAhead(s, caller, last, t, before);
    PrecedeSnoc(before, last, t, caller);
    InOrderSnoc(before, last);
  }

  /**
   * Uninterrupted pops come out in order: priorities do not rise, and among equal
   * priorities older tasks come first.
   */
  lemma {:induction false} DrainedInOrder(states: seq<Table>, caller: Option<Agent>, popped: seq<Task>)
    requires Drains(states, caller, popped) && WellKeyed(states[0])
    ensures WellKeyed(states[|popped|]) && Precede(popped, states[|popped|], caller)
    ensures InOrder(popped)
  {
    if popped == [] {
    } else {
      var n := |popped| - 1;
      var s, t, init, last := states[n], states[n + 1], popped[..n], popped[n];
      DrainsPrefix(states, caller, popped, n);
      DrainedInOrder(states[..n + 1], caller, init);
      OneMoreInOrder(s, caller, init, last, t);
      assert popped == init + [last];
    }
  }

  ghost predicate WasPopped(popped: seq<Task>, id: nat) {
    exists k :: 0 <= k < |popped| && popped[k].id == id
  }

  lemma WasPoppedSnoc(popped: seq<Task>, id: nat)
    requires popped != []
    ensures var n := |popped| - 1; WasPopped(popped, id) <==> WasPopped(popped[..n], id) || popped[n].id == id
  {
    var init := popped[..|popped| - 1];
    if k :| 0 <= k < |init| && init[k].id == id {
      assert popped[k].id == id;
    }
    if k :| 0 <= k < |popped| && popped[k].id == id {
      assert k < |init| ==> init[k].id == id;
    }
  }

  /** The tasks eligible at the start are split into those popped and those still eligible. */
  lemma {:induction false} DrainedSplit(states: seq<Table>, caller: Option<Agent>, popped: seq<Task>, id: nat)
    requires Drains(states, caller, popped) && WellKeyed(states[0])
    ensures IsEligible(states[0], caller, id) <==> IsEligible(states[|popped|], caller, id) || WasPopped(popped, id)
    ensures !(IsEligible(states[|popped|], caller, id) && WasPopped(popped, id))
  {
    if popped == [] {
    } else {
      var n := |popped| - 1;
      DrainsPrefix(states, caller, popped, n);
      DrainedInOrder(states[..n + 1], caller, popped[..n]);
      DrainedSplit(states[..n + 1], caller, popped[..n], id);
      PopTakesFirst(states[n], caller, popped[n], states[n + 1], id);
      WasPoppedSnoc(popped, id);
    }
  }

  /** No task comes twice. */
  lemma DrainedOnce(states: seq<Table>, caller: Option<Agent>, popped: seq<Task>, i: nat, j: nat)
    requires Drains(states, caller, popped) && WellKeyed(states[0]) && i < j < |popped|
    ensures popped[i].id != popped[j].id
  {
    DrainsPrefix(states, caller, popped, j);
    DrainedInOrder(states[..j + 1], caller, popped[..j]);
    DrainedSplit(states[..j + 1], caller, popped[..j], popped[j].id);
    PopTakesFirst(states[j], caller, popped[j], states[j + 1], popped[j].id);
    assert WasPopped(popped[..j], popped[j].id) || popped[..j][i].id != popped[j].id;
  }

  /** Popping until nothing is returned has popped exactly the tasks that were eligible at the start. */
  lemma DrainedCompletely(states: seq<Table>, caller: Option<Agent>, popped: seq<Task>, end: Table)
    requires Drains(states, caller, popped) && WellKeyed(states[0])
    requires Step(states[|popped|], Pop(caller, None), end)
    ensures forall id :: IsEligible(states[0], caller, id) <==> WasPopped(popped, id)
  {
    forall id
      ensures IsEligible(states[0], caller, id) <==> WasPopped(popped, id)
    {
      DrainedSplit(states, caller, popped, id);
    }
  }
}
