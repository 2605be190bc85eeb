/** Dependency levels: what the peeling loop computes, when it is complete, and why it is optimal. */
module Levels {
  import opened Prelude
  import opened DependencyGraph
  import opened Workflows

  predicate DependenciesPlaced(step: Step, placed: set<Id>) {
    forall d :: d in step.dependsOn ==> d in placed
  }

  /** The steps, in list order, that one pass of the loop can place. */
  ghost function Ready(steps: seq<Step>, placed: set<Id>): seq<Id> {
    if steps == [] then []
    else
      var init, last := steps[..|steps| - 1], steps[|steps| - 1];
      if last.id !in placed && DependenciesPlaced(last, placed)
      then Ready(init, placed) + [last.id]
      else Ready(init, placed)
  }

  ghost function Placed(levels: seq<seq<Id>>): set<Id> {
    if levels == [] then {}
    else Placed(levels[..|levels| - 1]) + Elements(levels[|levels| - 1])
  }

  /** Each level is the non-empty set of steps that the levels before it make ready. */
  ghost predicate IsPeeling(steps: seq<Step>, levels: seq<seq<Id>>) {
    forall k :: 0 <= k < |levels| ==> IsPeeledAt(steps, levels, k)
  }

  ghost predicate IsPeeledAt(steps: seq<Step>, levels: seq<seq<Id>>, k: nat)
    requires k < |levels|
  {
    && |Placed(levels[..k])| < |steps|
    && levels[k] != []
    && levels[k] == Ready(steps, Placed(levels[..k]))
  }

  /** A peeling that stopped because enough was placed or nothing was ready. */
  ghost predicate IsLeveling(steps: seq<Step>, levels: seq<seq<Id>>) {
    IsPeeling(steps, levels) && (|Placed(levels)| >= |steps| || Ready(steps, Placed(levels)) == [])
  }

  lemma {:induction false} ReadyMembers(steps: seq<Step>, placed: set<Id>, id: Id)
    ensures id in Ready(steps, placed) <==>
              exists s :: s in steps && s.id == id && id !in placed && DependenciesPlaced(s, placed)
  {
    if steps == [] {
    } else {
      var init, last := steps[..|steps| - 1], steps[|steps| - 1];
      ReadyMembers(init, placed, id);
      assert steps == init + [last];
    }
  }

  /** One pass collects in list order. */
  lemma {:induction false} ReadyInListOrder(steps: seq<Step>, placed: set<Id>, p: nat, q: nat) returns (i: nat, j: nat)
    requires p < q < |Ready(steps, placed)|
    ensures i < j < |steps|
    ensures steps[i].id == Ready(steps, placed)[p] && steps[j].id == Ready(steps, placed)[q]
  {
    var init, last := steps[..|steps| - 1], steps[|steps| - 1];
    if q < |Ready(init, placed)| {
      i, j := ReadyInListOrder(init, placed, p, q);
    } else {
      ReadyMembers(init, placed, Ready(init, placed)[p]);
      var s :| s in init && s.id == Ready(init, placed)[p];
      i :| 0 <= i < |init| && init[i] == s;
      j := |steps| - 1;
    }
  }

  lemma NewlyPlaced(steps: seq<Step>, placed: set<Id>, id: Id)
    requires id in Ready(steps, placed)
    ensures id in Ids(steps) && id !in placed
  {
    ReadyMembers(steps, placed, id);
  }

  lemma {:induction false} ReadyDistinct(steps: seq<Step>, placed: set<Id>)
    requires DistinctIds(steps)
    ensures Distinct(Ready(steps, placed))
  {
    if steps == [] {
    } else {
      var init, last := steps[..|steps| - 1], steps[|steps| - 1];
      ReadyDistinct(init, placed);
      ReadyMembers(init, placed, last.id);
    }
  }

  lemma {:induction false} PlacedMembers(levels: seq<seq<Id>>, id: Id)
    ensures id in Placed(levels) <==> exists k :: 0 <= k < |levels| && id in levels[k]
  {
    if levels == [] {
    } else {
      var n := |levels| - 1;
      PlacedMembers(levels[..n], id);
      if id in Placed(levels[..n]) {
        var k :| 0 <= k < n && id in levels[..n][k];
        assert id in levels[k];
      }
      if k :| 0 <= k < |levels| && id in levels[k] {
        assert k < n ==> id in levels[..n][k];
      }
    }
  }

  lemma PlacedNext(levels: seq<seq<Id>>, k: nat)
    requires k < |levels|
    ensures Placed(levels[..k + 1]) == Placed(levels[..k]) + Elements(levels[k])
  {
    assert levels[..k + 1][..k] == levels[..k];
  }

  lemma {:induction false} PlacedMonotone(levels: seq<seq<Id>>, i: nat, j: nat)
    requires i <= j <= |levels|
    ensures Placed(levels[..i]) <= Placed(levels[..j])
    decreases j
  {
    if i < j {
      PlacedMonotone(levels, i, j - 1);
      PlacedNext(levels, j - 1);
    }
  }

  lemma PeelingExtend(steps: seq<Step>, levels: seq<seq<Id>>, next: seq<Id>)
    requires IsPeeling(steps, levels) && |Placed(levels)| < |steps|
    requires next != [] && next == Ready(steps, Placed(levels))
    ensures IsPeeling(steps, levels + [next])
    ensures Placed(levels + [next]) == Placed(levels) + Elements(next)
  {
    var all := levels + [next];
    assert all[..|levels|] == levels;
    forall k | 0 <= k < |all|
      ensures IsPeeledAt(steps, all, k)
    {
      if k < |levels| {
        assert IsPeeledAt(steps, levels, k) && all[..k] == levels[..k];
      }
    }
  }

  /** What a level places is a step that no earlier level placed, with all its dependencies placed by then. */
  lemma NewAtLevel(steps: seq<Step>, levels: seq<seq<Id>>, k: nat, id: Id)
    requires IsPeeling(steps, levels) && k < |levels| && id in levels[k]
    ensures id in Ids(steps) && id !in Placed(levels[..k])
    ensures exists s :: s in steps && s.id == id && DependenciesPlaced(s, Placed(levels[..k]))
  {
    assert IsPeeledAt(steps, levels, k);
    ReadyMembers(steps, Placed(levels[..k]), id);
  }

  lemma OneStepPerId(steps: seq<Step>, s: Step, t: Step)
    requires DistinctIds(steps) && s in steps && t in steps && s.id == t.id
    ensures s == t
  {
    var i :| 0 <= i < |steps| && steps[i] == s;
    var j :| 0 <= j < |steps| && steps[j] == t;
  }

  lemma PlacedAreSteps(steps: seq<Step>, levels: seq<seq<Id>>)
    requires IsPeeling(steps, levels)
    ensures Placed(levels) <= Ids(steps)
  {
    forall id | id in Placed(levels)
      ensures id in Ids(steps)
    {
      PlacedMembers(levels, id);
      var k :| 0 <= k < |levels| && id in levels[k];
      NewAtLevel(steps, levels, k, id);
    }
  }

  /** The variant of the peeling loop: the steps not placed yet. */
  lemma PeelingProgress(steps: seq<Step>, levels: seq<seq<Id>>, next: seq<Id>)
    requires IsPeeling(steps, levels) && |Placed(levels)| < |steps|
    requires next != [] && next == Ready(steps, Placed(levels))
    ensures IsPeeling(steps, levels + [next])
    ensures Placed(levels + [next]) == Placed(levels) + Elements(next)
    ensures Ids(steps) - Placed(levels + [next]) < Ids(steps) - Placed(levels)
  {
    PeelingExtend(steps, levels, next);
    NewlyPlaced(steps, Placed(levels), next[0]);
    assert next[0] in Ids(steps) - Placed(levels);
    assert next[0] !in Ids(steps) - Placed(levels + [next]);
  }

  /** One pass over the list: the steps not yet placed whose dependencies all are. */
  method CollectReady(steps: seq<Step>, placed: set<Id>) returns (currentLevel: seq<Id>)
    ensures currentLevel == Ready(steps, placed)
  {
    currentLevel := [];
    var i := 0;
    while i < |steps|
      invariant 0 <= i <= |steps|
      invariant currentLevel == Ready(steps[..i], placed)
    {
      assert steps[..i + 1][..i] == steps[..i];
      var step := steps[i];
      i := i + 1;
      if step.id in placed {
        continue;
      }
      if DependenciesPlaced(step, placed) {
        currentLevel := currentLevel + [step.id];
      }
    }
    assert steps[..i] == steps;
  }

  method PlaceAll(currentLevel: seq<Id>, before: set<Id>) returns (placed: set<Id>)
    ensures placed == before + Elements(currentLevel)
  {
    placed := before;
    var j := 0;
    while j < |currentLevel|
      invariant 0 <= j <= |currentLevel|
      invariant placed == before + Elements(currentLevel[..j])
    {
      assert currentLevel[..j + 1] == currentLevel[..j] + [currentLevel[j]];
      placed := placed + {currentLevel[j]};
      j := j + 1;
    }
    assert currentLevel[..j] == currentLevel;
  }

  /** Terminates on every list of steps, also cyclic ones and ones with repeated or dangling ids. */
  method GetDependencyLevels(w: Workflow) returns (levels: seq<seq<Id>>)
    ensures IsLeveling(w.steps, levels)
  {
    levels := [];
    var placed: set<Id> := {};
    while |placed| < |w.steps|
      invariant IsPeeling(w.steps, levels) && placed == Placed(levels)
      decreases Ids(w.steps) - placed
    {
      var currentLevel := CollectReady(w.steps, placed);
      if currentLevel == [] {
        break;
      }
      PeelingProgress(w.steps, levels, currentLevel);
      placed := PlaceAll(currentLevel, placed);
      levels := levels + [currentLevel];
    }
  }

  /** The specification leaves the method no choice. */
  lemma {:induction false} PeelingsAgree(steps: seq<Step>, a: seq<seq<Id>>, b: seq<seq<Id>>, n: nat)
    requires IsPeeling(steps, a) && IsPeeling(steps, b)
    requires n <= |a| && n <= |b|
    ensures a[..n] == b[..n]
  {
    if n == 0 {
    } else {
      PeelingsAgree(steps, a, b, n - 1);
      assert IsPeeledAt(steps, a, n - 1) && IsPeeledAt(steps, b, n - 1);
      assert a[..n] == a[..n - 1] + [a[n - 1]] && b[..n] == b[..n - 1] + [b[n - 1]];
    }
  }

  lemma NoPeelingGoesFurther(steps: seq<Step>, a: seq<seq<Id>>, b: seq<seq<Id>>)
    requires IsLeveling(steps, a) && IsPeeling(steps, b)
    ensures |b| <= |a|
  {
    assert a[..|a|] == a;
    if |a| < |b| {
      assert IsPeeledAt(steps, b, |a|);
      PeelingsAgree(steps, a, b, |a|);
    }
  }

  lemma LevelingUnique(steps: seq<Step>, a: seq<seq<Id>>, b: seq<seq<Id>>)
    requires IsLeveling(steps, a) && IsLeveling(steps, b)
    ensures a == b
  {
    NoPeelingGoesFurther(steps, a, b);
    NoPeelingGoesFurther(steps, b, a);
    PeelingsAgree(steps, a, b, |a|);
    assert a[..|a|] == a && b[..|b|] == b;
  }

  lemma SuccessorsAreDependencies(steps: seq<Step>, s: Step)
    requires DistinctIds(steps) && s in steps
    ensures Succ(GraphOf(steps), s.id) == s.dependsOn
  {
    var i :| 0 <= i < |steps| && steps[i] == s;
    GraphLookup(steps, i);
  }

  /** A dependency sits in a strictly earlier level. */
  lemma DependencyEarlier(steps: seq<Step>, levels: seq<seq<Id>>, k: nat, s: Step, d: Id)
    requires DistinctIds(steps) && IsPeeling(steps, levels) && k < |levels|
    requires s in steps && s.id in levels[k] && d in s.dependsOn
    ensures d in Placed(levels[..k])
    ensures exists j :: 0 <= j < k && d in levels[j]
  {
    NewAtLevel(steps, levels, k, s.id);
    var t :| t in steps && t.id == s.id && DependenciesPlaced(t, Placed(levels[..k]));
    OneStepPerId(steps, s, t);
    PlacedMembers(levels[..k], d);
    var j :| 0 <= j < k && d in levels[..k][j];
    assert d in levels[j];
  }

  /** No step is scheduled twice, neither within a level nor across levels. */
  lemma ScheduledOnce(steps: seq<Step>, levels: seq<seq<Id>>, k: nat, i: nat, k': nat, i': nat)
    requires DistinctIds(steps) && IsPeeling(steps, levels)
    requires k < |levels| && i < |levels[k]| && k' < |levels| && i' < |levels[k']|
    requires levels[k][i] == levels[k'][i']
    ensures k == k' && i == i'
  {
    var id := levels[k][i];
    if k == k' {
      assert IsPeeledAt(steps, levels, k);
      ReadyDistinct(steps, Placed(levels[..k]));
    } else {
      var lo, hi := if k < k' then k else k', if k < k' then k' else k;
      assert id in levels[lo] && id in levels[hi];
      PlacedNext(levels, lo);
      PlacedMonotone(levels, lo + 1, hi);
      NewAtLevel(steps, levels, hi, id);
    }
  }

  /** Within a level the steps stand in list order. */
  lemma LevelInListOrder(steps: seq<Step>, levels: seq<seq<Id>>, k: nat, p: nat, q: nat, i: nat, j: nat)
    requires DistinctIds(steps) && IsPeeling(steps, levels)
    requires k < |levels| && p < |levels[k]| && q < |levels[k]|
    requires i < |steps| && steps[i].id == levels[k][p]
    requires j < |steps| && steps[j].id == levels[k][q]
    ensures p < q <==> i < j
  {
    assert IsPeeledAt(steps, levels, k);
    if p < q {
      var i', j' := ReadyInListOrder(steps, Placed(levels[..k]), p, q);
      assert i' == i && j' == j;
    } else if q < p {
      var j', i' := ReadyInListOrder(steps, Placed(levels[..k]), q, p);
      assert i' == i && j' == j;
    }
  }

  /**
   * For any list of steps: a level names exactly the steps not in earlier levels
   * whose dependencies all are, and after the last level, if not as many are
   * placed as there are steps, no such step is left.
   */
  lemma LevelMembers(steps: seq<Step>, levels: seq<seq<Id>>, k: nat, id: Id)
    requires IsLeveling(steps, levels) && k <= |levels|
    ensures var before := Placed(levels[..k]);
            var waiting := exists s :: s in steps && s.id == id && id !in before
                             && forall d :: d in s.dependsOn ==> d in before;
            && (k < |levels| ==> (id in levels[k] <==> waiting))
            && (k == |levels| && |before| < |steps| ==> !waiting)
  {
    var before := Placed(levels[..k]);
    ReadyMembers(steps, before, id);
    if k < |levels| {
      assert IsPeeledAt(steps, levels, k);
    } else {
      assert levels[..k] == levels;
    }
    assert forall s :: s in steps ==> (DependenciesPlaced(s, before) <==> forall d :: d in s.dependsOn ==> d in before);
  }

  /** When nothing is ready, a step left over waits for another one left over. */
  lemma LeftOverWaits(steps: seq<Step>, placed: set<Id>, u: Id)
    requires DistinctIds(steps) && DependenciesExist(steps) && Ready(steps, placed) == []
    requires u in Ids(steps) && u !in placed
    ensures CanStay(GraphOf(steps), u, Ids(steps) - placed)
  {
    var s :| s in steps && s.id == u;
    ReadyMembers(steps, placed, u);
    SuccessorsAreDependencies(steps, s);
    var d :| d in s.dependsOn && d !in placed;
    assert d in Ids(steps) - placed && d in Succ(GraphOf(steps), u);
  }

  /** If the peeling is stuck before every step is placed, the steps left over contain a cycle. */
  lemma StuckMeansCycle(steps: seq<Step>, levels: seq<seq<Id>>)
    requires DistinctIds(steps) && DependenciesExist(steps) && IsLeveling(steps, levels)
    requires Placed(levels) != Ids(steps)
    ensures Cyclic(GraphOf(steps))
  {
    var placed := Placed(levels);
    var left := Ids(steps) - placed;
    PlacedAreSteps(steps, levels);
    SubsetCount(placed, Ids(steps));
    IdCount(steps);
    forall u {:trigger CanStay(GraphOf(steps), u, left)} | u in left
      ensures CanStay(GraphOf(steps), u, left)
    {
      LeftOverWaits(steps, placed, u);
    }
    assert left != {} by {
      assert placed + left == Ids(steps);
    }
    StuckIsCyclic(GraphOf(steps), left);
  }

  /** The second step of a chain sits in an earlier level than the first. */
  lemma EdgeDrops(steps: seq<Step>, levels: seq<seq<Id>>, p: seq<Id>, k: nat) returns (j: nat)
    requires DistinctIds(steps) && IsPeeling(steps, levels) && k < |levels|
    requires IsWalk(GraphOf(steps), p) && |p| > 1 && p[0] in levels[k]
    ensures j < k && p[1] in levels[j]
  {
    NewAtLevel(steps, levels, k, p[0]);
    var s :| s in steps && s.id == p[0];
    SuccessorsAreDependencies(steps, s);
    assert EdgeAt(GraphOf(steps), p, 0);
    DependencyEarlier(steps, levels, k, s, p[1]);
    j :| 0 <= j < k && p[1] in levels[j];
  }

  /** Along a chain of dependencies the level drops at every edge. */
  lemma {:induction false} ChainFits(steps: seq<Step>, levels: seq<seq<Id>>, p: seq<Id>, k: nat)
    requires DistinctIds(steps) && IsPeeling(steps, levels) && k < |levels|
    requires IsWalk(GraphOf(steps), p) && p[0] in levels[k]
    ensures |p| <= k + 1
    ensures |p| > 1 ==> p[|p| - 1] in Placed(levels[..k])
  {
    if |p| > 1 {
      var j := EdgeDrops(steps, levels, p, k);
      WalkSlice(GraphOf(steps), p, 1, |p|);
      assert p[1..|p|] == p[1..];
      ChainFits(steps, levels, p[1..], j);
      PlacedNext(levels, j);
      PlacedMonotone(levels, j + 1, k);
    }
  }

  /**
   * The depth-first detector and the peeling loop agree on every list of steps
   * with distinct ids and no dangling dependency: the loop reaches all steps
   * exactly when the detector finds no cycle. For an accepted workflow the
   * early `break` therefore never drops a step.
   */
  lemma CompleteIffAcyclic(steps: seq<Step>, levels: seq<seq<Id>>)
    requires DistinctIds(steps) && DependenciesExist(steps) && IsLeveling(steps, levels)
    ensures Placed(levels) == Ids(steps) <==> !Cyclic(GraphOf(steps))
  {
    var g := GraphOf(steps);
    if Placed(levels) != Ids(steps) {
      StuckMeansCycle(steps, levels);
    } else if Cyclic(g) {
      var p :| IsCycle(g, p);
      assert EdgeAt(g, p, 0);
      GraphKeys(steps);
      PlacedMembers(levels, p[0]);
      var k :| 0 <= k < |levels| && p[0] in levels[k];
      ChainFits(steps, levels, p, k);
      NewAtLevel(steps, levels, k, p[0]);
    }
  }

  /** A step of level k + 1 was held back by a dependency placed in level k. */
  lemma HeldBack(steps: seq<Step>, levels: seq<seq<Id>>, k: nat, id: Id) returns (d: Id)
    requires DistinctIds(steps) && IsPeeling(steps, levels)
    requires k + 1 < |levels| && id in levels[k + 1]
    ensures d in Succ(GraphOf(steps), id) && d in levels[k]
  {
    NewAtLevel(steps, levels, k + 1, id);
    assert IsPeeledAt(steps, levels, k);
    ReadyMembers(steps, Placed(levels[..k]), id);
    PlacedNext(levels, k);
    var s :| s in steps && s.id == id && DependenciesPlaced(s, Placed(levels[..k + 1]));
    d :| d in s.dependsOn && d !in Placed(levels[..k]);
    SuccessorsAreDependencies(steps, s);
  }

  /** Every step of level k heads a dependency chain of k + 1 steps. */
  lemma {:induction false} LongestChain(steps: seq<Step>, levels: seq<seq<Id>>, k: nat, id: Id)
    returns (p: seq<Id>)
    requires DistinctIds(steps) && IsPeeling(steps, levels)
    requires k < |levels| && id in levels[k]
    ensures IsWalk(GraphOf(steps), p) && p[0] == id && |p| == k + 1
  {
    p := [id];
    if k == 0 {
    } else {
      var d := HeldBack(steps, levels, k - 1, id);
      var q := LongestChain(steps, levels, k - 1, d);
      WalkPrepend(GraphOf(steps), id, q);
      p := [id] + q;
    }
  }

  /** The level of a step is the length, in edges, of its longest dependency chain. */
  lemma LevelIsLongestChain(steps: seq<Step>, levels: seq<seq<Id>>, k: nat, id: Id)
    requires DistinctIds(steps) && DependenciesExist(steps) && !Cyclic(GraphOf(steps))
    requires IsLeveling(steps, levels) && id in Ids(steps)
    ensures k < |levels| && id in levels[k] <==>
              && (exists p :: IsWalk(GraphOf(steps), p) && p[0] == id && |p| == k + 1)
              && (forall p :: IsWalk(GraphOf(steps), p) && p[0] == id ==> |p| <= k + 1)
  {
    CompleteIffAcyclic(steps, levels);
    PlacedMembers(levels, id);
    var j :| 0 <= j < |levels| && id in levels[j];
    var q := LongestChain(steps, levels, j, id);
    forall p | IsWalk(GraphOf(steps), p) && p[0] == id
      ensures |p| <= j + 1
    {
      ChainFits(steps, levels, p, j);
    }
    if k < |levels| && id in levels[k] {
      var i :| 0 <= i < |levels[k]| && levels[k][i] == id;
      var i' :| 0 <= i' < |levels[j]| && levels[j][i'] == id;
      ScheduledOnce(steps, levels, k, i, j, i');
    }
  }

  /** A layering that runs every dependency before the step that needs it. */
  ghost predicate RespectsDependencies(steps: seq<Step>, layer: map<Id, nat>) {
    && Ids(steps) <= layer.Keys
    && forall s, d :: s in steps && d in s.dependsOn ==> d in layer && layer[d] < layer[s.id]
  }

  lemma {:induction false} NoLayeringIsEarlier(steps: seq<Step>, levels: seq<seq<Id>>, layer: map<Id, nat>,
                                               k: nat, id: Id)
    requires DistinctIds(steps) && IsPeeling(steps, levels)
    requires RespectsDependencies(steps, layer)
    requires k < |levels| && id in levels[k]
    ensures id in layer && k <= layer[id]
  {
    NewAtLevel(steps, levels, k, id);
    if k == 0 {
    } else {
      var d := HeldBack(steps, levels, k - 1, id);
      NoLayeringIsEarlier(steps, levels, layer, k - 1, d);
      var s :| s in steps && s.id == id;
      SuccessorsAreDependencies(steps, s);
    }
  }

  /** No dependency-respecting layering has fewer layers. */
  lemma FewestLevels(steps: seq<Step>, levels: seq<seq<Id>>, layer: map<Id, nat>, layers: nat)
    requires DistinctIds(steps) && IsLeveling(steps, levels)
    requires RespectsDependencies(steps, layer)
    requires forall id :: id in layer ==> layer[id] < layers
    ensures |levels| <= layers
  {
    if levels != [] {
      var k := |levels| - 1;
      assert IsPeeledAt(steps, levels, k);
      NoLayeringIsEarlier(steps, levels, layer, k, levels[k][0]);
    }
  }
}
