/**
 * Matching responses to requests: callers, listeners and timeouts share one
 * table of pending requests. Each step is what one task does while it holds the
 * table's lock or, for a receive, on its own channel.
 */
module Rpc {
  import opened Prelude

  type RequestId = string

  datatype Response = Response(requestId: RequestId, body: string)

  datatype Outcome = Answer(response: Response) | ChannelClosed | Timeout

  /** Progress of one call of `wait_for_response`. `Expired` has left the loop but not yet cleaned up. */
  datatype Phase = Sending | Waiting | Expired | Returned(outcome: Outcome)

  /** A channel of capacity one: what is buffered, and whether its sender is still alive. */
  datatype Channel = Channel(buffer: Option<Response>, open: bool)

  /** Call w waits for request `ids[w]`; `pending` says whose sender the table holds for an id. */
  datatype State = State(pending: map<RequestId, nat>, phases: seq<Phase>, channels: seq<Channel>)

  datatype Action =
    | Register(w: nat)
    | Deliver(response: Response)
    | Receive(w: nat)
    | SeeClosed(w: nat)
    | Expire(w: nat)
    | CleanUp(w: nat)

  function Initial(calls: nat): State {
    State(map[], seq(calls, _ => Sending), seq(calls, _ => Channel(None, false)))
  }

  /** Dropping the sender the table holds for an id, if any. */
  function DropSender(pending: map<RequestId, nat>, channels: seq<Channel>, id: RequestId): (r: seq<Channel>)
    ensures |r| == |channels|
  {
    if id in pending && pending[id] < |channels| then
      channels[pending[id] := channels[pending[id]].(open := false)]
    else channels
  }

  function SetPhase(s: State, w: nat, p: Phase): State
    requires w < |s.phases|
  {
    s.(phases := s.phases[w := p])
  }

  ghost predicate Fits(ids: seq<RequestId>, s: State) {
    |s.phases| == |ids| && |s.channels| == |ids| && forall id :: id in s.pending ==> s.pending[id] < |ids|
  }

  ghost predicate Enabled(ids: seq<RequestId>, s: State, a: Action)
    requires Fits(ids, s)
  {
    match a
    case Register(w) => w < |ids| && s.phases[w] == Sending
    case Deliver(_) => true
    case Receive(w) => w < |ids| && s.phases[w] == Waiting && s.channels[w].buffer.Some?
    case SeeClosed(w) => w < |ids| && s.phases[w] == Waiting && s.channels[w] == Channel(None, false)
    case Expire(w) => w < |ids| && s.phases[w] == Waiting
    case CleanUp(w) => w < |ids| && s.phases[w] == Expired
  }

  ghost function Next(ids: seq<RequestId>, s: State, a: Action): State
    requires Fits(ids, s) && Enabled(ids, s, a)
  {
    match a
    case Register(w) =>
      // The insert replaces, and so drops, any sender already there.
      State(s.pending[ids[w] := w],
            s.phases[w := Waiting],
            DropSender(s.pending, s.channels, ids[w])[w := Channel(None, true)])
    case Deliver(r) =>
      if r.requestId !in s.pending then s
      else
        var w := s.pending[r.requestId];
        // After the receiver is gone the send fails, which is ignored; then the sender is dropped.
        var buffer := if s.phases[w].Returned? then s.channels[w].buffer else Some(r);
        s.(pending := s.pending - {r.requestId}, channels := s.channels[w := Channel(buffer, false)])
    case Receive(w) =>
      SetPhase(s, w, Returned(Answer(s.channels[w].buffer.value)))
      .(channels := s.channels[w := s.channels[w].(buffer := None)])
    case SeeClosed(w) =>
      SetPhase(s, w, Returned(ChannelClosed))
    case Expire(w) =>
      SetPhase(s, w, Expired)
    case CleanUp(w) =>
      State(s.pending - {ids[w]}, s.phases[w := Returned(Timeout)], DropSender(s.pending, s.channels, ids[w]))
  }

  ghost predicate Step(ids: seq<RequestId>, s: State, a: Action, t: State) {
    Fits(ids, s) && Enabled(ids, s, a) && t == Next(ids, s, a)
  }

  ghost predicate IsRun(ids: seq<RequestId>, states: seq<State>, actions: seq<Action>) {
    && |states| == |actions| + 1
    && states[0] == Initial(|ids|)
    && forall k :: 0 <= k < |actions| ==> Step(ids, states[k], actions[k], states[k + 1])
  }

  /** True of any interleaving, also when request ids repeat. */
  ghost predicate Matched(ids: seq<RequestId>, s: State) {
    && Fits(ids, s)
    // A sender in the table belongs to a call for that id, and nothing was sent through it yet.
    && (forall id :: id in s.pending ==>
          var w := s.pending[id]; ids[w] == id && s.phases[w] != Sending && s.channels[w] == Channel(None, true))
    && (forall w :: 0 <= w < |ids| && s.channels[w].buffer.Some? ==> s.channels[w].buffer.value.requestId == ids[w])
    && (forall w :: 0 <= w < |ids| && s.phases[w].Returned? && s.phases[w].outcome.Answer? ==>
          s.phases[w].outcome.response.requestId == ids[w])
    && (forall w :: 0 <= w < |ids| && s.phases[w] == Sending ==> s.channels[w] == Channel(None, false))
  }

  /** With distinct ids a call is in the table from registering until it is answered or cleans up. */
  ghost predicate Tracked(ids: seq<RequestId>, s: State) {
    && Matched(ids, s)
    && (forall w :: 0 <= w < |ids| && (s.phases[w] == Sending || s.phases[w].Returned?) ==> ids[w] !in s.pending)
    && (forall w :: 0 <= w < |ids| && s.phases[w] == Waiting && s.channels[w].buffer == None ==>
          ids[w] in s.pending)
    && (forall w :: 0 <= w < |ids| && s.phases[w].Returned? ==> s.phases[w].outcome != ChannelClosed)
  }

  lemma RegisterMatched(ids: seq<RequestId>, s: State, a: Action, t: State)
    requires a.Register? && Matched(ids, s) && Step(ids, s, a, t)
    ensures Matched(ids, t)
  {
  }

  lemma DeliverMatched(ids: seq<RequestId>, s: State, a: Action, t: State)
    requires a.Deliver? && Matched(ids, s) && Step(ids, s, a, t)
    ensures Matched(ids, t)
  {
  }

  lemma CleanUpMatched(ids: seq<RequestId>, s: State, a: Action, t: State)
    requires a.CleanUp? && Matched(ids, s) && Step(ids, s, a, t)
    ensures Matched(ids, t)
  {
  }

  lemma StepMatched(ids: seq<RequestId>, s: State, a: Action, t: State)
    requires Matched(ids, s) && Step(ids, s, a, t)
    ensures Matched(ids, t)
  {
    match a
    case Register(_) => RegisterMatched(ids, s, a, t);
    case Deliver(_) => DeliverMatched(ids, s, a, t);
    case CleanUp(_) => CleanUpMatched(ids, s, a, t);
    case _ =>
  }

  lemma RegisterTracked(ids: seq<RequestId>, s: State, a: Action, t: State)
    requires a.Register? && Distinct(ids) && Tracked(ids, s) && Step(ids, s, a, t) && Matched(ids, t)
    ensures Tracked(ids, t)
  {
  }

  lemma DeliverTracked(ids: seq<RequestId>, s: State, a: Action, t: State)
    requires a.Deliver? && Distinct(ids) && Tracked(ids, s) && Step(ids, s, a, t) && Matched(ids, t)
    ensures Tracked(ids, t)
  {
  }

  lemma CleanUpTracked(ids: seq<RequestId>, s: State, a: Action, t: State)
    requires a.CleanUp? && Distinct(ids) && Tracked(ids, s) && Step(ids, s, a, t) && Matched(ids, t)
    ensures Tracked(ids, t)
  {
  }

  lemma StepTracked(ids: seq<RequestId>, s: State, a: Action, t: State)
    requires Distinct(ids) && Tracked(ids, s) && Step(ids, s, a, t)
    ensures Tracked(ids, t)
  {
    StepMatched(ids, s, a, t);
    match a
    case Register(_) => RegisterTracked(ids, s, a, t);
    case Deliver(_) => DeliverTracked(ids, s, a, t);
    case CleanUp(_) => CleanUpTracked(ids, s, a, t);
    case _ =>
  }

  /** In every run a caller is only ever given the response that bears its own request id. */
  lemma {:induction false} OwnResponseOnly(ids: seq<RequestId>, states: seq<State>, actions: seq<Action>)
    requires IsRun(ids, states, actions)
    ensures Matched(ids, states[|actions|])
  {
    if actions == [] {
    } else {
      var n := |actions| - 1;
      OwnResponseOnly(ids, states[..n + 1], actions[..n]);
      assert Step(ids, states[n], actions[n], states[n + 1]);
      StepMatched(ids, states[n], actions[n], states[n + 1]);
    }
  }

  lemma RunInit(ids: seq<RequestId>, states: seq<State>, actions: seq<Action>)
    requires IsRun(ids, states, actions) && actions != []
    ensures var n := |actions| - 1;
            && IsRun(ids, states[..n + 1], actions[..n])
            && Step(ids, states[n], actions[n], states[n + 1]) && Matched(ids, states[n])
  {
    var n := |actions| - 1;
    assert Step(ids, states[n], actions[n], states[n + 1]);
    OwnResponseOnly(ids, states[..n + 1], actions[..n]);
  }

  // ---- Where answers come from -----------------------------------------------

  /** Call w has the response, in its channel or as its answer. */
  ghost predicate Holds(s: State, w: nat, r: Response) {
    && w < |s.channels| && w < |s.phases|
    && (s.channels[w].buffer == Some(r) || s.phases[w] == Returned(Answer(r)))
  }

  /** Action k delivers the response while the table holds the sender of call w. */
  ghost predicate DeliveredAt(ids: seq<RequestId>, states: seq<State>, actions: seq<Action>, w: nat, r: Response,
                              k: nat)
  {
    && k < |actions| && k < |states| && actions[k] == Deliver(r)
    && r.requestId in states[k].pending && states[k].pending[r.requestId] == w
  }

  lemma StepHolds(ids: seq<RequestId>, s: State, a: Action, t: State, w: nat, r: Response)
    requires Matched(ids, s) && Step(ids, s, a, t) && Holds(t, w, r)
    ensures Holds(s, w, r) || (a == Deliver(r) && r.requestId in s.pending && s.pending[r.requestId] == w)
  {
  }

  lemma {:induction false} HeldWasDelivered(ids: seq<RequestId>, states: seq<State>, actions: seq<Action>, w: nat,
                                            r: Response)
    returns (k: nat)
    requires IsRun(ids, states, actions) && Holds(states[|actions|], w, r)
    ensures DeliveredAt(ids, states, actions, w, r, k)
  {
    if actions == [] {
      assert false;
    } else {
      var n := |actions| - 1;
      RunInit(ids, states, actions);
      StepHolds(ids, states[n], actions[n], states[n + 1], w, r);
      if Holds(states[n], w, r) {
        k := HeldWasDelivered(ids, states[..n + 1], actions[..n], w, r);
      } else {
        k := n;
      }
    }
  }

  lemma {:induction false} PastSendingIsRegistered(ids: seq<RequestId>, states: seq<State>, actions: seq<Action>,
                                                   w: nat)
    requires IsRun(ids, states, actions) && w < |ids|
    ensures |states[|actions|].phases| == |ids|
    ensures states[|actions|].phases[w] != Sending <==> Register(w) in actions
  {
    if actions == [] {
    } else {
      var n := |actions| - 1;
      RunInit(ids, states, actions);
      PastSendingIsRegistered(ids, states[..n + 1], actions[..n], w);
      assert actions == actions[..n] + [actions[n]];
    }
  }

  lemma DeliveredAfterRegister(ids: seq<RequestId>, states: seq<State>, actions: seq<Action>, w: nat, r: Response,
                               k: nat)
    requires IsRun(ids, states, actions) && DeliveredAt(ids, states, actions, w, r, k)
    ensures w < |ids| && ids[w] == r.requestId && Register(w) in actions[..k]
  {
    var init, before := states[..k + 1], actions[..k];
    forall i | 0 <= i < k
      ensures Step(ids, init[i], before[i], init[i + 1])
    {
      assert Step(ids, states[i], actions[i], states[i + 1]);
    }
    OwnResponseOnly(ids, init, before);
    PastSendingIsRegistered(ids, init, before, w);
  }

  ghost predicate IsAnswered(s: State, w: nat) {
    w < |s.phases| && s.phases[w].Returned? && s.phases[w].outcome.Answer?
  }

  ghost function AnswerOf(s: State, w: nat): Response
    requires IsAnswered(s, w)
  {
    s.phases[w].outcome.response
  }

  /**
   * In every run, also with repeated ids, each answer is a whole response that was
   * delivered after its call registered, under the call's id; and no delivery
   * answers two calls.
   */
  lemma AnswersAreDeliveries(ids: seq<RequestId>, states: seq<State>, actions: seq<Action>)
    returns (from: map<nat, nat>)
    requires IsRun(ids, states, actions)
    ensures forall w :: w in from <==> IsAnswered(states[|actions|], w)
    ensures forall w :: w in from ==>
              && w < |ids| && from[w] < |actions|
              && actions[from[w]] == Deliver(AnswerOf(states[|actions|], w))
              && AnswerOf(states[|actions|], w).requestId == ids[w]
              && Register(w) in actions[..from[w]]
    ensures forall v, w :: v in from && w in from && from[v] == from[w] ==> v == w
  {
    var s := states[|actions|];
    OwnResponseOnly(ids, states, actions);
    forall w | IsAnswered(s, w)
      ensures exists k :: DeliveredAt(ids, states, actions, w, AnswerOf(s, w), k)
    {
      var k := HeldWasDelivered(ids, states, actions, w, AnswerOf(s, w));
    }
    from := map w: nat | w < |ids| && IsAnswered(s, w) :: DeliveryTo(ids, states, actions, w, AnswerOf(s, w));
    forall w | w in from
      ensures w < |ids| && ids[w] == AnswerOf(s, w).requestId && Register(w) in actions[..from[w]]
    {
      DeliveredAfterRegister(ids, states, actions, w, AnswerOf(s, w), from[w]);
    }
  }

  ghost function DeliveryTo(ids: seq<RequestId>, states: seq<State>, actions: seq<Action>, w: nat, r: Response)
    : (k: nat)
    requires exists k :: DeliveredAt(ids, states, actions, w, r, k)
    ensures DeliveredAt(ids, states, actions, w, r, k)
  {
    var k :| DeliveredAt(ids, states, actions, w, r, k);
    k
  }

  /** The sender of a call's channel is alive exactly while the table holds it. */
  lemma {:induction false} AliveIffInTable(ids: seq<RequestId>, states: seq<State>, actions: seq<Action>, w: nat)
    requires IsRun(ids, states, actions) && w < |ids|
    ensures var s := states[|actions|];
            && |s.channels| == |ids|
            && (s.channels[w].open <==> ids[w] in s.pending && s.pending[ids[w]] == w)
  {
    if actions == [] {
    } else {
      var n := |actions| - 1;
      RunInit(ids, states, actions);
      AliveIffInTable(ids, states[..n + 1], actions[..n], w);
    }
  }

  /** Action k is the first delivery for the id of call w after w registered at action j. */
  ghost predicate IsFirstFor(ids: seq<RequestId>, actions: seq<Action>, w: nat, j: nat, k: nat) {
    && j < k < |actions| && w < |ids| && actions[j] == Register(w)
    && actions[k].Deliver? && actions[k].response.requestId == ids[w]
    && forall i :: j < i < k && actions[i].Deliver? ==> actions[i].response.requestId != ids[w]
  }

  /** The response first delivered for call w once it has registered. */
  ghost function FirstDelivery(ids: seq<RequestId>, actions: seq<Action>, w: nat): Option<Response>
    requires w < |ids|
  {
    if actions == [] then None
    else
      var init, last := actions[..|actions| - 1], actions[|actions| - 1];
      if FirstDelivery(ids, init, w).Some? then FirstDelivery(ids, init, w)
      else if last.Deliver? && last.response.requestId == ids[w] && Register(w) in init then Some(last.response)
      else None
  }

  lemma {:induction false} FirstDeliveryIs(ids: seq<RequestId>, actions: seq<Action>, w: nat, r: Response)
    returns (j: nat, k: nat)
    requires w < |ids| && FirstDelivery(ids, actions, w) == Some(r)
    ensures IsFirstFor(ids, actions, w, j, k) && actions[k] == Deliver(r)
  {
    var n := |actions| - 1;
    var init := actions[..n];
    if FirstDelivery(ids, init, w).Some? {
      j, k := FirstDeliveryIs(ids, init, w, r);
    } else {
      j :| 0 <= j < n && init[j] == Register(w);
      k := n;
      forall i | j < i < n && actions[i].Deliver?
        ensures actions[i].response.requestId != ids[w]
      {
        if actions[i].response.requestId == ids[w] {
          DeliveryIsSeen(ids, init, w, j, i);
        }
      }
    }
  }

  lemma {:induction false} DeliveryIsSeen(ids: seq<RequestId>, actions: seq<Action>, w: nat, j: nat, k: nat)
    requires w < |ids| && j < k < |actions| && actions[j] == Register(w)
    requires actions[k].Deliver? && actions[k].response.requestId == ids[w]
    ensures FirstDelivery(ids, actions, w).Some?
  {
    var n := |actions| - 1;
    assert actions[..n][j] == Register(w);
    if k < n {
      DeliveryIsSeen(ids, actions[..n], w, j, k);
    }
  }

  /** With distinct ids the channel of a call that has not returned holds the first delivery for it, if any. */
  ghost predicate InStep(ids: seq<RequestId>, s: State, actions: seq<Action>, w: nat)
    requires w < |ids|
  {
    && Tracked(ids, s)
    && (s.phases[w] != Sending <==> Register(w) in actions)
    && match s.phases[w]
       case Sending => FirstDelivery(ids, actions, w) == None
       case Returned(Answer(r)) => FirstDelivery(ids, actions, w) == Some(r)
       case Returned(_) => true
       case _ =>
         && s.channels[w].buffer == FirstDelivery(ids, actions, w)
         && (ids[w] in s.pending <==> FirstDelivery(ids, actions, w) == None)
  }

  lemma InStepInitially(ids: seq<RequestId>, w: nat)
    requires w < |ids|
    ensures InStep(ids, Initial(|ids|), [], w)
  {
  }

  lemma StaysInStep(ids: seq<RequestId>, s: State, a: Action, t: State, actions: seq<Action>, w: nat)
    requires Distinct(ids) && w < |ids| && InStep(ids, s, actions, w) && Step(ids, s, a, t)
    ensures InStep(ids, t, actions + [a], w)
  {
    StepTracked(ids, s, a, t);
    assert (actions + [a])[..|actions|] == actions;
    if a.Deliver? {
      DeliverStaysInStep(ids, s, a, t, actions, w);
    }
  }

  lemma DeliverStaysInStep(ids: seq<RequestId>, s: State, a: Action, t: State, actions: seq<Action>, w: nat)
    requires a.Deliver? && Distinct(ids) && w < |ids| && InStep(ids, s, actions, w) && Step(ids, s, a, t)
    requires Tracked(ids, t)
    ensures InStep(ids, t, actions + [a], w)
  {
    assert (actions + [a])[..|actions|] == actions;
  }

  lemma {:induction false} RunInStep(ids: seq<RequestId>, states: seq<State>, actions: seq<Action>, w: nat)
    requires Distinct(ids) && IsRun(ids, states, actions) && w < |ids|
    ensures InStep(ids, states[|actions|], actions, w)
  {
    if actions == [] {
      InStepInitially(ids, w);
    } else {
      var n := |actions| - 1;
      RunInit(ids, states, actions);
      RunInStep(ids, states[..n + 1], actions[..n], w);
      StaysInStep(ids, states[n], actions[n], states[n + 1], actions[..n], w);
      assert actions[..n] + [actions[n]] == actions;
    }
  }

  /**
   * With distinct ids no delivered response is lost: a call is answered with the
   * first response delivered for it after it registered, and a call that still
   * waits can receive that response, exactly if there was one.
   */
  lemma FirstDeliveryCounts(ids: seq<RequestId>, states: seq<State>, actions: seq<Action>, w: nat)
    requires Distinct(ids) && IsRun(ids, states, actions) && w < |ids|
    ensures Fits(ids, states[|actions|])
    ensures IsAnswered(states[|actions|], w) ==>
              exists j: nat, k: nat :: IsFirstFor(ids, actions, w, j, k)
                && actions[k] == Deliver(AnswerOf(states[|actions|], w))
    ensures states[|actions|].phases[w] == Waiting ==>
              && (states[|actions|].channels[w].buffer.Some? <==>
                    exists j: nat, k: nat :: IsFirstFor(ids, actions, w, j, k))
              && (states[|actions|].channels[w].buffer.Some? ==>
                    exists j: nat, k: nat :: IsFirstFor(ids, actions, w, j, k)
                      && actions[k] == Deliver(states[|actions|].channels[w].buffer.value))
  {
    RunInStep(ids, states, actions, w);
    var first := FirstDelivery(ids, actions, w);
    if first.Some? {
      var j, k := FirstDeliveryIs(ids, actions, w, first.value);
    }
    if j: nat, k: nat :| IsFirstFor(ids, actions, w, j, k) {
      DeliveryIsSeen(ids, actions, w, j, k);
    }
  }

  /** A send under the table's lock always finds the one-place buffer empty, so it never waits. */
  lemma DeliveryNeverWaits(ids: seq<RequestId>, states: seq<State>, actions: seq<Action>, id: RequestId)
    requires IsRun(ids, states, actions) && id in states[|actions|].pending
    ensures var s := states[|actions|]; s.pending[id] < |s.channels| && s.channels[s.pending[id]].buffer == None
  {
    OwnResponseOnly(ids, states, actions);
  }

  lemma {:induction false} RunTracked(ids: seq<RequestId>, states: seq<State>, actions: seq<Action>)
    requires Distinct(ids) && IsRun(ids, states, actions)
    ensures Tracked(ids, states[|actions|])
  {
    if actions == [] {
    } else {
      var n := |actions| - 1;
      RunTracked(ids, states[..n + 1], actions[..n]);
      assert Step(ids, states[n], actions[n], states[n + 1]);
      StepTracked(ids, states[n], actions[n], states[n + 1]);
    }
  }

  lemma InTableNotReturned(ids: seq<RequestId>, s: State, id: RequestId)
    requires Tracked(ids, s) && id in s.pending
    ensures !s.phases[s.pending[id]].Returned?
  {
  }

  /**
   * With distinct ids no call ends in "Response channel closed", and none is left in
   * the table once all have returned.
   */
  lemma NothingLeaks(ids: seq<RequestId>, states: seq<State>, actions: seq<Action>)
    requires Distinct(ids) && IsRun(ids, states, actions)
    ensures var s := states[|actions|];
            && |s.phases| == |ids|
            && (forall w :: 0 <= w < |ids| ==> s.phases[w] != Returned(ChannelClosed))
            && ((forall w :: 0 <= w < |ids| ==> s.phases[w].Returned?) ==> s.pending == map[])
  {
    RunTracked(ids, states, actions);
    var s := states[|actions|];
    if forall w :: 0 <= w < |ids| ==> s.phases[w].Returned? {
      forall id | id in s.pending
        ensures false
      {
        InTableNotReturned(ids, s, id);
      }
    }
  }

  /** How often a call takes a message out of its channel. */
  ghost function Receives(actions: seq<Action>, w: nat): nat {
    if actions == [] then 0
    else Receives(actions[..|actions| - 1], w) + if actions[|actions| - 1] == Receive(w) then 1 else 0
  }

  /** Each call gets at most one response, and gets it exactly if it returns with an answer. */
  lemma {:induction false} AtMostOneResponse(ids: seq<RequestId>, states: seq<State>, actions: seq<Action>, w: nat)
    requires IsRun(ids, states, actions) && w < |ids|
    ensures var s := states[|actions|];
            && |s.phases| == |ids|
            && Receives(actions, w) == if s.phases[w].Returned? && s.phases[w].outcome.Answer? then 1 else 0
  {
    if actions == [] {
    } else {
      var n := |actions| - 1;
      AtMostOneResponse(ids, states[..n + 1], actions[..n], w);
      assert Step(ids, states[n], actions[n], states[n + 1]);
    }
  }

  /** Each way a call can end has its cause. */
  ghost predicate EndsBy(phase: Phase, expired: bool, cleanedUp: bool, sawClosed: bool, received: bool) {
    && (phase == Expired || phase == Returned(Timeout) <==> expired)
    && (phase == Returned(Timeout) <==> cleanedUp)
    && (phase == Returned(ChannelClosed) <==> sawClosed)
    && (phase.Returned? && phase.outcome.Answer? <==> received)
  }

  lemma StepEndsBy(ids: seq<RequestId>, s: State, a: Action, t: State, w: nat, expired: bool, cleanedUp: bool,
                   sawClosed: bool, received: bool)
    requires Matched(ids, s) && Step(ids, s, a, t) && w < |ids|
    requires EndsBy(s.phases[w], expired, cleanedUp, sawClosed, received)
    ensures |t.phases| == |ids|
    ensures EndsBy(t.phases[w], expired || a == Expire(w), cleanedUp || a == CleanUp(w),
                   sawClosed || a == SeeClosed(w), received || a == Receive(w))
  {
  }

  /** An expired call times out and no other does; the other ends come from their own actions likewise. */
  lemma {:induction false} HowCallsEnd(ids: seq<RequestId>, states: seq<State>, actions: seq<Action>, w: nat)
    requires IsRun(ids, states, actions) && w < |ids|
    ensures |states[|actions|].phases| == |ids|
    ensures EndsBy(states[|actions|].phases[w], Expire(w) in actions, CleanUp(w) in actions,
                   SeeClosed(w) in actions, Receive(w) in actions)
  {
    if actions == [] {
    } else {
      var n := |actions| - 1;
      var before := actions[..n];
      RunInit(ids, states, actions);
      HowCallsEnd(ids, states[..n + 1], before, w);
      StepEndsBy(ids, states[n], actions[n], states[n + 1], w, Expire(w) in before, CleanUp(w) in before,
                 SeeClosed(w) in before, Receive(w) in before);
      assert actions == before + [actions[n]];
    }
  }

  /** A call that has returned is gone from the table. */
  ghost predicate ReturnedIsAbsent(ids: seq<RequestId>, s: State)
    requires |s.phases| == |ids|
  {
    forall w :: 0 <= w < |ids| && s.phases[w].Returned? ==> ids[w] !in s.pending
  }

  ghost predicate AlwaysAbsent(ids: seq<RequestId>) {
    forall states: seq<State>, actions: seq<Action> :: IsRun(ids, states, actions) ==>
      |states[|actions|].phases| == |ids| && ReturnedIsAbsent(ids, states[|actions|])
  }

  /**
   * Two calls for one id: the second takes the first one's place in the table, and
   * the first returns while the id is in it.
   */
  lemma SharedIdIsLeft(ids: seq<RequestId>, v: nat, w: nat) returns (states: seq<State>, actions: seq<Action>)
    requires v < |ids| && w < |ids| && v != w && ids[v] == ids[w]
    ensures IsRun(ids, states, actions)
    ensures var s := states[|actions|];
            |s.phases| == |ids| && s.phases[v] == Returned(ChannelClosed) && ids[v] in s.pending
  {
    var s0 := Initial(|ids|);
    var s1 := Next(ids, s0, Register(v));
    var s2 := Next(ids, s1, Register(w));
    var s3 := Next(ids, s2, SeeClosed(v));
    states, actions := [s0, s1, s2, s3], [Register(v), Register(w), SeeClosed(v)];
    forall k | 0 <= k < |actions|
      ensures Step(ids, states[k], actions[k], states[k + 1])
    {
      assert k == 0 || k == 1 || k == 2;
    }
  }

  /** Returned calls are absent from the table in every run exactly if no two calls share a request id. */
  lemma AbsentIffDistinct(ids: seq<RequestId>)
    ensures AlwaysAbsent(ids) <==> Distinct(ids)
  {
    if Distinct(ids) {
      forall states: seq<State>, actions: seq<Action> | IsRun(ids, states, actions)
        ensures |states[|actions|].phases| == |ids| && ReturnedIsAbsent(ids, states[|actions|])
      {
        RunTracked(ids, states, actions);
      }
    } else {
      var v, w :| 0 <= v < w < |ids| && ids[v] == ids[w];
      var states, actions := SharedIdIsLeft(ids, v, w);
      assert IsRun(ids, states, actions);
    }
  }
}
