/**
 The promise throttle (frontend/src/util/sound.ts:22-68). Calls are numbered in
 the order they are made. The wrapped function does not call the throttle
 itself, and a settlement and the `finally` callback it triggers are one step.
 */
module PromiseThrottle {
  import opened Wrappers

  /** What has become of a call's promise. */
  datatype Status = Running | Waiting | Settled(ok: bool) | Throttled

  datatype State = State(current: Option<nat>, pending: Option<nat>, calls: seq<Status>, started: seq<nat>)

  const IDLE := State(None, None, [], [])

  /** A call: run at once when nothing is in flight, else take the waiting place. */
  function CallStep(s: State): State {
    var id := |s.calls|;
    if s.current.None? then State(Some(id), s.pending, s.calls + [Running], s.started + [id])
    else
      var calls := if s.pending.Some? && s.pending.value < id then s.calls[s.pending.value := Throttled] else s.calls;
      State(s.current, Some(id), calls + [Waiting], s.started)
  }

  /** The call in flight settles; the waiting one, if any, takes its place. */
  function SettleStep(s: State, ok: bool): State {
    if s.current.None? || s.current.value >= |s.calls| then s
    else
      var calls := s.calls[s.current.value := Settled(ok)];
      if s.pending.Some? && s.pending.value < |calls|
      then State(s.pending, None, calls[s.pending.value := Running], s.started + [s.pending.value])
      else State(None, s.pending, calls, s.started)
  }

  class PromiseThrottle {
    var current: Option<nat>
    var pending: Option<nat>
    var calls: seq<Status>
    var started: seq<nat>

    constructor ()
      ensures Snapshot() == IDLE
    {
      current, pending, calls, started := None, None, [], [];
    }

    function Snapshot(): State
      reads this
    {
      State(current, pending, calls, started)
    }

    /** `runCurrent`: the wrapped function is applied for this call. */
    method RunCurrent(id: nat)
      requires id < |calls|
      modifies this
      ensures Snapshot() == State(Some(id), old(pending), old(calls)[id := Running], old(started) + [id])
    {
      current := Some(id);
      calls := calls[id := Running];
      started := started + [id];
    }

    method Call() returns (id: nat)
      requires pending.Some? ==> pending.value < |calls|
      modifies this
      ensures id == |old(calls)| && Snapshot() == CallStep(old(Snapshot()))
    {
      id := |calls|;
      calls := calls + [Waiting];
      if current.None? {
        RunCurrent(id);
        assert calls == old(calls) + [Running];
        return;
      }
      if pending.Some? {
        calls := calls[pending.value := Throttled];
      }
      pending := Some(id);
    }

    /** The promise in flight settles and its `finally` callback runs. */
    method Settle(ok: bool)
      requires current.Some? && current.value < |calls|
      requires pending.Some? ==> pending.value < |calls|
      modifies this
      ensures Snapshot() == SettleStep(old(Snapshot()), ok)
    {
      calls := calls[current.value := Settled(ok)];
      current := None;
      if pending.Some? {
        RunCurrent(pending.value);
        pending := None;
      }
    }
  }

  // ----- whole runs -----

  datatype Event = Call | Settle(ok: bool)

  function Step(s: State, e: Event): State {
    match e
    case Call => CallStep(s)
    case Settle(ok) => SettleStep(s, ok)
  }

  function Run(s: State, events: seq<Event>): State
    decreases |events|
  {
    if events == [] then s else Run(Step(s, events[0]), events[1..])
  }

  /**
   At most one call is in flight and at most one waits, and each of the two is
   the call that the throttle thinks it is. The waiting call is the latest one.
   A throttled call is never the latest. Calls start in the order they were made,
   and a call has started exactly when it is running or settled.
   */
  predicate Orderly(s: State) {
    && (forall i :: 0 <= i < |s.calls| ==> (s.calls[i] == Running <==> s.current == Some(i)))
    && (forall i :: 0 <= i < |s.calls| ==> (s.calls[i] == Waiting <==> s.pending == Some(i)))
    && (s.current.Some? ==> s.current.value < |s.calls|)
    && (s.pending.Some? ==> s.current.Some? && s.current.value < s.pending.value == |s.calls| - 1)
    && (s.calls != [] ==> s.calls[|s.calls| - 1] != Throttled)
    && (forall i, j :: 0 <= i < j < |s.started| ==> s.started[i] < s.started[j])
    && (forall i :: 0 <= i < |s.calls| ==> (i in s.started <==> s.calls[i].Running? || s.calls[i].Settled?))
    && (forall id :: id in s.started ==> id < |s.calls|)
    && (s.current.Some? ==> s.started != [] && s.started[|s.started| - 1] == s.current.value)
  }

  lemma StartedSnoc(started: seq<nat>, id: nat)
    requires forall i, j :: 0 <= i < j < |started| ==> started[i] < started[j]
    requires forall x :: x in started ==> x < id
    ensures var more := started + [id]; forall i, j :: 0 <= i < j < |more| ==> more[i] < more[j]
    ensures forall x :: x in started + [id] <==> x in started || x == id
  {
    assert forall i :: 0 <= i < |started| ==> started[i] in started;
  }

  /** What started so far is at most the call in flight. */
  lemma StartedBelow(s: State)
    requires Orderly(s) && s.current.Some?
    ensures forall x :: x in s.started ==> x <= s.current.value
  {
    var n := |s.started| - 1;
    forall x | x in s.started
      ensures x <= s.current.value
    {
      var i :| 0 <= i < |s.started| && s.started[i] == x;
      assert i < n ==> s.started[i] < s.started[n];
    }
  }

  lemma CallOrderly(s: State)
    requires Orderly(s)
    ensures Orderly(CallStep(s))
  {
    var id := |s.calls|;
    if s.current.None? {
      assert CallStep(s).calls == s.calls + [Running];
      StartedSnoc(s.started, id);
    } else if s.pending.Some? {
      assert CallStep(s).calls == s.calls[s.pending.value := Throttled] + [Waiting];
    } else {
      assert CallStep(s).calls == s.calls + [Waiting];
    }
  }

  lemma SettleOrderly(s: State, ok: bool)
    requires Orderly(s)
    ensures Orderly(SettleStep(s, ok))
  {
    if s.current.Some? && s.pending.Some? {
      StartedBelow(s);
      StartedSnoc(s.started, s.pending.value);
    }
  }

  lemma StepOrderly(s: State, e: Event)
    requires Orderly(s)
    ensures Orderly(Step(s, e))
  {
    match e
    case Call => CallOrderly(s);
    case Settle(ok) => SettleOrderly(s, ok);
  }

  /** Every interleaving of calls and settlements stays orderly. */
  lemma {:induction false} AlwaysOrderly(s: State, events: seq<Event>)
    requires Orderly(s)
    ensures Orderly(Run(s, events))
    decreases |events|
  {
    if events != [] {
      StepOrderly(s, events[0]);
      AlwaysOrderly(Step(s, events[0]), events[1..]);
    }
  }

  lemma StepKeepsOutcome(s: State, e: Event, i: nat)
    requires Orderly(s) && i < |s.calls| && (s.calls[i].Settled? || s.calls[i].Throttled?)
    ensures i < |Step(s, e).calls| && Step(s, e).calls[i] == s.calls[i]
  {
  }

  /** A status never changes back: settled and throttled calls are final. */
  lemma {:induction false} OutcomesAreFinal(s: State, events: seq<Event>, i: nat)
    requires Orderly(s) && i < |s.calls| && (s.calls[i].Settled? || s.calls[i].Throttled?)
    ensures i < |Run(s, events).calls| && Run(s, events).calls[i] == s.calls[i]
    decreases |events|
  {
    if events != [] {
      StepOrderly(s, events[0]);
      StepKeepsOutcome(s, events[0], i);
      OutcomesAreFinal(Step(s, events[0]), events[1..], i);
    }
  }

  function CallsIn(events: seq<Event>): nat {
    if events == [] then 0 else (if events[0].Call? then 1 else 0) + CallsIn(events[1..])
  }

  lemma {:induction false} CallsCounted(s: State, events: seq<Event>)
    ensures |Run(s, events).calls| == |s.calls| + CallsIn(events)
    decreases |events|
  {
    if events != [] {
      CallsCounted(Step(s, events[0]), events[1..]);
    }
  }

  /**
   A call is throttled exactly when another one is made before the call in
   flight has settled: a waiting call followed by a settlement always runs.
   */
  lemma WaitingCallFate(s: State, events: seq<Event>)
    requires Orderly(s) && s.pending.Some? && events != []
    ensures var p := s.pending.value;
            && p < |Run(s, events).calls|
            && (events[0].Call? ==> Run(s, events).calls[p] == Throttled)
            && (events[0].Settle? ==> Step(s, events[0]).current == Some(p))
  {
    AlwaysOrderly(s, events[..1]);
    match events[0]
    case Call =>
      CallOrderly(s);
      OutcomesAreFinal(Step(s, Call), events[1..], s.pending.value);
    case Settle(ok) =>
      CallsCounted(s, events);
  }

  /** The last call always gets its turn: two settlements after it, at the latest, it has settled. */
  lemma LastCallRuns(s: State, first: bool, second: bool)
    requires Orderly(s) && s.calls != []
    ensures var last, end := |s.calls| - 1, Run(s, [Settle(first), Settle(second)]);
            |end.calls| == |s.calls| && end.calls[last].Settled?
  {
    var events := [Settle(first), Settle(second)];
    var s1 := Step(s, events[0]);
    var s2 := Step(s1, events[1]);
    SettleOrderly(s, first);
    assert Run(s, events) == Run(s1, events[1..]) == Run(s2, events[1..][1..]) == s2;
  }

  /** From the start, for every interleaving: what can be said of each call. */
  lemma EveryCallAccounted(events: seq<Event>, i: nat)
    requires i < CallsIn(events)
    ensures var s := Run(IDLE, events);
            && |s.calls| == CallsIn(events) && Orderly(s)
            && (s.calls[i].Running? <==> s.current == Some(i))
            && (s.calls[i].Waiting? <==> s.pending == Some(i))
            && (s.calls[i].Throttled? ==> i + 1 < CallsIn(events))
  {
    AlwaysOrderly(IDLE, events);
    CallsCounted(IDLE, events);
  }
}
