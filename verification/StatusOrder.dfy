/** In which order the callbacks of the status channel run, and for which events. */
module StatusOrder {
  import opened Wrappers
  import opened StatusChannel

  /** The states of one run with the steps between them. */
  ghost predicate Trace(states: seq<State>, steps: seq<Step>) {
    && |states| == |steps| + 1 && Init(states[0])
    && forall k :: 0 <= k < |steps| ==> Apply(states[k], steps[k]) == Some(states[k + 1])
  }

  lemma TraceIsRun(states: seq<State>, steps: seq<Step>)
    requires Trace(states, steps)
    ensures Run(states)
  {
    hide Apply, Init;
    forall k | 0 <= k < |states| - 1 ensures Next(states[k], states[k + 1]) {
      assert Apply(states[k], steps[k]) == Some(states[k + 1]);
    }
  }

  /** The event a step hands to Node, if Node takes it. */
  function Taken(s: State, step: Step): seq<nat> {
    if step.Call? && step.accepted && step.thread < |s.posters| && s.posters[step.thread].Reserved? then
      [s.posters[step.thread].event]
    else []
  }

  /** The events Node took in the first `k` steps, in order. */
  function Accepted(states: seq<State>, steps: seq<Step>, k: nat): seq<nat>
    requires k <= |steps| && |states| == |steps| + 1
  {
    if k == 0 then [] else Accepted(states, steps, k - 1) + Taken(states[k - 1], steps[k - 1])
  }

  /** The events whose callbacks ran, that whose callback is running, and those that wait. */
  function Handled(s: State): seq<nat> {
    Events(s.delivered) + (if s.callback == Waiting then [] else [s.callback.event]) + s.queue
  }

  lemma StepHandles(s: State, step: Step)
    requires Apply(s, step).Some?
    ensures Handled(Apply(s, step).value) == Handled(s) + Taken(s, step)
  {
    var s' := Apply(s, step).value;
    if step.StartCallback? {
      assert s.queue == [s.queue[0]] + s.queue[1..];
    } else if step.ReadDetail? {
      assert Events(s'.delivered) == Events(s.delivered) + [s.callback.event];
    } else {
      assert Events(s'.delivered) == Events(s.delivered);
    }
  }

  /** The callbacks run in the order in which Node took the events: those that ran, the one that is
      running and those that wait are the taken ones, in their order, none twice. */
  lemma {:induction false} CallbacksInOrder(states: seq<State>, steps: seq<Step>, k: nat)
    requires Trace(states, steps) && k <= |steps|
    ensures Handled(states[k]) == Accepted(states, steps, k)
  {
    hide Apply, Handled, Taken;
    if k == 0 {
      NothingHandled(states[0]);
    } else {
      CallbacksInOrder(states, steps, k - 1);
      assert Apply(states[k - 1], steps[k - 1]) == Some(states[k - 1 + 1]);
      StepHandles(states[k - 1], steps[k - 1]);
    }
  }

  lemma NothingHandled(s: State)
    requires Init(s)
    ensures Handled(s) == []
  {
  }

  // ----- Refused events -----

  /** That an event is on its way to be dropped, or was. */
  ghost predicate Lost(s: State, event: nat) {
    || event in s.dropped
    || (exists t :: 0 <= t < |s.posters| && (s.posters[t] == Refused(event) || s.posters[t] == Dropping(event)))
  }

  lemma StepLoses(s: State, step: Step, event: nat)
    requires Apply(s, step).Some? && Lost(s, event)
    ensures Lost(Apply(s, step).value, event)
  {
    var s' := Apply(s, step).value;
    if event !in s.dropped {
      var t :| 0 <= t < |s.posters| && (s.posters[t] == Refused(event) || s.posters[t] == Dropping(event));
      if IsCallback(step) || step.thread != t {
        assert s'.posters[t] == s.posters[t];
      } else {
        assert s'.posters[t] == Dropping(event) || event in s'.dropped;
      }
    }
  }

  lemma {:induction false} StaysLost(states: seq<State>, steps: seq<Step>, j: nat, k: nat, event: nat)
    requires Trace(states, steps) && j <= k <= |steps| && Lost(states[j], event)
    ensures Lost(states[k], event)
    decreases k - j
  {
    hide Apply, Lost;
    if j < k {
      StaysLost(states, steps, j, k - 1, event);
      assert Apply(states[k - 1], steps[k - 1]) == Some(states[k - 1 + 1]);
      StepLoses(states[k - 1], steps[k - 1], event);
    }
  }

  lemma {:induction false} HasOne(posters: seq<Poster>, t: nat, event: nat)
    requires t < |posters| && Has(posters[t], event) == 1
    ensures Posted(posters, event) >= 1
  {
    if t > 0 { HasOne(posters[1..], t - 1, event); }
  }

  lemma {:induction false} OccursOnce(events: seq<nat>, event: nat)
    ensures Occurrences(events, event) >= 1 <==> event in events
  {
    if events != [] { OccursOnce(events[1..], event); }
  }

  /** A lost event has no callback. */
  lemma LostIsNotHandled(s: State, event: nat)
    requires Lost(s, event) && Everywhere(s, event) <= 1
    ensures event !in Handled(s)
  {
    OccursOnce(s.dropped, event);
    OccursOnce(s.queue, event);
    OccursOnce(Events(s.delivered), event);
    if event !in s.dropped {
      var t :| 0 <= t < |s.posters| && (s.posters[t] == Refused(event) || s.posters[t] == Dropping(event));
      HasOne(s.posters, t, event);
    }
  }

  /** An event that Node refuses, or that its poster gives up on, never has a callback, and one that
      Node takes is never dropped. */
  lemma RefusedIsDropped(states: seq<State>, steps: seq<Step>, j: nat, k: nat)
    requires Trace(states, steps) && j < k <= |steps| && (steps[j].Call? || steps[j].GiveUp?)
    requires steps[j].thread < |states[j].posters| && Unfinished(states[j].posters[steps[j].thread])
    ensures var event := states[j].posters[steps[j].thread].event;
            if steps[j].Call? && steps[j].accepted then event in Handled(states[k]) && event !in states[k].dropped
            else event !in Handled(states[k])
  {
    var event := states[j].posters[steps[j].thread].event;
    assert Apply(states[j], steps[j]) == Some(states[j + 1]);
    TraceIsRun(states, steps);
    EachEventOnce(states, k, event);
    if steps[j].Call? && steps[j].accepted {
      AcceptedGrows(states, steps, j + 1, k);
      CallbacksInOrder(states, steps, k);
      assert event in Accepted(states, steps, j + 1);
      assert event in Handled(states[k]);
      HandledOnce(states[k], event);
    } else {
      assert Lost(states[j + 1], event) by {
        var p := states[j + 1].posters[steps[j].thread];
        assert p == Refused(event) || p == Dropping(event);
      }
      StaysLost(states, steps, j + 1, k, event);
      LostIsNotHandled(states[k], event);
    }
  }

  predicate Unfinished(p: Poster) { p.Reserved? || p.Loaded? }

  lemma {:induction false} AcceptedGrows(states: seq<State>, steps: seq<Step>, j: nat, k: nat)
    requires j <= k <= |steps| && |states| == |steps| + 1
    ensures Accepted(states, steps, j) <= Accepted(states, steps, k)
    decreases k
  {
    if j < k { AcceptedGrows(states, steps, j, k - 1); }
  }

  lemma HandledOnce(s: State, event: nat)
    requires event in Handled(s) && Everywhere(s, event) <= 1
    ensures event !in s.dropped
  {
    OccursOnce(s.dropped, event);
    OccursOnce(s.queue, event);
    OccursOnce(Events(s.delivered), event);
  }
}
