/** The status channel as a state machine: core threads that post events, each atomic operation
    a step of its own, and the isolate that runs the callbacks. */
module StatusChannel {
  import opened Wrappers
  import opened StatusDetails

  const QUEUED_MAX: nat := 16
  const U32: nat := 0x1_0000_0000

  /** How far a core thread is in `post`. An event is named by how many were recorded before
      it; its sequence number is that modulo 2^64. */
  datatype Poster =
    | Idle
    | Counted(text: string)
    | Recorded(event: nat)
    | Loaded(event: nat, seen: nat)
    | Reserved(event: nat)
    | Refused(event: nat)
    | Dropping(event: nat)

  /** How far the isolate is in a callback. */
  datatype Callback = Waiting | Called(event: nat) | Released(event: nat)

  /** A callback that ran: its event, the detail it was given, and how many events had been
      recorded when it read the detail. */
  datatype Delivery = Delivery(event: nat, detail: string, recorded: nat)

  datatype State = State(
    queued: nat,
    statusEvents: nat,
    statusDropped: nat,
    posters: seq<Poster>,
    queue: seq<nat>,
    callback: Callback,
    history: seq<string>,
    delivered: seq<Delivery>,
    dropped: seq<nat>
  )

  datatype Step =
    | CountEvent(thread: nat, text: string)
    | RecordDetail(thread: nat)
    | LoadQueued(thread: nat)
    | GiveUp(thread: nat)
    | Exchange(thread: nat, spurious: bool)
    | Call(thread: nat, accepted: bool)
    | GiveBack(thread: nat)
    | CountDropped(thread: nat)
    | StartCallback
    | Release
    | ReadDetail

  function WrappingAdd(value: nat, n: nat, width: nat): nat
    requires width > 0
  {
    (value + n) % width
  }

  function WrappingSub(value: nat, width: nat): nat
    requires width > 0
  {
    if value == 0 then width - 1 else value - 1
  }

  function SaturatingInc(value: nat): nat { if value + 1 < U32 then value + 1 else U32 - 1 }

  /** The steps a thread may take, by how far it is. */
  function PostStep(s: State, step: Step, thread: nat): Option<State>
    requires thread < |s.posters|
  {
    match (step, s.posters[thread])
    case (CountEvent(_, text), Idle) =>
      Some(s.(statusEvents := WrappingAdd(s.statusEvents, 1, U64), posters := s.posters[thread := Counted(text)]))
    case (RecordDetail(_), Counted(text)) =>
      Some(s.(history := s.history + [text], posters := s.posters[thread := Recorded(|s.history|)]))
    case (LoadQueued(_), Recorded(event)) =>
      Some(s.(posters := s.posters[thread := Loaded(event, s.queued)]))
    case (GiveUp(_), Loaded(event, seen)) =>
      if seen < QUEUED_MAX then None
      else Some(s.(posters := s.posters[thread := Dropping(event)]))
    case (Exchange(_, spurious), Loaded(event, seen)) =>
      if seen >= QUEUED_MAX then None
      else if s.queued == seen && !spurious then
        Some(s.(queued := SaturatingInc(seen), posters := s.posters[thread := Reserved(event)]))
      else Some(s.(posters := s.posters[thread := Loaded(event, s.queued)]))
    case (Call(_, accepted), Reserved(event)) =>
      if accepted then Some(s.(queue := s.queue + [event], posters := s.posters[thread := Idle]))
      else Some(s.(posters := s.posters[thread := Refused(event)]))
    case (GiveBack(_), Refused(event)) =>
      Some(s.(queued := WrappingSub(s.queued, U32), posters := s.posters[thread := Dropping(event)]))
    case (CountDropped(_), Dropping(event)) =>
      Some(s.(statusDropped := WrappingAdd(s.statusDropped, 1, U64), dropped := s.dropped + [event],
              posters := s.posters[thread := Idle]))
    case _ => None
  }

  function Apply(s: State, step: Step): Option<State> {
    match step
    case StartCallback =>
      if s.callback != Waiting || s.queue == [] then None
      else Some(s.(queue := s.queue[1..], callback := Called(s.queue[0])))
    case Release =>
      if !s.callback.Called? then None
      else Some(s.(queued := WrappingSub(s.queued, U32), callback := Released(s.callback.event)))
    case ReadDetail =>
      if !s.callback.Released? then None
      else
        var event := s.callback.event;
        var detail := ReadAt(s.history, event % U64);
        Some(s.(callback := Waiting, delivered := s.delivered + [Delivery(event, detail, |s.history|)]))
    case _ =>
      if step.thread < |s.posters| then PostStep(s, step, step.thread) else None
  }

  predicate Init(s: State) {
    && s.queued == s.statusEvents == s.statusDropped == 0
    && (forall t :: 0 <= t < |s.posters| ==> s.posters[t] == Idle)
    && s.queue == [] && s.callback == Waiting && s.history == [] && s.delivered == [] && s.dropped == []
  }

  ghost predicate Next(s: State, s': State) { exists step :: Apply(s, step) == Some(s') }

  /** The states of one run, however its steps interleave. */
  ghost predicate Run(states: seq<State>) {
    && states != [] && Init(states[0])
    && forall k :: 0 <= k < |states| - 1 ==> Next(states[k], states[k + 1])
  }

  // ----- Where the events are -----

  function Holding(p: Poster): nat { if p.Reserved? || p.Refused? then 1 else 0 }

  /** The reservations that posters hold. */
  function Reservations(posters: seq<Poster>): nat {
    if posters == [] then 0 else Holding(posters[0]) + Reservations(posters[1..])
  }

  function Busy(posters: seq<Poster>): nat {
    if posters == [] then 0 else (if posters[0] == Idle then 0 else 1) + Busy(posters[1..])
  }

  function Unrecorded(posters: seq<Poster>): nat {
    if posters == [] then 0 else (if posters[0].Counted? then 1 else 0) + Unrecorded(posters[1..])
  }

  function Has(p: Poster, event: nat): nat {
    if !p.Idle? && !p.Counted? && p.event == event then 1 else 0
  }

  /** How many posters have an event. */
  function Posted(posters: seq<Poster>, event: nat): nat {
    if posters == [] then 0 else Has(posters[0], event) + Posted(posters[1..], event)
  }

  function Occurrences(events: seq<nat>, event: nat): nat {
    if events == [] then 0 else (if events[0] == event then 1 else 0) + Occurrences(events[1..], event)
  }

  function Events(delivered: seq<Delivery>): seq<nat> {
    seq(|delivered|, k requires 0 <= k < |delivered| => delivered[k].event)
  }

  /** The places taken of the 16: those posters reserved, and the calls Node holds, until their
      callback gives the place back. */
  function Places(s: State): nat {
    Reservations(s.posters) + |s.queue| + if s.callback.Called? then 1 else 0
  }

  /** The events on their way: those of posters, of calls Node holds and of the callback. */
  function InProgress(s: State): nat {
    Busy(s.posters) + |s.queue| + if s.callback == Waiting then 0 else 1
  }

  /** How often an event is anywhere: with a poster, in Node's queue, in the callback, among the
      delivered and among the dropped. */
  function Everywhere(s: State, event: nat): nat {
    Posted(s.posters, event)
    + Occurrences(s.queue, event)
    + (if s.callback != Waiting && s.callback.event == event then 1 else 0)
    + Occurrences(Events(s.delivered), event)
    + Occurrences(s.dropped, event)
  }

  ghost predicate PlacesInv(s: State) {
    s.queued == Places(s) <= QUEUED_MAX
  }

  /** Every recorded event is in exactly one place. */
  ghost predicate EventsInv(s: State) {
    forall event: nat :: Everywhere(s, event) == if event < |s.history| then 1 else 0
  }

  ghost predicate CountersInv(s: State) {
    && |s.history| + Unrecorded(s.posters) == |s.delivered| + |s.dropped| + InProgress(s)
    && s.statusEvents == (|s.history| + Unrecorded(s.posters)) % U64
    && s.statusDropped == |s.dropped| % U64
  }

  ghost predicate DeliveredInv(s: State) {
    forall d :: d in s.delivered ==>
      d.event < d.recorded <= |s.history| && d.detail == ReadAt(s.history[..d.recorded], d.event % U64)
  }

  ghost predicate Inv(s: State) {
    PlacesInv(s) && EventsInv(s) && CountersInv(s) && DeliveredInv(s)
  }

  // ----- One poster moves -----

  lemma {:induction false} CountsMove(posters: seq<Poster>, t: nat, p: Poster)
    requires t < |posters|
    ensures Reservations(posters[t := p]) == Reservations(posters) - Holding(posters[t]) + Holding(p)
    ensures Busy(posters[t := p]) == Busy(posters) - (if posters[t] == Idle then 0 else 1) + (if p == Idle then 0 else 1)
    ensures Unrecorded(posters[t := p])
         == Unrecorded(posters) - (if posters[t].Counted? then 1 else 0) + (if p.Counted? then 1 else 0)
    ensures Holding(posters[t]) <= Reservations(posters)
  {
    if t == 0 {
      assert posters[t := p][1..] == posters[1..];
    } else {
      CountsMove(posters[1..], t - 1, p);
      assert posters[t := p][1..] == posters[1..][t - 1 := p];
    }
  }

  lemma {:induction false} PostedMoves(posters: seq<Poster>, t: nat, p: Poster, event: nat)
    requires t < |posters|
    ensures Posted(posters[t := p], event) == Posted(posters, event) - Has(posters[t], event) + Has(p, event)
  {
    if t == 0 {
      assert posters[t := p][1..] == posters[1..];
    } else {
      PostedMoves(posters[1..], t - 1, p, event);
      assert posters[t := p][1..] == posters[1..][t - 1 := p];
    }
  }

  lemma {:induction false} OccurrencesAppend(events: seq<nat>, last: nat, event: nat)
    ensures Occurrences(events + [last], event) == Occurrences(events, event) + if last == event then 1 else 0
  {
    if events != [] {
      assert (events + [last])[1..] == events[1..] + [last];
      OccurrencesAppend(events[1..], last, event);
    }
  }

  lemma {:induction false} AllIdle(posters: seq<Poster>, event: nat)
    requires forall t :: 0 <= t < |posters| ==> posters[t] == Idle
    ensures Reservations(posters) == Busy(posters) == Unrecorded(posters) == Posted(posters, event) == 0
  {
    if posters != [] { AllIdle(posters[1..], event); }
  }

  lemma InitInv(s: State)
    requires Init(s)
    ensures Inv(s)
  {
    forall event: nat ensures Everywhere(s, event) == 0 {
      AllIdle(s.posters, event);
    }
    AllIdle(s.posters, 0);
  }

  lemma PostPlaces(s: State, step: Step, t: nat)
    requires PlacesInv(s) && t < |s.posters| && PostStep(s, step, t).Some?
    ensures PlacesInv(PostStep(s, step, t).value)
  {
    hide Reservations;
    var s' := PostStep(s, step, t).value;
    CountsMove(s.posters, t, s'.posters[t]);
    assert s'.posters == s.posters[t := s'.posters[t]];
  }

  lemma CountWraps(n: nat)
    ensures WrappingAdd(n % U64, 1, U64) == (n + 1) % U64
  {
  }

  lemma PostCounters(s: State, step: Step, t: nat)
    requires CountersInv(s) && t < |s.posters| && PostStep(s, step, t).Some?
    ensures CountersInv(PostStep(s, step, t).value)
  {
    hide Unrecorded, Busy, WrappingAdd, WrappingSub;
    var s' := PostStep(s, step, t).value;
    CountWraps(|s.history| + Unrecorded(s.posters));
    CountWraps(|s.dropped|);
    CountsMove(s.posters, t, s'.posters[t]);
    assert s'.posters == s.posters[t := s'.posters[t]];
  }

  lemma PostEvent(s: State, step: Step, t: nat, event: nat)
    requires t < |s.posters| && PostStep(s, step, t).Some?
    ensures Everywhere(PostStep(s, step, t).value, event)
         == Everywhere(s, event) + if step.RecordDetail? && event == |s.history| then 1 else 0
  {
    hide Posted, Occurrences, Events;
    var s' := PostStep(s, step, t).value;
    PostedMoves(s.posters, t, s'.posters[t], event);
    assert s'.posters == s.posters[t := s'.posters[t]];
    if step.Call? && step.accepted {
      OccurrencesAppend(s.queue, s.posters[t].event, event);
    } else if step.CountDropped? {
      OccurrencesAppend(s.dropped, s.posters[t].event, event);
    }
  }

  lemma PostEvents(s: State, step: Step, t: nat)
    requires EventsInv(s) && t < |s.posters| && PostStep(s, step, t).Some?
    ensures EventsInv(PostStep(s, step, t).value)
  {
    hide Everywhere;
    var s' := PostStep(s, step, t).value;
    forall event: nat ensures Everywhere(s', event) == if event < |s'.history| then 1 else 0 {
      PostEvent(s, step, t, event);
    }
  }

  lemma PostDelivered(s: State, step: Step, t: nat)
    requires DeliveredInv(s) && t < |s.posters| && PostStep(s, step, t).Some?
    ensures DeliveredInv(PostStep(s, step, t).value)
  {
    var s' := PostStep(s, step, t).value;
    forall d | d in s.delivered ensures s'.history[..d.recorded] == s.history[..d.recorded] {}
  }

  // ----- The callback moves -----

  predicate IsCallback(step: Step) { step.StartCallback? || step.Release? || step.ReadDetail? }

  lemma CallbackEvents(s: State, step: Step)
    requires EventsInv(s) && IsCallback(step) && Apply(s, step).Some?
    ensures EventsInv(Apply(s, step).value)
  {
    hide Posted, ReadAt;
    var s' := Apply(s, step).value;
    forall event: nat ensures Everywhere(s', event) == Everywhere(s, event) {
      if step.ReadDetail? {
        assert Events(s'.delivered) == Events(s.delivered) + [s.callback.event];
        OccurrencesAppend(Events(s.delivered), s.callback.event, event);
      }
    }
  }

  lemma CallbackCounts(s: State, step: Step)
    requires PlacesInv(s) && CountersInv(s) && IsCallback(step) && Apply(s, step).Some?
    ensures PlacesInv(Apply(s, step).value) && CountersInv(Apply(s, step).value)
  {
    hide ReadAt, Reservations, Busy, Unrecorded;
  }

  lemma CallbackDelivered(s: State, step: Step)
    requires EventsInv(s) && DeliveredInv(s) && IsCallback(step) && Apply(s, step).Some?
    ensures DeliveredInv(Apply(s, step).value)
  {
    hide Posted, Occurrences, ReadAt;
    if step.ReadDetail? {
      assert Everywhere(s, s.callback.event) >= 1;
      assert s.history[..|s.history|] == s.history;
    }
  }

  /** Every step keeps the invariant. */
  lemma StepKeepsInv(s: State, step: Step)
    requires Inv(s) && Apply(s, step).Some?
    ensures Inv(Apply(s, step).value)
  {
    hide PlacesInv, EventsInv, CountersInv, DeliveredInv, PostStep, ReadAt;
    if IsCallback(step) {
      CallbackEvents(s, step);
      CallbackCounts(s, step);
      CallbackDelivered(s, step);
    } else {
      PostPlaces(s, step, step.thread);
      PostEvents(s, step, step.thread);
      PostCounters(s, step, step.thread);
      PostDelivered(s, step, step.thread);
    }
  }

  // ----- Every run -----

  /** In every state of every run the invariant holds. */
  lemma {:induction false} RunKeepsInv(states: seq<State>, k: nat)
    requires Run(states) && k < |states|
    ensures Inv(states[k])
  {
    if k == 0 {
      InitInv(states[0]);
    } else {
      hide Inv, Apply;
      RunKeepsInv(states, k - 1);
      assert Next(states[k - 1], states[k - 1 + 1]);
      var step :| Apply(states[k - 1], step) == Some(states[k]);
      StepKeepsInv(states[k - 1], step);
    }
  }

  /** The places taken of the 16 are the reservations of posters and the calls Node still holds;
      there are never more than 16, so the count never wraps, and Node itself never has a reason
      to refuse a call for a full queue. */
  lemma QueueIsBounded(states: seq<State>, k: nat, t: nat)
    requires Run(states) && k < |states|
    ensures states[k].queued == Places(states[k]) <= 16
    ensures t < |states[k].posters| && states[k].posters[t].Refused? ==> states[k].queued > 0
    ensures states[k].callback.Called? ==> states[k].queued > 0
    ensures t < |states[k].posters| && states[k].posters[t].Reserved? ==> |states[k].queue| < 16
  {
    RunKeepsInv(states, k);
    if t < |states[k].posters| {
      CountsMove(states[k].posters, t, Idle);
    }
  }

  /** The counted events are those delivered, those dropped and those in progress, as the
      counters of 64 bits have them. */
  lemma EventsAreAccountedFor(states: seq<State>, k: nat)
    requires Run(states) && k < |states|
    ensures var s := states[k];
            && s.statusEvents == (|s.delivered| + |s.dropped| + InProgress(s)) % 0x1_0000_0000_0000_0000
            && s.statusDropped == |s.dropped| % 0x1_0000_0000_0000_0000
  {
    RunKeepsInv(states, k);
  }

  /** Every recorded event is in exactly one place, so none is lost, none is delivered twice, and
      a dropped event is not delivered. */
  lemma EachEventOnce(states: seq<State>, k: nat, event: nat)
    requires Run(states) && k < |states|
    ensures Everywhere(states[k], event) == if event < |states[k].history| then 1 else 0
  {
    RunKeepsInv(states, k);
  }

  /** A callback is given the detail of its own event while that is among the last 64, and the
      empty string after that; another event's detail only if 2^64 more were recorded. */
  lemma DeliveriesAreOwn(states: seq<State>, k: nat, i: nat)
    requires Run(states) && k < |states| && i < |states[k].delivered|
    ensures var s, d := states[k], states[k].delivered[i];
            && d.event < d.recorded <= |s.history|
            && (d.recorded <= d.event + 0x1_0000_0000_0000_0000 ==>
                  d.detail == if d.recorded <= d.event + 64 then s.history[d.event] else "")
  {
    RunKeepsInv(states, k);
    var s, d := states[k], states[k].delivered[i];
    assert d in s.delivered;
    if d.recorded <= d.event + U64 {
      OwnDetailOrNone(s.history[..d.recorded], d.event);
    }
  }

  /** An event is given up on only after its poster saw all 16 places taken: the step that left
      it ready to give up was made with 16 of them taken. */
  lemma GivesUpOnlyWhenFull(states: seq<State>, k: nat, t: nat)
    requires Run(states) && k + 1 < |states| && t < |states[k].posters| == |states[k + 1].posters|
    requires Apply(states[k + 1], GiveUp(t)).Some? && Apply(states[k], GiveUp(t)).None?
    ensures Places(states[k]) == 16
  {
    RunKeepsInv(states, k);
    assert Next(states[k], states[k + 1]);
    var step :| Apply(states[k], step) == Some(states[k + 1]);
    LooksAtQueued(states[k], step, t);
  }

  /** A poster that becomes ready to give up has just read the count. */
  lemma LooksAtQueued(s: State, step: Step, t: nat)
    requires Apply(s, step).Some? && t < |s.posters|
    requires Apply(s, GiveUp(t)).None? && t < |Apply(s, step).value.posters| && Apply(Apply(s, step).value, GiveUp(t)).Some?
    ensures s.queued >= QUEUED_MAX
  {
    hide ReadAt;
  }
}
