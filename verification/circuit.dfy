// The circuit breaker of one relay and its operator switch (src/relay/pool.rs).
module Circuits {
  import opened Wrappers

  const U32_MAX: nat := 0xFFFF_FFFF

  type Count = x: nat | x <= U32_MAX

  datatype Health = Health(
    autoDisable: bool, autoRecover: bool, failureThreshold: Count, successThreshold: Count, cooldownSeconds: nat)

  datatype CircuitState = Closed | Open | HalfOpen

  // Everything the breaker remembers. Times are seconds on a monotonic clock.
  datatype Breaker = Breaker(
    active: bool, state: CircuitState, openUntil: Option<nat>, failures: Count, successes: Count, healthy: bool,
    trips: nat, manuallyDisabled: bool)

  // What can happen to a relay, with the instant where it matters. A reload comes with the
  // new setting of the switch when the configuration changed it.
  datatype Event =
    | Queried(now: nat)
    | Succeeded
    | Failed(now: nat)
    | Activated
    | Deactivated
    | Cleared
    | StatsReset
    | Reloaded(switch: Option<bool>)

  function Saturated(n: nat): Count {
    if n < U32_MAX then n else U32_MAX
  }

  function AtLeastOne(n: nat): nat {
    if n == 0 then 1 else n
  }

  function New(enabled: bool): Breaker {
    Breaker(enabled, Closed, None, 0, 0, true, 0, false)
  }

  function Reopened(h: Health, b: Breaker, now: nat): Breaker {
    b.(state := Open, openUntil := Some(now + AtLeastOne(h.cooldownSeconds)))
  }

  predicate Trips(h: Health, b: Breaker) {
    h.autoDisable && b.state != Open && Saturated(b.failures + 1) >= AtLeastOne(h.failureThreshold)
  }

  predicate Closes(h: Health, b: Breaker) {
    b.state != Closed && Saturated(b.successes + 1) >= AtLeastOne(h.successThreshold) && h.autoRecover
    && !b.manuallyDisabled
  }

  predicate Expired(b: Breaker, now: nat) {
    b.state == Open && (b.openUntil.Some? ==> now >= b.openUntil.value)
  }

  function Apply(h: Health, b: Breaker, e: Event): Breaker {
    match e
    case Queried(now) => if Expired(b, now) then b.(state := HalfOpen, openUntil := None) else b
    case Succeeded =>
      var c := b.(failures := 0, successes := Saturated(b.successes + 1), healthy := true);
      if Closes(h, b) then c.(state := Closed, openUntil := None) else c
    case Failed(now) =>
      var c := b.(successes := 0, failures := Saturated(b.failures + 1), healthy := false);
      if Trips(h, b) then Reopened(h, c, now).(trips := b.trips + 1)
      else if b.state == HalfOpen then Reopened(h, c, now)
      else c
    case Activated =>
      var c := b.(active := true, manuallyDisabled := false);
      if b.state != Closed then c.(state := Closed, openUntil := None, failures := 0) else c
    case Deactivated => b.(active := false, manuallyDisabled := true)
    case Cleared => b.(state := Closed, openUntil := None, failures := 0, healthy := true)
    case StatsReset => b.(trips := 0)
    case Reloaded(switch) => if switch.Some? then b.(active := switch.value) else b
  }

  ghost function Run(h: Health, b: Breaker, events: seq<Event>): Breaker {
    if events == [] then b else Apply(h, Run(h, b, events[..|events| - 1]), events[|events| - 1])
  }

  // -- the relay as the program keeps it --------------------------------------------

  class Relay {
    const health: Health
    var active: bool
    var state: CircuitState
    var openUntil: Option<nat>
    var failures: Count
    var successes: Count
    var healthy: bool
    var trips: nat
    var manuallyDisabled: bool

    ghost function View(): Breaker
      reads this
    {
      Breaker(active, state, openUntil, failures, successes, healthy, trips, manuallyDisabled)
    }

    constructor (health: Health, enabled: bool)
      ensures this.health == health && View() == New(enabled)
    {
      this.health, active, state, openUntil := health, enabled, Closed, None;
      failures, successes, healthy, trips, manuallyDisabled := 0, 0, true, 0, false;
    }

    // The relay of a reloaded configuration takes over from the one before; a switch the
    // configuration changed is set as it says now.
    constructor CarryOver(health: Health, previous: Relay, enabledBefore: bool, enabled: bool)
      ensures this.health == health
      ensures var switch := if enabled != enabledBefore then Some(enabled) else None;
        View() == Apply(health, previous.View(), Reloaded(switch))
    {
      this.health := health;
      active := if enabledBefore == enabled then previous.active else enabled;
      state, openUntil := previous.state, previous.openUntil;
      failures, successes, healthy := previous.failures, previous.successes, previous.healthy;
      trips, manuallyDisabled := previous.trips, previous.manuallyDisabled;
    }

    // Turns the relay on; a tripped breaker is cleared at once.
    method Activate() returns (changed: bool)
      modifies this
      ensures View() == Apply(health, old(View()), Activated)
      ensures changed == !old(active)
    {
      changed := !active;
      active := true;
      manuallyDisabled := false;
      if state != Closed {
        state := Closed;
        openUntil := None;
        failures := 0;
      }
    }

    method Deactivate() returns (changed: bool)
      modifies this
      ensures View() == Apply(health, old(View()), Deactivated)
      ensures changed == old(active)
    {
      changed := active;
      active := false;
      manuallyDisabled := true;
    }

    // Moves an expired open circuit to half-open and reports the state.
    method State(now: nat) returns (current: CircuitState)
      modifies this
      ensures View() == Apply(health, old(View()), Queried(now)) && current == View().state
    {
      if state == Open {
        var expired := match openUntil case Some(deadline) => now >= deadline case None => true;
        if expired {
          state := HalfOpen;
          openUntil := None;
        }
      }
      current := state;
    }

    method RecordSuccess()
      modifies this
      ensures View() == Apply(health, old(View()), Succeeded)
    {
      failures := 0;
      if successes < U32_MAX {
        successes := successes + 1;
      }
      var threshold := if health.successThreshold > 1 then health.successThreshold else 1;
      if state != Closed && successes >= threshold && health.autoRecover && !manuallyDisabled {
        state := Closed;
        openUntil := None;
      }
      healthy := true;
    }

    method RecordFailure(now: nat) returns (tripped: bool)
      modifies this
      ensures View() == Apply(health, old(View()), Failed(now))
      ensures tripped == Trips(health, old(View()))
    {
      successes := 0;
      if failures < U32_MAX {
        failures := failures + 1;
      }
      healthy := false;
      var threshold := if health.failureThreshold > 1 then health.failureThreshold else 1;
      var cooldown := if health.cooldownSeconds > 1 then health.cooldownSeconds else 1;
      tripped := health.autoDisable && state != Open && failures >= threshold;
      if tripped {
        state := Open;
        openUntil := Some(now + cooldown);
        trips := trips + 1;
      } else if state == HalfOpen {
        state := Open;
        openUntil := Some(now + cooldown);
      }
    }

    method ResetCircuit()
      modifies this
      ensures View() == Apply(health, old(View()), Cleared)
    {
      state := Closed;
      openUntil := None;
      failures := 0;
      healthy := true;
    }

    method ResetStats()
      modifies this
      ensures View() == Apply(health, old(View()), StatsReset)
    {
      trips := 0;
    }
  }

  // -- every run ------------------------------------------------------------------------

  // A deadline is stored exactly while the circuit is open, only one of the two streaks is
  // running, and a closed circuit is below its threshold.
  ghost predicate Consistent(h: Health, b: Breaker) {
    && (b.state == Open <==> b.openUntil.Some?)
    && (b.failures == 0 || b.successes == 0)
    && (b.state == Closed && h.autoDisable ==> b.failures < AtLeastOne(h.failureThreshold))
  }

  lemma StepIsConsistent(h: Health, b: Breaker, e: Event)
    requires Consistent(h, b)
    ensures Consistent(h, Apply(h, b, e))
  {
  }

  lemma NewIsConsistent(h: Health, enabled: bool)
    ensures Consistent(h, New(enabled))
  {
  }

  // Switched off by hand more recently than on.
  ghost predicate HandedOff(events: seq<Event>) {
    if events == [] then false
    else
      match events[|events| - 1]
      case Activated => false
      case Deactivated => true
      case _ => HandedOff(events[..|events| - 1])
  }

  // Since then, a reload last set the switch, and to on.
  ghost predicate Revived(events: seq<Event>) {
    if events == [] then false
    else
      var before := events[..|events| - 1];
      match events[|events| - 1]
      case Activated => false
      case Deactivated => false
      case Reloaded(Some(on)) => on && HandedOff(before)
      case _ => Revived(before)
  }

  lemma SwitchStep(h: Health, b: Breaker, e: Event)
    ensures Apply(h, b, e).manuallyDisabled
      == if e.Activated? then false else if e.Deactivated? then true else b.manuallyDisabled
    ensures Apply(h, b, e).active
      == if e.Activated? then true
         else if e.Deactivated? then false
         else if e.Reloaded? && e.switch.Some? then e.switch.value
         else b.active
  {
  }

  // After any events, and a relay carries its mark although it is on exactly when a changed
  // configuration switched it on again, which does not ask for the mark.
  lemma {:induction false} EveryRunIsConsistent(h: Health, enabled: bool, events: seq<Event>)
    ensures Consistent(h, Run(h, New(enabled), events))
    ensures var b := Run(h, New(enabled), events);
      && (b.manuallyDisabled <==> HandedOff(events))
      && (b.manuallyDisabled && b.active <==> Revived(events))
  {
    hide Apply, Consistent;
    if events != [] {
      EveryRunIsConsistent(h, enabled, events[..|events| - 1]);
      StepIsConsistent(h, Run(h, New(enabled), events[..|events| - 1]), events[|events| - 1]);
      SwitchStep(h, Run(h, New(enabled), events[..|events| - 1]), events[|events| - 1]);
    } else {
      NewIsConsistent(h, enabled);
    }
  }

  // A pool that does not disable relays by itself never has an open circuit.
  lemma {:induction false} NeverTrips(h: Health, enabled: bool, events: seq<Event>)
    requires !h.autoDisable
    ensures Run(h, New(enabled), events).state == Closed
  {
    if events != [] {
      NeverTrips(h, enabled, events[..|events| - 1]);
    }
  }

  lemma {:induction false} RunAppends(h: Health, b: Breaker, first: seq<Event>, second: seq<Event>)
    ensures Run(h, b, first + second) == Run(h, Run(h, b, first), second)
  {
    if second == [] {
      assert first + second == first;
    } else {
      var n := |second| - 1;
      RunAppends(h, b, first, second[..n]);
      assert (first + second)[..|first| + n] == first + second[..n];
    }
  }

  // -- the streaks mean what their names say -----------------------------------------------

  // Successes since the last failure.
  ghost function SuccessStreak(events: seq<Event>): nat {
    if events == [] then 0
    else
      var before := SuccessStreak(events[..|events| - 1]);
      match events[|events| - 1]
      case Succeeded => before + 1
      case Failed(_) => 0
      case _ => before
  }

  lemma SuccessesStep(h: Health, b: Breaker, e: Event)
    ensures Apply(h, b, e).successes
      == if e.Succeeded? then Saturated(b.successes + 1) else if e.Failed? then 0 else b.successes
  {
  }

  lemma {:induction false} SuccessesCountTheStreak(h: Health, b: Breaker, events: seq<Event>)
    requires b.successes == 0
    ensures Run(h, b, events).successes == Saturated(SuccessStreak(events))
  {
    hide Apply;
    if events != [] {
      SuccessesCountTheStreak(h, b, events[..|events| - 1]);
      SuccessesStep(h, Run(h, b, events[..|events| - 1]), events[|events| - 1]);
    }
  }

  // Failures since the last success, clearing, or activation of a relay whose circuit was
  // not closed.
  ghost function FailureStreak(h: Health, b: Breaker, events: seq<Event>): nat {
    if events == [] then 0
    else
      var front := events[..|events| - 1];
      var before := FailureStreak(h, b, front);
      match events[|events| - 1]
      case Failed(_) => before + 1
      case Succeeded => 0
      case Cleared => 0
      case Activated => if Run(h, b, front).state == Closed then before else 0
      case _ => before
  }

  lemma FailuresStep(h: Health, b: Breaker, e: Event)
    ensures Apply(h, b, e).failures
      == if e.Failed? then Saturated(b.failures + 1)
         else if e.Succeeded? || e.Cleared? || (e.Activated? && b.state != Closed) then 0
         else b.failures
  {
  }

  lemma {:induction false} FailuresCountTheStreak(h: Health, b: Breaker, events: seq<Event>)
    requires b.failures == 0
    ensures Run(h, b, events).failures == Saturated(FailureStreak(h, b, events))
  {
    hide Apply;
    if events != [] {
      var last := |events| - 1;
      FailuresCountTheStreak(h, b, events[..last]);
      FailuresStep(h, Run(h, b, events[..last]), events[last]);
    }
  }

  // Failures since the statistics were cleared that found the circuit not open and the
  // streak at the threshold.
  ghost function TripsIn(h: Health, b: Breaker, events: seq<Event>): nat {
    if events == [] then 0
    else
      var front := events[..|events| - 1];
      match events[|events| - 1]
      case StatsReset => 0
      case Failed(_) =>
        TripsIn(h, b, front)
        + if h.autoDisable && Run(h, b, front).state != Open
               && Saturated(FailureStreak(h, b, events)) >= AtLeastOne(h.failureThreshold) then 1 else 0
      case _ => TripsIn(h, b, front)
  }

  lemma TripsStep(h: Health, b: Breaker, e: Event)
    ensures Apply(h, b, e).trips
      == if e.StatsReset? then 0
         else b.trips + if e.Failed? && h.autoDisable && b.state != Open
                             && Apply(h, b, e).failures >= AtLeastOne(h.failureThreshold) then 1 else 0
  {
  }

  // The trip count is the number of those.
  lemma {:induction false} TripsAreCounted(h: Health, b: Breaker, events: seq<Event>)
    requires b.failures == 0 && b.trips == 0
    ensures Run(h, b, events).trips == TripsIn(h, b, events)
  {
    hide Apply;
    if events != [] {
      var last := |events| - 1;
      TripsAreCounted(h, b, events[..last]);
      FailuresCountTheStreak(h, b, events);
      TripsStep(h, Run(h, b, events[..last]), events[last]);
    }
  }

  // What the last event of its kind said.
  ghost function LastSwitch(enabled: bool, events: seq<Event>): bool {
    if events == [] then enabled
    else
      match events[|events| - 1]
      case Activated => true
      case Deactivated => false
      case Reloaded(Some(on)) => on
      case _ => LastSwitch(enabled, events[..|events| - 1])
  }

  ghost function LastVerdict(events: seq<Event>): bool {
    if events == [] then true
    else
      match events[|events| - 1]
      case Succeeded => true
      case Cleared => true
      case Failed(_) => false
      case _ => LastVerdict(events[..|events| - 1])
  }

  // The switch is where an operator or a changed configuration last put it, and the relay
  // counts as healthy by its last outcome: neither is moved by anything else.
  lemma {:induction false} SwitchAndHealth(h: Health, enabled: bool, events: seq<Event>)
    ensures Run(h, New(enabled), events).active == LastSwitch(enabled, events)
    ensures Run(h, New(enabled), events).healthy == LastVerdict(events)
  {
    if events != [] {
      SwitchAndHealth(h, enabled, events[..|events| - 1]);
    }
  }

  // -- out of rotation until the deadline ------------------------------------------------------

  lemma {:induction false} DisabledUntilActivated(h: Health, b: Breaker, events: seq<Event>)
    requires Activated !in events
    ensures Run(h, b, events).manuallyDisabled == (b.manuallyDisabled || Deactivated in events)
  {
    if events != [] {
      var last := |events| - 1;
      DisabledUntilActivated(h, b, events[..last]);
      assert events == events[..last] + [events[last]];
    }
  }

  // The events that take a circuit with this deadline out of the open state, told
  // from the log before them alone: a look at or past the deadline, an operator, or
  // enough successes in a row for a relay nobody switched off.
  ghost predicate Frees(h: Health, disabled: bool, deadline: nat, before: seq<Event>, e: Event) {
    match e
    case Queried(now) => now >= deadline
    case Succeeded =>
      h.autoRecover && SuccessStreak(before) + 1 >= AtLeastOne(h.successThreshold)
      && !disabled && Deactivated !in before
    case Activated => true
    case Cleared => true
    case _ => false
  }

  ghost predicate Freed(h: Health, disabled: bool, deadline: nat, events: seq<Event>) {
    if events == [] then false
    else
      var n := |events| - 1;
      Freed(h, disabled, deadline, events[..n]) || Frees(h, disabled, deadline, events[..n], events[n])
  }

  ghost predicate Barred(b: Breaker, deadline: nat) {
    b.state == Open && b.openUntil == Some(deadline)
  }

  // Open with this deadline after each of the events.
  ghost predicate BarredThroughout(h: Health, b: Breaker, deadline: nat, events: seq<Event>) {
    Barred(Run(h, b, events), deadline)
    && (events != [] ==> BarredThroughout(h, b, deadline, events[..|events| - 1]))
  }

  // What one event does to an open circuit.
  lemma WhileBarred(h: Health, b: Breaker, deadline: nat, e: Event)
    requires Barred(b, deadline)
    ensures Barred(Apply(h, b, e), deadline)
      <==> !e.Activated? && !e.Cleared? && (e.Queried? ==> e.now < deadline) && (e.Succeeded? ==> !Closes(h, b))
  {
  }

  lemma {:induction false} NotActivated(h: Health, disabled: bool, deadline: nat, events: seq<Event>)
    requires !Freed(h, disabled, deadline, events)
    ensures Activated !in events
  {
    if events != [] {
      var n := |events| - 1;
      NotActivated(h, disabled, deadline, events[..n]);
      assert events == events[..n] + [events[n]];
    }
  }

  // A relay whose circuit just opened stays out of rotation, with the same deadline
  // however often it fails, exactly as long as none of those events has happened.
  lemma {:induction false} OutUntilFreed(h: Health, b: Breaker, deadline: nat, events: seq<Event>)
    requires Barred(b, deadline) && b.successes == 0
    ensures BarredThroughout(h, b, deadline, events) <==> !Freed(h, b.manuallyDisabled, deadline, events)
  {
    hide Apply, SuccessStreak;
    if events != [] {
      var n := |events| - 1;
      OutUntilFreed(h, b, deadline, events[..n]);
      if !Freed(h, b.manuallyDisabled, deadline, events[..n]) {
        NotActivated(h, b.manuallyDisabled, deadline, events[..n]);
        SuccessesCountTheStreak(h, b, events[..n]);
        DisabledUntilActivated(h, b, events[..n]);
        WhileBarred(h, Run(h, b, events[..n]), deadline, events[n]);
      }
    }
  }

  // A failure that trips the breaker, or comes while it is being tried again, keeps
  // the relay out for the whole cooldown: no question asked before its end finds the
  // relay eligible unless the log shows one of the freeing events.
  lemma OutForTheCooldown(h: Health, enabled: bool, history: seq<Event>, at: nat, later: seq<Event>)
    requires Trips(h, Run(h, New(enabled), history)) || Run(h, New(enabled), history).state == HalfOpen
    requires !Freed(h, Run(h, New(enabled), history).manuallyDisabled, at + AtLeastOne(h.cooldownSeconds), later)
    ensures Run(h, New(enabled), history + [Failed(at)] + later).state == Open
  {
    var b := Run(h, New(enabled), history);
    var log := history + [Failed(at)];
    assert log[..|log| - 1] == history;
    RunAppends(h, New(enabled), log, later);
    OutUntilFreed(h, Apply(h, b, Failed(at)), at + AtLeastOne(h.cooldownSeconds), later);
  }

  // While a relay carries the mark of being switched off by hand nothing but the operator
  // closes its circuit: neither successes in any number, nor failures, nor the passing of
  // its deadline, nor a configuration that switches it on.
  lemma {:induction false} SuccessKeepsItOff(h: Health, b: Breaker, events: seq<Event>)
    requires b.manuallyDisabled && Activated !in events && Cleared !in events
    ensures Run(h, b, events).manuallyDisabled
    ensures b.state != Closed ==> Run(h, b, events).state != Closed
  {
    hide Apply;
    if events != [] {
      var n := |events| - 1;
      assert events == events[..n] + [events[n]];
      SuccessKeepsItOff(h, b, events[..n]);
      OnlyOperators(h, Run(h, b, events[..n]), events[n]);
    }
  }

  lemma OnlyOperators(h: Health, b: Breaker, e: Event)
    requires b.manuallyDisabled && e != Activated && e != Cleared
    ensures Apply(h, b, e).manuallyDisabled && (b.state != Closed ==> Apply(h, b, e).state != Closed)
  {
  }

  // -- when it trips, and how it comes back ------------------------------------------------------

  ghost predicate AllFailed(events: seq<Event>) {
    forall i :: 0 <= i < |events| ==> events[i].Failed?
  }

  // From a clean closed circuit a row of failures trips it at the threshold, not
  // before, and once.
  lemma {:induction false} TripsAtTheThreshold(h: Health, b: Breaker, events: seq<Event>)
    requires b.state == Closed && b.failures == 0 && h.autoDisable && AllFailed(events)
    ensures var r := Run(h, b, events);
      && (r.state == Open <==> |events| >= AtLeastOne(h.failureThreshold))
      && (r.state == Closed <==> |events| < AtLeastOne(h.failureThreshold))
      && r.failures == Saturated(|events|)
      && r.trips == b.trips + if r.state == Open then 1 else 0
  {
    if events != [] {
      TripsAtTheThreshold(h, b, events[..|events| - 1]);
    }
  }

  ghost predicate AllSucceeded(events: seq<Event>) {
    forall i :: 0 <= i < |events| ==> events[i].Succeeded?
  }

  // Enough successes in a row close any circuit that may recover by itself, and
  // leave alone one that may not.
  lemma {:induction false} Recovers(h: Health, b: Breaker, events: seq<Event>)
    requires AllSucceeded(events)
    ensures var r := Run(h, b, events);
      && r.manuallyDisabled == b.manuallyDisabled && r.successes == Saturated(b.successes + |events|)
      && (h.autoRecover && !b.manuallyDisabled && |events| >= AtLeastOne(h.successThreshold) ==> r.state == Closed)
      && (!h.autoRecover || b.manuallyDisabled ==> r.state == b.state)
  {
    if events != [] {
      Recovers(h, b, events[..|events| - 1]);
    }
  }

  // Once the deadline has passed the next question lets deliveries through, in any number,
  // and the first outcome decides: a failure bars the relay again for a full cooldown,
  // counted as a trip only at the threshold.
  lemma {:induction false} HalfOpenDecides(h: Health, b: Breaker, deadline: nat, now: nat, at: nat)
    requires Barred(b, deadline) && now >= deadline
    ensures var half := Apply(h, b, Queried(now));
      && half.state == HalfOpen
      && Barred(Apply(h, half, Failed(at)), at + AtLeastOne(h.cooldownSeconds))
      && (Apply(h, half, Failed(at)).trips != b.trips
          <==> h.autoDisable && Saturated(b.failures + 1) >= AtLeastOne(h.failureThreshold))
      && (Apply(h, half, Succeeded).state == Closed
          <==> h.autoRecover && !b.manuallyDisabled && Saturated(b.successes + 1) >= AtLeastOne(h.successThreshold))
  {
  }
}
