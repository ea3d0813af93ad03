// One upstream relay: its breaker, its quotas and its concurrency slots, and the
// question whether it is in rotation (src/relay/pool.rs).
module Relays {
  import opened Wrappers
  import C = Circuits
  import Q = Quotas

  datatype Reason = Deactivated | CircuitOpen | QuotaReached | AtConcurrencyLimit

  // In rotation: switched on, not barred, below its concurrency limit and with a send
  // left in every window.
  predicate Eligible(
    b: C.Breaker, l: Q.Limits, u: Q.Usage, inFlight: nat, maxConcurrent: nat, instant: nat, now: nat)
  {
    && b.active
    && (b.state == C.Open ==> C.Expired(b, instant))
    && inFlight < C.AtLeastOne(maxConcurrent)
    && Q.Grants(l, u, Q.Reserved(now))
  }

  class RelayRuntime {
    const circuit: C.Relay
    const meter: Q.Meter
    const maxConcurrent: nat
    var inFlight: nat

    constructor (health: C.Health, enabled: bool, limits: Q.Limits, maxConcurrent: nat)
      ensures fresh(circuit) && fresh(meter) && circuit.health == health && meter.limits == limits
      ensures this.maxConcurrent == maxConcurrent
      ensures circuit.View() == C.New(enabled) && meter.View() == Q.FRESH && inFlight == 0
    {
      circuit := new C.Relay(health, enabled);
      meter := new Q.Meter(limits);
      this.maxConcurrent, inFlight := maxConcurrent, 0;
    }

    ghost predicate InRotation(instant: nat, now: nat)
      reads this, circuit, meter
    {
      Eligible(circuit.View(), meter.limits, meter.View(), inFlight, maxConcurrent, instant, now)
    }

    // instant is the monotonic clock of the breaker, now the wall clock of the quotas.
    method IsEligible(instant: nat, now: nat) returns (r: bool)
      modifies circuit, meter
      ensures r == old(InRotation(instant, now)) == InRotation(instant, now)
      ensures circuit.View()
        == if old(circuit.active) then C.Apply(circuit.health, old(circuit.View()), C.Queried(instant))
                                else old(circuit.View())
    {
      if !circuit.active {
        return false;
      }
      var state := circuit.State(instant);
      if state == C.Open {
        return false;
      }
      if inFlight >= C.AtLeastOne(maxConcurrent) {
        return false;
      }
      var full := meter.QuotaExhausted(now);
      r := !full;
    }

    // A relay has a reason to be out of rotation exactly when it is out of rotation.
    method IneligibleReason(instant: nat, now: nat) returns (r: Option<Reason>)
      modifies circuit, meter
      ensures r.None? <==> old(InRotation(instant, now))
      ensures r.None? <==> InRotation(instant, now)
      ensures r == Some(Deactivated) <==> !old(circuit.active)
      ensures var b := old(circuit.View());
        var barred := b.state == C.Open && !C.Expired(b, instant);
        var full := old(!Q.Grants(meter.limits, meter.View(), Q.Reserved(now)));
        && (r == Some(CircuitOpen) <==> b.active && barred)
        && (r == Some(QuotaReached) <==> b.active && !barred && full)
        && (r == Some(AtConcurrencyLimit) <==> b.active && !barred && !full && inFlight >= C.AtLeastOne(maxConcurrent))
    {
      if !circuit.active {
        return Some(Deactivated);
      }
      var state := circuit.State(instant);
      if state == C.Open {
        return Some(CircuitOpen);
      }
      var full := meter.QuotaExhausted(now);
      if full {
        return Some(QuotaReached);
      }
      if inFlight >= C.AtLeastOne(maxConcurrent) {
        return Some(AtConcurrencyLimit);
      }
      r := None;
    }

    // What an answer does to the relay's health: a delivery is a success, an answer to try
    // later a failure, and a refusal for good is the message's own.
    method RecordDelivery()
      modifies circuit
      ensures circuit.View() == C.Apply(circuit.health, old(circuit.View()), C.Succeeded)
    {
      circuit.RecordSuccess();
    }

    method RecordDeferral(instant: nat) returns (tripped: bool)
      modifies circuit
      ensures circuit.View() == C.Apply(circuit.health, old(circuit.View()), C.Failed(instant))
      ensures tripped <==> circuit.trips > old(circuit.trips)
    {
      tripped := circuit.RecordFailure(instant);
    }

    method RecordPermanentFailure()
      ensures circuit.View() == old(circuit.View())
    {
    }

    method BeginDelivery()
      modifies this`inFlight
      ensures inFlight == old(inFlight) + 1
    {
      inFlight := inFlight + 1;
    }

    // The guard gives its slot back.
    method EndDelivery()
      modifies this`inFlight
      ensures inFlight == if old(inFlight) == 0 then 0 else old(inFlight) - 1
    {
      if inFlight > 0 {
        inFlight := inFlight - 1;
      }
    }
  }

  // Over a relay's whole history: it is in rotation exactly when its switch was last put on,
  // its circuit is not open short of its deadline, a slot is free, one at least where none
  // is configured, and in no limited window the grants reach the limit and what was taken
  // back or dropped.
  lemma {:induction false} InRotationExactlyWhen(
    h: C.Health, enabled: bool, events: seq<C.Event>, l: Q.Limits, uses: seq<Q.Event>, inFlight: nat,
    maxConcurrent: nat, instant: nat, now: nat)
    ensures var b := C.Run(h, C.New(enabled), events);
      Eligible(b, l, Q.Run(l, Q.FRESH, uses), inFlight, maxConcurrent, instant, now)
      <==> (&& C.LastSwitch(enabled, events)
            && (b.state == C.Open ==> b.openUntil.Some? && instant >= b.openUntil.value)
            && (inFlight == 0 || inFlight < maxConcurrent)
            && forall w :: Q.LimitOf(l, w).Some? ==>
              Q.GrantsIn(l, uses, w, now / Q.Span(w)) - Q.Returned(l, uses, w, now / Q.Span(w))
              - Q.Dropped(l, uses, w, now / Q.Span(w)) < Q.LimitOf(l, w).value)
  {
    hide C.Run, Q.Run, Q.GrantsIn, Q.Returned, Q.Dropped, C.LastSwitch, Q.Grants, C.Consistent;
    C.SwitchAndHealth(h, enabled, events);
    DeadlineIsKept(h, enabled, events);
    var u := Q.Run(l, Q.FRESH, uses);
    forall w
      ensures Q.Standing(u, w, now / Q.Span(w))
        == Q.GrantsIn(l, uses, w, now / Q.Span(w)) - Q.Returned(l, uses, w, now / Q.Span(w))
           - Q.Dropped(l, uses, w, now / Q.Span(w))
    {
      Q.GrantsAreAccounted(l, uses, w, now / Q.Span(w));
    }
    GrantsExactlyWhen(l, u, now);
  }

  lemma {:induction false} DeadlineIsKept(h: C.Health, enabled: bool, events: seq<C.Event>)
    ensures var b := C.Run(h, C.New(enabled), events);
      b.state == C.Open ==> b.openUntil.Some?
  {
    C.EveryRunIsConsistent(h, enabled, events);
  }

  // A slot is granted exactly while each limited minute, hour and day has one left.
  lemma GrantsExactlyWhen(l: Q.Limits, u: Q.Usage, now: nat)
    ensures Q.Grants(l, u, Q.Reserved(now))
      <==> forall w :: Q.LimitOf(l, w).Some? ==> Q.Standing(u, w, now / Q.Span(w)) < Q.LimitOf(l, w).value
    ensures Q.Grants(l, u, Q.Reserved(now))
      <==> (&& (l.perMinute.Some? ==> Q.Standing(u, Q.Minute, now / 60) < l.perMinute.value)
            && (l.perHour.Some? ==> Q.Standing(u, Q.Hour, now / 3600) < l.perHour.value)
            && (l.perDay.Some? ==> Q.Standing(u, Q.Day, now / 86400) < l.perDay.value))
  {
    if Q.Grants(l, u, Q.Reserved(now)) {
      forall w | Q.LimitOf(l, w).Some?
        ensures Q.Standing(u, w, now / Q.Span(w)) < Q.LimitOf(l, w).value
      {
      }
    } else {
      assert Q.FullIn(l, Q.Rolled(u, now), Q.Minute) || Q.FullIn(l, Q.Rolled(u, now), Q.Hour)
        || Q.FullIn(l, Q.Rolled(u, now), Q.Day);
    }
  }

  // A relay whose breaker tripped is in rotation at no instant before its deadline,
  // whatever its quotas and slots, unless the log since shows what freed it.
  lemma BarredIsOut(
    h: C.Health, b: C.Breaker, deadline: nat, events: seq<C.Event>, l: Q.Limits, u: Q.Usage, inFlight: nat,
    maxConcurrent: nat, instant: nat, now: nat)
    requires C.Barred(b, deadline) && b.successes == 0
    requires !C.Freed(h, b.manuallyDisabled, deadline, events) && instant < deadline
    ensures !Eligible(C.Run(h, b, events), l, u, inFlight, maxConcurrent, instant, now)
  {
    C.OutUntilFreed(h, b, deadline, events);
  }

  // A relay found in rotation gets the reservation it asks for at once.
  lemma {:induction false} EligibleReserves(
    b: C.Breaker, l: Q.Limits, u: Q.Usage, inFlight: nat, maxConcurrent: nat, instant: nat, now: nat, w: Q.Window)
    requires Eligible(b, l, u, inFlight, maxConcurrent, instant, now)
    ensures var asked := Q.Apply(l, Q.Apply(l, u, Q.Looked(now)), Q.Reserved(now));
      asked.total == u.total + 1 && Q.KeyOf(asked, w) == now / Q.Span(w) && Q.Within(l, asked, w)
      && Q.CountOf(asked, w) == Q.CountOf(Q.Rolled(u, now), w) + 1
  {
  }
}
