// The minute, hour and day quotas of one relay (src/relay/pool.rs).
module Quotas {
  import opened Wrappers

  datatype Window = Minute | Hour | Day

  datatype Limits = Limits(perMinute: Option<nat>, perHour: Option<nat>, perDay: Option<nat>)

  datatype Usage = Usage(
    minuteKey: nat, minuteCount: nat, hourKey: nat, hourCount: nat, dayKey: nat, dayCount: nat, total: nat)

  // What happens to one relay's usage. Looked stands for every reading of it, and
  // Reloaded for the copy a configuration reload makes of it.
  datatype Event =
    | Reserved(now: nat)
    | Released
    | Looked(now: nat)
    | Reloaded

  const FRESH: Usage := Usage(0, 0, 0, 0, 0, 0, 0)

  function Span(w: Window): (r: nat)
    ensures r > 0
  {
    match w
    case Minute => 60
    case Hour => 3600
    case Day => 86400
  }

  function KeyOf(u: Usage, w: Window): nat {
    match w
    case Minute => u.minuteKey
    case Hour => u.hourKey
    case Day => u.dayKey
  }

  function CountOf(u: Usage, w: Window): nat {
    match w
    case Minute => u.minuteCount
    case Hour => u.hourCount
    case Day => u.dayCount
  }

  function LimitOf(l: Limits, w: Window): Option<nat> {
    match w
    case Minute => l.perMinute
    case Hour => l.perHour
    case Day => l.perDay
  }

  function Rolled(u: Usage, now: nat): Usage {
    Usage(
      now / 60, if u.minuteKey == now / 60 then u.minuteCount else 0,
      now / 3600, if u.hourKey == now / 3600 then u.hourCount else 0,
      now / 86400, if u.dayKey == now / 86400 then u.dayCount else 0,
      u.total)
  }

  predicate FullIn(l: Limits, u: Usage, w: Window) {
    LimitOf(l, w).Some? && CountOf(u, w) >= LimitOf(l, w).value
  }

  predicate Full(l: Limits, u: Usage) {
    FullIn(l, u, Minute) || FullIn(l, u, Hour) || FullIn(l, u, Day)
  }

  function Less(n: nat): nat {
    if n == 0 then 0 else n - 1
  }

  function OneMore(u: Usage): Usage {
    u.(minuteCount := u.minuteCount + 1, hourCount := u.hourCount + 1, dayCount := u.dayCount + 1, total := u.total + 1)
  }

  function OneLess(u: Usage): Usage {
    u.(minuteCount := Less(u.minuteCount), hourCount := Less(u.hourCount), dayCount := Less(u.dayCount),
      total := Less(u.total))
  }

  predicate Grants(l: Limits, u: Usage, e: Event) {
    e.Reserved? && !Full(l, Rolled(u, e.now))
  }

  function Apply(l: Limits, u: Usage, e: Event): Usage {
    match e
    case Reserved(now) => if Grants(l, u, e) then OneMore(Rolled(u, now)) else Rolled(u, now)
    case Released => OneLess(u)
    case Looked(now) => Rolled(u, now)
    case Reloaded => u.(minuteKey := 0, minuteCount := 0)
  }

  ghost function Run(l: Limits, u: Usage, events: seq<Event>): Usage {
    if events == [] then u else Apply(l, Run(l, u, events[..|events| - 1]), events[|events| - 1])
  }

  // -- the usage as the program keeps it ----------------------------------------------

  class Meter {
    const limits: Limits
    var minuteKey: nat
    var minuteCount: nat
    var hourKey: nat
    var hourCount: nat
    var dayKey: nat
    var dayCount: nat
    var total: nat

    ghost function View(): Usage
      reads this
    {
      Usage(minuteKey, minuteCount, hourKey, hourCount, dayKey, dayCount, total)
    }

    constructor (limits: Limits)
      ensures this.limits == limits && View() == FRESH
    {
      this.limits := limits;
      minuteKey, minuteCount, hourKey, hourCount, dayKey, dayCount, total := 0, 0, 0, 0, 0, 0, 0;
    }

    // A relay of the next pool generation takes over hours, days and the total.
    constructor CarryOver(previous: Meter, limits: Limits)
      ensures this.limits == limits && View() == Apply(limits, previous.View(), Reloaded)
    {
      this.limits := limits;
      minuteKey, minuteCount := 0, 0;
      hourKey, hourCount := previous.hourKey, previous.hourCount;
      dayKey, dayCount := previous.dayKey, previous.dayCount;
      total := previous.total;
    }

    method Roll(now: nat)
      modifies this
      ensures View() == Rolled(old(View()), now)
    {
      var minute, hour, day := now / 60, now / 3600, now / 86400;
      if minuteKey != minute {
        minuteKey, minuteCount := minute, 0;
      }
      if hourKey != hour {
        hourKey, hourCount := hour, 0;
      }
      if dayKey != day {
        dayKey, dayCount := day, 0;
      }
    }

    // Reserves one send slot; every delivery reserves before it sends.
    method TryReserve(now: nat) returns (granted: bool)
      modifies this
      ensures View() == Apply(limits, old(View()), Reserved(now))
      ensures granted == Grants(limits, old(View()), Reserved(now))
    {
      Roll(now);
      if limits.perMinute.Some? && minuteCount >= limits.perMinute.value {
        return false;
      }
      if limits.perHour.Some? && hourCount >= limits.perHour.value {
        return false;
      }
      if limits.perDay.Some? && dayCount >= limits.perDay.value {
        return false;
      }
      minuteCount, hourCount, dayCount, total := minuteCount + 1, hourCount + 1, dayCount + 1, total + 1;
      granted := true;
    }

    // Gives a reservation back after a failed attempt.
    method Release()
      modifies this
      ensures View() == Apply(limits, old(View()), Released)
    {
      minuteCount := if minuteCount == 0 then 0 else minuteCount - 1;
      hourCount := if hourCount == 0 then 0 else hourCount - 1;
      dayCount := if dayCount == 0 then 0 else dayCount - 1;
      total := if total == 0 then 0 else total - 1;
    }

    // Says so exactly when a reservation at the same instant would be refused.
    method QuotaExhausted(now: nat) returns (full: bool)
      modifies this
      ensures View() == Apply(limits, old(View()), Looked(now))
      ensures full == !Grants(limits, old(View()), Reserved(now)) == !Grants(limits, View(), Reserved(now))
    {
      ghost var before := View();
      Roll(now);
      full := (limits.perMinute.Some? && minuteCount >= limits.perMinute.value)
      || (limits.perHour.Some? && hourCount >= limits.perHour.value)
      || (limits.perDay.Some? && dayCount >= limits.perDay.value);
      assert Rolled(View(), now) == View();
    }

    method HourCount(now: nat) returns (count: nat)
      modifies this
      ensures View() == Apply(limits, old(View()), Looked(now))
      ensures count == if old(hourKey) == now / 3600 then old(hourCount) else 0
    {
      Roll(now);
      count := hourCount;
    }
  }

  // -- nested windows, for any clock ------------------------------------------------------

  // A minute that counts anything lies in the counted hour, and that hour in the
  // counted day; so the counts are nested.
  ghost predicate Nested(u: Usage) {
    && u.minuteCount <= u.hourCount <= u.dayCount <= u.total
    && (u.minuteCount == 0 || u.minuteKey / 60 == u.hourKey)
    && (u.hourCount == 0 || u.hourKey / 24 == u.dayKey)
  }

  lemma WindowsNest(now: nat)
    ensures (now / 60) / 60 == now / 3600 && (now / 3600) / 24 == now / 86400
  {
  }

  lemma RollNests(u: Usage, now: nat)
    requires Nested(u)
    ensures Nested(Rolled(u, now)) && Nested(OneMore(Rolled(u, now)))
  {
    WindowsNest(now);
  }

  // Whatever the clock does, the minute never counts more than the hour, the hour
  // than the day, the day than the total.
  lemma {:induction false} CountsAreNested(l: Limits, events: seq<Event>)
    ensures Nested(Run(l, FRESH, events))
  {
    hide Rolled, Full;
    if events != [] {
      var n := |events| - 1;
      CountsAreNested(l, events[..n]);
      var u := Run(l, FRESH, events[..n]);
      match events[n]
      case Reserved(now) => RollNests(u, now);
      case Released =>
      case Looked(now) => RollNests(u, now);
      case Reloaded =>
    }
  }

  // -- limits --------------------------------------------------------------------------------

  ghost predicate Within(l: Limits, u: Usage, w: Window) {
    LimitOf(l, w).Some? ==> CountOf(u, w) <= LimitOf(l, w).value
  }

  // No count ever passes its limit.
  lemma {:induction false} CountsStayWithin(l: Limits, events: seq<Event>, w: Window)
    ensures Within(l, Run(l, FRESH, events), w)
    ensures var u := Run(l, FRESH, events);
      && (w == Minute && l.perMinute.Some? ==> u.minuteCount <= l.perMinute.value)
      && (w == Hour && l.perHour.Some? ==> u.hourCount <= l.perHour.value)
      && (w == Day && l.perDay.Some? ==> u.dayCount <= l.perDay.value)
  {
    if events != [] {
      CountsStayWithin(l, events[..|events| - 1], w);
    }
  }

  // -- one window, for any clock -------------------------------------------------------------

  predicate Timed(e: Event) {
    e.Reserved? || e.Looked?
  }

  // Reservations granted in window number k.
  ghost function GrantsIn(l: Limits, events: seq<Event>, w: Window, k: nat): nat {
    if events == [] then 0
    else
      var n := |events| - 1;
      GrantsIn(l, events[..n], w, k)
      + if Grants(l, Run(l, FRESH, events[..n]), events[n]) && events[n].now / Span(w) == k then 1 else 0
  }

  // What the usage counts for window number k.
  function Standing(u: Usage, w: Window, k: nat): nat {
    if KeyOf(u, w) == k then CountOf(u, w) else 0
  }

  // Slots of the window that releases took back: one for each that found any.
  ghost function Returned(l: Limits, events: seq<Event>, w: Window, k: nat): nat {
    if events == [] then 0
    else
      var n := |events| - 1;
      Returned(l, events[..n], w, k)
      + if events[n].Released? && Standing(Run(l, FRESH, events[..n]), w, k) > 0 then 1 else 0
  }

  // The window is given up: the clock is read in another one, or a reload forgets the
  // minute.
  predicate Leaves(e: Event, w: Window, k: nat) {
    (Timed(e) && e.now / Span(w) != k) || (e.Reloaded? && w == Minute)
  }

  // Slots that were counted when it was.
  ghost function Dropped(l: Limits, events: seq<Event>, w: Window, k: nat): nat {
    if events == [] then 0
    else
      var n := |events| - 1;
      Dropped(l, events[..n], w, k)
      + if Leaves(events[n], w, k) then Standing(Run(l, FRESH, events[..n]), w, k) else 0
  }

  lemma StandingStep(l: Limits, u: Usage, e: Event, w: Window, k: nat)
    ensures Standing(Apply(l, u, e), w, k)
      == if Grants(l, u, e) && e.now / Span(w) == k then Standing(u, w, k) + 1
         else if Leaves(e, w, k) then 0
         else if e.Released? then Less(Standing(u, w, k))
         else Standing(u, w, k)
  {
    hide Full;
    match w
    case Minute =>
    case Hour =>
    case Day =>
  }

  // Whatever the clock does: every reservation granted in a window is still counted there,
  // was taken back by a release, or went when the window was given up.
  lemma {:induction false} GrantsAreAccounted(l: Limits, events: seq<Event>, w: Window, k: nat)
    ensures GrantsIn(l, events, w, k)
      == Standing(Run(l, FRESH, events), w, k) + Returned(l, events, w, k) + Dropped(l, events, w, k)
  {
    hide Apply, Standing, Grants;
    if events == [] {
      NothingStands(w, k);
    } else {
      var n := |events| - 1;
      GrantsAreAccounted(l, events[..n], w, k);
      GrantIsTimed(l, Run(l, FRESH, events[..n]), events[n]);
      StandingStep(l, Run(l, FRESH, events[..n]), events[n], w, k);
    }
  }

  lemma NothingStands(w: Window, k: nat)
    ensures Standing(FRESH, w, k) == 0
  {
  }

  lemma GrantIsTimed(l: Limits, u: Usage, e: Event)
    ensures Grants(l, u, e) ==> e.Reserved?
  {
  }

  // -- a clock that goes forward -----------------------------------------------------------------

  // The window last read, 0 before the first.
  ghost function WindowRead(events: seq<Event>, w: Window): nat {
    if events == [] then 0
    else if Timed(events[|events| - 1]) then events[|events| - 1].now / Span(w)
    else WindowRead(events[..|events| - 1], w)
  }

  // No window is read after a later one; inside a window the clock may do as it likes.
  ghost predicate Forward(events: seq<Event>, w: Window) {
    events != [] ==>
      && Forward(events[..|events| - 1], w)
      && (Timed(events[|events| - 1]) ==> WindowRead(events[..|events| - 1], w) <= events[|events| - 1].now / Span(w))
  }

  ghost predicate NoReload(events: seq<Event>) {
    forall i :: 0 <= i < |events| ==> !events[i].Reloaded?
  }

  ghost predicate Tidy(l: Limits, events: seq<Event>, w: Window, k: nat) {
    var now := WindowRead(events, w);
    var grants := GrantsIn(l, events, w, k);
    && (now < k ==> grants == 0)
    && (now <= k ==> Dropped(l, events, w, k) == 0)
    && (LimitOf(l, w).Some? ==> grants <= LimitOf(l, w).value + Returned(l, events, w, k))
  }

  lemma {:induction false} ForwardIsTidy(l: Limits, events: seq<Event>, w: Window, k: nat)
    requires Forward(events, w) && (w == Minute ==> NoReload(events))
    ensures Tidy(l, events, w, k)
  {
    if events != [] {
      hide Apply, Standing, Grants;
      var n := |events| - 1;
      var u := Run(l, FRESH, events[..n]);
      ForwardIsTidy(l, events[..n], w, k);
      GrantsAreAccounted(l, events[..n], w, k);
      GrantsAreAccounted(l, events, w, k);
      GrantIsTimed(l, u, events[n]);
      StandsWithin(l, events, w, k);
    }
  }

  lemma StandsWithin(l: Limits, events: seq<Event>, w: Window, k: nat)
    ensures LimitOf(l, w).Some? ==> Standing(Run(l, FRESH, events), w, k) <= LimitOf(l, w).value
  {
    hide Run;
    CountsStayWithin(l, events, w);
  }

  // With a clock that never goes back to an earlier window, the reservations granted in any
  // one minute, hour or day exceed its limit at most by the slots that releases took back.
  lemma GrantsInOneWindow(l: Limits, events: seq<Event>, w: Window, k: nat)
    requires Forward(events, w) && LimitOf(l, w).Some? && (w == Minute ==> NoReload(events))
    ensures GrantsIn(l, events, w, k) <= LimitOf(l, w).value + Returned(l, events, w, k)
  {
    ForwardIsTidy(l, events, w, k);
  }

  // -- when a limit can be passed -----------------------------------------------------------------

  // So many reservations asked for at once.
  function Asked(n: nat, now: nat): (r: seq<Event>)
    ensures |r| == n
  {
    if n == 0 then [] else Asked(n - 1, now) + [Reserved(now)]
  }

  lemma {:induction false} AskedOnce(l: Limits, events: seq<Event>, n: nat, now: nat, w: Window, k: nat)
    requires now / Span(w) == k
    ensures var before, after := events + Asked(n, now), events + Asked(n + 1, now);
      && Run(l, FRESH, after) == Apply(l, Run(l, FRESH, before), Reserved(now))
      && GrantsIn(l, after, w, k)
        == GrantsIn(l, before, w, k) + if Grants(l, Run(l, FRESH, before), Reserved(now)) then 1 else 0
  {
    hide Apply, Standing, Grants;
    var before, after := events + Asked(n, now), events + Asked(n + 1, now);
    assert after[..|after| - 1] == before && after[|after| - 1] == Reserved(now);
  }

  // What is granted at one moment counts in every window of that moment.
  lemma {:induction false} AskedCounts(l: Limits, events: seq<Event>, n: nat, now: nat, w: Window, v: Window)
    ensures var after := events + Asked(n, now);
      Standing(Run(l, FRESH, after), v, now / Span(v)) - Standing(Run(l, FRESH, events), v, now / Span(v))
      == GrantsIn(l, after, w, now / Span(w)) - GrantsIn(l, events, w, now / Span(w))
  {
    hide Run, Standing, GrantsIn, Apply, Grants;
    if n == 0 {
      assert events + [] == events;
    } else {
      AskedCounts(l, events, n - 1, now, w, v);
      AskedOnce(l, events, n - 1, now, w, now / Span(w));
      StandingStep(l, Run(l, FRESH, events + Asked(n - 1, now)), Reserved(now), v, now / Span(v));
    }
  }

  // The limit leaves n reservations more at this moment.
  ghost predicate RoomFor(l: Limits, u: Usage, now: nat, v: Window, n: int) {
    LimitOf(l, v).Some? ==> Standing(u, v, now / Span(v)) + n <= LimitOf(l, v).value
  }

  lemma RoomIsGranted(l: Limits, u: Usage, now: nat)
    requires forall v :: RoomFor(l, u, now, v, 1)
    ensures Grants(l, u, Reserved(now))
  {
    assert RoomFor(l, u, now, Minute, 1) && RoomFor(l, u, now, Hour, 1) && RoomFor(l, u, now, Day, 1);
  }

  lemma {:induction false} AskedIsGranted(l: Limits, events: seq<Event>, n: nat, now: nat, w: Window)
    requires forall v :: RoomFor(l, Run(l, FRESH, events), now, v, n)
    ensures GrantsIn(l, events + Asked(n, now), w, now / Span(w)) == GrantsIn(l, events, w, now / Span(w)) + n
  {
    hide Run, Standing, GrantsIn, Apply, Grants;
    if n == 0 {
      assert events + [] == events;
    } else {
      var m := n - 1;
      forall v
        ensures RoomFor(l, Run(l, FRESH, events), now, v, m)
      {
        assert RoomFor(l, Run(l, FRESH, events), now, v, n);
      }
      AskedIsGranted(l, events, m, now, w);
      var u := Run(l, FRESH, events + Asked(n - 1, now));
      forall v
        ensures RoomFor(l, u, now, v, 1)
      {
        AskedCounts(l, events, n - 1, now, w, v);
        assert RoomFor(l, Run(l, FRESH, events), now, v, n);
      }
      RoomIsGranted(l, u, now);
      AskedOnce(l, events, n - 1, now, w, now / Span(w));
    }
  }

  ghost predicate PassesTheLimit(l: Limits, events: seq<Event>, w: Window, k: nat) {
    LimitOf(l, w).Some? && GrantsIn(l, events, w, k) > LimitOf(l, w).value
  }

  // The grants the window lacks for one more than its limit.
  ghost function Lacking(l: Limits, events: seq<Event>, w: Window, k: nat): int
    requires LimitOf(l, w).Some?
  {
    LimitOf(l, w).value + 1 - GrantsIn(l, events, w, k)
  }

  // The limits of the other windows leave that many.
  ghost predicate OthersLeaveRoom(l: Limits, u: Usage, now: nat, w: Window, lacking: int) {
    forall v :: v != w ==> RoomFor(l, u, now, v, lacking)
  }

  // Asking for n more at this moment leaves every limit what it left before, less what was
  // granted: so much, and no more, can be granted.
  lemma {:induction false} NoMoreThanRoom(l: Limits, events: seq<Event>, n: nat, now: nat, w: Window, v: Window)
    requires PassesTheLimit(l, events + Asked(n, now), w, now / Span(w))
    ensures RoomFor(l, Run(l, FRESH, events), now, v, Lacking(l, events, w, now / Span(w)))
  {
    hide Run, Standing, GrantsIn;
    AskedCounts(l, events, n, now, w, v);
    StandsWithin(l, events + Asked(n, now), v, now / Span(v));
  }

  lemma {:induction false} RoomIsPassed(l: Limits, events: seq<Event>, now: nat, w: Window)
    requires LimitOf(l, w).Some?
    requires forall v :: RoomFor(l, Run(l, FRESH, events), now, v, Lacking(l, events, w, now / Span(w)))
    ensures exists n :: PassesTheLimit(l, events + Asked(n, now), w, now / Span(w))
  {
    hide Run, Standing, GrantsIn;
    var lacking := Lacking(l, events, w, now / Span(w));
    var n := if lacking < 0 then 0 else lacking;
    forall v
      ensures RoomFor(l, Run(l, FRESH, events), now, v, n)
    {
      StandsWithin(l, events, v, now / Span(v));
      assert RoomFor(l, Run(l, FRESH, events), now, v, lacking);
    }
    AskedIsGranted(l, events, n, now, w);
    assert PassesTheLimit(l, events + Asked(n, now), w, now / Span(w));
  }

  // At any moment a window can still see more grants than its limit if and only if a slot
  // of it was taken back by a release or dropped with the window before, and the other
  // limits leave room.
  lemma {:induction false} LimitCanBePassedExactlyWhen(l: Limits, events: seq<Event>, now: nat, w: Window)
    requires LimitOf(l, w).Some?
    ensures (exists n :: PassesTheLimit(l, events + Asked(n, now), w, now / Span(w)))
      <==> (Returned(l, events, w, now / Span(w)) + Dropped(l, events, w, now / Span(w)) > 0
            && OthersLeaveRoom(l, Run(l, FRESH, events), now, w, Lacking(l, events, w, now / Span(w))))
  {
    hide Run, Standing, Returned, Dropped, GrantsIn, PassesTheLimit;
    var u, lacking := Run(l, FRESH, events), Lacking(l, events, w, now / Span(w));
    GrantsAreAccounted(l, events, w, now / Span(w));
    assert RoomFor(l, u, now, w, lacking)
      <==> Returned(l, events, w, now / Span(w)) + Dropped(l, events, w, now / Span(w)) > 0;
    if RoomFor(l, u, now, w, lacking) && OthersLeaveRoom(l, u, now, w, lacking) {
      RoomIsPassed(l, events, now, w);
    }
    forall n: nat, v | PassesTheLimit(l, events + Asked(n, now), w, now / Span(w))
      ensures RoomFor(l, u, now, v, lacking)
    {
      NoMoreThanRoom(l, events, n, now, w, v);
    }
  }

  // With a forward clock and no reload, if and only if a release took a slot of it back and
  // the other limits leave room.
  lemma {:induction false} ForwardLimitCanBePassedExactlyWhen(l: Limits, events: seq<Event>, now: nat, w: Window)
    requires LimitOf(l, w).Some? && Forward(events, w) && (w == Minute ==> NoReload(events))
    requires WindowRead(events, w) <= now / Span(w)
    ensures (exists n :: PassesTheLimit(l, events + Asked(n, now), w, now / Span(w)))
      <==> (Returned(l, events, w, now / Span(w)) > 0
            && OthersLeaveRoom(l, Run(l, FRESH, events), now, w, Lacking(l, events, w, now / Span(w))))
  {
    hide Returned, Dropped, PassesTheLimit, OthersLeaveRoom;
    ForwardIsTidy(l, events, w, now / Span(w));
    LimitCanBePassedExactlyWhen(l, events, now, w);
  }

  lemma {:induction false} OneMoreEvent(l: Limits, events: seq<Event>, e: Event, k: nat)
    ensures Run(l, FRESH, events + [e]) == Apply(l, Run(l, FRESH, events), e)
    ensures GrantsIn(l, events + [e], Minute, k)
      == GrantsIn(l, events, Minute, k) + if Grants(l, Run(l, FRESH, events), e) && e.now / 60 == k then 1 else 0
    ensures WindowRead(events + [e], Minute) == if Timed(e) then e.now / 60 else WindowRead(events, Minute)
    ensures Forward(events + [e], Minute)
      == (Forward(events, Minute) && (Timed(e) ==> WindowRead(events, Minute) <= e.now / 60))
  {
    assert (events + [e])[..|events|] == events;
  }

  // Each way around the limit in one example. A release belongs to the window it falls in,
  // not the one it was reserved in: with one send a minute, a delivery that fails across
  // the minute lets two through in the next.
  lemma {:induction false} ReleaseCrossesTheMinute(l: Limits)
    requires l == Limits(Some(1), None, None)
    ensures var events := [] + [Reserved(59)] + [Reserved(60)] + [Released] + [Reserved(61)];
      Forward(events, Minute) && GrantsIn(l, events, Minute, 1) == 2
  {
    hide Run, GrantsIn, WindowRead, Forward;
    Beginning(l, 1);
    OneMoreEvent(l, [], Reserved(59), 1);
    OneMoreEvent(l, [] + [Reserved(59)], Reserved(60), 1);
    OneMoreEvent(l, [] + [Reserved(59)] + [Reserved(60)], Released, 1);
    OneMoreEvent(l, [] + [Reserved(59)] + [Reserved(60)] + [Released], Reserved(61), 1);
  }

  // A reload starts the minute afresh.
  lemma {:induction false} ReloadForgetsTheMinute(l: Limits)
    requires l == Limits(Some(1), None, None)
    ensures var events := [] + [Reserved(0)] + [Reloaded] + [Reserved(1)];
      Forward(events, Minute) && GrantsIn(l, events, Minute, 0) == 2
  {
    hide Run, GrantsIn, WindowRead, Forward;
    Beginning(l, 0);
    OneMoreEvent(l, [], Reserved(0), 0);
    OneMoreEvent(l, [] + [Reserved(0)], Reloaded, 0);
    OneMoreEvent(l, [] + [Reserved(0)] + [Reloaded], Reserved(1), 0);
  }

  // And so does a clock that goes back to an earlier window and comes again.
  lemma {:induction false} BackwardClockForgets(l: Limits)
    requires l == Limits(Some(1), None, None)
    ensures var events := [] + [Reserved(60)] + [Looked(0)] + [Reserved(60)];
      NoReload(events) && GrantsIn(l, events, Minute, 1) == 2
  {
    hide Run, GrantsIn, WindowRead, Forward;
    Beginning(l, 1);
    OneMoreEvent(l, [], Reserved(60), 1);
    OneMoreEvent(l, [] + [Reserved(60)], Looked(0), 1);
    OneMoreEvent(l, [] + [Reserved(60)] + [Looked(0)], Reserved(60), 1);
  }

  lemma Beginning(l: Limits, k: nat)
    ensures Run(l, FRESH, []) == FRESH && GrantsIn(l, [], Minute, k) == 0
    ensures WindowRead([], Minute) == 0 && Forward([], Minute)
  {
  }

  // -- reservations are conserved --------------------------------------------------------------

  // Deliveries in any interleaving: each reserves once, and at its end keeps the
  // reservation when it delivered and gives it back otherwise.
  datatype Move =
    | Begin(delivery: nat, now: nat)
    | End(delivery: nat, delivered: bool)
    | Read(now: nat)

  // The usage, and of every reservation the time it was granted: those under way, those of
  // messages delivered, and those given back.
  datatype Books = Books(usage: Usage, holding: map<nat, nat>, kept: seq<nat>, back: seq<nat>)

  ghost predicate Allowed(b: Books, m: Move) {
    match m
    case Begin(delivery, _) => delivery !in b.holding
    case End(delivery, _) => delivery in b.holding
    case Read(_) => true
  }

  ghost function Moved(l: Limits, b: Books, m: Move): Books
    requires Allowed(b, m)
  {
    match m
    case Begin(delivery, now) =>
      var e := Reserved(now);
      b.(usage := Apply(l, b.usage, e),
        holding := if Grants(l, b.usage, e) then b.holding[delivery := now] else b.holding)
    case End(delivery, delivered) =>
      var since, rest := b.holding[delivery], b.holding - {delivery};
      if delivered then b.(holding := rest, kept := b.kept + [since])
      else b.(usage := Apply(l, b.usage, Released), holding := rest, back := b.back + [since])
    case Read(now) => b.(usage := Apply(l, b.usage, Looked(now)))
  }

  ghost predicate IsLedger(l: Limits, books: seq<Books>, moves: seq<Move>) {
    && |books| == |moves| + 1
    && books[0] == Books(FRESH, map[], [], [])
    && forall i :: 0 <= i < |moves| ==> Allowed(books[i], moves[i]) && books[i + 1] == Moved(l, books[i], moves[i])
  }

  lemma Resized(m: map<nat, nat>, d: nat, v: nat)
    ensures d !in m ==> |m[d := v]| == |m| + 1
    ensures d in m ==> |m - {d}| == |m| - 1
  {
    assert m[d := v].Keys == m.Keys + {d};
    assert (m - {d}).Keys == m.Keys - {d};
    if d in m {
      assert m.Keys == (m - {d}).Keys + {d};
    }
  }

  // At every moment the total is what was delivered plus what is still under way: a
  // failed attempt costs nothing and no reservation is given back twice.
  lemma {:induction false} TotalIsKeptAndHeld(l: Limits, books: seq<Books>, moves: seq<Move>, t: nat)
    requires IsLedger(l, books, moves) && t <= |moves|
    ensures books[t].usage.total == |books[t].kept| + |books[t].holding|
  {
    hide Full;
    if t > 0 {
      TotalIsKeptAndHeld(l, books, moves, t - 1);
      var b, m := books[t - 1], moves[t - 1];
      assert Allowed(b, m) && books[t - 1 + 1] == Moved(l, b, m);
      if !m.Read? {
        Resized(b.holding, m.delivery, if m.Begin? then m.now else 0);
      }
    }
  }

  // Times that fall in window number k.
  ghost function TimesIn(times: seq<nat>, w: Window, k: nat): nat {
    if times == [] then 0
    else
      var n := |times| - 1;
      TimesIn(times[..n], w, k) + if times[n] / Span(w) == k then 1 else 0
  }

  ghost function HeldOf(holding: map<nat, nat>, w: Window, k: nat): set<nat> {
    set d | d in holding && holding[d] / Span(w) == k
  }

  ghost function HeldIn(holding: map<nat, nat>, w: Window, k: nat): nat {
    |HeldOf(holding, w, k)|
  }

  // Slots of the window taken back, and slots given up with it, in the first t moves.
  ghost function ReturnedBy(l: Limits, books: seq<Books>, moves: seq<Move>, t: nat, w: Window, k: nat): nat
    requires IsLedger(l, books, moves) && t <= |moves|
  {
    if t == 0 then 0
    else
      ReturnedBy(l, books, moves, t - 1, w, k)
      + if Fails(moves[t - 1]) && Standing(books[t - 1].usage, w, k) > 0 then 1 else 0
  }

  ghost function DroppedBy(l: Limits, books: seq<Books>, moves: seq<Move>, t: nat, w: Window, k: nat): nat
    requires IsLedger(l, books, moves) && t <= |moves|
  {
    if t == 0 then 0
    else
      DroppedBy(l, books, moves, t - 1, w, k)
      + if Turns(moves[t - 1], w, k) then Standing(books[t - 1].usage, w, k) else 0
  }

  predicate Fails(m: Move) {
    m.End? && !m.delivered
  }

  // The clock is read in another window.
  predicate Turns(m: Move, w: Window, k: nat) {
    !m.End? && m.now / Span(w) != k
  }

  lemma HeldMore(holding: map<nat, nat>, d: nat, now: nat, w: Window, k: nat)
    requires d !in holding
    ensures HeldIn(holding[d := now], w, k) == HeldIn(holding, w, k) + if now / Span(w) == k then 1 else 0
  {
    hide Span;
    var held := HeldOf(holding, w, k);
    assert HeldOf(holding[d := now], w, k) == if now / Span(w) == k then held + {d} else held;
  }

  lemma HeldLess(holding: map<nat, nat>, d: nat, w: Window, k: nat)
    requires d in holding
    ensures HeldIn(holding - {d}, w, k) == HeldIn(holding, w, k) - if holding[d] / Span(w) == k then 1 else 0
  {
    hide Span;
    var held := HeldOf(holding, w, k);
    assert HeldOf(holding - {d}, w, k) == held - {d};
    assert d in held <==> holding[d] / Span(w) == k;
  }

  lemma TimesAppend(times: seq<nat>, now: nat, w: Window, k: nat)
    ensures TimesIn(times + [now], w, k) == TimesIn(times, w, k) + if now / Span(w) == k then 1 else 0
  {
    assert (times + [now])[..|times|] == times;
  }

  ghost function Owned(b: Books, w: Window, k: nat): nat {
    TimesIn(b.kept, w, k) + HeldIn(b.holding, w, k)
  }

  // What one move does to a window: to its count, and to the reservations granted in it.
  lemma {:induction false} MoveInWindow(l: Limits, b: Books, m: Move, w: Window, k: nat)
    requires Allowed(b, m)
    ensures var r := Moved(l, b, m);
      var standing := Standing(b.usage, w, k);
      var granted := m.Begin? && Grants(l, b.usage, Reserved(m.now)) && m.now / Span(w) == k;
      var failed := Fails(m) && b.holding[m.delivery] / Span(w) == k;
      && Standing(r.usage, w, k)
        == (if granted then standing + 1
            else if Turns(m, w, k) then 0
            else if Fails(m) then Less(standing)
            else standing)
      && Owned(r, w, k) == Owned(b, w, k) + (if granted then 1 else 0) - (if failed then 1 else 0)
      && TimesIn(r.back, w, k) == TimesIn(b.back, w, k) + (if failed then 1 else 0)
  {
    hide Apply, Standing, Grants, HeldIn, TimesIn;
    match m
    case Begin(delivery, now) =>
      StandingStep(l, b.usage, Reserved(now), w, k);
      HeldMore(b.holding, delivery, now, w, k);
    case End(delivery, delivered) =>
      GrantIsTimed(l, b.usage, Released);
      StandingStep(l, b.usage, Released, w, k);
      HeldLess(b.holding, delivery, w, k);
      TimesAppend(b.kept, b.holding[delivery], w, k);
      TimesAppend(b.back, b.holding[delivery], w, k);
    case Read(now) =>
      GrantIsTimed(l, b.usage, Looked(now));
      StandingStep(l, b.usage, Looked(now), w, k);
  }

  lemma NothingOwned(w: Window, k: nat)
    ensures Owned(Books(FRESH, map[], [], []), w, k) == 0 && TimesIn([], w, k) == 0
  {
    assert HeldOf(map[], w, k) == {};
  }

  // Whatever windows a ledger crosses: what a window counts, with what was taken back from it
  // and what went with it, is what was granted in it, delivered, under way or given back. So
  // the count falls short of delivered and under way exactly by the slots taken back or
  // dropped beyond those of its own deliveries that failed.
  lemma {:induction false} WindowIsBalanced(l: Limits, books: seq<Books>, moves: seq<Move>, t: nat, w: Window, k: nat)
    requires IsLedger(l, books, moves) && t <= |moves|
    ensures Standing(books[t].usage, w, k) + ReturnedBy(l, books, moves, t, w, k) + DroppedBy(l, books, moves, t, w, k)
      == Owned(books[t], w, k) + TimesIn(books[t].back, w, k)
  {
    hide Allowed, Moved, Standing, Owned, TimesIn, Grants;
    if t == 0 {
      NothingStands(w, k);
      NothingOwned(w, k);
    } else {
      WindowIsBalanced(l, books, moves, t - 1, w, k);
      assert Allowed(books[t - 1], moves[t - 1]) && books[t - 1 + 1] == Moved(l, books[t - 1], moves[t - 1]);
      MoveInWindow(l, books[t - 1], moves[t - 1], w, k);
    }
  }

  // Every failed delivery ends in the window it was granted in, as far as this window is
  // concerned, and the clock does not leave the window while it counts anything.
  ghost predicate Settled(l: Limits, books: seq<Books>, moves: seq<Move>, t: nat, w: Window, k: nat)
    requires IsLedger(l, books, moves) && t <= |moves|
  {
    forall i :: 0 <= i < t ==>
      && Allowed(books[i], moves[i])
      && (Fails(moves[i]) ==> (books[i].holding[moves[i].delivery] / Span(w) == k <==> KeyOf(books[i].usage, w) == k))
      && (Turns(moves[i], w, k) ==> Standing(books[i].usage, w, k) == 0)
  }

  // Then the window counts exactly what was granted in it and is delivered or under way,
  // whatever happened in the windows before.
  lemma {:induction false} WindowIsKeptAndHeld(l: Limits, books: seq<Books>, moves: seq<Move>, t: nat, w: Window,
          k: nat)
    requires IsLedger(l, books, moves) && t <= |moves| && Settled(l, books, moves, t, w, k)
    ensures Standing(books[t].usage, w, k) == TimesIn(books[t].kept, w, k) + HeldIn(books[t].holding, w, k)
  {
    hide Moved, TimesIn, HeldIn, Grants;
    if t == 0 {
      NothingStands(w, k);
      NothingOwned(w, k);
    } else {
      WindowIsKeptAndHeld(l, books, moves, t - 1, w, k);
      var b, m := books[t - 1], moves[t - 1];
      assert Allowed(b, m) && books[t - 1 + 1] == Moved(l, b, m);
      MoveInWindow(l, b, m, w, k);
      if Fails(m) {
        HeldIsThere(b.holding, m.delivery, w, k);
      }
    }
  }

  lemma HeldIsThere(holding: map<nat, nat>, d: nat, w: Window, k: nat)
    requires d in holding
    ensures holding[d] / Span(w) == k ==> HeldIn(holding, w, k) > 0
  {
    if holding[d] / Span(w) == k {
      assert d in HeldOf(holding, w, k);
    }
  }
}
