// The rolling per-minute series behind the dashboard (src/metrics.rs).
module Metrics {
  const SERIES_MINUTES: nat := 120

  datatype Sample = Received | Delivered | Failed | Deferred

  datatype Counts = Counts(received: nat, delivered: nat, failed: nat, deferred: nat)

  const NONE: Counts := Counts(0, 0, 0, 0)

  // One minute, named by the Unix time of its start.
  datatype Bucket = Bucket(minute: int, counts: Counts)

  // A sample and the time it was recorded at.
  datatype Entry = Entry(sample: Sample, now: nat)

  function MinuteOf(now: nat): int {
    now / 60 * 60
  }

  function Counted(c: Counts, sample: Sample): Counts {
    match sample
    case Received => c.(received := c.received + 1)
    case Delivered => c.(delivered := c.delivered + 1)
    case Failed => c.(failed := c.failed + 1)
    case Deferred => c.(deferred := c.deferred + 1)
  }

  // The newest SERIES_MINUTES buckets.
  function Newest(buckets: seq<Bucket>): seq<Bucket> {
    if |buckets| > SERIES_MINUTES then buckets[|buckets| - SERIES_MINUTES..] else buckets
  }

  lemma NewestWithout(buckets: seq<Bucket>)
    ensures |buckets| > SERIES_MINUTES ==> Newest(buckets[1..]) == Newest(buckets)
    ensures |buckets| <= SERIES_MINUTES ==> Newest(buckets) == buckets
  {
  }

  function Opened(buckets: seq<Bucket>, minute: int): (r: seq<Bucket>)
    ensures r != [] && r[|r| - 1].minute == minute
  {
    if buckets == [] || buckets[|buckets| - 1].minute != minute then Newest(buckets + [Bucket(minute, NONE)])
    else buckets
  }

  function CountedLast(buckets: seq<Bucket>, sample: Sample): seq<Bucket>
    requires buckets != []
  {
    var last := |buckets| - 1;
    buckets[last := buckets[last].(counts := Counted(buckets[last].counts, sample))]
  }

  function Recorded(buckets: seq<Bucket>, e: Entry): seq<Bucket> {
    CountedLast(Opened(buckets, MinuteOf(e.now)), e.sample)
  }

  ghost function Run(history: seq<Entry>): seq<Bucket> {
    if history == [] then [] else Recorded(Run(history[..|history| - 1]), history[|history| - 1])
  }

  // -- reading the series --------------------------------------------------------------

  function DropBefore(buckets: seq<Bucket>, minute: int): seq<Bucket> {
    if buckets != [] && buckets[0].minute < minute then DropBefore(buckets[1..], minute) else buckets
  }

  // The buckets from one minute to another in a single pass, gaps filled.
  function Scan(buckets: seq<Bucket>, minute: int, now: int): (r: seq<Bucket>)
    decreases now - minute
  {
    if minute > now then []
    else
      var rest := DropBefore(buckets, minute);
      if rest != [] && rest[0].minute == minute then [rest[0]] + Scan(rest[1..], minute + 60, now)
      else [Bucket(minute, NONE)] + Scan(rest, minute + 60, now)
  }

  function Clamp(minutes: nat): nat {
    if minutes < 1 then 1 else if minutes > SERIES_MINUTES then SERIES_MINUTES else minutes
  }

  class TimeSeries {
    var buckets: seq<Bucket>

    constructor ()
      ensures buckets == []
    {
      buckets := [];
    }

    method Record(sample: Sample, now: nat)
      modifies this
      ensures buckets == Recorded(old(buckets), Entry(sample, now))
    {
      hide Newest;
      ghost var before := buckets;
      var minute := now / 60 * 60;
      var needsNew := if buckets == [] then true else buckets[|buckets| - 1].minute != minute;
      if needsNew {
        buckets := buckets + [Bucket(minute, NONE)];
        while |buckets| > SERIES_MINUTES
          invariant Newest(buckets) == Newest(before + [Bucket(minute, NONE)])
        {
          NewestWithout(buckets);
          buckets := buckets[1..];
        }
        NewestWithout(buckets);
      }
      assert buckets == Opened(before, minute);
      var last := |buckets| - 1;
      var counts := buckets[last].counts;
      match sample {
        case Received => counts := counts.(received := counts.received + 1);
        case Delivered => counts := counts.(delivered := counts.delivered + 1);
        case Failed => counts := counts.(failed := counts.failed + 1);
        case Deferred => counts := counts.(deferred := counts.deferred + 1);
      }
      buckets := buckets[last := Bucket(buckets[last].minute, counts)];
    }

    method Snapshot(minutes: nat, now: nat) returns (r: seq<Bucket>)
      ensures r == Scan(buckets, MinuteOf(now) - (Clamp(minutes) - 1) * 60, MinuteOf(now))
    {
      hide DropBefore, Scan;
      var window := if minutes < 1 then 1 else if minutes > SERIES_MINUTES then SERIES_MINUTES else minutes;
      var last := now / 60 * 60;
      var start := last - (window - 1) * 60;
      r := [];
      var cursor := buckets;
      var minute := start;
      ghost var goal := Scan(buckets, start, last);
      while minute <= last
        invariant goal == r + Scan(cursor, minute, last)
        decreases last - minute
      {
        ghost var before := cursor;
        ScanStep(before, minute, last);
        while cursor != [] && cursor[0].minute < minute
          invariant DropBefore(cursor, minute) == DropBefore(before, minute)
          decreases |cursor|
        {
          Dropped(cursor, minute);
          cursor := cursor[1..];
        }
        Dropped(cursor, minute);
        ghost var shown, rest := r, Scan(AfterMinute(cursor, minute), minute + 60, last);
        assert shown + ([Shown(cursor, minute)] + rest) == shown + [Shown(cursor, minute)] + rest;
        if cursor != [] && cursor[0].minute == minute {
          r := r + [cursor[0]];
          cursor := cursor[1..];
        } else {
          r := r + [Bucket(minute, NONE)];
        }
        minute := minute + 60;
      }
      ScanEnd(cursor, minute, last);
    }
  }

  // What one turn of the pass shows of a minute, and what it leaves for the next.
  function Shown(rest: seq<Bucket>, minute: int): Bucket {
    if rest != [] && rest[0].minute == minute then rest[0] else Bucket(minute, NONE)
  }

  function AfterMinute(rest: seq<Bucket>, minute: int): seq<Bucket> {
    if rest != [] && rest[0].minute == minute then rest[1..] else rest
  }

  lemma {:induction false} ScanStep(buckets: seq<Bucket>, minute: int, now: int)
    requires minute <= now
    ensures var rest := DropBefore(buckets, minute);
      Scan(buckets, minute, now) == [Shown(rest, minute)] + Scan(AfterMinute(rest, minute), minute + 60, now)
  {
  }

  lemma ScanEnd(buckets: seq<Bucket>, minute: int, now: int)
    requires minute > now
    ensures Scan(buckets, minute, now) == []
  {
  }

  lemma Dropped(buckets: seq<Bucket>, minute: int)
    ensures buckets != [] && buckets[0].minute < minute
      ==> DropBefore(buckets, minute) == DropBefore(buckets[1..], minute)
    ensures !(buckets != [] && buckets[0].minute < minute) ==> DropBefore(buckets, minute) == buckets
  {
  }

  // -- the full history ------------------------------------------------------------------

  // How often each kind of sample was ever recorded in a minute.
  ghost function CountsIn(history: seq<Entry>, minute: int): Counts {
    if history == [] then NONE
    else
      var last := history[|history| - 1];
      var before := CountsIn(history[..|history| - 1], minute);
      if MinuteOf(last.now) == minute then Counted(before, last.sample) else before
  }

  // The clock may stand still or step about inside a minute, but no minute follows a
  // later one.
  ghost predicate Forward(history: seq<Entry>) {
    forall i, j :: 0 <= i < j < |history| ==> MinuteOf(history[i].now) <= MinuteOf(history[j].now)
  }

  // What the buckets say of a minute.
  ghost function Lookup(buckets: seq<Bucket>, minute: int): Counts {
    if buckets == [] then NONE
    else if buckets[0].minute == minute then buckets[0].counts
    else Lookup(buckets[1..], minute)
  }

  // Whole minutes, each later than the one before.
  ghost predicate Sorted(buckets: seq<Bucket>) {
    && (forall i :: 0 <= i < |buckets| ==> buckets[i].minute % 60 == 0)
    && (forall i, j :: 0 <= i < j < |buckets| ==> buckets[i].minute < buckets[j].minute)
  }

  lemma {:induction false} Spread(buckets: seq<Bucket>, i: nat, j: nat)
    requires Sorted(buckets) && i <= j < |buckets|
    ensures buckets[i].minute + (j - i) * 60 <= buckets[j].minute
  {
    if i < j {
      Spread(buckets, i, j - 1);
      assert buckets[j - 1].minute < buckets[j].minute;
    }
  }

  lemma {:induction false} NotThere(buckets: seq<Bucket>, minute: int)
    requires forall i :: 0 <= i < |buckets| ==> buckets[i].minute != minute
    ensures Lookup(buckets, minute) == NONE
  {
    if buckets != [] {
      NotThere(buckets[1..], minute);
    }
  }

  lemma {:induction false} LookupAppends(buckets: seq<Bucket>, b: Bucket, minute: int)
    requires forall i :: 0 <= i < |buckets| ==> buckets[i].minute != b.minute
    ensures Lookup(buckets + [b], minute) == if minute == b.minute then b.counts else Lookup(buckets, minute)
  {
    if buckets == [] {
      assert [] + [b] == [b];
    } else {
      assert (buckets + [b])[1..] == buckets[1..] + [b];
      LookupAppends(buckets[1..], b, minute);
    }
  }

  // The buckets hold the history of every minute they have not dropped.
  ghost predicate Agrees(buckets: seq<Bucket>, history: seq<Entry>) {
    forall minute: int :: (|buckets| == SERIES_MINUTES ==> minute >= buckets[0].minute) ==>
      Lookup(buckets, minute) == CountsIn(history, minute)
  }

  ghost predicate Tracks(buckets: seq<Bucket>, history: seq<Entry>) {
    && Sorted(buckets) && |buckets| <= SERIES_MINUTES && Agrees(buckets, history)
    && (history == [] <==> buckets == [])
    && (history != [] ==> buckets[|buckets| - 1].minute == MinuteOf(history[|history| - 1].now))
  }

  lemma WholeMinute(now: nat)
    ensures MinuteOf(now) % 60 == 0
  {
  }

  lemma WithoutFirst(buckets: seq<Bucket>, minute: int)
    requires buckets != [] && minute > buckets[0].minute
    ensures Lookup(buckets[1..], minute) == Lookup(buckets, minute)
  {
  }

  // A new minute starts with nothing and may push the oldest one out.
  lemma OpenedAgrees(buckets: seq<Bucket>, history: seq<Entry>, minute: int)
    requires Sorted(buckets) && |buckets| <= SERIES_MINUTES && Agrees(buckets, history)
    requires minute % 60 == 0 && (buckets != [] ==> buckets[|buckets| - 1].minute <= minute)
    ensures Sorted(Opened(buckets, minute)) && |Opened(buckets, minute)| <= SERIES_MINUTES
    ensures Agrees(Opened(buckets, minute), history)
  {
    hide CountsIn, Lookup, Newest;
    if buckets == [] || buckets[|buckets| - 1].minute != minute {
      var b := Bucket(minute, NONE);
      var wide := buckets + [b];
      NewestWithout(wide);
      if |wide| > SERIES_MINUTES {
        NewestWithout(wide[1..]);
      }
      var r := Opened(buckets, minute);
      NotThere(buckets, minute);
      forall m: int | |r| == SERIES_MINUTES ==> m >= r[0].minute
        ensures Lookup(r, m) == CountsIn(history, m)
      {
        LookupAppends(buckets, b, m);
        if |wide| > SERIES_MINUTES {
          WithoutFirst(wide, m);
        }
      }
    }
  }

  lemma {:induction false} LookupLast(buckets: seq<Bucket>, sample: Sample, minute: int)
    requires buckets != [] && Sorted(buckets)
    ensures var last := buckets[|buckets| - 1];
      Lookup(CountedLast(buckets, sample), minute)
      == if minute == last.minute then Counted(Lookup(buckets, minute), sample) else Lookup(buckets, minute)
  {
    var n := |buckets| - 1;
    var last := buckets[n];
    assert buckets == buckets[..n] + [last];
    assert CountedLast(buckets, sample) == buckets[..n] + [last.(counts := Counted(last.counts, sample))];
    LookupAppends(buckets[..n], last, minute);
    LookupAppends(buckets[..n], last.(counts := Counted(last.counts, sample)), minute);
  }

  lemma RecordedTracks(buckets: seq<Bucket>, history: seq<Entry>, e: Entry)
    requires Tracks(buckets, history)
    requires history != [] ==> MinuteOf(history[|history| - 1].now) <= MinuteOf(e.now)
    ensures Tracks(Recorded(buckets, e), history + [e])
  {
    hide Lookup, CountsIn, Opened;
    var minute := MinuteOf(e.now);
    WholeMinute(e.now);
    OpenedAgrees(buckets, history, minute);
    var grown := Opened(buckets, minute);
    var r := Recorded(buckets, e);
    forall m: int | |r| == SERIES_MINUTES ==> m >= r[0].minute
      ensures Lookup(r, m) == CountsIn(history + [e], m)
    {
      LookupLast(grown, e.sample, m);
      CountsAppend(history, e, m);
    }
  }

  lemma CountsAppend(history: seq<Entry>, e: Entry, minute: int)
    ensures CountsIn(history + [e], minute)
      == if MinuteOf(e.now) == minute then Counted(CountsIn(history, minute), e.sample) else CountsIn(history, minute)
  {
    assert (history + [e])[..|history|] == history;
  }

  lemma {:induction false} RunTracks(history: seq<Entry>)
    requires Forward(history)
    ensures Tracks(Run(history), history)
  {
    hide Recorded, Tracks;
    if history == [] {
      EmptyTracks();
    } else {
      var n := |history| - 1;
      RunTracks(history[..n]);
      assert history == history[..n] + [history[n]];
      RecordedTracks(Run(history[..n]), history[..n], history[n]);
    }
  }

  lemma EmptyTracks()
    ensures Tracks([], [])
  {
  }

  // -- the snapshot is the history -------------------------------------------------------------

  lemma {:induction false} DropBeforeKeeps(buckets: seq<Bucket>, minute: int)
    requires Sorted(buckets)
    ensures Sorted(DropBefore(buckets, minute))
    ensures forall i :: 0 <= i < |DropBefore(buckets, minute)| ==> DropBefore(buckets, minute)[i].minute >= minute
    ensures forall m: int :: m >= minute ==> Lookup(DropBefore(buckets, minute), m) == Lookup(buckets, m)
  {
    if buckets != [] && buckets[0].minute < minute {
      DropBeforeKeeps(buckets[1..], minute);
    }
  }

  // The minutes from one to another, with what is looked up for each.
  ghost function Looked(buckets: seq<Bucket>, minute: int, now: int): seq<Bucket>
    decreases now - minute
  {
    if minute > now then [] else [Bucket(minute, Lookup(buckets, minute))] + Looked(buckets, minute + 60, now)
  }

  lemma {:induction false} LookedSame(a: seq<Bucket>, b: seq<Bucket>, minute: int, now: int)
    requires forall m: int :: m >= minute ==> Lookup(a, m) == Lookup(b, m)
    ensures Looked(a, minute, now) == Looked(b, minute, now)
    decreases now - minute
  {
    if minute <= now {
      LookedSame(a, b, minute + 60, now);
    }
  }

  // One pass over sorted buckets finds every minute there is.
  lemma {:induction false} ScanLooksUp(buckets: seq<Bucket>, minute: int, now: int)
    requires Sorted(buckets)
    ensures Scan(buckets, minute, now) == Looked(buckets, minute, now)
    decreases now - minute
  {
    hide DropBefore, Lookup;
    if minute <= now {
      var rest := DropBefore(buckets, minute);
      DropBeforeKeeps(buckets, minute);
      if rest != [] && rest[0].minute == minute {
        FirstLooked(rest);
        ScanLooksUp(rest[1..], minute + 60, now);
        LookedSame(rest[1..], buckets, minute + 60, now);
      } else {
        NotThere(rest, minute);
        ScanLooksUp(rest, minute + 60, now);
        LookedSame(rest, buckets, minute + 60, now);
      }
    }
  }

  lemma FirstLooked(buckets: seq<Bucket>)
    requires buckets != []
    ensures Lookup(buckets, buckets[0].minute) == buckets[0].counts
    ensures forall m: int :: m > buckets[0].minute ==> Lookup(buckets[1..], m) == Lookup(buckets, m)
  {
  }

  lemma {:induction false} LookedAt(buckets: seq<Bucket>, minute: int, now: int, i: nat)
    requires minute + i * 60 <= now
    ensures i < |Looked(buckets, minute, now)|
    ensures Looked(buckets, minute, now)[i] == Bucket(minute + i * 60, Lookup(buckets, minute + i * 60))
    decreases i
  {
    if i > 0 {
      LookedAt(buckets, minute + 60, now, i - 1);
    }
  }

  lemma {:induction false} LookedLength(buckets: seq<Bucket>, minute: int, now: int, n: nat)
    requires now == minute + (n - 1) * 60
    ensures |Looked(buckets, minute, now)| == n
    decreases n
  {
    if n > 0 {
      LookedLength(buckets, minute + 60, now, n - 1);
    }
  }

  // With a clock that never goes back to an earlier minute, a snapshot is the last
  // minutes of the full history, one bucket for each, exact to the sample, whatever was dropped meanwhile.
  lemma {:induction false} SnapshotIsHistory(history: seq<Entry>, minutes: nat, now: nat)
    requires Forward(history) && (history != [] ==> MinuteOf(history[|history| - 1].now) <= MinuteOf(now))
    ensures var start := MinuteOf(now) - (Clamp(minutes) - 1) * 60;
      var shown := Scan(Run(history), start, MinuteOf(now));
      && |shown| == Clamp(minutes)
      && forall i :: 0 <= i < Clamp(minutes) ==> shown[i] == Bucket(start + i * 60, CountsIn(history, start + i * 60))
  {
    hide Run, Lookup, CountsIn, Looked, Scan;
    var buckets := Run(history);
    var start := MinuteOf(now) - (Clamp(minutes) - 1) * 60;
    RunTracks(history);
    ScanLooksUp(buckets, start, MinuteOf(now));
    LookedLength(buckets, start, MinuteOf(now), Clamp(minutes));
    if |buckets| == SERIES_MINUTES {
      Spread(buckets, 0, SERIES_MINUTES - 1);
    }
    forall i | 0 <= i < Clamp(minutes)
      ensures Looked(buckets, start, MinuteOf(now))[i] == Bucket(start + i * 60, CountsIn(history, start + i * 60))
    {
      LookedAt(buckets, start, MinuteOf(now), i);
    }
  }

  // The series never holds more than two hours, whatever the clock does.
  lemma {:induction false} NeverMoreThanTwoHours(history: seq<Entry>)
    ensures |Run(history)| <= SERIES_MINUTES
  {
    if history != [] {
      NeverMoreThanTwoHours(history[..|history| - 1]);
    }
  }

  // -- a clock that goes back ------------------------------------------------------------------

  lemma {:induction false} DropBeforeStops(front: seq<Bucket>, b: Bucket, minute: int)
    requires front != [] && front[|front| - 1].minute >= minute
    ensures DropBefore(front, minute) != []
    ensures DropBefore(front + [b], minute) == DropBefore(front, minute) + [b]
  {
    if front[0].minute < minute {
      assert (front + [b])[1..] == front[1..] + [b];
      DropBeforeStops(front[1..], b, minute);
    }
  }

  // A bucket behind a later one is never reached by the pass.
  lemma BehindIsHidden(front: seq<Bucket>, b: Bucket)
    requires Sorted(front) && front != [] && front[|front| - 1].minute > b.minute
    ensures Scan(front + [b], b.minute, b.minute) == [Bucket(b.minute, Lookup(front, b.minute))]
  {
    hide Lookup, DropBefore;
    var rest := DropBefore(front, b.minute);
    DropBeforeStops(front, b, b.minute);
    DropBeforeKeeps(front, b.minute);
    assert Lookup(front, b.minute) == Lookup(rest, b.minute);
    if rest[0].minute == b.minute {
      FirstLooked(rest);
    } else {
      NotThere(rest, b.minute);
    }
    assert (rest + [b])[0] == rest[0];
  }

  // What stays of the old buckets when one is opened for an earlier minute.
  lemma OpenedBehind(buckets: seq<Bucket>, e: Entry) returns (front: seq<Bucket>, b: Bucket)
    requires Sorted(buckets) && buckets != [] && |buckets| <= SERIES_MINUTES
    requires MinuteOf(e.now) < buckets[|buckets| - 1].minute
    ensures Recorded(buckets, e) == front + [b] && b.minute == MinuteOf(e.now)
    ensures Sorted(front) && front != [] && front[|front| - 1] == buckets[|buckets| - 1]
    ensures Lookup(front, b.minute) == Lookup(buckets, b.minute) || Lookup(front, b.minute) == NONE
  {
    hide Lookup, Newest;
    var minute := MinuteOf(e.now);
    var wide := buckets + [Bucket(minute, NONE)];
    b := Bucket(minute, Counted(NONE, e.sample));
    NewestWithout(wide);
    if |wide| > SERIES_MINUTES {
      NewestWithout(wide[1..]);
      front := buckets[1..];
      assert wide[1..] == front + [Bucket(minute, NONE)];
      if minute > buckets[0].minute {
        WithoutFirst(buckets, minute);
      } else {
        assert forall i :: 0 <= i < |front| ==> front[i] == buckets[i + 1];
        NotThere(front, minute);
      }
    } else {
      front := buckets;
    }
  }

  // So right after a sample was recorded in an earlier minute than the one before it, the
  // snapshot of its minute lacks it.
  lemma {:induction false} BackwardSampleIsHidden(history: seq<Entry>, e: Entry)
    requires Forward(history) && history != []
    requires MinuteOf(e.now) < MinuteOf(history[|history| - 1].now)
    ensures var minute := MinuteOf(e.now);
      Scan(Run(history + [e]), minute, minute) != [Bucket(minute, CountsIn(history + [e], minute))]
  {
    hide Lookup, CountsIn, Recorded, Scan;
    var minute := MinuteOf(e.now);
    var buckets := Run(history);
    RunTracks(history);
    assert (history + [e])[..|history|] == history;
    var front, b := OpenedBehind(buckets, e);
    BehindIsHidden(front, b);
    CountsAppend(history, e, minute);
    if |buckets| == SERIES_MINUTES && minute < buckets[0].minute {
      NotThere(buckets, minute);
    }
  }

  // The snapshot taken of a sample's minute as soon as it is recorded.
  ghost predicate ShownAsRecorded(history: seq<Entry>, t: nat)
    requires t < |history|
  {
    var minute := MinuteOf(history[t].now);
    Scan(Run(history[..t + 1]), minute, minute) == [Bucket(minute, CountsIn(history[..t + 1], minute))]
  }

  lemma ForwardIsShown(history: seq<Entry>)
    requires Forward(history) && history != []
    ensures ShownAsRecorded(history, |history| - 1)
  {
    hide Scan, Run, CountsIn;
    var n := |history| - 1;
    assert history[..n + 1] == history;
    SnapshotIsHistory(history, 1, history[n].now);
  }

  lemma ShownInPrefix(history: seq<Entry>, t: nat)
    requires t + 1 < |history|
    ensures ShownAsRecorded(history[..|history| - 1], t) == ShownAsRecorded(history, t)
  {
    assert history[..|history| - 1][..t + 1] == history[..t + 1];
  }

  // Every sample is shown in its minute as soon as it is recorded if and only if no
  // minute ever follows a later one.
  lemma {:induction false} ShownExactlyWhenForward(history: seq<Entry>)
    ensures (forall t :: 0 <= t < |history| ==> ShownAsRecorded(history, t)) <==> Forward(history)
  {
    hide ShownAsRecorded;
    if history != [] {
      var n := |history| - 1;
      var front := history[..n];
      ShownExactlyWhenForward(front);
      forall t | 0 <= t < n
        ensures ShownAsRecorded(front, t) == ShownAsRecorded(history, t)
      {
        ShownInPrefix(history, t);
      }
      if Forward(history) {
        ForwardIsShown(history);
      } else if Forward(front) {
        assert front + [history[n]] == history;
        GoesBackLast(history);
        BackwardSampleIsHidden(front, history[n]);
        HiddenAtTheEnd(history, MinuteOf(history[n].now));
      }
    }
  }

  lemma GoesBackLast(history: seq<Entry>)
    requires history != [] && Forward(history[..|history| - 1]) && !Forward(history)
    ensures |history| > 1 && MinuteOf(history[|history| - 1].now) < MinuteOf(history[|history| - 2].now)
  {
    hide MinuteOf;
    var front := history[..|history| - 1];
    var i, j :| 0 <= i < j < |history| && MinuteOf(history[i].now) > MinuteOf(history[j].now);
    assert forall k :: 0 <= k < |front| ==> front[k] == history[k];
    assert j == |history| - 1;
    if i < |history| - 2 {
      assert MinuteOf(front[i].now) <= MinuteOf(front[|front| - 1].now);
    }
  }

  lemma {:induction false} HiddenAtTheEnd(history: seq<Entry>, minute: int)
    requires history != [] && minute == MinuteOf(history[|history| - 1].now)
    requires Scan(Run(history), minute, minute) != [Bucket(minute, CountsIn(history, minute))]
    ensures !ShownAsRecorded(history, |history| - 1)
  {
    assert history[..|history|] == history;
  }

  // -- what the counts and the window are ---------------------------------------------------------

  // Samples of one kind in a minute of wall-clock time.
  ghost function Times(history: seq<Entry>, minute: int, sample: Sample): nat {
    if history == [] then 0
    else
      var last := history[|history| - 1];
      Times(history[..|history| - 1], minute, sample)
      + if last.sample == sample && minute <= last.now < minute + 60 then 1 else 0
  }

  // Each kind is counted for itself.
  lemma {:induction false} CountsAreTimes(history: seq<Entry>, minute: int)
    requires minute % 60 == 0
    ensures CountsIn(history, minute)
      == Counts(Times(history, minute, Received), Times(history, minute, Delivered), Times(history, minute, Failed),
                Times(history, minute, Deferred))
  {
    if history != [] {
      var last := history[|history| - 1];
      assert MinuteOf(last.now) == minute <==> minute <= last.now < minute + 60;
      CountsAreTimes(history[..|history| - 1], minute);
    }
  }

  // A snapshot shows as many minutes as are asked for, one at least and two hours at most.
  lemma WindowIsAsAsked(minutes: nat)
    ensures 1 <= Clamp(minutes) <= 120
    ensures 1 <= minutes <= 120 ==> Clamp(minutes) == minutes
    ensures minutes > 120 ==> Clamp(minutes) == 120
  {
  }
}
