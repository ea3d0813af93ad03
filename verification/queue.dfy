// The delivery queue: a time-ordered schedule, an index by id, the messages in
// flight, and the spool files behind them (src/queue.rs).
module Queues {
  import opened Bytes
  import opened Wrappers

  type Id = string

  // The parts of a queued message that change or decide anything; due is
  // next_attempt_at in milliseconds.
  datatype Message = Message(id: Id, recipients: seq<Text>, attempts: nat, due: int, tried: seq<Id>, raw: Text)

  datatype Key = Key(due: int, number: nat)

  predicate Before(a: Key, b: Key) {
    a.due < b.due || (a.due == b.due && a.number < b.number)
  }

  datatype EnqueueError = Disabled | Full(capacity: nat)

  // -- the schedule --------------------------------------------------------------

  datatype Schedule = Schedule(scheduled: map<Key, Message>, byId: map<Id, Key>, inFlight: set<Id>, next: nat)

  const EMPTY: Schedule := Schedule(map[], map[], {}, 0)

  // scheduled and byId are inverses; a key carries its message's due time and a
  // sequence number already given out, to it alone.
  ghost predicate Exact(s: Schedule) {
    && (forall id :: id in s.byId ==> s.byId[id] in s.scheduled && s.scheduled[s.byId[id]].id == id)
    && (forall k :: k in s.scheduled ==> s.scheduled[k].id in s.byId && s.byId[s.scheduled[k].id] == k)
    && (forall k :: k in s.scheduled ==> k.due == s.scheduled[k].due && k.number < s.next)
    && (forall j, k :: j in s.scheduled && k in s.scheduled && j.number == k.number ==> j == k)
    && (forall id :: id in s.inFlight ==> id !in s.byId)
  }

  // The index entry an insertion starts with; the message itself follows.
  function Reserve(s: Schedule, m: Message): Schedule {
    s.(byId := s.byId[m.id := Key(m.due, s.next)], next := s.next + 1)
  }

  function Insert(s: Schedule, m: Message): Schedule {
    var r := Reserve(s, m);
    r.(scheduled := r.scheduled[Key(m.due, s.next) := m])
  }

  function Landed(s: Schedule, id: Id): Schedule {
    s.(inFlight := s.inFlight - {id})
  }

  // The earliest key.
  ghost predicate IsFirst(s: Schedule, k: Key) {
    k in s.scheduled && forall j :: j in s.scheduled ==> j == k || Before(k, j)
  }

  function Take(s: Schedule, k: Key): Schedule
    requires k in s.scheduled
  {
    var id := s.scheduled[k].id;
    Schedule(s.scheduled - {k}, s.byId - {id}, s.inFlight + {id}, s.next)
  }

  function Drop(s: Schedule, id: Id): Schedule
    requires id in s.byId
  {
    s.(scheduled := s.scheduled - {s.byId[id]}, byId := s.byId - {id})
  }

  // A waiting message made due at once, behind everything numbered before.
  function Hasten(s: Schedule, k: Key, now: int): Schedule
    requires k in s.scheduled
  {
    var m := s.scheduled[k].(due := now);
    Insert(s.(scheduled := s.scheduled - {k}), m)
  }

  // Distinct ids are what keeps the index exact.
  lemma InsertKeepsIndex(s: Schedule, m: Message)
    requires Exact(s)
    ensures Exact(Insert(s, m)) <==> m.id !in s.byId && m.id !in s.inFlight
  {
    var r, k := Insert(s, m), Key(m.due, s.next);
    assert k !in s.scheduled;
    if m.id in s.byId {
      var taken := s.byId[m.id];
      assert taken in r.scheduled && r.scheduled[taken].id == m.id && r.byId[m.id] == k != taken;
    }
    if m.id in s.inFlight {
      assert m.id in r.inFlight && m.id in r.byId;
    }
  }

  lemma TakeKeepsIndex(s: Schedule, k: Key)
    requires Exact(s) && k in s.scheduled
    ensures Exact(Take(s, k))
  {
  }

  lemma DropKeepsIndex(s: Schedule, id: Id)
    requires Exact(s) && id in s.byId
    ensures Exact(Drop(s, id))
  {
  }

  lemma HastenKeepsIndex(s: Schedule, k: Key, now: int)
    requires Exact(s) && k in s.scheduled
    ensures Exact(Hasten(s, k, now))
    ensures Hasten(s, k, now).byId.Keys == s.byId.Keys
  {
    var id := s.scheduled[k].id;
    var r := Hasten(s, k, now);
    assert s.byId[id] == k;
  }

  // -- spool files -----------------------------------------------------------------

  // <id>.json and <id>.eml; the metadata file holds everything but the body.
  datatype Disk = Disk(meta: map<Id, Message>, bodies: map<Id, Text>)

  datatype FileOp = WriteBody(id: Id, raw: Text) | WriteMeta(m: Message) | RemoveMeta(id: Id) | RemoveBody(id: Id)

  function Apply(d: Disk, op: FileOp): Disk {
    match op
    case WriteBody(id, raw) => d.(bodies := d.bodies[id := raw])
    case WriteMeta(m) => d.(meta := d.meta[m.id := m.(raw := [])])
    case RemoveMeta(id) => d.(meta := d.meta - {id})
    case RemoveBody(id) => d.(bodies := d.bodies - {id})
  }

  function ApplyAll(d: Disk, ops: seq<FileOp>): Disk
    decreases |ops|
  {
    if ops == [] then d else ApplyAll(Apply(d, ops[0]), ops[1..])
  }

  // What a metadata file can be restored to.
  function Restored(d: Disk, id: Id): Option<Message>
    requires id in d.meta
  {
    if id in d.bodies && d.bodies[id] != [] then Some(d.meta[id].(raw := d.bodies[id])) else None
  }

  // -- the queue --------------------------------------------------------------------

  method FirstKey(keys: set<Key>) returns (first: Key)
    requires keys != {}
    ensures first in keys && forall k :: k in keys ==> k == first || Before(first, k)
  {
    first :| first in keys;
    var rest := keys - {first};
    while rest != {}
      invariant first in keys && rest <= keys && first !in rest
      invariant forall k :: k in keys && k !in rest ==> k == first || Before(first, k)
      decreases rest
    {
      var k :| k in rest;
      Total(k, first);
      if Before(k, first) {
        first := k;
      }
      rest := rest - {k};
    }
  }

  lemma Total(a: Key, b: Key)
    ensures a == b || Before(a, b) || Before(b, a)
  {
  }

  // Body first when a message is written, metadata first when it is removed.
  function Spooling(m: Message): seq<FileOp> {
    [WriteBody(m.id, m.raw), WriteMeta(m)]
  }

  function Unspooling(id: Id): seq<FileOp> {
    [RemoveMeta(id), RemoveBody(id)]
  }

  // What comes of one metadata file when the spool is read.
  datatype Turn = Dropped | Rescheduled | AtCapacity

  class Queue {
    const enabled: bool
    const capacity: nat
    const persist: bool
    var schedule: Schedule
    var disk: Disk
    // every file operation so far, in order
    ghost var files: seq<FileOp>

    constructor (enabled: bool, capacity: nat, persist: bool, disk: Disk)
      ensures schedule == EMPTY && this.disk == disk && files == []
      ensures this.enabled == enabled && this.persist == (enabled && persist)
      ensures this.capacity == if capacity > 1 then capacity else 1
    {
      this.enabled := enabled;
      this.capacity := if capacity > 1 then capacity else 1;
      this.persist := enabled && persist;
      schedule := EMPTY;
      this.disk := disk;
      files := [];
    }

    method Do(op: FileOp)
      modifies this`disk, this`files
      ensures disk == Apply(old(disk), op) && files == old(files) + [op]
    {
      match op {
        case WriteBody(id, raw) => disk := disk.(bodies := disk.bodies[id := raw]);
        case WriteMeta(m) => disk := disk.(meta := disk.meta[m.id := m.(raw := [])]);
        case RemoveMeta(id) => disk := disk.(meta := disk.meta - {id});
        case RemoveBody(id) => disk := disk.(bodies := disk.bodies - {id});
      }
      files := files + [op];
    }

    // Body first, so that metadata never stands without its body.
    method WriteSpool(m: Message)
      modifies this`disk, this`files
      ensures files == old(files) + Spooling(m) && disk == ApplyAll(old(disk), Spooling(m))
    {
      Do(WriteBody(m.id, m.raw));
      Do(WriteMeta(m));
      TwoOps(old(disk), WriteBody(m.id, m.raw), WriteMeta(m));
    }

    // Metadata first, for the same reason.
    method RemoveSpool(id: Id)
      modifies this`disk, this`files
      ensures files == old(files) + Unspooling(id) && disk == ApplyAll(old(disk), Unspooling(id))
    {
      Do(RemoveMeta(id));
      Do(RemoveBody(id));
      TwoOps(old(disk), RemoveMeta(id), RemoveBody(id));
    }

    method Enqueue(m: Message) returns (r: Result<(), EnqueueError>)
      modifies this`schedule, this`disk, this`files
      ensures !enabled ==> r == Err(Disabled)
      ensures enabled && |old(schedule).scheduled| >= capacity ==> r == Err(Full(capacity))
      ensures enabled && |old(schedule).scheduled| < capacity ==> r.Ok? && schedule == Insert(old(schedule), m)
      ensures r.Ok? ==> files == old(files) + if persist then Spooling(m) else []
      ensures r.Ok? ==> disk == if persist then ApplyAll(old(disk), Spooling(m)) else old(disk)
      ensures r.Err? ==> schedule == old(schedule) && disk == old(disk) && files == old(files)
    {
      if !enabled {
        return Err(Disabled);
      }
      if |schedule.scheduled| >= capacity {
        return Err(Full(capacity));
      }
      var key := Key(m.due, schedule.next);
      schedule := schedule.(next := schedule.next + 1);
      schedule := schedule.(byId := schedule.byId[m.id := key]);
      if persist {
        WriteSpool(m);
      }
      schedule := schedule.(scheduled := schedule.scheduled[key := m]);
      return Ok(());
    }

    // The earliest message, and only when its time has come.
    method TakeDue(now: int) returns (r: Option<Message>)
      modifies this`schedule
      ensures r.None? <==> forall k :: k in old(schedule).scheduled ==> k.due > now
      ensures r.None? ==> schedule == old(schedule)
      ensures r.Some? ==> (exists k :: IsFirst(old(schedule), k) && k.due <= now
                             && r.value == old(schedule).scheduled[k] && schedule == Take(old(schedule), k))
    {
      if schedule.scheduled == map[] {
        return None;
      }
      var key := FirstKey(schedule.scheduled.Keys);
      if key.due > now {
        return None;
      }
      assert IsFirst(schedule, key);
      var m := schedule.scheduled[key];
      schedule := Schedule(schedule.scheduled - {key}, schedule.byId - {m.id}, schedule.inFlight + {m.id},
                           schedule.next);
      return Some(m);
    }

    method Finish(id: Id)
      modifies this`schedule, this`disk, this`files
      ensures schedule == Landed(old(schedule), id)
      ensures files == old(files) + if persist then Unspooling(id) else []
      ensures disk == if persist then ApplyAll(old(disk), Unspooling(id)) else old(disk)
    {
      schedule := schedule.(inFlight := schedule.inFlight - {id});
      if persist {
        RemoveSpool(id);
      }
    }

    // Puts a taken message back, whatever the capacity.
    method Requeue(m: Message, now: int, delay: nat)
      modifies this`schedule, this`disk, this`files
      ensures var later := m.(due := now + delay);
        && schedule == Insert(Landed(old(schedule), m.id), later)
        && files == old(files) + (if persist then Spooling(later) else [])
        && disk == if persist then ApplyAll(old(disk), Spooling(later)) else old(disk)
    {
      var later := m.(due := now + delay);
      schedule := schedule.(inFlight := schedule.inFlight - {m.id});
      var key := Key(later.due, schedule.next);
      schedule := schedule.(next := schedule.next + 1);
      schedule := schedule.(byId := schedule.byId[m.id := key]);
      if persist {
        WriteSpool(later);
      }
      schedule := schedule.(scheduled := schedule.scheduled[key := later]);
    }

    method Remove(id: Id) returns (removed: bool)
      requires Exact(schedule)
      modifies this`schedule, this`disk, this`files
      ensures removed <==> id in old(schedule).byId
      ensures schedule == if removed then Drop(old(schedule), id) else old(schedule)
      ensures files == old(files) + if removed && persist then Unspooling(id) else []
      ensures disk == if removed && persist then ApplyAll(old(disk), Unspooling(id)) else old(disk)
    {
      removed := id in schedule.byId;
      if removed {
        var key := schedule.byId[id];
        schedule := schedule.(byId := schedule.byId - {id});
        schedule := schedule.(scheduled := schedule.scheduled - {key});
        if persist {
          RemoveSpool(id);
        }
      }
    }

    // Makes every waiting message due now, in the order they were waiting in.
    method FlushNow(now: int) returns (moved: nat)
      requires Exact(schedule)
      modifies this`schedule
      ensures Exact(schedule) && schedule.byId.Keys == old(schedule).byId.Keys
      ensures moved == |set k | k in old(schedule).scheduled && k.due > now|
      ensures forall k :: k in schedule.scheduled ==> k.due <= now
      ensures SameOrder(old(schedule), schedule)
      ensures forall id :: id in schedule.byId ==>
        Find(schedule, id) == (if Find(old(schedule), id).due > now then Find(old(schedule), id).(due := now)
                               else Find(old(schedule), id))
    {
      hide Exact, SameOrder;
      ghost var before := schedule;
      var pending := set k | k in schedule.scheduled && k.due > now;
      moved := |pending|;
      FlushStarts(before, now);
      while pending != {}
        invariant Exact(before) && Exact(schedule) && schedule.byId.Keys == before.byId.Keys
        invariant pending == set k | k in schedule.scheduled && k.due > now
        invariant SameOrder(before, schedule)
        invariant OnlyHastened(before, schedule, now)
        decreases pending
      {
        var key := FirstKey(pending);
        HastenFirst(before, schedule, key, now);
        HastenOne(before, schedule, key, now);
        var m := schedule.scheduled[key].(due := now);
        var newKey := Key(now, schedule.next);
        schedule := Schedule((schedule.scheduled - {key})[newKey := m], schedule.byId[m.id := newKey],
                             schedule.inFlight, schedule.next + 1);
        pending := pending - {key};
      }
      assert forall k :: k in schedule.scheduled && k.due > now ==> k in pending;
      FlushEnds(before, schedule, now);
    }

    // One metadata file back from the spool; a pair that is not complete is removed.
    method RecoverOne(id: Id) returns (m: Option<Message>)
      requires id in disk.meta && WellNamed(disk)
      modifies this`disk, this`files
      ensures WellNamed(disk) && Intact(disk) == Intact(old(disk))
      ensures disk == if m.Some? then old(disk) else Cleaned(old(disk), {id})
      ensures id in Intact(old(disk)) <==> m.Some?
      ensures m.Some? ==> m.value == Intact(old(disk))[id] && m.value.id == id
    {
      RestoredIsIntact(disk, id);
      m := Restored(disk, id);
      if m.None? {
        CleanedKeeps(disk, id);
        LeftoversAreCleaned(disk, id);
        RemoveSpool(id);
      }
    }

    // One turn of the reading below.
    method ReadEntry(id: Id, ghost before: Disk, ghost back: map<Id, Message>, ghost entries: set<Id>)
      returns (turn: Turn, ghost now: map<Id, Message>)
      requires Reading(before, disk, schedule, back, entries, capacity) && id in entries
      modifies this`schedule, this`disk, this`files
      ensures turn == AtCapacity ==>
        Reading(before, disk, schedule, now, entries, capacity) && id in Intact(disk)
        && |schedule.scheduled| >= capacity
      ensures turn != AtCapacity ==> Reading(before, disk, schedule, now, entries - {id}, capacity)
      ensures |now| == |back| + if turn == Rescheduled then 1 else 0
    {
      hide Exact, Holds, Intact, WellNamed, Reading, ReadBack, Insert, Cleaned;
      ghost var was := disk;
      now := back;
      ReadsEntry(before, was, schedule, back, entries, id, capacity);
      var m := RecoverOne(id);
      if m.None? {
        ReadsBroken(before, was, disk, schedule, back, entries, id, capacity);
        return Dropped, now;
      }
      if |schedule.scheduled| >= capacity {
        return AtCapacity, now;
      }
      ReadsOneBack(before, disk, schedule, back, entries, id, m.value, capacity);
      now := back[id := m.value];
      schedule := Insert(schedule, m.value);
      return Rescheduled, now;
    }

    // Reads the spool back into an empty queue, throwing away what cannot be read. Past the
    // capacity reading stops and the rest stays on disk.
    method Recover() returns (recovered: nat, ghost back: map<Id, Message>, ghost cleaned: set<Id>)
      requires schedule == EMPTY && WellNamed(disk)
      modifies this`schedule, this`disk, this`files
      ensures !persist ==> recovered == 0 && schedule == EMPTY && disk == old(disk)
      ensures persist ==> Holds(schedule, back) && recovered == |back|
      ensures persist ==> disk == Cleaned(old(disk), cleaned) && Intact(disk) == Intact(old(disk))
      ensures persist ==> ReadBack(old(disk), back, cleaned, capacity)
    {
      back, cleaned := map[], {};
      recovered := 0;
      if !persist {
        return;
      }
      hide Exact, Holds, Intact, WellNamed, Reading, ReadBack, Insert, Cleaned;
      ghost var before := disk;
      var entries := disk.meta.Keys;
      StartsReading(disk, capacity);
      while entries != {}
        invariant Reading(before, disk, schedule, back, entries, capacity) && recovered == |back|
        decreases entries
      {
        var id :| id in entries;
        var turn;
        turn, back := ReadEntry(id, before, back, entries);
        match turn {
          case AtCapacity =>
            cleaned := ReadsUntilFull(before, disk, schedule, back, entries, id, capacity);
            return;
          case Rescheduled => recovered := recovered + 1;
          case Dropped =>
        }
        entries := entries - {id};
      }
      cleaned := ReadsToTheEnd(before, disk, schedule, back, capacity);
    }
  }

  lemma {:induction false} LeftoversAreCleaned(d: Disk, id: Id)
    ensures ApplyAll(d, Unspooling(id)) == Cleaned(d, {id})
  {
    TwoOps(d, RemoveMeta(id), RemoveBody(id));
  }

  lemma TwoOps(d: Disk, a: FileOp, b: FileOp)
    ensures ApplyAll(d, [a, b]) == Apply(Apply(d, a), b)
  {
    assert [a, b][1..] == [b] && [b][1..] == [];
    assert ApplyAll(Apply(d, a), [b]) == Apply(Apply(d, a), b);
  }

  // -- delivery order -------------------------------------------------------------------

  ghost function Find(s: Schedule, id: Id): Message
    requires Exact(s) && id in s.byId
  {
    s.scheduled[s.byId[id]]
  }

  // Any two messages keep their places in the queue.
  ghost predicate SameOrder(a: Schedule, b: Schedule) {
    && a.byId.Keys == b.byId.Keys
    && forall x, y :: x in a.byId && y in a.byId ==> (Before(a.byId[x], a.byId[y]) <==> Before(b.byId[x], b.byId[y]))
  }

  // Messages are as they were, or were waiting and are due now.
  ghost predicate OnlyHastened(a: Schedule, b: Schedule, now: int)
    requires Exact(a) && Exact(b) && a.byId.Keys == b.byId.Keys
  {
    forall id :: id in b.byId ==>
      Find(b, id) == Find(a, id) || (Find(a, id).due > now && Find(b, id) == Find(a, id).(due := now))
  }

  lemma FlushStarts(s: Schedule, now: int)
    requires Exact(s)
    ensures SameOrder(s, s) && OnlyHastened(s, s, now)
  {
  }

  lemma FlushEnds(a: Schedule, b: Schedule, now: int)
    requires Exact(a) && Exact(b) && a.byId.Keys == b.byId.Keys && OnlyHastened(a, b, now)
    requires forall k :: k in b.scheduled ==> k.due <= now
    ensures forall id :: id in b.byId ==>
      Find(b, id) == if Find(a, id).due > now then Find(a, id).(due := now) else Find(a, id)
  {
    forall id | id in b.byId
      ensures Find(b, id) == if Find(a, id).due > now then Find(a, id).(due := now) else Find(a, id)
    {
      assert b.byId[id] in b.scheduled;
    }
  }

  lemma KeyOf(s: Schedule, id: Id)
    requires Exact(s) && id in s.byId
    ensures s.byId[id] in s.scheduled && s.scheduled[s.byId[id]].id == id && s.byId[id].number < s.next
  {
  }

  // The first key that is not due yet, moved to now behind all that are: its place among
  // the others is the same.
  lemma {:induction false} MovedKeys(k: Key, now: int, next: nat, a: Key, b: Key)
    requires k.due > now && a.number < next && b.number < next
    requires a.due > now ==> a == k || Before(k, a)
    requires b.due > now ==> b == k || Before(k, b)
    ensures var moved := Key(now, next);
      Before(a, b) <==> Before(if a == k then moved else a, if b == k then moved else b)
  {
  }

  lemma OtherKey(s: Schedule, k: Key, id: Id)
    requires Exact(s) && k in s.scheduled && id in s.byId
    ensures s.byId[id] == k <==> id == s.scheduled[k].id
  {
  }

  lemma IndexHastened(s: Schedule, k: Key, now: int)
    requires Exact(s) && k in s.scheduled
    ensures s.scheduled[k].id in s.byId && s.byId[s.scheduled[k].id] == k
    ensures Hasten(s, k, now).byId == s.byId[s.scheduled[k].id := Key(now, s.next)]
  {
  }

  lemma HastenPair(s: Schedule, k: Key, now: int, x: Id, y: Id)
    requires Exact(s) && k in s.scheduled && k.due > now && x in s.byId && y in s.byId
    requires forall j :: j in s.scheduled && j.due > now ==> j == k || Before(k, j)
    ensures x in Hasten(s, k, now).byId && y in Hasten(s, k, now).byId
    ensures Before(s.byId[x], s.byId[y]) <==> Before(Hasten(s, k, now).byId[x], Hasten(s, k, now).byId[y])
  {
    hide Exact, Hasten, Before;
    IndexHastened(s, k, now);
    KeyOf(s, x);
    KeyOf(s, y);
    MovedKeys(k, now, s.next, s.byId[x], s.byId[y]);
    OtherKey(s, k, x);
    OtherKey(s, k, y);
  }

  // Hastening the first of the waiting messages puts it behind everything that is due and
  // in front of everything that still waits.
  lemma HastenFirst(before: Schedule, s: Schedule, k: Key, now: int)
    requires Exact(s) && SameOrder(before, s)
    requires k in s.scheduled && k.due > now
    requires forall j :: j in s.scheduled && j.due > now ==> j == k || Before(k, j)
    ensures SameOrder(before, Hasten(s, k, now))
  {
    hide Exact, Hasten, Before;
    var r := Hasten(s, k, now);
    IndexHastened(s, k, now);
    forall x, y | x in s.byId && y in s.byId
      ensures Before(s.byId[x], s.byId[y]) <==> Before(r.byId[x], r.byId[y])
    {
      HastenPair(s, k, now, x, y);
    }
  }

  lemma HastenOne(before: Schedule, s: Schedule, k: Key, now: int)
    requires Exact(before) && Exact(s) && before.byId.Keys == s.byId.Keys
    requires k in s.scheduled && k.due > now && OnlyHastened(before, s, now)
    ensures Exact(Hasten(s, k, now)) && Hasten(s, k, now).byId.Keys == s.byId.Keys
    ensures OnlyHastened(before, Hasten(s, k, now), now)
    ensures (set j | j in Hasten(s, k, now).scheduled && j.due > now) == (set j | j in s.scheduled && j.due > now) - {k}
  {
    HastenLeavesWaiting(s, k, now);
    hide Exact, Hasten;
    HastenKeepsIndex(s, k, now);
    var r := Hasten(s, k, now);
    forall x | x in r.byId
      ensures Find(r, x) == Find(before, x)
           || (Find(before, x).due > now && Find(r, x) == Find(before, x).(due := now))
    {
      hide Find;
      HastenedFind(s, k, now, x);
      assert Find(s, x) == Find(before, x) || (Find(before, x).due > now && Find(s, x) == Find(before, x).(due := now));
    }
  }

  lemma HastenLeavesWaiting(s: Schedule, k: Key, now: int)
    requires k in s.scheduled && k.due > now
    ensures (set j | j in Hasten(s, k, now).scheduled && j.due > now) == (set j | j in s.scheduled && j.due > now) - {k}
  {
  }

  lemma HastenedFind(s: Schedule, k: Key, now: int, id: Id)
    requires Exact(s) && k in s.scheduled && id in s.byId && k.due > now
    ensures Exact(Hasten(s, k, now)) && id in Hasten(s, k, now).byId
    ensures Find(Hasten(s, k, now), id)
      == if id == s.scheduled[k].id then Find(s, id).(due := now) else Find(s, id)
    ensures id == s.scheduled[k].id ==> Find(s, id).due > now
  {
    HastenKeepsIndex(s, k, now);
    KeyOf(s, id);
    KeyOf(s, s.scheduled[k].id);
    DueOf(s, id);
    assert s.byId[s.scheduled[k].id] == k;
    hide Exact;
  }

  lemma DueOf(s: Schedule, id: Id)
    requires Exact(s) && id in s.byId
    ensures Find(s, id).due == s.byId[id].due
  {
  }

  // -- restart ----------------------------------------------------------------------------

  // A schedule holding exactly the given messages, nothing in flight.
  ghost predicate Holds(s: Schedule, messages: map<Id, Message>) {
    && Exact(s) && s.inFlight == {} && s.byId.Keys == messages.Keys
    && (forall id :: id in messages ==> s.byId[id] in s.scheduled && s.scheduled[s.byId[id]] == messages[id])
  }

  // Files are named after the message they hold.
  ghost predicate WellNamed(d: Disk) {
    forall id :: id in d.meta ==> d.meta[id].id == id
  }

  // The messages the spool can give back.
  ghost function Intact(d: Disk): map<Id, Message> {
    map id | id in d.meta && id in d.bodies && d.bodies[id] != [] :: d.meta[id].(raw := d.bodies[id])
  }

  // Part of the spool has been read back, the entries have not been looked at.
  ghost predicate Midway(all: map<Id, Message>, back: map<Id, Message>, entries: set<Id>) {
    && (forall id :: id in back ==> id in all && back[id] == all[id] && id !in entries)
    && (forall id :: id in all ==> id in back || id in entries)
  }

  lemma EntriesCover(d: Disk)
    ensures Midway(Intact(d), map[], d.meta.Keys)
  {
  }

  lemma MidwayStep(all: map<Id, Message>, back: map<Id, Message>, entries: set<Id>, id: Id)
    requires Midway(all, back, entries) && id in entries
    ensures id !in back
    ensures id in all ==> Midway(all, back[id := all[id]], entries - {id}) && |back[id := all[id]]| == |back| + 1
    ensures id !in all ==> Midway(all, back, entries - {id})
  {
  }

  // Everything was read back, or as much as the capacity allows.
  ghost predicate AsManyAsFit(all: map<Id, Message>, back: map<Id, Message>, capacity: nat) {
    && (|all| <= capacity ==> back == all)
    && (|all| > capacity ==> |back| == capacity && forall id :: id in back ==> id in all && back[id] == all[id])
  }

  lemma AllRead(all: map<Id, Message>, back: map<Id, Message>, capacity: nat)
    requires Midway(all, back, {}) && |back| <= capacity
    ensures AsManyAsFit(all, back, capacity)
  {
    assert back == all;
  }

  // Metadata without a body, or with an empty one.
  ghost function Broken(d: Disk): set<Id> {
    d.meta.Keys - Intact(d).Keys
  }

  ghost function Cleaned(d: Disk, ids: set<Id>): Disk {
    Disk(d.meta - ids, d.bodies - ids)
  }

  // One reading of the spool: as much as fits came back, and what was found broken on the
  // way was thrown away, all of it unless the reading stopped.
  ghost predicate ReadBack(d: Disk, back: map<Id, Message>, cleaned: set<Id>, capacity: nat) {
    && AsManyAsFit(Intact(d), back, capacity)
    && cleaned <= Broken(d) && (|Intact(d)| <= capacity ==> cleaned == Broken(d))
  }

  // What was broken among the entries looked at so far is gone, and nothing else.
  ghost predicate Swept(before: Disk, d: Disk, entries: set<Id>) {
    entries <= before.meta.Keys && d == Cleaned(before, Broken(before) - entries)
  }

  lemma SweptNothing(d: Disk)
    ensures Swept(d, d, d.meta.Keys)
  {
    assert Broken(d) - d.meta.Keys == {};
    assert Cleaned(d, {}) == d;
  }

  lemma SweptStep(before: Disk, d: Disk, entries: set<Id>, id: Id)
    requires Swept(before, d, entries) && id in entries
    ensures id in d.meta
    ensures id in Intact(before) ==> Swept(before, d, entries - {id})
    ensures id !in Intact(before) ==> Swept(before, Cleaned(d, {id}), entries - {id})
  {
    hide Intact;
    var cleaned, more := Broken(before) - entries, Broken(before) - (entries - {id});
    if id in Intact(before) {
      assert more == cleaned;
    } else {
      assert more == cleaned + {id};
      assert before.meta - cleaned - {id} == before.meta - more;
      assert before.bodies - cleaned - {id} == before.bodies - more;
    }
  }

  // The spool has been read but for these entries.
  ghost predicate Reading(
    before: Disk, d: Disk, s: Schedule, back: map<Id, Message>, entries: set<Id>, capacity: nat)
  {
    && WellNamed(d) && Intact(d) == Intact(before) && Swept(before, d, entries)
    && Holds(s, back) && |back| <= capacity && Midway(Intact(before), back, entries)
  }

  lemma StartsReading(d: Disk, capacity: nat)
    requires WellNamed(d)
    ensures Reading(d, d, EMPTY, map[], d.meta.Keys, capacity)
  {
    hide Intact, Swept, Midway, Holds;
    HoldsNothing();
    EntriesCover(d);
    SweptNothing(d);
  }

  lemma ReadsEntry(
    before: Disk, d: Disk, s: Schedule, back: map<Id, Message>, entries: set<Id>, id: Id, capacity: nat)
    requires Reading(before, d, s, back, entries, capacity) && id in entries
    ensures WellNamed(d) && id in d.meta
  {
    hide Intact, Midway, Holds, WellNamed;
  }

  // A broken one is thrown away.
  lemma ReadsBroken(
    before: Disk, d: Disk, r: Disk, s: Schedule, back: map<Id, Message>, entries: set<Id>, id: Id, capacity: nat)
    requires Reading(before, d, s, back, entries, capacity) && id in entries
    requires id !in Intact(d) && r == Cleaned(d, {id})
    ensures Reading(before, r, s, back, entries - {id}, capacity)
  {
    hide Intact, Swept, Midway, Holds;
    SweptStep(before, d, entries, id);
    MidwayStep(Intact(before), back, entries, id);
    CleanedKeeps(d, id);
  }

  lemma CleanedKeeps(d: Disk, id: Id)
    requires WellNamed(d) && id !in Intact(d)
    ensures WellNamed(Cleaned(d, {id})) && Intact(Cleaned(d, {id})) == Intact(d)
  {
  }

  // An intact one goes to the schedule.
  lemma ReadsOneBack(
    before: Disk, d: Disk, s: Schedule, back: map<Id, Message>, entries: set<Id>, id: Id, m: Message, capacity: nat)
    requires Reading(before, d, s, back, entries, capacity) && id in entries
    requires id in Intact(d) && Intact(d)[id] == m && m.id == id && |s.scheduled| < capacity
    ensures Reading(before, d, Insert(s, m), back[id := m], entries - {id}, capacity)
    ensures |back[id := m]| == |back| + 1
  {
    hide Intact, Swept, Midway, Holds;
    SweptStep(before, d, entries, id);
    MidwayStep(Intact(before), back, entries, id);
    HoldsSize(s, back);
    HoldsOneMore(s, back, m);
  }

  lemma ReadsToTheEnd(before: Disk, d: Disk, s: Schedule, back: map<Id, Message>, capacity: nat)
    returns (cleaned: set<Id>)
    requires Reading(before, d, s, back, {}, capacity)
    ensures Holds(s, back) && Intact(d) == Intact(before)
    ensures d == Cleaned(before, cleaned) && ReadBack(before, back, cleaned, capacity)
  {
    hide Intact, Midway, Holds, WellNamed, Broken, Cleaned, AsManyAsFit;
    AllRead(Intact(before), back, capacity);
    cleaned := Broken(before) - {};
  }

  lemma ReadsUntilFull(
    before: Disk, d: Disk, s: Schedule, back: map<Id, Message>, entries: set<Id>, id: Id, capacity: nat)
    returns (cleaned: set<Id>)
    requires Reading(before, d, s, back, entries, capacity) && id in entries && id in Intact(d)
    requires |s.scheduled| >= capacity
    ensures Holds(s, back) && Intact(d) == Intact(before)
    ensures d == Cleaned(before, cleaned) && ReadBack(before, back, cleaned, capacity)
  {
    hide Intact, Midway, Holds, WellNamed, Broken, Cleaned, AsManyAsFit;
    HoldsSize(s, back);
    Stopped(Intact(before), back, id, entries, capacity);
    cleaned := Broken(before) - entries;
  }

  lemma RestoredIsIntact(d: Disk, id: Id)
    requires id in d.meta && WellNamed(d)
    ensures id in Intact(d) <==> Restored(d, id).Some?
    ensures id in Intact(d) ==> Restored(d, id) == Some(Intact(d)[id]) && Intact(d)[id].id == id
  {
  }

  lemma HoldsNothing()
    ensures Holds(EMPTY, map[])
  {
  }

  lemma HoldsOneMore(s: Schedule, messages: map<Id, Message>, m: Message)
    requires Holds(s, messages) && m.id !in messages
    ensures Holds(Insert(s, m), messages[m.id := m])
  {
    InsertKeepsIndex(s, m);
    forall id | id in messages
      ensures s.byId[id].number < s.next
    {
      KeyOf(s, id);
    }
  }

  // A schedule has one key per message.
  lemma {:induction false} HoldsSize(s: Schedule, messages: map<Id, Message>)
    requires Holds(s, messages)
    ensures |s.scheduled| == |messages|
    decreases |messages|
  {
    hide Exact, Holds;
    if messages == map[] {
      HoldsNobody(s);
    } else {
      var id :| id in messages;
      HoldsLess(s, messages, id);
      assert (messages - {id}).Keys == messages.Keys - {id};
      HoldsSize(Drop(s, id), messages - {id});
      assert Drop(s, id).scheduled.Keys == s.scheduled.Keys - {s.byId[id]};
    }
  }

  lemma HoldsNobody(s: Schedule)
    requires Holds(s, map[])
    ensures s.scheduled == map[]
  {
    if k :| k in s.scheduled {
      assert false;
    }
  }

  lemma HoldsLess(s: Schedule, messages: map<Id, Message>, id: Id)
    requires Holds(s, messages) && id in messages
    ensures id in s.byId && s.byId[id] in s.scheduled && Holds(Drop(s, id), messages - {id})
  {
    DropKeepsIndex(s, id);
  }

  lemma Stopped(all: map<Id, Message>, back: map<Id, Message>, id: Id, entries: set<Id>, capacity: nat)
    requires Midway(all, back, entries)
    requires id in all && id in entries && |back| == capacity
    ensures AsManyAsFit(all, back, capacity) && |all| > capacity
  {
    assert back.Keys + {id} <= all.Keys;
    Subset(back.Keys + {id}, all.Keys);
    assert |back.Keys + {id}| == |back| + 1;
  }

  lemma {:induction false} Subset(a: set<Id>, b: set<Id>)
    requires a <= b
    ensures |a| <= |b|
  {
    assert b == a + (b - a);
    assert |b| == |a| + |b - a|;
  }
}
