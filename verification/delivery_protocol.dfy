// The queue at work: submitters, delivery workers and an operator take turns at
// the lock while files are written and removed one at a time, and the process
// may stop between any two of those steps (src/queue.rs, src/dispatch.rs). Every
// critical section and every file operation is one step. Spooling is on, and no id is
// given out twice.
module DeliveryProtocol {
  import opened Bytes
  import opened Wrappers
  import opened Queues
  import D = DataBody

  datatype Settings = Settings(capacity: nat, maxAttempts: nat, workers: nat)

  // A message on its way into the schedule, under the lock: body file, metadata
  // file, then the schedule itself.
  datatype Stage = WantBody | WantMeta | WantCommit

  // Where a message is. Parked, it is on disk only: the schedule was full before a restart
  // came to it. Out of the queue, its files go metadata first; a restart throws a message
  // out that has no bytes, since it takes an empty body for a lost one.
  datatype Phase =
    | Entering(m: Message, key: Key, stage: Stage)
    | Waiting(m: Message, key: Key)
    | Working(m: Message, worker: nat)
    | Parked
    | Out(metaLeft: bool)

  // What is known of an id: where it is, whether its submission was answered with
  // success, what was last written to disk for it, and since the process started
  // how many delivery rounds it had and whether one delivered it.
  datatype Entry = Entry(phase: Phase, accepted: bool, written: Option<Message>, rounds: nat, delivered: bool)

  datatype State = State(schedule: Schedule, disk: Disk, lock: Option<Id>, entries: map<Id, Entry>)

  datatype Outcome = Delivered | Failed | Deferred

  datatype Step =
    | Submit(m: Message)
    | SpoolBody(id: Id)
    | SpoolMeta(id: Id)
    | Commit(id: Id)
    | TakeUp(id: Id, worker: nat, now: int)
    | Settle(id: Id, outcome: Outcome, recipients: seq<Text>, tried: seq<Id>, now: int, delay: nat)
    | Remove(id: Id)
    | Hurry(id: Id, now: int)
    | DeleteMeta(id: Id)
    | DeleteBody(id: Id)
    | Restart(reloaded: Schedule, back: map<Id, Message>, cleaned: set<Id>)

  // -- the steps ------------------------------------------------------------------

  function Put(s: State, id: Id, e: Entry): State {
    s.(entries := s.entries[id := e])
  }

  // The lock is taken, the index entry made, and the message starts its way.
  function Begin(s: State, m: Message, e: Entry): State {
    Put(s, m.id, e.(phase := Entering(m, Key(m.due, s.schedule.next), WantBody)))
      .(schedule := Reserve(s.schedule, m), lock := Some(m.id))
  }

  function BodySpooled(s: State, id: Id): State
    requires id in s.entries && s.entries[id].phase.Entering?
  {
    var e := s.entries[id];
    Put(s, id, e.(phase := e.phase.(stage := WantMeta))).(disk := Apply(s.disk, WriteBody(id, e.phase.m.raw)))
  }

  function MetaSpooled(s: State, id: Id): State
    requires id in s.entries && s.entries[id].phase.Entering?
  {
    var e := s.entries[id];
    Put(s, id, e.(phase := e.phase.(stage := WantCommit), written := Some(e.phase.m)))
      .(disk := Apply(s.disk, WriteMeta(e.phase.m)))
  }

  function Committed(s: State, id: Id): State
    requires id in s.entries && s.entries[id].phase.Entering?
  {
    var e := s.entries[id];
    Put(s, id, e.(phase := Waiting(e.phase.m, e.phase.key), accepted := true))
      .(schedule := s.schedule.(scheduled := s.schedule.scheduled[e.phase.key := e.phase.m]), lock := None)
  }

  function TakenUp(s: State, id: Id, worker: nat): State
    requires id in s.entries && s.entries[id].phase.Waiting? && s.entries[id].phase.key in s.schedule.scheduled
  {
    var e := s.entries[id];
    var m := e.phase.m.(attempts := e.phase.m.attempts + 1);
    Put(s, id, e.(phase := Working(m, worker), rounds := e.rounds + 1)).(schedule := Take(s.schedule, e.phase.key))
  }

  function Finished(s: State, id: Id, delivered: bool): State
    requires id in s.entries
  {
    var e := s.entries[id];
    Put(s, id, e.(phase := Out(true), delivered := delivered)).(schedule := Landed(s.schedule, id))
  }

  function Requeued(s: State, id: Id, recipients: seq<Text>, tried: seq<Id>, due: int): State
    requires id in s.entries && s.entries[id].phase.Working?
  {
    var e := s.entries[id];
    Begin(s.(schedule := Landed(s.schedule, id)), e.phase.m.(recipients := recipients, tried := tried, due := due), e)
  }

  function Removed(s: State, id: Id): State
    requires id in s.entries && id in s.schedule.byId
  {
    Put(s, id, s.entries[id].(phase := Out(true))).(schedule := Drop(s.schedule, id))
  }

  function Hurried(s: State, id: Id, now: int): State
    requires id in s.entries && s.entries[id].phase.Waiting? && s.entries[id].phase.key in s.schedule.scheduled
  {
    var e := s.entries[id];
    Put(s, id, e.(phase := Waiting(e.phase.m.(due := now), Key(now, s.schedule.next))))
      .(schedule := Hasten(s.schedule, e.phase.key, now))
  }

  function MetaDeleted(s: State, id: Id): State
    requires id in s.entries
  {
    Put(s, id, s.entries[id].(phase := Out(false))).(disk := Apply(s.disk, RemoveMeta(id)))
  }

  function BodyDeleted(s: State, id: Id): State {
    s.(disk := Apply(s.disk, RemoveBody(id)))
  }

  // After a restart an entry is what its spool files make of it: scheduled again, thrown
  // away because the body is empty, or parked on disk when the schedule was full before
  // its turn.
  ghost function Reborn(s: State, reloaded: Schedule, back: map<Id, Message>, cleaned: set<Id>, id: Id): Entry
    requires id in s.entries
  {
    var e := s.entries[id].(rounds := 0, delivered := false);
    if id in back && id in reloaded.byId then e.(phase := Waiting(back[id], reloaded.byId[id]))
    else if id in cleaned then e.(phase := Out(true))
    else if id in s.disk.meta then e.(phase := Parked)
    else e.(phase := Out(false))
  }

  // A submission from the lock to its end.
  function Submitted(s: State, m: Message): State {
    var begun := Begin(s, m, Entry(Out(false), false, None, 0, false));
    Committed(MetaSpooled(BodySpooled(begun, m.id), m.id), m.id)
  }

  ghost function Restarted(s: State, reloaded: Schedule, back: map<Id, Message>, cleaned: set<Id>): State {
    State(reloaded, s.disk, None, map id | id in s.entries :: Reborn(s, reloaded, back, cleaned, id))
  }

  // Another round is due for a message that was deferred.
  predicate TriesAgain(c: Settings, m: Message, outcome: Outcome) {
    outcome == Deferred && m.attempts < c.maxAttempts
  }

  ghost predicate WorkerIdle(s: State, worker: nat) {
    forall id :: id in s.entries && s.entries[id].phase.Working? ==> s.entries[id].phase.worker != worker
  }

  ghost predicate Enabled(c: Settings, s: State, step: Step) {
    match step
    case Submit(m) =>
      s.lock.None? && m.id !in s.entries && m.attempts == 0 < c.maxAttempts
      && |s.schedule.scheduled| < c.capacity
    case SpoolBody(id) => id in s.entries && s.entries[id].phase.Entering? && s.entries[id].phase.stage == WantBody
    case SpoolMeta(id) => id in s.entries && s.entries[id].phase.Entering? && s.entries[id].phase.stage == WantMeta
    case Commit(id) => id in s.entries && s.entries[id].phase.Entering? && s.entries[id].phase.stage == WantCommit
    case TakeUp(id, worker, now) =>
      s.lock.None? && worker < c.workers && WorkerIdle(s, worker)
      && id in s.entries && s.entries[id].phase.Waiting?
      && IsFirst(s.schedule, s.entries[id].phase.key) && s.entries[id].phase.key.due <= now
    case Settle(id, _, _, _, _, _) => s.lock.None? && id in s.entries && s.entries[id].phase.Working?
    case Remove(id) => s.lock.None? && id in s.entries && id in s.schedule.byId
    case Hurry(id, now) =>
      s.lock.None? && id in s.entries && s.entries[id].phase.Waiting?
      && s.entries[id].phase.key in s.schedule.scheduled && s.entries[id].phase.key.due > now
    case DeleteMeta(id) => id in s.entries && s.entries[id].phase == Out(true)
    case DeleteBody(id) => id in s.entries && s.entries[id].phase == Out(false)
    case Restart(reloaded, back, cleaned) => ReadBack(s.disk, back, cleaned, c.capacity) && Holds(reloaded, back)
  }

  ghost function Next(c: Settings, s: State, step: Step): State
    requires Enabled(c, s, step)
  {
    match step
    case Submit(m) => Begin(s, m, Entry(Out(false), false, None, 0, false))
    case SpoolBody(id) => BodySpooled(s, id)
    case SpoolMeta(id) => MetaSpooled(s, id)
    case Commit(id) => Committed(s, id)
    case TakeUp(id, worker, now) => TakenUp(s, id, worker)
    case Settle(id, outcome, recipients, tried, now, delay) =>
      if TriesAgain(c, s.entries[id].phase.m, outcome) then Requeued(s, id, recipients, tried, now + delay)
      else Finished(s, id, outcome == Delivered)
    case Remove(id) => Removed(s, id)
    case Hurry(id, now) => Hurried(s, id, now)
    case DeleteMeta(id) => MetaDeleted(s, id)
    case DeleteBody(id) => BodyDeleted(s, id)
    case Restart(reloaded, back, cleaned) => Restarted(s, reloaded, back, cleaned)
  }

  // -- what every step keeps -----------------------------------------------------------

  // A message that will be sent again, or is being sent, against its limits: its
  // own name, the body that is on disk, and no more rounds than attempts.
  ghost predicate Sound(id: Id, e: Entry, m: Message, limit: int) {
    && m.id == id && m.attempts <= limit && e.rounds <= m.attempts && !e.delivered
    && (e.written.Some? ==> m.raw == e.written.value.raw)
  }

  ghost predicate EntryOk(c: Settings, id: Id, e: Entry) {
    && (e.written.Some? ==> Sound(id, e.(rounds := 0, delivered := false), e.written.value, c.maxAttempts - 1))
    && match e.phase
       case Entering(m, key, stage) =>
         && Sound(id, e, m, c.maxAttempts - 1) && key.due == m.due
         && (e.accepted ==> e.written.Some?) && (stage == WantCommit ==> e.written == Some(m))
       case Waiting(m, key) => Sound(id, e, m, c.maxAttempts - 1) && key.due == m.due && e.written.Some?
       case Working(m, worker) => Sound(id, e, m, c.maxAttempts) && worker < c.workers && e.written.Some?
       case Parked => e.written.Some? && e.rounds == 0 && !e.delivered
       case Out(metaLeft) => e.rounds <= c.maxAttempts && (metaLeft ==> e.written.Some?)
  }

  // The files of one id: metadata is there exactly from its first write until it is
  // removed, it is what was last written, and its body is with it.
  ghost predicate FilesOk(d: Disk, id: Id, e: Entry) {
    && (id in d.meta <==> e.written.Some? && e.phase != Out(false))
    && (id in d.meta ==> d.meta[id] == e.written.value.(raw := []) && d.meta[id].id == id
                         && id in d.bodies && d.bodies[id] == e.written.value.raw)
    && (e.phase.Entering? && e.phase.stage != WantBody ==> id in d.bodies && d.bodies[id] == e.phase.m.raw)
  }

  ghost predicate EntriesOk(c: Settings, s: State) {
    && (forall id :: id in s.entries ==> EntryOk(c, id, s.entries[id]) && FilesOk(s.disk, id, s.entries[id]))
    && (forall id :: id in s.disk.meta ==> id in s.entries)
  }

  predicate Indexed(p: Phase) {
    p.Entering? || p.Waiting?
  }

  // The schedule, the index and the in-flight set show exactly the phases.
  ghost predicate Mirrored(s: State) {
    && (forall id :: id in s.schedule.byId <==> id in s.entries && Indexed(s.entries[id].phase))
    && (forall id :: id in s.schedule.byId ==> s.schedule.byId[id] == s.entries[id].phase.key)
    && (forall id :: id in s.entries && s.entries[id].phase.Waiting? ==>
      s.entries[id].phase.key in s.schedule.scheduled
      && s.schedule.scheduled[s.entries[id].phase.key] == s.entries[id].phase.m)
    && (forall k :: k in s.schedule.scheduled ==>
      s.schedule.scheduled[k].id in s.entries
      && s.entries[s.schedule.scheduled[k].id].phase == Waiting(s.schedule.scheduled[k], k))
    && (forall id :: id in s.schedule.inFlight <==> id in s.entries && s.entries[id].phase.Working?)
    && (forall id :: id in s.schedule.byId ==> s.schedule.byId[id].number < s.schedule.next)
    && (forall a, b :: a in s.schedule.byId && b in s.schedule.byId && a != b ==>
      s.schedule.byId[a].number != s.schedule.byId[b].number)
  }

  // At most one thread is inside the lock, each worker has one message at a time.
  ghost predicate Exclusive(s: State) {
    && (forall id :: id in s.entries && s.entries[id].phase.Entering? ==> s.lock == Some(id))
    && (s.lock.Some? ==> s.lock.value in s.entries && s.entries[s.lock.value].phase.Entering?)
    && (forall a, b ::
      a in s.entries && b in s.entries && a != b && s.entries[a].phase.Working? && s.entries[b].phase.Working? ==>
      s.entries[a].phase.worker != s.entries[b].phase.worker)
  }

  // Requeueing skips the capacity check, so the workers' messages come on top.
  ghost predicate SizeOk(c: Settings, s: State) {
    |s.schedule.scheduled| + |s.schedule.inFlight| + (if s.lock.Some? then 1 else 0) <= c.capacity + c.workers
  }

  ghost predicate Invariant(c: Settings, s: State) {
    EntriesOk(c, s) && Mirrored(s) && Exclusive(s) && SizeOk(c, s)
  }

  const START: State := State(EMPTY, Disk(map[], map[]), None, map[])

  lemma Initially(c: Settings)
    ensures Invariant(c, START)
  {
  }

  // -- entries and files, one step at a time

  // Nothing on disk changed but the files of one id.
  ghost predicate SameElsewhere(a: Disk, b: Disk, id: Id) {
    forall other :: other != id ==>
      && (other in a.meta <==> other in b.meta) && (other in a.meta ==> a.meta[other] == b.meta[other])
      && (other in a.bodies <==> other in b.bodies) && (other in a.bodies ==> a.bodies[other] == b.bodies[other])
  }

  // One entry and its files are replaced: only they have to be looked at.
  lemma PutKeeps(c: Settings, s: State, r: State, id: Id, e: Entry)
    requires EntriesOk(c, s) && EntryOk(c, id, e) && FilesOk(r.disk, id, e) && SameElsewhere(s.disk, r.disk, id)
    requires r.entries == s.entries[id := e]
    ensures EntriesOk(c, r)
  {
    forall other | other in r.entries
      ensures EntryOk(c, other, r.entries[other]) && FilesOk(r.disk, other, r.entries[other])
    {
      if other != id {
        assert other in s.entries;
      }
    }
  }

  lemma EntryOf(c: Settings, s: State, id: Id)
    requires EntriesOk(c, s) && id in s.entries
    ensures EntryOk(c, id, s.entries[id]) && FilesOk(s.disk, id, s.entries[id])
  {
  }

  lemma SubmitEntries(c: Settings, s: State, m: Message)
    requires EntriesOk(c, s) && m.id !in s.entries && m.attempts == 0 < c.maxAttempts
    ensures EntriesOk(c, Begin(s, m, Entry(Out(false), false, None, 0, false)))
  {
    var r := Begin(s, m, Entry(Out(false), false, None, 0, false));
    PutKeeps(c, s, r, m.id, r.entries[m.id]);
  }

  lemma SpoolBodyEntries(c: Settings, s: State, id: Id)
    requires EntriesOk(c, s) && id in s.entries && s.entries[id].phase.Entering?
      && s.entries[id].phase.stage == WantBody
    ensures EntriesOk(c, BodySpooled(s, id))
  {
    EntryOf(c, s, id);
    PutKeeps(c, s, BodySpooled(s, id), id, BodySpooled(s, id).entries[id]);
  }

  lemma SpoolMetaEntries(c: Settings, s: State, id: Id)
    requires EntriesOk(c, s) && id in s.entries && s.entries[id].phase.Entering?
      && s.entries[id].phase.stage == WantMeta
    ensures EntriesOk(c, MetaSpooled(s, id))
  {
    EntryOf(c, s, id);
    PutKeeps(c, s, MetaSpooled(s, id), id, MetaSpooled(s, id).entries[id]);
  }

  lemma CommitEntries(c: Settings, s: State, id: Id)
    requires EntriesOk(c, s) && id in s.entries && s.entries[id].phase.Entering?
      && s.entries[id].phase.stage == WantCommit
    ensures EntriesOk(c, Committed(s, id))
  {
    EntryOf(c, s, id);
    PutKeeps(c, s, Committed(s, id), id, Committed(s, id).entries[id]);
  }

  lemma TakeUpEntries(c: Settings, s: State, id: Id, worker: nat)
    requires EntriesOk(c, s) && id in s.entries && s.entries[id].phase.Waiting? && worker < c.workers
    requires s.entries[id].phase.key in s.schedule.scheduled
    ensures EntriesOk(c, TakenUp(s, id, worker))
  {
    EntryOf(c, s, id);
    PutKeeps(c, s, TakenUp(s, id, worker), id, TakenUp(s, id, worker).entries[id]);
  }

  lemma FinishEntries(c: Settings, s: State, id: Id, delivered: bool)
    requires EntriesOk(c, s) && id in s.entries && s.entries[id].phase.Working?
    ensures EntriesOk(c, Finished(s, id, delivered))
  {
    EntryOf(c, s, id);
    PutKeeps(c, s, Finished(s, id, delivered), id, Finished(s, id, delivered).entries[id]);
  }

  lemma RequeueEntries(c: Settings, s: State, id: Id, recipients: seq<Text>, tried: seq<Id>, due: int)
    requires EntriesOk(c, s) && id in s.entries && s.entries[id].phase.Working?
    requires s.entries[id].phase.m.attempts < c.maxAttempts
    ensures EntriesOk(c, Requeued(s, id, recipients, tried, due))
  {
    EntryOf(c, s, id);
    var r := Requeued(s, id, recipients, tried, due);
    PutKeeps(c, s, r, id, r.entries[id]);
  }

  lemma RemoveEntries(c: Settings, s: State, id: Id)
    requires EntriesOk(c, s) && id in s.entries && id in s.schedule.byId && s.entries[id].phase.Waiting?
    ensures EntriesOk(c, Removed(s, id))
  {
    EntryOf(c, s, id);
    PutKeeps(c, s, Removed(s, id), id, Removed(s, id).entries[id]);
  }

  lemma HurryEntries(c: Settings, s: State, id: Id, now: int)
    requires EntriesOk(c, s) && id in s.entries && s.entries[id].phase.Waiting?
    requires s.entries[id].phase.key in s.schedule.scheduled
    ensures EntriesOk(c, Hurried(s, id, now))
  {
    EntryOf(c, s, id);
    PutKeeps(c, s, Hurried(s, id, now), id, Hurried(s, id, now).entries[id]);
  }

  lemma DeleteMetaEntries(c: Settings, s: State, id: Id)
    requires EntriesOk(c, s) && id in s.entries && s.entries[id].phase == Out(true)
    ensures EntriesOk(c, MetaDeleted(s, id))
  {
    EntryOf(c, s, id);
    PutKeeps(c, s, MetaDeleted(s, id), id, MetaDeleted(s, id).entries[id]);
  }

  lemma DeleteBodyEntries(c: Settings, s: State, id: Id)
    requires EntriesOk(c, s) && id in s.entries && s.entries[id].phase == Out(false)
    ensures EntriesOk(c, BodyDeleted(s, id))
  {
    EntryOf(c, s, id);
    PutKeeps(c, s, BodyDeleted(s, id), id, s.entries[id]);
  }

  // The spool can give back exactly the messages that have metadata and a body of some
  // bytes.
  lemma SpoolIsIntact(c: Settings, s: State, id: Id)
    requires EntriesOk(c, s) && id in s.entries
    ensures id in s.disk.meta <==> s.entries[id].written.Some? && s.entries[id].phase != Out(false)
    ensures id in Intact(s.disk) <==> id in s.disk.meta && s.entries[id].written.value.raw != []
    ensures id in Intact(s.disk) ==> Intact(s.disk)[id] == s.entries[id].written.value
  {
    EntryOf(c, s, id);
  }

  // What a restart schedules is what the spool holds, what it throws away cannot be read.
  lemma BackIsIntact(d: Disk, back: map<Id, Message>, cleaned: set<Id>, capacity: nat, id: Id)
    requires ReadBack(d, back, cleaned, capacity)
    ensures id in back ==> id in Intact(d) && back[id] == Intact(d)[id]
    ensures id in cleaned ==> id in d.meta && id !in Intact(d)
  {
    hide Intact;
  }

  lemma DueBack(reloaded: Schedule, back: map<Id, Message>, id: Id)
    requires Holds(reloaded, back) && id in back
    ensures id in reloaded.byId && reloaded.byId[id].due == back[id].due
  {
    KeyOf(reloaded, id);
    DueOf(reloaded, id);
  }

  lemma RebornIsOk(c: Settings, s: State, reloaded: Schedule, back: map<Id, Message>, cleaned: set<Id>, id: Id)
    requires EntriesOk(c, s) && ReadBack(s.disk, back, cleaned, c.capacity) && Holds(reloaded, back)
      && id in s.entries
    ensures EntryOk(c, id, Reborn(s, reloaded, back, cleaned, id))
    ensures FilesOk(s.disk, id, Reborn(s, reloaded, back, cleaned, id))
  {
    hide ReadBack, EntriesOk, Holds, Intact;
    EntryOf(c, s, id);
    SpoolIsIntact(c, s, id);
    BackIsIntact(s.disk, back, cleaned, c.capacity, id);
    if id in back {
      DueBack(reloaded, back, id);
    }
  }

  lemma RestartEntries(c: Settings, s: State, reloaded: Schedule, back: map<Id, Message>, cleaned: set<Id>)
    requires EntriesOk(c, s) && ReadBack(s.disk, back, cleaned, c.capacity) && Holds(reloaded, back)
    ensures EntriesOk(c, Restarted(s, reloaded, back, cleaned))
  {
    hide ReadBack, EntryOk, FilesOk, Holds, Intact, Reborn;
    forall id | id in s.entries
      ensures EntryOk(c, id, Reborn(s, reloaded, back, cleaned, id))
           && FilesOk(s.disk, id, Reborn(s, reloaded, back, cleaned, id))
    {
      RebornIsOk(c, s, reloaded, back, cleaned, id);
    }
  }

  // -- schedule and index, one step at a time

  lemma BeginMirror(s: State, m: Message, e: Entry)
    requires Mirrored(s) && m.id !in s.schedule.byId && m.id !in s.schedule.inFlight
    ensures Mirrored(Begin(s, m, e))
  {
  }

  lemma StageMirror(s: State, r: State, id: Id)
    requires Mirrored(s) && r.schedule == s.schedule && id in s.entries && s.entries[id].phase.Entering?
    requires r.entries.Keys == s.entries.Keys
    requires forall other :: other in s.entries && other != id ==> r.entries[other] == s.entries[other]
    requires r.entries[id].phase.Entering? && r.entries[id].phase.key == s.entries[id].phase.key
    ensures Mirrored(r)
  {
  }

  lemma CommitMirror(s: State, id: Id)
    requires Mirrored(s) && id in s.entries && s.entries[id].phase.Entering? && s.entries[id].phase.m.id == id
    ensures Mirrored(Committed(s, id))
  {
  }

  lemma TakeUpMirror(s: State, id: Id, worker: nat)
    requires Mirrored(s) && id in s.entries && s.entries[id].phase.Waiting? && s.entries[id].phase.m.id == id
    ensures Mirrored(TakenUp(s, id, worker))
  {
  }

  lemma FinishMirror(s: State, id: Id, delivered: bool)
    requires Mirrored(s) && id in s.entries && s.entries[id].phase.Working?
    ensures Mirrored(Finished(s, id, delivered))
  {
  }

  lemma RequeueMirror(s: State, id: Id, recipients: seq<Text>, tried: seq<Id>, due: int)
    requires Mirrored(s) && id in s.entries && s.entries[id].phase.Working? && s.entries[id].phase.m.id == id
    ensures Mirrored(Requeued(s, id, recipients, tried, due))
  {
  }

  lemma RemoveMirror(s: State, id: Id)
    requires Mirrored(s) && id in s.entries && s.entries[id].phase.Waiting? && s.entries[id].phase.m.id == id
    ensures id in s.schedule.byId && Mirrored(Removed(s, id))
  {
  }

  lemma HurryMirror(s: State, id: Id, now: int)
    requires Mirrored(s) && id in s.entries && s.entries[id].phase.Waiting? && s.entries[id].phase.m.id == id
    ensures Mirrored(Hurried(s, id, now))
  {
  }

  lemma DeleteMirror(s: State, id: Id)
    requires Mirrored(s) && id in s.entries && s.entries[id].phase.Out?
    ensures Mirrored(MetaDeleted(s, id)) && Mirrored(BodyDeleted(s, id))
  {
  }

  lemma SpoolIsKnown(c: Settings, s: State, back: map<Id, Message>, cleaned: set<Id>)
    requires EntriesOk(c, s) && ReadBack(s.disk, back, cleaned, c.capacity)
    ensures back.Keys <= s.entries.Keys
  {
    hide ReadBack;
    forall id | id in back
      ensures id in s.entries
    {
      BackIsIntact(s.disk, back, cleaned, c.capacity, id);
    }
  }

  lemma RestartMirror(s: State, reloaded: Schedule, back: map<Id, Message>, cleaned: set<Id>)
    requires back.Keys <= s.entries.Keys && Holds(reloaded, back)
    ensures Mirrored(Restarted(s, reloaded, back, cleaned))
  {
    hide Intact;
  }

  // -- the lock, the workers and the sizes

  lemma ExclusivePut(s: State, r: State, id: Id, e: Entry)
    requires Exclusive(s) && r.entries == s.entries[id := e]
    requires s.lock.None? || s.lock == Some(id)
    requires r.lock == if e.phase.Entering? then Some(id) else None
    requires e.phase.Working? ==>
               forall other :: other in s.entries && other != id && s.entries[other].phase.Working? ==>
                 s.entries[other].phase.worker != e.phase.worker
    ensures Exclusive(r)
  {
  }

  lemma ExclusiveStep(c: Settings, s: State, step: Step)
    requires Enabled(c, s, step) && Exclusive(s) && Mirrored(s) && EntriesOk(c, s)
    ensures Exclusive(Next(c, s, step))
  {
    hide Exclusive, EntriesOk, Mirrored, ReadBack, Holds, Restarted, TriesAgain, IsFirst;
    var r := Next(c, s, step);
    match step
    case Submit(m) => ExclusivePut(s, r, m.id, r.entries[m.id]);
    case SpoolBody(id) =>
      LockHolder(s, id);
      ExclusivePut(s, r, id, r.entries[id]);
    case SpoolMeta(id) =>
      LockHolder(s, id);
      ExclusivePut(s, r, id, r.entries[id]);
    case Commit(id) =>
      LockHolder(s, id);
      ExclusivePut(s, r, id, r.entries[id]);
    case TakeUp(id, worker, now) => ExclusivePut(s, r, id, r.entries[id]);
    case Settle(id, outcome, recipients, tried, now, delay) =>
      SettledIsOwn(c, s, id);
      ExclusivePut(s, r, id, r.entries[id]);
    case Remove(id) => ExclusivePut(s, r, id, r.entries[id]);
    case Hurry(id, now) => ExclusivePut(s, r, id, r.entries[id]);
    case DeleteMeta(id) => OutIsFree(s, r, id);
    case DeleteBody(id) => SameLockAndEntries(s, r);
    case Restart(reloaded, back, cleaned) => RestartFree(s, reloaded, back, cleaned);
  }

  lemma LockHolder(s: State, id: Id)
    requires Exclusive(s) && id in s.entries && s.entries[id].phase.Entering?
    ensures s.lock == Some(id)
  {
  }

  lemma SettledIsOwn(c: Settings, s: State, id: Id)
    requires EntriesOk(c, s) && id in s.entries && s.entries[id].phase.Working?
    ensures s.entries[id].phase.m.id == id
  {
    EntryOf(c, s, id);
  }

  lemma OutIsFree(s: State, r: State, id: Id)
    requires Exclusive(s) && id in s.entries && s.entries[id].phase.Out?
    requires r.lock == s.lock && exists e: Entry :: e.phase.Out? && r.entries == s.entries[id := e]
    ensures Exclusive(r)
  {
  }

  lemma SameLockAndEntries(s: State, r: State)
    requires Exclusive(s) && r.lock == s.lock && r.entries == s.entries
    ensures Exclusive(r)
  {
  }

  lemma RestartFree(s: State, reloaded: Schedule, back: map<Id, Message>, cleaned: set<Id>)
    ensures Exclusive(Restarted(s, reloaded, back, cleaned))
  {
    hide Intact;
  }

  lemma {:induction false} OnePerWorker(s: State, ids: set<Id>, n: nat)
    requires forall id :: id in ids ==>
                            id in s.entries && s.entries[id].phase.Working? && s.entries[id].phase.worker < n
    requires forall a, b :: a in ids && b in ids && a != b ==> s.entries[a].phase.worker != s.entries[b].phase.worker
    ensures |ids| <= n
  {
    if n == 0 {
      assert ids == {};
    } else if id :| id in ids && s.entries[id].phase.worker == n - 1 {
      OnePerWorker(s, ids - {id}, n - 1);
    } else {
      OnePerWorker(s, ids, n - 1);
    }
  }

  // No more messages are in flight than there are workers.
  lemma InFlightSize(c: Settings, s: State)
    requires EntriesOk(c, s) && Mirrored(s) && Exclusive(s)
    ensures |s.schedule.inFlight| <= c.workers
  {
    forall id | id in s.schedule.inFlight
      ensures s.entries[id].phase.worker < c.workers
    {
      EntryOf(c, s, id);
    }
    OnePerWorker(s, s.schedule.inFlight, c.workers);
  }

  lemma MapGrows(m: map<Key, Message>, k: Key, v: Message)
    ensures |m[k := v]| <= |m| + 1 && (k !in m ==> |m[k := v]| == |m| + 1)
    ensures k in m ==> |m - {k}| == |m| - 1
  {
    assert m[k := v].Keys == m.Keys + {k};
    assert (m - {k}).Keys == m.Keys - {k};
    if k in m {
      assert m.Keys == (m - {k}).Keys + {k};
    }
  }

  lemma TakeUpSize(c: Settings, s: State, id: Id, worker: nat)
    requires Mirrored(s) && SizeOk(c, s) && s.lock.None? && id in s.entries && s.entries[id].phase.Waiting?
    ensures SizeOk(c, TakenUp(s, id, worker))
  {
    MapGrows(s.schedule.scheduled, s.entries[id].phase.key, s.entries[id].phase.m);
  }

  lemma HurrySize(c: Settings, s: State, id: Id, now: int)
    requires Mirrored(s) && SizeOk(c, s) && s.lock.None? && id in s.entries && s.entries[id].phase.Waiting?
    ensures SizeOk(c, Hurried(s, id, now))
  {
    var p, next := s.entries[id].phase, Key(now, s.schedule.next);
    MapGrows(s.schedule.scheduled, p.key, p.m);
    MapGrows(s.schedule.scheduled - {p.key}, next, p.m.(due := now));
  }

  lemma RemoveSize(c: Settings, s: State, id: Id)
    requires Mirrored(s) && SizeOk(c, s) && id in s.entries && id in s.schedule.byId && s.entries[id].phase.Waiting?
    ensures SizeOk(c, Removed(s, id))
  {
    MapGrows(s.schedule.scheduled, s.schedule.byId[id], s.entries[id].phase.m);
  }

  lemma SettleSize(c: Settings, s: State, r: State, id: Id)
    requires Mirrored(s) && SizeOk(c, s) && s.lock.None? && id in s.entries && s.entries[id].phase.Working?
    requires r.schedule.scheduled == s.schedule.scheduled && r.schedule.inFlight == s.schedule.inFlight - {id}
    ensures SizeOk(c, r)
  {
    LandsOne(s.schedule.inFlight, id);
  }

  lemma SizeStep(c: Settings, s: State, step: Step)
    requires Invariant(c, s) && Enabled(c, s, step)
    ensures SizeOk(c, Next(c, s, step))
  {
    hide EntriesOk, Mirrored, Exclusive;
    match step
    case Submit(m) => InFlightSize(c, s);
    case SpoolBody(id) =>
    case SpoolMeta(id) =>
    case Commit(id) =>
      LockHolder(s, id);
      var p := s.entries[id].phase;
      MapGrows(s.schedule.scheduled, p.key, p.m);
    case TakeUp(id, worker, now) => TakeUpSize(c, s, id, worker);
    case Settle(id, outcome, recipients, tried, now, delay) =>
      SettledIsOwn(c, s, id);
      SettleSize(c, s, Next(c, s, step), id);
    case Remove(id) =>
      RemovedWaits(s, id);
      RemoveSize(c, s, id);
    case Hurry(id, now) => HurrySize(c, s, id, now);
    case DeleteMeta(id) =>
    case DeleteBody(id) =>
    case Restart(reloaded, back, _) => RestartSize(s.disk, reloaded, back, step.cleaned, c.capacity);
  }

  lemma RestartSize(d: Disk, reloaded: Schedule, back: map<Id, Message>, cleaned: set<Id>, capacity: nat)
    requires ReadBack(d, back, cleaned, capacity) && Holds(reloaded, back)
    ensures |reloaded.scheduled| <= capacity && reloaded.inFlight == {}
  {
    hide Intact;
    HoldsSize(reloaded, back);
  }

  // What an operator can remove is waiting: nobody else is inside the lock.
  lemma RemovedWaits(s: State, id: Id)
    requires Mirrored(s) && Exclusive(s) && s.lock.None? && id in s.entries && id in s.schedule.byId
    ensures s.entries[id].phase.Waiting?
  {
  }

  lemma LandsOne(inFlight: set<Id>, id: Id)
    requires id in inFlight
    ensures |inFlight - {id}| == |inFlight| - 1
  {
  }

  // -- every run ---------------------------------------------------------------------------

  lemma EntriesStep(c: Settings, s: State, step: Step)
    requires Invariant(c, s) && Enabled(c, s, step)
    ensures EntriesOk(c, Next(c, s, step))
  {
    hide EntriesOk, Mirrored, Exclusive, SizeOk;
    match step
    case Submit(m) => SubmitEntries(c, s, m);
    case SpoolBody(id) => SpoolBodyEntries(c, s, id);
    case SpoolMeta(id) => SpoolMetaEntries(c, s, id);
    case Commit(id) => CommitEntries(c, s, id);
    case TakeUp(id, worker, now) => TakeUpEntries(c, s, id, worker);
    case Settle(id, outcome, recipients, tried, now, delay) =>
      if TriesAgain(c, s.entries[id].phase.m, outcome) {
        RequeueEntries(c, s, id, recipients, tried, now + delay);
      } else {
        FinishEntries(c, s, id, outcome == Delivered);
      }
    case Remove(id) =>
      RemovedWaits(s, id);
      RemoveEntries(c, s, id);
    case Hurry(id, now) => HurryEntries(c, s, id, now);
    case DeleteMeta(id) => DeleteMetaEntries(c, s, id);
    case DeleteBody(id) => DeleteBodyEntries(c, s, id);
    case Restart(reloaded, back, cleaned) => RestartEntries(c, s, reloaded, back, cleaned);
  }

  lemma NeverIndexed(s: State, id: Id)
    requires Mirrored(s) && id !in s.entries
    ensures id !in s.schedule.byId && id !in s.schedule.inFlight
  {
  }

  lemma OwnName(c: Settings, s: State, id: Id)
    requires EntriesOk(c, s) && id in s.entries && !s.entries[id].phase.Out? && !s.entries[id].phase.Parked?
    ensures s.entries[id].phase.m.id == id
  {
    EntryOf(c, s, id);
  }

  lemma MirrorStep(c: Settings, s: State, step: Step)
    requires Invariant(c, s) && Enabled(c, s, step)
    ensures Mirrored(Next(c, s, step))
  {
    hide EntriesOk, Mirrored, Exclusive, SizeOk;
    var r := Next(c, s, step);
    match step
    case Submit(m) =>
      NeverIndexed(s, m.id);
      BeginMirror(s, m, Entry(Out(false), false, None, 0, false));
    case SpoolBody(id) => StageMirror(s, r, id);
    case SpoolMeta(id) => StageMirror(s, r, id);
    case Commit(id) =>
      OwnName(c, s, id);
      CommitMirror(s, id);
    case TakeUp(id, worker, now) =>
      OwnName(c, s, id);
      TakeUpMirror(s, id, worker);
    case Settle(id, outcome, recipients, tried, now, delay) =>
      OwnName(c, s, id);
      if TriesAgain(c, s.entries[id].phase.m, outcome) {
        RequeueMirror(s, id, recipients, tried, now + delay);
      } else {
        FinishMirror(s, id, outcome == Delivered);
      }
    case Remove(id) =>
      RemovedWaits(s, id);
      OwnName(c, s, id);
      RemoveMirror(s, id);
    case Hurry(id, now) =>
      OwnName(c, s, id);
      HurryMirror(s, id, now);
    case DeleteMeta(id) => DeleteMirror(s, id);
    case DeleteBody(id) => DeleteMirror(s, id);
    case Restart(reloaded, back, cleaned) =>
      SpoolIsKnown(c, s, back, cleaned);
      RestartMirror(s, reloaded, back, cleaned);
  }

  // Each step, whoever takes it and whenever, keeps the whole invariant.
  lemma StepKeeps(c: Settings, s: State, step: Step)
    requires Invariant(c, s) && Enabled(c, s, step)
    ensures Invariant(c, Next(c, s, step))
  {
    hide EntriesOk, Mirrored, Exclusive, SizeOk, Next, Enabled;
    EntriesStep(c, s, step);
    MirrorStep(c, s, step);
    ExclusiveStep(c, s, step);
    SizeStep(c, s, step);
  }

  // An interleaving of any number of threads, restarts included.
  ghost predicate IsRun(c: Settings, states: seq<State>, steps: seq<Step>) {
    && |states| == |steps| + 1
    && states[0] == START
    && forall t :: 0 <= t < |steps| ==> Enabled(c, states[t], steps[t]) && states[t + 1] == Next(c, states[t], steps[t])
  }

  lemma {:induction false} RunKeeps(c: Settings, states: seq<State>, steps: seq<Step>, t: nat)
    requires IsRun(c, states, steps) && t <= |steps|
    ensures |states| == |steps| + 1 && Invariant(c, states[t])
  {
    hide Invariant, Enabled, Next;
    if t == 0 {
      Initially(c);
    } else {
      RunKeeps(c, states, steps, t - 1);
      assert Enabled(c, states[t - 1], steps[t - 1]) && states[t - 1 + 1] == Next(c, states[t - 1], steps[t - 1]);
      StepKeeps(c, states[t - 1], steps[t - 1]);
    }
  }

  // An accepted message is in exactly one place: waiting in the schedule, entering it
  // again under the lock, in flight with a worker, parked on disk, or out of the queue.
  lemma {:induction false} OnePlace(c: Settings, states: seq<State>, steps: seq<Step>, t: nat, id: Id)
    requires IsRun(c, states, steps) && t <= |steps|
    requires id in states[t].entries && states[t].entries[id].accepted
    ensures var s := states[t];
      var scheduled := exists k :: k in s.schedule.scheduled && s.schedule.scheduled[k].id == id;
      var entering, flying := s.lock == Some(id), id in s.schedule.inFlight;
      var out := s.entries[id].phase.Out? || s.entries[id].phase.Parked?;
      && (scheduled || entering || flying || out) && (s.entries[id].phase.Parked? ==> id in s.disk.meta)
      && !(scheduled && entering) && !(scheduled && flying) && !(scheduled && out)
      && !(entering && flying) && !(entering && out) && !(flying && out)
  {
    RunKeeps(c, states, steps, t);
    var s := states[t];
    EntryOf(c, s, id);
    if s.entries[id].phase.Waiting? {
      assert s.schedule.scheduled[s.entries[id].phase.key].id == id;
    }
  }

  // Depth and in-flight never pass the capacity by more than the number of workers.
  lemma QueueIsBounded(c: Settings, states: seq<State>, steps: seq<Step>, t: nat)
    requires IsRun(c, states, steps) && t <= |steps|
    ensures |states[t].schedule.scheduled| + |states[t].schedule.inFlight| <= c.capacity + c.workers
    ensures |states[t].schedule.inFlight| <= c.workers
  {
    RunKeeps(c, states, steps, t);
    hide EntriesOk, Mirrored, Exclusive;
    InFlightSize(c, states[t]);
  }

  // How often a worker took the message up since the process started.
  ghost function TakenUpTimes(steps: seq<Step>, id: Id): nat {
    if steps == [] then 0
    else
      var n := |steps| - 1;
      if steps[n].Restart? then 0
      else TakenUpTimes(steps[..n], id) + if steps[n].TakeUp? && steps[n].id == id then 1 else 0
  }

  lemma {:induction false} RoundsAreCounted(c: Settings, states: seq<State>, steps: seq<Step>, t: nat, id: Id)
    requires IsRun(c, states, steps) && t <= |steps|
    ensures TakenUpTimes(steps[..t], id) == if id in states[t].entries then states[t].entries[id].rounds else 0
  {
    hide Invariant, Next, Enabled;
    if t > 0 {
      var s, r, step := states[t - 1], states[t], steps[t - 1];
      assert steps[..t][..t - 1] == steps[..t - 1];
      RoundsAreCounted(c, states, steps, t - 1, id);
      RunKeeps(c, states, steps, t - 1);
      assert r == Next(c, s, step) && Enabled(c, s, step);
      if step.Settle? {
        SettlesItself(c, s, step);
      }
      RoundStep(c, s, step, id);
    }
  }

  lemma SettlesItself(c: Settings, s: State, step: Step)
    requires Invariant(c, s) && Enabled(c, s, step) && step.Settle?
    ensures s.entries[step.id].phase.m.id == step.id
  {
    EntryOf(c, s, step.id);
  }

  lemma {:induction false} RoundStep(c: Settings, s: State, step: Step, id: Id)
    requires Enabled(c, s, step) && (step.Settle? ==> s.entries[step.id].phase.m.id == step.id)
    ensures var r := Next(c, s, step);
      var before := if id in s.entries then s.entries[id].rounds else 0;
      var behind := if id in r.entries then r.entries[id].rounds else 0;
      behind == if step.Restart? then 0 else before + if step.TakeUp? && step.id == id then 1 else 0
  {
    hide Reserve, Insert, Take, Landed, Drop, Hasten, Apply, ReadBack, Holds, IsFirst, WorkerIdle;
  }

  // Whatever waits has attempts left, and since the process started no message was taken
  // up more often than it is allowed attempts.
  lemma AttemptsAreBounded(c: Settings, states: seq<State>, steps: seq<Step>, t: nat)
    requires IsRun(c, states, steps) && t <= |steps|
    ensures forall k :: k in states[t].schedule.scheduled ==> states[t].schedule.scheduled[k].attempts < c.maxAttempts
    ensures forall id :: TakenUpTimes(steps[..t], id) <= c.maxAttempts
  {
    hide IsRun, TakenUpTimes;
    RunKeeps(c, states, steps, t);
    var s := states[t];
    forall id
      ensures TakenUpTimes(steps[..t], id) <= c.maxAttempts
    {
      RoundsAreCounted(c, states, steps, t, id);
      if id in s.entries {
        EntryOf(c, s, id);
      }
    }
    forall k | k in s.schedule.scheduled
      ensures s.schedule.scheduled[k].attempts < c.maxAttempts
    {
      EntryOf(c, s, s.schedule.scheduled[k].id);
    }
  }

  // No step delivers a message that this process has delivered already.
  lemma DeliveredOnce(c: Settings, states: seq<State>, steps: seq<Step>, t: nat)
    requires IsRun(c, states, steps) && t < |steps|
    requires steps[t].Settle? && steps[t].outcome == Delivered
    ensures steps[t].id in states[t].entries && !states[t].entries[steps[t].id].delivered
    ensures |states| == |steps| + 1 && steps[t].id in states[t + 1].entries
    ensures states[t + 1].entries[steps[t].id].delivered && states[t + 1].entries[steps[t].id].phase.Out?
  {
    hide IsRun, Invariant, Enabled, Next, EntriesOk;
    RunStep(c, states, steps, t);
    InvariantEntries(c, states[t]);
    DeliveryDelivers(c, states[t], steps[t]);
  }

  lemma DeliveryDelivers(c: Settings, s: State, step: Step)
    requires Enabled(c, s, step) && EntriesOk(c, s) && step.Settle? && step.outcome == Delivered
    ensures step.id in s.entries && !s.entries[step.id].delivered
    ensures step.id in Next(c, s, step).entries
    ensures Next(c, s, step).entries[step.id].delivered && Next(c, s, step).entries[step.id].phase.Out?
  {
    EntryOf(c, s, step.id);
    hide EntriesOk;
  }

  lemma RunStep(c: Settings, states: seq<State>, steps: seq<Step>, t: nat)
    requires IsRun(c, states, steps) && t < |steps|
    ensures |states| == |steps| + 1
    ensures Invariant(c, states[t]) && Enabled(c, states[t], steps[t]) && states[t + 1] == Next(c, states[t], steps[t])
  {
    RunKeeps(c, states, steps, t);
  }

  lemma StaysDelivered(c: Settings, s: State, step: Step, id: Id)
    requires Enabled(c, s, step) && !step.Restart? && EntriesOk(c, s)
    requires id in s.entries && s.entries[id].delivered
    ensures id in Next(c, s, step).entries && Next(c, s, step).entries[id].delivered
  {
    EntryOf(c, s, id);
    hide EntriesOk;
    if step.Settle? {
      SettledIsOwn(c, s, step.id);
      EntryOf(c, s, step.id);
    }
  }

  // So within one life of the process a message is delivered at most once.
  lemma {:induction false} DeliveredStays(c: Settings, states: seq<State>, steps: seq<Step>, t: nat, u: nat, id: Id)
    requires IsRun(c, states, steps) && t <= u <= |steps|
    requires forall i :: t <= i < u ==> !steps[i].Restart?
    requires id in states[t].entries && states[t].entries[id].delivered
    ensures id in states[u].entries && states[u].entries[id].delivered
    decreases u
  {
    hide IsRun, Invariant, Enabled, Next, EntriesOk;
    if t < u {
      DeliveredStays(c, states, steps, t, u - 1, id);
      RunStep(c, states, steps, u - 1);
      InvariantEntries(c, states[u - 1]);
      StaysDelivered(c, states[u - 1], steps[u - 1], id);
    }
  }

  lemma InvariantEntries(c: Settings, s: State)
    requires Invariant(c, s)
    ensures EntriesOk(c, s) && Mirrored(s)
  {
  }

  // -- when a message is tried again, and when it goes --------------------------------------

  // What the end of a delivery round makes of a message: only one that was deferred and has
  // attempts left is put back, with the recipients, the tried relays and the time of this
  // round; every other goes out, and counts as delivered exactly if it was.
  lemma {:induction false} SettlingDecides(c: Settings, states: seq<State>, steps: seq<Step>, t: nat)
    requires IsRun(c, states, steps) && t < |steps| && steps[t].Settle?
    ensures |states| == |steps| + 1 && steps[t].id in states[t].entries && steps[t].id in states[t + 1].entries
    ensures states[t].entries[steps[t].id].phase.Working?
    ensures var step := steps[t];
      var m, e := states[t].entries[step.id].phase.m, states[t + 1].entries[step.id];
      && (step.outcome == Deferred && m.attempts < c.maxAttempts ==>
            && e.phase.Entering? && e.phase.stage == WantBody && e.phase.key.due == step.now + step.delay
            && e.phase.m == Message(step.id, step.recipients, m.attempts, step.now + step.delay, step.tried, m.raw))
      && (step.outcome != Deferred || m.attempts == c.maxAttempts ==> e.phase == Out(true))
      && (step.outcome == Deferred ==> m.attempts <= c.maxAttempts)
      && (e.delivered <==> step.outcome == Delivered)
  {
    hide IsRun, Invariant, EntriesOk;
    RunStep(c, states, steps, t);
    InvariantEntries(c, states[t]);
    EntryOf(c, states[t], steps[t].id);
  }

  // Queued, or on its way into the queue, for that time; or out.
  ghost predicate Rests(e: Entry, due: int) {
    || e.phase.Out?
    || ((e.phase.Entering? || e.phase.Waiting?) && e.phase.m.due == due && e.phase.key.due == due)
  }

  // Neither taken up, nor hurried by the operator, nor read back by a restart.
  ghost predicate Undisturbed(step: Step, id: Id) {
    !step.Restart? && !(step.TakeUp? && step.id == id) && !(step.Hurry? && step.id == id)
  }

  lemma RestsOn(c: Settings, s: State, step: Step, id: Id, due: int)
    requires Enabled(c, s, step) && (step.Settle? ==> s.entries[step.id].phase.m.id == step.id)
    requires Undisturbed(step, id) && id in s.entries && Rests(s.entries[id], due)
    ensures id in Next(c, s, step).entries && Rests(Next(c, s, step).entries[id], due)
  {
    hide Reserve, Take, Landed, Drop, Hasten, Apply, IsFirst, WorkerIdle, ReadBack, Holds;
  }

  lemma {:induction false} StillRests(
    c: Settings, states: seq<State>, steps: seq<Step>, i: nat, t: nat, id: Id, due: int)
    requires IsRun(c, states, steps) && i <= t <= |steps| && forall j :: i <= j < t ==> Undisturbed(steps[j], id)
    requires |states| == |steps| + 1 && id in states[i].entries && Rests(states[i].entries[id], due)
    ensures id in states[t].entries && Rests(states[t].entries[id], due)
    decreases t - i
  {
    hide Rests, Invariant, Enabled, Next, Undisturbed;
    if i < t {
      RunKeeps(c, states, steps, i);
      assert Enabled(c, states[i], steps[i]) && states[i + 1] == Next(c, states[i], steps[i]);
      if steps[i].Settle? {
        SettlesItself(c, states[i], steps[i]);
      }
      RestsOn(c, states[i], steps[i], id, due);
      StillRests(c, states, steps, i + 1, t, id, due);
    }
  }

  // The delay between two attempts is kept: a message that was put back is not taken up
  // again before its time, unless the operator hurries it or the process starts anew.
  lemma {:induction false} RetryWaits(c: Settings, states: seq<State>, steps: seq<Step>, i: nat, t: nat)
    requires IsRun(c, states, steps) && i < t < |steps| && |states| == |steps| + 1
    requires steps[i].Settle? && steps[t].TakeUp? && steps[t].id == steps[i].id
    requires forall j :: i < j < t ==> Undisturbed(steps[j], steps[i].id)
    ensures steps[t].now >= steps[i].now + steps[i].delay
    ensures steps[t].id in states[t].entries && states[t].entries[steps[t].id].phase.Waiting?
    ensures forall k :: k in states[t].schedule.scheduled ==> states[t].entries[steps[t].id].phase.m.due <= k.due
  {
    var id, due := steps[i].id, steps[i].now + steps[i].delay;
    SettlingDecides(c, states, steps, i);
    hide Invariant, Undisturbed;
    assert Rests(states[i + 1].entries[id], due);
    StillRests(c, states, steps, i + 1, t, id, due);
    assert Enabled(c, states[t], steps[t]);
    hide Next;
    var key := states[t].entries[id].phase.key;
    assert IsFirst(states[t].schedule, key);
  }

  // The steps that take a message out of the queue: a round that delivered it, failed it or
  // deferred its last attempt, an operator, and a restart that finds its body empty.
  ghost predicate Leaves(c: Settings, s: State, step: Step, id: Id)
    requires id in s.entries
  {
    match step
    case Settle(other, outcome, _, _, _, _) =>
      other == id
      && (outcome == Deferred ==> s.entries[id].phase.Working? && s.entries[id].phase.m.attempts == c.maxAttempts)
    case Remove(other) => other == id
    case Restart(_, _, cleaned) => id in cleaned && id in s.disk.bodies && s.disk.bodies[id] == []
    case _ => false
  }

  lemma LeavesBySettling(c: Settings, s: State, step: Step, id: Id)
    requires Enabled(c, s, step) && EntriesOk(c, s) && step.Settle? && id in s.entries && !s.entries[id].phase.Out?
    ensures id in Next(c, s, step).entries
    ensures Next(c, s, step).entries[id].phase.Out? <==> Leaves(c, s, step, id)
  {
    EntryOf(c, s, step.id);
    hide EntriesOk;
  }

  lemma LeavesByRestart(c: Settings, s: State, step: Step, id: Id)
    requires Enabled(c, s, step) && EntriesOk(c, s) && step.Restart?
    requires id in s.entries && s.entries[id].accepted && !s.entries[id].phase.Out?
    ensures id in Next(c, s, step).entries
    ensures Next(c, s, step).entries[id].phase.Out? <==> Leaves(c, s, step, id)
  {
    EntryOf(c, s, id);
    SpoolIsIntact(c, s, id);
    hide EntriesOk, Intact, ReadBack, Holds;
    BackIsIntact(s.disk, step.back, step.cleaned, c.capacity, id);
  }

  // An accepted message goes out exactly by one of these.
  lemma LeavesExactlyBy(c: Settings, s: State, step: Step, id: Id)
    requires Enabled(c, s, step) && EntriesOk(c, s)
    requires id in s.entries && s.entries[id].accepted && !s.entries[id].phase.Out?
    ensures id in Next(c, s, step).entries && Next(c, s, step).entries[id].accepted
    ensures Next(c, s, step).entries[id].phase.Out? <==> Leaves(c, s, step, id)
  {
    hide EntriesOk, ReadBack, Holds, IsFirst;
    if step.Settle? {
      SettledIsOwn(c, s, step.id);
      LeavesBySettling(c, s, step, id);
    } else if step.Restart? {
      LeavesByRestart(c, s, step, id);
    }
  }

  // So if it is out, one of these steps came in between.
  lemma {:induction false} OutOnlyBy(c: Settings, states: seq<State>, steps: seq<Step>, t: nat, u: nat, id: Id)
    requires IsRun(c, states, steps) && t <= u <= |steps|
    requires id in states[t].entries && states[t].entries[id].accepted && !states[t].entries[id].phase.Out?
    ensures |states| == |steps| + 1 && id in states[u].entries && states[u].entries[id].accepted
    ensures states[u].entries[id].phase.Out? ==>
      exists i :: t <= i < u && id in states[i].entries && Leaves(c, states[i], steps[i], id)
    decreases u
  {
    hide IsRun, Invariant, Enabled, Next, EntriesOk, Leaves;
    RunKeeps(c, states, steps, u);
    if t < u {
      OutOnlyBy(c, states, steps, t, u - 1, id);
      RunStep(c, states, steps, u - 1);
      InvariantEntries(c, states[u - 1]);
      if states[u - 1].entries[id].phase.Out? {
        StaysAccepted(c, states[u - 1], steps[u - 1], id);
      } else {
        LeavesExactlyBy(c, states[u - 1], steps[u - 1], id);
      }
    }
  }

  lemma StaysAccepted(c: Settings, s: State, step: Step, id: Id)
    requires Enabled(c, s, step) && EntriesOk(c, s) && id in s.entries && s.entries[id].accepted
    ensures id in Next(c, s, step).entries && Next(c, s, step).entries[id].accepted
  {
    hide EntriesOk, ReadBack, Holds, IsFirst;
    if step.Settle? {
      SettledIsOwn(c, s, step.id);
    }
  }

  // -- nothing gets stuck -----------------------------------------------------------------------

  // In every state that has the invariant, as every state of a run has: whoever is inside
  // the lock can go on, to the step that frees it.
  lemma {:induction false} LockIsFreed(c: Settings, s: State)
    requires Invariant(c, s) && s.lock.Some?
    ensures var id := s.lock.value;
      && (Enabled(c, s, SpoolBody(id)) || Enabled(c, s, SpoolMeta(id)) || Enabled(c, s, Commit(id)))
      && (Enabled(c, s, Commit(id)) ==> Next(c, s, Commit(id)).lock.None?)
  {
    hide EntriesOk, Mirrored, SizeOk;
  }

  lemma {:induction false} LeastKey(keys: set<Key>) returns (k: Key)
    requires keys != {}
    ensures k in keys && forall j :: j in keys ==> j == k || Before(k, j)
  {
    var any :| any in keys;
    var rest := keys - {any};
    k := any;
    assert forall j :: j in keys ==> j == any || j in rest;
    if rest != {} {
      var least := LeastKey(rest);
      Total(any, least);
      if Before(least, any) {
        k := least;
      }
    }
  }

  lemma {:induction false} WaitsAt(c: Settings, s: State, key: Key)
    requires Mirrored(s) && key in s.schedule.scheduled
    ensures var id := s.schedule.scheduled[key].id;
      && id in s.entries && s.entries[id].phase == Waiting(s.schedule.scheduled[key], key)
      && id in s.schedule.byId && s.schedule.byId[id] == key
  {
  }

  // With the lock free and a message due, an idle worker can take one up: the earliest in
  // the schedule, for one attempt more.
  lemma {:induction false} DueIsTaken(c: Settings, s: State, worker: nat, now: int) returns (id: Id)
    requires Invariant(c, s) && s.lock.None? && worker < c.workers && WorkerIdle(s, worker)
    requires exists k :: k in s.schedule.scheduled && k.due <= now
    ensures Enabled(c, s, TakeUp(id, worker, now)) && id in s.schedule.byId
    ensures forall k :: k in s.schedule.scheduled ==> k == s.schedule.byId[id] || Before(s.schedule.byId[id], k)
    ensures var r := Next(c, s, TakeUp(id, worker, now));
      && id in r.entries && r.schedule.scheduled == s.schedule.scheduled - {s.schedule.byId[id]}
      && r.entries[id].phase == Working(s.entries[id].phase.m.(attempts := s.entries[id].phase.m.attempts + 1), worker)
  {
    hide EntriesOk, Exclusive, SizeOk, Mirrored, WorkerIdle;
    var key := LeastKey(s.schedule.scheduled.Keys);
    id := s.schedule.scheduled[key].id;
    WaitsAt(c, s, key);
    assert IsFirst(s.schedule, key);
  }

  // And every worker can end its round, the operator remove what waits or hurry what is not
  // due, and a client hand in a new message exactly while the queue is not full.
  lemma {:induction false} LockIsAllItTakes(c: Settings, s: State, id: Id, step: Step, now: int)
    requires Invariant(c, s) && s.lock.None?
    ensures id in s.schedule.inFlight && step.Settle? && step.id == id ==> Enabled(c, s, step)
    ensures id in s.schedule.byId ==> Enabled(c, s, Remove(id))
    ensures id in s.schedule.byId ==> (Enabled(c, s, Hurry(id, now)) <==> now < s.schedule.byId[id].due)
    ensures step.Submit? && step.m.id !in s.entries && step.m.attempts == 0 && c.maxAttempts > 0 ==>
      (Enabled(c, s, step) <==> |s.schedule.scheduled| < c.capacity)
  {
    hide EntriesOk, SizeOk, Mirrored, Exclusive;
    if id in s.schedule.byId {
      IndexedIs(s, id);
    }
    if id in s.schedule.inFlight {
      InFlightIs(s, id);
    }
  }

  lemma IndexedIs(s: State, id: Id)
    requires Mirrored(s) && Exclusive(s) && s.lock.None? && id in s.schedule.byId
    ensures id in s.entries && s.entries[id].phase.Waiting? && s.entries[id].phase.key == s.schedule.byId[id]
    ensures s.schedule.byId[id] in s.schedule.scheduled
  {
  }

  lemma InFlightIs(s: State, id: Id)
    requires Mirrored(s) && id in s.schedule.inFlight
    ensures id in s.entries && s.entries[id].phase.Working?
  {
  }

  // -- crashes --------------------------------------------------------------------------------

  // Metadata on disk always has its body file beside it, the two as they were last written.
  // So recovery gives up no message but one of no bytes.
  lemma {:induction false} MetadataHasBody(c: Settings, states: seq<State>, steps: seq<Step>, t: nat, id: Id)
    requires IsRun(c, states, steps) && t <= |steps| && id in states[t].disk.meta
    ensures var d := states[t].disk;
      && id in d.bodies && id in states[t].entries
      && states[t].entries[id].written == Some(d.meta[id].(raw := d.bodies[id]))
      && (id in Intact(d) <==> d.bodies[id] != [])
  {
    RunKeeps(c, states, steps, t);
    EntryOf(c, states[t], id);
  }

  ghost predicate BodyIs(e: Entry, raw: Text) {
    && (e.written.Some? ==> e.written.value.raw == raw)
    && (!e.phase.Out? && !e.phase.Parked? ==> e.phase.m.raw == raw)
  }

  lemma BodyComesBack(c: Settings, s: State, step: Step, id: Id, raw: Text)
    requires Enabled(c, s, step) && step.Restart? && EntriesOk(c, s)
    requires id in s.entries && BodyIs(s.entries[id], raw)
    ensures id in Next(c, s, step).entries && BodyIs(Next(c, s, step).entries[id], raw)
  {
    SpoolIsIntact(c, s, id);
    hide EntriesOk, Intact, ReadBack, Holds;
    BackIsIntact(s.disk, step.back, step.cleaned, c.capacity, id);
  }

  lemma BodyStays(c: Settings, s: State, step: Step, id: Id, raw: Text)
    requires Enabled(c, s, step) && EntriesOk(c, s)
    requires id in s.entries && BodyIs(s.entries[id], raw)
    ensures id in Next(c, s, step).entries && BodyIs(Next(c, s, step).entries[id], raw)
  {
    hide EntriesOk, ReadBack, Holds;
    if step.Restart? {
      BodyComesBack(c, s, step, id, raw);
    } else if step.Settle? {
      SettledIsOwn(c, s, step.id);
    }
  }

  // The bytes handed in are the bytes in memory and on disk, through every attempt and
  // restart.
  lemma {:induction false} BodyNeverChanges(c: Settings, states: seq<State>, steps: seq<Step>, t: nat, u: nat)
    requires IsRun(c, states, steps) && t < u <= |steps| && steps[t].Submit?
    ensures |states| == |steps| + 1
    ensures steps[t].m.id in states[u].entries && BodyIs(states[u].entries[steps[t].m.id], steps[t].m.raw)
  {
    hide IsRun, Invariant, Enabled, EntriesOk, Mirrored;
    RunStep(c, states, steps, u - 1);
    if t + 1 < u {
      hide Next;
      BodyNeverChanges(c, states, steps, t, u - 1);
      InvariantEntries(c, states[u - 1]);
      BodyStays(c, states[u - 1], steps[u - 1], steps[t].m.id, steps[t].m.raw);
    }
  }

  // Wherever the process stops, the files of every message that was accepted and is not out
  // of the queue hold the content last written for it. The restart schedules it with that
  // content if and only if its body has any bytes; only when the spool is larger than the
  // schedule may it stay on disk.
  lemma {:induction false} NothingIsLost(
    c: Settings, states: seq<State>, steps: seq<Step>, t: nat, reloaded: Schedule, back: map<Id, Message>,
    cleaned: set<Id>, id: Id)
    requires IsRun(c, states, steps) && t <= |steps| && Enabled(c, states[t], Restart(reloaded, back, cleaned))
    requires id in states[t].entries && states[t].entries[id].accepted && !states[t].entries[id].phase.Out?
    ensures states[t].entries[id].written.Some?
    ensures var d, m := states[t].disk, states[t].entries[id].written.value;
      var full := |Intact(d)| > c.capacity && |reloaded.scheduled| == c.capacity;
      && id in d.meta && id in d.bodies && d.meta[id].(raw := d.bodies[id]) == m
      && (id in reloaded.byId ==>
            reloaded.byId[id] in reloaded.scheduled && reloaded.scheduled[reloaded.byId[id]] == m && m.raw != [])
      && (m.raw != [] ==> id in reloaded.byId || full)
      && (m.raw == [] ==> id in cleaned || full)
  {
    hide IsRun, Invariant, EntriesOk, Mirrored, Intact, ReadBack;
    RunKeeps(c, states, steps, t);
    InvariantEntries(c, states[t]);
    EntryOf(c, states[t], id);
    SpoolIsIntact(c, states[t], id);
    BackIsIntact(states[t].disk, back, cleaned, c.capacity, id);
    ReadWhole(states[t].disk, reloaded, back, cleaned, c.capacity, id);
  }

  // What has metadata and was neither scheduled nor thrown away was not come to.
  lemma ReadWhole(d: Disk, reloaded: Schedule, back: map<Id, Message>, cleaned: set<Id>, capacity: nat, id: Id)
    requires ReadBack(d, back, cleaned, capacity) && Holds(reloaded, back) && id in d.meta
    ensures id in reloaded.byId <==> id in back
    ensures id in back || id in cleaned || (|Intact(d)| > capacity && |reloaded.scheduled| == capacity)
  {
    hide Intact;
    HoldsSize(reloaded, back);
  }

  // After a restart exactly the messages whose metadata is on disk are scheduled, thrown
  // away or parked: scheduled if they have a body, thrown away if it is empty, and parked
  // only if the spool is larger than the schedule. That takes in one that was delivered or
  // removed just before, until its metadata is gone: across a crash a message may be
  // delivered again.
  lemma {:induction false} ComesBackWhileOnDisk(
    c: Settings, states: seq<State>, steps: seq<Step>, t: nat, id: Id)
    requires IsRun(c, states, steps) && t < |steps| && steps[t].Restart? && id in states[t].entries
    ensures var d, p := states[t].disk, states[t + 1].entries[id].phase;
      && (p.Waiting? || p.Parked? || p == Out(true) <==> id in d.meta)
      && (p.Waiting? ==> id in d.bodies && d.bodies[id] != [])
      && (p == Out(true) ==> id in d.bodies && d.bodies[id] == [])
      && (p.Parked? ==> |Intact(d)| > c.capacity)
    ensures states[t].entries[id].phase == Out(true) ==> id in states[t].disk.meta
  {
    hide IsRun, Invariant, EntriesOk, Mirrored, Intact, ReadBack;
    RunStep(c, states, steps, t);
    var s, step := states[t], steps[t];
    InvariantEntries(c, s);
    SpoolIsIntact(c, s, id);
    EntryOf(c, s, id);
    BackIsIntact(s.disk, step.back, step.cleaned, c.capacity, id);
    if id in s.disk.meta {
      ReadWhole(s.disk, step.reloaded, step.back, step.cleaned, c.capacity, id);
      MetadataHasBody(c, states, steps, t, id);
    }
  }

  // Nothing stops a submission but the lock and the capacity.
  lemma {:induction false} SubmissionRuns(c: Settings, s: State, m: Message)
    requires Enabled(c, s, Submit(m))
    ensures var begun := Next(c, s, Submit(m));
      && Enabled(c, begun, SpoolBody(m.id)) && Next(c, begun, SpoolBody(m.id)) == BodySpooled(begun, m.id)
      && var written := BodySpooled(begun, m.id);
         && Enabled(c, written, SpoolMeta(m.id)) && Next(c, written, SpoolMeta(m.id)) == MetaSpooled(written, m.id)
         && var ready := MetaSpooled(written, m.id);
            && Enabled(c, ready, Commit(m.id)) && Next(c, ready, Commit(m.id)) == Submitted(s, m)
  {
  }

  lemma FourSteps(c: Settings, states: seq<State>, steps: seq<Step>)
    requires |steps| == 4 && |states| == 5 && states[0] == START
    requires Enabled(c, states[0], steps[0]) && states[1] == Next(c, states[0], steps[0])
    requires Enabled(c, states[1], steps[1]) && states[2] == Next(c, states[1], steps[1])
    requires Enabled(c, states[2], steps[2]) && states[3] == Next(c, states[2], steps[2])
    requires Enabled(c, states[3], steps[3]) && states[4] == Next(c, states[3], steps[3])
    ensures IsRun(c, states, steps)
  {
    hide Enabled, Next;
  }

  lemma {:induction false} AcceptedAlone(c: Settings, m: Message) returns (states: seq<State>, steps: seq<Step>)
    requires Enabled(c, START, Submit(m))
    ensures IsRun(c, states, steps) && states[|steps|] == Submitted(START, m)
  {
    SubmissionRuns(c, START, m);
    hide Enabled, Next, Submitted, IsRun, BodySpooled, MetaSpooled;
    var begun := Next(c, START, Submit(m));
    var written := BodySpooled(begun, m.id);
    steps := [Submit(m), SpoolBody(m.id), SpoolMeta(m.id), Commit(m.id)];
    states := [START, begun, written, MetaSpooled(written, m.id), Submitted(START, m)];
    FourSteps(c, states, steps);
  }

  lemma {:induction false} EmptyIsBroken(m: Message, capacity: nat)
    requires m.raw == []
    ensures ReadBack(Submitted(START, m).disk, map[], {m.id}, capacity)
  {
    var d := Submitted(START, m).disk;
    assert d.meta.Keys == {m.id} && Intact(d) == map[];
  }

  // A message of no bytes, as a client sends it with an empty DATA, is accepted like any
  // other, and a restart throws it away.
  lemma {:induction false} EmptyMailIsThrownAway(c: Settings, m: Message, rest: Text, limit: nat)
    requires c.capacity > 0 && c.maxAttempts > 0 && m.attempts == 0 && m.raw == []
    ensures D.Payload(D.Wire([]) + rest, limit) == (D.Complete(m.raw), rest)
    ensures exists states, steps :: IsRun(c, states, steps) && states[|steps|] == Submitted(START, m)
    ensures Submitted(START, m).entries[m.id].accepted && Submitted(START, m).entries[m.id].phase.Waiting?
    ensures Enabled(c, Submitted(START, m), Restart(EMPTY, map[], {m.id}))
    ensures Restarted(Submitted(START, m), EMPTY, map[], {m.id}).entries[m.id].phase == Out(true)
  {
    hide IsRun, ReadBack, Holds, Intact;
    D.Transparent([], rest, limit);
    HoldsNothing();
    EmptyIsBroken(m, c.capacity);
    var states, steps := AcceptedAlone(c, m);
  }

  // And a message whose metadata has been removed never comes back, restarts or not.
  lemma {:induction false} GoneForGood(c: Settings, states: seq<State>, steps: seq<Step>, t: nat, u: nat, id: Id)
    requires IsRun(c, states, steps) && t <= u <= |steps|
    requires id in states[t].entries && states[t].entries[id].phase == Out(false)
    ensures id in states[u].entries && states[u].entries[id].phase == Out(false)
    ensures id !in states[u].schedule.byId && id !in states[u].schedule.inFlight && id !in states[u].disk.meta
    decreases u
  {
    hide IsRun, Invariant, Enabled, Next, EntriesOk, Mirrored, Intact;
    if t < u {
      GoneForGood(c, states, steps, t, u - 1, id);
      RunStep(c, states, steps, u - 1);
      InvariantEntries(c, states[u - 1]);
      StaysGone(c, states[u - 1], steps[u - 1], id);
    }
    RunKeeps(c, states, steps, u);
    OutIsGone(c, states[u], id);
  }

  lemma OutIsGone(c: Settings, s: State, id: Id)
    requires Invariant(c, s) && id in s.entries && s.entries[id].phase == Out(false)
    ensures id !in s.schedule.byId && id !in s.schedule.inFlight && id !in s.disk.meta
  {
    EntryOf(c, s, id);
  }

  // The message a step is about is in the queue or on its way out, so it is another.
  lemma NotAbout(c: Settings, s: State, step: Step, id: Id)
    requires Enabled(c, s, step) && id in s.entries && s.entries[id].phase == Out(false) && Mirrored(s)
    ensures step.Submit? ==> step.m.id != id
    ensures step.Settle? || step.Remove? || step.DeleteMeta? ==> step.id != id
    ensures step.SpoolBody? || step.SpoolMeta? || step.Commit? || step.TakeUp? || step.Hurry? ==> step.id != id
  {
  }

  lemma GoneOverRestart(c: Settings, s: State, step: Step, id: Id)
    requires Enabled(c, s, step) && step.Restart? && EntriesOk(c, s)
    requires id in s.entries && s.entries[id].phase == Out(false)
    ensures id in Next(c, s, step).entries && Next(c, s, step).entries[id].phase == Out(false)
  {
    SpoolIsIntact(c, s, id);
    hide EntriesOk, Intact, ReadBack, Holds;
    BackIsIntact(s.disk, step.back, step.cleaned, c.capacity, id);
  }

  lemma StaysGone(c: Settings, s: State, step: Step, id: Id)
    requires Enabled(c, s, step) && id in s.entries && s.entries[id].phase == Out(false) && Mirrored(s)
    requires EntriesOk(c, s)
    ensures id in Next(c, s, step).entries && Next(c, s, step).entries[id].phase == Out(false)
  {
    hide EntriesOk, Mirrored;
    if step.Restart? {
      hide Enabled, Next;
      GoneOverRestart(c, s, step, id);
    } else {
      NotAbout(c, s, step, id);
      hide ReadBack, Holds, Restarted;
      if step.Settle? {
        SettledIsOwn(c, s, step.id);
      }
    }
  }

  // -- the steps are the queue's own ----------------------------------------------------------

  // Taken one after the other, the steps of a submission do what Queue.Enqueue does to
  // schedule and disk; those of a requeueing what Queue.Requeue does, and so on.
  lemma {:induction false} SubmissionIsEnqueue(s: State, m: Message)
    ensures var done := Submitted(s, m);
      done.schedule == Insert(s.schedule, m) && done.disk == ApplyAll(s.disk, Spooling(m))
  {
    TwoOps(s.disk, WriteBody(m.id, m.raw), WriteMeta(m));
  }

  lemma {:induction false} RequeueingIsRequeue(s: State, id: Id, recipients: seq<Text>, tried: seq<Id>, now: int,
          delay: nat)
    requires id in s.entries && s.entries[id].phase.Working? && s.entries[id].phase.m.id == id
    ensures var later := s.entries[id].phase.m.(recipients := recipients, tried := tried, due := now + delay);
      var done := Committed(MetaSpooled(BodySpooled(Requeued(s, id, recipients, tried, now + delay), id), id), id);
      done.schedule == Insert(Landed(s.schedule, id), later) && done.disk == ApplyAll(s.disk, Spooling(later))
  {
    var later := s.entries[id].phase.m.(recipients := recipients, tried := tried, due := now + delay);
    TwoOps(s.disk, WriteBody(id, later.raw), WriteMeta(later));
  }

  lemma {:induction false} LeavingIsFinishOrRemove(s: State, id: Id, delivered: bool)
    requires id in s.entries
    ensures var done := BodyDeleted(MetaDeleted(Finished(s, id, delivered), id), id);
      done.schedule == Landed(s.schedule, id) && done.disk == ApplyAll(s.disk, Unspooling(id))
    ensures id in s.schedule.byId ==>
      var done := BodyDeleted(MetaDeleted(Removed(s, id), id), id);
      done.schedule == Drop(s.schedule, id) && done.disk == ApplyAll(s.disk, Unspooling(id))
  {
    TwoOps(s.disk, RemoveMeta(id), RemoveBody(id));
  }

  // And the steps after a restart that throws a message away remove what reading the spool
  // removes.
  lemma ThrowingAwayIsCleaning(s: State, id: Id)
    requires id in s.entries
    ensures BodyDeleted(MetaDeleted(s, id), id).disk == Cleaned(s.disk, {id})
  {
    TwoOps(s.disk, RemoveMeta(id), RemoveBody(id));
    LeftoversAreCleaned(s.disk, id);
  }
}
