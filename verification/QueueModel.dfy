/** The priority queue as a state machine over one key-value store (queue.go).
    Tasks and the six counters are entries of the same store, told apart by their keys. Every public
    operation is a function from store to store; the class in PriorityQueue.dfy is proved to compute it. */
module QueueModel {
  import opened Bytes
  import opened QueueKey
  import opened Options

  datatype TaskState = Pending | Claimed | Completed | DeadLettered

  datatype Task = Task(taskID: ByteString, priority: Int64, payload: ByteString, state: TaskState,
                       enqueuedAt: Int64, claimedAt: Option<Int64>, claimedBy: ByteString,
                       completedAt: Option<Int64>, retries: int, metadata: ByteString)

  /** A stored value as its reader sees it: a task, a number, or bytes that parse as neither. */
  datatype Value = TaskValue(task: Task) | CountValue(count: int) | OtherValue

  type Db = map<ByteString, Value>

  /** Queue settings, and which of the two scan interfaces the database offers. */
  datatype Config = Config(name: ByteString, maxRetries: int, iterates: bool, scans: bool)

  datatype State = State(db: Db, sequence: Uint64)

  datatype Answer = Done | NotFound | NotClaimed

  // ---------------------------------------------------------------- counters

  datatype Stat = PendingStat | ClaimedStat | CompletedStat | DeadLetteredStat | TotalEnqueued | TotalDequeued

  function StatName(st: Stat): ByteString {
    match st
    case PendingStat => Ascii("pending")
    case ClaimedStat => Ascii("claimed")
    case CompletedStat => Ascii("completed")
    case DeadLetteredStat => Ascii("deadLettered")
    case TotalEnqueued => Ascii("totalEnqueued")
    case TotalDequeued => Ascii("totalDequeued")
  }

  function StatsPrefix(name: ByteString): ByteString { Ascii("_queue_stats/") + name + SEP }

  function StatKey(name: ByteString, st: Stat): ByteString { StatsPrefix(name) + StatName(st) }

  function GetStat(db: Db, name: ByteString, st: Stat): int {
    var k := StatKey(name, st);
    if k in db && db[k].CountValue? then db[k].count else 0
  }

  function Increment(db: Db, name: ByteString, st: Stat): Db {
    db[StatKey(name, st) := CountValue(GetStat(db, name, st) + 1)]
  }

  function Decrement(db: Db, name: ByteString, st: Stat): Db {
    if GetStat(db, name, st) > 0 then db[StatKey(name, st) := CountValue(GetStat(db, name, st) - 1)] else db
  }

  // ---------------------------------------------------------------- what a scan of the queue shows

  predicate IsTask(name: ByteString, db: Db, k: ByteString) {
    k in db && Prefix(name) <= k && db[k].TaskValue?
  }

  ghost function Tasks(name: ByteString, db: Db): map<ByteString, Task> {
    map k | k in db && IsTask(name, db, k) :: db[k].task
  }

  ghost predicate IsReady(k: ByteString, now: Int64) {
    exists key :: Canonical(key) && KeyBytes(key) == k && key.readyTs <= now
  }

  ghost function PendingKeys(name: ByteString, db: Db): set<ByteString> {
    set k | k in db && IsTask(name, db, k) && db[k].task.state == Pending
  }

  ghost function ReadyKeys(name: ByteString, db: Db, now: Int64): set<ByteString> {
    set k | k in PendingKeys(name, db) && IsReady(k, now)
  }

  ghost function KeysOf(name: ByteString, db: Db, id: ByteString): set<ByteString> {
    set k | k in db && IsTask(name, db, k) && db[k].task.taskID == id
  }

  ghost function First(keys: set<ByteString>): Option<ByteString> {
    if keys == {} then None else Some(Least(keys))
  }

  /** Where getTask and updateTask find a task: the first key whose value carries the id. */
  ghost function Locate(c: Config, db: Db, id: ByteString): Option<ByteString> {
    if c.iterates || c.scans then First(KeysOf(c.name, db, id)) else None
  }

  /** The key Dequeue claims. The iterator path decodes keys and tests their timestamp; the IPC path
      does neither, and also runs when an iterating database that offers both had nothing ready. */
  ghost function Choice(c: Config, db: Db, now: Int64): Option<ByteString> {
    if c.iterates && ReadyKeys(c.name, db, now) != {} then First(ReadyKeys(c.name, db, now))
    else if c.scans then First(PendingKeys(c.name, db))
    else None
  }

  // ---------------------------------------------------------------- operations

  function NewKey(c: Config, s: State, priority: Int64, id: ByteString, now: Int64): Key {
    Key(c.name, priority, now, s.sequence, id)
  }

  function NewTask(priority: Int64, payload: ByteString, metadata: ByteString, id: ByteString, now: Int64): Task {
    Task(id, priority, payload, Pending, now, None, [], None, 0, metadata)
  }

  function EnqueueStep(c: Config, s: State, priority: Int64, payload: ByteString, metadata: ByteString,
                       id: ByteString, now: Int64): State {
    var stored := s.db[KeyBytes(NewKey(c, s, priority, id, now)) := TaskValue(NewTask(priority, payload, metadata, id, now))];
    State(Increment(Increment(stored, c.name, TotalEnqueued), c.name, PendingStat), (s.sequence + 1) % TWO64)
  }

  function Claim(t: Task, worker: ByteString, now: Int64): Task {
    t.(state := Claimed, claimedAt := Some(now), claimedBy := worker)
  }

  function ClaimAt(c: Config, db: Db, k: ByteString, worker: ByteString, now: Int64): Db
    requires IsTask(c.name, db, k)
  {
    var stored := db[k := TaskValue(Claim(db[k].task, worker, now))];
    Increment(Increment(Decrement(stored, c.name, PendingStat), c.name, ClaimedStat), c.name, TotalDequeued)
  }

  ghost function DequeueStep(c: Config, db: Db, worker: ByteString, now: Int64): Db {
    match Choice(c, db, now)
    case None => db
    case Some(k) => ClaimAt(c, db, k, worker, now)
  }

  function CompleteAt(c: Config, db: Db, k: ByteString, now: Int64): Db
    requires IsTask(c.name, db, k)
  {
    var stored := db[k := TaskValue(db[k].task.(state := Completed, completedAt := Some(now)))];
    Increment(Decrement(stored, c.name, ClaimedStat), c.name, CompletedStat)
  }

  ghost function AckAnswer(c: Config, db: Db, id: ByteString): Answer {
    match Locate(c, db, id)
    case None => NotFound
    case Some(k) => if db[k].task.state == Claimed then Done else NotClaimed
  }

  ghost function AckStep(c: Config, db: Db, id: ByteString, now: Int64): Db {
    if AckAnswer(c, db, id) == Done then CompleteAt(c, db, Locate(c, db, id).value, now) else db
  }

  /** What Nack makes of a task, whatever state it was in. */
  function Returned(c: Config, t: Task): Task {
    if t.retries + 1 >= c.maxRetries then t.(retries := t.retries + 1, state := DeadLettered)
    else t.(retries := t.retries + 1, state := Pending, claimedAt := None, claimedBy := [])
  }

  function ReturnAt(c: Config, db: Db, k: ByteString): Db
    requires IsTask(c.name, db, k)
  {
    var t := Returned(c, db[k].task);
    var stored := Decrement(db[k := TaskValue(t)], c.name, ClaimedStat);
    Increment(stored, c.name, if t.state == DeadLettered then DeadLetteredStat else PendingStat)
  }

  ghost function NackStep(c: Config, db: Db, id: ByteString): Db {
    match Locate(c, db, id)
    case None => db
    case Some(k) => ReturnAt(c, db, k)
  }

  predicate Terminal(st: TaskState) { st == Completed || st == DeadLettered }

  function TerminalKeys(name: ByteString, db: Db): set<ByteString> {
    set k | k in db && IsTask(name, db, k) && Terminal(db[k].task.state)
  }

  function PurgeStep(c: Config, db: Db): Db {
    if c.iterates || c.scans then db - TerminalKeys(c.name, db) else db
  }

  datatype Op =
    | Enqueue(priority: Int64, payload: ByteString, metadata: ByteString, id: ByteString, now: Int64)
    | Dequeue(worker: ByteString, now: Int64)
    | Ack(id: ByteString, now: Int64)
    | Nack(id: ByteString)
    | Purge

  ghost function Step(c: Config, s: State, op: Op): State {
    match op
    case Enqueue(priority, payload, metadata, id, now) => EnqueueStep(c, s, priority, payload, metadata, id, now)
    case Dequeue(worker, now) => s.(db := DequeueStep(c, s.db, worker, now))
    case Ack(id, now) => s.(db := AckStep(c, s.db, id, now))
    case Nack(id) => s.(db := NackStep(c, s.db, id))
    case Purge => s.(db := PurgeStep(c, s.db))
  }

  // ---------------------------------------------------------------- counters and tasks do not overlap

  lemma StatKeysDistinct(name: ByteString, s: Stat, t: Stat)
    ensures StatKey(name, s) == StatKey(name, t) <==> s == t
  {
    var p := StatsPrefix(name);
    assert StatKey(name, s)[|p|..] == StatName(s) && StatKey(name, t)[|p|..] == StatName(t);
    assert StatName(PendingStat)[0] != StatName(ClaimedStat)[0];
    assert StatName(TotalEnqueued)[5] != StatName(TotalDequeued)[5];
  }

  lemma StatKeyIsNoTaskKey(name: ByteString, other: ByteString, st: Stat)
    ensures !(Prefix(other) <= StatKey(name, st))
  {
    assert Prefix(other)[0] == 0x71 && StatKey(name, st)[0] == 0x5F;
  }

  lemma StoreTask(name: ByteString, db: Db, k: ByteString, t: Task)
    requires Prefix(name) <= k
    ensures Tasks(name, db[k := TaskValue(t)]) == Tasks(name, db)[k := t]
    ensures forall st :: GetStat(db[k := TaskValue(t)], name, st) == GetStat(db, name, st)
  {
    forall st ensures GetStat(db[k := TaskValue(t)], name, st) == GetStat(db, name, st) {
      StatKeyIsNoTaskKey(name, name, st);
    }
  }

  lemma Incremented(name: ByteString, db: Db, st: Stat)
    ensures var db' := Increment(db, name, st);
            && Tasks(name, db') == Tasks(name, db)
            && forall s :: GetStat(db', name, s) == GetStat(db, name, s) + if s == st then 1 else 0
  {
    StatKeyIsNoTaskKey(name, name, st);
    var db' := Increment(db, name, st);
    forall s ensures GetStat(db', name, s) == GetStat(db, name, s) + if s == st then 1 else 0 {
      StatKeysDistinct(name, s, st);
    }
  }

  lemma Decremented(name: ByteString, db: Db, st: Stat)
    ensures var db' := Decrement(db, name, st);
            && Tasks(name, db') == Tasks(name, db)
            && forall s :: GetStat(db', name, s) == GetStat(db, name, s) - if s == st && GetStat(db, name, st) > 0 then 1 else 0
  {
    StatKeyIsNoTaskKey(name, name, st);
    var db' := Decrement(db, name, st);
    forall s ensures GetStat(db', name, s) == GetStat(db, name, s) - if s == st && GetStat(db, name, st) > 0 then 1 else 0 {
      StatKeysDistinct(name, s, st);
    }
  }

  // ---------------------------------------------------------------- which task Dequeue takes, on the fields

  predicate Waits(name: ByteString, db: Db, k: ByteString) {
    k in db && Prefix(name) <= k && db[k].TaskValue? && db[k].task.state == Pending
  }

  ghost predicate IsFirst(keys: iset<ByteString>, k: ByteString) {
    k in keys && forall j :: j in keys ==> j == k || Less(k, j)
  }

  /** An iterating database claims the first pending task whose key decodes to a time not after `now`;
      where there is none, or no iterator, a scanning one claims the first pending task. */
  lemma ChoiceOnFields(c: Config, db: Db, now: Int64)
    ensures var waiting := iset k | Waits(c.name, db, k);
            var due := iset k | Waits(c.name, db, k) && exists key :: Canonical(key) && KeyBytes(key) == k && key.readyTs <= now;
            match Choice(c, db, now)
            case Some(k) => if c.iterates && due != iset{} then IsFirst(due, k) else c.scans && IsFirst(waiting, k)
            case None => (c.iterates ==> due == iset{}) && (c.scans ==> waiting == iset{})
  {
    var waiting := iset k | Waits(c.name, db, k);
    var due := iset k | Waits(c.name, db, k) && exists key :: Canonical(key) && KeyBytes(key) == k && key.readyTs <= now;
    hide KeyBytes;
    assert forall k :: k in PendingKeys(c.name, db) <==> k in waiting;
    assert forall k :: k in ReadyKeys(c.name, db, now) <==> k in due;
    assert ReadyKeys(c.name, db, now) == {} <==> due == iset{};
    assert PendingKeys(c.name, db) == {} <==> waiting == iset{};
  }

  // ---------------------------------------------------------------- what each operation writes, field by field

  lemma CountersLeaveTasks(name: ByteString, db: Db, k: ByteString, st: Stat)
    requires Prefix(name) <= k && k in db
    ensures k in Increment(db, name, st) && Increment(db, name, st)[k] == db[k]
    ensures k in Decrement(db, name, st) && Decrement(db, name, st)[k] == db[k]
  {
    StatKeyIsNoTaskKey(name, name, st);
  }

  lemma EnqueueWrites(c: Config, s: State, priority: Int64, payload: ByteString, metadata: ByteString,
                      id: ByteString, now: Int64)
    ensures var db', k := EnqueueStep(c, s, priority, payload, metadata, id, now).db,
                          KeyBytes(Key(c.name, priority, now, s.sequence, id));
            k in db' && db'[k] == TaskValue(Task(id, priority, payload, Pending, now, None, [], None, 0, metadata))
  {
    var k, v := KeyBytes(NewKey(c, s, priority, id, now)), TaskValue(NewTask(priority, payload, metadata, id, now));
    CountersLeaveTasks(c.name, s.db[k := v], k, TotalEnqueued);
    CountersLeaveTasks(c.name, Increment(s.db[k := v], c.name, TotalEnqueued), k, PendingStat);
  }

  lemma ClaimWrites(c: Config, db: Db, k: ByteString, worker: ByteString, now: Int64)
    requires IsTask(c.name, db, k)
    ensures var db', t := ClaimAt(c, db, k, worker, now), db[k].task;
            && k in db'
            && db'[k] == TaskValue(Task(t.taskID, t.priority, t.payload, Claimed, t.enqueuedAt, Some(now), worker,
                                        t.completedAt, t.retries, t.metadata))
  {
    var d0 := db[k := TaskValue(Claim(db[k].task, worker, now))];
    var d1 := Decrement(d0, c.name, PendingStat);
    CountersLeaveTasks(c.name, d0, k, PendingStat);
    CountersLeaveTasks(c.name, d1, k, ClaimedStat);
    CountersLeaveTasks(c.name, Increment(d1, c.name, ClaimedStat), k, TotalDequeued);
  }

  lemma CompleteWrites(c: Config, db: Db, k: ByteString, now: Int64)
    requires IsTask(c.name, db, k)
    ensures var db', t := CompleteAt(c, db, k, now), db[k].task;
            && k in db'
            && db'[k] == TaskValue(Task(t.taskID, t.priority, t.payload, Completed, t.enqueuedAt, t.claimedAt, t.claimedBy,
                                        Some(now), t.retries, t.metadata))
  {
    var d0 := db[k := TaskValue(db[k].task.(state := Completed, completedAt := Some(now)))];
    CountersLeaveTasks(c.name, d0, k, ClaimedStat);
    CountersLeaveTasks(c.name, Decrement(d0, c.name, ClaimedStat), k, CompletedStat);
  }

  /** With retries to spare the claim is wiped out; a dead-lettered task keeps it. */
  lemma ReturnWrites(c: Config, db: Db, k: ByteString)
    requires IsTask(c.name, db, k)
    ensures var db', t := ReturnAt(c, db, k), db[k].task;
            && k in db'
            && db'[k] == TaskValue(
                 if t.retries + 1 < c.maxRetries
                 then Task(t.taskID, t.priority, t.payload, Pending, t.enqueuedAt, None, [],
                           t.completedAt, t.retries + 1, t.metadata)
                 else Task(t.taskID, t.priority, t.payload, DeadLettered, t.enqueuedAt, t.claimedAt, t.claimedBy,
                           t.completedAt, t.retries + 1, t.metadata))
  {
    var t := Returned(c, db[k].task);
    var d0 := db[k := TaskValue(t)];
    CountersLeaveTasks(c.name, d0, k, ClaimedStat);
    CountersLeaveTasks(c.name, Decrement(d0, c.name, ClaimedStat), k,
                       if t.state == DeadLettered then DeadLetteredStat else PendingStat);
  }

  /** Exactly the queue's completed and dead-lettered tasks go, where the database can be scanned. */
  lemma PurgeRemoves(c: Config, db: Db)
    ensures var db' := PurgeStep(c, db);
            forall k :: (k in db' <==> && k in db
                                       && !(&& (c.iterates || c.scans) && Prefix(c.name) <= k && db[k].TaskValue?
                                            && db[k].task.state in {Completed, DeadLettered}))
                     && (k in db' ==> db'[k] == db[k])
  {
  }

  predicate Bears(name: ByteString, db: Db, k: ByteString, id: ByteString) {
    k in db && Prefix(name) <= k && db[k].TaskValue? && db[k].task.taskID == id
  }

  /** Ack's three answers: whether the queue shows a task with the identifier at all, and the state of
      the first such task in key order. */
  lemma AckAnswers(c: Config, db: Db, id: ByteString)
    ensures AckAnswer(c, db, id) == NotFound <==> !(c.iterates || c.scans) || forall k :: !Bears(c.name, db, k, id)
    ensures forall k :: (c.iterates || c.scans) && Bears(c.name, db, k, id)
                        && (forall j :: Bears(c.name, db, j, id) ==> j == k || Less(k, j))
                        ==> AckAnswer(c, db, id) == if db[k].task.state == Claimed then Done else NotClaimed
  {
    var keys := KeysOf(c.name, db, id);
    assert forall k :: k in keys <==> Bears(c.name, db, k, id);
    assert keys == {} <==> forall k :: k !in keys;
    forall k | k in keys && forall j :: j in keys ==> j == k || Less(k, j) ensures k == Least(keys) {
      LeastIsUnique(keys, k);
    }
  }
}
