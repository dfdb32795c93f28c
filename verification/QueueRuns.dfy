/** What every run of the priority queue keeps: an exact ledger, bounded retries, and service in
    priority order, then in the order of arrival. */
module QueueRuns {
  import opened Bytes
  import opened QueueKey
  import opened QueueModel
  import opened Options
  import opened MapSums

  /** A queue's history: its state, the latest time seen, every task ever enqueued (purged ones
      included) with its latest value, the keys in order of arrival, and how often each was claimed. */
  datatype Run = Run(s: State, clock: Int64, log: map<ByteString, Task>, order: seq<Key>, claims: map<ByteString, int>)

  ghost function Clock(r: Run, op: Op): Int64 {
    if op.Nack? || op.Purge? then r.clock else op.now
  }

  ghost function Claims(c: Config, r: Run, op: Op): map<ByteString, int> {
    if op.Enqueue? then
      r.claims[KeyBytes(NewKey(c, r.s, op.priority, op.id, op.now)) := 0]
    else if op.Dequeue? && Choice(c, r.s.db, op.now).Some? && Choice(c, r.s.db, op.now).value in r.claims then
      var k := Choice(c, r.s.db, op.now).value;
      r.claims[k := r.claims[k] + 1]
    else r.claims
  }

  ghost function Advance(c: Config, r: Run, op: Op): Run {
    var s := Step(c, r.s, op);
    Run(s, Clock(r, op), r.log + Tasks(c.name, s.db),
        if op.Enqueue? then r.order + [NewKey(c, r.s, op.priority, op.id, op.now)] else r.order,
        Claims(c, r, op))
  }

  /** What the environment owes the queue: time does not run backwards, and identifiers are non-empty
      and never reused. */
  ghost predicate Possible(c: Config, r: Run, op: Op) {
    match op
    case Enqueue(_, _, _, id, now) => now >= r.clock && id != [] && forall k :: k in r.log ==> r.log[k].taskID != id
    case Dequeue(_, now) => now >= r.clock
    case Ack(_, now) => now >= r.clock
    case Nack(_) => true
    case Purge => true
  }

  /** For the counters, workers must also return claimed tasks only. */
  ghost predicate Legal(c: Config, r: Run, op: Op) {
    && Possible(c, r, op)
    && (op.Nack? && Locate(c, r.s.db, op.id).Some? ==> r.s.db[Locate(c, r.s.db, op.id).value].task.state == Claimed)
  }

  /** A queue nobody has used yet, in a store that may hold other data. */
  ghost predicate Initial(c: Config, r: Run) {
    && SlashFree(c.name) && c.maxRetries >= 1
    && Tasks(c.name, r.s.db) == map[] && (forall st :: GetStat(r.s.db, c.name, st) == 0)
    && r.s.sequence == 0 && r.clock >= 0
    && r.log == map[] && r.order == [] && r.claims == map[]
  }

  // ---------------------------------------------------------------- invariants

  datatype Counters = Counters(pending: int, claimed: int, completed: int, deadLettered: int, enqueued: int, dequeued: int)

  ghost function CountersOf(name: ByteString, db: Db): Counters {
    Counters(GetStat(db, name, PendingStat), GetStat(db, name, ClaimedStat), GetStat(db, name, CompletedStat),
             GetStat(db, name, DeadLetteredStat), GetStat(db, name, TotalEnqueued), GetStat(db, name, TotalDequeued))
  }

  /** The store shows the latest value of every task except purged ones, which are finished. */
  ghost predicate Faithful(tasks: map<ByteString, Task>, log: map<ByteString, Task>) {
    && (forall k :: k in tasks ==> k in log && log[k] == tasks[k])
    && (forall k :: k in log && k !in tasks ==> Terminal(log[k].state))
  }

  ghost function InState(st: TaskState): Task -> int {
    (t: Task) => if t.state == st then 1 else 0
  }

  ghost function RetriesOf(): Task -> int {
    (t: Task) => t.retries
  }

  ghost function Count(log: map<ByteString, Task>, st: TaskState): int {
    Sum(log, InState(st))
  }

  /** The six stored counters are exactly what the history says. */
  ghost predicate Ledger(n: Counters, log: map<ByteString, Task>) {
    && n.pending == Count(log, Pending)
    && n.claimed == Count(log, Claimed)
    && n.completed == Count(log, Completed)
    && n.deadLettered == Count(log, DeadLettered)
    && n.enqueued == n.pending + n.claimed + n.completed + n.deadLettered
    && n.dequeued == n.claimed + n.completed + Sum(log, RetriesOf())
  }

  /** A task that is not dead-lettered has retries left, a dead-lettered one has used them all. */
  predicate RetryBound(maxRetries: int, t: Task) {
    if t.state == DeadLettered then t.retries == maxRetries else 0 <= t.retries < maxRetries
  }

  /** A task was claimed once for every retry, and once more if it is claimed or completed. */
  function ClaimsMade(t: Task): int {
    t.retries + if t.state in {Claimed, Completed} then 1 else 0
  }

  ghost predicate Retries(maxRetries: int, log: map<ByteString, Task>, claims: map<ByteString, int>) {
    && claims.Keys == log.Keys
    && forall k :: k in log ==> RetryBound(maxRetries, log[k]) && claims[k] == ClaimsMade(log[k])
  }

  /** What is left of this when tasks are returned in any state: no task is claimed more often than the
      limit, and none that is not dead-lettered more often than its retries account for. */
  predicate ClaimBound(maxRetries: int, t: Task, claims: int) {
    && 0 <= claims <= maxRetries
    && if t.state == DeadLettered then t.retries >= maxRetries else 0 <= t.retries < maxRetries && claims <= ClaimsMade(t)
  }

  ghost predicate ClaimInv(maxRetries: int, log: map<ByteString, Task>, claims: map<ByteString, int>) {
    && claims.Keys == log.Keys
    && forall k :: k in log ==> ClaimBound(maxRetries, log[k], claims[k])
  }

  ghost predicate IsArrival(name: ByteString, log: map<ByteString, Task>, key: Key) {
    && key.queueID == name && key.taskID != [] && key.readyTs >= 0
    && KeyBytes(key) in log
    && log[KeyBytes(key)].taskID == key.taskID && log[KeyBytes(key)].priority == key.priority
  }

  ghost predicate Arrived(order: seq<Key>, k: ByteString) {
    exists i :: 0 <= i < |order| && KeyBytes(order[i]) == k
  }

  /** Keys record the order of arrival. */
  ghost predicate Ordered(name: ByteString, log: map<ByteString, Task>, order: seq<Key>, clock: int) {
    && clock >= 0
    && (forall k :: k in log ==> Arrived(order, k))
    && (forall i :: 0 <= i < |order| ==>
          IsArrival(name, log, order[i]) && order[i].readyTs <= clock && order[i].sequence == i % TWO64)
    && (forall i, j :: 0 <= i < j < |order| ==>
          order[i].readyTs <= order[j].readyTs && order[i].taskID != order[j].taskID)
  }

  /** Kept by every operation, Nack in any state included: the store and the order of arrival. */
  ghost predicate OrderInv(c: Config, r: Run) {
    && SlashFree(c.name) && c.maxRetries >= 1
    && Faithful(Tasks(c.name, r.s.db), r.log)
    && Ordered(c.name, r.log, r.order, r.clock) && r.s.sequence == |r.order| % TWO64
  }

  /** Kept as long as only claimed tasks are returned: the counters and the retries as well. */
  ghost predicate Inv(c: Config, r: Run) {
    && OrderInv(c, r)
    && Ledger(CountersOf(c.name, r.s.db), r.log)
    && Retries(c.maxRetries, r.log, r.claims)
  }

  // ---------------------------------------------------------------- what one operation does to the store

  lemma EnqueueEffect(c: Config, s: State, op: Op)
    requires op.Enqueue?
    ensures var k := KeyBytes(NewKey(c, s, op.priority, op.id, op.now));
            var s', n := Step(c, s, op), CountersOf(c.name, s.db);
            && Tasks(c.name, s'.db) == Tasks(c.name, s.db)[k := NewTask(op.priority, op.payload, op.metadata, op.id, op.now)]
            && CountersOf(c.name, s'.db) == n.(pending := n.pending + 1, enqueued := n.enqueued + 1)
  {
    var k, t := KeyBytes(NewKey(c, s, op.priority, op.id, op.now)), NewTask(op.priority, op.payload, op.metadata, op.id, op.now);
    StoreTask(c.name, s.db, k, t);
    var stored := s.db[k := TaskValue(t)];
    Incremented(c.name, stored, TotalEnqueued);
    Incremented(c.name, Increment(stored, c.name, TotalEnqueued), PendingStat);
  }

  lemma ClaimEffect(c: Config, db: Db, k: ByteString, worker: ByteString, now: Int64)
    requires IsTask(c.name, db, k)
    ensures var db', n := ClaimAt(c, db, k, worker, now), CountersOf(c.name, db);
            && Tasks(c.name, db') == Tasks(c.name, db)[k := Claim(db[k].task, worker, now)]
            && (n.pending > 0 ==>
                  CountersOf(c.name, db') == n.(pending := n.pending - 1, claimed := n.claimed + 1, dequeued := n.dequeued + 1))
  {
    StoreTask(c.name, db, k, Claim(db[k].task, worker, now));
    var d0 := db[k := TaskValue(Claim(db[k].task, worker, now))];
    Decremented(c.name, d0, PendingStat);
    var d1 := Decrement(d0, c.name, PendingStat);
    Incremented(c.name, d1, ClaimedStat);
    Incremented(c.name, Increment(d1, c.name, ClaimedStat), TotalDequeued);
  }

  lemma CompleteEffect(c: Config, db: Db, k: ByteString, now: Int64)
    requires IsTask(c.name, db, k)
    ensures var db', n := CompleteAt(c, db, k, now), CountersOf(c.name, db);
            && Tasks(c.name, db') == Tasks(c.name, db)[k := db[k].task.(state := Completed, completedAt := Some(now))]
            && (n.claimed > 0 ==> CountersOf(c.name, db') == n.(claimed := n.claimed - 1, completed := n.completed + 1))
  {
    var t := db[k].task.(state := Completed, completedAt := Some(now));
    StoreTask(c.name, db, k, t);
    var d0 := db[k := TaskValue(t)];
    Decremented(c.name, d0, ClaimedStat);
    Incremented(c.name, Decrement(d0, c.name, ClaimedStat), CompletedStat);
  }

  /** What Nack does to the counters, its guard on the claimed counter spelled out. */
  function Renounce(n: Counters, st: TaskState): Counters {
    var m := n.(claimed := if n.claimed > 0 then n.claimed - 1 else n.claimed);
    if st == DeadLettered then m.(deadLettered := m.deadLettered + 1) else m.(pending := m.pending + 1)
  }

  lemma ReturnEffect(c: Config, db: Db, k: ByteString)
    requires IsTask(c.name, db, k)
    ensures var db', t := ReturnAt(c, db, k), Returned(c, db[k].task);
            && Tasks(c.name, db') == Tasks(c.name, db)[k := t]
            && CountersOf(c.name, db') == Renounce(CountersOf(c.name, db), t.state)
  {
    var t := Returned(c, db[k].task);
    StoreTask(c.name, db, k, t);
    var d0 := db[k := TaskValue(t)];
    Decremented(c.name, d0, ClaimedStat);
    Incremented(c.name, Decrement(d0, c.name, ClaimedStat), if t.state == DeadLettered then DeadLetteredStat else PendingStat);
  }

  lemma PurgeEffect(c: Config, db: Db)
    ensures var db' := PurgeStep(c, db);
            && Shrunk(Tasks(c.name, db), Tasks(c.name, db'))
            && CountersOf(c.name, db') == CountersOf(c.name, db)
  {
  }

  /** Only finished tasks went missing. */
  ghost predicate Shrunk(tasks: map<ByteString, Task>, tasks': map<ByteString, Task>) {
    && (forall k :: k in tasks' ==> k in tasks && tasks'[k] == tasks[k])
    && (forall k :: k in tasks && k !in tasks' ==> Terminal(tasks[k].state))
  }

  // ---------------------------------------------------------------- writes to the log

  lemma LogCounts(log: map<ByteString, Task>, k: ByteString, t: Task, st: TaskState)
    ensures Count(log[k := t], st) == Count(log, st) + Change(log, k, t, st)
  {
    SumUpdate(log, InState(st), k, t);
  }

  /** By how much a write moves the number of tasks in state `st`. */
  ghost function Change(log: map<ByteString, Task>, k: ByteString, t: Task, st: TaskState): int {
    (if t.state == st then 1 else 0) - (if k in log && log[k].state == st then 1 else 0)
  }

  /** How the ledger must move when one entry of the log is written: no other way is right. */
  lemma LedgerWrite(n: Counters, log: map<ByteString, Task>, k: ByteString, t: Task, n': Counters)
    requires Ledger(n, log)
    ensures Ledger(n', log[k := t]) <==>
            && n'.pending == n.pending + Change(log, k, t, Pending)
            && n'.claimed == n.claimed + Change(log, k, t, Claimed)
            && n'.completed == n.completed + Change(log, k, t, Completed)
            && n'.deadLettered == n.deadLettered + Change(log, k, t, DeadLettered)
            && n'.enqueued == n.enqueued + (if k in log then 0 else 1)
            && n'.dequeued == n.dequeued + Change(log, k, t, Claimed) + Change(log, k, t, Completed)
                              + t.retries - (if k in log then log[k].retries else 0)
  {
    LogCounts(log, k, t, Pending);
    LogCounts(log, k, t, Claimed);
    LogCounts(log, k, t, Completed);
    LogCounts(log, k, t, DeadLettered);
    SumUpdate(log, RetriesOf(), k, t);
  }

  /** A logged task's state has a positive count, so no decrement of that counter is suppressed. */
  lemma CountPositive(log: map<ByteString, Task>, k: ByteString)
    requires k in log
    ensures Count(log, log[k].state) >= 1
  {
    SumAtLeast(log, InState(log[k].state), k);
  }

  /** A write that leaves a logged task's identity alone keeps the record of arrivals. */
  lemma OrderedAfterWrite(name: ByteString, log: map<ByteString, Task>, order: seq<Key>, clock: int,
                          k: ByteString, t: Task, clock': int)
    requires Ordered(name, log, order, clock) && clock' >= clock
    requires k in log && t.taskID == log[k].taskID && t.priority == log[k].priority
    ensures Ordered(name, log[k := t], order, clock')
  {
    hide KeyBytes;
  }

  lemma OrderedAfterArrival(name: ByteString, log: map<ByteString, Task>, order: seq<Key>, clock: int, key: Key, t: Task)
    requires Ordered(name, log, order, clock) && KeyBytes(key) !in log
    requires forall k :: k in log ==> log[k].taskID != key.taskID
    requires key.queueID == name && key.taskID != [] && key.readyTs >= clock && key.sequence == |order| % TWO64
    requires t.taskID == key.taskID && t.priority == key.priority
    ensures Ordered(name, log[KeyBytes(key) := t], order + [key], key.readyTs)
  {
    hide KeyBytes;
    var log', order' := log[KeyBytes(key) := t], order + [key];
    forall k | k in log' ensures Arrived(order', k) {
      if k == KeyBytes(key) {
        assert order'[|order|] == key;
      } else {
        assert Arrived(order, k);
        var i :| 0 <= i < |order| && KeyBytes(order[i]) == k;
        assert order'[i] == order[i];
      }
    }
    forall i | 0 <= i < |order| ensures IsArrival(name, log', order'[i]) && order'[i].taskID != key.taskID {
      assert IsArrival(name, log, order[i]);
    }
  }

  lemma NewKeyIsFresh(name: ByteString, log: map<ByteString, Task>, order: seq<Key>, clock: int, key: Key)
    requires Ordered(name, log, order, clock) && SlashFree(name)
    requires key.queueID == name && key.taskID != []
    requires forall k :: k in log ==> log[k].taskID != key.taskID
    ensures KeyBytes(key) !in log
  {
    hide KeyBytes;
    if KeyBytes(key) in log {
      assert Arrived(order, KeyBytes(key));
      var i :| 0 <= i < |order| && KeyBytes(order[i]) == KeyBytes(key);
      assert IsArrival(name, log, order[i]);
      KeyBytesInjective(order[i], key);
    }
  }

  // ---------------------------------------------------------------- every operation keeps the invariant

  /** The effect of an operation on the history alone. */
  ghost function LogAfter(c: Config, r: Run, op: Op): map<ByteString, Task> {
    match op
    case Enqueue(priority, payload, metadata, id, now) =>
      r.log[KeyBytes(NewKey(c, r.s, priority, id, now)) := NewTask(priority, payload, metadata, id, now)]
    case Dequeue(worker, now) =>
      var k := Choice(c, r.s.db, now);
      if k.Some? && k.value in r.log then r.log[k.value := Claim(r.log[k.value], worker, now)] else r.log
    case Ack(id, now) =>
      var k := Locate(c, r.s.db, id);
      if k.Some? && k.value in r.log && r.log[k.value].state == Claimed
      then r.log[k.value := r.log[k.value].(state := Completed, completedAt := Some(now))] else r.log
    case Nack(id) =>
      var k := Locate(c, r.s.db, id);
      if k.Some? && k.value in r.log then r.log[k.value := Returned(c, r.log[k.value])] else r.log
    case Purge => r.log
  }

  lemma FaithfulAfterWrite(tasks: map<ByteString, Task>, log: map<ByteString, Task>, k: ByteString, t: Task)
    requires Faithful(tasks, log)
    ensures log + tasks[k := t] == log[k := t]
    ensures Faithful(tasks[k := t], log[k := t])
  {
  }

  lemma RetriesAfterWrite(maxRetries: int, log: map<ByteString, Task>, claims: map<ByteString, int>, k: ByteString, t: Task)
    requires Retries(maxRetries, log, claims) && RetryBound(maxRetries, t)
    ensures Retries(maxRetries, log[k := t], claims[k := ClaimsMade(t)])
  {
  }

  lemma ClaimsAfterWrite(maxRetries: int, log: map<ByteString, Task>, claims: map<ByteString, int>, k: ByteString, t: Task, n: int)
    requires ClaimInv(maxRetries, log, claims) && ClaimBound(maxRetries, t, n)
    ensures ClaimInv(maxRetries, log[k := t], claims[k := n])
  {
  }

  /** A task that the store shows is the latest in the log. */
  lemma LoggedTask(c: Config, r: Run, k: ByteString)
    requires OrderInv(c, r) && k in Tasks(c.name, r.s.db)
    ensures k in r.log && r.log[k] == Tasks(c.name, r.s.db)[k]
  {
  }

  /** What the invariant says of it. */
  lemma ShownTask(c: Config, r: Run, k: ByteString)
    requires Inv(c, r) && k in Tasks(c.name, r.s.db)
    ensures k in r.log && r.log[k] == Tasks(c.name, r.s.db)[k] && k in r.claims
    ensures RetryBound(c.maxRetries, r.log[k]) && r.claims[k] == ClaimsMade(r.log[k])
    ensures Count(r.log, r.log[k].state) >= 1
  {
    CountPositive(r.log, k);
  }

  /** A step that rewrites one logged task. */
  lemma WriteKeepsOrder(c: Config, r: Run, r': Run, k: ByteString, t: Task)
    requires OrderInv(c, r) && k in Tasks(c.name, r.s.db) && r'.clock >= r.clock
    requires Tasks(c.name, r'.s.db) == Tasks(c.name, r.s.db)[k := t]
    requires r'.log == r.log + Tasks(c.name, r'.s.db) && r'.order == r.order && r'.s.sequence == r.s.sequence
    requires t.taskID == r.log[k].taskID && t.priority == r.log[k].priority
    ensures OrderInv(c, r') && r'.log == r.log[k := t]
  {
    hide Tasks;
    hide Ordered;
    LoggedTask(c, r, k);
    hide Faithful;
    FaithfulAfterWrite(Tasks(c.name, r.s.db), r.log, k, t);
    OrderedAfterWrite(c.name, r.log, r.order, r.clock, k, t, r'.clock);
  }

  lemma OrderedLater(name: ByteString, log: map<ByteString, Task>, order: seq<Key>, clock: int, clock': int)
    requires Ordered(name, log, order, clock) && clock' >= clock
    ensures Ordered(name, log, order, clock')
  {
    hide KeyBytes;
  }

  /** A step that at most makes finished tasks disappear from the store. */
  lemma IdleKeepsOrder(c: Config, r: Run, r': Run)
    requires OrderInv(c, r) && r'.clock >= r.clock
    requires Shrunk(Tasks(c.name, r.s.db), Tasks(c.name, r'.s.db))
    requires r'.log == r.log + Tasks(c.name, r'.s.db) && r'.order == r.order && r'.s.sequence == r.s.sequence
    ensures OrderInv(c, r') && r'.log == r.log
  {
    hide Tasks;
    hide Ordered;
    assert r'.log == r.log;
    OrderedLater(c.name, r.log, r.order, r.clock, r'.clock);
  }

  lemma NothingShrinks(tasks: map<ByteString, Task>)
    ensures Shrunk(tasks, tasks)
  {
  }

  /** The history after a step, taken apart once so that the proofs below need not look inside. */
  lemma Advanced(c: Config, r: Run, op: Op)
    ensures var r' := Advance(c, r, op);
            && r'.s == Step(c, r.s, op) && r'.clock == Clock(r, op) && r'.claims == Claims(c, r, op)
            && r'.log == r.log + Tasks(c.name, r'.s.db)
            && (!op.Enqueue? ==> r'.order == r.order && r'.s.sequence == r.s.sequence)
            && (op.Enqueue? ==> r'.order == r.order + [NewKey(c, r.s, op.priority, op.id, op.now)]
                                && r'.s.sequence == (r.s.sequence + 1) % TWO64)
  {
  }

  lemma ChosenIsPending(c: Config, db: Db, now: Int64)
    requires Choice(c, db, now).Some?
    ensures var k := Choice(c, db, now).value;
            && IsTask(c.name, db, k) && db[k].task.state == Pending
            && k in Tasks(c.name, db) && Tasks(c.name, db)[k] == db[k].task
  {
  }

  lemma LocatedIsTask(c: Config, db: Db, id: ByteString)
    requires Locate(c, db, id).Some?
    ensures var k := Locate(c, db, id).value;
            && IsTask(c.name, db, k) && db[k].task.taskID == id
            && k in Tasks(c.name, db) && Tasks(c.name, db)[k] == db[k].task
  {
  }

  // ---------------------------------------------------------------- the order of arrival

  lemma EnqueueKeepsOrder(c: Config, r: Run, op: Op)
    requires OrderInv(c, r) && Possible(c, r, op) && op.Enqueue?
    ensures OrderInv(c, Advance(c, r, op)) && Advance(c, r, op).log == LogAfter(c, r, op)
    ensures KeyBytes(NewKey(c, r.s, op.priority, op.id, op.now)) !in r.log
  {
    hide KeyBytes;
    hide Tasks;
    hide CountersOf;
    hide Ordered;
    hide Advance;
    hide Faithful;
    hide Step;
    var key, t := NewKey(c, r.s, op.priority, op.id, op.now), NewTask(op.priority, op.payload, op.metadata, op.id, op.now);
    Advanced(c, r, op);
    EnqueueEffect(c, r.s, op);
    NewKeyIsFresh(c.name, r.log, r.order, r.clock, key);
    OrderedAfterArrival(c.name, r.log, r.order, r.clock, key, t);
    FaithfulAfterWrite(Tasks(c.name, r.s.db), r.log, KeyBytes(key), t);
  }

  lemma DequeueKeepsOrder(c: Config, r: Run, op: Op)
    requires OrderInv(c, r) && Possible(c, r, op) && op.Dequeue?
    ensures OrderInv(c, Advance(c, r, op)) && Advance(c, r, op).log == LogAfter(c, r, op)
  {
    hide Tasks;
    hide CountersOf;
    hide Ordered;
    hide Choice;
    hide ClaimAt;
    hide IsTask;
    hide Advance;
    hide Faithful;
    hide Shrunk;
    var r' := Advance(c, r, op);
    Advanced(c, r, op);
    match Choice(c, r.s.db, op.now)
    case None =>
      NothingShrinks(Tasks(c.name, r.s.db));
      IdleKeepsOrder(c, r, r');
    case Some(k) =>
      ChosenIsPending(c, r.s.db, op.now);
      LoggedTask(c, r, k);
      ClaimEffect(c, r.s.db, k, op.worker, op.now);
      WriteKeepsOrder(c, r, r', k, Claim(r.s.db[k].task, op.worker, op.now));
  }

  lemma AckKeepsOrder(c: Config, r: Run, op: Op)
    requires OrderInv(c, r) && Possible(c, r, op) && op.Ack?
    ensures OrderInv(c, Advance(c, r, op)) && Advance(c, r, op).log == LogAfter(c, r, op)
  {
    hide Tasks;
    hide CountersOf;
    hide Ordered;
    hide Locate;
    hide CompleteAt;
    hide IsTask;
    hide Advance;
    hide Faithful;
    hide Shrunk;
    var r' := Advance(c, r, op);
    Advanced(c, r, op);
    if Locate(c, r.s.db, op.id).Some? {
      LocatedIsTask(c, r.s.db, op.id);
      LoggedTask(c, r, Locate(c, r.s.db, op.id).value);
    }
    if AckAnswer(c, r.s.db, op.id) == Done {
      var k := Locate(c, r.s.db, op.id).value;
      CompleteEffect(c, r.s.db, k, op.now);
      WriteKeepsOrder(c, r, r', k, r.s.db[k].task.(state := Completed, completedAt := Some(op.now)));
    } else {
      NothingShrinks(Tasks(c.name, r.s.db));
      IdleKeepsOrder(c, r, r');
    }
  }

  /** Whatever state the task is in. */
  lemma NackKeepsOrder(c: Config, r: Run, op: Op)
    requires OrderInv(c, r) && op.Nack?
    ensures OrderInv(c, Advance(c, r, op)) && Advance(c, r, op).log == LogAfter(c, r, op)
  {
    hide Tasks;
    hide CountersOf;
    hide Ordered;
    hide Locate;
    hide ReturnAt;
    hide IsTask;
    hide Advance;
    hide Faithful;
    hide Shrunk;
    var r' := Advance(c, r, op);
    Advanced(c, r, op);
    match Locate(c, r.s.db, op.id)
    case None =>
      NothingShrinks(Tasks(c.name, r.s.db));
      IdleKeepsOrder(c, r, r');
    case Some(k) =>
      LocatedIsTask(c, r.s.db, op.id);
      LoggedTask(c, r, k);
      ReturnEffect(c, r.s.db, k);
      WriteKeepsOrder(c, r, r', k, Returned(c, r.s.db[k].task));
  }

  lemma PurgeKeepsOrder(c: Config, r: Run, op: Op)
    requires OrderInv(c, r) && op.Purge?
    ensures OrderInv(c, Advance(c, r, op)) && Advance(c, r, op).log == LogAfter(c, r, op)
  {
    PurgeEffect(c, r.s.db);
    IdleKeepsOrder(c, r, Advance(c, r, op));
  }

  lemma StepKeepsOrder(c: Config, r: Run, op: Op)
    requires OrderInv(c, r) && Possible(c, r, op)
    ensures OrderInv(c, Advance(c, r, op)) && Advance(c, r, op).log == LogAfter(c, r, op)
  {
    hide OrderInv;
    hide Advance;
    hide LogAfter;
    match op
    case Enqueue(_, _, _, _, _) => EnqueueKeepsOrder(c, r, op);
    case Dequeue(_, _) => DequeueKeepsOrder(c, r, op);
    case Ack(_, _) => AckKeepsOrder(c, r, op);
    case Nack(_) => NackKeepsOrder(c, r, op);
    case Purge => PurgeKeepsOrder(c, r, op);
  }

  // ---------------------------------------------------------------- the bound on claims

  lemma NewTaskBound(maxRetries: int, t: Task)
    requires maxRetries >= 1 && t.state == Pending && t.retries == 0
    ensures ClaimBound(maxRetries, t, 0)
  {
  }

  lemma ClaimedBound(maxRetries: int, t: Task, worker: ByteString, now: Int64, n: int)
    requires ClaimBound(maxRetries, t, n) && t.state == Pending
    ensures ClaimBound(maxRetries, Claim(t, worker, now), n + 1)
  {
  }

  lemma CompletedBound(maxRetries: int, t: Task, t': Task, n: int)
    requires ClaimBound(maxRetries, t, n) && t.state == Claimed && t'.state == Completed && t'.retries == t.retries
    ensures ClaimBound(maxRetries, t', n)
  {
  }

  lemma ReturnedBound(c: Config, t: Task, n: int)
    requires ClaimBound(c.maxRetries, t, n) && c.maxRetries >= 1
    ensures ClaimBound(c.maxRetries, Returned(c, t), n)
  {
  }

  lemma DequeueKeepsClaims(c: Config, r: Run, op: Op)
    requires OrderInv(c, r) && ClaimInv(c.maxRetries, r.log, r.claims) && Possible(c, r, op) && op.Dequeue?
    ensures ClaimInv(c.maxRetries, Advance(c, r, op).log, Advance(c, r, op).claims)
  {
    hide OrderInv;
    hide Advance;
    hide Choice;
    hide Locate;
    hide IsTask;
    hide Tasks;
    hide KeyBytes;
    hide ClaimInv;
    hide ClaimBound;
    hide Claim;
    hide Returned;
    StepKeepsOrder(c, r, op);
    Advanced(c, r, op);
    OrderNeedsRetries(c, r);
    if Choice(c, r.s.db, op.now).Some? {
      var k := Choice(c, r.s.db, op.now).value;
      ChosenIsPending(c, r.s.db, op.now);
      LoggedTask(c, r, k);
      LoggedClaims(c.maxRetries, r.log, r.claims, k);
      ClaimedBound(c.maxRetries, r.log[k], op.worker, op.now, r.claims[k]);
      ClaimsAfterWrite(c.maxRetries, r.log, r.claims, k, Claim(r.log[k], op.worker, op.now), r.claims[k] + 1);
    }
  }

  lemma AckKeepsClaims(c: Config, r: Run, op: Op)
    requires OrderInv(c, r) && ClaimInv(c.maxRetries, r.log, r.claims) && Possible(c, r, op) && op.Ack?
    ensures ClaimInv(c.maxRetries, Advance(c, r, op).log, Advance(c, r, op).claims)
  {
    hide OrderInv;
    hide Advance;
    hide Choice;
    hide Locate;
    hide IsTask;
    hide Tasks;
    hide KeyBytes;
    hide ClaimInv;
    hide ClaimBound;
    hide Claim;
    hide Returned;
    StepKeepsOrder(c, r, op);
    Advanced(c, r, op);
    OrderNeedsRetries(c, r);
    if Locate(c, r.s.db, op.id).Some? {
      var k := Locate(c, r.s.db, op.id).value;
      LocatedIsTask(c, r.s.db, op.id);
      LoggedTask(c, r, k);
      LoggedClaims(c.maxRetries, r.log, r.claims, k);
      if r.log[k].state == Claimed {
        var t := r.log[k].(state := Completed, completedAt := Some(op.now));
        CompletedBound(c.maxRetries, r.log[k], t, r.claims[k]);
        ClaimsAfterWrite(c.maxRetries, r.log, r.claims, k, t, r.claims[k]);
      }
    }
  }

  lemma NackKeepsClaims(c: Config, r: Run, op: Op)
    requires OrderInv(c, r) && ClaimInv(c.maxRetries, r.log, r.claims) && Possible(c, r, op) && op.Nack?
    ensures ClaimInv(c.maxRetries, Advance(c, r, op).log, Advance(c, r, op).claims)
  {
    hide OrderInv;
    hide Advance;
    hide Choice;
    hide Locate;
    hide IsTask;
    hide Tasks;
    hide KeyBytes;
    hide ClaimInv;
    hide ClaimBound;
    hide Claim;
    hide Returned;
    StepKeepsOrder(c, r, op);
    Advanced(c, r, op);
    OrderNeedsRetries(c, r);
    if Locate(c, r.s.db, op.id).Some? {
      var k := Locate(c, r.s.db, op.id).value;
      LocatedIsTask(c, r.s.db, op.id);
      LoggedTask(c, r, k);
      LoggedClaims(c.maxRetries, r.log, r.claims, k);
      ReturnedBound(c, r.log[k], r.claims[k]);
      ClaimsAfterWrite(c.maxRetries, r.log, r.claims, k, Returned(c, r.log[k]), r.claims[k]);
    }
  }

  lemma EnqueueKeepsClaims(c: Config, r: Run, op: Op)
    requires OrderInv(c, r) && ClaimInv(c.maxRetries, r.log, r.claims) && Possible(c, r, op) && op.Enqueue?
    ensures ClaimInv(c.maxRetries, Advance(c, r, op).log, Advance(c, r, op).claims)
  {
    hide OrderInv;
    hide Advance;
    hide Choice;
    hide Locate;
    hide IsTask;
    hide Tasks;
    hide KeyBytes;
    hide ClaimInv;
    hide ClaimBound;
    hide Claim;
    hide Returned;
    StepKeepsOrder(c, r, op);
    Advanced(c, r, op);
    OrderNeedsRetries(c, r);
    var k, t := KeyBytes(NewKey(c, r.s, op.priority, op.id, op.now)), NewTask(op.priority, op.payload, op.metadata, op.id, op.now);
    NewTaskBound(c.maxRetries, t);
    ClaimsAfterWrite(c.maxRetries, r.log, r.claims, k, t, 0);
  }

  /** Every operation keeps the bound on claims, Nack in any state included. */
  lemma StepKeepsClaims(c: Config, r: Run, op: Op)
    requires OrderInv(c, r) && ClaimInv(c.maxRetries, r.log, r.claims) && Possible(c, r, op)
    ensures ClaimInv(c.maxRetries, Advance(c, r, op).log, Advance(c, r, op).claims)
  {
    hide OrderInv;
    hide ClaimInv;
    hide Possible;
    match op
    case Enqueue(_, _, _, _, _) => EnqueueKeepsClaims(c, r, op);
    case Dequeue(_, _) => DequeueKeepsClaims(c, r, op);
    case Ack(_, _) => AckKeepsClaims(c, r, op);
    case Nack(_) => NackKeepsClaims(c, r, op);
    case Purge => StepKeepsOrder(c, r, op);
  }

  lemma OrderNeedsRetries(c: Config, r: Run)
    requires OrderInv(c, r)
    ensures c.maxRetries >= 1
  {
  }

  lemma LoggedClaims(maxRetries: int, log: map<ByteString, Task>, claims: map<ByteString, int>, k: ByteString)
    requires ClaimInv(maxRetries, log, claims) && k in log
    ensures k in claims && ClaimBound(maxRetries, log[k], claims[k]) && claims[k := claims[k]] == claims
  {
  }

  /** The exact account of retries implies the bound. */
  lemma RetriesBoundClaims(maxRetries: int, log: map<ByteString, Task>, claims: map<ByteString, int>)
    requires Retries(maxRetries, log, claims) && maxRetries >= 0
    ensures ClaimInv(maxRetries, log, claims)
  {
  }

  // ---------------------------------------------------------------- the counters

  lemma EnqueueKeepsInv(c: Config, r: Run, op: Op)
    requires Inv(c, r) && Legal(c, r, op) && op.Enqueue?
    ensures Inv(c, Advance(c, r, op)) && Advance(c, r, op).log == LogAfter(c, r, op)
  {
    hide KeyBytes;
    hide Tasks;
    hide CountersOf;
    hide OrderInv;
    hide Advance;
    hide Count;
    hide Retries;
    hide Step;
    var key, t := NewKey(c, r.s, op.priority, op.id, op.now), NewTask(op.priority, op.payload, op.metadata, op.id, op.now);
    Advanced(c, r, op);
    EnqueueKeepsOrder(c, r, op);
    EnqueueEffect(c, r.s, op);
    OrderNeedsRetries(c, r);
    LedgerWrite(CountersOf(c.name, r.s.db), r.log, KeyBytes(key), t, CountersOf(c.name, Advance(c, r, op).s.db));
    RetriesAfterWrite(c.maxRetries, r.log, r.claims, KeyBytes(key), t);
  }

  lemma DequeueKeepsInv(c: Config, r: Run, op: Op)
    requires Inv(c, r) && Legal(c, r, op) && op.Dequeue?
    ensures Inv(c, Advance(c, r, op)) && Advance(c, r, op).log == LogAfter(c, r, op)
  {
    hide Tasks;
    hide CountersOf;
    hide OrderInv;
    hide Choice;
    hide ClaimAt;
    hide IsTask;
    hide Advance;
    hide Count;
    hide Retries;
    Advanced(c, r, op);
    DequeueKeepsOrder(c, r, op);
    if Choice(c, r.s.db, op.now).Some? {
      var k := Choice(c, r.s.db, op.now).value;
      ChosenIsPending(c, r.s.db, op.now);
      var t := Claim(r.s.db[k].task, op.worker, op.now);
      ShownTask(c, r, k);
      ClaimEffect(c, r.s.db, k, op.worker, op.now);
      LedgerWrite(CountersOf(c.name, r.s.db), r.log, k, t, CountersOf(c.name, Advance(c, r, op).s.db));
      RetriesAfterWrite(c.maxRetries, r.log, r.claims, k, t);
    }
  }

  lemma AckKeepsInv(c: Config, r: Run, op: Op)
    requires Inv(c, r) && Legal(c, r, op) && op.Ack?
    ensures Inv(c, Advance(c, r, op)) && Advance(c, r, op).log == LogAfter(c, r, op)
  {
    hide Tasks;
    hide CountersOf;
    hide OrderInv;
    hide Locate;
    hide CompleteAt;
    hide IsTask;
    hide Advance;
    hide Count;
    hide Retries;
    Advanced(c, r, op);
    AckKeepsOrder(c, r, op);
    if Locate(c, r.s.db, op.id).Some? {
      var k := Locate(c, r.s.db, op.id).value;
      LocatedIsTask(c, r.s.db, op.id);
      ShownTask(c, r, k);
      if r.log[k].state == Claimed {
        var t := r.s.db[k].task.(state := Completed, completedAt := Some(op.now));
        CompleteEffect(c, r.s.db, k, op.now);
        LedgerWrite(CountersOf(c.name, r.s.db), r.log, k, t, CountersOf(c.name, Advance(c, r, op).s.db));
        RetriesAfterWrite(c.maxRetries, r.log, r.claims, k, t);
        assert r.claims[k := ClaimsMade(t)] == r.claims;
      }
    }
  }

  lemma NackKeepsInv(c: Config, r: Run, op: Op)
    requires Inv(c, r) && Legal(c, r, op) && op.Nack?
    ensures Inv(c, Advance(c, r, op)) && Advance(c, r, op).log == LogAfter(c, r, op)
  {
    hide Tasks;
    hide CountersOf;
    hide OrderInv;
    hide Locate;
    hide ReturnAt;
    hide IsTask;
    hide Advance;
    hide Count;
    hide Retries;
    Advanced(c, r, op);
    NackKeepsOrder(c, r, op);
    if Locate(c, r.s.db, op.id).Some? {
      var k := Locate(c, r.s.db, op.id).value;
      LocatedIsTask(c, r.s.db, op.id);
      var t := Returned(c, r.s.db[k].task);
      ShownTask(c, r, k);
      ReturnEffect(c, r.s.db, k);
      LedgerWrite(CountersOf(c.name, r.s.db), r.log, k, t, CountersOf(c.name, Advance(c, r, op).s.db));
      RetriesAfterWrite(c.maxRetries, r.log, r.claims, k, t);
      assert r.claims[k := ClaimsMade(t)] == r.claims;
    }
  }

  lemma StepKeepsInv(c: Config, r: Run, op: Op)
    requires Inv(c, r) && Legal(c, r, op)
    ensures Inv(c, Advance(c, r, op)) && Advance(c, r, op).log == LogAfter(c, r, op)
  {
    match op
    case Enqueue(_, _, _, _, _) => EnqueueKeepsInv(c, r, op);
    case Dequeue(_, _) => DequeueKeepsInv(c, r, op);
    case Ack(_, _) => AckKeepsInv(c, r, op);
    case Nack(_) => NackKeepsInv(c, r, op);
    case Purge =>
      PurgeKeepsOrder(c, r, op);
      PurgeEffect(c, r.s.db);
  }
}
