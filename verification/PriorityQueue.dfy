/** The `PriorityQueue` object (queue.go), method by method, over an ordered key-value store. */
module PriorityQueue {
  import opened Bytes
  import opened QueueKey
  import opened QueueModel
  import opened Options
  import opened OrderedStore

  /** The abstract ordered store: a map, plus which scan interfaces it offers. */
  class Store {
    var data: Db
    const iterates: bool
    const scans: bool

    constructor (iterates: bool, scans: bool)
      ensures data == map[] && this.iterates == iterates && this.scans == scans
    {
      this.data := map[];
      this.iterates := iterates;
      this.scans := scans;
    }

    method Put(k: ByteString, v: Value)
      modifies this
      ensures data == old(data)[k := v]
    {
      data := data[k := v];
    }

    method Get(k: ByteString) returns (v: Option<Value>)
      ensures v == if k in data then Some(data[k]) else None
    {
      v := if k in data then Some(data[k]) else None;
    }

    method Delete(k: ByteString)
      modifies this
      ensures data == old(data) - {k}
    {
      data := data - {k};
    }

    method ScanPrefix(prefix: ByteString) returns (kvs: seq<Entry<Value>>)
      ensures IsListing(kvs, data, prefix)
    {
      kvs := OrderedStore.ScanPrefix(data, prefix);
    }
  }

  predicate IsFinished(v: Value) {
    v.TaskValue? && (v.task.state == Completed || v.task.state == DeadLettered)
  }

  /** The keys of the finished tasks in a listing, each once. */
  method CollectFinished(kvs: seq<Entry<Value>>) returns (toDelete: seq<ByteString>)
    requires forall i, j :: 0 <= i < j < |kvs| ==> kvs[i].0 != kvs[j].0
    ensures Elements(toDelete) == Finished(kvs, |kvs|) && |toDelete| == |Elements(toDelete)|
  {
    toDelete := [];
    for i := 0 to |kvs|
      invariant Elements(toDelete) == Finished(kvs, i)
      invariant |toDelete| == |Elements(toDelete)|
    {
      if IsFinished(kvs[i].1) {
        assert kvs[i].0 !in Elements(toDelete);
        assert Elements(toDelete + [kvs[i].0]) == Elements(toDelete) + {kvs[i].0};
        toDelete := toDelete + [kvs[i].0];
      }
    }
  }

  ghost function Finished(kvs: seq<Entry<Value>>, i: nat): set<ByteString>
    requires i <= |kvs|
  {
    set j | 0 <= j < i && IsFinished(kvs[j].1) :: kvs[j].0
  }

  lemma FinishedAreTerminal(kvs: seq<Entry<Value>>, name: ByteString, db: Db)
    requires IsListing(kvs, db, Prefix(name))
    ensures Finished(kvs, |kvs|) == TerminalKeys(name, db)
    ensures forall i, j :: 0 <= i < j < |kvs| ==> kvs[i].0 != kvs[j].0
  {
    ListingDistinct(kvs, db, Prefix(name));
    forall k | k in TerminalKeys(name, db) ensures k in Finished(kvs, |kvs|) {
      var i :| 0 <= i < |kvs| && kvs[i].0 == k;
    }
  }

  /** Decodes a scanned key to test its timestamp; undecodable keys are skipped. */
  method IsDue(k: ByteString, now: Int64) returns (due: bool)
    ensures due <==> IsReady(k, now)
  {
    var qk := DecodeQueueKey(k);
    if qk.Ok? {
      forall key | Canonical(key) && KeyBytes(key) == k ensures key == qk.key {
        KeyBytesInjective(key, qk.key);
      }
    }
    due := qk.Ok? && qk.key.readyTs <= now;
  }

  class PriorityQueue {
    const db: Store
    const config: Config
    var sequenceCounter: Uint64

    ghost function State(): State
      reads this, db
    {
      QueueModel.State(db.data, sequenceCounter)
    }

    ghost predicate Valid() {
      config.iterates == db.iterates && config.scans == db.scans && config.maxRetries >= 1
    }

    /** Non-positive or missing retry limits fall back to 3. */
    constructor (db: Store, name: ByteString, maxRetries: Option<int>)
      ensures Valid() && this.db == db && sequenceCounter == 0 && config.name == name
      ensures config.maxRetries == if maxRetries.Some? && maxRetries.value > 0 then maxRetries.value else 3
    {
      this.db := db;
      var retries := 3;
      if maxRetries.Some? && maxRetries.value > 0 {
        retries := maxRetries.value;
      }
      this.config := Config(name, retries, db.iterates, db.scans);
      this.sequenceCounter := 0;
    }

    method ReadStat(st: Stat) returns (n: int)
      ensures n == GetStat(db.data, config.name, st)
    {
      var v := db.Get(StatKey(config.name, st));
      n := if v.Some? && v.value.CountValue? then v.value.count else 0;
    }

    method IncrementStat(st: Stat)
      modifies db
      ensures db.data == Increment(old(db.data), config.name, st)
    {
      var current := ReadStat(st);
      db.Put(StatKey(config.name, st), CountValue(current + 1));
    }

    method DecrementStat(st: Stat)
      modifies db
      ensures db.data == Decrement(old(db.data), config.name, st)
    {
      var current := ReadStat(st);
      if current > 0 {
        db.Put(StatKey(config.name, st), CountValue(current - 1));
      }
    }

    /** `id` stands for the fresh random identifier that the source draws. */
    method Enqueue(priority: Int64, payload: ByteString, metadata: ByteString, id: ByteString, now: Int64)
      returns (taskID: ByteString)
      requires Valid()
      modifies this, db
      ensures taskID == id
      ensures State() == Step(config, old(State()), Op.Enqueue(priority, payload, metadata, id, now))
      ensures var k := KeyBytes(Key(config.name, priority, now, old(sequenceCounter), id));
              && k in db.data
              && db.data[k] == TaskValue(Task(id, priority, payload, Pending, now, None, [], None, 0, metadata))
    {
      EnqueueWrites(config, State(), priority, payload, metadata, id, now);
      taskID := id;
      var key := Key(config.name, priority, now, sequenceCounter, taskID);
      sequenceCounter := (sequenceCounter + 1) % TWO64;
      var task := Task(taskID, priority, payload, Pending, now, None, [], None, 0, metadata);
      var keyBuf := Encode(key);
      db.Put(keyBuf[..], TaskValue(task));
      IncrementStat(TotalEnqueued);
      IncrementStat(PendingStat);
    }

    method ClaimTask(k: ByteString, t: Task, worker: ByteString, now: Int64) returns (claimed: Task)
      requires IsTask(config.name, db.data, k) && db.data[k] == TaskValue(t)
      modifies db
      ensures claimed == Claim(t, worker, now)
      ensures db.data == ClaimAt(config, old(db.data), k, worker, now)
    {
      claimed := t.(state := Claimed, claimedAt := Some(now), claimedBy := worker);
      db.Put(k, TaskValue(claimed));
      DecrementStat(PendingStat);
      IncrementStat(ClaimedStat);
      IncrementStat(TotalDequeued);
    }

    /** The iterator path: pending, decodable, due. */
    method FindReady(now: Int64) returns (k: Option<ByteString>)
      requires Valid()
      ensures k == First(ReadyKeys(config.name, db.data, now))
    {
      var kvs := db.ScanPrefix(Prefix(config.name));
      ghost var ready := ReadyKeys(config.name, db.data, now);
      for i := 0 to |kvs|
        invariant forall j :: 0 <= j < i ==> kvs[j].0 !in ready
      {
        FirstInListing(kvs, db.data, Prefix(config.name), ready, i);
        if kvs[i].1.TaskValue? && kvs[i].1.task.state == Pending {
          var due := IsDue(kvs[i].0, now);
          if due {
            return Some(kvs[i].0);
          }
        }
      }
      FirstInListing(kvs, db.data, Prefix(config.name), ready, |kvs|);
      return None;
    }

    /** The IPC path: pending. */
    method FindPending() returns (k: Option<ByteString>)
      requires Valid()
      ensures k == First(PendingKeys(config.name, db.data))
    {
      var kvs := db.ScanPrefix(Prefix(config.name));
      ghost var pending := PendingKeys(config.name, db.data);
      for i := 0 to |kvs|
        invariant forall j :: 0 <= j < i ==> kvs[j].0 !in pending
      {
        FirstInListing(kvs, db.data, Prefix(config.name), pending, i);
        if kvs[i].1.TaskValue? && kvs[i].1.task.state == Pending {
          return Some(kvs[i].0);
        }
      }
      FirstInListing(kvs, db.data, Prefix(config.name), pending, |kvs|);
      return None;
    }

    method Dequeue(worker: ByteString, now: Int64) returns (r: Option<Task>)
      requires Valid()
      modifies db
      ensures State() == Step(config, old(State()), Op.Dequeue(worker, now))
      ensures r.Some? <==> Choice(config, old(db.data), now).Some?
      ensures r.Some? ==>
                var k := Choice(config, old(db.data), now).value;
                var t := old(db.data)[k].task;
                && t.state == Pending
                && r.value == Task(t.taskID, t.priority, t.payload, Claimed, t.enqueuedAt, Some(now), worker,
                                   t.completedAt, t.retries, t.metadata)
                && k in db.data && db.data[k] == TaskValue(r.value)
    {
      if Choice(config, db.data, now).Some? {
        ClaimWrites(config, db.data, Choice(config, db.data, now).value, worker, now);
      }
      if db.iterates {
        var k := FindReady(now);
        if k.Some? {
          var t := ClaimTask(k.value, db.data[k.value].task, worker, now);
          return Some(t);
        }
      }
      if db.scans {
        var k := FindPending();
        if k.Some? {
          var t := ClaimTask(k.value, db.data[k.value].task, worker, now);
          return Some(t);
        }
      }
      return None;
    }

    /** The scan shared by getTask and updateTask. */
    method FindTask(id: ByteString) returns (k: Option<ByteString>)
      requires Valid()
      ensures k == Locate(config, db.data, id)
    {
      if !db.iterates && !db.scans {
        return None;
      }
      var kvs := db.ScanPrefix(Prefix(config.name));
      ghost var keys := KeysOf(config.name, db.data, id);
      for i := 0 to |kvs|
        invariant forall j :: 0 <= j < i ==> kvs[j].0 !in keys
      {
        FirstInListing(kvs, db.data, Prefix(config.name), keys, i);
        if kvs[i].1.TaskValue? && kvs[i].1.task.taskID == id {
          return Some(kvs[i].0);
        }
      }
      FirstInListing(kvs, db.data, Prefix(config.name), keys, |kvs|);
      return None;
    }

    method GetTask(id: ByteString) returns (t: Option<Task>)
      requires Valid()
      ensures Locate(config, db.data, id).None? ==> t == None
      ensures Locate(config, db.data, id).Some? ==> t == Some(db.data[Locate(config, db.data, id).value].task)
    {
      var k := FindTask(id);
      t := if k.Some? then Some(db.data[k.value].task) else None;
    }

    /** Rewrites the task under the key it was found at: a task never changes its key. */
    method UpdateTask(t: Task)
      requires Valid()
      modifies db
      ensures db.data == match Locate(config, old(db.data), t.taskID)
                         case None => old(db.data)
                         case Some(k) => old(db.data)[k := TaskValue(t)]
    {
      var k := FindTask(t.taskID);
      if k.Some? {
        db.Put(k.value, TaskValue(t));
      }
    }

    method Ack(id: ByteString, now: Int64) returns (a: Answer)
      requires Valid()
      modifies db
      ensures a == AckAnswer(config, old(db.data), id)
      ensures State() == Step(config, old(State()), Op.Ack(id, now))
      ensures a == NotFound <==>
                !(config.iterates || config.scans) || forall k :: !Bears(config.name, old(db.data), k, id)
      ensures a == Done ==>
                var k := Locate(config, old(db.data), id).value;
                var t := old(db.data)[k].task;
                && t.taskID == id && t.state == Claimed
                && k in db.data
                && db.data[k] == TaskValue(Task(id, t.priority, t.payload, Completed, t.enqueuedAt, t.claimedAt, t.claimedBy,
                                                Some(now), t.retries, t.metadata))
    {
      AckAnswers(config, db.data, id);
      if AckAnswer(config, db.data, id) == Done {
        CompleteWrites(config, db.data, Locate(config, db.data, id).value, now);
      }
      var task := GetTask(id);
      if task.None? {
        return NotFound;
      }
      if task.value.state != Claimed {
        return NotClaimed;
      }
      UpdateTask(task.value.(state := Completed, completedAt := Some(now)));
      DecrementStat(ClaimedStat);
      IncrementStat(CompletedStat);
      return Done;
    }

    method Nack(id: ByteString) returns (a: Answer)
      requires Valid()
      modifies db
      ensures a == if Locate(config, old(db.data), id).None? then NotFound else Done
      ensures State() == Step(config, old(State()), Op.Nack(id))
      ensures a == Done ==>
                var k := Locate(config, old(db.data), id).value;
                var t := old(db.data)[k].task;
                && t.taskID == id
                && k in db.data
                && db.data[k] == TaskValue(
                     if t.retries + 1 < config.maxRetries
                     then Task(id, t.priority, t.payload, Pending, t.enqueuedAt, None, [],
                               t.completedAt, t.retries + 1, t.metadata)
                     else Task(id, t.priority, t.payload, DeadLettered, t.enqueuedAt, t.claimedAt, t.claimedBy,
                               t.completedAt, t.retries + 1, t.metadata))
    {
      if Locate(config, db.data, id).Some? {
        ReturnWrites(config, db.data, Locate(config, db.data, id).value);
      }
      var found := GetTask(id);
      if found.None? {
        return NotFound;
      }
      var task := found.value.(retries := found.value.retries + 1);
      var st := PendingStat;
      if task.retries >= config.maxRetries {
        task, st := task.(state := DeadLettered), DeadLetteredStat;
      } else {
        task := task.(state := Pending, claimedAt := None, claimedBy := []);
      }
      assert task == Returned(config, found.value);
      Resettle(task, st);
      return Done;
    }

    /** The common tail of Nack's two branches. */
    method Resettle(t: Task, st: Stat)
      requires Valid()
      modifies db
      ensures db.data == match Locate(config, old(db.data), t.taskID)
                         case None => Increment(Decrement(old(db.data), config.name, ClaimedStat), config.name, st)
                         case Some(k) =>
                           Increment(Decrement(old(db.data)[k := TaskValue(t)], config.name, ClaimedStat), config.name, st)
    {
      UpdateTask(t);
      DecrementStat(ClaimedStat);
      IncrementStat(st);
    }

    method Purge() returns (purged: nat)
      requires Valid()
      modifies db
      ensures purged == if config.iterates || config.scans then |TerminalKeys(config.name, old(db.data))| else 0
      ensures State() == Step(config, old(State()), Op.Purge)
      ensures forall k ::
                && (k in db.data <==>
                      && k in old(db.data)
                      && !(&& (config.iterates || config.scans) && Prefix(config.name) <= k && old(db.data)[k].TaskValue?
                           && old(db.data)[k].task.state in {Completed, DeadLettered}))
                && (k in db.data ==> db.data[k] == old(db.data)[k])
    {
      PurgeRemoves(config, db.data);
      purged := 0;
      if db.iterates || db.scans {
        var kvs := db.ScanPrefix(Prefix(config.name));
        FinishedAreTerminal(kvs, config.name, db.data);
        var toDelete := CollectFinished(kvs);
        ghost var before := db.data;
        for i := 0 to |toDelete|
          invariant purged == i
          invariant db.data == before - Elements(toDelete[..i])
        {
          assert toDelete[..i + 1] == toDelete[..i] + [toDelete[i]];
          db.Delete(toDelete[i]);
          purged := purged + 1;
        }
        assert toDelete[..|toDelete|] == toDelete;
      }
    }

    method Stats() returns (pending: int, claimed: int, completed: int, deadLettered: int, enqueued: int, dequeued: int)
      ensures pending == GetStat(db.data, config.name, PendingStat)
      ensures claimed == GetStat(db.data, config.name, ClaimedStat)
      ensures completed == GetStat(db.data, config.name, CompletedStat)
      ensures deadLettered == GetStat(db.data, config.name, DeadLetteredStat)
      ensures enqueued == GetStat(db.data, config.name, TotalEnqueued)
      ensures dequeued == GetStat(db.data, config.name, TotalDequeued)
    {
      pending := ReadStat(PendingStat);
      claimed := ReadStat(ClaimedStat);
      completed := ReadStat(CompletedStat);
      deadLettered := ReadStat(DeadLetteredStat);
      enqueued := ReadStat(TotalEnqueued);
      dequeued := ReadStat(TotalDequeued);
    }
  }
}
