/** What tasks carry: over every run, the arguments of the Enqueue that brought them, and the stamps of
    the claims, returns and completions since. Everything here is said of the fields themselves. */
module QueueContents {
  import opened Bytes
  import opened QueueKey
  import opened QueueModel
  import opened Options
  import opened QueueRuns
  import opened QueueTheorems

  // ---------------------------------------------------------------- the arguments of the arrivals

  /** The arrivals among the operations of a run, in order. */
  function Arrivals(ops: seq<Op>): seq<Op> {
    if ops == [] then [] else (if ops[0].Enqueue? then [ops[0]] else []) + Arrivals(ops[1..])
  }

  predicate Carries(t: Task, op: Op) {
    && op.Enqueue?
    && t.taskID == op.id && t.priority == op.priority && t.payload == op.payload && t.metadata == op.metadata
    && t.enqueuedAt == op.now
  }

  /** The i-th key and the task under it are made of the i-th arrival. */
  ghost predicate CarriesAt(c: Config, log: map<ByteString, Task>, key: Key, op: Op) {
    && op.Enqueue?
    && key.queueID == c.name && key.priority == op.priority && key.readyTs == op.now && key.taskID == op.id
    && KeyBytes(key) in log && Carries(log[KeyBytes(key)], op)
  }

  ghost predicate AllCarried(c: Config, r: Run, arrivals: seq<Op>) {
    |r.order| == |arrivals| && forall i :: 0 <= i < |arrivals| ==> CarriesAt(c, r.log, r.order[i], arrivals[i])
  }

  /** The fields that no operation changes. */
  predicate SameOrigin(t: Task, t': Task) {
    && t'.taskID == t.taskID && t'.priority == t.priority && t'.payload == t.payload && t'.metadata == t.metadata
    && t'.enqueuedAt == t.enqueuedAt
  }

  /** What happens to the history in one step: at most one task changes, and a new one has a new key. */
  lemma StepKeepsOrigins(c: Config, r: Run, op: Op)
    requires OrderInv(c, r) && Possible(c, r, op)
    ensures var r' := Advance(c, r, op);
            && (forall k :: k in r.log ==> k in r'.log && SameOrigin(r.log[k], r'.log[k]))
            && (!op.Enqueue? ==> r'.order == r.order)
            && (op.Enqueue? ==> |r'.order| == |r.order| + 1 && r'.order[..|r.order|] == r.order
                                && CarriesAt(c, r'.log, r'.order[|r.order|], op))
  {
    hide OrderInv;
    hide Advance;
    hide Choice;
    hide Locate;
    hide KeyBytes;
    StepKeepsOrder(c, r, op);
    Advanced(c, r, op);
    if op.Enqueue? {
      EnqueueKeepsOrder(c, r, op);
    }
  }

  lemma OneMoreCarried(c: Config, r: Run, r': Run, arrivals: seq<Op>, op: Op)
    requires AllCarried(c, r, arrivals)
    requires forall k :: k in r.log ==> k in r'.log && SameOrigin(r.log[k], r'.log[k])
    requires !op.Enqueue? ==> r'.order == r.order
    requires op.Enqueue? ==> |r'.order| == |r.order| + 1 && r'.order[..|r.order|] == r.order
                             && CarriesAt(c, r'.log, r'.order[|r.order|], op)
    ensures AllCarried(c, r', arrivals + if op.Enqueue? then [op] else [])
  {
    hide KeyBytes;
    forall i | 0 <= i < |arrivals| ensures CarriesAt(c, r'.log, r'.order[i], arrivals[i]) {
      assert CarriesAt(c, r.log, r.order[i], arrivals[i]);
      assert r'.order[..|r.order|][i] == r'.order[i];
    }
  }

  lemma NoSteps(c: Config, r: Run)
    ensures After(c, r, []) == r && Arrivals([]) == []
  {
  }

  lemma FirstStep(c: Config, r: Run, ops: seq<Op>)
    requires PossibleRun(c, r, ops) && ops != []
    ensures Possible(c, r, ops[0]) && PossibleRun(c, Advance(c, r, ops[0]), ops[1..])
    ensures After(c, r, ops) == After(c, Advance(c, r, ops[0]), ops[1..])
    ensures Arrivals(ops) == (if ops[0].Enqueue? then [ops[0]] else []) + Arrivals(ops[1..])
  {
    hide Possible;
    hide Advance;
  }

  lemma {:induction false} CarriedThroughout(c: Config, r: Run, ops: seq<Op>, arrivals: seq<Op>)
    requires OrderInv(c, r) && AllCarried(c, r, arrivals) && PossibleRun(c, r, ops)
    ensures AllCarried(c, After(c, r, ops), arrivals + Arrivals(ops))
    decreases |ops|
  {
    hide *;
    if ops == [] {
      NoSteps(c, r);
      assert arrivals + Arrivals(ops) == arrivals;
    } else {
      var first := if ops[0].Enqueue? then [ops[0]] else [];
      FirstStep(c, r, ops);
      StepKeepsOrder(c, r, ops[0]);
      StepKeepsOrigins(c, r, ops[0]);
      OneMoreCarried(c, r, Advance(c, r, ops[0]), arrivals, ops[0]);
      CarriedThroughout(c, Advance(c, r, ops[0]), ops[1..], arrivals + first);
      assert arrivals + first + Arrivals(ops[1..]) == arrivals + Arrivals(ops);
    }
  }

  /** Over every run of a fresh queue there are as many keys as Enqueues, and whatever followed, the i-th
      key and the task under it carry what the i-th Enqueue was given. */
  lemma EveryRunCarriesArrivals(c: Config, r: Run, ops: seq<Op>)
    requires Initial(c, r) && PossibleRun(c, r, ops)
    ensures var r', arrivals := After(c, r, ops), Arrivals(ops);
            && |r'.order| == |arrivals|
            && forall i :: 0 <= i < |arrivals| ==>
                 var key, op := r'.order[i], arrivals[i];
                 && op.Enqueue?
                 && key.queueID == c.name && key.priority == op.priority && key.readyTs == op.now && key.taskID == op.id
                 && KeyBytes(key) in r'.log
                 && var t := r'.log[KeyBytes(key)];
                    && t.taskID == op.id && t.priority == op.priority && t.payload == op.payload
                    && t.metadata == op.metadata && t.enqueuedAt == op.now
  {
    InitialInv(c, r);
    CarriedThroughout(c, r, ops, []);
    var r' := After(c, r, ops);
    assert [] + Arrivals(ops) == Arrivals(ops);
    assert AllCarried(c, r', Arrivals(ops));
    forall i | 0 <= i < |r'.order| ensures CarriesAt(c, r'.log, r'.order[i], Arrivals(ops)[i]) {}
    hide KeyBytes;
    hide After;
    hide Arrivals;
  }

  /** Whose task Dequeue takes, and what it writes. */
  lemma PlaceOfChosen(c: Config, r: Run, worker: ByteString, now: Int64) returns (i: nat)
    requires OrderAndClaims(c, r) && Choice(c, r.s.db, now).Some?
    ensures i < |r.order| && KeyBytes(r.order[i]) in r.log
    ensures var k, db' := KeyBytes(r.order[i]), Step(c, r.s, Op.Dequeue(worker, now)).db;
            && Choice(c, r.s.db, now) == Some(k)
            && k in db' && db'[k].TaskValue?
            && var t, t' := r.log[k], db'[k].task;
               && SameOrigin(t, t') && t'.state == Claimed && t'.claimedAt == Some(now) && t'.claimedBy == worker
  {
    hide Choice;
    hide KeyBytes;
    hide Tasks;
    hide ClaimAt;
    hide ClaimInv;
    var k := Choice(c, r.s.db, now).value;
    ChosenIsPending(c, r.s.db, now);
    LoggedTask(c, r, k);
    ClaimWrites(c, r.s.db, k, worker, now);
    assert Arrived(r.order, k);
    i :| 0 <= i < |r.order| && KeyBytes(r.order[i]) == k;
  }

  /** So a successful Dequeue hands out, and leaves in the store, the id, priority, payload, metadata and
      time of one Enqueue of the run, claimed by this worker at this time. */
  lemma HandedOut(c: Config, r: Run, ops: seq<Op>, worker: ByteString, now: Int64) returns (i: nat)
    requires Initial(c, r) && PossibleRun(c, r, ops)
    requires Choice(c, After(c, r, ops).s.db, now).Some?
    ensures i < |Arrivals(ops)| && Arrivals(ops)[i].Enqueue? && i < |After(c, r, ops).order|
    ensures var s, op := After(c, r, ops).s, Arrivals(ops)[i];
            var k, db' := KeyBytes(After(c, r, ops).order[i]), Step(c, s, Op.Dequeue(worker, now)).db;
            && Choice(c, s.db, now) == Some(k)
            && k in db' && db'[k].TaskValue?
            && var t := db'[k].task;
               && t.taskID == op.id && t.priority == op.priority && t.payload == op.payload && t.metadata == op.metadata
               && t.enqueuedAt == op.now && t.state == Claimed && t.claimedAt == Some(now) && t.claimedBy == worker
  {
    EveryRunKeepsOrder(c, r, ops);
    EveryRunCarriesArrivals(c, r, ops);
    hide *;
    i := PlaceOfChosen(c, After(c, r, ops), worker, now);
  }

  // ---------------------------------------------------------------- the stamps

  /** Nobody holds a pending task; claimed and completed ones say since when, and in this order. */
  predicate Stamped(t: Task, clock: Int64) {
    && t.enqueuedAt <= clock
    && (t.claimedAt.Some? ==> t.enqueuedAt <= t.claimedAt.value <= clock)
    && (t.completedAt.Some? ==> t.enqueuedAt <= t.completedAt.value <= clock)
    && (t.state == Pending ==> t.claimedAt == None && t.claimedBy == [])
    && (t.state == Claimed ==> t.claimedAt.Some?)
    && (t.state == Completed ==> t.claimedAt.Some? && t.completedAt.Some? && t.claimedAt.value <= t.completedAt.value)
  }

  ghost predicate AllStamped(r: Run) {
    forall k :: k in r.log ==> Stamped(r.log[k], r.clock)
  }

  lemma StepKeepsStamps(c: Config, r: Run, op: Op)
    requires OrderInv(c, r) && Possible(c, r, op) && AllStamped(r)
    ensures AllStamped(Advance(c, r, op))
  {
    hide OrderInv;
    hide Advance;
    hide Stamped;
    hide Choice;
    hide Locate;
    hide KeyBytes;
    hide Tasks;
    hide IsTask;
    StepKeepsOrder(c, r, op);
    Advanced(c, r, op);
    var clock' := Clock(r, op);
    forall k | k in r.log ensures Stamped(r.log[k], clock') {
      StampsAge(r.log[k], r.clock, clock');
    }
    match op
    case Enqueue(priority, payload, metadata, id, now) =>
      StampOfNew(NewTask(priority, payload, metadata, id, now), now);
    case Dequeue(worker, now) =>
      if Choice(c, r.s.db, now).Some? {
        var k := Choice(c, r.s.db, now).value;
        ChosenIsPending(c, r.s.db, now);
        LoggedTask(c, r, k);
        StampOfClaim(r.log[k], worker, now);
      }
    case Ack(id, now) =>
      var k := Locate(c, r.s.db, id);
      if k.Some? && k.value in r.log && r.log[k.value].state == Claimed {
        StampOfCompletion(r.log[k.value], now);
      }
    case Nack(id) =>
      var k := Locate(c, r.s.db, id);
      if k.Some? && k.value in r.log {
        StampOfReturn(c, r.log[k.value], clock');
      }
    case Purge =>
  }

  lemma StampsAge(t: Task, clock: Int64, clock': Int64)
    requires Stamped(t, clock) && clock <= clock'
    ensures Stamped(t, clock')
  {
  }

  lemma StampOfNew(t: Task, now: Int64)
    requires t.enqueuedAt == now && t.state == Pending && t.claimedAt == None && t.claimedBy == [] && t.completedAt == None
    ensures Stamped(t, now)
  {
  }

  lemma StampOfClaim(t: Task, worker: ByteString, now: Int64)
    requires Stamped(t, now)
    ensures Stamped(Claim(t, worker, now), now)
  {
  }

  lemma StampOfCompletion(t: Task, now: Int64)
    requires Stamped(t, now) && t.state == Claimed
    ensures Stamped(t.(state := Completed, completedAt := Some(now)), now)
  {
  }

  lemma StampOfReturn(c: Config, t: Task, clock: Int64)
    requires Stamped(t, clock)
    ensures Stamped(Returned(c, t), clock)
  {
  }

  lemma {:induction false} StampedThroughout(c: Config, r: Run, ops: seq<Op>)
    requires OrderInv(c, r) && AllStamped(r) && PossibleRun(c, r, ops)
    ensures AllStamped(After(c, r, ops))
    decreases |ops|
  {
    hide *;
    if ops == [] {
      NoSteps(c, r);
    } else {
      FirstStep(c, r, ops);
      StepKeepsOrder(c, r, ops[0]);
      StepKeepsStamps(c, r, ops[0]);
      StampedThroughout(c, Advance(c, r, ops[0]), ops[1..]);
    }
  }

  /** Over every run of a fresh queue, returns of any task included. */
  lemma EveryRunStampsTasks(c: Config, r: Run, ops: seq<Op>, k: ByteString)
    requires Initial(c, r) && PossibleRun(c, r, ops) && k in After(c, r, ops).log
    ensures var t, clock := After(c, r, ops).log[k], After(c, r, ops).clock;
            && t.enqueuedAt <= clock
            && (t.state == Pending ==> t.claimedAt == None && t.claimedBy == [])
            && (t.state == Claimed ==> t.claimedAt.Some? && t.enqueuedAt <= t.claimedAt.value <= clock)
            && (t.state == Completed ==> t.claimedAt.Some? && t.completedAt.Some?
                                         && t.enqueuedAt <= t.claimedAt.value <= t.completedAt.value <= clock)
  {
    InitialInv(c, r);
    StampedThroughout(c, r, ops);
    hide After;
  }
}
