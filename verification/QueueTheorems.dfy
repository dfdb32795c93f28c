/** The promises of the priority queue, over every run. */
module QueueTheorems {
  import opened Bytes
  import opened QueueKey
  import opened QueueModel
  import opened Options
  import opened QueueRuns
  import opened MapSums

  // ---------------------------------------------------------------- whole runs

  ghost function After(c: Config, r: Run, ops: seq<Op>): Run
    decreases |ops|
  {
    if ops == [] then r else After(c, Advance(c, r, ops[0]), ops[1..])
  }

  ghost predicate LegalRun(c: Config, r: Run, ops: seq<Op>)
    decreases |ops|
  {
    ops == [] || (Legal(c, r, ops[0]) && LegalRun(c, Advance(c, r, ops[0]), ops[1..]))
  }

  ghost predicate PossibleRun(c: Config, r: Run, ops: seq<Op>)
    decreases |ops|
  {
    ops == [] || (Possible(c, r, ops[0]) && PossibleRun(c, Advance(c, r, ops[0]), ops[1..]))
  }

  lemma InitialInv(c: Config, r: Run)
    requires Initial(c, r)
    ensures Inv(c, r)
  {
  }

  lemma {:induction false} InvThroughout(c: Config, r: Run, ops: seq<Op>)
    requires Inv(c, r) && LegalRun(c, r, ops)
    ensures Inv(c, After(c, r, ops))
    decreases |ops|
  {
    if ops != [] {
      StepKeepsInv(c, r, ops[0]);
      InvThroughout(c, Advance(c, r, ops[0]), ops[1..]);
    }
  }

  /** Every state a fresh queue can reach satisfies the invariant. */
  lemma EveryRunKeepsInv(c: Config, r: Run, ops: seq<Op>)
    requires Initial(c, r) && LegalRun(c, r, ops)
    ensures Inv(c, After(c, r, ops))
  {
    InitialInv(c, r);
    InvThroughout(c, r, ops);
  }

  ghost predicate OrderAndClaims(c: Config, r: Run) {
    OrderInv(c, r) && ClaimInv(c.maxRetries, r.log, r.claims)
  }

  lemma {:induction false} OrderThroughout(c: Config, r: Run, ops: seq<Op>)
    requires OrderAndClaims(c, r) && PossibleRun(c, r, ops)
    ensures OrderAndClaims(c, After(c, r, ops))
    decreases |ops|
  {
    if ops != [] {
      hide OrderInv;
      hide ClaimInv;
      hide Possible;
      hide Advance;
      StepKeepsOrder(c, r, ops[0]);
      StepKeepsClaims(c, r, ops[0]);
      OrderThroughout(c, Advance(c, r, ops[0]), ops[1..]);
    }
  }

  /** Every state that a fresh queue can reach keeps the order of arrival and the bound on claims, even
      when tasks are returned that nobody had claimed. */
  lemma EveryRunKeepsOrder(c: Config, r: Run, ops: seq<Op>)
    requires Initial(c, r) && PossibleRun(c, r, ops)
    ensures OrderAndClaims(c, After(c, r, ops))
  {
    OrderThroughout(c, r, ops);
  }

  // ---------------------------------------------------------------- the ledger

  ghost function KeysIn(tasks: map<ByteString, Task>, st: TaskState): set<ByteString> {
    set k | k in tasks && tasks[k].state == st
  }

  lemma CountIsCardinality(tasks: map<ByteString, Task>, st: TaskState)
    ensures Count(tasks, st) == |KeysIn(tasks, st)|
  {
    hide Sum;
    SumIndicator(tasks, InState(st), KeysIn(tasks, st));
  }

  lemma CountsCoverLog(log: map<ByteString, Task>)
    ensures Count(log, Pending) + Count(log, Claimed) + Count(log, Completed) + Count(log, DeadLettered) == |log|
  {
    hide Sum;
    SumPartition(log, InState(Pending), InState(Claimed), InState(Completed), InState(DeadLettered));
  }

  lemma LiveTasksAreShown(tasks: map<ByteString, Task>, log: map<ByteString, Task>, st: TaskState)
    requires Faithful(tasks, log)
    ensures !Terminal(st) ==> KeysIn(log, st) == KeysIn(tasks, st)
    ensures KeysIn(log, st) == KeysIn(tasks, st) + KeysIn(log - tasks.Keys, st)
    ensures |KeysIn(log, st)| == |KeysIn(tasks, st)| + |KeysIn(log - tasks.Keys, st)|
  {
    var shown, gone := KeysIn(tasks, st), KeysIn(log - tasks.Keys, st);
    forall k ensures k in KeysIn(log, st) <==> k in shown || k in gone {}
    assert KeysIn(log, st) == shown + gone;
    hide *;
    DisjointSizes(shown, gone);
  }

  lemma DisjointSizes(a: set<ByteString>, b: set<ByteString>)
    requires a !! b
    ensures |a + b| == |a| + |b|
  {
  }

  function IntValue(): int -> int { (n: int) => n }

  lemma {:induction false} ClaimsTotal(maxRetries: int, log: map<ByteString, Task>, claims: map<ByteString, int>)
    requires Retries(maxRetries, log, claims)
    ensures Sum(claims, IntValue()) == Count(log, Claimed) + Count(log, Completed) + Sum(log, RetriesOf())
    decreases |log|
  {
    if log == map[] {
      assert claims == map[];
    } else {
      hide Sum;
      hide Retries;
      hide InState;
      hide RetriesOf;
      hide IntValue;
      hide ClaimsMade;
      var k :| k in log;
      RetriesWithout(maxRetries, log, claims, k);
      ClaimsOfOne(log[k]);
      SumRemove(log, InState(Claimed), k);
      SumRemove(log, InState(Completed), k);
      SumRemove(log, RetriesOf(), k);
      SumRemove(claims, IntValue(), k);
      ClaimsTotal(maxRetries, log - {k}, claims - {k});
    }
  }

  lemma ClaimsOfOne(t: Task)
    ensures IntValue()(ClaimsMade(t)) == InState(Claimed)(t) + InState(Completed)(t) + RetriesOf()(t)
  {
  }

  lemma RetriesWithout(maxRetries: int, log: map<ByteString, Task>, claims: map<ByteString, int>, k: ByteString)
    requires Retries(maxRetries, log, claims) && k in log
    ensures k in claims && claims[k] == ClaimsMade(log[k])
    ensures Retries(maxRetries, log - {k}, claims - {k})
  {
    hide RetryBound;
    hide ClaimsMade;
  }

  /** What the stored counters mean: pending and claimed count the tasks in the store, completed and
      dead-lettered also those purged, totalEnqueued every task that ever arrived, and totalDequeued
      every claim ever made. */
  lemma LedgerIsExact(c: Config, r: Run)
    requires Inv(c, r)
    ensures var tasks := Tasks(c.name, r.s.db);
            var purged := r.log - tasks.Keys;
            && GetStat(r.s.db, c.name, PendingStat) == |KeysIn(tasks, Pending)|
            && GetStat(r.s.db, c.name, ClaimedStat) == |KeysIn(tasks, Claimed)|
            && GetStat(r.s.db, c.name, CompletedStat) == |KeysIn(tasks, Completed)| + |KeysIn(purged, Completed)|
            && GetStat(r.s.db, c.name, DeadLetteredStat) == |KeysIn(tasks, DeadLettered)| + |KeysIn(purged, DeadLettered)|
            && GetStat(r.s.db, c.name, TotalEnqueued) == |r.log|
            && GetStat(r.s.db, c.name, TotalDequeued) == Sum(r.claims, IntValue())
  {
    var tasks := Tasks(c.name, r.s.db);
    hide Tasks;
    hide Ordered;
    hide Faithful;
    hide Retries;
    hide Count;
    hide KeysIn;
    hide Sum;
    hide GetStat;
    CountIsCardinality(r.log, Pending);
    CountIsCardinality(r.log, Claimed);
    CountIsCardinality(r.log, Completed);
    CountIsCardinality(r.log, DeadLettered);
    LiveTasksAreShown(tasks, r.log, Pending);
    LiveTasksAreShown(tasks, r.log, Claimed);
    LiveTasksAreShown(tasks, r.log, Completed);
    LiveTasksAreShown(tasks, r.log, DeadLettered);
    CountsCoverLog(r.log);
    ClaimsTotal(c.maxRetries, r.log, r.claims);
  }

  /** decrementStat skips a counter that is not positive; in a legal step it never has to. */
  lemma NoDecrementIsSkipped(c: Config, r: Run, op: Op)
    requires Inv(c, r) && Legal(c, r, op)
    ensures op.Dequeue? && Choice(c, r.s.db, op.now).Some? ==> GetStat(r.s.db, c.name, PendingStat) > 0
    ensures op.Ack? && AckAnswer(c, r.s.db, op.id) == Done ==> GetStat(r.s.db, c.name, ClaimedStat) > 0
    ensures op.Nack? && Locate(c, r.s.db, op.id).Some? ==> GetStat(r.s.db, c.name, ClaimedStat) > 0
  {
    hide Tasks;
    hide Choice;
    hide Locate;
    hide Count;
    hide GetStat;
    hide Ordered;
    hide Faithful;
    hide Retries;
    hide IsTask;
    if op.Dequeue? && Choice(c, r.s.db, op.now).Some? {
      ChosenIsPending(c, r.s.db, op.now);
      ShownTask(c, r, Choice(c, r.s.db, op.now).value);
    }
    if (op.Ack? || op.Nack?) && Locate(c, r.s.db, op.id).Some? {
      LocatedIsTask(c, r.s.db, op.id);
      ShownTask(c, r, Locate(c, r.s.db, op.id).value);
    }
  }

  /** Nack does not look at the task's state. Returning a task that is not claimed always breaks the
      ledger, and returning a claimed one never does. */
  lemma NackKeepsLedgerExactly(c: Config, r: Run, id: ByteString)
    requires Inv(c, r) && Locate(c, r.s.db, id).Some?
    ensures var r' := Advance(c, r, Nack(id));
            Ledger(CountersOf(c.name, r'.s.db), r'.log) <==>
            r.s.db[Locate(c, r.s.db, id).value].task.state == Claimed
  {
    hide Tasks;
    hide CountersOf;
    hide Ordered;
    hide Locate;
    hide ReturnAt;
    hide IsTask;
    hide Advance;
    hide Faithful;
    hide Retries;
    hide Count;
    hide Sum;
    var op := Nack(id);
    var r' := Advance(c, r, op);
    Advanced(c, r, op);
    var k := Locate(c, r.s.db, id).value;
    LocatedIsTask(c, r.s.db, id);
    ShownTask(c, r, k);
    var t := Returned(c, r.s.db[k].task);
    ReturnEffect(c, r.s.db, k);
    FaithfulAfterWrite(Tasks(c.name, r.s.db), r.log, k, t);
    LedgerWrite(CountersOf(c.name, r.s.db), r.log, k, t, CountersOf(c.name, r'.s.db));
  }

  // ---------------------------------------------------------------- retries

  /** No task is ever claimed more often than the retry limit allows, whatever is returned. */
  lemma ClaimsBounded(c: Config, r: Run, k: ByteString)
    requires ClaimInv(c.maxRetries, r.log, r.claims) && k in r.log
    ensures k in r.claims && 0 <= r.claims[k] <= c.maxRetries
    ensures r.log[k].state == DeadLettered <==> r.log[k].retries >= c.maxRetries
    ensures r.log[k].state == DeadLettered || r.claims[k] <= r.log[k].retries + 1
  {
  }

  /** While only claimed tasks are returned, retries stop at the limit, a task was claimed once for each
      of them, and a dead-lettered task was claimed exactly as often as the limit says. */
  lemma ClaimsExact(c: Config, r: Run, k: ByteString)
    requires Inv(c, r) && k in r.log
    ensures k in r.claims && r.claims[k] == ClaimsMade(r.log[k])
    ensures r.log[k].retries <= c.maxRetries
    ensures r.log[k].state == DeadLettered <==> r.log[k].retries == c.maxRetries
    ensures r.log[k].state == DeadLettered ==> r.claims[k] == c.maxRetries
  {
  }

  /** How many more effective operations a task can take part in. When completed tasks may be returned,
      too (`reopen`), a completed task has as much left as its remaining retries. */
  function Budget(maxRetries: int, t: Task, reopen: bool): int {
    match t.state
    case Pending => 2 * (maxRetries - t.retries)
    case Claimed => 2 * (maxRetries - t.retries) - 1
    case Completed => if reopen then 2 * (maxRetries - t.retries) - 2 else 0
    case DeadLettered => 0
  }

  ghost function BudgetOf(maxRetries: int, reopen: bool): Task -> int {
    (t: Task) => Budget(maxRetries, t, reopen)
  }

  ghost function Potential(c: Config, r: Run, reopen: bool): int {
    Sum(r.log, BudgetOf(c.maxRetries, reopen))
  }

  /** Did the operation claim or complete a task, or return one that was pending or claimed? */
  ghost predicate Effective(c: Config, r: Run, op: Op) {
    match op
    case Enqueue(_, _, _, _, _) => false
    case Dequeue(_, now) => Choice(c, r.s.db, now).Some?
    case Ack(id, _) => AckAnswer(c, r.s.db, id) == Done
    case Nack(id) => Locate(c, r.s.db, id).Some? && !Terminal(r.s.db[Locate(c, r.s.db, id).value].task.state)
    case Purge => false
  }

  /** Does the operation return a completed task? */
  ghost predicate Reopens(c: Config, r: Run, op: Op) {
    op.Nack? && Locate(c, r.s.db, op.id).Some? && r.s.db[Locate(c, r.s.db, op.id).value].task.state == Completed
  }

  lemma PotentialNonNegative(c: Config, r: Run, reopen: bool)
    requires ClaimInv(c.maxRetries, r.log, r.claims)
    ensures Potential(c, r, reopen) >= 0
  {
    hide Sum;
    forall k | k in r.log ensures BudgetOf(c.maxRetries, reopen)(r.log[k]) >= 0 {
      LoggedClaims(c.maxRetries, r.log, r.claims, k);
    }
    SumNonNegative(r.log, BudgetOf(c.maxRetries, reopen));
  }

  /** Every effective operation spends budget; only an arrival adds any, twice the retry limit. */
  lemma StepSpendsBudget(c: Config, r: Run, op: Op, reopen: bool)
    requires OrderAndClaims(c, r) && Possible(c, r, op) && (reopen || !Reopens(c, r, op))
    ensures Potential(c, Advance(c, r, op), reopen) <=
              Potential(c, r, reopen) - (if Effective(c, r, op) then 1 else 0) + (if op.Enqueue? then 2 * c.maxRetries else 0)
  {
    hide Tasks;
    hide OrderInv;
    hide ClaimInv;
    hide Locate;
    hide Choice;
    hide IsTask;
    hide Advance;
    hide KeyBytes;
    hide Sum;
    StepKeepsOrder(c, r, op);
    var f := BudgetOf(c.maxRetries, reopen);
    match op
    case Enqueue(priority, payload, metadata, id, now) =>
      EnqueueKeepsOrder(c, r, op);
      SumUpdate(r.log, f, KeyBytes(NewKey(c, r.s, priority, id, now)), NewTask(priority, payload, metadata, id, now));
    case Dequeue(worker, now) =>
      if Choice(c, r.s.db, now).Some? {
        var k := Choice(c, r.s.db, now).value;
        ChosenIsPending(c, r.s.db, now);
        LoggedTask(c, r, k);
        SumUpdate(r.log, f, k, Claim(r.log[k], worker, now));
      }
    case Ack(id, now) =>
      if Locate(c, r.s.db, id).Some? {
        var k := Locate(c, r.s.db, id).value;
        LocatedIsTask(c, r.s.db, id);
        LoggedTask(c, r, k);
        LoggedClaims(c.maxRetries, r.log, r.claims, k);
        SumUpdate(r.log, f, k, r.log[k].(state := Completed, completedAt := Some(now)));
      }
    case Nack(id) =>
      if Locate(c, r.s.db, id).Some? {
        var k := Locate(c, r.s.db, id).value;
        LocatedIsTask(c, r.s.db, id);
        LoggedTask(c, r, k);
        LoggedClaims(c.maxRetries, r.log, r.claims, k);
        SumUpdate(r.log, f, k, Returned(c, r.log[k]));
      }
    case Purge =>
  }

  ghost function EffectiveCount(c: Config, r: Run, ops: seq<Op>): nat
    decreases |ops|
  {
    if ops == [] then 0
    else (if Effective(c, r, ops[0]) then 1 else 0) + EffectiveCount(c, Advance(c, r, ops[0]), ops[1..])
  }

  /** Is no completed task returned during the run? */
  ghost predicate NothingReopened(c: Config, r: Run, ops: seq<Op>)
    decreases |ops|
  {
    ops == [] || (!Reopens(c, r, ops[0]) && NothingReopened(c, Advance(c, r, ops[0]), ops[1..]))
  }

  /** What the arrivals of a run add to the budget: twice the retry limit for each. */
  function Allowance(maxRetries: int, ops: seq<Op>): int {
    if ops == [] then 0 else (if ops[0].Enqueue? then 2 * maxRetries else 0) + Allowance(maxRetries, ops[1..])
  }

  lemma RunStep(c: Config, r: Run, ops: seq<Op>, reopen: bool)
    requires PossibleRun(c, r, ops) && ops != [] && (reopen || NothingReopened(c, r, ops))
    ensures Possible(c, r, ops[0]) && PossibleRun(c, Advance(c, r, ops[0]), ops[1..])
    ensures reopen || (!Reopens(c, r, ops[0]) && NothingReopened(c, Advance(c, r, ops[0]), ops[1..]))
    ensures EffectiveCount(c, r, ops) ==
              (if Effective(c, r, ops[0]) then 1 else 0) + EffectiveCount(c, Advance(c, r, ops[0]), ops[1..])
    ensures Allowance(c.maxRetries, ops) ==
              (if ops[0].Enqueue? then 2 * c.maxRetries else 0) + Allowance(c.maxRetries, ops[1..])
  {
    hide Possible;
    hide Advance;
    hide Effective;
    hide Reopens;
  }

  lemma OneStep(c: Config, r: Run, op: Op)
    requires OrderAndClaims(c, r) && Possible(c, r, op)
    ensures OrderAndClaims(c, Advance(c, r, op))
  {
    hide OrderInv;
    hide ClaimInv;
    hide Possible;
    hide Advance;
    StepKeepsOrder(c, r, op);
    StepKeepsClaims(c, r, op);
  }

  /** However workers interleave, and whatever they return, work cannot go on for ever: over any run,
      claims, acknowledgements and returns of unfinished tasks are bounded by the starting budget and the
      arrivals. If no completed task is returned, completed tasks have no budget left. */
  lemma {:induction false} RunsAreBounded(c: Config, r: Run, ops: seq<Op>, reopen: bool)
    requires OrderAndClaims(c, r) && PossibleRun(c, r, ops) && (reopen || NothingReopened(c, r, ops))
    ensures EffectiveCount(c, r, ops) <= Potential(c, r, reopen) + Allowance(c.maxRetries, ops)
    decreases |ops|
  {
    if ops == [] {
      PotentialNonNegative(c, r, reopen);
    } else {
      hide *;
      RunStep(c, r, ops, reopen);
      StepSpendsBudget(c, r, ops[0], reopen);
      OneStep(c, r, ops[0]);
      RunsAreBounded(c, Advance(c, r, ops[0]), ops[1..], reopen);
    }
  }

  /** A legal run returns claimed tasks only, so it reopens nothing. */
  lemma {:induction false} LegalRunsReopenNothing(c: Config, r: Run, ops: seq<Op>)
    requires LegalRun(c, r, ops)
    ensures PossibleRun(c, r, ops) && NothingReopened(c, r, ops)
    decreases |ops|
  {
    if ops != [] {
      hide Possible;
      hide Advance;
      LegalRunsReopenNothing(c, Advance(c, r, ops[0]), ops[1..]);
    }
  }

  // ---------------------------------------------------------------- who is served

  /** In every reachable state with an honest clock, all pending tasks are due, also after the return of
      tasks that were not claimed. */
  lemma PendingIsReady(c: Config, r: Run, now: Int64)
    requires OrderInv(c, r) && now >= r.clock
    ensures ReadyKeys(c.name, r.s.db, now) == PendingKeys(c.name, r.s.db)
  {
    forall k | k in PendingKeys(c.name, r.s.db) ensures IsReady(k, now) {
      assert k in Tasks(c.name, r.s.db);
      assert Arrived(r.order, k);
      var i :| 0 <= i < |r.order| && KeyBytes(r.order[i]) == k;
      assert IsArrival(c.name, r.log, r.order[i]);
      assert Canonical(r.order[i]);
    }
  }

  /** So the iterator path and the IPC path of Dequeue claim the same task. */
  lemma PathsAgree(c: Config, r: Run, now: Int64)
    requires OrderInv(c, r) && now >= r.clock
    ensures Choice(c.(iterates := true, scans := false), r.s.db, now)
         == Choice(c.(iterates := false, scans := true), r.s.db, now)
         == Choice(c.(iterates := true, scans := true), r.s.db, now)
  {
    PendingIsReady(c, r, now);
  }

  /** In an arbitrary store they agree exactly when the first pending key is due. */
  lemma PathsAgreeExactly(c: Config, db: Db, now: Int64)
    ensures Choice(c.(iterates := true, scans := false), db, now) == Choice(c.(iterates := false, scans := true), db, now)
       <==> PendingKeys(c.name, db) == {} || IsReady(Least(PendingKeys(c.name, db)), now)
  {
    var pending, ready := PendingKeys(c.name, db), ReadyKeys(c.name, db, now);
    if pending != {} && IsReady(Least(pending), now) {
      assert Least(pending) in ready;
      LeastIsUnique(ready, Least(pending));
    } else if pending != {} && ready != {} {
      assert Least(ready) in pending && Least(ready) != Least(pending);
    }
  }

  /** The sequence number, a 64-bit counter, does not wrap within one millisecond. */
  ghost predicate NoWrap(order: seq<Key>) {
    forall i, j :: 0 <= i <= j < |order| && order[i].readyTs == order[j].readyTs ==> i / TWO64 == j / TWO64
  }

  /** Two keys of the queue compare as promised. */
  lemma ArrivalOrder(c: Config, r: Run, i: int, j: int)
    requires OrderInv(c, r) && 0 <= i < |r.order| && 0 <= j < |r.order|
    ensures Less(KeyBytes(r.order[i]), KeyBytes(r.order[j])) <==> Before(r.order[i], r.order[j])
  {
    assert IsArrival(c.name, r.log, r.order[i]);
    assert IsArrival(c.name, r.log, r.order[j]);
    KeyOrder(r.order[i], r.order[j]);
  }

  /** Earlier arrivals of one priority come first, unless the sequence counter wrapped in between
      within the same millisecond. */
  lemma EarlierComesFirst(c: Config, r: Run, i: int, j: int)
    requires OrderInv(c, r) && 0 <= i < j < |r.order| && r.order[i].priority == r.order[j].priority
    ensures Less(KeyBytes(r.order[i]), KeyBytes(r.order[j])) <==>
            || r.order[i].readyTs < r.order[j].readyTs
            || i % TWO64 < j % TWO64
            || (i % TWO64 == j % TWO64 && Less(r.order[i].taskID, r.order[j].taskID))
  {
    hide KeyBytes;
    ArrivalOrder(c, r, i, j);
    assert IsArrival(c.name, r.log, r.order[i]);
    assert IsArrival(c.name, r.log, r.order[j]);
  }

  ghost predicate IsPending(r: Run, i: int)
    requires 0 <= i < |r.order|
  {
    KeyBytes(r.order[i]) in r.log && r.log[KeyBytes(r.order[i])].state == Pending
  }

  lemma PendingKeysAreLogged(c: Config, r: Run, k: ByteString)
    requires OrderInv(c, r)
    ensures k in PendingKeys(c.name, r.s.db) <==> k in r.log && r.log[k].state == Pending
  {
    var tasks := Tasks(c.name, r.s.db);
    assert k in PendingKeys(c.name, r.s.db) <==> k in tasks && tasks[k].state == Pending;
    assert Faithful(tasks, r.log);
    hide Tasks;
    hide PendingKeys;
    hide OrderInv;
    hide IsTask;
  }

  /** Dequeue serves the pending task with the smallest priority number and, within it, the earliest
      arrival; it finds nothing only when nothing is pending. A returned task keeps its key, hence
      its place in `order`. */
  lemma ServedFirst(c: Config, r: Run, now: Int64) returns (served: Option<int>)
    requires OrderInv(c, r) && now >= r.clock && NoWrap(r.order)
    requires c.iterates || c.scans
    ensures Choice(c, r.s.db, now).None? ==> served.None? && forall k :: k in r.log ==> r.log[k].state != Pending
    ensures Choice(c, r.s.db, now).Some? ==>
              && served.Some? && 0 <= served.value < |r.order|
              && KeyBytes(r.order[served.value]) == Choice(c, r.s.db, now).value
              && IsPending(r, served.value)
              && forall j :: 0 <= j < |r.order| && IsPending(r, j) ==>
                   || r.order[served.value].priority < r.order[j].priority
                   || (r.order[served.value].priority == r.order[j].priority && served.value <= j)
  {
    hide KeyBytes;
    PendingIsReady(c, r, now);
    var pending := PendingKeys(c.name, r.s.db);
    forall k ensures k in pending <==> k in r.log && r.log[k].state == Pending { PendingKeysAreLogged(c, r, k); }
    hide PendingKeys;
    hide ReadyKeys;
    match Choice(c, r.s.db, now)
    case None => served := None;
    case Some(k) =>
      assert k == Least(pending);
      assert Arrived(r.order, k);
      var i :| 0 <= i < |r.order| && KeyBytes(r.order[i]) == k;
      served := Some(i);
      forall j | 0 <= j < |r.order| && IsPending(r, j)
        ensures r.order[i].priority < r.order[j].priority || (r.order[i].priority == r.order[j].priority && i <= j)
      {
        NoOvertaking(c, r, i, j);
      }
  }

  lemma NoOvertaking(c: Config, r: Run, i: int, j: int)
    requires OrderInv(c, r) && NoWrap(r.order) && 0 <= i < |r.order| && 0 <= j < |r.order|
    requires KeyBytes(r.order[j]) == KeyBytes(r.order[i]) || Less(KeyBytes(r.order[i]), KeyBytes(r.order[j]))
    ensures r.order[i].priority < r.order[j].priority || (r.order[i].priority == r.order[j].priority && i <= j)
  {
    hide KeyBytes;
    ArrivalOrder(c, r, i, j);
    assert IsArrival(c.name, r.log, r.order[i]);
    assert IsArrival(c.name, r.log, r.order[j]);
    if KeyBytes(r.order[j]) == KeyBytes(r.order[i]) {
      KeyBytesInjective(r.order[i], r.order[j]);
    }
  }

  /** A key stands at one place in the order of arrival. */
  lemma SameKeySamePlace(c: Config, r: Run, i: int, j: int)
    requires OrderInv(c, r) && 0 <= i < |r.order| && 0 <= j < |r.order|
    requires KeyBytes(r.order[i]) == KeyBytes(r.order[j])
    ensures i == j
  {
    hide KeyBytes;
    assert IsArrival(c.name, r.log, r.order[i]);
    assert IsArrival(c.name, r.log, r.order[j]);
    KeyBytesInjective(r.order[i], r.order[j]);
  }

  /** One write to the log leaves every other place alone. */
  lemma PlacesAfterWrite(r: Run, r': Run, i: int, t: Task)
    requires 0 <= i < |r.order| && r'.order == r.order && r'.log == r.log[KeyBytes(r.order[i]) := t]
    requires forall j :: 0 <= j < |r.order| && KeyBytes(r.order[j]) == KeyBytes(r.order[i]) ==> j == i
    ensures IsPending(r', i) <==> t.state == Pending
    ensures forall j :: 0 <= j < |r.order| && j != i ==> (IsPending(r', j) <==> IsPending(r, j))
  {
    hide KeyBytes;
  }

  /** Returning a task with retries to spare, whatever its state, puts it back at its old place: nothing
      arrives, nothing moves, and the only task that becomes pending is the returned one. */
  lemma ReturnedKeepsPlace(c: Config, r: Run, id: ByteString, i: int)
    requires OrderInv(c, r) && 0 <= i < |r.order|
    requires Locate(c, r.s.db, id) == Some(KeyBytes(r.order[i]))
    ensures var r' := Advance(c, r, Nack(id));
            && r'.order == r.order
            && (IsPending(r', i) <==> r.log[KeyBytes(r.order[i])].retries + 1 < c.maxRetries)
            && forall j :: 0 <= j < |r.order| && j != i ==> (IsPending(r', j) <==> IsPending(r, j))
  {
    hide KeyBytes;
    hide Locate;
    hide Advance;
    hide IsTask;
    hide Tasks;
    hide OrderInv;
    hide IsPending;
    var op, k := Nack(id), KeyBytes(r.order[i]);
    StepKeepsOrder(c, r, op);
    Advanced(c, r, op);
    LocatedIsTask(c, r.s.db, id);
    LoggedTask(c, r, k);
    forall j | 0 <= j < |r.order| && KeyBytes(r.order[j]) == KeyBytes(r.order[i]) ensures j == i {
      SameKeySamePlace(c, r, i, j);
    }
    PlacesAfterWrite(r, Advance(c, r, op), i, Returned(c, r.log[k]));
  }

  // ---------------------------------------------------------------- the order of service over a run

  /** The operation claims the task that arrived `i`-th. */
  ghost predicate Serves(c: Config, r: Run, op: Op, i: int) {
    op.Dequeue? && 0 <= i < |r.order| && Choice(c, r.s.db, op.now) == Some(KeyBytes(r.order[i]))
  }

  /** More urgent, or as urgent and earlier. */
  ghost predicate Sooner(order: seq<Key>, i: int, j: int)
    requires 0 <= i < |order| && 0 <= j < |order|
  {
    order[i].priority < order[j].priority || (order[i].priority == order[j].priority && i < j)
  }

  /** Operations that make no task pending. */
  predicate Quiet(op: Op) { !op.Enqueue? && !op.Nack? }

  lemma ServedIsFirst(c: Config, r: Run, op: Op, i: int)
    requires OrderInv(c, r) && Possible(c, r, op) && NoWrap(r.order) && Serves(c, r, op, i)
    ensures IsPending(r, i)
    ensures forall j :: 0 <= j < |r.order| && IsPending(r, j) && j != i ==> Sooner(r.order, i, j)
  {
    hide OrderInv;
    hide Choice;
    hide KeyBytes;
    hide NoWrap;
    hide IsPending;
    ChoiceNeedsScan(c, r.s.db, op.now);
    var served := ServedFirst(c, r, op.now);
    SameKeySamePlace(c, r, served.value, i);
  }

  lemma ChoiceNeedsScan(c: Config, db: Db, now: Int64)
    ensures Choice(c, db, now).Some? ==> c.iterates || c.scans
  {
  }

  lemma LogWrite(r: Run, r': Run, k: ByteString, t: Task)
    requires r'.order == r.order && r'.log == r.log[k := t] && t.state != Pending
    ensures forall j :: 0 <= j < |r.order| && IsPending(r', j) ==> IsPending(r, j)
    ensures forall j :: 0 <= j < |r.order| && KeyBytes(r.order[j]) == k ==> !IsPending(r', j)
  {
    hide KeyBytes;
  }

  /** Without arrivals and returns, the pending tasks only become fewer; a served one is pending no more. */
  lemma QuietStep(c: Config, r: Run, op: Op)
    requires OrderInv(c, r) && Possible(c, r, op) && Quiet(op)
    ensures var r' := Advance(c, r, op);
            && OrderInv(c, r') && r'.order == r.order
            && (forall j :: 0 <= j < |r.order| && IsPending(r', j) ==> IsPending(r, j))
            && (forall i :: Serves(c, r, op, i) ==> !IsPending(r', i))
  {
    hide OrderInv;
    hide Advance;
    hide Choice;
    hide Locate;
    hide KeyBytes;
    hide Tasks;
    hide IsTask;
    hide IsPending;
    var r' := Advance(c, r, op);
    StepKeepsOrder(c, r, op);
    Advanced(c, r, op);
    match op
    case Dequeue(worker, now) =>
      if Choice(c, r.s.db, now).Some? {
        var k := Choice(c, r.s.db, now).value;
        ChosenIsPending(c, r.s.db, now);
        LoggedTask(c, r, k);
        LogWrite(r, r', k, Claim(r.log[k], worker, now));
      } else {
        SameLog(r, r');
      }
    case Ack(id, now) =>
      if r'.log == r.log {
        SameLog(r, r');
      } else {
        var k := Locate(c, r.s.db, id).value;
        LogWrite(r, r', k, r.log[k].(state := Completed, completedAt := Some(now)));
      }
    case Purge => SameLog(r, r');
  }

  lemma SameLog(r: Run, r': Run)
    requires r'.order == r.order && r'.log == r.log
    ensures forall j :: 0 <= j < |r.order| ==> (IsPending(r', j) <==> IsPending(r, j))
  {
    hide KeyBytes;
  }

  lemma {:induction false} QuietRun(c: Config, r: Run, ops: seq<Op>)
    requires OrderInv(c, r) && PossibleRun(c, r, ops) && forall op :: op in ops ==> Quiet(op)
    ensures var r' := After(c, r, ops);
            && OrderInv(c, r') && r'.order == r.order
            && forall j :: 0 <= j < |r.order| && IsPending(r', j) ==> IsPending(r, j)
    decreases |ops|
  {
    if ops != [] {
      hide OrderInv;
      hide Advance;
      hide Possible;
      hide IsPending;
      hide Serves;
      QuietStep(c, r, ops[0]);
      QuietRun(c, Advance(c, r, ops[0]), ops[1..]);
    }
  }

  /** Over any run without arrivals and returns, tasks are served in order: of two successful Dequeues
      the first claims the more urgent task or, of equal urgency, the one that arrived earlier. */
  lemma ServedInOrder(c: Config, r: Run, ops: seq<Op>, op: Op, i: int, j: int)
    requires OrderInv(c, r) && NoWrap(r.order) && ops != [] && PossibleRun(c, r, ops) && forall o :: o in ops ==> Quiet(o)
    requires Serves(c, r, ops[0], i)
    requires Possible(c, After(c, r, ops), op) && Serves(c, After(c, r, ops), op, j)
    ensures 0 <= i < |r.order| && 0 <= j < |r.order| && Sooner(r.order, i, j)
  {
    hide OrderInv;
    hide Advance;
    hide Possible;
    hide IsPending;
    hide NoWrap;
    hide Choice;
    hide KeyBytes;
    var r1, last := Advance(c, r, ops[0]), After(c, r, ops);
    QuietStep(c, r, ops[0]);
    QuietRun(c, r1, ops[1..]);
    ServedIsFirst(c, r, ops[0], i);
    ServedIsFirst(c, last, op, j);
  }

  // ---------------------------------------------------------------- several queues in one store

  /** A slash-free name can be read off any bytes in which it stands before a slash. */
  lemma NameIsDetermined(k: ByteString, p: nat, a: ByteString, b: ByteString)
    requires SlashFree(a) && SlashFree(b) && p + |a| < |k| && p + |b| < |k|
    requires k[p..p + |a|] == a && k[p + |a|] == SLASH
    requires k[p..p + |b|] == b && k[p + |b|] == SLASH
    ensures a == b
  {
    assert forall i :: 0 <= i < |a| ==> k[p + i] == a[i];
    assert forall i :: 0 <= i < |b| ==> k[p + i] == b[i];
    assert k[p + |a|] !in a && k[p + |b|] !in b;
  }

  lemma PrefixesDisjoint(a: ByteString, b: ByteString, k: ByteString)
    requires SlashFree(a) && SlashFree(b) && Prefix(a) <= k && Prefix(b) <= k
    ensures a == b
  {
    var p := |QUEUE|;
    assert k[..p + |a| + 1] == Prefix(a) && k[..p + |b| + 1] == Prefix(b);
    assert k[p..p + |a|] == Prefix(a)[p..p + |a|] && k[p..p + |b|] == Prefix(b)[p..p + |b|];
    NameIsDetermined(k, p, a, b);
  }

  lemma StatKeyName(a: ByteString, s: Stat)
    ensures var k, p := StatKey(a, s), |Ascii("_queue_stats/")|;
            p + |a| < |k| && k[p..p + |a|] == a && k[p + |a|] == SLASH
  {
    hide StatName;
  }

  lemma StatKeysOfOthers(a: ByteString, b: ByteString, s: Stat, t: Stat)
    requires SlashFree(a) && SlashFree(b) && StatKey(a, s) == StatKey(b, t)
    ensures a == b
  {
    StatKeyName(a, s);
    StatKeyName(b, t);
    hide StatKey;
    NameIsDetermined(StatKey(a, s), |Ascii("_queue_stats/")|, a, b);
  }

  /** Everything one queue does to the store is under its own prefix or its own counters. */
  ghost predicate OwnKey(name: ByteString, k: ByteString) {
    Prefix(name) <= k || exists st :: k == StatKey(name, st)
  }

  ghost predicate SameElsewhere(name: ByteString, db: Db, db': Db) {
    forall k :: !OwnKey(name, k) ==> (k in db <==> k in db') && (k in db ==> db[k] == db'[k])
  }

  lemma PutStaysHome(name: ByteString, db: Db, k: ByteString, v: Value)
    requires OwnKey(name, k)
    ensures SameElsewhere(name, db, db[k := v])
  {
  }

  lemma CountersStayHome(name: ByteString, db: Db, db': Db, st: Stat)
    requires SameElsewhere(name, db, db')
    ensures SameElsewhere(name, db, Increment(db', name, st))
    ensures SameElsewhere(name, db, Decrement(db', name, st))
  {
    hide StatKey;
    assert OwnKey(name, StatKey(name, st));
  }

  /** Each operation is one write or one purge, followed by counter updates. */
  lemma StepStaysHome(c: Config, s: State, op: Op)
    ensures SameElsewhere(c.name, s.db, Step(c, s, op).db)
  {
    hide SameElsewhere;
    hide Increment;
    hide Decrement;
    hide Choice;
    hide Locate;
    var db := s.db;
    match op
    case Enqueue(priority, payload, metadata, id, now) =>
      var k, v := KeyBytes(NewKey(c, s, priority, id, now)), TaskValue(NewTask(priority, payload, metadata, id, now));
      assert Prefix(c.name) <= k;
      PutStaysHome(c.name, db, k, v);
      CountersStayHome(c.name, db, db[k := v], TotalEnqueued);
      CountersStayHome(c.name, db, Increment(db[k := v], c.name, TotalEnqueued), PendingStat);
    case Dequeue(worker, now) =>
      if Choice(c, db, now).None? {
        NothingStaysHome(c.name, db);
      } else {
        var k := Choice(c, db, now).value;
        ChosenIsPending(c, db, now);
        var d0 := db[k := TaskValue(Claim(db[k].task, worker, now))];
        PutStaysHome(c.name, db, k, TaskValue(Claim(db[k].task, worker, now)));
        CountersStayHome(c.name, db, d0, PendingStat);
        var d1 := Decrement(d0, c.name, PendingStat);
        CountersStayHome(c.name, db, d1, ClaimedStat);
        CountersStayHome(c.name, db, Increment(d1, c.name, ClaimedStat), TotalDequeued);
      }
    case Ack(id, now) =>
      if AckAnswer(c, db, id) != Done {
        NothingStaysHome(c.name, db);
      } else {
        var k := Locate(c, db, id).value;
        LocatedIsTask(c, db, id);
        var v := TaskValue(db[k].task.(state := Completed, completedAt := Some(now)));
        PutStaysHome(c.name, db, k, v);
        CountersStayHome(c.name, db, db[k := v], ClaimedStat);
        CountersStayHome(c.name, db, Decrement(db[k := v], c.name, ClaimedStat), CompletedStat);
      }
    case Nack(id) =>
      if Locate(c, db, id).None? {
        NothingStaysHome(c.name, db);
      } else {
        var k := Locate(c, db, id).value;
        LocatedIsTask(c, db, id);
        var t := Returned(c, db[k].task);
        PutStaysHome(c.name, db, k, TaskValue(t));
        CountersStayHome(c.name, db, db[k := TaskValue(t)], ClaimedStat);
        CountersStayHome(c.name, db, Decrement(db[k := TaskValue(t)], c.name, ClaimedStat),
                         if t.state == DeadLettered then DeadLetteredStat else PendingStat);
      }
    case Purge => PurgeStaysHome(c, db);
  }

  lemma NothingStaysHome(name: ByteString, db: Db)
    ensures SameElsewhere(name, db, db)
  {
  }

  lemma PurgeStaysHome(c: Config, db: Db)
    ensures SameElsewhere(c.name, db, PurgeStep(c, db))
  {
  }

  /** Queues with different slash-free names that share a store do not see each other's steps. */
  lemma QueuesDoNotInterfere(c: Config, s: State, op: Op, other: ByteString)
    requires SlashFree(c.name) && SlashFree(other) && c.name != other
    ensures Tasks(other, Step(c, s, op).db) == Tasks(other, s.db)
    ensures CountersOf(other, Step(c, s, op).db) == CountersOf(other, s.db)
  {
    StepStaysHome(c, s, op);
    hide Step;
    forall k | Prefix(other) <= k ensures !OwnKey(c.name, k) {
      if Prefix(c.name) <= k { PrefixesDisjoint(c.name, other, k); }
      forall st ensures k != StatKey(c.name, st) { StatKeyIsNoTaskKey(c.name, other, st); }
    }
    forall st ensures !OwnKey(c.name, StatKey(other, st)) {
      StatKeyIsNoTaskKey(other, c.name, st);
      forall st' | StatKey(other, st) == StatKey(c.name, st') ensures false { StatKeysOfOthers(other, c.name, st, st'); }
    }
  }
}
