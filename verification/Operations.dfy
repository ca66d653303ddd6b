/** The operation history of the HTTP server (internal/interfaces/httpapi/operations.go) as a
    sequence of operations with unique ids, and what holds of it over whole call histories.
    OperationStore.dfy refines it with the map and the doubly linked list. */
module Operations {
  import opened Common

  datatype Status = Running | Succeeded | Failed

  datatype Summary = Summary(processed: int, changed: int, skipped: int, errors: int)

  datatype Progress = Progress(
    total: int, processed: int, changed: int, skipped: int, errors: int, stage: string, summary: Summary)

  const NO_SUMMARY := Summary(0, 0, 0, 0)
  const NO_PROGRESS := Progress(0, 0, 0, 0, 0, "", NO_SUMMARY)

  datatype Operation = Operation(
    id: string, kind: string, status: Status, startedAt: string, finishedAt: string,
    progress: Progress, summary: Summary, output: string, error: Option<string>)

  // ---------- the values the calls store ----------

  function Created(id: string, kind: string, now: string): Operation {
    Operation(id, kind, Running, now, "", NO_PROGRESS, NO_SUMMARY, "", None)
  }

  function SucceededOp(op: Operation, output: string, summary: Summary, now: string): Operation {
    op.(status := Succeeded, finishedAt := now, output := output, summary := summary,
      progress := Progress(op.progress.total, summary.processed, summary.changed, summary.skipped, summary.errors,
                           "finished", summary))
  }

  function FailedOp(op: Operation, message: string, now: string): Operation {
    op.(status := Failed, finishedAt := now, error := Some(message),
      progress := op.progress.(stage := "failed", errors := op.progress.errors + 1))
  }

  // ---------- the sequence, oldest first ----------

  type Ops = seq<Operation>

  ghost predicate UniqueIds(ops: Ops) {
    forall i, j | 0 <= i < j < |ops| :: ops[i].id != ops[j].id
  }

  function Ids(ops: Ops): set<string> {
    set op | op in ops :: op.id
  }

  /** Position of an id, or the length when it is absent. */
  function Find(ops: Ops, id: string): (i: nat)
    ensures i <= |ops|
    ensures i < |ops| ==> ops[i].id == id
    ensures forall j | 0 <= j < i :: ops[j].id != id
  {
    if ops == [] || ops[0].id == id then 0 else 1 + Find(ops[1..], id)
  }

  function RemoveAt<T>(s: seq<T>, i: nat): (r: seq<T>)
    requires i < |s|
    ensures |r| == |s| - 1
    ensures forall j {:trigger r[j]} | 0 <= j < |r| :: r[j] == if j < i then s[j] else s[j + 1]
  {
    s[..i] + s[i + 1..]
  }

  /** Position of the oldest finished operation, or the length when all are running. */
  function OldestFinished(ops: Ops): (i: nat)
    ensures i <= |ops|
    ensures i < |ops| ==> ops[i].status != Running
    ensures forall j | 0 <= j < i :: ops[j].status == Running
  {
    if ops == [] || ops[0].status != Running then 0 else 1 + OldestFinished(ops[1..])
  }

  /** evictExcess: while over capacity, drop the oldest finished operation if there is one. */
  function Evict(ops: Ops, capacity: int): Ops
    decreases |ops|
  {
    if capacity <= 0 || |ops| <= capacity then ops
    else
      var i := OldestFinished(ops);
      if i == |ops| then ops else Evict(RemoveAt(ops, i), capacity)
  }

  datatype Call =
    | Create(id: string, kind: string, now: string)
    | Succeed(id: string, output: string, summary: Summary, now: string)
    | Fail(id: string, message: string, now: string)
    | Report(id: string, progress: Progress)
    | Get(id: string)

  /** The effect of one call on the history. */
  function Apply(ops: Ops, capacity: int, call: Call): Ops {
    var i := Find(ops, call.id);
    match call
    case Create(id, kind, now) =>
      if i < |ops| then RemoveAt(ops, i) + [Created(id, kind, now)]
      else Evict(ops + [Created(id, kind, now)], capacity)
    case Succeed(id, output, summary, now) =>
      if i < |ops| then Evict(ops[i := SucceededOp(ops[i], output, summary, now)], capacity) else ops
    case Fail(id, message, now) =>
      if i < |ops| then Evict(ops[i := FailedOp(ops[i], message, now)], capacity) else ops
    case Report(id, progress) =>
      if i < |ops| then ops[i := ops[i].(progress := progress)] else ops
    case Get(_) => ops
  }

  function ApplyAll(capacity: int, calls: seq<Call>): Ops {
    if calls == [] then [] else Apply(ApplyAll(capacity, calls[..|calls| - 1]), capacity, calls[|calls| - 1])
  }

  // ---------- eviction ----------

  function Finished(ops: Ops): nat {
    if ops == [] then 0 else (if ops[0].status != Running then 1 else 0) + Finished(ops[1..])
  }

  function RunningOnly(ops: Ops): Ops {
    if ops == [] then [] else (if ops[0].status == Running then [ops[0]] else []) + RunningOnly(ops[1..])
  }

  /** Everything but the first `k` finished operations, in the same order. */
  function DropFinished(ops: Ops, k: nat): Ops {
    if ops == [] || k == 0 then ops
    else if ops[0].status != Running then DropFinished(ops[1..], k - 1)
    else [ops[0]] + DropFinished(ops[1..], k)
  }

  function Min(a: int, b: int): int {
    if a < b then a else b
  }

  lemma {:induction false} RemoveOldest(ops: Ops, k: nat)
    requires OldestFinished(ops) < |ops|
    ensures var rest := RemoveAt(ops, OldestFinished(ops));
            && Finished(rest) == Finished(ops) - 1
            && RunningOnly(rest) == RunningOnly(ops)
            && DropFinished(ops, k + 1) == DropFinished(rest, k)
  {
    var i := OldestFinished(ops);
    var rest := RemoveAt(ops, i);
    if i == 0 {
      assert rest == ops[1..];
    } else {
      var tail := RemoveAt(ops[1..], i - 1);
      RemoveOldest(ops[1..], k);
      assert rest == [ops[0]] + tail;
      assert rest[1..] == tail;
      assert DropFinished(rest, k) == [ops[0]] + DropFinished(tail, k);
    }
  }

  lemma {:induction false} AllRunning(ops: Ops)
    ensures OldestFinished(ops) == |ops| <==> Finished(ops) == 0
    ensures Finished(ops) == 0 <==> RunningOnly(ops) == ops
    ensures Finished(ops) + |RunningOnly(ops)| == |ops|
  {
    if ops != [] {
      AllRunning(ops[1..]);
      assert ops == [ops[0]] + ops[1..];
    }
  }

  /** How many operations an eviction removes: min(excess, finished). */
  function EvictCount(ops: Ops, capacity: int): nat {
    if |ops| > capacity then Min(|ops| - capacity, Finished(ops)) else 0
  }

  lemma EvictStops(ops: Ops, capacity: int)
    requires |ops| <= capacity || OldestFinished(ops) == |ops|
    ensures Evict(ops, capacity) == ops
  {
  }

  /** One eviction: what is left needs one removal less, and leads to the same result. */
  lemma EvictStep(ops: Ops, capacity: int) returns (rest: Ops)
    requires 0 < capacity < |ops| && OldestFinished(ops) < |ops|
    ensures |rest| == |ops| - 1 && EvictCount(ops, capacity) == EvictCount(rest, capacity) + 1
    ensures Evict(ops, capacity) == Evict(rest, capacity)
    ensures DropFinished(ops, EvictCount(ops, capacity)) == DropFinished(rest, EvictCount(rest, capacity))
  {
    rest := RemoveAt(ops, OldestFinished(ops));
    AllRunning(ops);
    RemoveOldest(ops, EvictCount(ops, capacity) - 1);
  }

  lemma {:induction false} EvictIsDrop(ops: Ops, capacity: int)
    requires capacity > 0
    ensures Evict(ops, capacity) == DropFinished(ops, EvictCount(ops, capacity))
    decreases |ops|
  {
    if |ops| <= capacity || OldestFinished(ops) == |ops| {
      EvictStops(ops, capacity);
      AllRunning(ops);
    } else {
      var rest := EvictStep(ops, capacity);
      EvictIsDrop(rest, capacity);
    }
  }

  lemma {:induction false} DropFinishedMeaning(ops: Ops, k: nat)
    requires k <= Finished(ops)
    ensures |DropFinished(ops, k)| == |ops| - k
    ensures Finished(DropFinished(ops, k)) == Finished(ops) - k
    ensures RunningOnly(DropFinished(ops, k)) == RunningOnly(ops)
  {
    if ops != [] && k > 0 {
      if ops[0].status != Running {
        DropFinishedMeaning(ops[1..], k - 1);
      } else {
        var left := DropFinished(ops[1..], k);
        DropFinishedMeaning(ops[1..], k);
        assert DropFinished(ops, k) == [ops[0]] + left;
        assert ([ops[0]] + left)[1..] == left;
      }
    }
  }

  /** Eviction in one formula: exactly the first min(excess, finished) finished operations go,
      the rest stay in order, no running operation is touched, and afterwards the history is
      within capacity or entirely running. */
  lemma EvictMeaning(ops: Ops, capacity: int)
    requires capacity > 0
    ensures Evict(ops, capacity) == DropFinished(ops, EvictCount(ops, capacity))
    ensures |Evict(ops, capacity)| == |ops| - EvictCount(ops, capacity)
    ensures RunningOnly(Evict(ops, capacity)) == RunningOnly(ops)
    ensures |Evict(ops, capacity)| <= capacity || Finished(Evict(ops, capacity)) == 0
  {
    EvictIsDrop(ops, capacity);
    AllRunning(ops);
    DropFinishedMeaning(ops, EvictCount(ops, capacity));
  }

  /** A capacity of zero or less means no eviction at all. */
  lemma UnboundedKeepsAll(ops: Ops, capacity: int)
    requires capacity <= 0
    ensures Evict(ops, capacity) == ops
  {
  }

  lemma {:induction false} EvictUnique(ops: Ops, capacity: int)
    requires UniqueIds(ops)
    ensures UniqueIds(Evict(ops, capacity))
    decreases |ops|
  {
    var i := OldestFinished(ops);
    if capacity > 0 && |ops| > capacity && i < |ops| {
      EvictUnique(RemoveAt(ops, i), capacity);
    }
  }

  lemma ApplyUnique(ops: Ops, capacity: int, call: Call)
    requires UniqueIds(ops)
    ensures UniqueIds(Apply(ops, capacity, call))
  {
    var i := Find(ops, call.id);
    match call {
      case Create(id, kind, now) =>
        if i == |ops| {
          EvictUnique(ops + [Created(id, kind, now)], capacity);
        }
      case Succeed(id, output, summary, now) =>
        if i < |ops| {
          EvictUnique(ops[i := SucceededOp(ops[i], output, summary, now)], capacity);
        }
      case Fail(id, message, now) =>
        if i < |ops| {
          EvictUnique(ops[i := FailedOp(ops[i], message, now)], capacity);
        }
      case _ =>
    }
  }

  // ---------- every call keeps the bound, and evicts at most one operation ----------

  /** What holds of every reachable history. */
  ghost predicate Bounded(ops: Ops, capacity: int) {
    UniqueIds(ops) && (|ops| <= capacity || Finished(ops) == 0)
  }

  lemma {:induction false} FinishedSplit(a: Ops, b: Ops)
    ensures Finished(a + b) == Finished(a) + Finished(b)
  {
    if a == [] {
      assert a + b == b;
    } else {
      assert (a + b)[1..] == a[1..] + b;
      FinishedSplit(a[1..], b);
    }
  }

  lemma FinishedUpdate(ops: Ops, i: nat, op: Operation)
    requires i < |ops|
    ensures Finished(ops[i := op]) == Finished(ops) - Finished([ops[i]]) + Finished([op])
  {
    var a, b := ops[..i], ops[i + 1..];
    assert ops == a + ([ops[i]] + b) && ops[i := op] == a + ([op] + b);
    FinishedSplit(a, [ops[i]] + b);
    FinishedSplit(a, [op] + b);
    FinishedSplit([ops[i]], b);
    FinishedSplit([op], b);
  }

  lemma {:induction false} FinishedRemoved(ops: Ops, i: nat)
    requires i < |ops|
    ensures Finished(RemoveAt(ops, i)) == Finished(ops) - Finished([ops[i]])
  {
    var rest := RemoveAt(ops, i);
    if i == 0 {
      assert rest == ops[1..];
    } else {
      FinishedRemoved(ops[1..], i - 1);
      assert rest[1..] == RemoveAt(ops[1..], i - 1);
      assert ops[1..][i - 1] == ops[i];
    }
  }

  /** After every call on a reachable history the size is within capacity or everything is
      running, and at most one operation was evicted. */
  lemma CallKeepsBound(ops: Ops, capacity: int, call: Call)
    requires capacity > 0 && Bounded(ops, capacity)
    ensures Bounded(Apply(ops, capacity, call), capacity)
    ensures |Apply(ops, capacity, call)| + 1 >= |ops| + if call.Create? && Find(ops, call.id) == |ops| then 1 else 0
  {
    ApplyUnique(ops, capacity, call);
    var i := Find(ops, call.id);
    match call {
      case Create(id, kind, now) =>
        var op := Created(id, kind, now);
        if i < |ops| {
          FinishedRemoved(ops, i);
          FinishedSplit(RemoveAt(ops, i), [op]);
        } else {
          FinishedSplit(ops, [op]);
          EvictMeaning(ops + [op], capacity);
        }
      case Succeed(id, output, summary, now) =>
        if i < |ops| {
          FinishingKeepsBound(ops, capacity, i, SucceededOp(ops[i], output, summary, now));
        }
      case Fail(id, message, now) =>
        if i < |ops| {
          FinishingKeepsBound(ops, capacity, i, FailedOp(ops[i], message, now));
        }
      case Report(id, progress) =>
        if i < |ops| {
          FinishedUpdate(ops, i, ops[i].(progress := progress));
        }
      case Get(_) =>
    }
  }

  lemma FinishingKeepsBound(ops: Ops, capacity: int, i: nat, op: Operation)
    requires capacity > 0 && i < |ops| && op.status != Running
    requires |ops| <= capacity || Finished(ops) == 0
    ensures var after := Evict(ops[i := op], capacity);
            (|after| <= capacity || Finished(after) == 0) && |after| + 1 >= |ops|
  {
    FinishedUpdate(ops, i, op);
    EvictMeaning(ops[i := op], capacity);
  }

  lemma OnlyFinished(ops: Ops, i: nat)
    requires i < |ops| && ops[i].status != Running
    requires forall j | 0 <= j < |ops| && j != i :: ops[j].status == Running
    ensures OldestFinished(ops) == i
    ensures OldestFinished(RemoveAt(ops, i)) == |ops| - 1
  {
    var rest := RemoveAt(ops, i);
    forall j | 0 <= j < |rest|
      ensures rest[j].status == Running
    {
      assert rest[j] == ops[if j < i then j else j + 1];
    }
  }

  lemma EvictOnlyFinished(ops: Ops, capacity: int, i: nat, op: Operation)
    requires capacity > 0 && |ops| > capacity && i < |ops|
    requires op.status != Running && OldestFinished(ops) == |ops|
    ensures Evict(ops[i := op], capacity) == RemoveAt(ops, i)
  {
    var updated := ops[i := op];
    OnlyFinished(updated, i);
    assert RemoveAt(updated, i) == RemoveAt(ops, i);
    assert Evict(RemoveAt(ops, i), capacity) == RemoveAt(ops, i);
  }

  /** The operation that finishes while the store is over capacity is itself the one evicted. */
  lemma FinishingOverCapacityEvictsItself(ops: Ops, capacity: int, call: Call)
    requires capacity > 0 && Bounded(ops, capacity) && |ops| > capacity
    requires Finishing(call) && Find(ops, call.id) < |ops|
    ensures Apply(ops, capacity, call) == RemoveAt(ops, Find(ops, call.id))
    ensures call.id !in Ids(Apply(ops, capacity, call))
  {
    var i := Find(ops, call.id);
    AllRunning(ops);
    match call {
      case Succeed(_, output, summary, now) =>
        EvictOnlyFinished(ops, capacity, i, SucceededOp(ops[i], output, summary, now));
      case Fail(_, message, now) => EvictOnlyFinished(ops, capacity, i, FailedOp(ops[i], message, now));
    }
    RemovedIsGone(ops, i);
  }

  predicate Finishing(call: Call) { call.Succeed? || call.Fail? }

  lemma ReplacedStays(ops: Ops, capacity: int, i: nat, op: Operation)
    requires |ops| <= capacity && i < |ops|
    ensures op.id in Ids(Evict(ops[i := op], capacity))
  {
    EvictStops(ops[i := op], capacity);
    assert ops[i := op][i] in ops[i := op];
  }

  /** Exactly then: the record of a finished operation can still be read after the call if and
      only if the store was within capacity. */
  lemma FinishedIsKeptIffWithinCapacity(ops: Ops, capacity: int, call: Call)
    requires capacity > 0 && Bounded(ops, capacity)
    requires Finishing(call) && Find(ops, call.id) < |ops|
    ensures call.id in Ids(Apply(ops, capacity, call)) <==> |ops| <= capacity
  {
    if |ops| > capacity {
      FinishingOverCapacityEvictsItself(ops, capacity, call);
    } else {
      var i := Find(ops, call.id);
      match call {
        case Succeed(_, output, summary, now) =>
          ReplacedStays(ops, capacity, i, SucceededOp(ops[i], output, summary, now));
        case Fail(_, message, now) => ReplacedStays(ops, capacity, i, FailedOp(ops[i], message, now));
      }
    }
  }

  lemma RemovedIsGone(ops: Ops, i: nat)
    requires UniqueIds(ops) && i < |ops|
    ensures ops[i].id !in Ids(RemoveAt(ops, i))
  {
    var rest := RemoveAt(ops, i);
    forall op | op in rest
      ensures op.id != ops[i].id
    {
      var j :| 0 <= j < |rest| && rest[j] == op;
      assert rest[j] == ops[if j < i then j else j + 1];
    }
  }

  // ---------- whole histories ----------

  /** Ids whose last create is not followed by a succeed or a fail, read off the calls alone. */
  function Pending(calls: seq<Call>): set<string> {
    if calls == [] then {}
    else
      var before, last := Pending(calls[..|calls| - 1]), calls[|calls| - 1];
      match last
      case Create(id, _, _) => before + {id}
      case Succeed(id, _, _, _) => before - {id}
      case Fail(id, _, _) => before - {id}
      case _ => before
  }

  function RunningIds(ops: Ops): set<string> {
    set op | op in ops && op.status == Running :: op.id
  }

  lemma {:induction false} EvictRunningIds(ops: Ops, capacity: int)
    ensures RunningIds(Evict(ops, capacity)) == RunningIds(ops)
    decreases |ops|
  {
    var i := OldestFinished(ops);
    if capacity > 0 && |ops| > capacity && i < |ops| {
      EvictRunningIds(RemoveAt(ops, i), capacity);
      assert ops == ops[..i] + [ops[i]] + ops[i + 1..];
      assert forall op | op in ops :: op in RemoveAt(ops, i) || op == ops[i];
      assert forall op | op in RemoveAt(ops, i) :: op in ops;
    }
  }

  lemma RunningIdsReplaced(ops: Ops, i: nat, op: Operation)
    requires i < |ops| && UniqueIds(ops) && op.id == ops[i].id
    ensures RunningIds(ops[i := op]) == RunningIds(ops) - {op.id} + if op.status == Running then {op.id} else {}
    ensures RunningIds(RemoveAt(ops, i)) == RunningIds(ops) - {op.id}
  {
    var updated, rest := ops[i := op], RemoveAt(ops, i);
    forall j | 0 <= j < |ops|
      ensures j != i ==> ops[j] in updated && ops[j] in rest && ops[j].id != op.id
    {
      if j < i {
        assert updated[j] == ops[j] && rest[j] == ops[j];
      } else if i < j {
        assert updated[j] == ops[j] && rest[j - 1] == ops[j];
      }
    }
    assert updated[i] == op;
    assert forall x | x in updated :: x == op || (x in ops && x.id != op.id);
    assert forall x | x in rest :: x in ops && x.id != op.id;
  }

  lemma RunningIdsAppend(ops: Ops, op: Operation)
    requires op.status == Running
    ensures RunningIds(ops + [op]) == RunningIds(ops) + {op.id}
  {
    assert forall x | x in ops + [op] :: x in ops || x == op;
    assert op in ops + [op];
  }

  lemma CallRunningIds(ops: Ops, capacity: int, call: Call)
    requires UniqueIds(ops)
    ensures RunningIds(Apply(ops, capacity, call)) ==
            match call
            case Create(id, _, _) => RunningIds(ops) + {id}
            case Succeed(id, _, _, _) => RunningIds(ops) - {id}
            case Fail(id, _, _) => RunningIds(ops) - {id}
            case _ => RunningIds(ops)
  {
    var i := Find(ops, call.id);
    match call {
      case Create(id, kind, now) =>
        var op := Created(id, kind, now);
        if i < |ops| {
          RunningIdsReplaced(ops, i, op);
          RunningIdsAppend(RemoveAt(ops, i), op);
        } else {
          RunningIdsAppend(ops, op);
          EvictRunningIds(ops + [op], capacity);
        }
      case Succeed(id, output, summary, now) =>
        if i < |ops| {
          var op := SucceededOp(ops[i], output, summary, now);
          RunningIdsReplaced(ops, i, op);
          EvictRunningIds(ops[i := op], capacity);
        }
      case Fail(id, message, now) =>
        if i < |ops| {
          var op := FailedOp(ops[i], message, now);
          RunningIdsReplaced(ops, i, op);
          EvictRunningIds(ops[i := op], capacity);
        }
      case Report(id, progress) =>
        if i < |ops| {
          RunningIdsReplaced(ops, i, ops[i].(progress := progress));
        }
      case Get(_) =>
    }
  }

  /** Over every history of calls: ids stay unique, the bound holds, and the operations shown
      as running are exactly those created and not yet finished, so no running operation is
      ever evicted however many others come and go. */
  lemma {:induction false} EveryHistory(capacity: int, calls: seq<Call>)
    ensures UniqueIds(ApplyAll(capacity, calls))
    ensures capacity > 0 ==> Bounded(ApplyAll(capacity, calls), capacity)
    ensures RunningIds(ApplyAll(capacity, calls)) == Pending(calls)
  {
    if calls != [] {
      EveryHistory(capacity, calls[..|calls| - 1]);
      var ops := ApplyAll(capacity, calls[..|calls| - 1]);
      ApplyUnique(ops, capacity, calls[|calls| - 1]);
      if capacity > 0 {
        CallKeepsBound(ops, capacity, calls[|calls| - 1]);
      }
      CallRunningIds(ops, capacity, calls[|calls| - 1]);
    }
  }

  // ---------- a store over capacity ----------

  function Name(n: nat): string {
    seq(n, _ => 'x')
  }

  function Start(n: nat): Call {
    Create(Name(n), "", "")
  }

  /** Starting `n` operations and finishing none. */
  function Starts(n: nat): seq<Call> {
    seq(n, i requires 0 <= i < n => Start(i))
  }

  /** The history those calls leave. */
  function Started(n: nat): Ops {
    seq(n, i requires 0 <= i < n => Created(Name(i), "", ""))
  }

  lemma StartOne(capacity: int, n: nat)
    ensures Apply(Started(n), capacity, Start(n)) == Started(n + 1)
  {
    var ops := Started(n);
    var more := ops + [Created(Name(n), "", "")];
    assert forall i | 0 <= i < n :: |ops[i].id| == i && ops[i].status == Running;
    assert Find(ops, Name(n)) == n;
    assert more == Started(n + 1);
    assert forall i | 0 <= i <= n :: more[i].status == Running;
    EvictStops(more, capacity);
  }

  lemma ApplyAllSnoc(capacity: int, calls: seq<Call>, last: Call)
    ensures ApplyAll(capacity, calls + [last]) == Apply(ApplyAll(capacity, calls), capacity, last)
  {
    assert (calls + [last])[..|calls|] == calls;
  }

  lemma StartNext(capacity: int, n: nat)
    requires ApplyAll(capacity, Starts(n)) == Started(n)
    ensures ApplyAll(capacity, Starts(n + 1)) == Started(n + 1)
  {
    StartOne(capacity, n);
    ApplyAllSnoc(capacity, Starts(n), Start(n));
    assert Starts(n + 1) == Starts(n) + [Start(n)];
  }

  lemma {:induction false} AllStarted(capacity: int, n: nat)
    ensures ApplyAll(capacity, Starts(n)) == Started(n)
  {
    if n > 0 {
      AllStarted(capacity, n - 1);
      StartNext(capacity, n - 1);
    }
  }

  /** Every capacity can be exceeded: with one operation more than that running, whichever
      finishes first is gone at once. */
  lemma OverCapacityHappens(capacity: int, i: nat, finish: Call)
    requires 0 <= i <= capacity && capacity > 0 && Finishing(finish) && finish.id == Name(i)
    ensures var calls := Starts(capacity + 1);
            && |ApplyAll(capacity, calls)| == capacity + 1
            && finish.id in Ids(ApplyAll(capacity, calls))
            && finish.id !in Ids(ApplyAll(capacity, calls + [finish]))
  {
    var calls := Starts(capacity + 1);
    var ops := Started(capacity + 1);
    AllStarted(capacity, capacity + 1);
    EveryHistory(capacity, calls);
    assert ops[i].id == finish.id && ops[i] in ops;
    ApplyAllSnoc(capacity, calls, finish);
    assert Find(ops, finish.id) < |ops|;
    FinishedIsKeptIffWithinCapacity(ops, capacity, finish);
  }
}
