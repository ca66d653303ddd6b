/** What a client sees of an operation (internal/interfaces/httpapi/operations.go): the record
    under an id after each call, field by field, and what a shown status means. */
module OperationRecords {
  import opened Common
  import opened Operations

  /** The record found under an id, as get returns it. */
  function Shown(ops: Ops, id: string): Option<Operation> {
    var i := Find(ops, id);
    if i < |ops| then Some(ops[i]) else None
  }

  /** With unique ids the shown record is the one in the history with that id. */
  lemma ShownMeaning(ops: Ops, id: string, op: Operation)
    requires UniqueIds(ops)
    ensures Shown(ops, id) == Some(op) <==> op in ops && op.id == id
  {
    var i := Find(ops, id);
    if op in ops && op.id == id {
      var j :| 0 <= j < |ops| && ops[j] == op;
      assert i == j;
    }
  }

  /** Eviction removes finished operations only and adds nothing. */
  lemma {:induction false} EvictMembers(ops: Ops, capacity: int, op: Operation)
    ensures op in Evict(ops, capacity) ==> op in ops
    ensures op in ops && op.status == Running ==> op in Evict(ops, capacity)
    decreases |ops|
  {
    var i := OldestFinished(ops);
    if 0 < capacity < |ops| && i < |ops| {
      var rest := RemoveAt(ops, i);
      EvictMembers(rest, capacity, op);
      RemovedMembers(ops, i, op);
    }
  }

  lemma RemovedMembers(ops: Ops, i: nat, op: Operation)
    requires i < |ops|
    ensures op in RemoveAt(ops, i) ==> op in ops
    ensures op in ops && op != ops[i] ==> op in RemoveAt(ops, i)
  {
    var rest := RemoveAt(ops, i);
    if op in ops && op != ops[i] {
      var j :| 0 <= j < |ops| && ops[j] == op;
      assert rest[if j < i then j else j - 1] == op;
    }
  }

  predicate Roomy(ops: Ops, capacity: int) {
    capacity <= 0 || |ops| <= capacity
  }

  // ---------- the record after each call ----------

  /** A new operation is running, with the given kind and time, blank otherwise, and the newest,
      whatever the capacity. */
  lemma AfterCreate(ops: Ops, capacity: int, id: string, kind: string, now: string)
    requires UniqueIds(ops)
    ensures var after := Apply(ops, capacity, Create(id, kind, now));
            && Shown(after, id) ==
               Some(Operation(id, kind, Running, now, "", Progress(0, 0, 0, 0, 0, "", Summary(0, 0, 0, 0)),
                              Summary(0, 0, 0, 0), "", None))
  {
    var op, i := Created(id, kind, now), Find(ops, id);
    var after := Apply(ops, capacity, Create(id, kind, now));
    ApplyUnique(ops, capacity, Create(id, kind, now));
    if i < |ops| {
      assert op in RemoveAt(ops, i) + [op];
    } else {
      assert op in ops + [op];
      EvictMembers(ops + [op], capacity, op);
    }
    ShownMeaning(after, id, op);
  }

  /** A replaced operation becomes the newest one. */
  lemma RecreatedIsNewest(ops: Ops, capacity: int, id: string, kind: string, now: string)
    requires Find(ops, id) < |ops|
    ensures var after := Apply(ops, capacity, Create(id, kind, now));
            |after| == |ops| && after[|after| - 1].id == id
  {
  }

  lemma Updated(ops: Ops, capacity: int, i: nat, op: Operation)
    requires UniqueIds(ops) && i < |ops| && op.id == ops[i].id && Roomy(ops, capacity)
    ensures Shown(Evict(ops[i := op], capacity), op.id) == Some(op)
    ensures Shown(ops[i := op], op.id) == Some(op)
  {
    assert ops[i := op][i] in ops[i := op];
    ShownMeaning(ops[i := op], op.id, op);
  }

  /** After succeed: status, output, summary and time as given, the counters of the summary in
      the progress, the total kept, and who it is and when it began unchanged. */
  lemma AfterSucceed(ops: Ops, capacity: int, id: string, output: string, summary: Summary, now: string)
    requires UniqueIds(ops) && Roomy(ops, capacity) && Shown(ops, id).Some?
    ensures var before := Shown(ops, id).value;
            var shown := Shown(Apply(ops, capacity, Succeed(id, output, summary, now)), id);
            && shown.Some?
            && var op := shown.value;
            && op.status == Succeeded && op.finishedAt == now && op.output == output && op.summary == summary
            && op.progress == Progress(before.progress.total, summary.processed, summary.changed, summary.skipped,
                                       summary.errors, "finished", summary)
            && op.id == id && op.kind == before.kind && op.startedAt == before.startedAt && op.error == before.error
  {
    var i := Find(ops, id);
    Updated(ops, capacity, i, SucceededOp(ops[i], output, summary, now));
  }

  /** After fail: status, message and time, the stage failed and one more error; everything else
      unchanged. */
  lemma AfterFail(ops: Ops, capacity: int, id: string, message: string, now: string)
    requires UniqueIds(ops) && Roomy(ops, capacity) && Shown(ops, id).Some?
    ensures var before := Shown(ops, id).value;
            var shown := Shown(Apply(ops, capacity, Fail(id, message, now)), id);
            && shown.Some?
            && var op, p := shown.value, before.progress;
            && op.status == Failed && op.finishedAt == now && op.error == Some(message)
            && op.progress == Progress(p.total, p.processed, p.changed, p.skipped, p.errors + 1, "failed", p.summary)
            && op.id == id && op.kind == before.kind && op.startedAt == before.startedAt
            && op.output == before.output && op.summary == before.summary
  {
    var i := Find(ops, id);
    Updated(ops, capacity, i, FailedOp(ops[i], message, now));
  }

  /** After a progress report: the given progress; everything else unchanged, at any size. */
  lemma AfterReport(ops: Ops, capacity: int, id: string, progress: Progress)
    requires UniqueIds(ops) && Shown(ops, id).Some?
    ensures var before := Shown(ops, id).value;
            Shown(Apply(ops, capacity, Report(id, progress)), id) ==
            Some(Operation(before.id, before.kind, before.status, before.startedAt, before.finishedAt, progress,
                           before.summary, before.output, before.error))
  {
    var i := Find(ops, id);
    Updated(ops, 0, i, ops[i].(progress := progress));
  }

  /** Finishing, reporting on or reading an unknown operation changes nothing. */
  lemma UnknownChangesNothing(ops: Ops, capacity: int, call: Call)
    requires !call.Create? && Shown(ops, call.id).None?
    ensures Apply(ops, capacity, call) == ops
  {
  }

  // ---------- the other records ----------

  lemma ReplacedMembers(ops: Ops, i: nat, op: Operation, x: Operation)
    requires UniqueIds(ops) && i < |ops| && op.id == ops[i].id && x.id != op.id
    ensures x in ops[i := op] <==> x in ops
  {
    var updated := ops[i := op];
    if x in ops {
      var j :| 0 <= j < |ops| && ops[j] == x;
      assert updated[j] == x;
    }
  }

  /** A call leaves every other record as it is, or evicts it, and then it was finished; it
      makes none appear. */
  lemma OthersKept(ops: Ops, capacity: int, call: Call, x: Operation)
    requires UniqueIds(ops) && x.id != call.id
    ensures Shown(Apply(ops, capacity, call), x.id) == Some(x) ==> Shown(ops, x.id) == Some(x)
    ensures Shown(ops, x.id) == Some(x) ==>
              || Shown(Apply(ops, capacity, call), x.id) == Some(x)
              || (x.status != Running && x !in Apply(ops, capacity, call))
  {
    var after, i := Apply(ops, capacity, call), Find(ops, call.id);
    ApplyUnique(ops, capacity, call);
    ShownMeaning(ops, x.id, x);
    ShownMeaning(after, x.id, x);
    match call {
      case Create(id, kind, now) =>
        if i < |ops| {
          RemovedMembers(ops, i, x);
        } else {
          EvictMembers(ops + [Created(id, kind, now)], capacity, x);
        }
      case Succeed(id, output, summary, now) =>
        if i < |ops| {
          var op := SucceededOp(ops[i], output, summary, now);
          ReplacedMembers(ops, i, op, x);
          EvictMembers(ops[i := op], capacity, x);
        }
      case Fail(id, message, now) =>
        if i < |ops| {
          var op := FailedOp(ops[i], message, now);
          ReplacedMembers(ops, i, op, x);
          EvictMembers(ops[i := op], capacity, x);
        }
      case Report(id, progress) =>
        if i < |ops| {
          ReplacedMembers(ops, i, ops[i].(progress := progress), x);
        }
      case Get(_) =>
    }
  }

  /** While there is room after the call, no other record changes. */
  lemma OthersUnchanged(ops: Ops, capacity: int, call: Call, x: Operation)
    requires UniqueIds(ops) && x.id != call.id
    requires Roomy(ops, capacity) && (call.Create? && Find(ops, call.id) == |ops| ==> capacity <= 0 || |ops| < capacity)
    ensures Shown(Apply(ops, capacity, call), x.id) == Some(x) <==> Shown(ops, x.id) == Some(x)
  {
    var after, i := Apply(ops, capacity, call), Find(ops, call.id);
    ApplyUnique(ops, capacity, call);
    ShownMeaning(ops, x.id, x);
    ShownMeaning(after, x.id, x);
    match call {
      case Create(id, kind, now) =>
        if i < |ops| {
          RemovedMembers(ops, i, x);
        }
      case Succeed(id, output, summary, now) =>
        if i < |ops| {
          ReplacedMembers(ops, i, SucceededOp(ops[i], output, summary, now), x);
        }
      case Fail(id, message, now) =>
        if i < |ops| {
          ReplacedMembers(ops, i, FailedOp(ops[i], message, now), x);
        }
      case Report(id, progress) =>
        if i < |ops| {
          ReplacedMembers(ops, i, ops[i].(progress := progress), x);
        }
      case Get(_) =>
    }
  }

  // ---------- what a shown status means ----------

  /** The status the last create, succeed or fail for an id stands for, read off the calls. */
  function LastStatus(calls: seq<Call>, id: string): Option<Status> {
    if calls == [] then None
    else
      var last := calls[|calls| - 1];
      if last.id == id && last.Create? then Some(Running)
      else if last.id == id && last.Succeed? then Some(Succeeded)
      else if last.id == id && last.Fail? then Some(Failed)
      else LastStatus(calls[..|calls| - 1], id)
  }

  ghost predicate StatusesFollow(ops: Ops, calls: seq<Call>) {
    forall op | op in ops :: LastStatus(calls, op.id) == Some(op.status)
  }

  lemma FinishedStatus(ops: Ops, i: nat, op: Operation, capacity: int, x: Operation)
    requires UniqueIds(ops) && i < |ops| && op.id == ops[i].id && x in Evict(ops[i := op], capacity)
    ensures x == op || (x in ops && x.id != op.id)
  {
    EvictMembers(ops[i := op], capacity, x);
    var j :| 0 <= j < |ops| && ops[i := op][j] == x;
    assert j != i ==> ops[j] == x;
  }

  lemma StatusStep(ops: Ops, capacity: int, calls: seq<Call>, call: Call, x: Operation)
    requires UniqueIds(ops) && StatusesFollow(ops, calls) && x in Apply(ops, capacity, call)
    ensures LastStatus(calls + [call], x.id) == Some(x.status)
  {
    var i := Find(ops, call.id);
    assert (calls + [call])[..|calls|] == calls;
    match call {
      case Create(id, kind, now) =>
        var op := Created(id, kind, now);
        if i < |ops| {
          RemovedMembers(ops, i, x);
          RemovedIsGone(ops, i);
          assert x in RemoveAt(ops, i) ==> x.id in Ids(RemoveAt(ops, i));
        } else {
          EvictMembers(ops + [op], capacity, x);
          assert x in ops ==> x.id != id;
        }
      case Succeed(id, output, summary, now) =>
        if i < |ops| {
          FinishedStatus(ops, i, SucceededOp(ops[i], output, summary, now), capacity, x);
        }
      case Fail(id, message, now) =>
        if i < |ops| {
          FinishedStatus(ops, i, FailedOp(ops[i], message, now), capacity, x);
        }
      case Report(id, progress) =>
        if i < |ops| {
          FinishedStatus(ops, i, ops[i].(progress := progress), 0, x);
          assert ops[i] in ops;
        }
      case Get(_) =>
    }
  }

  /** Over every history: a shown operation is running, succeeded or failed exactly as the last
      create, succeed or fail for its id says. */
  lemma {:induction false} StatusIsTheLastCalls(capacity: int, calls: seq<Call>, id: string)
    ensures StatusesFollow(ApplyAll(capacity, calls), calls)
    ensures var shown := Shown(ApplyAll(capacity, calls), id);
            shown.Some? ==> LastStatus(calls, id) == Some(shown.value.status)
  {
    if calls != [] {
      var front, last := calls[..|calls| - 1], calls[|calls| - 1];
      var ops := ApplyAll(capacity, front);
      StatusIsTheLastCalls(capacity, front, id);
      EveryHistory(capacity, front);
      assert calls == front + [last];
      forall x | x in ApplyAll(capacity, calls)
        ensures LastStatus(calls, x.id) == Some(x.status)
      {
        StatusStep(ops, capacity, front, last, x);
      }
    }
    var ops := ApplyAll(capacity, calls);
    if Find(ops, id) < |ops| {
      assert ops[Find(ops, id)] in ops;
    }
  }
}
