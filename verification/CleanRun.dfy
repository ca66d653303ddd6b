/** The sequential end of RunCleaner (backup, batched transactional writes, report) and what
    it does to the note table when composed with the concurrent stage. */
module CleanRun {
  import opened Common
  import opened Fields
  import opened Notes
  import opened Pipeline
  import opened PipelineRuns

  const BATCH_SIZE: nat := 1000

  // ---------- the batched writer ----------

  /** Positions in the write list whose UPDATE fails, and first positions of the batches whose
      transaction cannot be begun or committed. */
  datatype WriteFaults = WriteFaults(updates: set<nat>, transactions: set<nat>)

  const NO_FAULTS := WriteFaults({}, {})

  /** A finished writer: `committed` items are in the table. */
  datatype Written = Written(rows: Rows, committed: nat, error: Option<NoteError>)

  function BatchEnd(n: nat, start: nat): nat {
    if start + BATCH_SIZE > n then n else start + BATCH_SIZE
  }

  /** The outcome of updating one item, without touching the table on failure. */
  function UpdateError(rows: Rows, models: Models, items: seq<Item>, faults: WriteFaults, p: nat): Option<NoteError>
    requires p < |items|
  {
    var check := UpdateCheck(rows, models, items[p].noteID, items[p].cleaned.fields);
    if check.Some? then check else if p in faults.updates then Some(StorageFailed) else None
  }

  /** The closure given to WithTx: items `lo` to `hi`, stopping at the first error. */
  function ApplyRange(rows: Rows, models: Models, items: seq<Item>, times: seq<int>, faults: WriteFaults,
                      lo: nat, hi: nat): Result<Rows, NoteError>
    requires lo <= hi <= |items| == |times|
    decreases hi - lo
  {
    if lo == hi then Ok(rows)
    else
      match UpdateError(rows, models, items, faults, lo)
      case Some(e) => Err(e)
      case None =>
        ApplyRange(UpdatedRows(rows, models, items[lo].noteID, items[lo].cleaned.fields, times[lo]),
                   models, items, times, faults, lo + 1, hi)
  }

  /** WithTx: all of the batch or none of it. */
  function Transaction(rows: Rows, models: Models, items: seq<Item>, times: seq<int>, faults: WriteFaults,
                       lo: nat, hi: nat): Result<Rows, NoteError>
    requires lo <= hi <= |items| == |times|
  {
    match ApplyRange(rows, models, items, times, faults, lo, hi)
    case Err(e) => Err(e)
    case Ok(after) => if lo in faults.transactions then Err(StorageFailed) else Ok(after)
  }

  /** The writer loop from position `start`. */
  function WriteFrom(rows: Rows, models: Models, items: seq<Item>, times: seq<int>, faults: WriteFaults,
                     start: nat): Written
    requires start <= |items| == |times|
    decreases |items| - start
  {
    if start == |items| then Written(rows, start, None)
    else
      match Transaction(rows, models, items, times, faults, start, BatchEnd(|items|, start))
      case Err(e) => Written(rows, start, Some(e))
      case Ok(after) => WriteFrom(after, models, items, times, faults, BatchEnd(|items|, start))
  }

  /** WithTx around the updates of one batch, with the rollback. */
  method WriteBatch(db: Collection, items: seq<Item>, times: seq<int>, faults: WriteFaults, lo: nat, hi: nat)
      returns (error: Option<NoteError>)
    requires lo <= hi <= |items| == |times|
    modifies db
    ensures db.backups == old(db.backups) && db.backupDone == old(db.backupDone)
    ensures match Transaction(old(db.rows), db.models, items, times, faults, lo, hi)
            case Ok(after) => error == None && db.rows == after
            case Err(e) => error == Some(e) && db.rows == old(db.rows)
  {
    var snapshot := db.rows;
    for p := lo to hi
      invariant db.backups == old(db.backups) && db.backupDone == old(db.backupDone)
      invariant ApplyRange(snapshot, db.models, items, times, faults, lo, hi) ==
                ApplyRange(db.rows, db.models, items, times, faults, p, hi)
    {
      var item, fault := items[p], Faults(NoFault, p in faults.updates);
      var failed := db.UpdateNote(item.noteID, item.cleaned.fields, false, times[p], fault);
      if failed.Some? {
        db.rows := snapshot;
        return failed;
      }
    }
    if lo in faults.transactions {
      db.rows := snapshot;
      return Some(StorageFailed);
    }
    return None;
  }

  /** The writer stage: consecutive batches, one transaction each. */
  method WriteBatches(db: Collection, items: seq<Item>, times: seq<int>, faults: WriteFaults)
      returns (error: Option<NoteError>)
    requires |items| == |times|
    modifies db
    ensures db.backups == old(db.backups) && db.backupDone == old(db.backupDone)
    ensures var w := WriteFrom(old(db.rows), db.models, items, times, faults, 0);
            db.rows == w.rows && error == w.error
  {
    var i := 0;
    while i < |items|
      invariant 0 <= i <= |items|
      invariant db.backups == old(db.backups) && db.backupDone == old(db.backupDone)
      invariant WriteFrom(old(db.rows), db.models, items, times, faults, 0) ==
                WriteFrom(db.rows, db.models, items, times, faults, i)
    {
      var end := i + BATCH_SIZE;
      if end > |items| {
        end := |items|;
      }
      var failed := WriteBatch(db, items, times, faults, i, end);
      if failed.Some? {
        return failed;
      }
      i := end;
    }
    return None;
  }

  // ---------- batch atomicity ----------

  /** The table with the first `k` items written one after the other. */
  function Applied(rows: Rows, items: seq<Item>, times: seq<int>, k: nat): Rows
    requires k <= |items| == |times|
  {
    if k == 0 then rows
    else
      var before := Applied(rows, items, times, k - 1);
      var item := items[k - 1];
      if item.noteID in before
      then before[item.noteID := Rewritten(before[item.noteID], item.cleaned.fields, times[k - 1])]
      else before
  }

  /** Updates never add or remove a row and never touch guid or mid. */
  lemma {:induction false} AppliedKeepsIdentity(rows: Rows, items: seq<Item>, times: seq<int>, k: nat)
    requires k <= |items| == |times|
    ensures Applied(rows, items, times, k).Keys == rows.Keys
    ensures forall id | id in rows ::
              var row := Applied(rows, items, times, k)[id];
              row.id == rows[id].id && row.guid == rows[id].guid && row.mid == rows[id].mid
  {
    if k > 0 {
      AppliedKeepsIdentity(rows, items, times, k - 1);
    }
  }

  /** Whether an update passes depends only on the initial table. */
  lemma UpdateErrorStable(rows: Rows, models: Models, items: seq<Item>, times: seq<int>, faults: WriteFaults,
                          k: nat, p: nat)
    requires k <= |items| == |times| && p < |items|
    ensures UpdateError(Applied(rows, items, times, k), models, items, faults, p) ==
            UpdateError(rows, models, items, faults, p)
  {
    AppliedKeepsIdentity(rows, items, times, k);
  }

  /** Some update of the batch starting at `lo`, or its transaction, fails. */
  ghost predicate BatchFails(rows: Rows, models: Models, items: seq<Item>, faults: WriteFaults, lo: nat)
    requires lo < |items|
  {
    lo in faults.transactions ||
    exists p :: lo <= p < BatchEnd(|items|, lo) && UpdateError(rows, models, items, faults, p).Some?
  }

  lemma {:induction false} RangeOutcome(rows: Rows, models: Models, items: seq<Item>, times: seq<int>,
                                        faults: WriteFaults, lo: nat, hi: nat)
    requires lo <= hi <= |items| == |times|
    ensures var r := ApplyRange(Applied(rows, items, times, lo), models, items, times, faults, lo, hi);
            && (r.Err? <==> exists p :: lo <= p < hi && UpdateError(rows, models, items, faults, p).Some?)
            && (r.Ok? ==> r.value == Applied(rows, items, times, hi))
    decreases hi - lo
  {
    if lo < hi {
      UpdateErrorStable(rows, models, items, times, faults, lo, lo);
      if UpdateError(rows, models, items, faults, lo).None? {
        RangeOutcome(rows, models, items, times, faults, lo + 1, hi);
        assert Applied(rows, items, times, lo + 1) ==
               UpdatedRows(Applied(rows, items, times, lo), models, items[lo].noteID, items[lo].cleaned.fields,
                           times[lo]);
      }
    }
  }

  lemma {:induction false} WriteOutcome(rows: Rows, models: Models, items: seq<Item>, times: seq<int>,
                                        faults: WriteFaults, start: nat)
    requires start <= |items| == |times| && (start % BATCH_SIZE == 0 || start == |items|)
    ensures var w := WriteFrom(Applied(rows, items, times, start), models, items, times, faults, start);
            && start <= w.committed <= |items|
            && w.rows == Applied(rows, items, times, w.committed)
            && (w.error.None? ==> w.committed == |items|)
            && (w.error.Some? ==> w.committed < |items| && w.committed % BATCH_SIZE == 0
                                  && BatchFails(rows, models, items, faults, w.committed))
            && (forall lo | start <= lo < w.committed && lo % BATCH_SIZE == 0 ::
                  !BatchFails(rows, models, items, faults, lo))
    decreases |items| - start
  {
    if start < |items| {
      var end := BatchEnd(|items|, start);
      RangeOutcome(rows, models, items, times, faults, start, end);
      if Transaction(Applied(rows, items, times, start), models, items, times, faults, start, end).Ok? {
        assert !BatchFails(rows, models, items, faults, start);
        WriteOutcome(rows, models, items, times, faults, end);
        assert forall lo | start < lo < end :: lo % BATCH_SIZE != 0;
      }
    }
  }

  /** Batch atomicity. The batches are consecutive stretches of 1000 items. If any of them
      fails, the writer stops at the first one that does, say at position 1000k, and the table
      is the initial one with exactly the first 1000k updates applied; otherwise it is the
      initial table with all of them. Identities (id, guid, mid) never change. */
  lemma BatchAtomicity(rows: Rows, models: Models, items: seq<Item>, times: seq<int>, faults: WriteFaults)
    requires |items| == |times|
    ensures var w := WriteFrom(rows, models, items, times, faults, 0);
            && w.committed <= |items|
            && w.rows == Applied(rows, items, times, w.committed)
            && (w.error.Some? <==>
                exists lo :: 0 <= lo < |items| && lo % 1000 == 0 && BatchFails(rows, models, items, faults, lo))
            && (w.error.None? ==> w.committed == |items|)
            && (w.error.Some? ==>
                && w.committed < |items| && w.committed % 1000 == 0
                && BatchFails(rows, models, items, faults, w.committed)
                && forall lo | 0 <= lo < w.committed && lo % 1000 == 0 ::
                     !BatchFails(rows, models, items, faults, lo))
            && w.rows.Keys == rows.Keys
            && forall id | id in rows ::
                 w.rows[id].id == rows[id].id && w.rows[id].guid == rows[id].guid && w.rows[id].mid == rows[id].mid
  {
    WriteOutcome(rows, models, items, times, faults, 0);
    AppliedKeepsIdentity(rows, items, times, WriteFrom(rows, models, items, times, faults, 0).committed);
  }

  // ---------- the tail of RunCleaner ----------

  datatype RunError = RunFailed(failure: Failure) | BackupError | WriteError(error: NoteError) | ReportError

  datatype TailFaults = TailFaults(backup: BackupFault, writes: WriteFaults, reportFails: bool)

  /** Everything RunCleaner does after the drain: read errCh, then backup, write and report.
      A failed run and a dry run leave the collection alone; an applying run backs up first. */
  method FinishRun(db: Collection, outcome: Option<Failure>, tally: Tally, dryRun: bool, wantsReport: bool,
                   times: seq<int>, faults: TailFaults)
      returns (result: Result<Summary, RunError>, report: Option<Tally>)
    requires |times| == |tally.toWrite|
    modifies db
    ensures outcome.Some? || dryRun ==>
              db.rows == old(db.rows) && db.backups == old(db.backups) && db.backupDone == old(db.backupDone)
    ensures outcome.None? && !dryRun ==>
              && db.backupDone == (old(db.backupDone) || !faults.backup.CopyFault?)
              && db.backups == (if !old(db.backupDone) && db.backupDone then old(db.backups) + [old(db.rows)]
                                else old(db.backups))
              && db.rows == if old(db.backupDone) || faults.backup.NoFault?
                            then WriteFrom(old(db.rows), db.models, tally.toWrite, times, faults.writes, 0).rows
                            else old(db.rows)
    ensures result ==
            var written := WriteFrom(old(db.rows), db.models, tally.toWrite, times, faults.writes, 0);
            if outcome.Some? then Err(RunFailed(outcome.value))
            else if !dryRun && !old(db.backupDone) && !faults.backup.NoFault? then Err(BackupError)
            else if !dryRun && written.error.Some? then Err(WriteError(written.error.value))
            else if wantsReport && faults.reportFails then Err(ReportError)
            else Ok(tally.summary)
    ensures report == if result.Ok? && wantsReport then Some(tally) else None
  {
    report := None;
    if outcome.Some? {
      return Err(RunFailed(outcome.value)), None;
    }
    if !dryRun {
      var ok := db.EnsureBackup(faults.backup);
      if !ok {
        return Err(BackupError), None;
      }
      var failed := WriteBatches(db, tally.toWrite, times, faults.writes);
      if failed.Some? {
        return Err(WriteError(failed.value)), None;
      }
    }
    if wantsReport {
      if faults.reportFails {
        return Err(ReportError), None;
      }
      report := Some(tally);
    }
    return Ok(tally.summary), report;
  }

  // ---------- dry run against apply ----------

  /** The pipeline configured by RunCleaner for one table, template and note list. */
  function CleanerConfig(rows: Rows, models: Models, template: Template, ids: seq<int>, workers: int): Config {
    Config(ids, workers, id => CleanNote(rows, models, template, id))
  }

  ghost predicate Distinct(ids: seq<int>) {
    forall i, j | 0 <= i < j < |ids| :: ids[i] != ids[j]
  }

  /** The diff block of a note of the deck: what PreviewCleaner shows for it. */
  function PreviewBlock(rows: Rows, models: Models, template: Template, ids: seq<int>, id: int): seq<DiffRecord> {
    if id !in ids then []
    else
      match CleanNote(rows, models, template, id)
      case Ok(cleaned) => cleaned.records
      case Err(_) => []
  }

  /** The records of a run that concern one note, in order. */
  function RecordsOf(records: seq<DiffRecord>, id: int): seq<DiffRecord> {
    if records == [] then []
    else RecordsOf(records[..|records| - 1], id) +
         if records[|records| - 1].noteID == id then [records[|records| - 1]] else []
  }

  lemma {:induction false} RecordsOfAppend(a: seq<DiffRecord>, b: seq<DiffRecord>, id: int)
    ensures RecordsOf(a + b, id) == RecordsOf(a, id) + RecordsOf(b, id)
  {
    if b == [] {
      assert a + b == a;
    } else {
      var n := |b| - 1;
      assert (a + b)[..|a + b| - 1] == a + b[..n];
      RecordsOfAppend(a, b[..n], id);
    }
  }

  lemma {:induction false} RecordsOfUniform(records: seq<DiffRecord>, owner: int, id: int)
    requires forall r | r in records :: r.noteID == owner
    ensures RecordsOf(records, id) == if owner == id then records else []
  {
    if records != [] {
      var n := |records| - 1;
      RecordsOfUniform(records[..n], owner, id);
      assert records == records[..n] + [records[n]];
    }
  }

  lemma CleanedRecordsOwner(rows: Rows, models: Models, template: Template, id: int)
    requires CleanNote(rows, models, template, id).Ok?
    ensures forall r | r in CleanNote(rows, models, template, id).value.records :: r.noteID == id
  {
    var fields := ReadFields(rows, models, id).value;
    DiffsMeaning(id, fields, CleanedValues(template, Values(fields)).value);
  }

  /** The records an item carries are about its own note. */
  ghost predicate OwnRecords(item: Item) {
    forall r | r in item.cleaned.records :: r.noteID == item.noteID
  }

  /** Peeling off the last item: its records of the note come last. */
  lemma RecordsOfLast(items: seq<Item>, id: int)
    requires items != [] && OwnRecords(items[|items| - 1])
    ensures var n := |items| - 1;
            RecordsOf(Blocks(items), id) ==
            RecordsOf(Blocks(items[..n]), id) + if items[n].noteID == id then items[n].cleaned.records else []
  {
    var n := |items| - 1;
    RecordsOfAppend(Blocks(items[..n]), items[n].cleaned.records, id);
    RecordsOfUniform(items[n].cleaned.records, items[n].noteID, id);
  }

  lemma {:induction false} NoBlock(items: seq<Item>, id: int)
    requires forall k | 0 <= k < |items| :: OwnRecords(items[k]) && items[k].noteID != id
    ensures RecordsOf(Blocks(items), id) == []
  {
    if items != [] {
      RecordsOfLast(items, id);
      NoBlock(items[..|items| - 1], id);
    }
  }

  /** In a list of items about different notes, the records of a note are its own block. */
  lemma {:induction false} BlockOfNote(items: seq<Item>, k: nat)
    requires k < |items|
    requires forall j | 0 <= j < |items| :: OwnRecords(items[j])
    requires forall j | 0 <= j < |items| && j != k :: items[j].noteID != items[k].noteID
    ensures RecordsOf(Blocks(items), items[k].noteID) == items[k].cleaned.records
  {
    var n, id := |items| - 1, items[k].noteID;
    var front := items[..n];
    RecordsOfLast(items, id);
    if k == n {
      NoBlock(front, id);
    } else {
      assert front[k] == items[k];
      BlockOfNote(front, k);
    }
  }

  /** The write list holds the note at position `i` exactly when cleaning changes it. */
  lemma WrittenIffChanged(c: Config, s: State, i: nat)
    requires CleanFinish(c, s) && i < |c.ids|
    ensures c.clean(c.ids[i]).Ok?
    ensures (exists k :: 0 <= k < |s.tally.toWrite| && s.tally.toWrite[k].noteID == c.ids[i]) <==>
            c.clean(c.ids[i]).value.records != []
  {
    RefinesPlainLoop(c, s);
    WriteListIsSound(c, s);
    CompleteOrCancelled(c, s);
    ReachableInv(c, s);
    var item := PlainItems(c)[i];
    ToWriteMultiset(s.received, item);
    GenuineMultiset(c, s.received, item);
    if item.cleaned.records != [] {
      assert item in multiset(s.tally.toWrite);
      assert item in s.tally.toWrite;
      var k :| 0 <= k < |s.tally.toWrite| && s.tally.toWrite[k] == item;
      assert s.tally.toWrite[k].noteID == c.ids[i];
    }
  }

  lemma DistinctNotes(c: Config, s: State)
    requires Reachable(c, s) && Distinct(c.ids)
    ensures forall k, l | 0 <= k < l < |s.tally.toWrite| :: s.tally.toWrite[k].noteID != s.tally.toWrite[l].noteID
  {
    WriteListIsSound(c, s);
    var items := s.tally.toWrite;
    forall k, l | 0 <= k < l < |items|
      ensures items[k].noteID != items[l].noteID
    {
      assert Genuine(c, items[k]) && Genuine(c, items[l]) && items[k].index != items[l].index;
    }
  }

  lemma WriteListOwnsRecords(rows: Rows, models: Models, template: Template, ids: seq<int>, workers: int, s: State)
    requires Reachable(CleanerConfig(rows, models, template, ids, workers), s)
    ensures forall j | 0 <= j < |s.tally.toWrite| :: OwnRecords(s.tally.toWrite[j])
  {
    var c := CleanerConfig(rows, models, template, ids, workers);
    WriteListIsSound(c, s);
    var items := s.tally.toWrite;
    forall j | 0 <= j < |items|
      ensures OwnRecords(items[j])
    {
      assert Genuine(c, items[j]);
      CleanedRecordsOwner(rows, models, template, items[j].noteID);
    }
  }

  /** The records of a run, looked up by note, in terms of its write list. */
  lemma RecordsByNote(rows: Rows, models: Models, template: Template, ids: seq<int>, workers: int, s: State, id: int)
    requires Distinct(ids) && CleanFinish(CleanerConfig(rows, models, template, ids, workers), s)
    ensures forall k | 0 <= k < |s.tally.toWrite| && s.tally.toWrite[k].noteID == id ::
              RecordsOf(s.tally.records, id) == s.tally.toWrite[k].cleaned.records
    ensures (forall k | 0 <= k < |s.tally.toWrite| :: s.tally.toWrite[k].noteID != id) ==>
              RecordsOf(s.tally.records, id) == []
  {
    var c := CleanerConfig(rows, models, template, ids, workers);
    RefinesPlainLoop(c, s);
    DistinctNotes(c, s);
    WriteListOwnsRecords(rows, models, template, ids, workers, s);
    if k :| 0 <= k < |s.tally.toWrite| && s.tally.toWrite[k].noteID == id {
      BlockOfNote(s.tally.toWrite, k);
    } else {
      NoBlock(s.tally.toWrite, id);
    }
  }

  /** The write list holds a note exactly when its preview block is non-empty, and then with
      what cleaning that note gives. */
  lemma WriteListByNote(rows: Rows, models: Models, template: Template, ids: seq<int>, workers: int, s: State, id: int)
    requires CleanFinish(CleanerConfig(rows, models, template, ids, workers), s)
    ensures (forall k | 0 <= k < |s.tally.toWrite| :: s.tally.toWrite[k].noteID != id) ==>
              PreviewBlock(rows, models, template, ids, id) == []
    ensures forall k | 0 <= k < |s.tally.toWrite| && s.tally.toWrite[k].noteID == id ::
              && CleanNote(rows, models, template, id) == Ok(s.tally.toWrite[k].cleaned)
              && PreviewBlock(rows, models, template, ids, id) == s.tally.toWrite[k].cleaned.records != []
  {
    var c := CleanerConfig(rows, models, template, ids, workers);
    WriteListIsSound(c, s);
    forall k | 0 <= k < |s.tally.toWrite| && s.tally.toWrite[k].noteID == id
      ensures CleanNote(rows, models, template, id) == Ok(s.tally.toWrite[k].cleaned) && id in ids
    {
      assert Genuine(c, s.tally.toWrite[k]) && id == ids[s.tally.toWrite[k].index];
    }
    if i :| 0 <= i < |ids| && ids[i] == id {
      WrittenIffChanged(c, s, i);
    }
  }

  /** Every interleaving of a run reports, for every note, exactly the block PreviewCleaner
      shows for it. */
  lemma RecordsArePreviews(rows: Rows, models: Models, template: Template, ids: seq<int>, workers: int, s: State,
                           id: int)
    requires Distinct(ids) && CleanFinish(CleanerConfig(rows, models, template, ids, workers), s)
    ensures RecordsOf(s.tally.records, id) == PreviewBlock(rows, models, template, ids, id)
  {
    RecordsByNote(rows, models, template, ids, workers, s, id);
    WriteListByNote(rows, models, template, ids, workers, s, id);
  }

  /** With distinct notes each row is written at most once, from its initial content. */
  lemma {:induction false} AppliedPointwise(rows: Rows, items: seq<Item>, times: seq<int>, n: nat, id: int)
    requires n <= |items| == |times| && id in rows
    requires forall k, l | 0 <= k < l < |items| :: items[k].noteID != items[l].noteID
    ensures id in Applied(rows, items, times, n)
    ensures (forall k | 0 <= k < n :: items[k].noteID != id) ==> Applied(rows, items, times, n)[id] == rows[id]
    ensures forall k | 0 <= k < n && items[k].noteID == id ::
              Applied(rows, items, times, n)[id] == Rewritten(rows[id], items[k].cleaned.fields, times[k])
  {
    if n > 0 {
      AppliedPointwise(rows, items, times, n - 1, id);
    }
  }

  lemma CleanedFieldsFit(rows: Rows, models: Models, template: Template, id: int)
    requires CleanNote(rows, models, template, id).Ok? && CleanNote(rows, models, template, id).value.records != []
    ensures UpdateCheck(rows, models, id, CleanNote(rows, models, template, id).value.fields).None?
  {
  }

  /** Without storage faults the writer never fails on what the pipeline hands it. */
  lemma ApplySucceeds(rows: Rows, models: Models, template: Template, ids: seq<int>, workers: int, s: State,
                      times: seq<int>)
    requires CleanFinish(CleanerConfig(rows, models, template, ids, workers), s)
    requires |times| == |s.tally.toWrite|
    ensures var w := WriteFrom(rows, models, s.tally.toWrite, times, NO_FAULTS, 0);
            w.error.None? && w.rows == Applied(rows, s.tally.toWrite, times, |times|)
  {
    var c := CleanerConfig(rows, models, template, ids, workers);
    var items := s.tally.toWrite;
    WriteListIsSound(c, s);
    forall p | 0 <= p < |items|
      ensures UpdateError(rows, models, items, NO_FAULTS, p).None?
    {
      assert Genuine(c, items[p]);
      CleanedFieldsFit(rows, models, template, items[p].noteID);
    }
    BatchAtomicity(rows, models, items, times, NO_FAULTS);
  }

  /** How an applied row relates to the records shown for it beforehand. */
  ghost predicate RowAsPredicted(rows: Rows, models: Models, template: Template, times: seq<int>,
                                 block: seq<DiffRecord>, after: Rows, id: int)
    requires id in rows && id in after
  {
    if block == [] then after[id] == rows[id]
    else
      && ReadFields(rows, models, id).Ok?
      && var fields := ReadFields(rows, models, id).value;
      exists values: seq<string>, now: int ::
        && |values| == |fields|
        && block == Diffs(id, fields, values)
        && CleanedValues(template, Values(fields)) == Some(values)
        && now in times
        && after[id] == Note(rows[id].id, rows[id].guid, rows[id].mid, Join(values), now, -1)
  }

  lemma RewrittenAsPredicted(rows: Rows, models: Models, template: Template, times: seq<int>, after: Rows, id: int,
                             now: int)
    requires id in rows && id in after && now in times
    requires CleanNote(rows, models, template, id).Ok? && CleanNote(rows, models, template, id).value.records != []
    requires after[id] == Rewritten(rows[id], CleanNote(rows, models, template, id).value.fields, now)
    ensures RowAsPredicted(rows, models, template, times, CleanNote(rows, models, template, id).value.records,
                           after, id)
  {
    var fields := ReadFields(rows, models, id).value;
    var values := CleanedValues(template, Values(fields)).value;
    assert Values(WithValues(fields, values)) == values;
    assert after[id] == Note(rows[id].id, rows[id].guid, rows[id].mid, Join(values), now, -1);
  }

  lemma AppliedAsPredicted(rows: Rows, models: Models, template: Template, ids: seq<int>, workers: int, s: State,
                           times: seq<int>, id: int)
    requires Distinct(ids) && id in rows
    requires CleanFinish(CleanerConfig(rows, models, template, ids, workers), s)
    requires |times| == |s.tally.toWrite|
    ensures var after := Applied(rows, s.tally.toWrite, times, |times|);
            && id in after
            && RowAsPredicted(rows, models, template, times, PreviewBlock(rows, models, template, ids, id), after, id)
  {
    var c := CleanerConfig(rows, models, template, ids, workers);
    var items := s.tally.toWrite;
    DistinctNotes(c, s);
    AppliedPointwise(rows, items, times, |items|, id);
    WriteListByNote(rows, models, template, ids, workers, s, id);
    if k :| 0 <= k < |items| && items[k].noteID == id {
      RewrittenAsPredicted(rows, models, template, times, Applied(rows, items, times, |items|), id, times[k]);
    }
  }

  /** Dry run predicts apply. Take any dry run and any applying run over the same table, each
      with its own worker count and interleaving; no one else writes between their reads and
      the last batch. For every row: the dry run's records for it
      are its preview block; if there are none, the apply leaves the whole row untouched; and
      otherwise the apply stores, in field order, exactly the values whose differences from
      the old ones those records list, with the time of its update and the mark for syncing,
      and nothing else changes. */
  lemma DryRunPredictsApply(rows: Rows, models: Models, template: Template, ids: seq<int>,
                            dryWorkers: int, dry: State, workers: int, s: State, times: seq<int>, id: int)
    requires Distinct(ids) && id in rows
    requires CleanFinish(CleanerConfig(rows, models, template, ids, dryWorkers), dry)
    requires CleanFinish(CleanerConfig(rows, models, template, ids, workers), s)
    requires |times| == |s.tally.toWrite|
    ensures var w := WriteFrom(rows, models, s.tally.toWrite, times, NO_FAULTS, 0);
            && w.error.None?
            && id in w.rows
            && RecordsOf(dry.tally.records, id) == PreviewBlock(rows, models, template, ids, id)
            && RowAsPredicted(rows, models, template, times, RecordsOf(dry.tally.records, id), w.rows, id)
  {
    ApplySucceeds(rows, models, template, ids, workers, s, times);
    RecordsArePreviews(rows, models, template, ids, dryWorkers, dry, id);
    AppliedAsPredicted(rows, models, template, ids, workers, s, times, id);
  }

  /** An applied note can be read again exactly when every value stored for it is
      separator-free; otherwise the apply has broken the note. */
  lemma AppliedNoteReadable(rows: Rows, models: Models, template: Template, ids: seq<int>, workers: int, s: State,
                            times: seq<int>, id: int)
    requires Distinct(ids) && id in rows
    requires CleanFinish(CleanerConfig(rows, models, template, ids, workers), s)
    requires |times| == |s.tally.toWrite|
    requires PreviewBlock(rows, models, template, ids, id) != []
    ensures var after := WriteFrom(rows, models, s.tally.toWrite, times, NO_FAULTS, 0).rows;
            ReadFields(after, models, id).Ok? <==>
            Storable(Values(CleanNote(rows, models, template, id).value.fields))
  {
    ApplySucceeds(rows, models, template, ids, workers, s, times);
    DistinctNotes(CleanerConfig(rows, models, template, ids, workers), s);
    AppliedPointwise(rows, s.tally.toWrite, times, |times|, id);
    WriteListByNote(rows, models, template, ids, workers, s, id);
    var k :| 0 <= k < |s.tally.toWrite| && s.tally.toWrite[k].noteID == id;
    CleanedFieldsFit(rows, models, template, id);
    UpdateThenRead(rows, models, id, s.tally.toWrite[k].cleaned.fields, times[k]);
  }

  // ---------- another writer in between ----------

  /** The concurrent stage when the table may change under it: each note is read once, from the
      table as it is at that moment. */
  function SeenConfig(seen: int -> Rows, models: Models, template: Template, ids: seq<int>, workers: int): Config {
    Config(ids, workers, id => CleanNote(seen(id), models, template, id))
  }

  /** Other writers update notes; they neither add, remove nor retype them. */
  ghost predicate SameNotes(seen: int -> Rows, cur: Rows, ids: seq<int>) {
    forall n | n in ids && n in seen(n) :: n in cur && cur[n].mid == seen(n)[n].mid
  }

  /** A batch of updates of different notes writes each of them once over the table it finds. */
  lemma {:induction false} RangePointwise(cur: Rows, models: Models, items: seq<Item>, times: seq<int>,
                                          lo: nat, hi: nat, id: int)
    requires lo <= hi <= |items| == |times| && id in cur
    requires forall k, l | 0 <= k < l < |items| :: items[k].noteID != items[l].noteID
    requires forall p | lo <= p < hi :: UpdateCheck(cur, models, items[p].noteID, items[p].cleaned.fields).None?
    ensures var r := ApplyRange(cur, models, items, times, NO_FAULTS, lo, hi);
            && r.Ok? && id in r.value
            && ((forall k | lo <= k < hi :: items[k].noteID != id) ==> r.value[id] == cur[id])
            && forall k | lo <= k < hi && items[k].noteID == id ::
                 r.value[id] == Rewritten(cur[id], items[k].cleaned.fields, times[k])
    decreases hi - lo
  {
    if lo < hi {
      assert UpdateError(cur, models, items, NO_FAULTS, lo).None?;
      var next := UpdatedRows(cur, models, items[lo].noteID, items[lo].cleaned.fields, times[lo]);
      RangePointwise(next, models, items, times, lo + 1, hi, id);
    }
  }

  /** A batch written over whatever the table holds by then: it commits, leaves every other row
      alone, and stores in its rows what cleaning made of the table each note was read from. */
  lemma BatchOverOthers(seen: int -> Rows, models: Models, template: Template, ids: seq<int>, workers: int, s: State,
                        times: seq<int>, cur: Rows, lo: nat, hi: nat, id: int)
    requires Distinct(ids) && Reachable(SeenConfig(seen, models, template, ids, workers), s)
    requires lo <= hi <= |s.tally.toWrite| == |times|
    requires SameNotes(seen, cur, ids) && id in cur
    ensures var items := s.tally.toWrite;
            var r := Transaction(cur, models, items, times, NO_FAULTS, lo, hi);
            && r.Ok? && id in r.value
            && ((forall k | lo <= k < hi :: items[k].noteID != id) ==> r.value[id] == cur[id])
            && forall k | lo <= k < hi && items[k].noteID == id ::
                 && CleanNote(seen(id), models, template, id) == Ok(items[k].cleaned)
                 && r.value[id] == Rewritten(cur[id], items[k].cleaned.fields, times[k])
  {
    var c := SeenConfig(seen, models, template, ids, workers);
    var items := s.tally.toWrite;
    WriteListIsSound(c, s);
    DistinctNotes(c, s);
    forall p | lo <= p < hi
      ensures UpdateCheck(cur, models, items[p].noteID, items[p].cleaned.fields).None?
    {
      var n := items[p].noteID;
      assert Genuine(c, items[p]) && n in ids;
      CleanedFieldsFit(seen(n), models, template, n);
    }
    RangePointwise(cur, models, items, times, lo, hi, id);
    forall k | lo <= k < hi && items[k].noteID == id
      ensures CleanNote(seen(id), models, template, id) == Ok(items[k].cleaned)
    {
      assert Genuine(c, items[k]);
    }
  }

  /** Lost updates, exactly: an update of a note that another caller commits between the
      worker's read and the batch that writes the note is overwritten, and its values are kept
      only if they join to the same text as what the cleaner made of the older values. */
  lemma OtherUpdateKeptIffSame(seen: int -> Rows, models: Models, template: Template, ids: seq<int>, workers: int,
                               s: State, times: seq<int>, before: Rows, theirs: seq<NoteField>, when: int,
                               lo: nat, hi: nat, k: nat)
    requires Distinct(ids) && Reachable(SeenConfig(seen, models, template, ids, workers), s)
    requires lo <= k < hi <= |s.tally.toWrite| == |times|
    requires SameNotes(seen, before, ids)
    requires UpdateCheck(before, models, s.tally.toWrite[k].noteID, theirs).None?
    ensures var item := s.tally.toWrite[k];
            var id, ours := item.noteID, item.cleaned.fields;
            var cur := UpdatedRows(before, models, id, theirs, when);
            var r := Transaction(cur, models, s.tally.toWrite, times, NO_FAULTS, lo, hi);
            && r.Ok? && id in r.value
            && (r.value[id].flds == cur[id].flds <==> Join(Values(theirs)) == Join(Values(ours)))
            && (Storable(Values(theirs)) && Storable(Values(ours)) ==>
                  (r.value[id].flds == cur[id].flds <==> Values(theirs) == Values(ours)))
  {
    var item := s.tally.toWrite[k];
    var cur := UpdatedRows(before, models, item.noteID, theirs, when);
    BatchOverOthers(seen, models, template, ids, workers, s, times, cur, lo, hi, item.noteID);
    SplitJoin(Values(theirs));
    SplitJoin(Values(item.cleaned.fields));
  }

  // ---------- a second run finds nothing to do ----------

  /** Applying the template to its own result for `v` changes nothing. */
  predicate SettlesOn(template: Template, v: string) {
    template(v).Some? ==> template(template(v).value) == template(v)
  }

  ghost predicate Idempotent(template: Template) {
    forall v: string :: SettlesOn(template, v)
  }

  /** Every value the cleaning of this deck would store is separator-free. */
  ghost predicate StorableResults(rows: Rows, models: Models, template: Template, ids: seq<int>) {
    forall id | id in ids && CleanNote(rows, models, template, id).Ok? ::
      forall f | f in CleanNote(rows, models, template, id).value.fields :: SeparatorFree(f.value)
  }

  lemma {:induction false} CleanedAgain(template: Template, values: seq<string>)
    requires Idempotent(template) && CleanedValues(template, values).Some?
    ensures CleanedValues(template, CleanedValues(template, values).value) == CleanedValues(template, values)
  {
    if |values| > 0 {
      var n := |values| - 1;
      CleanedAgain(template, values[..n]);
      assert SettlesOn(template, values[n]);
      var after := CleanedValues(template, values).value;
      assert after[..n] == CleanedValues(template, values[..n]).value;
    }
  }

  /** Reading back a note whose storable values were written. */
  lemma ReadsBack(rows: Rows, models: Models, after: Rows, id: int, values: seq<string>, now: int)
    requires id in rows && id in after && Storable(values) && ReadFields(rows, models, id).Ok?
    requires |values| == |ReadFields(rows, models, id).value|
    requires after[id] == rows[id].(flds := Join(values), mod := now, usn := -1)
    ensures ReadFields(after, models, id).Ok? && Values(ReadFields(after, models, id).value) == values
  {
    SplitJoin(values);
    LabelledMeaning(values, models[rows[id].mid]);
  }

  lemma CleanedNoteIsStable(rows: Rows, models: Models, template: Template, ids: seq<int>, times: seq<int>,
                            after: Rows, id: int)
    requires Idempotent(template) && id in ids && id in rows && id in after
    requires StorableResults(rows, models, template, ids)
    requires CleanNote(rows, models, template, id).Ok?
    requires RowAsPredicted(rows, models, template, times, CleanNote(rows, models, template, id).value.records,
                            after, id)
    ensures CleanNote(after, models, template, id) == Ok(Cleaned([], []))
  {
    var fields := ReadFields(rows, models, id).value;
    var values := CleanedValues(template, Values(fields)).value;
    if CleanNote(rows, models, template, id).value.records != [] {
      var cleaned := CleanNote(rows, models, template, id).value.fields;
      forall v | v in values
        ensures SeparatorFree(v)
      {
        var i :| 0 <= i < |values| && values[i] == v;
        assert cleaned[i] == NoteField(fields[i].name, v) && cleaned[i] in cleaned;
      }
      var now :| now in times && after[id] == Note(rows[id].id, rows[id].guid, rows[id].mid, Join(values), now, -1);
      ReadsBack(rows, models, after, id, values, now);
      CleanedAgain(template, Values(fields));
      DiffsEmpty(id, ReadFields(after, models, id).value, values);
    }
  }

  lemma {:induction false} NothingChanged(items: seq<Item>)
    requires forall k | 0 <= k < |items| :: items[k].cleaned.records == []
    ensures TallyOf(items).summary.changed == 0 && TallyOf(items).toWrite == [] && TallyOf(items).records == []
  {
    if items != [] {
      NothingChanged(items[..|items| - 1]);
    }
  }

  /** With an idempotent template whose results can be stored, cleaning a cleaned deck again
      finds nothing to change, whatever the interleavings of the two runs. */
  lemma SecondRunChangesNothing(rows: Rows, models: Models, template: Template, ids: seq<int>,
                                workers: int, s: State, times: seq<int>, workersAgain: int, again: State)
    requires Distinct(ids) && Idempotent(template) && StorableResults(rows, models, template, ids)
    requires CleanFinish(CleanerConfig(rows, models, template, ids, workers), s)
    requires |times| == |s.tally.toWrite|
    requires var after := WriteFrom(rows, models, s.tally.toWrite, times, NO_FAULTS, 0).rows;
             CleanFinish(CleanerConfig(after, models, template, ids, workersAgain), again)
    ensures again.tally.summary == Summary(|ids|, 0, |ids|, 0) && again.tally.records == [] && again.tally.toWrite == []
  {
    var c := CleanerConfig(rows, models, template, ids, workers);
    var after := WriteFrom(rows, models, s.tally.toWrite, times, NO_FAULTS, 0).rows;
    var c' := CleanerConfig(after, models, template, ids, workersAgain);
    RefinesPlainLoop(c, s);
    RefinesPlainLoop(c', again);
    var plain := PlainItems(c');
    forall i | 0 <= i < |ids|
      ensures plain[i].cleaned.records == []
    {
      var id := ids[i];
      assert c.clean(c.ids[i]).Ok?;
      DryRunPredictsApply(rows, models, template, ids, workers, s, workers, s, times, id);
      CleanedNoteIsStable(rows, models, template, ids, times, after, id);
    }
    NothingChanged(plain);
    TallyCounts(plain);
    assert |again.tally.toWrite| == 0 by {
      SameSize(again.tally.toWrite, TallyOf(plain).toWrite);
    }
  }
}
