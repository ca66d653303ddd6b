/** The note table and the per-note operations of internal/application/services.go:
    GetNote, UpdateNote, PreviewCleaner and the body of a cleaner worker. */
module Notes {
  import opened Common
  import opened Fields

  datatype Note = Note(id: int, guid: string, mid: int, flds: string, mod: int, usn: int)
  datatype DiffRecord = DiffRecord(noteID: int, fieldName: string, before: string, after: string)

  /** What a worker produces for one note; both parts are empty when nothing changed. */
  datatype Cleaned = Cleaned(fields: seq<NoteField>, records: seq<DiffRecord>)

  datatype NoteError =
    | NoteNotFound
    | ModelNotFound
    | FieldCount
    | TemplateFailed
    | BackupFailed
    | StorageFailed

  type Rows = map<int, Note>
  type Models = map<int, Model>

  /** A cleaning template: None stands for an error returned by Apply. */
  type Template = string -> Option<string>

  /** Every row is filed under its own id. */
  predicate WellFormed(rows: Rows) {
    forall id | id in rows :: rows[id].id == id
  }

  // ---------- reading ----------

  /** GetNote: the labelled fields of a note. */
  function ReadFields(rows: Rows, models: Models, id: int): Result<seq<NoteField>, NoteError> {
    if id !in rows then Err(NoteNotFound)
    else if rows[id].mid !in models then Err(ModelNotFound)
    else
      match Labelled(Split(rows[id].flds), models[rows[id].mid])
      case Ok(fields) => Ok(fields)
      case Err(_) => Err(FieldCount)
  }

  /** Each failure of reading with its cause, and otherwise the model's names on the raw parts. */
  lemma ReadMeaning(rows: Rows, models: Models, id: int)
    ensures id !in rows ==> ReadFields(rows, models, id) == Err(NoteNotFound)
    ensures id in rows && rows[id].mid !in models ==> ReadFields(rows, models, id) == Err(ModelNotFound)
    ensures id in rows && rows[id].mid in models ==>
              var parts, names := Split(rows[id].flds), models[rows[id].mid].fieldNames;
              var read := ReadFields(rows, models, id);
              if |parts| != |names| then read == Err(FieldCount)
              else read.Ok? && Values(read.value) == parts && Names(read.value) == names
  {
    if id in rows && rows[id].mid in models {
      LabelledMeaning(Split(rows[id].flds), models[rows[id].mid]);
    }
  }

  // ---------- cleaning ----------

  /** The template applied to every value; None as soon as one application fails. */
  function CleanedValues(template: Template, values: seq<string>): (r: Option<seq<string>>)
    ensures r.Some? ==> |r.value| == |values|
  {
    if |values| == 0 then Some([])
    else
      var n := |values| - 1;
      var front, last := CleanedValues(template, values[..n]), template(values[n]);
      if front.Some? && last.Some? then Some(front.value + [last.value]) else None
  }

  /** One record for each field whose value changes, in field order. */
  function Diffs(noteID: int, fields: seq<NoteField>, after: seq<string>): seq<DiffRecord>
    requires |fields| == |after|
  {
    if |fields| == 0 then []
    else
      var n := |fields| - 1;
      Diffs(noteID, fields[..n], after[..n]) +
      if after[n] == fields[n].value then [] else [DiffRecord(noteID, fields[n].name, fields[n].value, after[n])]
  }

  function WithValues(fields: seq<NoteField>, after: seq<string>): seq<NoteField>
    requires |fields| == |after|
  {
    seq(|fields|, i requires 0 <= i < |fields| => NoteField(fields[i].name, after[i]))
  }

  /** What cleaning one note yields. */
  function CleanNote(rows: Rows, models: Models, template: Template, id: int): Result<Cleaned, NoteError> {
    match ReadFields(rows, models, id)
    case Err(e) => Err(e)
    case Ok(fields) =>
      match CleanedValues(template, Values(fields))
      case None => Err(TemplateFailed)
      case Some(after) =>
        var records := Diffs(id, fields, after);
        if records == [] then Ok(Cleaned([], [])) else Ok(Cleaned(WithValues(fields, after), records))
  }

  lemma {:induction false} CleanedValuesAt(template: Template, values: seq<string>)
    ensures CleanedValues(template, values).Some? <==> forall v | v in values :: template(v).Some?
    ensures CleanedValues(template, values).Some? ==>
              forall i | 0 <= i < |values| :: CleanedValues(template, values).value[i] == template(values[i]).value
  {
    if |values| > 0 {
      var n := |values| - 1;
      CleanedValuesAt(template, values[..n]);
      assert values == values[..n] + [values[n]];
    }
  }

  /** Cleaning stops at the first value the template rejects. */
  lemma CleanedValuesFails(template: Template, values: seq<string>, i: nat)
    requires i < |values| && template(values[i]).None?
    ensures CleanedValues(template, values).None?
  {
    CleanedValuesAt(template, values);
    assert values[i] in values;
  }

  /** There is no record exactly when no value changes. */
  lemma {:induction false} DiffsEmpty(noteID: int, fields: seq<NoteField>, after: seq<string>)
    requires |fields| == |after|
    ensures Diffs(noteID, fields, after) == [] <==> Values(fields) == after
  {
    if |fields| > 0 {
      var n := |fields| - 1;
      DiffsEmpty(noteID, fields[..n], after[..n]);
      assert Values(fields) == Values(fields[..n]) + [fields[n].value];
      assert after == after[..n] + [after[n]];
    }
  }

  /** The positions at which a value changes, in ascending order. */
  function ChangedAt(fields: seq<NoteField>, after: seq<string>): (r: seq<nat>)
    requires |fields| == |after|
    ensures forall k | 0 <= k < |r| :: r[k] < |fields| && after[r[k]] != fields[r[k]].value
    ensures forall k, l | 0 <= k < l < |r| :: r[k] < r[l]
    ensures forall i | 0 <= i < |fields| && after[i] != fields[i].value :: i in r
  {
    if |fields| == 0 then []
    else
      var n := |fields| - 1;
      var front := ChangedAt(fields[..n], after[..n]);
      if after[n] == fields[n].value then front else front + [n]
  }

  /** The records, in order, are one for each changed field in field order, with the note, the
      field's name, the value it had and the value it gets. */
  lemma {:induction false} DiffsMeaning(noteID: int, fields: seq<NoteField>, after: seq<string>)
    requires |fields| == |after|
    ensures var at := ChangedAt(fields, after);
            && |Diffs(noteID, fields, after)| == |at|
            && forall k | 0 <= k < |at| ::
                 Diffs(noteID, fields, after)[k] ==
                 DiffRecord(noteID, fields[at[k]].name, fields[at[k]].value, after[at[k]])
  {
    if |fields| > 0 {
      var n := |fields| - 1;
      DiffsMeaning(noteID, fields[..n], after[..n]);
    }
  }

  /** Cleaning a note, field by field: it fails as reading does, or when the template rejects a
      value; it yields nothing when the template keeps every value; and otherwise every field
      with the template's value, and one record for each changed one. */
  lemma CleanNoteMeaning(rows: Rows, models: Models, template: Template, id: int)
    ensures ReadFields(rows, models, id).Err? ==>
              CleanNote(rows, models, template, id) == Err(ReadFields(rows, models, id).error)
    ensures ReadFields(rows, models, id).Ok? ==>
              var fields, r := ReadFields(rows, models, id).value, CleanNote(rows, models, template, id);
              if exists i :: 0 <= i < |fields| && template(fields[i].value).None? then r == Err(TemplateFailed)
              else
                && r.Ok?
                && var after := seq(|fields|, i requires 0 <= i < |fields| =>
                                                  if template(fields[i].value).Some?
                                                  then template(fields[i].value).value else "");
                && var at := ChangedAt(fields, after);
                && |r.value.records| == |at|
                && (forall k | 0 <= k < |at| ::
                      r.value.records[k] ==
                      DiffRecord(id, fields[at[k]].name, fields[at[k]].value, after[at[k]]))
                && |r.value.fields| == (if at == [] then 0 else |fields|)
                && forall i | 0 <= i < |r.value.fields| :: r.value.fields[i] == NoteField(fields[i].name, after[i])
  {
    if ReadFields(rows, models, id).Ok? {
      var fields := ReadFields(rows, models, id).value;
      CleanedValuesAt(template, Values(fields));
      if i :| 0 <= i < |fields| && template(fields[i].value).None? {
        CleanedValuesFails(template, Values(fields), i);
      } else {
        var after := seq(|fields|, i requires 0 <= i < |fields| =>
                                       if template(fields[i].value).Some?
                                       then template(fields[i].value).value else "");
        assert forall i | 0 <= i < |fields| :: Values(fields)[i] == fields[i].value;
        assert CleanedValues(template, Values(fields)).Some?;
        assert CleanedValues(template, Values(fields)).value == after;
        DiffsMeaning(id, fields, after);
      }
    }
  }

  /** One more field cleaned: how each accumulator of the field loop grows. */
  lemma CleaningStep(template: Template, noteID: int, fields: seq<NoteField>, after: seq<string>, i: nat, v: string)
    requires i < |fields| && |after| == i
    requires CleanedValues(template, Values(fields)[..i]) == Some(after)
    requires template(fields[i].value) == Some(v)
    ensures CleanedValues(template, Values(fields)[..i + 1]) == Some(after + [v])
    ensures WithValues(fields[..i + 1], after + [v]) == WithValues(fields[..i], after) + [NoteField(fields[i].name, v)]
    ensures Diffs(noteID, fields[..i + 1], after + [v]) ==
            Diffs(noteID, fields[..i], after) +
            if v == fields[i].value then [] else [DiffRecord(noteID, fields[i].name, fields[i].value, v)]
  {
    assert Values(fields)[..i + 1][..i] == Values(fields)[..i];
    assert fields[..i + 1][..i] == fields[..i];
    assert (after + [v])[..i] == after;
  }

  // ---------- writing ----------

  /** The row a successful update leaves behind. */
  function Rewritten(note: Note, fields: seq<NoteField>, now: int): Note {
    note.(flds := Join(Values(fields)), mod := now, usn := -1)
  }

  /** The checks updateNote makes before it writes. */
  function UpdateCheck(rows: Rows, models: Models, id: int, fields: seq<NoteField>): Option<NoteError> {
    if id !in rows then Some(NoteNotFound)
    else if rows[id].mid !in models then Some(ModelNotFound)
    else if |fields| != |models[rows[id].mid].fieldNames| then Some(FieldCount)
    else None
  }

  /** The table after an update whose checks pass. */
  function UpdatedRows(rows: Rows, models: Models, id: int, fields: seq<NoteField>, now: int): Rows
    requires UpdateCheck(rows, models, id, fields).None?
  {
    rows[id := Rewritten(rows[id], fields, now)]
  }

  /** The exact round trip: after an update that passed its checks, reading the note gives the
      written values in order exactly when they are storable, and the field-count error
      otherwise. */
  lemma UpdateThenRead(rows: Rows, models: Models, id: int, fields: seq<NoteField>, now: int)
    requires UpdateCheck(rows, models, id, fields).None?
    ensures var after := ReadFields(UpdatedRows(rows, models, id, fields, now), models, id);
            if Storable(Values(fields))
            then
              && after.Ok? && Values(after.value) == Values(fields)
              && Names(after.value) == models[rows[id].mid].fieldNames
            else after == Err(FieldCount)
  {
    SplitJoin(Values(fields));
    LabelledMeaning(Split(Join(Values(fields))), models[rows[id].mid]);
  }

  /** A single bad value is enough to lose the note: the model below has two fields, the
      update is accepted, and the next read fails. */
  lemma AcceptedUpdateCanBreakTheNote()
    ensures exists rows: Rows, models: Models, fields: seq<NoteField> ::
              && UpdateCheck(rows, models, 1, fields).None?
              && ReadFields(rows, models, 1).Ok?
              && ReadFields(UpdatedRows(rows, models, 1, fields, 0), models, 1) == Err(FieldCount)
  {
    var models: Models := map[7 := Model(7, ["Front", "Back"])];
    var good := ["q", "a"];
    var rows: Rows := map[1 := Note(1, "g", 7, Join(good), 0, 0)];
    var fields := [NoteField("Front", "q"), NoteField("Back", ['a', SEPARATOR, 'b'])];
    SplitJoin(good);
    assert ReadFields(rows, models, 1).Ok?;
    assert !Storable(Values(fields)) by {
      assert Values(fields)[1] in Values(fields) && SEPARATOR == Values(fields)[1][1];
    }
    UpdateThenRead(rows, models, 1, fields, 0);
  }

  /** What the environment does to one call. */
  datatype Faults = Faults(backup: BackupFault, storageFails: bool)

  /** How CreateBackup goes wrong, if it does: before the copy is complete, or after it, when
      the deferred Sync or Close fails. */
  datatype BackupFault = NoFault | CopyFault | CloseFault

  /** The collection as one session of the services sees it. */
  class Collection {
    var rows: Rows
    const models: Models
    /** Copies of the table completed by the backup store, and its per-path `done` flag. */
    var backups: seq<Rows>
    var backupDone: bool

    constructor (rows: Rows, models: Models)
      ensures this.rows == rows && this.models == models && backups == [] && !backupDone
    {
      this.rows := rows;
      this.models := models;
      backups := [];
      backupDone := false;
    }

    method GetNote(id: int) returns (r: Result<seq<NoteField>, NoteError>)
      ensures r == ReadFields(rows, models, id)
    {
      if id !in rows {
        return Err(NoteNotFound);
      }
      var note := rows[id];
      if note.mid !in models {
        return Err(ModelNotFound);
      }
      var values := Split(note.flds);
      var fields := MapFields(values, models[note.mid]);
      match fields {
        case Err(_) => return Err(FieldCount);
        case Ok(labelled) => return Ok(labelled);
      }
    }

    /** EnsureBackup as the session sees it: the first copy to complete is the only one, and a
        failing close is an error of this call although the copy completed. The files, and the
        cleanup that follows a copy, are in BackupStore. */
    method EnsureBackup(fault: BackupFault) returns (ok: bool)
      modifies this`backups, this`backupDone
      ensures ok == (old(backupDone) || fault.NoFault?)
      ensures backupDone == (old(backupDone) || !fault.CopyFault?)
      ensures backups == if old(backupDone) || fault.CopyFault? then old(backups) else old(backups) + [rows]
    {
      if backupDone {
        return true;
      }
      if fault.CopyFault? {
        return false;
      }
      backups := backups + [rows];
      backupDone := true;
      return fault.NoFault?;
    }

    /** updateNote: all checks, then the backup, then the write. */
    method UpdateNote(id: int, fields: seq<NoteField>, createBackup: bool, now: int, faults: Faults)
        returns (error: Option<NoteError>)
      modifies this
      ensures error ==
              var check := UpdateCheck(old(rows), models, id, fields);
              if check.Some? then check
              else if createBackup && !old(backupDone) && !faults.backup.NoFault? then Some(BackupFailed)
              else if faults.storageFails then Some(StorageFailed)
              else None
      ensures error == Some(NoteNotFound) <==> id !in old(rows)
      ensures error == Some(ModelNotFound) <==> id in old(rows) && old(rows)[id].mid !in models
      ensures error == Some(FieldCount) <==>
                id in old(rows) && old(rows)[id].mid in models &&
                |fields| != |models[old(rows)[id].mid].fieldNames|
      ensures error.None? ==>
                var was := old(rows)[id];
                rows == old(rows)[id := Note(was.id, was.guid, was.mid, Join(Values(fields)), now, -1)]
      ensures error.None? ==> rows == UpdatedRows(old(rows), models, id, fields, now)
      ensures error.Some? ==> rows == old(rows)
      ensures error.None? && createBackup ==> backupDone
      ensures backups == if createBackup && !old(backupDone) && backupDone then old(backups) + [old(rows)]
                         else old(backups)
      ensures backupDone == (old(backupDone) ||
                             (createBackup && !faults.backup.CopyFault? &&
                              UpdateCheck(old(rows), models, id, fields).None?))
    {
      if id !in rows {
        return Some(NoteNotFound);
      }
      var note := rows[id];
      if note.mid !in models {
        return Some(ModelNotFound);
      }
      var values := JoinFieldValues(fields);
      var mapped := MapFields(values, models[note.mid]);
      if mapped.Err? {
        return Some(FieldCount);
      }
      if createBackup {
        var ok := EnsureBackup(faults.backup);
        if !ok {
          return Some(BackupFailed);
        }
      }
      note := note.(flds := Join(values), mod := now, usn := -1);
      if faults.storageFails {
        return Some(StorageFailed);
      }
      rows := rows[id := note];
      return None;
    }

    method PreviewCleaner(id: int, template: Template) returns (r: Result<seq<DiffRecord>, NoteError>)
      ensures r.Ok? <==> CleanNote(rows, models, template, id).Ok?
      ensures r.Ok? ==> r.value == CleanNote(rows, models, template, id).value.records
      ensures r.Err? ==> r.error == CleanNote(rows, models, template, id).error
    {
      var read := GetNote(id);
      if read.Err? {
        return Err(read.error);
      }
      var fields := read.value;
      var records: seq<DiffRecord> := [];
      ghost var after: seq<string> := [];
      for i := 0 to |fields|
        invariant |after| == i
        invariant CleanedValues(template, Values(fields)[..i]) == Some(after)
        invariant records == Diffs(id, fields[..i], after)
      {
        var cleaned := template(fields[i].value);
        if cleaned.None? {
          CleanedValuesFails(template, Values(fields), i);
          return Err(TemplateFailed);
        }
        if cleaned.value != fields[i].value {
          records := records + [DiffRecord(id, fields[i].name, fields[i].value, cleaned.value)];
        }
        CleaningStep(template, id, fields, after, i, cleaned.value);
        after := after + [cleaned.value];
      }
      assert Values(fields)[..|fields|] == Values(fields) && fields[..|fields|] == fields;
      return Ok(records);
    }

    /** The body of a worker: read one note and clean its fields. */
    method TransformNote(id: int, template: Template) returns (r: Result<Cleaned, NoteError>)
      requires WellFormed(rows)
      ensures r == CleanNote(rows, models, template, id)
    {
      var read := GetNote(id);
      if read.Err? {
        return Err(read.error);
      }
      var fields := read.value;
      var changed := false;
      var nextFields: seq<NoteField> := [];
      var diffs: seq<DiffRecord> := [];
      ghost var after: seq<string> := [];
      for i := 0 to |fields|
        invariant |after| == i
        invariant CleanedValues(template, Values(fields)[..i]) == Some(after)
        invariant nextFields == WithValues(fields[..i], after)
        invariant diffs == Diffs(id, fields[..i], after)
        invariant changed <==> diffs != []
      {
        var cleaned := template(fields[i].value);
        if cleaned.None? {
          CleanedValuesFails(template, Values(fields), i);
          return Err(TemplateFailed);
        }
        nextFields := nextFields + [NoteField(fields[i].name, cleaned.value)];
        if cleaned.value != fields[i].value {
          changed := true;
          diffs := diffs + [DiffRecord(rows[id].id, fields[i].name, fields[i].value, cleaned.value)];
        }
        CleaningStep(template, id, fields, after, i, cleaned.value);
        after := after + [cleaned.value];
      }
      assert Values(fields)[..|fields|] == Values(fields) && fields[..|fields|] == fields;
      if !changed {
        return Ok(Cleaned([], []));
      }
      return Ok(Cleaned(nextFields, diffs));
    }
  }
}
