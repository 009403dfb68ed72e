/**
 What the sync engine (server/internal/syncsvc/syncsvc.go) does to the tables, as a function:
 one mutation, a batch, a run of batches, and the creation of an audio note.
 */
module SyncSpec {
  import opened Results
  import opened Models
  import Lex
  import FracIndex

  /** A freshly created note, before its first field is applied. */
  function DefaultNote(): NoteData {
    NoteData("text", "", "", "default", false, false, None, FracIndex.Between("", ""), "")
  }

  function DefaultItem(): ItemData {
    ItemData("", false, false, FracIndex.Between("", ""))
  }

  /** The CHECK constraint on notes.kind. */
  predicate KnownKind(kind: string) {
    kind == "text" || kind == "checklist" || kind == "audio"
  }

  /** A stamp that is not newer than the one stored for the field is discarded. */
  predicate Stale(clocks: map<Field, string>, f: Field, hlc: string) {
    f in clocks && Lex.Compare(hlc, clocks[f]) <= 0
  }

  function PutNote(t: Tables, id: RowId, data: NoteData, clocks: map<Field, string>): Tables {
    t.(notes := t.notes[id := NoteRow(data, clocks, t.counter + 1)], counter := t.counter + 1)
  }

  function PutItem(t: Tables, id: RowId, noteId: RowId, data: ItemData, clocks: map<Field, string>): Tables {
    t.(items := t.items[id := ItemRow(noteId, data, clocks, t.counter + 1)], counter := t.counter + 1)
  }

  function PutLabel(t: Tables, key: LabelKey, attached: bool, hlc: string): Tables {
    t.(noteLabels := t.noteLabels[key := LabelRow(attached, hlc, t.counter + 1)], counter := t.counter + 1)
  }

  function InsertNote(t: Tables, m: Mutation, id: RowId): Result<Tables, Error>
    requires IsNoteField(m.field)
  {
    var v :- Decode(m.field, m.value);
    var data := SetNote(DefaultNote(), m.field, v);
    if !KnownKind(data.kind) then Err(ConstraintFailed)
    else Ok(PutNote(t, id, data, map[m.field := m.hlc]))
  }

  function UpdateNote(t: Tables, m: Mutation, id: RowId): Result<Tables, Error>
    requires IsNoteField(m.field) && id in t.notes
  {
    var row := t.notes[id];
    if Stale(row.clocks, m.field, m.hlc) then Ok(t)
    else
      var v :- Decode(m.field, m.value);
      var data := SetNote(row.data, m.field, v);
      if !KnownKind(data.kind) then Err(ConstraintFailed)
      else Ok(PutNote(t, id, data, row.clocks[m.field := m.hlc]))
  }

  /** Notes: the first mutation of an unknown id creates the row. */
  function ApplyNote(t: Tables, m: Mutation): Result<Tables, Error> {
    if !IsNoteField(m.field) then Err(BadField)
    else if m.id.None? then Err(MissingId)
    else if m.field.Kind? && DecodeText(m.value).Err? then Err(BadValue)
    else if m.field.Kind? && DecodeText(m.value).value == "audio" then Err(AudioKind)
    else if m.id.value !in t.notes then InsertNote(t, m, m.id.value)
    else UpdateNote(t, m, m.id.value)
  }

  function InsertItem(t: Tables, m: Mutation, id: RowId): Result<Tables, Error>
    requires IsItemField(m.field)
  {
    if m.noteId.None? then Err(MissingId)
    else
      var v :- Decode(m.field, m.value);
      if m.noteId.value !in t.notes then Err(ConstraintFailed)
      else Ok(PutItem(t, id, m.noteId.value, SetItem(DefaultItem(), m.field, v), map[m.field := m.hlc]))
  }

  function UpdateItem(t: Tables, m: Mutation, id: RowId): Result<Tables, Error>
    requires IsItemField(m.field) && id in t.items
  {
    var row := t.items[id];
    if Stale(row.clocks, m.field, m.hlc) then Ok(t)
    else
      var v :- Decode(m.field, m.value);
      Ok(PutItem(t, id, row.noteId, SetItem(row.data, m.field, v), row.clocks[m.field := m.hlc]))
  }

  /** Items: creation needs the id of an existing note. */
  function ApplyItem(t: Tables, m: Mutation): Result<Tables, Error> {
    if !IsItemField(m.field) then Err(BadField)
    else if m.id.None? then Err(MissingId)
    else if m.id.value !in t.items then InsertItem(t, m, m.id.value)
    else UpdateItem(t, m, m.id.value)
  }

  /** Label attachments: one stamp per (note, label) pair. */
  function ApplyNoteLabel(t: Tables, m: Mutation): Result<Tables, Error> {
    if !m.field.Attached? then Err(BadField)
    else if m.noteId.None? || m.labelId.None? then Err(MissingId)
    else
      var attached :- DecodeFlag(m.value);
      var key := LabelKey(m.noteId.value, m.labelId.value);
      if key !in t.noteLabels then
        if key.noteId !in t.notes || key.labelId !in t.labels then Err(ConstraintFailed)
        else Ok(PutLabel(t, key, attached, m.hlc))
      else if Lex.Compare(m.hlc, t.noteLabels[key].hlc) <= 0 then Ok(t)
      else Ok(PutLabel(t, key, attached, m.hlc))
  }

  function ApplyOne(t: Tables, m: Mutation): Result<Tables, Error> {
    match m.entity
    case NoteEntity => ApplyNote(t, m)
    case ItemEntity => ApplyItem(t, m)
    case NoteLabelEntity => ApplyNoteLabel(t, m)
    case UnknownEntity => Err(BadEntity)
  }

  /** Mutations one after another, stopping at the first error. */
  function ApplyLog(t: Tables, log: seq<Mutation>): Result<Tables, Error> {
    if log == [] then Ok(t)
    else
      var before :- ApplyLog(t, log[..|log| - 1]);
      ApplyOne(before, log[|log| - 1])
  }

  /** A batch is all or nothing. */
  function ApplyBatch(t: Tables, batch: seq<Mutation>): Tables {
    var r := ApplyLog(t, batch);
    if r.Ok? then r.value else t
  }

  function ApplyBatches(t: Tables, batches: seq<seq<Mutation>>): Tables {
    if batches == [] then t
    else ApplyBatch(ApplyBatches(t, batches[..|batches| - 1]), batches[|batches| - 1])
  }

  /** The mutations of the batches that were accepted, in the order of acceptance. */
  function Accepted(t: Tables, batches: seq<seq<Mutation>>): seq<Mutation> {
    if batches == [] then []
    else
      var n := |batches| - 1;
      Accepted(t, batches[..n])
      + (if ApplyLog(ApplyBatches(t, batches[..n]), batches[n]).Ok? then batches[n] else [])
  }

  /** An audio note is one insert without field clocks; a taken id violates the primary key. */
  function CreateAudio(t: Tables, id: RowId, title: string, position: string): Result<Tables, Error> {
    if id in t.notes then Err(ConstraintFailed)
    else Ok(PutNote(t, id, NoteData("audio", title, "", "default", false, false, None, position, ""), map[]))
  }

  // ---- the other steps of the server ----

  /** Deleting a note takes its items and label attachments along; the counter does not move. */
  function Purge(t: Tables, id: RowId): Tables {
    t.(notes := t.notes - {id},
       items := map x | x in t.items && t.items[x].noteId != id :: t.items[x],
       noteLabels := map k | k in t.noteLabels && k.noteId != id :: t.noteLabels[k])
  }

  const RETENTION_MS: int := 7 * 24 * 60 * 60 * 1000

  predicate Expired(row: NoteRow, now: int) {
    row.data.trashedAt.Some? && row.data.trashedAt.value < now - RETENTION_MS
  }

  /** The sweep purges every note trashed more than seven days before now. */
  function Sweep(t: Tables, now: int): Tables {
    t.(notes := map id | id in t.notes && !Expired(t.notes[id], now) :: t.notes[id],
       items := map x | x in t.items && !(t.items[x].noteId in t.notes && Expired(t.notes[t.items[x].noteId], now))
                  :: t.items[x],
       noteLabels := map k | k in t.noteLabels && !(k.noteId in t.notes && Expired(t.notes[k.noteId], now))
                       :: t.noteLabels[k])
  }

  /** Deleting a label strips it from every note. */
  function DropLabel(t: Tables, labelId: RowId): Tables {
    t.(noteLabels := map k | k in t.noteLabels && k.labelId != labelId :: t.noteLabels[k], labels := t.labels - {labelId})
  }

  datatype Step =
    | Push(batch: seq<Mutation>)
    | RecordAudio(id: RowId, title: string, position: string)
    | AddLabel(labelId: RowId)
    | PurgeNote(id: RowId)
    | SweepTrash(now: int)
    | RemoveLabel(labelId: RowId)

  /** A step that removes no rows. */
  predicate Growing(step: Step) {
    step.Push? || step.RecordAudio? || step.AddLabel?
  }

  function Take(t: Tables, step: Step): Tables {
    match step
    case Push(batch) => ApplyBatch(t, batch)
    case RecordAudio(id, title, position) =>
      var r := CreateAudio(t, id, title, position);
      if r.Ok? then r.value else t
    case AddLabel(labelId) => t.(labels := t.labels + {labelId})
    case PurgeNote(id) => Purge(t, id)
    case SweepTrash(now) => Sweep(t, now)
    case RemoveLabel(labelId) => if labelId in t.labels then DropLabel(t, labelId) else t
  }

  function TakeAll(t: Tables, steps: seq<Step>): Tables {
    if steps == [] then t else Take(TakeAll(t, steps[..|steps| - 1]), steps[|steps| - 1])
  }

  /** The database after the migrations. */
  function EmptyTables(): Tables {
    Tables(map[], map[], map[], {}, 0)
  }

  lemma {:induction false} ApplyLogAppend(t: Tables, a: seq<Mutation>, b: seq<Mutation>)
    ensures ApplyLog(t, a + b) == if ApplyLog(t, a).Ok? then ApplyLog(ApplyLog(t, a).value, b) else ApplyLog(t, a)
  {
    if b == [] {
      assert a + b == a;
    } else {
      var n := |b| - 1;
      ApplyLogAppend(t, a, b[..n]);
      assert (a + b)[..|a + b| - 1] == a + b[..n];
      assert (a + b)[|a + b| - 1] == b[n];
    }
  }

  /** A run is its steps, one after another. */
  lemma {:induction false} RunAppend(t: Tables, a: seq<Step>, b: seq<Step>)
    ensures TakeAll(t, a + b) == TakeAll(TakeAll(t, a), b)
    ensures |b| == 1 ==> TakeAll(t, a + b) == Take(TakeAll(t, a), b[0])
  {
    if b == [] {
      assert a + b == a;
    } else {
      var n := |b| - 1;
      RunAppend(t, a, b[..n]);
      assert (a + b)[..|a + b| - 1] == a + b[..n];
      assert (a + b)[|a + b| - 1] == b[n];
    }
  }

  /** Batching is invisible: a run of batches is the log of the accepted mutations. */
  lemma {:induction false} BatchesAreALog(t: Tables, batches: seq<seq<Mutation>>)
    ensures ApplyLog(t, Accepted(t, batches)) == Ok(ApplyBatches(t, batches))
  {
    if batches != [] {
      var n := |batches| - 1;
      BatchesAreALog(t, batches[..n]);
      ApplyLogAppend(t, Accepted(t, batches[..n]), batches[n]);
      assert Accepted(t, batches[..n]) + [] == Accepted(t, batches[..n]);
    }
  }

  /** A run of batches is a run of the server, and it takes or leaves each batch whole. */
  lemma {:induction false} BatchesAreSteps(t: Tables, batches: seq<seq<Mutation>>, steps: seq<Step>)
    requires |steps| == |batches| && forall i :: 0 <= i < |batches| ==> steps[i] == Push(batches[i])
    ensures ApplyBatches(t, batches) == TakeAll(t, steps)
    ensures batches != [] ==>
              var n := |batches| - 1;
              var r := ApplyLog(ApplyBatches(t, batches[..n]), batches[n]);
              ApplyBatches(t, batches) == if r.Ok? then r.value else ApplyBatches(t, batches[..n])
  {
    if batches != [] {
      var n := |batches| - 1;
      BatchesAreSteps(t, batches[..n], steps[..n]);
    }
  }
}
