/**
 Runs of the server: the shared sequence counter, referential integrity, what a row keeps
 between two points of a run, and why re-delivering a batch has no effect.
 */
module History {
  import opened Results
  import opened Models
  import opened SyncSpec
  import opened Merge
  import opened Lex

  // ---- sequence discipline and references ----

  /** A row of one of the three tables that share the counter. */
  datatype RowRef = NoteRef(id: RowId) | ItemRef(id: RowId) | LabelRef(key: LabelKey)

  predicate Exists(t: Tables, r: RowRef) {
    match r
    case NoteRef(id) => id in t.notes
    case ItemRef(id) => id in t.items
    case LabelRef(key) => key in t.noteLabels
  }

  function SeqOf(t: Tables, r: RowRef): nat
    requires Exists(t, r)
  {
    match r
    case NoteRef(id) => t.notes[id].serverSeq
    case ItemRef(id) => t.items[id].serverSeq
    case LabelRef(key) => t.noteLabels[key].serverSeq
  }

  /** Sequence numbers never exceed the counter and are never shared, across all three tables. */
  ghost predicate SeqsDistinct(t: Tables) {
    && (forall r :: Exists(t, r) ==> 0 < SeqOf(t, r) <= t.counter)
    && (forall r, u :: Exists(t, r) && Exists(t, u) && SeqOf(t, r) == SeqOf(t, u) ==> r == u)
  }

  /** Items and attachments refer to existing notes and labels. */
  ghost predicate RefsIntact(t: Tables) {
    && (forall x :: x in t.items ==> t.items[x].noteId in t.notes)
    && (forall k :: k in t.noteLabels ==> k.noteId in t.notes && k.labelId in t.labels)
  }

  ghost predicate Consistent(t: Tables) {
    SeqsDistinct(t) && RefsIntact(t) && KindsKnown(t)
  }

  /** t' is t with row r written under the next sequence number. */
  ghost predicate WroteRow(t: Tables, t': Tables, r: RowRef) {
    && t'.counter == t.counter + 1 && t'.labels == t.labels
    && Exists(t', r) && SeqOf(t', r) == t'.counter
    && (forall u :: u != r ==> (Exists(t', u) <==> Exists(t, u)))
    && (forall id :: id in t.notes && NoteRef(id) != r ==> id in t'.notes && t'.notes[id] == t.notes[id])
    && (forall x :: x in t.items && ItemRef(x) != r ==> x in t'.items && t'.items[x] == t.items[x])
    && (forall k :: k in t.noteLabels && LabelRef(k) != r ==>
          k in t'.noteLabels && t'.noteLabels[k] == t.noteLabels[k])
    && (forall x :: x in t.items ==> x in t'.items && t'.items[x].noteId == t.items[x].noteId)
  }

  function RowOf(q: Reg): RowRef {
    match q
    case NoteReg(id, _) => NoteRef(id)
    case ItemReg(id, _) => ItemRef(id)
    case LabelReg(key) => LabelRef(key)
  }

  /** A mutation takes effect if no stamp at least as new is stored for its register. */
  predicate Effective(t: Tables, m: Mutation) {
    WellAddressed(m) && !Covers(ClockOf(t, RegOf(m)), m.hlc)
  }

  lemma NoteWritesOneRow(t: Tables, id: RowId, data: NoteData, clocks: map<Field, string>)
    ensures WroteRow(t, PutNote(t, id, data, clocks), NoteRef(id))
  {
  }

  lemma ItemWritesOneRow(t: Tables, id: RowId, noteId: RowId, data: ItemData, clocks: map<Field, string>)
    requires id in t.items ==> noteId == t.items[id].noteId
    ensures WroteRow(t, PutItem(t, id, noteId, data, clocks), ItemRef(id))
  {
  }

  lemma LabelWritesOneRow(t: Tables, key: LabelKey, attached: bool, hlc: string)
    ensures WroteRow(t, PutLabel(t, key, attached, hlc), LabelRef(key))
  {
  }

  lemma ApplyOneWritesOneRow(t: Tables, m: Mutation)
    requires ApplyOne(t, m).Ok?
    ensures WellAddressed(m)
    ensures var t' := ApplyOne(t, m).value;
            if Effective(t, m) then WroteRow(t, t', RowOf(RegOf(m))) else t' == t
  {
    ApplyOneIsRegisterWrite(t, m);
    var t' := ApplyOne(t, m).value;
    if Effective(t, m) {
      match RegOf(m) {
        case NoteReg(id, _) =>
          var row := t'.notes[id];
          assert t' == PutNote(t, id, row.data, row.clocks);
          NoteWritesOneRow(t, id, row.data, row.clocks);
        case ItemReg(id, _) =>
          var row := t'.items[id];
          assert t' == PutItem(t, id, row.noteId, row.data, row.clocks);
          ItemWritesOneRow(t, id, row.noteId, row.data, row.clocks);
        case LabelReg(key) =>
          var row := t'.noteLabels[key];
          assert t' == PutLabel(t, key, row.attached, row.hlc);
          LabelWritesOneRow(t, key, row.attached, row.hlc);
      }
    }
  }

  lemma WriteKeepsSeqs(t: Tables, t': Tables, r: RowRef)
    requires SeqsDistinct(t) && WroteRow(t, t', r)
    ensures SeqsDistinct(t')
  {
    forall u | Exists(t', u) && u != r
      ensures Exists(t, u) && SeqOf(t', u) == SeqOf(t, u)
    {
    }
  }

  lemma ApplyOneKeepsRefs(t: Tables, m: Mutation)
    requires RefsIntact(t) && ApplyOne(t, m).Ok?
    ensures RefsIntact(ApplyOne(t, m).value)
  {
  }

  lemma {:induction false} LogKeepsConsistent(t: Tables, log: seq<Mutation>)
    requires Consistent(t) && ApplyLog(t, log).Ok?
    ensures Consistent(ApplyLog(t, log).value)
  {
    if log != [] {
      var n := |log| - 1;
      var before := ApplyLog(t, log[..n]).value;
      LogKeepsConsistent(t, log[..n]);
      ApplyOneWritesOneRow(before, log[n]);
      if Effective(before, log[n]) {
        WriteKeepsSeqs(before, ApplyLog(t, log).value, RowOf(RegOf(log[n])));
      }
      ApplyOneKeepsRefs(before, log[n]);
      ApplyOneKeepsKinds(before, log[n]);
    }
  }

  /** Removing rows keeps the survivors' sequence numbers distinct. */
  lemma RemovalKeepsSeqs(t: Tables, t': Tables)
    requires SeqsDistinct(t) && t'.counter == t.counter
    requires forall r :: Exists(t', r) ==> Exists(t, r) && SeqOf(t', r) == SeqOf(t, r)
    ensures SeqsDistinct(t')
  {
  }

  lemma RecordingKeepsConsistent(t: Tables, id: RowId, title: string, position: string)
    requires Consistent(t) && id !in t.notes
    ensures Consistent(Take(t, RecordAudio(id, title, position)))
  {
    var t' := Take(t, RecordAudio(id, title, position));
    var row := t'.notes[id];
    NoteWritesOneRow(t, id, row.data, row.clocks);
    WriteKeepsSeqs(t, t', NoteRef(id));
  }

  /** Every step of the server keeps sequence numbers distinct and below the counter, and references intact. */
  lemma StepKeepsConsistent(t: Tables, step: Step)
    requires Consistent(t)
    ensures Consistent(Take(t, step))
  {
    match step {
      case Push(batch) =>
        if ApplyLog(t, batch).Ok? {
          LogKeepsConsistent(t, batch);
        }
      case RecordAudio(id, title, position) =>
        if id !in t.notes {
          RecordingKeepsConsistent(t, id, title, position);
        }
      case AddLabel(_) =>
        RemovalKeepsSeqs(t, Take(t, step));
      case PurgeNote(_) =>
        RemovalKeepsSeqs(t, Take(t, step));
      case SweepTrash(_) =>
        RemovalKeepsSeqs(t, Take(t, step));
      case RemoveLabel(_) =>
        RemovalKeepsSeqs(t, Take(t, step));
    }
  }

  lemma {:induction false} ReachableConsistent(steps: seq<Step>)
    ensures Consistent(TakeAll(EmptyTables(), steps))
  {
    if steps != [] {
      ReachableConsistent(steps[..|steps| - 1]);
      StepKeepsConsistent(TakeAll(EmptyTables(), steps[..|steps| - 1]), steps[|steps| - 1]);
    }
  }

  /** The number of mutations of an accepted log that took effect. */
  function Effects(t: Tables, log: seq<Mutation>): nat
    requires ApplyLog(t, log).Ok?
  {
    if log == [] then 0
    else
      var n := |log| - 1;
      Effects(t, log[..n]) + (if Effective(ApplyLog(t, log[..n]).value, log[n]) then 1 else 0)
  }

  /** The counter counts effective writes. */
  lemma {:induction false} CounterCountsEffects(t: Tables, log: seq<Mutation>)
    requires ApplyLog(t, log).Ok?
    ensures ApplyLog(t, log).value.counter == t.counter + Effects(t, log)
    ensures Effects(t, log) == 0 ==> ApplyLog(t, log).value == t
  {
    if log != [] {
      var n := |log| - 1;
      CounterCountsEffects(t, log[..n]);
      ApplyOneWritesOneRow(ApplyLog(t, log[..n]).value, log[n]);
    }
  }

  // ---- what a row keeps between two points of a run ----

  /**
   t' is a later state than t with no removals in between: rows stay, an item stays with its
   note, and a row whose sequence number is not beyond t's counter is untouched.
   */
  ghost predicate Evolves(t: Tables, t': Tables) {
    && t.counter <= t'.counter
    && (forall id :: id in t.notes ==> id in t'.notes)
    && (forall x :: x in t.items ==> x in t'.items && t'.items[x].noteId == t.items[x].noteId)
    && (forall k :: k in t.noteLabels ==> k in t'.noteLabels)
    && (forall id :: id in t'.notes && t'.notes[id].serverSeq <= t.counter ==>
          id in t.notes && t'.notes[id] == t.notes[id])
    && (forall x :: x in t'.items && t'.items[x].serverSeq <= t.counter ==>
          x in t.items && t'.items[x] == t.items[x])
    && (forall k :: k in t'.noteLabels && t'.noteLabels[k].serverSeq <= t.counter ==>
          k in t.noteLabels && t'.noteLabels[k] == t.noteLabels[k])
  }

  lemma EvolvesReflexive(t: Tables)
    ensures Evolves(t, t)
  {
  }

  lemma EvolvesTransitive(t: Tables, u: Tables, w: Tables)
    requires Evolves(t, u) && Evolves(u, w)
    ensures Evolves(t, w)
  {
  }

  lemma WriteEvolves(t: Tables, t': Tables, r: RowRef)
    requires WroteRow(t, t', r)
    ensures Evolves(t, t')
  {
    forall id ensures id in t'.notes <==> id in t.notes || r == NoteRef(id) {
      assert Exists(t', NoteRef(id)) <==> id in t'.notes;
      assert Exists(t, NoteRef(id)) <==> id in t.notes;
    }
    forall x ensures x in t'.items <==> x in t.items || r == ItemRef(x) {
      assert Exists(t', ItemRef(x)) <==> x in t'.items;
      assert Exists(t, ItemRef(x)) <==> x in t.items;
    }
    forall k ensures k in t'.noteLabels <==> k in t.noteLabels || r == LabelRef(k) {
      assert Exists(t', LabelRef(k)) <==> k in t'.noteLabels;
      assert Exists(t, LabelRef(k)) <==> k in t.noteLabels;
    }
  }

  lemma {:induction false} LogEvolves(t: Tables, log: seq<Mutation>)
    requires ApplyLog(t, log).Ok?
    ensures Evolves(t, ApplyLog(t, log).value)
  {
    if log != [] {
      var n := |log| - 1;
      var before := ApplyLog(t, log[..n]).value;
      LogEvolves(t, log[..n]);
      ApplyOneWritesOneRow(before, log[n]);
      if Effective(before, log[n]) {
        WriteEvolves(before, ApplyLog(t, log).value, RowOf(RegOf(log[n])));
        EvolvesTransitive(t, before, ApplyLog(t, log).value);
      }
    }
  }

  lemma StepEvolves(t: Tables, step: Step)
    requires Growing(step)
    ensures Evolves(t, Take(t, step))
  {
    match step {
      case Push(batch) =>
        if ApplyLog(t, batch).Ok? {
          LogEvolves(t, batch);
        }
      case RecordAudio(id, title, position) =>
        if id !in t.notes {
          var row := Take(t, step).notes[id];
          NoteWritesOneRow(t, id, row.data, row.clocks);
          WriteEvolves(t, Take(t, step), NoteRef(id));
        }
      case AddLabel(_) =>
    }
  }

  /** Between any two points of a run without removals. */
  lemma {:induction false} RunEvolves(t: Tables, steps: seq<Step>)
    requires forall i :: 0 <= i < |steps| ==> Growing(steps[i])
    ensures Evolves(t, TakeAll(t, steps))
  {
    if steps != [] {
      var n := |steps| - 1;
      RunEvolves(t, steps[..n]);
      StepEvolves(TakeAll(t, steps[..n]), steps[n]);
      EvolvesTransitive(t, TakeAll(t, steps[..n]), TakeAll(t, steps));
    }
  }

  predicate Addresses(m: Mutation, r: RowRef) {
    WellAddressed(m) && RowOf(RegOf(m)) == r
  }

  /** Row r was written after the counter stood at since. */
  predicate WrittenSince(t: Tables, since: nat, r: RowRef) {
    Exists(t, r) && SeqOf(t, r) > since
  }

  /** A clock that moved belongs to a row written since. */
  lemma ClockMoved(t: Tables, t': Tables, m: Mutation)
    requires Evolves(t, t') && Effective(t, m) && !Effective(t', m)
    ensures WrittenSince(t', t.counter, RowOf(RegOf(m)))
  {
  }

  lemma WrittenStays(t: Tables, t': Tables, since: nat, r: RowRef)
    requires Evolves(t, t') && since <= t.counter && WrittenSince(t, since, r)
    ensures WrittenSince(t', since, r)
  {
  }

  // ---- re-delivery ----

  /** Rows persist and stored stamps only grow. */
  ghost predicate ClocksGrow(t: Tables, t': Tables) {
    && (forall q :: RowExists(t, q) ==> RowExists(t', q))
    && (forall q, s: string :: Covers(ClockOf(t, q), s) ==> Covers(ClockOf(t', q), s))
  }

  lemma ApplyOneGrowsClocks(t: Tables, m: Mutation)
    requires ApplyOne(t, m).Ok?
    ensures ClocksGrow(t, ApplyOne(t, m).value)
  {
    var t' := ApplyOne(t, m).value;
    ApplyOneIsRegisterWrite(t, m);
    forall q, s: string | Covers(ClockOf(t, q), s) ensures Covers(ClockOf(t', q), s) {
      if Effective(t, m) && q == RegOf(m) && Less(m.hlc, s) {
        LessTransitive(ClockOf(t, q).value, m.hlc, s);
      }
    }
  }

  lemma {:induction false} LogGrowsClocks(t: Tables, log: seq<Mutation>)
    requires ApplyLog(t, log).Ok?
    ensures ClocksGrow(t, ApplyLog(t, log).value)
  {
    if log != [] {
      var n := |log| - 1;
      LogGrowsClocks(t, log[..n]);
      ApplyOneGrowsClocks(ApplyLog(t, log[..n]).value, log[n]);
    }
  }

  lemma StepGrowsClocks(t: Tables, step: Step)
    requires Growing(step)
    ensures ClocksGrow(t, Take(t, step))
  {
    match step {
      case Push(batch) =>
        if ApplyLog(t, batch).Ok? {
          LogGrowsClocks(t, batch);
        }
      case RecordAudio(id, title, position) =>
      case AddLabel(_) =>
    }
  }

  lemma {:induction false} RunGrowsClocks(t: Tables, steps: seq<Step>)
    requires forall i :: 0 <= i < |steps| ==> Growing(steps[i])
    ensures ClocksGrow(t, TakeAll(t, steps))
  {
    if steps != [] {
      var n := |steps| - 1;
      RunGrowsClocks(t, steps[..n]);
      StepGrowsClocks(TakeAll(t, steps[..n]), steps[n]);
    }
  }

  /** The checks on a mutation that do not depend on the tables. */
  predicate Passes(m: Mutation) {
    && WellAddressed(m)
    && (m.entity.NoteEntity? && m.field.Kind? ==> DecodeText(m.value).Ok? && DecodeText(m.value).value != "audio")
    && (m.entity.NoteLabelEntity? ==> DecodeFlag(m.value).Ok?)
  }

  /** m has been delivered: its row exists and a stamp at least as new is stored. */
  predicate Delivered(t: Tables, m: Mutation) {
    Passes(m) && RowExists(t, RegOf(m)) && Covers(ClockOf(t, RegOf(m)), m.hlc)
  }

  /**
   Which mutations the server accepts, exactly and for every input: those that pass the fixed checks
   and have been delivered before, or carry a payload the column can store and refer to what is there.
   */
  lemma AcceptedExact(t: Tables, m: Mutation)
    requires KindsKnown(t)
    ensures ApplyOne(t, m).Ok? <==> Passes(m) && (Delivered(t, m) || (Storable(m) && Admissible(t, [], m)))
  {
    if Passes(m) && ClockOf(t, RegOf(m)).Some? {
      CompareSign(m.hlc, ClockOf(t, RegOf(m)).value);
    }
  }

  lemma AcceptedIsDelivered(t: Tables, m: Mutation)
    requires ApplyOne(t, m).Ok?
    ensures Delivered(ApplyOne(t, m).value, m)
  {
    ApplyOneIsRegisterWrite(t, m);
    LessIrreflexive(m.hlc);
  }

  lemma DeliveredIsNoOp(t: Tables, m: Mutation)
    requires Delivered(t, m)
    ensures ApplyOne(t, m) == Ok(t)
  {
    CompareSign(m.hlc, ClockOf(t, RegOf(m)).value);
  }

  lemma DeliveredStays(t: Tables, t': Tables, m: Mutation)
    requires Delivered(t, m) && ClocksGrow(t, t')
    ensures Delivered(t', m)
  {
  }

  lemma {:induction false} LogDelivers(t: Tables, log: seq<Mutation>, m: Mutation)
    requires ApplyLog(t, log).Ok? && m in log
    ensures Delivered(ApplyLog(t, log).value, m)
  {
    var n := |log| - 1;
    var before := ApplyLog(t, log[..n]).value;
    if log[n] == m {
      AcceptedIsDelivered(before, m);
    } else {
      LogDelivers(t, log[..n], m);
      ApplyOneGrowsClocks(before, log[n]);
      DeliveredStays(before, ApplyLog(t, log).value, m);
    }
  }

  lemma {:induction false} RedeliveredBatch(t: Tables, batch: seq<Mutation>)
    requires forall m :: m in batch ==> Delivered(t, m)
    ensures ApplyLog(t, batch) == Ok(t)
  {
    if batch != [] {
      RedeliveredBatch(t, batch[..|batch| - 1]);
      DeliveredIsNoOp(t, batch[|batch| - 1]);
    }
  }

  /**
   Re-delivery, exactly: whatever happened before, a batch is accepted and changes nothing if
   and only if each of its mutations has been delivered to the rows as they are.
   */
  lemma RedeliveryExact(t: Tables, again: seq<Mutation>)
    ensures ApplyLog(t, again) == Ok(t) <==> forall m :: m in again ==> Delivered(t, m)
  {
    if ApplyLog(t, again) == Ok(t) {
      forall m | m in again ensures Delivered(t, m) {
        LogDelivers(t, again, m);
      }
    }
    if forall m :: m in again ==> Delivered(t, m) {
      RedeliveredBatch(t, again);
    }
  }

  /** Any step of the server leaves a row's stamps at least as new, unless it removes the row. */
  lemma StepGrowsClock(t: Tables, step: Step, q: Reg, s: string)
    requires Covers(ClockOf(t, q), s) && RowExists(Take(t, step), q)
    ensures Covers(ClockOf(Take(t, step), q), s)
  {
    if Growing(step) {
      StepGrowsClocks(t, step);
    }
  }

  /** The row of m is there in every state of the run. */
  ghost predicate RowSurvives(t: Tables, steps: seq<Step>, m: Mutation) {
    WellAddressed(m) && forall i :: 0 <= i <= |steps| ==> RowExists(TakeAll(t, steps[..i]), RegOf(m))
  }

  lemma {:induction false} DeliveredSurvives(t: Tables, steps: seq<Step>, m: Mutation)
    requires Delivered(t, m) && RowSurvives(t, steps, m)
    ensures Delivered(TakeAll(t, steps), m)
  {
    if steps != [] {
      var n := |steps| - 1;
      assert steps[..n + 1] == steps;
      assert forall i :: 0 <= i <= n ==> steps[..n][..i] == steps[..i];
      DeliveredSurvives(t, steps[..n], m);
      assert RowExists(TakeAll(t, steps[..n + 1]), RegOf(m));
      StepGrowsClock(TakeAll(t, steps[..n]), steps[n], RegOf(m), m.hlc);
    }
  }

  /**
   At-least-once delivery has one effect: a batch that committed once, cut and re-sent in any
   way after any further steps that leave its rows in place - purges, sweeps and label deletions
   of others included - is accepted and changes neither rows nor counter.
   */
  lemma RedeliveryIsNoOp(t: Tables, batch: seq<Mutation>, steps: seq<Step>, again: seq<Mutation>)
    requires ApplyLog(t, batch).Ok?
    requires forall m :: m in again ==> m in batch && RowSurvives(ApplyLog(t, batch).value, steps, m)
    ensures var later := TakeAll(ApplyLog(t, batch).value, steps);
            ApplyLog(later, again) == Ok(later)
  {
    var t1 := ApplyLog(t, batch).value;
    var later := TakeAll(t1, steps);
    forall m | m in again ensures Delivered(later, m) {
      LogDelivers(t, batch, m);
      DeliveredSurvives(t1, steps, m);
    }
    RedeliveryExact(later, again);
  }

  /** Without removals every row survives. */
  lemma {:induction false} GrowingRunsKeepRows(t: Tables, steps: seq<Step>, m: Mutation)
    requires WellAddressed(m) && RowExists(t, RegOf(m))
    requires forall i :: 0 <= i < |steps| ==> Growing(steps[i])
    ensures RowSurvives(t, steps, m)
  {
    forall i | 0 <= i <= |steps| ensures RowExists(TakeAll(t, steps[..i]), RegOf(m)) {
      RunGrowsClocks(t, steps[..i]);
    }
  }

  /** The guarantee ends where a row was removed: the re-sent edit is not swallowed. */
  lemma RedeliveryNeedsItsRows(t: Tables, again: seq<Mutation>, m: Mutation)
    requires m in again && WellAddressed(m) && !RowExists(t, RegOf(m))
    ensures ApplyLog(t, again) != Ok(t)
  {
    RedeliveryExact(t, again);
  }

  /** After a purge the re-sent edit creates the note anew. */
  lemma RedeliveryAfterPurge(t: Tables, m: Mutation)
    requires ApplyOne(t, m).Ok? && m.entity.NoteEntity? && Storable(m)
    ensures var later := Purge(ApplyOne(t, m).value, m.id.value);
            && m.id.value !in later.notes
            && ApplyLog(later, [m]) != Ok(later)
            && ApplyLog(later, [m]).Ok?
            && m.id.value in ApplyLog(later, [m]).value.notes
            && ApplyLog(later, [m]).value.counter == later.counter + 1
  {
    var later := Purge(ApplyOne(t, m).value, m.id.value);
    RedeliveryNeedsItsRows(later, [m], m);
    assert [m][..0] == [];
    assert ApplyLog(later, [m]) == ApplyOne(later, m);
  }

  // ---- what was acceptable stays acceptable ----

  /** t' has every row and label of t, and stamps at least as new. */
  ghost predicate Grown(t: Tables, t': Tables) {
    ClocksGrow(t, t') && t.labels <= t'.labels
  }

  lemma GrownNotes(t: Tables, t': Tables)
    requires Grown(t, t')
    ensures forall n :: n in t.notes ==> n in t'.notes
    ensures forall x :: x in t.items ==> x in t'.items
    ensures forall k :: k in t.noteLabels ==> k in t'.noteLabels
  {
    forall n | n in t.notes ensures n in t'.notes {
      assert RowExists(t, NoteReg(n, Title));
    }
    forall x | x in t.items ensures x in t'.items {
      assert RowExists(t, ItemReg(x, Text));
    }
    forall k | k in t.noteLabels ensures k in t'.noteLabels {
      assert RowExists(t, LabelReg(k));
    }
  }

  lemma KindOfAccepted(t: Tables, m: Mutation)
    requires m.entity.NoteEntity? && m.field.Kind? && ApplyOne(t, m).Ok? && !Delivered(t, m)
    ensures Decode(m.field, m.value).Ok? && KnownKind(Decode(m.field, m.value).value.text)
  {
    if m.id.value in t.notes && Kind in t.notes[m.id.value].clocks {
      CompareSign(m.hlc, t.notes[m.id.value].clocks[Kind]);
    }
  }

  /** An accepted mutation was delivered before, or its value decodes. */
  lemma DeliveredOrDecodes(t: Tables, m: Mutation)
    requires ApplyOne(t, m).Ok?
    ensures Delivered(t, m) || Decode(m.field, m.value).Ok?
  {
    ApplyOneIsRegisterWrite(t, m);
  }

  lemma NoteAcceptedLater(t: Tables, t': Tables, m: Mutation)
    requires Grown(t, t') && KindsKnown(t') && m.entity.NoteEntity? && ApplyOne(t, m).Ok?
    ensures ApplyOne(t', m).Ok?
  {
    GrownNotes(t, t');
    DeliveredOrDecodes(t, m);
    if Delivered(t, m) {
      DeliveredStays(t, t', m);
      DeliveredIsNoOp(t', m);
    } else if m.field.Kind? {
      KindOfAccepted(t, m);
    }
  }

  lemma ItemAcceptedLater(t: Tables, t': Tables, m: Mutation)
    requires Grown(t, t') && m.entity.ItemEntity? && ApplyOne(t, m).Ok?
    ensures ApplyOne(t', m).Ok?
  {
    GrownNotes(t, t');
    DeliveredOrDecodes(t, m);
    if Delivered(t, m) {
      DeliveredStays(t, t', m);
      DeliveredIsNoOp(t', m);
    }
  }

  lemma OneAcceptedLater(t: Tables, t': Tables, m: Mutation)
    requires Grown(t, t') && KindsKnown(t') && ApplyOne(t, m).Ok?
    ensures ApplyOne(t', m).Ok?
  {
    match m.entity {
      case NoteEntity => NoteAcceptedLater(t, t', m);
      case ItemEntity => ItemAcceptedLater(t, t', m);
      case NoteLabelEntity => GrownNotes(t, t');
    }
  }

  lemma LabelsUnchanged(t: Tables, m: Mutation)
    requires ApplyOne(t, m).Ok?
    ensures ApplyOne(t, m).value.labels == t.labels
  {
  }

  lemma StillGrown(t: Tables, t': Tables, m: Mutation)
    requires Grown(t, t') && ApplyOne(t, m).Ok? && ApplyOne(t', m).Ok?
    ensures Grown(ApplyOne(t, m).value, ApplyOne(t', m).value)
  {
    var u, u' := ApplyOne(t, m).value, ApplyOne(t', m).value;
    ApplyOneIsRegisterWrite(t, m);
    ApplyOneGrowsClocks(t', m);
    AcceptedIsDelivered(t', m);
    forall q | RowExists(u, q) ensures RowExists(u', q) {
      if !RowExists(t, q) {
        assert SameRow(q, RegOf(m));
      }
    }
    forall q, s: string | Covers(ClockOf(u, q), s) ensures Covers(ClockOf(u', q), s) {
      if !Covers(ClockOf(t, q), s) {
        CoversTransitive(ClockOf(u', q), m.hlc, s);
      }
    }
    LabelsUnchanged(t, m);
    LabelsUnchanged(t', m);
  }

  /** A batch the server would accept, it accepts in every state it may grow into. */
  lemma {:induction false} LogAcceptedLater(t: Tables, t': Tables, log: seq<Mutation>)
    requires Grown(t, t') && KindsKnown(t') && ApplyLog(t, log).Ok?
    ensures ApplyLog(t', log).Ok? && Grown(ApplyLog(t, log).value, ApplyLog(t', log).value)
    ensures KindsKnown(ApplyLog(t', log).value)
  {
    if log != [] {
      var n := |log| - 1;
      LogAcceptedLater(t, t', log[..n]);
      var u, u' := ApplyLog(t, log[..n]).value, ApplyLog(t', log[..n]).value;
      OneAcceptedLater(u, u', log[n]);
      StillGrown(u, u', log[n]);
      ApplyOneKeepsKinds(u', log[n]);
    }
  }

  // ---- which rows a batch will have written ----

  /** Seen from before the batch: r is above since already, or some mutation of the batch will write it. */
  ghost predicate WillBeAbove(s: Tables, batch: seq<Mutation>, since: nat, r: RowRef) {
    WrittenSince(s, since, r) || exists m :: m in batch && Addresses(m, r) && Effective(s, m)
  }

  /** A row beyond the old counter was written by a mutation that was effective at the start. */
  lemma {:induction false} NewRowsWereWritten(s: Tables, log: seq<Mutation>, r: RowRef)
    requires ApplyLog(s, log).Ok? && SeqsDistinct(s) && WrittenSince(ApplyLog(s, log).value, s.counter, r)
    ensures exists m :: m in log && Addresses(m, r) && Effective(s, m)
  {
    assert !WrittenSince(s, s.counter, r);
    if log != [] {
      var n := |log| - 1;
      var before := ApplyLog(s, log[..n]).value;
      ApplyOneWritesOneRow(before, log[n]);
      if Effective(before, log[n]) && RowOf(RegOf(log[n])) == r {
        LogGrowsClocks(s, log[..n]);
        assert Addresses(log[n], r) && Effective(s, log[n]);
      } else {
        NewRowsWereWritten(s, log[..n], r);
      }
    }
  }

  /** Which rows an accepted batch leaves above a cursor can be told before the call. */
  lemma WillBeAboveExact(s: Tables, batch: seq<Mutation>, since: nat, r: RowRef)
    requires Consistent(s) && ApplyLog(s, batch).Ok? && since <= s.counter
    ensures WrittenSince(ApplyLog(s, batch).value, since, r) <==> WillBeAbove(s, batch, since, r)
  {
    var t := ApplyLog(s, batch).value;
    LogEvolves(s, batch);
    if WrittenSince(s, since, r) {
      WrittenStays(s, t, since, r);
    } else if WrittenSince(t, since, r) {
      NewRowsWereWritten(s, batch, r);
    }
    if m :| m in batch && Addresses(m, r) && Effective(s, m) {
      LogDelivers(s, batch, m);
      ClockMoved(s, t, m);
    }
  }

  /** The note that the first mutation of an item names. */
  function FirstNamed(log: seq<Mutation>, x: RowId): Option<RowId> {
    if log == [] then None
    else
      var n := |log| - 1;
      var first := FirstNamed(log[..n], x);
      if first.Some? then first
      else if log[n].entity.ItemEntity? && log[n].id == Some(x) then log[n].noteId
      else None
  }

  /** Seen from before the batch: the note item x will belong to. */
  function NoteAfter(s: Tables, batch: seq<Mutation>, x: RowId): Option<RowId> {
    if x in s.items then Some(s.items[x].noteId) else FirstNamed(batch, x)
  }

  /** One accepted mutation gives an item its note, or leaves it. */
  lemma ItemNoteStep(t: Tables, m: Mutation, x: RowId)
    requires ApplyOne(t, m).Ok?
    ensures var t', names := ApplyOne(t, m).value, m.entity.ItemEntity? && m.id == Some(x);
            if x in t.items then x in t'.items && t'.items[x].noteId == t.items[x].noteId
            else if names then x in t'.items && m.noteId == Some(t'.items[x].noteId)
            else x !in t'.items
  {
  }

  lemma {:induction false} NoteAfterExact(s: Tables, log: seq<Mutation>, x: RowId)
    requires ApplyLog(s, log).Ok?
    ensures x in ApplyLog(s, log).value.items ==> NoteAfter(s, log, x) == Some(ApplyLog(s, log).value.items[x].noteId)
    ensures x !in ApplyLog(s, log).value.items ==> NoteAfter(s, log, x) == None
  {
    if log != [] {
      var n := |log| - 1;
      NoteAfterExact(s, log[..n], x);
      ItemNoteStep(ApplyLog(s, log[..n]).value, log[n], x);
    }
  }
}
