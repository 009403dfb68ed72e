/**
 Field-level merge: the sync engine seen as one last-writer-wins register per row and field.
 After any accepted log a register holds the value with the greatest stamp, so the result does
 not depend on order, batching or duplication.
 */
module Merge {
  import opened Results
  import opened Models
  import opened SyncSpec
  import opened Lex

  /** A register: one field of one row. */
  datatype Reg = NoteReg(id: RowId, f: Field) | ItemReg(id: RowId, f: Field) | LabelReg(key: LabelKey)

  /** The addressing checks every handler makes before it looks at the tables. */
  predicate WellAddressed(m: Mutation) {
    match m.entity
    case NoteEntity => IsNoteField(m.field) && m.id.Some?
    case ItemEntity => IsItemField(m.field) && m.id.Some?
    case NoteLabelEntity => m.field.Attached? && m.noteId.Some? && m.labelId.Some?
    case UnknownEntity => false
  }

  function RegOf(m: Mutation): Reg
    requires WellAddressed(m)
  {
    match m.entity
    case NoteEntity => NoteReg(m.id.value, m.field)
    case ItemEntity => ItemReg(m.id.value, m.field)
    case NoteLabelEntity => LabelReg(LabelKey(m.noteId.value, m.labelId.value))
  }

  predicate Targets(m: Mutation, q: Reg) {
    WellAddressed(m) && RegOf(m) == q
  }

  predicate RowExists(t: Tables, q: Reg) {
    match q
    case NoteReg(id, _) => id in t.notes
    case ItemReg(id, _) => id in t.items
    case LabelReg(key) => key in t.noteLabels
  }

  predicate SameRow(q: Reg, r: Reg) {
    match q
    case NoteReg(id, _) => r.NoteReg? && r.id == id
    case ItemReg(id, _) => r.ItemReg? && r.id == id
    case LabelReg(key) => q == r
  }

  function Lookup(clocks: map<Field, string>, f: Field): Option<string> {
    if f in clocks then Some(clocks[f]) else None
  }

  /** The stamp of the last write that won, if any. */
  function ClockOf(t: Tables, q: Reg): Option<string> {
    match q
    case NoteReg(id, f) => if id in t.notes then Lookup(t.notes[id].clocks, f) else None
    case ItemReg(id, f) => if id in t.items then Lookup(t.items[id].clocks, f) else None
    case LabelReg(key) => if key in t.noteLabels then Some(t.noteLabels[key].hlc) else None
  }

  /** The register's value; a row that does not exist yet reads as its defaults. */
  function ValueOf(t: Tables, q: Reg): Scalar {
    match q
    case NoteReg(id, f) => GetNote(if id in t.notes then t.notes[id].data else DefaultNote(), f)
    case ItemReg(id, f) => GetItem(if id in t.items then t.items[id].data else DefaultItem(), f)
    case LabelReg(key) => SFlag(key in t.noteLabels && t.noteLabels[key].attached)
  }

  /** The stored stamp is at least s. */
  predicate Covers(c: Option<string>, s: string) {
    c.Some? && !Less(c.value, s)
  }

  // ---- one mutation ----

  /** Exactly register r was written: created with defaults if its row was missing. */
  ghost predicate Wrote(t: Tables, t': Tables, r: Reg, hlc: string, v: Scalar) {
    && t'.counter == t.counter + 1 && t'.labels == t.labels
    && ClockOf(t', r) == Some(hlc) && ValueOf(t', r) == v
    && (forall q :: q != r ==> ClockOf(t', q) == ClockOf(t, q) && ValueOf(t', q) == ValueOf(t, q))
    && (forall q :: RowExists(t', q) <==> RowExists(t, q) || SameRow(q, r))
    && (forall x :: x in t.items ==> x in t'.items && t'.items[x].noteId == t.items[x].noteId)
  }

  lemma PutNoteWrites(t: Tables, id: RowId, f: Field, v: Scalar, hlc: string)
    requires IsNoteField(f) && Typed(f, v)
    ensures var data := if id in t.notes then t.notes[id].data else DefaultNote();
            var clocks := if id in t.notes then t.notes[id].clocks else map[];
            Wrote(t, PutNote(t, id, SetNote(data, f, v), clocks[f := hlc]), NoteReg(id, f), hlc, v)
  {
    var data := if id in t.notes then t.notes[id].data else DefaultNote();
    var clocks := if id in t.notes then t.notes[id].clocks else map[];
    var t' := PutNote(t, id, SetNote(data, f, v), clocks[f := hlc]);
    forall q: Reg | q != NoteReg(id, f)
      ensures ClockOf(t', q) == ClockOf(t, q) && ValueOf(t', q) == ValueOf(t, q)
    {
      if q.NoteReg? && q.id == id {
        GetSetNote(data, f, v, q.f);
      }
    }
    GetSetNote(data, f, v, f);
  }

  lemma PutItemWrites(t: Tables, id: RowId, noteId: RowId, f: Field, v: Scalar, hlc: string)
    requires IsItemField(f) && Typed(f, v)
    requires id in t.items ==> noteId == t.items[id].noteId
    ensures var data := if id in t.items then t.items[id].data else DefaultItem();
            var clocks := if id in t.items then t.items[id].clocks else map[];
            Wrote(t, PutItem(t, id, noteId, SetItem(data, f, v), clocks[f := hlc]), ItemReg(id, f), hlc, v)
  {
    var data := if id in t.items then t.items[id].data else DefaultItem();
    var clocks := if id in t.items then t.items[id].clocks else map[];
    var t' := PutItem(t, id, noteId, SetItem(data, f, v), clocks[f := hlc]);
    forall q: Reg | q != ItemReg(id, f)
      ensures ClockOf(t', q) == ClockOf(t, q) && ValueOf(t', q) == ValueOf(t, q)
    {
      if q.ItemReg? && q.id == id {
        GetSetItem(data, f, v, q.f);
      }
    }
    GetSetItem(data, f, v, f);
  }

  lemma PutLabelWrites(t: Tables, key: LabelKey, attached: bool, hlc: string)
    ensures Wrote(t, PutLabel(t, key, attached, hlc), LabelReg(key), hlc, SFlag(attached))
  {
  }

  /**
   The create-on-first-mutation path and the update path are one rule: an accepted mutation
   writes its register if its stamp is newer than the stored one or there is none, and
   otherwise changes nothing at all.
   */
  lemma ApplyOneIsRegisterWrite(t: Tables, m: Mutation)
    requires ApplyOne(t, m).Ok?
    ensures WellAddressed(m)
    ensures var t', r := ApplyOne(t, m).value, RegOf(m);
            if Covers(ClockOf(t, r), m.hlc) then t' == t && RowExists(t, r)
            else Decode(m.field, m.value).Ok? && Wrote(t, t', r, m.hlc, Decode(m.field, m.value).value)
  {
    var r := RegOf(m);
    if ClockOf(t, r).Some? {
      CompareSign(m.hlc, ClockOf(t, r).value);
    }
    match m.entity {
      case NoteEntity =>
        if !Covers(ClockOf(t, r), m.hlc) {
          PutNoteWrites(t, m.id.value, m.field, Decode(m.field, m.value).value, m.hlc);
        }
      case ItemEntity =>
        if !Covers(ClockOf(t, r), m.hlc) {
          var noteId := if m.id.value in t.items then t.items[m.id.value].noteId else m.noteId.value;
          PutItemWrites(t, m.id.value, noteId, m.field, Decode(m.field, m.value).value, m.hlc);
        }
      case NoteLabelEntity =>
        PutLabelWrites(t, r.key, DecodeFlag(m.value).value, m.hlc);
    }
  }

  // ---- a whole log ----

  /** m is the write that register q holds after the log. */
  predicate Winner(t0: Tables, log: seq<Mutation>, t: Tables, q: Reg, m: Mutation) {
    && m in log && Targets(m, q)
    && !Covers(ClockOf(t0, q), m.hlc)
    && ClockOf(t, q) == Some(m.hlc)
    && Decode(m.field, m.value) == Ok(ValueOf(t, q))
  }

  predicate Untouched(t0: Tables, t: Tables, q: Reg) {
    ClockOf(t, q) == ClockOf(t0, q) && ValueOf(t, q) == ValueOf(t0, q)
  }

  /**
   Last writer wins, by stamp: no write in the log is newer than what register q holds, and q
   holds either its initial content or the payload of one of those writes.
   */
  ghost predicate Outcome(t0: Tables, log: seq<Mutation>, t: Tables, q: Reg) {
    && (ClockOf(t0, q).Some? ==> Covers(ClockOf(t, q), ClockOf(t0, q).value))
    && (forall m :: m in log && Targets(m, q) ==> Covers(ClockOf(t, q), m.hlc))
    && (Untouched(t0, t, q) || exists m :: Winner(t0, log, t, q, m))
  }

  lemma CoversTransitive(c: Option<string>, d: string, s: string)
    requires Covers(c, d) && !Less(d, s)
    ensures Covers(c, s)
  {
    if Less(c.value, s) {
      LessTotal(d, c.value);
      if Less(d, c.value) {
        LessTransitive(d, c.value, s);
      }
    }
  }

  /** Extending the log by one write keeps the outcome of every register. */
  lemma OutcomeStep(t0: Tables, log: seq<Mutation>, t: Tables, m: Mutation, q: Reg)
    requires Outcome(t0, log, t, q) && ApplyOne(t, m).Ok?
    ensures Outcome(t0, log + [m], ApplyOne(t, m).value, q)
  {
    var t' := ApplyOne(t, m).value;
    ApplyOneIsRegisterWrite(t, m);
    if Covers(ClockOf(t, RegOf(m)), m.hlc) || RegOf(m) != q {
      if w :| Winner(t0, log, t, q, w) {
        assert Winner(t0, log + [m], t', q, w);
      }
    } else {
      LessIrreflexive(m.hlc);
      forall s: string | Covers(ClockOf(t, q), s)
        ensures Covers(ClockOf(t', q), s)
      {
        if Less(m.hlc, s) {
          LessTransitive(ClockOf(t, q).value, m.hlc, s);
        }
      }
      assert !Covers(ClockOf(t0, q), m.hlc) by {
        if Covers(ClockOf(t0, q), m.hlc) {
          CoversTransitive(ClockOf(t, q), ClockOf(t0, q).value, m.hlc);
        }
      }
      assert Winner(t0, log + [m], t', q, m);
    }
  }

  /** After an accepted log every register holds the write with the greatest stamp. */
  lemma {:induction false} LogOutcome(t0: Tables, log: seq<Mutation>, q: Reg)
    requires ApplyLog(t0, log).Ok?
    ensures Outcome(t0, log, ApplyLog(t0, log).value, q)
  {
    if log == [] {
      if ClockOf(t0, q).Some? {
        LessIrreflexive(ClockOf(t0, q).value);
      }
    } else {
      var n := |log| - 1;
      LogOutcome(t0, log[..n], q);
      OutcomeStep(t0, log[..n], ApplyLog(t0, log[..n]).value, log[n], q);
      assert log == log[..n] + [log[n]];
    }
  }

  /** Equal stamps on one register carry equal values. */
  ghost predicate TiesAgree(log: seq<Mutation>) {
    forall m, w, q :: m in log && w in log && Targets(m, q) && Targets(w, q) && m.hlc == w.hlc
                      ==> m.value == w.value
  }

  ghost predicate SameMembers(a: seq<Mutation>, b: seq<Mutation>) {
    forall m :: m in a <==> m in b
  }

  lemma WinnerBeatsBase(t0: Tables, log: seq<Mutation>, t: Tables, u: Tables, q: Reg, m: Mutation)
    requires Winner(t0, log, t, q, m)
    requires Covers(ClockOf(u, q), m.hlc)
    ensures !Untouched(t0, u, q)
  {
  }

  /** The outcome is a function of the set of writes. */
  lemma OutcomeUnique(t0: Tables, a: seq<Mutation>, b: seq<Mutation>, t: Tables, u: Tables, q: Reg)
    requires Outcome(t0, a, t, q) && Outcome(t0, b, u, q)
    requires SameMembers(a, b) && TiesAgree(a)
    ensures ClockOf(t, q) == ClockOf(u, q) && ValueOf(t, q) == ValueOf(u, q)
  {
    if m :| Winner(t0, a, t, q, m) {
      WinnerBeatsBase(t0, a, t, u, q, m);
      var w :| Winner(t0, b, u, q, w);
      LessTotal(m.hlc, w.hlc);
      assert Covers(ClockOf(u, q), m.hlc) && Covers(ClockOf(t, q), w.hlc);
    } else {
      if w :| Winner(t0, b, u, q, w) {
        WinnerBeatsBase(t0, b, u, t, q, w);
      }
    }
  }

  lemma PairLog(t0: Tables, m: Mutation, w: Mutation)
    requires ApplyLog(t0, [m, w]).Ok?
    ensures ApplyOne(t0, m).Ok? && ApplyOne(ApplyOne(t0, m).value, w) == ApplyLog(t0, [m, w])
    ensures WellAddressed(m) && WellAddressed(w)
    ensures var t1, t, q := ApplyOne(t0, m).value, ApplyLog(t0, [m, w]).value, RegOf(w);
            if Covers(ClockOf(t1, q), w.hlc) then t == t1
            else Decode(w.field, w.value).Ok? && Wrote(t1, t, q, w.hlc, Decode(w.field, w.value).value)
    ensures var t1, q := ApplyOne(t0, m).value, RegOf(m);
            if Covers(ClockOf(t0, q), m.hlc) then t1 == t0
            else Decode(m.field, m.value).Ok? && Wrote(t0, t1, q, m.hlc, Decode(m.field, m.value).value)
  {
    assert [m, w][..1] == [m] && [m][..0] == [];
    assert ApplyLog(t0, [m]) == ApplyOne(t0, m);
    ApplyOneIsRegisterWrite(t0, m);
    ApplyOneIsRegisterWrite(ApplyOne(t0, m).value, w);
  }

  lemma DistinctStampsUnique(t0: Tables, m: Mutation, w: Mutation, t: Tables, u: Tables, q: Reg)
    requires WellAddressed(m) && WellAddressed(w) && (RegOf(m) != RegOf(w) || m.hlc != w.hlc)
    requires Outcome(t0, [m, w], t, q) && Outcome(t0, [w, m], u, q)
    ensures ValueOf(t, q) == ValueOf(u, q)
  {
    assert m in [m, w] && w in [m, w];
    LessTotal(m.hlc, w.hlc);
    OutcomeUnique(t0, [m, w], [w, m], t, u, q);
  }

  /**
   Why ties must agree: two writes accepted in either order converge if and only if they do not
   meet in one register with one stamp and different values above the stored stamp.
   */
  lemma TwoWritesExact(t0: Tables, m: Mutation, w: Mutation)
    requires ApplyLog(t0, [m, w]).Ok? && ApplyLog(t0, [w, m]).Ok?
    ensures (forall q :: ValueOf(ApplyLog(t0, [m, w]).value, q) == ValueOf(ApplyLog(t0, [w, m]).value, q))
            <==> !(RegOf(m) == RegOf(w) && m.hlc == w.hlc && !Covers(ClockOf(t0, RegOf(m)), m.hlc)
                   && Decode(m.field, m.value) != Decode(w.field, w.value))
  {
    PairLog(t0, m, w);
    PairLog(t0, w, m);
    var r := RegOf(m);
    var t, u := ApplyLog(t0, [m, w]).value, ApplyLog(t0, [w, m]).value;
    LessTotal(m.hlc, w.hlc);
    if r == RegOf(w) && m.hlc == w.hlc {
      LessIrreflexive(m.hlc);
      assert forall q :: q != r ==> ValueOf(t, q) == ValueOf(u, q);
    } else {
      forall q ensures ValueOf(t, q) == ValueOf(u, q) {
        LogOutcome(t0, [m, w], q);
        LogOutcome(t0, [w, m], q);
        DistinctStampsUnique(t0, m, w, t, u, q);
      }
    }
  }

  // ---- rows ----

  /** A row exists exactly if it did before or an accepted mutation addressed it. */
  lemma {:induction false} LogRows(t0: Tables, log: seq<Mutation>, q: Reg)
    requires ApplyLog(t0, log).Ok?
    ensures RowExists(ApplyLog(t0, log).value, q)
            <==> RowExists(t0, q) || exists m :: m in log && WellAddressed(m) && SameRow(q, RegOf(m))
  {
    if log != [] {
      var n := |log| - 1;
      LogRows(t0, log[..n], q);
      ApplyOneIsRegisterWrite(ApplyLog(t0, log[..n]).value, log[n]);
      assert log == log[..n] + [log[n]];
      if SameRow(q, RegOf(log[n])) {
        assert log[n] in log;
      }
    }
  }

  /** m is an item mutation of x that names note n. */
  predicate NamesOwner(m: Mutation, x: RowId, n: RowId) {
    m.entity.ItemEntity? && m.id == Some(x) && m.noteId == Some(n)
  }

  lemma CreatedUnderNamedOwner(t: Tables, m: Mutation, x: RowId)
    requires ApplyOne(t, m).Ok? && x !in t.items && x in ApplyOne(t, m).value.items
    ensures NamesOwner(m, x, ApplyOne(t, m).value.items[x].noteId)
  {
  }

  lemma LogItemsGrow(t0: Tables, log: seq<Mutation>, x: RowId)
    requires ApplyLog(t0, log).Ok? && x in t0.items
    ensures x in ApplyLog(t0, log).value.items
  {
    LogRows(t0, log, ItemReg(x, Text));
  }

  /** An item stays with the note it was created under. */
  lemma {:induction false} LogOwners(t0: Tables, log: seq<Mutation>, x: RowId)
    requires ApplyLog(t0, log).Ok? && x in ApplyLog(t0, log).value.items
    ensures var n := ApplyLog(t0, log).value.items[x].noteId;
            if x in t0.items then n == t0.items[x].noteId else exists m :: m in log && NamesOwner(m, x, n)
  {
    if log != [] {
      var k := |log| - 1;
      var t := ApplyLog(t0, log[..k]).value;
      if x in t0.items {
        LogItemsGrow(t0, log[..k], x);
      }
      if x in t.items {
        LogOwners(t0, log[..k], x);
        ApplyOneIsRegisterWrite(t, log[k]);
        assert forall m :: m in log[..k] ==> m in log;
      } else {
        CreatedUnderNamedOwner(t, log[k], x);
        assert log[k] in log;
      }
    }
  }

  /** All mutations of an item that name a note name the same one. */
  ghost predicate ConsistentOwners(log: seq<Mutation>) {
    forall m, w, x, n, n' :: m in log && w in log && NamesOwner(m, x, n) && NamesOwner(w, x, n') ==> n == n'
  }

  /** Equal rows, field values and clocks; only the sequence numbers may differ. */
  ghost predicate SameRows(t: Tables, u: Tables) {
    && t.notes.Keys == u.notes.Keys && t.items.Keys == u.items.Keys && t.noteLabels.Keys == u.noteLabels.Keys
    && (forall id :: id in t.notes ==>
          t.notes[id].data == u.notes[id].data && t.notes[id].clocks == u.notes[id].clocks)
    && (forall x :: x in t.items ==>
          && t.items[x].noteId == u.items[x].noteId
          && t.items[x].data == u.items[x].data && t.items[x].clocks == u.items[x].clocks)
    && (forall k :: k in t.noteLabels ==>
          t.noteLabels[k].attached == u.noteLabels[k].attached && t.noteLabels[k].hlc == u.noteLabels[k].hlc)
  }

  lemma ClocksFromLookups(c: map<Field, string>, d: map<Field, string>)
    requires forall f :: Lookup(c, f) == Lookup(d, f)
    ensures c == d
  {
    forall f ensures f in c <==> f in d {
      assert Lookup(c, f) == Lookup(d, f);
    }
    forall f | f in c ensures c[f] == d[f] {
      assert Lookup(c, f) == Lookup(d, f);
    }
  }

  lemma SameNoteRow(t: Tables, u: Tables, id: RowId)
    requires id in t.notes && id in u.notes
    requires forall q :: ClockOf(t, q) == ClockOf(u, q) && ValueOf(t, q) == ValueOf(u, q)
    ensures t.notes[id].data == u.notes[id].data && t.notes[id].clocks == u.notes[id].clocks
  {
    forall f
      ensures GetNote(t.notes[id].data, f) == GetNote(u.notes[id].data, f)
      ensures Lookup(t.notes[id].clocks, f) == Lookup(u.notes[id].clocks, f)
    {
      assert ValueOf(t, NoteReg(id, f)) == ValueOf(u, NoteReg(id, f));
      assert ClockOf(t, NoteReg(id, f)) == ClockOf(u, NoteReg(id, f));
    }
    NoteDataFromColumns(t.notes[id].data, u.notes[id].data);
    ClocksFromLookups(t.notes[id].clocks, u.notes[id].clocks);
  }

  lemma SameItemRow(t: Tables, u: Tables, x: RowId)
    requires x in t.items && x in u.items
    requires forall q :: ClockOf(t, q) == ClockOf(u, q) && ValueOf(t, q) == ValueOf(u, q)
    ensures t.items[x].data == u.items[x].data && t.items[x].clocks == u.items[x].clocks
  {
    forall f
      ensures GetItem(t.items[x].data, f) == GetItem(u.items[x].data, f)
      ensures Lookup(t.items[x].clocks, f) == Lookup(u.items[x].clocks, f)
    {
      assert ValueOf(t, ItemReg(x, f)) == ValueOf(u, ItemReg(x, f));
      assert ClockOf(t, ItemReg(x, f)) == ClockOf(u, ItemReg(x, f));
    }
    ItemDataFromColumns(t.items[x].data, u.items[x].data);
    ClocksFromLookups(t.items[x].clocks, u.items[x].clocks);
  }

  lemma SameLabelRow(t: Tables, u: Tables, k: LabelKey)
    requires k in t.noteLabels && k in u.noteLabels
    requires forall q :: ClockOf(t, q) == ClockOf(u, q) && ValueOf(t, q) == ValueOf(u, q)
    ensures t.noteLabels[k].attached == u.noteLabels[k].attached && t.noteLabels[k].hlc == u.noteLabels[k].hlc
  {
    assert ValueOf(t, LabelReg(k)) == ValueOf(u, LabelReg(k));
    assert ClockOf(t, LabelReg(k)) == ClockOf(u, LabelReg(k));
  }

  /** Rows are determined by their registers and owners. */
  lemma RegistersDetermineRows(t: Tables, u: Tables)
    requires forall q :: ClockOf(t, q) == ClockOf(u, q) && ValueOf(t, q) == ValueOf(u, q)
    requires forall q :: RowExists(t, q) <==> RowExists(u, q)
    requires forall x :: x in t.items && x in u.items ==> t.items[x].noteId == u.items[x].noteId
    ensures SameRows(t, u)
  {
    forall id ensures id in t.notes <==> id in u.notes {
      assert RowExists(t, NoteReg(id, Title)) <==> RowExists(u, NoteReg(id, Title));
    }
    forall x ensures x in t.items <==> x in u.items {
      assert RowExists(t, ItemReg(x, Text)) <==> RowExists(u, ItemReg(x, Text));
    }
    forall k ensures k in t.noteLabels <==> k in u.noteLabels {
      assert RowExists(t, LabelReg(k)) <==> RowExists(u, LabelReg(k));
    }
    forall id | id in t.notes
      ensures t.notes[id].data == u.notes[id].data && t.notes[id].clocks == u.notes[id].clocks
    {
      SameNoteRow(t, u, id);
    }
    forall x | x in t.items
      ensures t.items[x].data == u.items[x].data && t.items[x].clocks == u.items[x].clocks
    {
      SameItemRow(t, u, x);
    }
    forall k | k in t.noteLabels
      ensures t.noteLabels[k].attached == u.noteLabels[k].attached && t.noteLabels[k].hlc == u.noteLabels[k].hlc
    {
      SameLabelRow(t, u, k);
    }
  }

  lemma SameOwners(t0: Tables, a: seq<Mutation>, b: seq<Mutation>, x: RowId)
    requires ApplyLog(t0, a).Ok? && ApplyLog(t0, b).Ok?
    requires SameMembers(a, b) && ConsistentOwners(a)
    requires x in ApplyLog(t0, a).value.items && x in ApplyLog(t0, b).value.items
    ensures ApplyLog(t0, a).value.items[x].noteId == ApplyLog(t0, b).value.items[x].noteId
  {
    LogOwners(t0, a, x);
    LogOwners(t0, b, x);
  }

  lemma SameRowSets(t0: Tables, a: seq<Mutation>, b: seq<Mutation>, q: Reg)
    requires ApplyLog(t0, a).Ok? && ApplyLog(t0, b).Ok? && SameMembers(a, b)
    ensures RowExists(ApplyLog(t0, a).value, q) <==> RowExists(ApplyLog(t0, b).value, q)
  {
    LogRows(t0, a, q);
    LogRows(t0, b, q);
  }

  /**
   Convergence: two accepted logs with the same set of mutations - any permutation, any
   duplication - leave the same rows, field values and clocks.
   */
  lemma Convergence(t0: Tables, a: seq<Mutation>, b: seq<Mutation>)
    requires ApplyLog(t0, a).Ok? && ApplyLog(t0, b).Ok?
    requires SameMembers(a, b) && TiesAgree(a) && ConsistentOwners(a)
    ensures SameRows(ApplyLog(t0, a).value, ApplyLog(t0, b).value)
  {
    var t, u := ApplyLog(t0, a).value, ApplyLog(t0, b).value;
    forall q ensures ClockOf(t, q) == ClockOf(u, q) && ValueOf(t, q) == ValueOf(u, q) {
      LogOutcome(t0, a, q);
      LogOutcome(t0, b, q);
      OutcomeUnique(t0, a, b, t, u, q);
    }
    forall q ensures RowExists(t, q) <==> RowExists(u, q) {
      SameRowSets(t0, a, b, q);
    }
    forall x | x in t.items && x in u.items ensures t.items[x].noteId == u.items[x].noteId {
      SameOwners(t0, a, b, x);
    }
    RegistersDetermineRows(t, u);
  }

  /** Convergence of two servers that took the same mutations in differently cut batches, some refused. */
  lemma BatchedConvergence(t0: Tables, a: seq<seq<Mutation>>, b: seq<seq<Mutation>>)
    requires SameMembers(Accepted(t0, a), Accepted(t0, b))
    requires TiesAgree(Accepted(t0, a)) && ConsistentOwners(Accepted(t0, a))
    ensures SameRows(ApplyBatches(t0, a), ApplyBatches(t0, b))
  {
    BatchesAreALog(t0, a);
    BatchesAreALog(t0, b);
    Convergence(t0, Accepted(t0, a), Accepted(t0, b));
  }

  // ---- which logs are accepted ----

  /** A payload the column can store: it decodes, and a kind is "text" or "checklist". */
  predicate Storable(m: Mutation) {
    && Decode(m.field, m.value).Ok?
    && (m.entity.NoteEntity? && m.field.Kind? ==>
          Decode(m.field, m.value).value.text in {"text", "checklist"})
  }

  predicate NoteKnown(t0: Tables, log: seq<Mutation>, n: RowId) {
    n in t0.notes || exists m :: m in log && WellAddressed(m) && m.entity.NoteEntity? && m.id.value == n
  }

  predicate RowKnown(t0: Tables, log: seq<Mutation>, q: Reg) {
    RowExists(t0, q) || exists m :: m in log && WellAddressed(m) && SameRow(q, RegOf(m))
  }

  /** m may follow the log: what it refers to is there, or it addresses a row that is. */
  predicate Admissible(t0: Tables, log: seq<Mutation>, m: Mutation) {
    && WellAddressed(m)
    && match m.entity
       case NoteEntity => true
       case ItemEntity => RowKnown(t0, log, RegOf(m)) || (m.noteId.Some? && NoteKnown(t0, log, m.noteId.value))
       case NoteLabelEntity =>
         RowKnown(t0, log, RegOf(m)) || (NoteKnown(t0, log, m.noteId.value) && m.labelId.value in t0.labels)
       case UnknownEntity => false
  }

  lemma KnownRows(t0: Tables, log: seq<Mutation>, q: Reg, n: RowId)
    requires ApplyLog(t0, log).Ok?
    ensures RowKnown(t0, log, q) <==> RowExists(ApplyLog(t0, log).value, q)
    ensures NoteKnown(t0, log, n) <==> n in ApplyLog(t0, log).value.notes
  {
    LogRows(t0, log, q);
    var r := NoteReg(n, Title);
    LogRows(t0, log, r);
    if NoteKnown(t0, log, n) && n !in t0.notes {
      var m :| m in log && WellAddressed(m) && m.entity.NoteEntity? && m.id.value == n;
      assert SameRow(r, RegOf(m));
    }
    if !RowExists(t0, r) && exists m :: m in log && WellAddressed(m) && SameRow(r, RegOf(m)) {
      var m :| m in log && WellAddressed(m) && SameRow(r, RegOf(m));
      assert m.entity.NoteEntity? && m.id.value == n;
    }
  }

  lemma {:induction false} LogKeepsLabels(t0: Tables, log: seq<Mutation>)
    requires ApplyLog(t0, log).Ok?
    ensures ApplyLog(t0, log).value.labels == t0.labels
  {
    if log != [] {
      var n := |log| - 1;
      LogKeepsLabels(t0, log[..n]);
      ApplyOneIsRegisterWrite(ApplyLog(t0, log[..n]).value, log[n]);
    }
  }

  /** The stored kinds satisfy the CHECK constraint. */
  ghost predicate KindsKnown(t: Tables) {
    forall id :: id in t.notes ==> KnownKind(t.notes[id].data.kind)
  }

  lemma ApplyOneKeepsKinds(t: Tables, m: Mutation)
    requires KindsKnown(t) && ApplyOne(t, m).Ok?
    ensures KindsKnown(ApplyOne(t, m).value)
  {
  }

  lemma AdmissibleExact(t0: Tables, log: seq<Mutation>, m: Mutation)
    requires ApplyLog(t0, log).Ok? && KindsKnown(ApplyLog(t0, log).value) && Storable(m)
    ensures ApplyOne(ApplyLog(t0, log).value, m).Ok? <==> Admissible(t0, log, m)
  {
    var t := ApplyLog(t0, log).value;
    LogKeepsLabels(t0, log);
    if WellAddressed(m) {
      KnownRows(t0, log, RegOf(m), if m.noteId.Some? then m.noteId.value else m.id.value);
    }
  }

  /** Every mutation comes after the rows it refers to. */
  ghost predicate InOrder(t0: Tables, log: seq<Mutation>) {
    forall i :: 0 <= i < |log| ==> Admissible(t0, log[..i], log[i])
  }

  lemma InOrderSplit(t0: Tables, log: seq<Mutation>)
    requires log != []
    ensures var init := log[..|log| - 1];
            InOrder(t0, log) <==> InOrder(t0, init) && Admissible(t0, init, log[|log| - 1])
  {
    var init := log[..|log| - 1];
    assert forall i :: 0 <= i < |init| ==> init[..i] == log[..i] && init[i] == log[i];
  }

  /**
   Acceptance depends on order only through precedence: a log of storable mutations is accepted
   if and only if each mutation is well addressed and comes after the rows it refers to.
   */
  lemma {:induction false} AcceptanceExact(t0: Tables, log: seq<Mutation>)
    requires KindsKnown(t0) && forall m :: m in log ==> Storable(m)
    ensures ApplyLog(t0, log).Ok? <==> InOrder(t0, log)
    ensures ApplyLog(t0, log).Ok? ==> KindsKnown(ApplyLog(t0, log).value)
  {
    if log != [] {
      var n := |log| - 1;
      AcceptanceExact(t0, log[..n]);
      InOrderSplit(t0, log);
      if ApplyLog(t0, log[..n]).Ok? {
        AdmissibleExact(t0, log[..n], log[n]);
        if ApplyLog(t0, log).Ok? {
          ApplyOneKeepsKinds(ApplyLog(t0, log[..n]).value, log[n]);
        }
      }
    }
  }
}
