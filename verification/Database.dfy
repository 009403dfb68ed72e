/**
 The server's database as the services use it: rows updated in place inside a transaction.
 Each method is tied to the functions and relations of SyncSpec, SearchIndex and Replica.
 (server/internal: syncsvc, db, searchsvc, notesvc, audiosvc, purge, labelsvc)
 */
module Database {
  import opened Results
  import opened Models
  import opened SyncSpec
  import opened Merge
  import opened History
  import opened SearchIndex
  import opened Replica
  import Lex
  import Ordering
  import Query

  /** The answer to a sync request. */
  datatype SyncResponse = SyncResponse(serverSeq: nat, changes: Changes)

  /** The first mutation that failed, and why. */
  datatype BatchError = BatchError(index: nat, error: Error)

  /** ids lists the keys' owners, each once, in the display order of the keys; equal keys may come in any order. */
  ghost predicate Ordered(keys: map<RowId, string>, desc: bool, ids: seq<RowId>) {
    && (forall x :: x in ids <==> x in keys)
    && (forall i, j :: 0 <= i < j < |ids| ==> ids[i] != ids[j])
    && (forall i, j :: 0 <= i < j < |ids| ==> !Ordering.Shown(desc, keys[ids[j]], keys[ids[i]]))
  }

  /** The items of a listed note, in order of position. */
  ghost predicate ItemsOrdered(c: ClientNote, ids: seq<RowId>) {
    Ordered(map x | x in c.items :: c.items[x].data.position, false, ids)
  }

  lemma {:induction false} FirstKeyExists(s: set<RowId>, keys: map<RowId, string>, desc: bool) returns (first: RowId)
    requires s != {} && s <= keys.Keys
    ensures first in s && forall y :: y in s ==> !Ordering.Shown(desc, keys[y], keys[first])
  {
    var x :| x in s;
    Lex.LessIrreflexive(keys[x]);
    if s == {x} {
      first := x;
    } else {
      var rest := FirstKeyExists(s - {x}, keys, desc);
      assert forall y :: y in s ==> y == x || y in s - {x};
      if Ordering.Shown(desc, keys[x], keys[rest]) {
        first := x;
        forall y | y in s ensures !Ordering.Shown(desc, keys[y], keys[x]) {
          if Ordering.Shown(desc, keys[y], keys[x]) {
            Ordering.ShownTransitive(desc, keys[y], keys[x], keys[rest]);
          }
        }
      } else {
        first := rest;
      }
    }
  }

  /** ids lists some of the keys' owners in order, and todo holds the rest, none of which comes before them. */
  ghost predicate OrderedSoFar(keys: map<RowId, string>, desc: bool, ids: seq<RowId>, todo: set<RowId>) {
    && todo <= keys.Keys
    && (forall x :: x in keys <==> x in ids || x in todo) && (forall x :: x in ids ==> x !in todo)
    && (forall i, j :: 0 <= i < j < |ids| ==> ids[i] != ids[j])
    && (forall i, j :: 0 <= i < j < |ids| ==> !Ordering.Shown(desc, keys[ids[j]], keys[ids[i]]))
    && (forall x, y :: x in ids && y in todo ==> !Ordering.Shown(desc, keys[y], keys[x]))
  }

  lemma NextInOrder(keys: map<RowId, string>, desc: bool, ids: seq<RowId>, todo: set<RowId>, x: RowId)
    requires OrderedSoFar(keys, desc, ids, todo) && x in todo
    requires forall y :: y in todo ==> !Ordering.Shown(desc, keys[y], keys[x])
    ensures OrderedSoFar(keys, desc, ids + [x], todo - {x})
  {
    forall y ensures y in ids + [x] <==> y in ids || y == x {
    }
  }

  /** ORDER BY: ascending or descending by key. */
  method OrderBy(keys: map<RowId, string>, desc: bool) returns (ids: seq<RowId>)
    ensures Ordered(keys, desc, ids)
  {
    ids := [];
    var todo := keys.Keys;
    assert forall x :: x in keys <==> x in todo;
    while todo != {}
      invariant OrderedSoFar(keys, desc, ids, todo)
      decreases todo
    {
      ghost var first := FirstKeyExists(todo, keys, desc);
      var x :| x in todo && forall y :: y in todo ==> !Ordering.Shown(desc, keys[y], keys[x]);
      NextInOrder(keys, desc, ids, todo, x);
      ids := ids + [x];
      todo := todo - {x};
    }
  }

  /** Some index row of note n matches. */
  ghost predicate Matched(fts: Index, phrases: seq<string>, matches: (seq<string>, string, string) -> bool, n: RowId) {
    exists row :: row in fts && row.noteId == n && matches(phrases, row.title, row.content)
  }

  /** Some arrangement of a checklist's live texts matches. */
  ghost predicate SomeOrderMatches(live: map<RowId, string>, phrases: seq<string>,
                                   matches: (seq<string>, string, string) -> bool, title: string) {
    exists content :: IsLines(live, content) && matches(phrases, title, content)
  }

  ghost predicate EveryOrderMatches(live: map<RowId, string>, phrases: seq<string>,
                                    matches: (seq<string>, string, string) -> bool, title: string) {
    forall content :: IsLines(live, content) ==> matches(phrases, title, content)
  }

  /**
   Searching the index is searching the notes, as long as the index agrees with the rows: a note
   that is not a checklist matches exactly if its own title and body do. For a checklist the
   index does not determine the order of the lines, so a checklist matches if every arrangement
   of its live texts does, and only if some arrangement does.
   */
  lemma SearchSeesNotes(t: Tables, fts: Index, phrases: seq<string>, matches: (seq<string>, string, string) -> bool,
                        n: RowId)
    requires IndexAgrees(t, fts) && n in t.notes
    ensures var d, live := t.notes[n].data, LiveTexts(t, n);
            if d.kind == "checklist"
            then (EveryOrderMatches(live, phrases, matches, d.title) ==> Matched(fts, phrases, matches, n))
                 && (Matched(fts, phrases, matches, n) ==> SomeOrderMatches(live, phrases, matches, d.title))
            else Matched(fts, phrases, matches, n) <==> matches(phrases, d.title, d.body)
  {
    var row :| row in fts && row.noteId == n;
  }

  /** The engine looks at the lines of a row, in whatever order they stand. */
  ghost predicate LooksAtLines(matches: (seq<string>, string, string) -> bool) {
    forall phrases, title, a, b :: multiset(Lines(a)) == multiset(Lines(b)) ==>
      matches(phrases, title, a) == matches(phrases, title, b)
  }

  /** If so, one arrangement decides: a checklist is found exactly if its live texts match in any order. */
  lemma SearchSeesChecklists(t: Tables, fts: Index, phrases: seq<string>,
                             matches: (seq<string>, string, string) -> bool, n: RowId, content: string)
    requires IndexAgrees(t, fts) && n in t.notes && t.notes[n].data.kind == "checklist" && LooksAtLines(matches)
    requires IsLines(LiveTexts(t, n), content)
    ensures Matched(fts, phrases, matches, n) <==> matches(phrases, t.notes[n].data.title, content)
  {
    var row :| row in fts && row.noteId == n;
    ArrangementsShareLines(LiveTexts(t, n), row.content, content);
  }

  /** SELECT ... WHERE server_seq > since ORDER BY server_seq. */
  method SelectSince<K(==)>(seqOf: map<K, nat>, since: nat) returns (keys: seq<K>)
    requires forall k, l :: k in seqOf && l in seqOf && k != l ==> seqOf[k] != seqOf[l]
    ensures forall k :: k in keys <==> k in seqOf && seqOf[k] > since
    ensures forall i, j :: 0 <= i < j < |keys| ==> seqOf[keys[i]] < seqOf[keys[j]]
  {
    var todo := set k | k in seqOf && seqOf[k] > since;
    keys := [];
    while todo != {}
      invariant todo <= seqOf.Keys
      invariant forall k :: k in seqOf && seqOf[k] > since <==> k in keys || k in todo
      invariant forall i, j :: 0 <= i < j < |keys| ==> seqOf[keys[i]] < seqOf[keys[j]]
      invariant forall k, l :: k in keys && l in todo ==> seqOf[k] < seqOf[l]
      decreases todo
    {
      ghost var least := LeastSeqExists(todo, seqOf);
      var k :| k in todo && forall l :: l in todo ==> seqOf[k] <= seqOf[l];
      keys := keys + [k];
      todo := todo - {k};
    }
  }

  // ---- batches ----

  /** The log is accepted up to the failing mutation. */
  ghost predicate FirstFailure(t: Tables, batch: seq<Mutation>, e: BatchError) {
    && e.index < |batch|
    && ApplyLog(t, batch[..e.index]).Ok?
    && ApplyOne(ApplyLog(t, batch[..e.index]).value, batch[e.index]) == Err(e.error)
  }

  lemma LogTakesNext(t: Tables, batch: seq<Mutation>, i: nat)
    requires i < |batch| && ApplyLog(t, batch[..i]).Ok?
    ensures ApplyLog(t, batch[..i + 1]) == ApplyOne(ApplyLog(t, batch[..i]).value, batch[i])
  {
    assert batch[..i + 1][..i] == batch[..i];
  }

  lemma LogStopsAtFailure(t: Tables, batch: seq<Mutation>, i: nat)
    requires i < |batch| && ApplyLog(t, batch[..i + 1]).Err?
    ensures ApplyLog(t, batch).Err?
  {
    ApplyLogAppend(t, batch[..i + 1], batch[i + 1..]);
    assert batch == batch[..i + 1] + batch[i + 1..];
  }

  lemma IndexTakesNext(t: Tables, batch: seq<Mutation>, i: nat, fts: Index, mid: Index, fts': Index)
    requires i < |batch| && ApplyLog(t, batch[..i]).Ok? && ApplyLog(t, batch[..i + 1]).Ok?
    requires IndexRun(t, batch[..i], fts, mid)
    requires IndexStep(ApplyLog(t, batch[..i]).value, batch[i], ApplyLog(t, batch[..i + 1]).value, mid, fts')
    ensures IndexRun(t, batch[..i + 1], fts, fts')
  {
    assert batch[..i + 1][..i] == batch[..i];
  }

  /** Purging a set of notes at once. */
  function PurgeAll(t: Tables, gone: set<RowId>): Tables {
    t.(notes := t.notes - gone,
       items := map x | x in t.items && t.items[x].noteId !in gone :: t.items[x],
       noteLabels := map k | k in t.noteLabels && k.noteId !in gone :: t.noteLabels[k])
  }

  lemma PurgeOneMore(t: Tables, gone: set<RowId>, id: RowId, fts: Index, fts': Index)
    requires Dropped(fts, gone, fts')
    ensures Purge(PurgeAll(t, gone), id) == PurgeAll(t, gone + {id})
    ensures Dropped(fts, gone + {id}, DropRows(fts', id))
  {
    DropRowsMembers(fts', id);
    DropRowsDistinct(fts', id);
  }

  lemma SweepIsPurgeAll(t: Tables, now: int)
    ensures PurgeAll(t, ExpiredNotes(t, now)) == Sweep(t, now)
  {
  }

  /** The staleness test of the code is the register rule. */
  lemma StaleIsCovered(t: Tables, m: Mutation)
    requires WellAddressed(m)
    ensures m.entity.NoteEntity? && m.id.value in t.notes ==>
              (Stale(t.notes[m.id.value].clocks, m.field, m.hlc) <==> !Effective(t, m))
    ensures m.entity.ItemEntity? && m.id.value in t.items ==>
              (Stale(t.items[m.id.value].clocks, m.field, m.hlc) <==> !Effective(t, m))
  {
    var c := ClockOf(t, RegOf(m));
    if c.Some? {
      Lex.CompareSign(m.hlc, c.value);
    }
  }

  class Database {
    var notes: map<RowId, NoteRow>
    var items: map<RowId, ItemRow>
    var noteLabels: map<LabelKey, LabelRow>
    var labels: set<RowId>
    var counter: nat
    var fts: Index

    /** The tables as a value. */
    function T(): Tables
      reads this
    {
      Tables(notes, items, noteLabels, labels, counter)
    }

    constructor ()
      ensures T() == EmptyTables() && fts == []
    {
      notes, items, noteLabels, labels, counter, fts := map[], map[], map[], {}, 0, [];
    }

    method NextServerSeq() returns (next: nat)
      modifies `counter
      ensures counter == old(counter) + 1 && next == counter
    {
      counter := counter + 1;
      next := counter;
    }

    /** The texts of a checklist's live items, in position order. */
    method SelectLines(n: RowId) returns (lines: seq<string>)
      ensures exists xs :: Enumerates(LiveTexts(T(), n), xs) && InPositionOrder(T(), xs)
                           && lines == Texts(LiveTexts(T(), n), xs)
    {
      var positions := map x | x in items && items[x].noteId == n && !items[x].data.deleted :: items[x].data.position;
      var xs := OrderBy(positions, false);
      ghost var live := LiveTexts(T(), n);
      forall k | 0 <= k < |xs| ensures xs[k] in items && xs[k] in live {
        assert xs[k] in xs && xs[k] in positions;
      }
      lines := [];
      var i := 0;
      while i < |xs|
        invariant 0 <= i <= |xs| && |lines| == i
        invariant forall k :: 0 <= k < |xs| ==> xs[k] in items && xs[k] in live
        invariant forall k :: 0 <= k < i ==> lines[k] == live[xs[k]]
      {
        lines := lines + [items[xs[i]].data.text];
        i := i + 1;
      }
      assert Enumerates(live, xs) && lines == Texts(live, xs);
    }

    /** Rewrites the index row of a note from the current rows. */
    method ReindexNote(n: RowId)
      modifies `fts
      ensures Refreshed(T(), old(fts), n, fts)
      ensures n in notes ==> exists row :: row in fts && SaysInOrder(T(), n, row)
    {
      if n !in notes {
        fts := DropRows(fts, n);
        return;
      }
      var d := notes[n].data;
      var content := d.body;
      if d.kind == "checklist" {
        var lines := SelectLines(n);
        content := Join(lines);
      }
      fts := DropRows(fts, n);
      var row := FtsRow(n, d.title, content);
      fts := fts + [row];
      assert FreshRow(T(), n, row);
      FreshRowSays(T(), n, row);
      assert row in fts;
    }

    // ---- mutations; after an error the caller rolls back ----

    method ApplyNoteMutation(m: Mutation) returns (r: Result<(), Error>)
      requires m.entity.NoteEntity?
      modifies this
      ensures r.Ok? ==> ApplyNote(old(T()), m) == Ok(T()) && IndexStep(old(T()), m, T(), old(fts), fts)
      ensures r.Err? ==> ApplyNote(old(T()), m) == Err(r.error)
    {
      ghost var t := T();
      if !IsNoteField(m.field) {
        return Err(BadField);
      }
      if m.id.None? {
        return Err(MissingId);
      }
      StaleIsCovered(t, m);
      if m.field.Kind? {
        var kind :- DecodeText(m.value);
        if kind == "audio" {
          return Err(AudioKind);
        }
      }
      if m.id.value !in notes {
        r := InsertNoteRow(m, m.id.value);
      } else {
        r := UpdateNoteRow(m, m.id.value);
      }
    }

    /** The branch for an id that has no row yet. */
    method InsertNoteRow(m: Mutation, id: RowId) returns (r: Result<(), Error>)
      requires m.entity.NoteEntity? && IsNoteField(m.field) && m.id == Some(id) && id !in notes
      modifies this
      ensures r.Ok? ==> InsertNote(old(T()), m, id) == Ok(T()) && Refreshed(T(), old(fts), id, fts)
      ensures r.Err? ==> InsertNote(old(T()), m, id) == Err(r.error)
    {
      var next := NextServerSeq();
      var v :- Decode(m.field, m.value);
      var data := SetNote(DefaultNote(), m.field, v);
      if !KnownKind(data.kind) {
        return Err(ConstraintFailed);
      }
      notes := notes[id := NoteRow(data, map[m.field := m.hlc], next)];
      ReindexNote(id);
      return Ok(());
    }

    /** The branch for an existing row. */
    method UpdateNoteRow(m: Mutation, id: RowId) returns (r: Result<(), Error>)
      requires m.entity.NoteEntity? && IsNoteField(m.field) && m.id == Some(id) && id in notes
      modifies this
      ensures r.Ok? ==> UpdateNote(old(T()), m, id) == Ok(T())
      ensures r.Ok? ==> if Stale(old(notes)[id].clocks, m.field, m.hlc) || !NoteContentField(m.field)
                        then fts == old(fts) else Refreshed(T(), old(fts), id, fts)
      ensures r.Err? ==> UpdateNote(old(T()), m, id) == Err(r.error)
    {
      var row := notes[id];
      if m.field in row.clocks && Lex.Compare(m.hlc, row.clocks[m.field]) <= 0 {
        return Ok(());
      }
      var next := NextServerSeq();
      var v :- Decode(m.field, m.value);
      var data := SetNote(row.data, m.field, v);
      if !KnownKind(data.kind) {
        return Err(ConstraintFailed);
      }
      notes := notes[id := NoteRow(data, row.clocks[m.field := m.hlc], next)];
      if NoteContentField(m.field) {
        ReindexNote(id);
      }
      return Ok(());
    }

    method ApplyItemMutation(m: Mutation) returns (r: Result<(), Error>)
      requires m.entity.ItemEntity?
      modifies this
      ensures r.Ok? ==> ApplyItem(old(T()), m) == Ok(T()) && IndexStep(old(T()), m, T(), old(fts), fts)
      ensures r.Err? ==> ApplyItem(old(T()), m) == Err(r.error)
    {
      ghost var t := T();
      if !IsItemField(m.field) {
        return Err(BadField);
      }
      if m.id.None? {
        return Err(MissingId);
      }
      StaleIsCovered(t, m);
      if m.id.value !in items {
        r := InsertItemRow(m, m.id.value);
      } else {
        r := UpdateItemRow(m, m.id.value);
      }
    }

    method InsertItemRow(m: Mutation, x: RowId) returns (r: Result<(), Error>)
      requires m.entity.ItemEntity? && IsItemField(m.field) && m.id == Some(x) && x !in items
      modifies this
      ensures r.Ok? ==> InsertItem(old(T()), m, x) == Ok(T()) && m.noteId.Some?
                        && Refreshed(T(), old(fts), m.noteId.value, fts)
      ensures r.Err? ==> InsertItem(old(T()), m, x) == Err(r.error)
    {
      if m.noteId.None? {
        return Err(MissingId);
      }
      var next := NextServerSeq();
      var v :- Decode(m.field, m.value);
      if m.noteId.value !in notes {
        return Err(ConstraintFailed);
      }
      items := items[x := ItemRow(m.noteId.value, SetItem(DefaultItem(), m.field, v), map[m.field := m.hlc], next)];
      ReindexNote(m.noteId.value);
      return Ok(());
    }

    method UpdateItemRow(m: Mutation, x: RowId) returns (r: Result<(), Error>)
      requires m.entity.ItemEntity? && IsItemField(m.field) && m.id == Some(x) && x in items
      modifies this
      ensures r.Ok? ==> UpdateItem(old(T()), m, x) == Ok(T())
      ensures r.Ok? ==> if Stale(old(items)[x].clocks, m.field, m.hlc) || !ItemContentField(m.field) then fts == old(fts)
                        else Refreshed(T(), old(fts), if m.noteId.Some? then m.noteId.value else old(items)[x].noteId, fts)
      ensures r.Err? ==> UpdateItem(old(T()), m, x) == Err(r.error)
    {
      var row := items[x];
      if m.field in row.clocks && Lex.Compare(m.hlc, row.clocks[m.field]) <= 0 {
        return Ok(());
      }
      var next := NextServerSeq();
      var v :- Decode(m.field, m.value);
      items := items[x := ItemRow(row.noteId, SetItem(row.data, m.field, v), row.clocks[m.field := m.hlc], next)];
      if ItemContentField(m.field) {
        ReindexNote(if m.noteId.Some? then m.noteId.value else row.noteId);
      }
      return Ok(());
    }

    method ApplyNoteLabelMutation(m: Mutation) returns (r: Result<(), Error>)
      requires m.entity.NoteLabelEntity?
      modifies this
      ensures fts == old(fts)
      ensures r.Ok? ==> ApplyNoteLabel(old(T()), m) == Ok(T())
      ensures r.Err? ==> ApplyNoteLabel(old(T()), m) == Err(r.error)
    {
      if !m.field.Attached? {
        return Err(BadField);
      }
      if m.noteId.None? || m.labelId.None? {
        return Err(MissingId);
      }
      var attached :- DecodeFlag(m.value);
      var key := LabelKey(m.noteId.value, m.labelId.value);
      if key !in noteLabels {
        var next := NextServerSeq();
        if key.noteId !in notes || key.labelId !in labels {
          return Err(ConstraintFailed);
        }
        noteLabels := noteLabels[key := LabelRow(attached, m.hlc, next)];
        return Ok(());
      }
      if Lex.Compare(m.hlc, noteLabels[key].hlc) <= 0 {
        return Ok(());
      }
      var next := NextServerSeq();
      noteLabels := noteLabels[key := LabelRow(attached, m.hlc, next)];
      return Ok(());
    }

    method ApplyMutation(m: Mutation) returns (r: Result<(), Error>)
      modifies this
      ensures r.Ok? ==> ApplyOne(old(T()), m) == Ok(T()) && IndexStep(old(T()), m, T(), old(fts), fts)
      ensures r.Err? ==> ApplyOne(old(T()), m) == Err(r.error)
    {
      match m.entity {
        case NoteEntity => r := ApplyNoteMutation(m);
        case ItemEntity => r := ApplyItemMutation(m);
        case NoteLabelEntity => r := ApplyNoteLabelMutation(m);
        case UnknownEntity => r := Err(BadEntity);
      }
    }

    // ---- the response ----

    method LoadChangedNotes(since: nat) returns (ns: seq<NoteWire>)
      requires SeqsDistinct(T())
      ensures IsNoteDelta(T(), since, ns)
    {
      ghost var t := T();
      var seqOf := map id | id in notes :: notes[id].serverSeq;
      forall id, k | id in seqOf && k in seqOf && id != k ensures seqOf[id] != seqOf[k] {
        assert Exists(t, NoteRef(id)) && Exists(t, NoteRef(k)) && NoteRef(id) != NoteRef(k);
      }
      var ids := SelectSince(seqOf, since);
      ns := [];
      for i := 0 to |ids|
        invariant |ns| == i
        invariant forall j :: 0 <= j < i ==> ids[j] in notes && ns[j] == WireOfNote(t, ids[j])
      {
        assert ids[i] in ids;
        ns := ns + [NoteWire(ids[i], notes[ids[i]].data, notes[ids[i]].serverSeq)];
      }
      ListedNotesAreDelta(t, since, ids, ns);
    }

    method LoadChangedItems(since: nat) returns (xs: seq<ItemWire>)
      requires SeqsDistinct(T())
      ensures IsItemDelta(T(), since, xs)
    {
      ghost var t := T();
      var seqOf := map x | x in items :: items[x].serverSeq;
      forall x, y | x in seqOf && y in seqOf && x != y ensures seqOf[x] != seqOf[y] {
        assert Exists(t, ItemRef(x)) && Exists(t, ItemRef(y)) && ItemRef(x) != ItemRef(y);
      }
      var ids := SelectSince(seqOf, since);
      xs := [];
      for i := 0 to |ids|
        invariant |xs| == i
        invariant forall j :: 0 <= j < i ==> ids[j] in items && xs[j] == WireOfItem(t, ids[j])
      {
        assert ids[i] in ids;
        xs := xs + [ItemWire(ids[i], items[ids[i]].noteId, items[ids[i]].data, items[ids[i]].serverSeq)];
      }
      ListedItemsAreDelta(t, since, ids, xs);
    }

    method LoadChangedNoteLabels(since: nat) returns (ls: seq<LabelWire>)
      requires SeqsDistinct(T())
      ensures IsLabelDelta(T(), since, ls)
    {
      ghost var t := T();
      var seqOf := map k | k in noteLabels :: noteLabels[k].serverSeq;
      forall k, l | k in seqOf && l in seqOf && k != l ensures seqOf[k] != seqOf[l] {
        assert Exists(t, LabelRef(k)) && Exists(t, LabelRef(l)) && LabelRef(k) != LabelRef(l);
      }
      var keys := SelectSince(seqOf, since);
      ls := [];
      for i := 0 to |keys|
        invariant |ls| == i
        invariant forall j :: 0 <= j < i ==> keys[j] in noteLabels && ls[j] == WireOfLabel(t, keys[j])
      {
        assert keys[i] in keys;
        var row := noteLabels[keys[i]];
        ls := ls + [LabelWire(keys[i].noteId, keys[i].labelId, row.attached, row.serverSeq)];
      }
      ListedLabelsAreDelta(t, since, keys, ls);
    }

    /**
     Applies a batch in one transaction and answers with everything above since. A failing
     mutation rolls everything back; its index is reported.
     */
    method Apply(since: nat, batch: seq<Mutation>) returns (r: Result<SyncResponse, BatchError>)
      requires Consistent(T())
      modifies this
      ensures Consistent(T()) && T() == ApplyBatch(old(T()), batch)
      ensures r.Ok? <==> ApplyLog(old(T()), batch).Ok?
      ensures r.Ok? ==> r.value.serverSeq == counter && IsDelta(T(), since, r.value.changes)
                        && IndexRun(old(T()), batch, old(fts), fts)
      ensures r.Err? ==> fts == old(fts) && FirstFailure(old(T()), batch, r.error)
    {
      ghost var t0, fts0 := T(), fts;
      var savedNotes, savedItems, savedNoteLabels := notes, items, noteLabels;
      var savedLabels, savedCounter, savedFts := labels, counter, fts;
      var i := 0;
      while i < |batch|
        invariant 0 <= i <= |batch|
        invariant ApplyLog(t0, batch[..i]) == Ok(T()) && IndexRun(t0, batch[..i], fts0, fts)
      {
        ghost var mid := fts;
        var step := ApplyMutation(batch[i]);
        LogTakesNext(t0, batch, i);
        if step.Err? {
          notes, items, noteLabels := savedNotes, savedItems, savedNoteLabels;
          labels, counter, fts := savedLabels, savedCounter, savedFts;
          LogStopsAtFailure(t0, batch, i);
          return Err(BatchError(i, step.error));
        }
        IndexTakesNext(t0, batch, i, fts0, mid, fts);
        i := i + 1;
      }
      assert batch[..i] == batch;
      LogKeepsConsistent(t0, batch);
      var ns := LoadChangedNotes(since);
      var xs := LoadChangedItems(since);
      var ls := LoadChangedNoteLabels(since);
      return Ok(SyncResponse(counter, Changes(ns, xs, ls)));
    }

    /** The live items of a note and their order. */
    method ItemsForNote(n: RowId) returns (found: map<RowId, ClientItem>, ids: seq<RowId>)
      ensures found == ItemsOf(T(), n)
      ensures Ordered(map x | x in found :: found[x].data.position, false, ids)
    {
      found := map x | x in items && items[x].noteId == n && !items[x].data.deleted
               :: ClientItem(items[x].data, items[x].serverSeq);
      ids := OrderBy(map x | x in found :: found[x].data.position, false);
    }

    /**
     Every note with its live items and attached labels; the notes come by descending position and
     the items of each note by ascending position.
     */
    method List() returns (v: View, order: seq<RowId>, itemOrder: map<RowId, seq<RowId>>)
      ensures v == Snapshot(T())
      ensures Ordered(map n | n in v :: v[n].data.position, true, order)
      ensures itemOrder.Keys == v.Keys && forall n :: n in v ==> ItemsOrdered(v[n], itemOrder[n])
    {
      var positions := map n | n in notes :: notes[n].data.position;
      order := OrderBy(positions, true);
      v, itemOrder := AttachItems(order);
      assert (map n | n in v :: v[n].data.position) == positions;
    }

    /** The loop over the listed notes. */
    method AttachItems(order: seq<RowId>) returns (v: View, itemOrder: map<RowId, seq<RowId>>)
      requires forall n :: n in order <==> n in notes
      ensures v == Snapshot(T())
      ensures itemOrder.Keys == v.Keys && forall n :: n in v ==> ItemsOrdered(v[n], itemOrder[n])
    {
      v, itemOrder := map[], map[];
      ghost var done: set<RowId> := {};
      var i := 0;
      while i < |order|
        invariant 0 <= i <= |order| && v.Keys == itemOrder.Keys == done <= notes.Keys
        invariant forall k :: 0 <= k < i ==> order[k] in done
        invariant forall n :: n in done ==> v[n] == ListedNote(T(), n) && ItemsOrdered(v[n], itemOrder[n])
      {
        var n := order[i];
        assert n in order;
        var found, ids := ItemsForNote(n);
        v := v[n := ClientNote(notes[n].data, notes[n].serverSeq, found, LabelIdsOf(T(), n))];
        itemOrder := itemOrder[n := ids];
        done := done + {n};
        i := i + 1;
      }
      assert done == notes.Keys;
    }

    // ---- search ----

    /**
     The notes of the main grid, neither trashed nor archived, whose index row matches the query's
     phrases. How the engine matches a row against a phrase is a parameter; its ranking is not modelled.
     */
    method Search(query: string, matches: (seq<string>, string, string) -> bool) returns (ids: seq<RowId>)
      ensures Query.Fields(query) == [] ==> ids == []
      ensures Query.Fields(query) != [] ==>
                forall n :: n in ids <==> n in notes && notes[n].data.trashedAt.None? && !notes[n].data.archived
                                          && Matched(fts, Query.Fields(query), matches, n)
      ensures Query.AllSpaces(query) ==> ids == []
      ensures forall tokens :: Query.SplitsInto(query, tokens) && tokens != [] ==>
                forall n :: n in ids <==> n in notes && notes[n].data.trashedAt.None? && !notes[n].data.archived
                                          && Matched(fts, tokens, matches, n)
      ensures OneRowEach(fts) ==> forall i, j :: 0 <= i < j < |ids| ==> ids[i] != ids[j]
    {
      ids := [];
      forall tokens ensures Query.SplitsInto(query, tokens) <==> tokens == Query.Fields(query) {
        Query.FieldsExact(query, tokens);
      }
      var q := Query.SanitizeQuery(query);
      if q == "" {
        return;
      }
      var phrases := Query.ReadQuery(q).value;
      var i := 0;
      while i < |fts|
        invariant 0 <= i <= |fts|
        invariant forall n :: n in ids <==> n in notes && notes[n].data.trashedAt.None? && !notes[n].data.archived
                                            && Matched(fts[..i], phrases, matches, n)
        invariant OneRowEach(fts) ==> forall k, l :: 0 <= k < l < |ids| ==> ids[k] != ids[l]
      {
        var row := fts[i];
        assert fts[..i + 1] == fts[..i] + [row];
        var onGrid := row.noteId in notes && notes[row.noteId].data.trashedAt.None? && !notes[row.noteId].data.archived;
        if onGrid && matches(phrases, row.title, row.content) {
          assert OneRowEach(fts) ==> row.noteId !in ids;
          ids := ids + [row.noteId];
        }
        i := i + 1;
      }
      assert fts[..|fts|] == fts;
    }

    // ---- audio notes, purging, labels ----

    method CreateAudioNote(id: RowId, title: string, position: string) returns (ok: bool)
      modifies this
      ensures T() == Take(old(T()), RecordAudio(id, title, position))
      ensures ok <==> id !in old(notes)
      ensures StepIndex(old(T()), RecordAudio(id, title, position), old(fts), fts)
    {
      var savedCounter := counter;
      var next := NextServerSeq();
      if id in notes {
        counter := savedCounter;
        return false;
      }
      notes := notes[id := NoteRow(NoteData("audio", title, "", "default", false, false, None, position, ""),
                                   map[], next)];
      ReindexNote(id);
      return true;
    }

    /** Deletes a note and everything that refers to it. */
    method DeleteNote(id: RowId)
      modifies this
      ensures T() == Purge(old(T()), id) && fts == DropRows(old(fts), id)
    {
      items := map x | x in items && items[x].noteId != id :: items[x];
      noteLabels := map k | k in noteLabels && k.noteId != id :: noteLabels[k];
      fts := DropRows(fts, id);
      notes := notes - {id};
    }

    method PurgeOne(id: RowId)
      requires OneRowEach(fts)
      modifies this
      ensures T() == Take(old(T()), PurgeNote(id)) && StepIndex(old(T()), PurgeNote(id), old(fts), fts)
    {
      DropRowsMembers(fts, id);
      DropRowsDistinct(fts, id);
      DeleteNote(id);
    }

    /** Purges the notes trashed before the retention window; returns how many. */
    method SweepExpired(now: int) returns (removed: nat)
      requires OneRowEach(fts)
      modifies this
      ensures T() == Take(old(T()), SweepTrash(now)) && StepIndex(old(T()), SweepTrash(now), old(fts), fts)
      ensures removed == |ExpiredNotes(old(T()), now)|
    {
      ghost var t0, fts0 := T(), fts;
      var ids := set id | id in notes && Expired(notes[id], now);
      removed := |ids|;
      var todo := ids;
      while todo != {}
        invariant todo <= ids
        invariant T() == PurgeAll(t0, ids - todo)
        invariant Dropped(fts0, ids - todo, fts)
        decreases todo
      {
        var id :| id in todo;
        PurgeOneMore(t0, ids - todo, id, fts0, fts);
        DeleteNote(id);
        assert ids - (todo - {id}) == (ids - todo) + {id};
        todo := todo - {id};
      }
      assert ids - todo == ids == ExpiredNotes(t0, now);
      SweepIsPurgeAll(t0, now);
    }

    method CreateLabel(labelId: RowId)
      modifies `labels
      ensures T() == Take(old(T()), AddLabel(labelId))
    {
      labels := labels + {labelId};
    }

    /** Strips the label from every note and deletes it; an unknown label changes nothing. */
    method DeleteLabel(labelId: RowId) returns (found: bool)
      modifies this
      ensures T() == Take(old(T()), RemoveLabel(labelId)) && fts == old(fts)
      ensures found <==> labelId in old(labels)
    {
      var saved := noteLabels;
      noteLabels := map k | k in noteLabels && k.labelId != labelId :: noteLabels[k];
      found := labelId in labels;
      if found {
        labels := labels - {labelId};
      } else {
        noteLabels := saved;
      }
    }
  }
}
