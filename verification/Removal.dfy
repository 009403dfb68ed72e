/**
 What the steps that remove rows, or add a label, do to what is listed and to what is stored:
 exactly the rows of the note or label go, hidden ones included, and nothing else changes.
 (server/internal/purge/sweep.go, server/internal/labelsvc/labelsvc.go)
 */
module Removal {
  import opened Results
  import opened Models
  import opened SyncSpec
  import opened Merge
  import opened History
  import opened Gestures
  import opened Replica

  /** The row is a note, or belongs to it. */
  predicate BelongsTo(t: Tables, r: RowRef, n: RowId)
    requires Exists(t, r)
  {
    match r
    case NoteRef(id) => id == n
    case ItemRef(x) => t.items[x].noteId == n
    case LabelRef(k) => k.noteId == n
  }

  /** Row r is in both states, and the same. */
  predicate Kept(t: Tables, t': Tables, r: RowRef) {
    match r
    case NoteRef(id) => id in t.notes && id in t'.notes && t'.notes[id] == t.notes[id]
    case ItemRef(x) => x in t.items && x in t'.items && t'.items[x] == t.items[x]
    case LabelRef(k) => k in t.noteLabels && k in t'.noteLabels && t'.noteLabels[k] == t.noteLabels[k]
  }

  lemma SameListing(t: Tables, t': Tables, n: RowId)
    requires n in t.notes && n in t'.notes && t'.notes[n] == t.notes[n]
    requires forall x :: x in t'.items && t'.items[x].noteId == n ==> x in t.items && t.items[x] == t'.items[x]
    requires forall x :: x in t.items && t.items[x].noteId == n ==> x in t'.items && t'.items[x] == t.items[x]
    requires forall k :: k in t'.noteLabels && k.noteId == n ==>
               k in t.noteLabels && t.noteLabels[k] == t'.noteLabels[k]
    requires forall k :: k in t.noteLabels && k.noteId == n ==> k in t'.noteLabels
    ensures ListedNote(t', n) == ListedNote(t, n)
  {
    assert ItemsOf(t', n) == ItemsOf(t, n);
    assert LabelIdsOf(t', n) == LabelIdsOf(t, n);
  }

  // ---- deleting a note ----

  /** A purge removes the note and its rows, stored and listed, and nothing else; the counter does not move. */
  lemma PurgeExact(t: Tables, id: RowId)
    requires RefsIntact(t)
    ensures var t' := Take(t, PurgeNote(id));
            && (forall r :: Exists(t', r) <==> Exists(t, r) && !BelongsTo(t, r, id))
            && (forall r :: Exists(t', r) ==> Kept(t, t', r))
            && t'.labels == t.labels && t'.counter == t.counter
            && Snapshot(t') == Snapshot(t) - {id}
  {
    var t' := Take(t, PurgeNote(id));
    forall n | n in t'.notes ensures ListedNote(t', n) == ListedNote(t, n) {
      SameListing(t, t', n);
    }
  }

  /** The note has been in the trash for more than a week: seven days in milliseconds. */
  predicate TrashedLongAgo(d: NoteData, now: int) {
    d.trashedAt.Some? && now - d.trashedAt.value > 604_800_000
  }

  /** The sweep removes exactly the notes that have been in the trash for more than a week, with their rows. */
  lemma SweepExact(t: Tables, now: int)
    requires RefsIntact(t)
    ensures var t' := Take(t, SweepTrash(now));
            && (forall r :: Exists(t', r) <==>
                  && Exists(t, r)
                  && forall n :: n in t.notes && BelongsTo(t, r, n) ==> !TrashedLongAgo(t.notes[n].data, now))
            && (forall r :: Exists(t', r) ==> Kept(t, t', r))
            && t'.labels == t.labels && t'.counter == t.counter
  {
  }

  /** So the list loses those notes. */
  lemma SweepListed(t: Tables, now: int)
    requires RefsIntact(t)
    ensures Snapshot(Take(t, SweepTrash(now)))
            == map n | n in Snapshot(t) && !TrashedLongAgo(Snapshot(t)[n].data, now) :: Snapshot(t)[n]
  {
    var t' := Take(t, SweepTrash(now));
    forall n | n in t'.notes ensures ListedNote(t', n) == ListedNote(t, n) {
      SameListing(t, t', n);
    }
  }

  // ---- labels ----

  lemma ListedWithoutLabel(t: Tables, l: RowId, n: RowId)
    requires n in t.notes
    ensures ListedNote(DropLabel(t, l), n) == ListedNote(t, n).(labelIds := LabelIdsOf(t, n) - {l})
  {
    assert ItemsOf(DropLabel(t, l), n) == ItemsOf(t, n);
    assert LabelIdsOf(DropLabel(t, l), n) == LabelIdsOf(t, n) - {l};
  }

  lemma UnknownLabelIsNowhere(t: Tables, l: RowId)
    requires RefsIntact(t) && l !in t.labels
    ensures DropLabel(t, l) == t
  {
    assert t.labels - {l} == t.labels;
  }

  /** Deleting a label detaches it from every note, and changes nothing else. */
  lemma LabelRemovalExact(t: Tables, l: RowId)
    requires RefsIntact(t)
    ensures var t' := Take(t, RemoveLabel(l));
            && (forall r :: Exists(t', r) <==> Exists(t, r) && !(r.LabelRef? && r.key.labelId == l))
            && (forall r :: Exists(t', r) ==> Kept(t, t', r))
            && t'.labels == t.labels - {l} && t'.counter == t.counter
            && Snapshot(t').Keys == Snapshot(t).Keys
            && forall n :: n in Snapshot(t) ==>
                 Snapshot(t')[n] == Snapshot(t)[n].(labelIds := Snapshot(t)[n].labelIds - {l})
  {
    var t' := Take(t, RemoveLabel(l));
    if l !in t.labels {
      UnknownLabelIsNowhere(t, l);
    }
    forall n | n in t.notes
      ensures ListedNote(t', n) == ListedNote(t, n).(labelIds := LabelIdsOf(t, n) - {l})
    {
      ListedWithoutLabel(t, l, n);
    }
  }

  function Attach(n: RowId, l: RowId, stamp: string): Mutation {
    Mutation(NoteLabelEntity, None, Some(n), Some(l), Attached, JBool(true), stamp)
  }

  /** A new label shows nowhere, and from then on it can be attached; a label that is not there cannot. */
  lemma NewLabelAttaches(t: Tables, l: RowId, n: RowId, stamp: string)
    requires RefsIntact(t) && l !in t.labels && n in t.notes
    ensures var t' := Take(t, AddLabel(l));
            && Snapshot(t') == Snapshot(t) && t'.counter == t.counter
            && ApplyOne(t, Attach(n, l, stamp)).Err?
            && ApplyOne(t', Attach(n, l, stamp)).Ok?
            && LabelAt(Snapshot(ApplyOne(t', Attach(n, l, stamp)).value), n, l)
  {
    var t' := Take(t, AddLabel(l));
    forall m | m in t.notes ensures ListedNote(t', m) == ListedNote(t, m) {
      SameListing(t, t', m);
    }
    var t2 := ApplyOne(t', Attach(n, l, stamp)).value;
    assert LabelKey(n, l).labelId in LabelIdsOf(t2, n);
  }
}
