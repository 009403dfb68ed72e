/**
 The client's copy of all notes (web/src/lib/stores/notes.ts) against the snapshot the server
 would list (server/internal/notesvc/notesvc.go): what one sync response changes in it.
 Items and label ids of a note are kept as a map and a set; the views sort them.
 */
module Replica {
  import opened Results
  import opened Models
  import opened SyncSpec
  import opened History

  datatype ClientItem = ClientItem(data: ItemData, serverSeq: nat)

  datatype ClientNote = ClientNote(data: NoteData, serverSeq: nat, items: map<RowId, ClientItem>, labelIds: set<RowId>)

  type View = map<RowId, ClientNote>

  // ---- the snapshot ----

  /** The live items of a note. */
  function ItemsOf(t: Tables, n: RowId): map<RowId, ClientItem> {
    map x | x in t.items && t.items[x].noteId == n && !t.items[x].data.deleted
      :: ClientItem(t.items[x].data, t.items[x].serverSeq)
  }

  function LabelIdsOf(t: Tables, n: RowId): set<RowId> {
    set k | k in t.noteLabels && k.noteId == n && t.noteLabels[k].attached :: k.labelId
  }

  function ListedNote(t: Tables, n: RowId): ClientNote
    requires n in t.notes
  {
    ClientNote(t.notes[n].data, t.notes[n].serverSeq, ItemsOf(t, n), LabelIdsOf(t, n))
  }

  /** Every note, with its live items and attached labels. */
  function Snapshot(t: Tables): View {
    map n | n in t.notes :: ListedNote(t, n)
  }

  // ---- the wire ----

  datatype Changes = Changes(notes: seq<NoteWire>, items: seq<ItemWire>, noteLabels: seq<LabelWire>)

  datatype NoteWire = NoteWire(id: RowId, data: NoteData, serverSeq: nat)

  function WireOfNote(t: Tables, id: RowId): NoteWire
    requires id in t.notes
  {
    NoteWire(id, t.notes[id].data, t.notes[id].serverSeq)
  }

  datatype ItemWire = ItemWire(id: RowId, noteId: RowId, data: ItemData, serverSeq: nat)

  function WireOfItem(t: Tables, x: RowId): ItemWire
    requires x in t.items
  {
    ItemWire(x, t.items[x].noteId, t.items[x].data, t.items[x].serverSeq)
  }

  datatype LabelWire = LabelWire(noteId: RowId, labelId: RowId, attached: bool, serverSeq: nat)

  function WireOfLabel(t: Tables, k: LabelKey): LabelWire
    requires k in t.noteLabels
  {
    LabelWire(k.noteId, k.labelId, t.noteLabels[k].attached, t.noteLabels[k].serverSeq)
  }

  predicate FreshNote(t: Tables, id: RowId, since: nat) {
    id in t.notes && t.notes[id].serverSeq > since
  }

  predicate FreshItem(t: Tables, x: RowId, since: nat) {
    x in t.items && t.items[x].serverSeq > since
  }

  predicate FreshLabel(t: Tables, k: LabelKey, since: nat) {
    k in t.noteLabels && t.noteLabels[k].serverSeq > since
  }

  /** Exactly the note rows above since, in ascending order of sequence number. */
  ghost predicate IsNoteDelta(t: Tables, since: nat, ns: seq<NoteWire>) {
    && (forall w :: w in ns ==> FreshNote(t, w.id, since) && w == WireOfNote(t, w.id))
    && (forall id :: FreshNote(t, id, since) ==> WireOfNote(t, id) in ns)
    && (forall i, j :: 0 <= i < j < |ns| ==> ns[i].serverSeq < ns[j].serverSeq)
  }

  ghost predicate IsItemDelta(t: Tables, since: nat, xs: seq<ItemWire>) {
    && (forall w :: w in xs ==> FreshItem(t, w.id, since) && w == WireOfItem(t, w.id))
    && (forall x :: FreshItem(t, x, since) ==> WireOfItem(t, x) in xs)
    && (forall i, j :: 0 <= i < j < |xs| ==> xs[i].serverSeq < xs[j].serverSeq)
  }

  ghost predicate IsLabelDelta(t: Tables, since: nat, ls: seq<LabelWire>) {
    && (forall w :: w in ls ==> var k := LabelKey(w.noteId, w.labelId);
                                FreshLabel(t, k, since) && w == WireOfLabel(t, k))
    && (forall k :: FreshLabel(t, k, since) ==> WireOfLabel(t, k) in ls)
    && (forall i, j :: 0 <= i < j < |ls| ==> ls[i].serverSeq < ls[j].serverSeq)
  }

  ghost predicate IsDelta(t: Tables, since: nat, ch: Changes) {
    IsNoteDelta(t, since, ch.notes) && IsItemDelta(t, since, ch.items) && IsLabelDelta(t, since, ch.noteLabels)
  }

  lemma {:induction false} LeastSeqExists<K>(s: set<K>, seqOf: map<K, nat>) returns (least: K)
    requires s != {} && s <= seqOf.Keys
    ensures least in s && forall y :: y in s ==> seqOf[least] <= seqOf[y]
  {
    var x :| x in s;
    if s == {x} {
      least := x;
    } else {
      var rest := LeastSeqExists(s - {x}, seqOf);
      assert forall y :: y in s ==> y == x || y in s - {x};
      least := if seqOf[x] < seqOf[rest] then x else rest;
    }
  }

  /** The keys of s in ascending order of sequence number. */
  lemma {:induction false} AscendingKeys<K>(s: set<K>, seqOf: map<K, nat>) returns (keys: seq<K>)
    requires s <= seqOf.Keys
    requires forall k, l :: k in seqOf && l in seqOf && k != l ==> seqOf[k] != seqOf[l]
    ensures forall k :: k in keys <==> k in s
    ensures forall i, j :: 0 <= i < j < |keys| ==> seqOf[keys[i]] < seqOf[keys[j]]
  {
    if s == {} {
      keys := [];
    } else {
      var least := LeastSeqExists(s, seqOf);
      var rest := AscendingKeys(s - {least}, seqOf);
      keys := [least] + rest;
      assert forall k :: k in keys <==> k == least || k in rest;
      assert forall j :: 0 <= j < |rest| ==> rest[j] in rest;
    }
  }

  lemma ListedNotesAreDelta(t: Tables, since: nat, ids: seq<RowId>, ns: seq<NoteWire>)
    requires |ns| == |ids|
    requires forall id :: id in ids <==> FreshNote(t, id, since)
    requires forall i :: 0 <= i < |ids| ==> ids[i] in t.notes && ns[i] == WireOfNote(t, ids[i])
    requires forall i, j :: 0 <= i < j < |ns| ==> ns[i].serverSeq < ns[j].serverSeq
    ensures IsNoteDelta(t, since, ns)
  {
    forall i | 0 <= i < |ids| ensures FreshNote(t, ids[i], since) {
      assert ids[i] in ids;
    }
    forall id | FreshNote(t, id, since) ensures WireOfNote(t, id) in ns {
      var i :| 0 <= i < |ids| && ids[i] == id;
      assert ns[i] == WireOfNote(t, id);
    }
  }

  lemma ListedItemsAreDelta(t: Tables, since: nat, ids: seq<RowId>, xs: seq<ItemWire>)
    requires |xs| == |ids|
    requires forall x :: x in ids <==> FreshItem(t, x, since)
    requires forall i :: 0 <= i < |ids| ==> ids[i] in t.items && xs[i] == WireOfItem(t, ids[i])
    requires forall i, j :: 0 <= i < j < |xs| ==> xs[i].serverSeq < xs[j].serverSeq
    ensures IsItemDelta(t, since, xs)
  {
    forall i | 0 <= i < |ids| ensures FreshItem(t, ids[i], since) {
      assert ids[i] in ids;
    }
    forall x | FreshItem(t, x, since) ensures WireOfItem(t, x) in xs {
      var i :| 0 <= i < |ids| && ids[i] == x;
      assert xs[i] == WireOfItem(t, x);
    }
  }

  lemma ListedLabelsAreDelta(t: Tables, since: nat, keys: seq<LabelKey>, ls: seq<LabelWire>)
    requires |ls| == |keys|
    requires forall k :: k in keys <==> FreshLabel(t, k, since)
    requires forall i :: 0 <= i < |keys| ==> keys[i] in t.noteLabels && ls[i] == WireOfLabel(t, keys[i])
    requires forall i, j :: 0 <= i < j < |ls| ==> ls[i].serverSeq < ls[j].serverSeq
    ensures IsLabelDelta(t, since, ls)
  {
    forall i | 0 <= i < |keys| ensures FreshLabel(t, keys[i], since) {
      assert keys[i] in keys;
    }
    forall k | FreshLabel(t, k, since) ensures WireOfLabel(t, k) in ls {
      var i :| 0 <= i < |keys| && keys[i] == k;
      assert ls[i] == WireOfLabel(t, k);
    }
  }

  lemma NoteDeltaExists(t: Tables, since: nat) returns (ns: seq<NoteWire>)
    requires SeqsDistinct(t)
    ensures IsNoteDelta(t, since, ns)
  {
    var seqOf := map id | id in t.notes :: t.notes[id].serverSeq;
    forall id, j | id in seqOf && j in seqOf && id != j ensures seqOf[id] != seqOf[j] {
      assert Exists(t, NoteRef(id)) && Exists(t, NoteRef(j)) && NoteRef(id) != NoteRef(j);
    }
    var ids := AscendingKeys((set id | id in t.notes && t.notes[id].serverSeq > since), seqOf);
    assert forall i :: 0 <= i < |ids| ==> ids[i] in ids;
    ns := seq(|ids|, i requires 0 <= i < |ids| => WireOfNote(t, ids[i]));
    ListedNotesAreDelta(t, since, ids, ns);
  }

  lemma ItemDeltaExists(t: Tables, since: nat) returns (xs: seq<ItemWire>)
    requires SeqsDistinct(t)
    ensures IsItemDelta(t, since, xs)
  {
    var seqOf := map x | x in t.items :: t.items[x].serverSeq;
    forall x, y | x in seqOf && y in seqOf && x != y ensures seqOf[x] != seqOf[y] {
      assert Exists(t, ItemRef(x)) && Exists(t, ItemRef(y)) && ItemRef(x) != ItemRef(y);
    }
    var ids := AscendingKeys((set x | x in t.items && t.items[x].serverSeq > since), seqOf);
    assert forall i :: 0 <= i < |ids| ==> ids[i] in ids;
    xs := seq(|ids|, i requires 0 <= i < |ids| => WireOfItem(t, ids[i]));
    ListedItemsAreDelta(t, since, ids, xs);
  }

  lemma LabelDeltaExists(t: Tables, since: nat) returns (ls: seq<LabelWire>)
    requires SeqsDistinct(t)
    ensures IsLabelDelta(t, since, ls)
  {
    var seqOf := map k | k in t.noteLabels :: t.noteLabels[k].serverSeq;
    forall k, l | k in seqOf && l in seqOf && k != l ensures seqOf[k] != seqOf[l] {
      assert Exists(t, LabelRef(k)) && Exists(t, LabelRef(l)) && LabelRef(k) != LabelRef(l);
    }
    var keys := AscendingKeys((set k | k in t.noteLabels && t.noteLabels[k].serverSeq > since), seqOf);
    assert forall i :: 0 <= i < |keys| ==> keys[i] in keys;
    ls := seq(|keys|, i requires 0 <= i < |keys| => WireOfLabel(t, keys[i]));
    ListedLabelsAreDelta(t, since, keys, ls);
  }

  lemma DeltaExists(t: Tables, since: nat) returns (ch: Changes)
    requires SeqsDistinct(t)
    ensures IsDelta(t, since, ch)
  {
    var ns := NoteDeltaExists(t, since);
    var xs := ItemDeltaExists(t, since);
    var ls := LabelDeltaExists(t, since);
    ch := Changes(ns, xs, ls);
  }

  // ---- reconcile ----

  function MergeNote(v: View, w: NoteWire): View {
    v[w.id := ClientNote(w.data, w.serverSeq,
                         if w.id in v then v[w.id].items else map[],
                         if w.id in v then v[w.id].labelIds else {})]
  }

  function MergeItem(v: View, w: ItemWire): View {
    if w.noteId !in v then v
    else
      var others := v[w.noteId].items - {w.id};
      var items := if w.data.deleted then others else others[w.id := ClientItem(w.data, w.serverSeq)];
      v[w.noteId := v[w.noteId].(items := items)]
  }

  function MergeLabel(v: View, w: LabelWire): View {
    if w.noteId !in v then v
    else
      var others := v[w.noteId].labelIds - {w.labelId};
      v[w.noteId := v[w.noteId].(labelIds := if w.attached then others + {w.labelId} else others)]
  }

  function MergeNotes(v: View, ns: seq<NoteWire>): View {
    if ns == [] then v else MergeNote(MergeNotes(v, ns[..|ns| - 1]), ns[|ns| - 1])
  }

  function MergeItems(v: View, xs: seq<ItemWire>): View {
    if xs == [] then v else MergeItem(MergeItems(v, xs[..|xs| - 1]), xs[|xs| - 1])
  }

  function MergeLabels(v: View, ls: seq<LabelWire>): View {
    if ls == [] then v else MergeLabel(MergeLabels(v, ls[..|ls| - 1]), ls[|ls| - 1])
  }

  function Reconcile(v: View, ch: Changes): View {
    MergeLabels(MergeItems(MergeNotes(v, ch.notes), ch.items), ch.noteLabels)
  }

  // ---- a view, cell by cell ----

  datatype NoteCell = NoteCell(data: NoteData, serverSeq: nat)

  function NoteAt(v: View, n: RowId): Option<NoteCell> {
    if n in v then Some(NoteCell(v[n].data, v[n].serverSeq)) else None
  }

  function ItemAt(v: View, n: RowId, x: RowId): Option<ClientItem> {
    if n in v && x in v[n].items then Some(v[n].items[x]) else None
  }

  predicate LabelAt(v: View, n: RowId, l: RowId) {
    n in v && l in v[n].labelIds
  }

  ghost predicate SameCells(v: View, w: View) {
    && (forall n :: NoteAt(v, n) == NoteAt(w, n))
    && (forall n, x :: ItemAt(v, n, x) == ItemAt(w, n, x))
    && (forall n, l :: LabelAt(v, n, l) == LabelAt(w, n, l))
  }

  lemma SameCellsSameNote(v: View, w: View, n: RowId)
    requires SameCells(v, w) && n in v && n in w
    ensures v[n] == w[n]
  {
    assert NoteAt(v, n) == NoteAt(w, n);
    forall x ensures x in v[n].items <==> x in w[n].items {
      assert ItemAt(v, n, x) == ItemAt(w, n, x);
    }
    forall x | x in v[n].items ensures v[n].items[x] == w[n].items[x] {
      assert ItemAt(v, n, x) == ItemAt(w, n, x);
    }
    forall l ensures l in v[n].labelIds <==> l in w[n].labelIds {
      assert LabelAt(v, n, l) == LabelAt(w, n, l);
    }
  }

  lemma CellsDetermineView(v: View, w: View)
    requires SameCells(v, w)
    ensures v == w
  {
    forall n ensures n in v <==> n in w {
      assert NoteAt(v, n) == NoteAt(w, n);
    }
    forall n | n in v ensures v[n] == w[n] {
      SameCellsSameNote(v, w, n);
    }
  }

  predicate LiveItem(t: Tables, n: RowId, x: RowId) {
    x in t.items && t.items[x].noteId == n && !t.items[x].data.deleted
  }

  predicate IsAttached(t: Tables, n: RowId, l: RowId) {
    LabelKey(n, l) in t.noteLabels && t.noteLabels[LabelKey(n, l)].attached
  }

  lemma SnapshotCells(t: Tables, n: RowId, x: RowId, l: RowId)
    requires RefsIntact(t)
    ensures NoteAt(Snapshot(t), n)
            == if n in t.notes then Some(NoteCell(t.notes[n].data, t.notes[n].serverSeq)) else None
    ensures ItemAt(Snapshot(t), n, x)
            == if LiveItem(t, n, x) then Some(ClientItem(t.items[x].data, t.items[x].serverSeq)) else None
    ensures LabelAt(Snapshot(t), n, l) <==> IsAttached(t, n, l)
  {
    if IsAttached(t, n, l) {
      assert LabelKey(n, l).labelId in LabelIdsOf(t, n);
    }
  }

  /** The note part of a response replaces exactly the delivered notes' own fields. */
  lemma {:induction false} MergeNotesCells(v: View, t: Tables, ns: seq<NoteWire>, n: RowId)
    requires forall w :: w in ns ==> w.id in t.notes && w == WireOfNote(t, w.id)
    ensures NoteAt(MergeNotes(v, ns), n)
            == if n in t.notes && WireOfNote(t, n) in ns
               then Some(NoteCell(t.notes[n].data, t.notes[n].serverSeq)) else NoteAt(v, n)
    ensures forall x :: ItemAt(MergeNotes(v, ns), n, x) == ItemAt(v, n, x)
    ensures forall l :: LabelAt(MergeNotes(v, ns), n, l) == LabelAt(v, n, l)
  {
    if ns != [] {
      var k := |ns| - 1;
      MergeNotesCells(v, t, ns[..k], n);
      assert ns == ns[..k] + [ns[k]];
    }
  }

  lemma {:induction false} MergeItemsCells(v: View, t: Tables, xs: seq<ItemWire>, n: RowId, x: RowId)
    requires forall w :: w in xs ==> w.id in t.items && w == WireOfItem(t, w.id)
    ensures NoteAt(MergeItems(v, xs), n) == NoteAt(v, n)
    ensures ItemAt(MergeItems(v, xs), n, x)
            == if n in v && x in t.items && t.items[x].noteId == n && WireOfItem(t, x) in xs
               then (if LiveItem(t, n, x) then Some(ClientItem(t.items[x].data, t.items[x].serverSeq)) else None)
               else ItemAt(v, n, x)
    ensures forall l :: LabelAt(MergeItems(v, xs), n, l) == LabelAt(v, n, l)
  {
    if xs != [] {
      var k := |xs| - 1;
      MergeItemsCells(v, t, xs[..k], n, x);
      assert xs == xs[..k] + [xs[k]];
    }
  }

  lemma {:induction false} MergeLabelsCells(v: View, t: Tables, ls: seq<LabelWire>, n: RowId, l: RowId)
    requires forall w :: w in ls ==> var k := LabelKey(w.noteId, w.labelId);
                                     k in t.noteLabels && w == WireOfLabel(t, k)
    ensures NoteAt(MergeLabels(v, ls), n) == NoteAt(v, n)
    ensures forall x :: ItemAt(MergeLabels(v, ls), n, x) == ItemAt(v, n, x)
    ensures LabelAt(MergeLabels(v, ls), n, l)
            == if n in v && LabelKey(n, l) in t.noteLabels && WireOfLabel(t, LabelKey(n, l)) in ls
               then IsAttached(t, n, l) else LabelAt(v, n, l)
  {
    if ls != [] {
      var k := |ls| - 1;
      MergeLabelsCells(v, t, ls[..k], n, l);
      assert ls == ls[..k] + [ls[k]];
    }
  }

  /** What one response does to each cell: rows above since read as on the server, the rest stays. */
  lemma ReconcileCells(v: View, t: Tables, since: nat, ch: Changes, n: RowId, x: RowId, l: RowId)
    requires IsDelta(t, since, ch)
    ensures NoteAt(Reconcile(v, ch), n)
            == if FreshNote(t, n, since) then Some(NoteCell(t.notes[n].data, t.notes[n].serverSeq)) else NoteAt(v, n)
    ensures ItemAt(Reconcile(v, ch), n, x)
            == if NoteAt(Reconcile(v, ch), n).Some? && FreshItem(t, x, since) && t.items[x].noteId == n
               then (if LiveItem(t, n, x) then Some(ClientItem(t.items[x].data, t.items[x].serverSeq)) else None)
               else ItemAt(v, n, x)
    ensures LabelAt(Reconcile(v, ch), n, l)
            == if NoteAt(Reconcile(v, ch), n).Some? && FreshLabel(t, LabelKey(n, l), since)
               then IsAttached(t, n, l) else LabelAt(v, n, l)
  {
    var v1 := MergeNotes(v, ch.notes);
    var v2 := MergeItems(v1, ch.items);
    MergeNotesCells(v, t, ch.notes, n);
    MergeItemsCells(v1, t, ch.items, n, x);
    MergeItemsCells(v1, t, ch.items, n, l);
    MergeLabelsCells(v2, t, ch.noteLabels, n, l);
    assert NoteAt(v2, n) == NoteAt(v1, n);
  }

  // ---- the theorems ----

  /** Every cell in which v differs from base belongs to a row of t above since. */
  ghost predicate DiffersOnlyAbove(v: View, base: View, t: Tables, since: nat) {
    && (forall n :: NoteAt(v, n) != NoteAt(base, n) ==> FreshNote(t, n, since))
    && (forall n, x :: ItemAt(v, n, x) != ItemAt(base, n, x) ==> FreshItem(t, x, since) && t.items[x].noteId == n)
    && (forall n, l :: LabelAt(v, n, l) != LabelAt(base, n, l) ==> FreshLabel(t, LabelKey(n, l), since))
  }

  lemma RepairCells(v: View, t: Tables, since: nat, ch: Changes, n: RowId, x: RowId, l: RowId)
    requires RefsIntact(t) && IsDelta(t, since, ch) && DiffersOnlyAbove(v, Snapshot(t), t, since)
    ensures NoteAt(Reconcile(v, ch), n) == NoteAt(Snapshot(t), n)
    ensures ItemAt(Reconcile(v, ch), n, x) == ItemAt(Snapshot(t), n, x)
    ensures LabelAt(Reconcile(v, ch), n, l) == LabelAt(Snapshot(t), n, l)
  {
    ReconcileCells(v, t, since, ch, n, x, l);
    SnapshotCells(t, n, x, l);
  }

  /**
   Repair, exactly: whatever a replica contains, reconciling a response computed at server state
   t makes it the server's snapshot if and only if it disagreed only on rows above since.
   */
  lemma RepairExact(v: View, t: Tables, since: nat, ch: Changes)
    requires RefsIntact(t) && IsDelta(t, since, ch)
    ensures Reconcile(v, ch) == Snapshot(t) <==> DiffersOnlyAbove(v, Snapshot(t), t, since)
  {
    if DiffersOnlyAbove(v, Snapshot(t), t, since) {
      forall n ensures NoteAt(Reconcile(v, ch), n) == NoteAt(Snapshot(t), n) {
        RepairCells(v, t, since, ch, n, n, n);
      }
      forall n, x ensures ItemAt(Reconcile(v, ch), n, x) == ItemAt(Snapshot(t), n, x)
                          && LabelAt(Reconcile(v, ch), n, x) == LabelAt(Snapshot(t), n, x)
      {
        RepairCells(v, t, since, ch, n, x, x);
      }
      CellsDetermineView(Reconcile(v, ch), Snapshot(t));
    }
    if Reconcile(v, ch) == Snapshot(t) {
      forall n ensures NoteAt(v, n) != NoteAt(Snapshot(t), n) ==> FreshNote(t, n, since) {
        ReconcileCells(v, t, since, ch, n, n, n);
      }
      forall n, x
        ensures ItemAt(v, n, x) != ItemAt(Snapshot(t), n, x) ==> FreshItem(t, x, since) && t.items[x].noteId == n
        ensures LabelAt(v, n, x) != LabelAt(Snapshot(t), n, x) ==> FreshLabel(t, LabelKey(n, x), since)
      {
        ReconcileCells(v, t, since, ch, n, x, x);
      }
    }
  }

  /** Cells of rows that are not above since read the same at s and at any later t. */
  lemma SameBelow(s: Tables, t: Tables, since: nat, n: RowId, x: RowId)
    requires Evolves(s, t) && RefsIntact(s) && RefsIntact(t) && since <= s.counter
    ensures !FreshNote(t, n, since) ==> NoteAt(Snapshot(s), n) == NoteAt(Snapshot(t), n)
    ensures !(FreshItem(t, x, since) && t.items[x].noteId == n) ==>
              ItemAt(Snapshot(s), n, x) == ItemAt(Snapshot(t), n, x)
    ensures !FreshLabel(t, LabelKey(n, x), since) ==> LabelAt(Snapshot(s), n, x) == LabelAt(Snapshot(t), n, x)
  {
    SnapshotCells(s, n, x, x);
    SnapshotCells(t, n, x, x);
  }

  /** It is the same to compare with the server before and after: only rows above since changed. */
  lemma BaseDoesNotMatter(v: View, s: Tables, t: Tables, since: nat)
    requires Evolves(s, t) && RefsIntact(s) && RefsIntact(t) && since <= s.counter
    ensures DiffersOnlyAbove(v, Snapshot(s), t, since) <==> DiffersOnlyAbove(v, Snapshot(t), t, since)
  {
    forall n, x
      ensures !FreshNote(t, n, since) ==> NoteAt(Snapshot(s), n) == NoteAt(Snapshot(t), n)
      ensures !(FreshItem(t, x, since) && t.items[x].noteId == n) ==>
                ItemAt(Snapshot(s), n, x) == ItemAt(Snapshot(t), n, x)
      ensures !FreshLabel(t, LabelKey(n, x), since) ==> LabelAt(Snapshot(s), n, x) == LabelAt(Snapshot(t), n, x)
    {
      SameBelow(s, t, since, n, x);
    }
  }

  /**
   Delta equals snapshot: a replica that mirrors the server at s becomes, by one response
   computed at any later state t with any cursor not beyond s, exactly the snapshot at t.
   */
  lemma DeltaEqualsSnapshot(s: Tables, t: Tables, since: nat, ch: Changes)
    requires Evolves(s, t) && RefsIntact(s) && RefsIntact(t)
    requires since <= s.counter && IsDelta(t, since, ch)
    ensures Reconcile(Snapshot(s), ch) == Snapshot(t)
  {
    BaseDoesNotMatter(Snapshot(s), s, t, since);
    RepairExact(Snapshot(s), t, since, ch);
  }

  /** Seen from before a batch: each cell in which v differs from the list belongs to a row that will be above since. */
  ghost predicate WillBeRepaired(v: View, s: Tables, batch: seq<Mutation>, since: nat) {
    && (forall n :: NoteAt(v, n) != NoteAt(Snapshot(s), n) ==> WillBeAbove(s, batch, since, NoteRef(n)))
    && (forall n, x :: ItemAt(v, n, x) != ItemAt(Snapshot(s), n, x) ==>
          WillBeAbove(s, batch, since, ItemRef(x)) && NoteAfter(s, batch, x) == Some(n))
    && (forall n, l :: LabelAt(v, n, l) != LabelAt(Snapshot(s), n, l) ==>
          WillBeAbove(s, batch, since, LabelRef(LabelKey(n, l))))
  }

  lemma WillBeAboveCells(s: Tables, batch: seq<Mutation>, since: nat, n: RowId, x: RowId)
    requires Consistent(s) && ApplyLog(s, batch).Ok? && since <= s.counter
    ensures var t := ApplyLog(s, batch).value;
            && (FreshNote(t, n, since) <==> WillBeAbove(s, batch, since, NoteRef(n)))
            && (FreshItem(t, x, since) && t.items[x].noteId == n
                <==> WillBeAbove(s, batch, since, ItemRef(x)) && NoteAfter(s, batch, x) == Some(n))
            && (FreshLabel(t, LabelKey(n, x), since) <==> WillBeAbove(s, batch, since, LabelRef(LabelKey(n, x))))
  {
    WillBeAboveExact(s, batch, since, NoteRef(n));
    WillBeAboveExact(s, batch, since, ItemRef(x));
    WillBeAboveExact(s, batch, since, LabelRef(LabelKey(n, x)));
    NoteAfterExact(s, batch, x);
  }

  lemma WillBeRepairedExact(v: View, s: Tables, batch: seq<Mutation>, since: nat)
    requires Consistent(s) && ApplyLog(s, batch).Ok? && since <= s.counter
    ensures WillBeRepaired(v, s, batch, since)
            <==> DiffersOnlyAbove(v, Snapshot(s), ApplyLog(s, batch).value, since)
  {
    var t := ApplyLog(s, batch).value;
    forall n | NoteAt(v, n) != NoteAt(Snapshot(s), n)
      ensures FreshNote(t, n, since) <==> WillBeAbove(s, batch, since, NoteRef(n))
    {
      WillBeAboveCells(s, batch, since, n, n);
    }
    forall n, x | ItemAt(v, n, x) != ItemAt(Snapshot(s), n, x)
      ensures FreshItem(t, x, since) && t.items[x].noteId == n
              <==> WillBeAbove(s, batch, since, ItemRef(x)) && NoteAfter(s, batch, x) == Some(n)
    {
      WillBeAboveCells(s, batch, since, n, x);
    }
    forall n, l | LabelAt(v, n, l) != LabelAt(Snapshot(s), n, l)
      ensures FreshLabel(t, LabelKey(n, l), since) <==> WillBeAbove(s, batch, since, LabelRef(LabelKey(n, l)))
    {
      WillBeAboveCells(s, batch, since, n, l);
    }
  }

  /**
   Optimistic repair, exactly, and told before the push: a replica that shows the server's state
   s except for local edits, and pushes a batch that is accepted, shows the server's new state
   after the response if and only if every row it had changed locally is above the cursor
   already or is addressed by a mutation of the batch whose stamp s does not cover.
   */
  lemma OptimisticRepairExact(v: View, s: Tables, batch: seq<Mutation>, since: nat, ch: Changes)
    requires Consistent(s) && ApplyLog(s, batch).Ok? && since <= s.counter
    requires IsDelta(ApplyLog(s, batch).value, since, ch)
    ensures Reconcile(v, ch) == Snapshot(ApplyLog(s, batch).value) <==> WillBeRepaired(v, s, batch, since)
  {
    var t := ApplyLog(s, batch).value;
    LogEvolves(s, batch);
    LogKeepsConsistent(s, batch);
    WillBeRepairedExact(v, s, batch, since);
    BaseDoesNotMatter(v, s, t, since);
    RepairExact(v, t, since, ch);
  }

  // ---- rows that no response delivers ----

  /** The views show row r alike. */
  ghost predicate SameRowShown(v: View, w: View, r: RowRef) {
    match r
    case NoteRef(n) => NoteAt(v, n) == NoteAt(w, n)
    case ItemRef(x) => forall n :: ItemAt(v, n, x) == ItemAt(w, n, x)
    case LabelRef(k) => LabelAt(v, k.noteId, k.labelId) == LabelAt(w, k.noteId, k.labelId)
  }

  lemma UndeliveredRowStays(v: View, t: Tables, since: nat, ch: Changes, r: RowRef)
    requires IsDelta(t, since, ch) && !WrittenSince(t, since, r)
    ensures SameRowShown(v, Reconcile(v, ch), r)
  {
    match r {
      case NoteRef(n) => ReconcileCells(v, t, since, ch, n, n, n);
      case ItemRef(x) =>
        forall n ensures ItemAt(v, n, x) == ItemAt(Reconcile(v, ch), n, x) {
          ReconcileCells(v, t, since, ch, n, x, x);
        }
      case LabelRef(k) => ReconcileCells(v, t, since, ch, k.noteId, k.labelId, k.labelId);
    }
  }

  /**
   The other side, for notes, items and label attachments alike: pushing edits whose stamps the
   server already covers changes nothing there, and a row the client shows differently stays so
   unless the cursor was behind it.
   */
  lemma CoveredEditIsNotRepaired(v: View, s: Tables, batch: seq<Mutation>, since: nat, ch: Changes, r: RowRef)
    requires (forall m :: m in batch ==> Delivered(s, m)) && IsDelta(s, since, ch)
    requires !WrittenSince(s, since, r)
    ensures ApplyLog(s, batch) == Ok(s)
    ensures SameRowShown(v, Reconcile(v, ch), r)
    ensures !SameRowShown(v, Snapshot(s), r) ==> Reconcile(v, ch) != Snapshot(s)
  {
    RedeliveryExact(s, batch);
    UndeliveredRowStays(v, s, since, ch, r);
  }

  // ---- a response that arrives too late ----

  lemma LateAnswerNote(t1: Tables, t2: Tables, since: nat, ch: Changes, n: RowId)
    requires Evolves(t1, t2) && RefsIntact(t1) && RefsIntact(t2) && IsDelta(t1, since, ch)
    ensures NoteAt(Reconcile(Snapshot(t2), ch), n)
            == NoteAt(Snapshot(if WrittenSince(t1, since, NoteRef(n)) then t1 else t2), n)
  {
    ReconcileCells(Snapshot(t2), t1, since, ch, n, n, n);
    SnapshotCells(t1, n, n, n);
  }

  lemma LateAnswerItem(t1: Tables, t2: Tables, since: nat, ch: Changes, n: RowId, x: RowId)
    requires Evolves(t1, t2) && RefsIntact(t1) && RefsIntact(t2) && IsDelta(t1, since, ch)
    ensures ItemAt(Reconcile(Snapshot(t2), ch), n, x)
            == ItemAt(Snapshot(if WrittenSince(t1, since, ItemRef(x)) then t1 else t2), n, x)
  {
    ReconcileCells(Snapshot(t2), t1, since, ch, n, x, x);
    SnapshotCells(t1, n, x, x);
    SnapshotCells(t2, n, x, x);
  }

  lemma LateAnswerLabel(t1: Tables, t2: Tables, since: nat, ch: Changes, k: LabelKey)
    requires Evolves(t1, t2) && RefsIntact(t1) && RefsIntact(t2) && IsDelta(t1, since, ch)
    ensures LabelAt(Reconcile(Snapshot(t2), ch), k.noteId, k.labelId)
            == LabelAt(Snapshot(if WrittenSince(t1, since, LabelRef(k)) then t1 else t2), k.noteId, k.labelId)
  {
    assert LabelKey(k.noteId, k.labelId) == k;
    ReconcileCells(Snapshot(t2), t1, since, ch, k.noteId, k.labelId, k.labelId);
    SnapshotCells(t1, k.noteId, k.labelId, k.labelId);
    SnapshotCells(t2, k.noteId, k.labelId, k.labelId);
  }

  /** What a response computed at t1 does to one row of the list at the later t2. */
  lemma LateAnswerRow(t1: Tables, t2: Tables, since: nat, ch: Changes, r: RowRef)
    requires Evolves(t1, t2) && RefsIntact(t1) && RefsIntact(t2) && IsDelta(t1, since, ch)
    ensures SameRowShown(Reconcile(Snapshot(t2), ch), Snapshot(if WrittenSince(t1, since, r) then t1 else t2), r)
  {
    match r {
      case NoteRef(n) => LateAnswerNote(t1, t2, since, ch, n);
      case ItemRef(x) =>
        var s := Snapshot(if WrittenSince(t1, since, r) then t1 else t2);
        forall n ensures ItemAt(Reconcile(Snapshot(t2), ch), n, x) == ItemAt(s, n, x) {
          LateAnswerItem(t1, t2, since, ch, n, x);
        }
      case LabelRef(k) => LateAnswerLabel(t1, t2, since, ch, k);
    }
  }

  lemma SameRowsSameView(v: View, w: View)
    requires forall r :: SameRowShown(v, w, r)
    ensures v == w
  {
    forall n ensures NoteAt(v, n) == NoteAt(w, n) {
      assert SameRowShown(v, w, NoteRef(n));
    }
    forall n, x ensures ItemAt(v, n, x) == ItemAt(w, n, x) {
      assert SameRowShown(v, w, ItemRef(x));
    }
    forall n, l ensures LabelAt(v, n, l) == LabelAt(w, n, l) {
      assert SameRowShown(v, w, LabelRef(LabelKey(n, l)));
    }
    CellsDetermineView(v, w);
  }

  /**
   A response that is reconciled after a newer one, exactly: it leaves the list as it is if and
   only if every row it delivers reads the same by now. The cursor does not go back with it, so
   no later response repairs the rows it took back unless they are written again
   (UndeliveredRowStays).
   */
  lemma LateAnswerExact(t1: Tables, t2: Tables, since: nat, ch: Changes)
    requires Evolves(t1, t2) && RefsIntact(t1) && RefsIntact(t2) && IsDelta(t1, since, ch)
    ensures Reconcile(Snapshot(t2), ch) == Snapshot(t2)
            <==> forall r :: WrittenSince(t1, since, r) ==> SameRowShown(Snapshot(t1), Snapshot(t2), r)
  {
    var v, late := Snapshot(t2), Reconcile(Snapshot(t2), ch);
    if forall r :: WrittenSince(t1, since, r) ==> SameRowShown(Snapshot(t1), v, r) {
      forall r ensures SameRowShown(late, v, r) {
        LateAnswerRow(t1, t2, since, ch, r);
      }
      SameRowsSameView(late, v);
    }
    if late == v {
      forall r | WrittenSince(t1, since, r) ensures SameRowShown(Snapshot(t1), v, r) {
        LateAnswerRow(t1, t2, since, ch, r);
      }
    }
  }

  // ---- the cursor of a list ----

  /** s is the greatest sequence number of the listed notes and items, or 0. */
  ghost predicate IsMaxSeq(v: View, s: nat) {
    && (forall n :: n in v ==> v[n].serverSeq <= s)
    && (forall n, x :: n in v && x in v[n].items ==> v[n].items[x].serverSeq <= s)
    && (s == 0 || exists n :: n in v && (v[n].serverSeq == s || exists x :: x in v[n].items && v[n].items[x].serverSeq == s))
  }

  /** The cursor that load computes never runs ahead of the server. */
  lemma ListCursorBelow(t: Tables, s: nat)
    requires Consistent(t) && IsMaxSeq(Snapshot(t), s)
    ensures s <= t.counter
  {
    if s > 0 {
      var v := Snapshot(t);
      var n :| n in v && (v[n].serverSeq == s || exists x :: x in v[n].items && v[n].items[x].serverSeq == s);
      if v[n].serverSeq == s {
        assert SeqOf(t, NoteRef(n)) <= t.counter;
      } else {
        var x :| x in v[n].items && v[n].items[x].serverSeq == s;
        assert SeqOf(t, ItemRef(x)) <= t.counter;
      }
    }
  }

  /** The newest row is one the list shows with its sequence number: a note or a live item. */
  predicate NewestIsListed(t: Tables) {
    || t.counter == 0
    || (exists n :: n in t.notes && t.notes[n].serverSeq == t.counter)
    || (exists x :: x in t.items && t.items[x].serverSeq == t.counter && !t.items[x].data.deleted)
  }

  /** The cursor that load computes reaches the counter exactly if the newest write is one the list shows. */
  lemma ListCursorExact(t: Tables, s: nat)
    requires Consistent(t) && IsMaxSeq(Snapshot(t), s)
    ensures s == t.counter <==> NewestIsListed(t)
  {
    var v := Snapshot(t);
    ListCursorBelow(t, s);
    forall n | n in t.notes ensures t.notes[n].serverSeq <= s {
      assert n in v;
    }
    forall x | x in t.items && !t.items[x].data.deleted ensures t.items[x].serverSeq <= s {
      assert t.items[x].noteId in v && x in v[t.items[x].noteId].items;
    }
    if s == t.counter && s > 0 {
      var n :| n in v && (v[n].serverSeq == s || exists x :: x in v[n].items && v[n].items[x].serverSeq == s);
      if v[n].serverSeq != s {
        var x :| x in v[n].items && v[n].items[x].serverSeq == s;
        assert x in t.items;
      }
    }
  }
}
