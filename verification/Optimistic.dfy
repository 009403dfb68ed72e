/**
 Optimistic updates (web/src/lib/stores/notes.ts): what each gesture shows at once, and when that
 is what the server will list after applying the gesture's bundle.
 */
module Optimistic {
  import opened Results
  import opened Models
  import opened SyncSpec
  import opened Merge
  import opened History
  import opened Gestures
  import opened Replica
  import Protocol
  import Lex

  // ---- what a gesture shows at once ----

  predicate IsContent(f: Field) {
    f.Title? || f.Body? || f.Color?
  }

  /** The gestures the client's buttons and fields offer, with the values they carry. */
  predicate Offered(g: Gesture) {
    match g
    case EditNote(_, _, f, _) => IsContent(f)
    case EditItem(_, _, _, f, value) => (f.Text? && value.JString?) || (f.Checked? && value.JBool?)
    case Plain(_) => false
    case _ => true
  }

  predicate OnItem(g: Gesture) {
    g.EditItem? || g.RemoveItem?
  }

  /** The fields of a note the client patches: an edit does not touch its own trashedAt. */
  function Patched(d: NoteData, g: Gesture): NoteData
    requires Offered(g) && !OnItem(g)
  {
    match g
    case Pin(_, _) => d.(pinned := true, archived := false)
    case Unpin(_, _) => d.(pinned := false)
    case Archive(_, _, p) => d.(archived := true, pinned := false, archivePosition := p)
    case Unarchive(_, _) => d.(archived := false)
    case EditNote(_, _, f, text) =>
      if f.Title? then d.(title := text) else if f.Body? then d.(body := text) else d.(color := text)
    case Trash(_, _, at) => d.(trashedAt := Some(at))
    case Restore(_, _) => d.(trashedAt := None)
  }

  function PatchItem(v: View, n: RowId, x: RowId, f: Field, value: Scalar): View
    requires IsItemField(f) && Typed(f, value)
  {
    if n in v && x in v[n].items
    then v[n := v[n].(items := v[n].items[x := v[n].items[x].(data := SetItem(v[n].items[x].data, f, value))])]
    else v
  }

  function DropItem(v: View, n: RowId, x: RowId): View {
    if n in v then v[n := v[n].(items := v[n].items - {x})] else v
  }

  /** A note with one of its position keys set. */
  function KeyShown(v: View, id: RowId, f: Field, key: string): View
    requires f.Position? || f.ArchivePosition?
  {
    if id !in v then v
    else if f.Position? then v[id := v[id].(data := v[id].data.(position := key))]
    else v[id := v[id].(data := v[id].data.(archivePosition := key))]
  }

  /** The view right after a gesture, before anything reached the server; what is not there is left alone. */
  function ShownAfter(v: View, g: Gesture): View
    requires Offered(g)
  {
    match g
    case EditItem(x, n, _, f, value) => PatchItem(v, n, x, f, Decode(f, value).value)
    case RemoveItem(x, n, _) => DropItem(v, n, x)
    case _ => if g.id in v then v[g.id := v[g.id].(data := Patched(v[g.id].data, g))] else v
  }

  /** The owners a gesture's item mutations name. */
  predicate NamesOwners(owner: RowId -> RowId, g: Gesture) {
    OnItem(g) ==> owner(g.item) == g.noteId
  }

  lemma ItemGestureCells(v: View, g: Gesture)
    requires Offered(g) && OnItem(g)
    ensures var w := ShownAfter(v, g);
            && w.Keys == v.Keys && (forall n :: NoteAt(w, n) == NoteAt(v, n))
            && (forall n, x :: ItemAt(w, n, x) != ItemAt(v, n, x) ==> n == g.noteId && x == g.item)
            && (forall n, l :: LabelAt(w, n, l) == LabelAt(v, n, l))
  {
  }

  lemma NoteGestureCells(v: View, g: Gesture)
    requires Offered(g) && !OnItem(g)
    ensures var w := ShownAfter(v, g);
            && w.Keys == v.Keys && (forall n :: NoteAt(w, n) != NoteAt(v, n) ==> n == g.id)
            && (forall n, x :: ItemAt(w, n, x) == ItemAt(v, n, x))
            && (forall n, l :: LabelAt(w, n, l) == LabelAt(v, n, l))
  {
  }

  /** A gesture is an edit the protocol allows: it changes the view only in the rows its bundle addresses. */
  lemma GestureChangesOnly(owner: RowId -> RowId, v: View, g: Gesture)
    requires Offered(g) && NamesOwners(owner, g)
    ensures Protocol.ChangesOnly(owner, v, ShownAfter(v, g), Bundle(g)) && Protocol.AllOwned(owner, Bundle(g))
  {
    if OnItem(g) {
      assert Addresses(Bundle(g)[0], ItemRef(g.item));
      ItemGestureCells(v, g);
    } else {
      assert Addresses(Bundle(g)[0], NoteRef(g.id));
      NoteGestureCells(v, g);
    }
  }

  // ---- the gesture's outcome on the server ----

  datatype NoteContent = NoteContent(data: NoteData, items: map<RowId, ItemData>, labelIds: set<RowId>)

  function ContentOf(c: ClientNote): NoteContent {
    NoteContent(c.data, map x | x in c.items :: c.items[x].data, c.labelIds)
  }

  /** A view without the sequence numbers. */
  function Content(v: View): map<RowId, NoteContent> {
    map n | n in v :: ContentOf(v[n])
  }

  /** The notes read the same, whatever their sequence numbers. */
  ghost predicate ReadAlike(c: ClientNote, d: ClientNote) {
    && c.data == d.data && c.labelIds == d.labelIds && c.items.Keys == d.items.Keys
    && forall x :: x in c.items ==> c.items[x].data == d.items[x].data
  }

  lemma SameNoteContent(c: ClientNote, d: ClientNote)
    ensures ContentOf(c) == ContentOf(d) <==> ReadAlike(c, d)
  {
    assert ContentOf(c).items.Keys == c.items.Keys && ContentOf(d).items.Keys == d.items.Keys;
    if ContentOf(c) == ContentOf(d) {
      forall x | x in c.items ensures c.items[x].data == d.items[x].data {
        assert ContentOf(c).items[x] == ContentOf(d).items[x];
      }
    }
  }

  /** Two views have the same content exactly if they show the same notes, and each reads the same. */
  lemma SameContentExact(v: View, w: View)
    ensures Content(v) == Content(w) <==> v.Keys == w.Keys && forall n :: n in v && n in w ==> ReadAlike(v[n], w[n])
  {
    assert Content(v).Keys == v.Keys && Content(w).Keys == w.Keys;
    forall n | n in v && n in w ensures Content(v)[n] == Content(w)[n] <==> ReadAlike(v[n], w[n]) {
      SameNoteContent(v[n], w[n]);
    }
  }

  /** No stamp at least as new is stored for the register. */
  predicate Newest(t: Tables, q: Reg, stamp: string) {
    !Covers(ClockOf(t, q), stamp)
  }

  lemma NewestNoteWrite(t: Tables, id: RowId, m: Mutation)
    requires id in t.notes && KindsKnown(t) && m.entity.NoteEntity? && m.id == Some(id)
    requires IsNoteField(m.field) && !m.field.Kind? && Decode(m.field, m.value).Ok?
    requires Newest(t, NoteReg(id, m.field), m.hlc)
    ensures var row := t.notes[id];
            ApplyOne(t, m) == Ok(PutNote(t, id, SetNote(row.data, m.field, Decode(m.field, m.value).value),
                                         row.clocks[m.field := m.hlc]))
  {
    if m.field in t.notes[id].clocks {
      Lex.CompareSign(m.hlc, t.notes[id].clocks[m.field]);
      Lex.LessTotal(m.hlc, t.notes[id].clocks[m.field]);
    }
  }

  lemma ContentOfPutNote(t: Tables, id: RowId, data: NoteData, clocks: map<Field, string>)
    requires id in t.notes
    ensures Content(Snapshot(PutNote(t, id, data, clocks)))
            == Content(Snapshot(t))[id := Content(Snapshot(t))[id].(data := data)]
  {
    var t' := PutNote(t, id, data, clocks);
    forall n | n in t.notes ensures ItemsOf(t', n) == ItemsOf(t, n) && LabelIdsOf(t', n) == LabelIdsOf(t, n) {
    }
  }

  lemma ItemsOfPutItem(t: Tables, x: RowId, data: ItemData, clocks: map<Field, string>, m: RowId)
    requires x in t.items
    ensures var n := t.items[x].noteId;
            ItemsOf(PutItem(t, x, n, data, clocks), m)
            == if m != n then ItemsOf(t, m)
               else if data.deleted then ItemsOf(t, n) - {x}
               else ItemsOf(t, n)[x := ClientItem(data, t.counter + 1)]
  {
  }

  /** The items of a note after the one named x was set to data. */
  function ItemsAfter(items: map<RowId, ItemData>, x: RowId, data: ItemData): map<RowId, ItemData> {
    if data.deleted then items - {x} else items[x := data]
  }

  lemma ListedAfterPutItem(t: Tables, x: RowId, data: ItemData, clocks: map<Field, string>, m: RowId)
    requires x in t.items && m in t.notes
    ensures var n, was := t.items[x].noteId, ContentOf(ListedNote(t, m));
            ContentOf(ListedNote(PutItem(t, x, n, data, clocks), m))
            == if m == n then was.(items := ItemsAfter(was.items, x, data)) else was
  {
    ItemsOfPutItem(t, x, data, clocks, m);
    assert LabelIdsOf(PutItem(t, x, t.items[x].noteId, data, clocks), m) == LabelIdsOf(t, m);
  }

  lemma ContentOfPutItem(t: Tables, x: RowId, data: ItemData, clocks: map<Field, string>)
    requires x in t.items && t.items[x].noteId in t.notes
    ensures var n, c := t.items[x].noteId, Content(Snapshot(t));
            Content(Snapshot(PutItem(t, x, n, data, clocks))) == c[n := c[n].(items := ItemsAfter(c[n].items, x, data))]
  {
    forall m | m in t.notes
      ensures var n, was := t.items[x].noteId, ContentOf(ListedNote(t, m));
              ContentOf(ListedNote(PutItem(t, x, n, data, clocks), m))
              == if m == n then was.(items := ItemsAfter(was.items, x, data)) else was
    {
      ListedAfterPutItem(t, x, data, clocks, m);
    }
  }

  lemma NewestItemWrite(t: Tables, x: RowId, n: RowId, f: Field, j: Json, stamp: string)
    requires x in t.items && t.items[x].noteId == n && IsItemField(f) && Decode(f, j).Ok?
    requires Newest(t, ItemReg(x, f), stamp)
    ensures var m, row := ItemMutation(x, n, f, j, stamp), t.items[x];
            ApplyOne(t, m) == Ok(PutItem(t, x, n, SetItem(row.data, f, Decode(f, j).value), row.clocks[f := stamp]))
  {
    if f in t.items[x].clocks {
      Lex.CompareSign(stamp, t.items[x].clocks[f]);
      Lex.LessTotal(stamp, t.items[x].clocks[f]);
    }
  }

  // ---- optimistic updates predict the server ----

  /** A gesture on rows the server has, under a stamp newer than those of the fields it writes. */
  ghost predicate Timely(t: Tables, g: Gesture) {
    && (forall m :: m in Bundle(g) ==> WellAddressed(m) && Newest(t, RegOf(m), m.hlc))
    && if OnItem(g) then g.item in t.items && t.items[g.item].noteId == g.noteId
       else !g.Plain? && g.id in t.notes
  }

  /** Writes to distinct fields of one note. */
  ghost predicate NoteWrites(t: Tables, ms: seq<Mutation>, id: RowId) {
    && (forall m :: m in ms ==> m.entity.NoteEntity? && m.id == Some(id) && IsNoteField(m.field) && !m.field.Kind?
                                && Decode(m.field, m.value).Ok? && Newest(t, NoteReg(id, m.field), m.hlc))
    && (forall i, j :: 0 <= i < j < |ms| ==> ms[i].field != ms[j].field)
  }

  function SetAll(d: NoteData, ms: seq<Mutation>): NoteData
    requires forall m :: m in ms ==> IsNoteField(m.field) && Decode(m.field, m.value).Ok?
  {
    if ms == [] then d
    else
      var m := ms[|ms| - 1];
      SetNote(SetAll(d, ms[..|ms| - 1]), m.field, Decode(m.field, m.value).value)
  }

  /** Of all that is listed, only the fields of one note change. */
  ghost predicate Becomes(c: map<RowId, NoteContent>, d: map<RowId, NoteContent>, id: RowId, data: NoteData) {
    id in c && d == c[id := c[id].(data := data)]
  }

  lemma BecomesTwice(b: map<RowId, NoteContent>, c: map<RowId, NoteContent>, d: map<RowId, NoteContent>, id: RowId,
                     data: NoteData, data': NoteData)
    requires Becomes(b, c, id, data) && Becomes(c, d, id, data')
    ensures Becomes(b, d, id, data')
  {
  }

  lemma BecomesExact(b: map<RowId, NoteContent>, c: map<RowId, NoteContent>, d: map<RowId, NoteContent>, id: RowId,
                     data: NoteData, data': NoteData)
    requires Becomes(b, c, id, data) && Becomes(b, d, id, data')
    ensures c == d <==> data == data'
  {
    assert c[id].data == data && d[id].data == data';
  }

  lemma ListedData(t: Tables, id: RowId)
    requires id in t.notes
    ensures id in Content(Snapshot(t)) && Content(Snapshot(t))[id].data == t.notes[id].data
  {
  }

  lemma NewestWrite(t: Tables, id: RowId, m: Mutation)
    requires id in t.notes && KindsKnown(t) && m.entity.NoteEntity? && m.id == Some(id)
    requires IsNoteField(m.field) && !m.field.Kind? && Decode(m.field, m.value).Ok?
    requires Newest(t, NoteReg(id, m.field), m.hlc)
    ensures ApplyOne(t, m).Ok?
    ensures var t' := ApplyOne(t, m).value;
            && id in t'.notes
            && t'.notes[id].data == SetNote(t.notes[id].data, m.field, Decode(m.field, m.value).value)
            && Becomes(Content(Snapshot(t)), Content(Snapshot(t')), id, t'.notes[id].data)
  {
    var row := t.notes[id];
    NewestNoteWrite(t, id, m);
    ContentOfPutNote(t, id, SetNote(row.data, m.field, Decode(m.field, m.value).value), row.clocks[m.field := m.hlc]);
  }

  lemma FieldUntouched(t: Tables, ms: seq<Mutation>, id: RowId)
    requires ms != [] && NoteWrites(t, ms, id) && ApplyLog(t, ms[..|ms| - 1]).Ok?
    ensures Newest(ApplyLog(t, ms[..|ms| - 1]).value, NoteReg(id, ms[|ms| - 1].field), ms[|ms| - 1].hlc)
  {
    var n := |ms| - 1;
    var q := NoteReg(id, ms[n].field);
    forall m | m in ms[..n] ensures !Targets(m, q) {
      var i :| 0 <= i < n && ms[..n][i] == m;
      assert ms[i].field != ms[n].field;
    }
    LogOutcome(t, ms[..n], q);
  }

  /** Writes newer than what is stored all take effect, and nothing else changes in the list. */
  lemma {:induction false} NewestWritesListed(t: Tables, ms: seq<Mutation>, id: RowId)
    requires Consistent(t) && id in t.notes && NoteWrites(t, ms, id)
    ensures ApplyLog(t, ms).Ok?
    ensures var t' := ApplyLog(t, ms).value;
            && id in t'.notes && t'.notes[id].data == SetAll(t.notes[id].data, ms)
            && Becomes(Content(Snapshot(t)), Content(Snapshot(t')), id, t'.notes[id].data)
  {
    if ms == [] {
      ListedData(t, id);
    } else {
      var n := |ms| - 1;
      NewestWritesListed(t, ms[..n], id);
      var t1 := ApplyLog(t, ms[..n]).value;
      LogKeepsConsistent(t, ms[..n]);
      FieldUntouched(t, ms, id);
      NewestWrite(t1, id, ms[n]);
      var t2 := ApplyOne(t1, ms[n]).value;
      BecomesTwice(Content(Snapshot(t)), Content(Snapshot(t1)), Content(Snapshot(t2)), id,
                   t1.notes[id].data, t2.notes[id].data);
    }
  }

  // ---- the theorem ----

  /** Cuts a bundle of up to three writes. */
  lemma SetAllOfBundle(d: NoteData, ms: seq<Mutation>)
    requires 1 <= |ms| <= 3 && forall m :: m in ms ==> IsNoteField(m.field) && Decode(m.field, m.value).Ok?
    ensures var d1 := SetNote(d, ms[0].field, Decode(ms[0].field, ms[0].value).value);
            SetAll(d, ms)
            == if |ms| == 1 then d1
               else var d2 := SetNote(d1, ms[1].field, Decode(ms[1].field, ms[1].value).value);
                    if |ms| == 2 then d2 else SetNote(d2, ms[2].field, Decode(ms[2].field, ms[2].value).value)
  {
    assert SetAll(d, ms[..0]) == d;
    assert ms[..1][..0] == ms[..0];
    if |ms| > 1 {
      assert ms[..2][..1] == ms[..1];
    }
    assert ms[..|ms|] == ms;
  }

  lemma BundleShape(g: Gesture)
    requires Offered(g) && !OnItem(g)
    ensures 1 <= |Bundle(g)| <= 3
    ensures forall i :: 0 <= i < |Bundle(g)| ==>
              && Bundle(g)[i].entity.NoteEntity? && Bundle(g)[i].id == Some(g.id) && Bundle(g)[i].hlc == g.stamp
              && IsNoteField(Bundle(g)[i].field) && !Bundle(g)[i].field.Kind?
              && Decode(Bundle(g)[i].field, Bundle(g)[i].value).Ok?
    ensures forall i, j :: 0 <= i < j < |Bundle(g)| ==> Bundle(g)[i].field != Bundle(g)[j].field
  {
  }

  lemma NoteGestureWrites(t: Tables, g: Gesture)
    requires Offered(g) && Timely(t, g) && !OnItem(g)
    ensures NoteWrites(t, Bundle(g), g.id)
  {
    BundleShape(g);
    var ms := Bundle(g);
    forall i | 0 <= i < |ms| ensures Newest(t, NoteReg(g.id, ms[i].field), ms[i].hlc) {
      assert ms[i] in ms;
    }
  }

  lemma NoteGestureData(d: NoteData, g: Gesture)
    requires Offered(g) && !OnItem(g)
    ensures forall m :: m in Bundle(g) ==> IsNoteField(m.field) && Decode(m.field, m.value).Ok?
    ensures SetAll(d, Bundle(g)) == Patched(d, g) <==> !(g.EditNote? && d.trashedAt.Some?)
  {
    BundleShape(g);
    SetAllOfBundle(d, Bundle(g));
  }

  lemma PatchBecomes(v: View, g: Gesture)
    requires Offered(g) && !OnItem(g) && g.id in v
    ensures Becomes(Content(v), Content(ShownAfter(v, g)), g.id, Patched(v[g.id].data, g))
  {
  }

  /**
   What the client shows at once is what the server will list, exactly: after a timely gesture
   on a note, the optimistic view has the content of the server's list if and only if the
   gesture was not a content edit of a note in the trash (which the server revives).
   */
  lemma NoteGestureExact(t: Tables, g: Gesture)
    requires Consistent(t) && Offered(g) && Timely(t, g) && !OnItem(g)
    ensures ApplyLog(t, Bundle(g)).Ok?
    ensures Content(ShownAfter(Snapshot(t), g)) == Content(Snapshot(ApplyLog(t, Bundle(g)).value))
            <==> !(g.EditNote? && t.notes[g.id].data.trashedAt.Some?)
  {
    var v, d := Snapshot(t), t.notes[g.id].data;
    NoteGestureWrites(t, g);
    NoteGestureData(d, g);
    NewestWritesListed(t, Bundle(g), g.id);
    PatchBecomes(v, g);
    BecomesExact(Content(v), Content(ShownAfter(v, g)), Content(Snapshot(ApplyLog(t, Bundle(g)).value)), g.id,
                 Patched(d, g), SetAll(d, Bundle(g)));
  }

  /** What each gesture makes of a note, written out. */
  predicate Makes(g: Gesture, d: NoteData, e: NoteData) {
    match g
    case Pin(_, _) => e == d.(pinned := true, archived := false)
    case Unpin(_, _) => e == d.(pinned := false)
    case Archive(_, _, p) => e == d.(archived := true, pinned := false, archivePosition := p)
    case Unarchive(_, _) => e == d.(archived := false)
    case EditNote(_, _, Title, text) => e == d.(title := text, trashedAt := None)
    case EditNote(_, _, Body, text) => e == d.(body := text, trashedAt := None)
    case EditNote(_, _, Color, text) => e == d.(color := text, trashedAt := None)
    case Trash(_, _, at) => e == d.(trashedAt := Some(at))
    case Restore(_, _) => e == d.(trashedAt := None)
    case _ => false
  }

  lemma BundleMakes(d: NoteData, g: Gesture)
    requires Offered(g) && !OnItem(g)
    requires forall m :: m in Bundle(g) ==> IsNoteField(m.field) && Decode(m.field, m.value).Ok?
    ensures Makes(g, d, SetAll(d, Bundle(g)))
  {
    BundleShape(g);
    SetAllOfBundle(d, Bundle(g));
  }

  /** The outcome of a timely gesture on the server: what it makes of the note, and nothing else changes in the list. */
  lemma GestureOutcome(t: Tables, g: Gesture)
    requires Consistent(t) && Offered(g) && Timely(t, g) && !OnItem(g)
    ensures ApplyLog(t, Bundle(g)).Ok?
    ensures var t' := ApplyLog(t, Bundle(g)).value;
            && g.id in t'.notes && Makes(g, t.notes[g.id].data, t'.notes[g.id].data)
            && Becomes(Content(Snapshot(t)), Content(Snapshot(t')), g.id, t'.notes[g.id].data)
  {
    NoteGestureWrites(t, g);
    NewestWritesListed(t, Bundle(g), g.id);
    BundleMakes(t.notes[g.id].data, g);
  }

  // ---- the same for items ----

  /** Of all that is listed, only one item of one note changes, or goes. */
  ghost predicate ItemBecomes(c: map<RowId, NoteContent>, d: map<RowId, NoteContent>, n: RowId, x: RowId,
                              data: ItemData) {
    n in c && d == c[n := c[n].(items := ItemsAfter(c[n].items, x, data))]
  }

  lemma ItemBecomesTwice(b: map<RowId, NoteContent>, c: map<RowId, NoteContent>, d: map<RowId, NoteContent>,
                         n: RowId, x: RowId, data: ItemData, data': ItemData)
    requires ItemBecomes(b, c, n, x, data) && ItemBecomes(c, d, n, x, data')
    ensures ItemBecomes(b, d, n, x, data')
  {
    assert ItemsAfter(ItemsAfter(b[n].items, x, data), x, data') == ItemsAfter(b[n].items, x, data');
  }

  lemma ItemWriteListed(t: Tables, x: RowId, n: RowId, f: Field, j: Json, stamp: string)
    requires Consistent(t) && x in t.items && t.items[x].noteId == n && IsItemField(f) && Decode(f, j).Ok?
    requires Newest(t, ItemReg(x, f), stamp)
    ensures var r := ApplyOne(t, ItemMutation(x, n, f, j, stamp));
            && r.Ok? && x in r.value.items && r.value.items[x].noteId == n
            && r.value.items[x].data == SetItem(t.items[x].data, f, Decode(f, j).value)
            && ItemBecomes(Content(Snapshot(t)), Content(Snapshot(r.value)), n, x,
                           SetItem(t.items[x].data, f, Decode(f, j).value))
  {
    var row := t.items[x];
    NewestItemWrite(t, x, n, f, j, stamp);
    ContentOfPutItem(t, x, SetItem(row.data, f, Decode(f, j).value), row.clocks[f := stamp]);
  }

  lemma DropBecomes(v: View, n: RowId, x: RowId, data: ItemData)
    requires n in v && data.deleted
    ensures ItemBecomes(Content(v), Content(DropItem(v, n, x)), n, x, data)
  {
    var items := v[n].items - {x};
    assert (map y | y in items :: items[y].data) == Content(v)[n].items - {x};
  }

  lemma PatchItemBecomes(v: View, n: RowId, x: RowId, f: Field, value: Scalar)
    requires n in v && x in v[n].items && IsItemField(f) && Typed(f, value)
    requires !SetItem(v[n].items[x].data, f, value).deleted
    ensures ItemBecomes(Content(v), Content(PatchItem(v, n, x, f, value)), n, x, SetItem(v[n].items[x].data, f, value))
  {
    var data := SetItem(v[n].items[x].data, f, value);
    var items := v[n].items[x := v[n].items[x].(data := data)];
    assert (map y | y in items :: items[y].data) == Content(v)[n].items[x := data];
  }

  lemma ItemBecomesSame(b: map<RowId, NoteContent>, c: map<RowId, NoteContent>, d: map<RowId, NoteContent>, n: RowId,
                        x: RowId, data: ItemData)
    requires ItemBecomes(b, c, n, x, data) && ItemBecomes(b, d, n, x, data)
    ensures c == d
  {
  }

  /** Removing an item shows exactly what the server will list. */
  lemma RemovalExact(t: Tables, g: Gesture)
    requires Consistent(t) && g.RemoveItem? && Timely(t, g)
    ensures ApplyLog(t, Bundle(g)).Ok?
    ensures Content(ShownAfter(Snapshot(t), g)) == Content(Snapshot(ApplyLog(t, Bundle(g)).value))
  {
    var m := ItemMutation(g.item, g.noteId, Deleted, JBool(true), g.stamp);
    assert Bundle(g) == [m] && m in Bundle(g);
    LogOfOne(t, m);
    ItemWriteListed(t, g.item, g.noteId, Deleted, JBool(true), g.stamp);
    var t', gone := ApplyOne(t, m).value, t.items[g.item].data.(deleted := true);
    DropBecomes(Snapshot(t), g.noteId, g.item, gone);
    ItemBecomesSame(Content(Snapshot(t)), Content(ShownAfter(Snapshot(t), g)), Content(Snapshot(t')), g.noteId, g.item,
                    gone);
  }

  lemma WriteKeepsNewest(t: Tables, m: Mutation, q: Reg, stamp: string)
    requires Consistent(t) && ApplyOne(t, m).Ok? && !Targets(m, q) && Newest(t, q, stamp)
    ensures Consistent(ApplyOne(t, m).value) && Newest(ApplyOne(t, m).value, q, stamp)
  {
    LogOfOne(t, m);
    LogKeepsConsistent(t, [m]);
    ApplyOneIsRegisterWrite(t, m);
  }

  /** Clearing the deletion mark on top of a change to the item. */
  lemma RevivalListed(t: Tables, before: map<RowId, NoteContent>, x: RowId, n: RowId, stamp: string)
    requires Consistent(t) && x in t.items && t.items[x].noteId == n && Newest(t, ItemReg(x, Deleted), stamp)
    requires ItemBecomes(before, Content(Snapshot(t)), n, x, t.items[x].data)
    ensures var r := ApplyOne(t, ItemMutation(x, n, Deleted, JBool(false), stamp));
            r.Ok? && ItemBecomes(before, Content(Snapshot(r.value)), n, x, t.items[x].data.(deleted := false))
  {
    ItemWriteListed(t, x, n, Deleted, JBool(false), stamp);
    var t' := ApplyOne(t, ItemMutation(x, n, Deleted, JBool(false), stamp)).value;
    ItemBecomesTwice(before, Content(Snapshot(t)), Content(Snapshot(t')), n, x,
                     t.items[x].data, t.items[x].data.(deleted := false));
  }

  lemma ItemEditListed(t: Tables, x: RowId, n: RowId, f: Field, j: Json, stamp: string)
    requires Consistent(t) && x in t.items && t.items[x].noteId == n
    requires IsItemField(f) && !f.Deleted? && Decode(f, j).Ok?
    requires Newest(t, ItemReg(x, f), stamp) && Newest(t, ItemReg(x, Deleted), stamp)
    ensures var r := ApplyLog(t, [ItemMutation(x, n, f, j, stamp), ItemMutation(x, n, Deleted, JBool(false), stamp)]);
            && r.Ok?
            && ItemBecomes(Content(Snapshot(t)), Content(Snapshot(r.value)), n, x,
                           SetItem(t.items[x].data, f, Decode(f, j).value).(deleted := false))
  {
    var m0, m1 := ItemMutation(x, n, f, j, stamp), ItemMutation(x, n, Deleted, JBool(false), stamp);
    ItemWriteListed(t, x, n, f, j, stamp);
    WriteKeepsNewest(t, m0, ItemReg(x, Deleted), stamp);
    RevivalListed(ApplyOne(t, m0).value, Content(Snapshot(t)), x, n, stamp);
    LogOfTwo(t, m0, m1);
  }

  /** Editing an item shows exactly what the server will list if and only if it had not been deleted there. */
  lemma ItemEditExact(t: Tables, g: Gesture)
    requires Consistent(t) && g.EditItem? && Offered(g) && Timely(t, g)
    ensures ApplyLog(t, Bundle(g)).Ok?
    ensures Content(ShownAfter(Snapshot(t), g)) == Content(Snapshot(ApplyLog(t, Bundle(g)).value))
            <==> !t.items[g.item].data.deleted
  {
    var v, d, value := Snapshot(t), t.items[g.item].data, Decode(g.field, g.value).value;
    var ms := Bundle(g);
    assert ms[0] in ms && ms[1] in ms;
    ItemEditListed(t, g.item, g.noteId, g.field, g.value, g.stamp);
    if d.deleted {
      assert g.item !in v[g.noteId].items;
      assert g.item !in Content(v)[g.noteId].items;
    } else {
      assert v[g.noteId].items[g.item].data == d;
      PatchItemBecomes(v, g.noteId, g.item, g.field, value);
    }
  }

  // ---- the same for drags ----

  lemma KeyBecomes(v: View, id: RowId, f: Field, key: string)
    requires id in v && (f.Position? || f.ArchivePosition?)
    ensures Becomes(Content(v), Content(KeyShown(v, id, f, key)), id, SetNote(v[id].data, f, SText(key)))
  {
  }

  /** A dragged note is shown with the key, in the place, that the server will list. */
  lemma ReorderListed(t: Tables, id: RowId, f: Field, key: string, stamp: string)
    requires Consistent(t) && id in t.notes && (f.Position? || f.ArchivePosition?) && Newest(t, NoteReg(id, f), stamp)
    ensures var r := ApplyOne(t, NoteMutation(id, f, JString(key), stamp));
            && r.Ok? && Content(KeyShown(Snapshot(t), id, f, key)) == Content(Snapshot(r.value))
            && GetNote(r.value.notes[id].data, f) == SText(key)
  {
    var m := NoteMutation(id, f, JString(key), stamp);
    NewestWrite(t, id, m);
    KeyBecomes(Snapshot(t), id, f, key);
    var data := SetNote(t.notes[id].data, f, SText(key));
    BecomesExact(Content(Snapshot(t)), Content(KeyShown(Snapshot(t), id, f, key)),
                 Content(Snapshot(ApplyOne(t, m).value)), id, data, data);
  }

  /** And so is a dragged item. */
  lemma ReorderItemListed(t: Tables, n: RowId, x: RowId, key: string, stamp: string)
    requires Consistent(t) && x in t.items && t.items[x].noteId == n && !t.items[x].data.deleted
    requires Newest(t, ItemReg(x, Position), stamp)
    ensures var r := ApplyOne(t, ItemMutation(x, n, Position, JString(key), stamp));
            && r.Ok? && Content(PatchItem(Snapshot(t), n, x, Position, SText(key))) == Content(Snapshot(r.value))
            && r.value.items[x].data.position == key
  {
    ItemWriteListed(t, x, n, Position, JString(key), stamp);
    PatchItemBecomes(Snapshot(t), n, x, Position, SText(key));
    ItemBecomesSame(Content(Snapshot(t)), Content(PatchItem(Snapshot(t), n, x, Position, SText(key))),
                    Content(Snapshot(ApplyOne(t, ItemMutation(x, n, Position, JString(key), stamp)).value)), n, x,
                    t.items[x].data.(position := key));
  }
}
