/**
 What there is after a first write: the rows that the first mutation of an id creates, and the
 notes and items that the client adds, from the moment they are shown to the server's list.
 (server/internal/syncsvc/syncsvc.go, server/internal/audiosvc/audiosvc.go, web/src/lib/stores/notes.ts)
 */
module Creation {
  import opened Results
  import opened Models
  import opened SyncSpec
  import opened Merge
  import opened History
  import opened Gestures
  import opened Replica
  import opened Optimistic
  import FracIndex

  // ---- the row that a first mutation creates, column by column ----

  /** The position of a row that was created by another field than its position. */
  const FIRST_KEY: string := "U"

  lemma FirstKey()
    ensures FracIndex.Between("", "") == FIRST_KEY
  {
    assert FracIndex.Walk("", "") == "U";
  }

  /** The first accepted mutation of a note id: one column is as sent, the others are those of a plain, empty note. */
  lemma FirstNoteWrite(t: Tables, id: RowId, f: Field, j: Json, stamp: string)
    requires id !in t.notes && ApplyOne(t, NoteMutation(id, f, j, stamp)).Ok?
    ensures var t' := ApplyOne(t, NoteMutation(id, f, j, stamp)).value;
            && t' == t.(notes := t'.notes, counter := t.counter + 1) && t'.notes.Keys == t.notes.Keys + {id}
            && (forall k :: k in t.notes ==> t'.notes[k] == t.notes[k])
            && t'.notes[id].clocks == map[f := stamp] && t'.notes[id].serverSeq == t.counter + 1
    ensures var d := ApplyOne(t, NoteMutation(id, f, j, stamp)).value.notes[id].data;
            var v := Decode(f, j);
            && IsNoteField(f) && v.Ok?
            && match f
               case Kind => d == NoteData(v.value.text, "", "", "default", false, false, None, FIRST_KEY, "")
               case Title => d == NoteData("text", v.value.text, "", "default", false, false, None, FIRST_KEY, "")
               case Body => d == NoteData("text", "", v.value.text, "default", false, false, None, FIRST_KEY, "")
               case Color => d == NoteData("text", "", "", v.value.text, false, false, None, FIRST_KEY, "")
               case Pinned => d == NoteData("text", "", "", "default", v.value.flag, false, None, FIRST_KEY, "")
               case Archived => d == NoteData("text", "", "", "default", false, v.value.flag, None, FIRST_KEY, "")
               case TrashedAt => d == NoteData("text", "", "", "default", false, false, v.value.time, FIRST_KEY, "")
               case Position => d == NoteData("text", "", "", "default", false, false, None, v.value.text, "")
               case ArchivePosition =>
                 d == NoteData("text", "", "", "default", false, false, None, FIRST_KEY, v.value.text)
  {
    FirstKey();
  }

  /** The same for items: unchecked, not deleted, under the note that the mutation names. */
  lemma FirstItemWrite(t: Tables, x: RowId, n: RowId, f: Field, j: Json, stamp: string)
    requires x !in t.items && ApplyOne(t, ItemMutation(x, n, f, j, stamp)).Ok?
    ensures var t' := ApplyOne(t, ItemMutation(x, n, f, j, stamp)).value;
            && t' == t.(items := t'.items, counter := t.counter + 1) && t'.items.Keys == t.items.Keys + {x}
            && (forall y :: y in t.items ==> t'.items[y] == t.items[y])
            && t'.items[x].noteId == n && n in t.notes
            && t'.items[x].clocks == map[f := stamp] && t'.items[x].serverSeq == t.counter + 1
    ensures var d := ApplyOne(t, ItemMutation(x, n, f, j, stamp)).value.items[x].data;
            var v := Decode(f, j);
            && IsItemField(f) && v.Ok?
            && match f
               case Text => d == ItemData(v.value.text, false, false, FIRST_KEY)
               case Checked => d == ItemData("", v.value.flag, false, FIRST_KEY)
               case Deleted => d == ItemData("", false, v.value.flag, FIRST_KEY)
               case Position => d == ItemData("", false, false, v.value.text)
  {
    FirstKey();
  }

  // ---- a new note, as shown and as listed ----

  /** A note that was just added: shown at once, not yet known to the server. */
  function NoteShown(v: View, id: RowId, data: NoteData): View {
    v[id := ClientNote(data, 0, map[], {})]
  }

  lemma OthersListedAsBefore(t: Tables, id: RowId, data: NoteData, clocks: map<Field, string>, n: RowId)
    requires n in t.notes && n != id
    ensures ContentOf(ListedNote(PutNote(t, id, data, clocks), n)) == ContentOf(ListedNote(t, n))
  {
    var t' := PutNote(t, id, data, clocks);
    assert ItemsOf(t', n) == ItemsOf(t, n) && LabelIdsOf(t', n) == LabelIdsOf(t, n);
  }

  lemma NewNoteIsBare(t: Tables, id: RowId, data: NoteData, clocks: map<Field, string>)
    requires RefsIntact(t) && id !in t.notes
    ensures ContentOf(ListedNote(PutNote(t, id, data, clocks), id)) == NoteContent(data, map[], {})
  {
    var t' := PutNote(t, id, data, clocks);
    assert ItemsOf(t', id) == map[] && LabelIdsOf(t', id) == {};
  }

  lemma ListedNewNote(t: Tables, id: RowId, data: NoteData, clocks: map<Field, string>)
    requires RefsIntact(t) && id !in t.notes
    ensures Content(Snapshot(PutNote(t, id, data, clocks)))
            == Content(Snapshot(t))[id := NoteContent(data, map[], {})]
  {
    NewNoteIsBare(t, id, data, clocks);
    forall n | n in t.notes
      ensures ContentOf(ListedNote(PutNote(t, id, data, clocks), n)) == ContentOf(ListedNote(t, n))
    {
      OthersListedAsBefore(t, id, data, clocks, n);
    }
  }

  lemma ShownNewNote(v: View, id: RowId, data: NoteData)
    ensures Content(NoteShown(v, id, data)) == Content(v)[id := NoteContent(data, map[], {})]
  {
  }

  /** t1 is t with a new note, listed with data and nothing else. */
  ghost predicate NoteAdded(t: Tables, t1: Tables, id: RowId, data: NoteData) {
    && Consistent(t1) && id in t1.notes && t1.notes[id].data == data && t1.notes[id].clocks.Keys == {Kind}
    && Content(Snapshot(t1)) == Content(Snapshot(t))[id := NoteContent(data, map[], {})]
  }

  lemma KindCreates(t: Tables, id: RowId, kind: string, stamp: string)
    requires Consistent(t) && id !in t.notes && kind in {"text", "checklist"}
    ensures var r := ApplyLog(t, [NoteMutation(id, Kind, JString(kind), stamp)]);
            r.Ok? && NoteAdded(t, r.value, id, NoteData(kind, "", "", "default", false, false, None, FIRST_KEY, ""))
  {
    var m := NoteMutation(id, Kind, JString(kind), stamp);
    FirstNoteWrite(t, id, Kind, JString(kind), stamp);
    LogOfOne(t, m);
    LogKeepsConsistent(t, [m]);
    var row := ApplyOne(t, m).value.notes[id];
    ListedNewNote(t, id, row.data, row.clocks);
    assert ApplyOne(t, m).value == PutNote(t, id, row.data, row.clocks);
  }

  /** Writes to distinct columns of a note other than its kind. */
  predicate ColumnWrites(ms: seq<Mutation>, id: RowId) {
    && (forall i :: 0 <= i < |ms| ==> ms[i].entity.NoteEntity? && ms[i].id == Some(id) && IsNoteField(ms[i].field)
                                      && !ms[i].field.Kind? && Decode(ms[i].field, ms[i].value).Ok?)
    && (forall i, j :: 0 <= i < j < |ms| ==> ms[i].field != ms[j].field)
  }

  /** The edits that follow the first one all take effect, whatever their stamps. */
  lemma FollowUps(t: Tables, t1: Tables, id: RowId, data: NoteData, ms: seq<Mutation>)
    requires NoteAdded(t, t1, id, data) && ColumnWrites(ms, id)
    ensures ApplyLog(t1, ms).Ok?
    ensures Content(Snapshot(ApplyLog(t1, ms).value))
            == Content(Snapshot(t))[id := NoteContent(SetAll(data, ms), map[], {})]
  {
    NewestWritesListed(t1, ms, id);
  }

  /** A first edit of the kind, and edits of other columns. */
  lemma CreatedListed(t: Tables, id: RowId, kind: string, stamp: string, ms: seq<Mutation>)
    requires Consistent(t) && id !in t.notes && kind in {"text", "checklist"} && ColumnWrites(ms, id)
    ensures var r := ApplyLog(t, [NoteMutation(id, Kind, JString(kind), stamp)] + ms);
            var created := NoteData(kind, "", "", "default", false, false, None, FIRST_KEY, "");
            && r.Ok?
            && Content(Snapshot(r.value)) == Content(Snapshot(t))[id := NoteContent(SetAll(created, ms), map[], {})]
  {
    var first := [NoteMutation(id, Kind, JString(kind), stamp)];
    KindCreates(t, id, kind, stamp);
    FollowUps(t, ApplyLog(t, first).value, id,
              NoteData(kind, "", "", "default", false, false, None, FIRST_KEY, ""), ms);
    ApplyLogAppend(t, first, ms);
  }

  /** The edits that addTextNote queues. */
  function TextNoteEdits(id: RowId, title: string, body: string, key: string, stamps: seq<string>): seq<Mutation>
    requires |stamps| == 4
  {
    [NoteMutation(id, Kind, JString("text"), stamps[0]), NoteMutation(id, Title, JString(title), stamps[1]),
     NoteMutation(id, Body, JString(body), stamps[2]), NoteMutation(id, Position, JString(key), stamps[3])]
  }

  /** The edits that addChecklist queues. */
  function ChecklistEdits(id: RowId, title: string, key: string, stamps: seq<string>): seq<Mutation>
    requires |stamps| == 3
  {
    [NoteMutation(id, Kind, JString("checklist"), stamps[0]), NoteMutation(id, Title, JString(title), stamps[1]),
     NoteMutation(id, Position, JString(key), stamps[2])]
  }

  /**
   A new text note: its four edits, under whatever stamps, make the server list exactly the note
   that was shown at once - on the grid, in the default colour, neither pinned nor in the trash.
   */
  lemma NewTextNoteListed(t: Tables, id: RowId, title: string, body: string, key: string, stamps: seq<string>)
    requires Consistent(t) && id !in t.notes && |stamps| == 4
    ensures var r := ApplyLog(t, TextNoteEdits(id, title, body, key, stamps));
            var data := NoteData("text", title, body, "default", false, false, None, key, "");
            && r.Ok? && Content(Snapshot(r.value)) == Content(Snapshot(t))[id := NoteContent(data, map[], {})]
            && Content(Snapshot(r.value)) == Content(NoteShown(Snapshot(t), id, data))
  {
    var all := TextNoteEdits(id, title, body, key, stamps);
    CreatedListed(t, id, "text", stamps[0], all[1..]);
    SetAllOfBundle(NoteData("text", "", "", "default", false, false, None, FIRST_KEY, ""), all[1..]);
    assert all == [all[0]] + all[1..];
    ShownNewNote(Snapshot(t), id, NoteData("text", title, body, "default", false, false, None, key, ""));
  }

  /** The same for a new checklist and its three edits. */
  lemma NewChecklistListed(t: Tables, id: RowId, title: string, key: string, stamps: seq<string>)
    requires Consistent(t) && id !in t.notes && |stamps| == 3
    ensures var r := ApplyLog(t, ChecklistEdits(id, title, key, stamps));
            var data := NoteData("checklist", title, "", "default", false, false, None, key, "");
            && r.Ok? && Content(Snapshot(r.value)) == Content(Snapshot(t))[id := NoteContent(data, map[], {})]
            && Content(Snapshot(r.value)) == Content(NoteShown(Snapshot(t), id, data))
  {
    var all := ChecklistEdits(id, title, key, stamps);
    CreatedListed(t, id, "checklist", stamps[0], all[1..]);
    SetAllOfBundle(NoteData("checklist", "", "", "default", false, false, None, FIRST_KEY, ""), all[1..]);
    assert all == [all[0]] + all[1..];
    ShownNewNote(Snapshot(t), id, NoteData("checklist", title, "", "default", false, false, None, key, ""));
  }

  /** An uploaded audio note is listed as an audio note with nothing but a title and a position. */
  lemma AudioNoteListed(t: Tables, id: RowId, title: string, position: string)
    requires Consistent(t)
    ensures id !in t.notes ==>
              Content(Snapshot(Take(t, RecordAudio(id, title, position))))
              == Content(Snapshot(t))[id := NoteContent(NoteData("audio", title, "", "default", false, false, None,
                                                                 position, ""), map[], {})]
    ensures id in t.notes ==> Take(t, RecordAudio(id, title, position)) == t
  {
    if id !in t.notes {
      ListedNewNote(t, id, NoteData("audio", title, "", "default", false, false, None, position, ""), map[]);
    }
  }

  // ---- a new item ----

  /** An item that was just added: empty, unchecked, at the given key. */
  function ItemShown(v: View, n: RowId, x: RowId, key: string): View {
    if n in v
    then v[n := v[n].(items := v[n].items[x := ClientItem(ItemData("", false, false, key), 0)])]
    else v
  }

  lemma LabelsAsBefore(t: Tables, x: RowId, n: RowId, data: ItemData, clocks: map<Field, string>, m: RowId)
    ensures LabelIdsOf(PutItem(t, x, n, data, clocks), m) == LabelIdsOf(t, m)
  {
  }

  lemma ItemsWithNew(t: Tables, x: RowId, n: RowId, data: ItemData, clocks: map<Field, string>, m: RowId)
    requires x !in t.items && !data.deleted
    ensures ItemsOf(PutItem(t, x, n, data, clocks), m)
            == if m == n then ItemsOf(t, n)[x := ClientItem(data, t.counter + 1)] else ItemsOf(t, m)
  {
  }

  lemma NoteWithNewItem(t: Tables, x: RowId, n: RowId, data: ItemData, clocks: map<Field, string>, m: RowId)
    requires x !in t.items && m in t.notes && !data.deleted
    ensures var was := ContentOf(ListedNote(t, m));
            ContentOf(ListedNote(PutItem(t, x, n, data, clocks), m))
            == if m == n then was.(items := was.items[x := data]) else was
  {
    LabelsAsBefore(t, x, n, data, clocks, m);
    ItemsWithNew(t, x, n, data, clocks, m);
  }

  lemma UpdatedAt<K, V>(c: map<K, V>, d: map<K, V>, k: K, v: V)
    requires c.Keys == d.Keys && k in c && d[k] == v && forall l :: l in c && l != k ==> d[l] == c[l]
    ensures d == c[k := v]
  {
  }

  lemma ListedNewItem(t: Tables, x: RowId, n: RowId, data: ItemData, clocks: map<Field, string>)
    requires x !in t.items && n in t.notes && !data.deleted
    ensures var c := Content(Snapshot(t));
            Content(Snapshot(PutItem(t, x, n, data, clocks))) == c[n := c[n].(items := c[n].items[x := data])]
  {
    var c, d := Content(Snapshot(t)), Content(Snapshot(PutItem(t, x, n, data, clocks)));
    forall m | m in t.notes
      ensures m in c && m in d && d[m] == if m == n then c[m].(items := c[m].items[x := data]) else c[m]
    {
      NoteWithNewItem(t, x, n, data, clocks, m);
    }
    UpdatedAt(c, d, n, c[n].(items := c[n].items[x := data]));
  }

  lemma ShownNewItem(v: View, n: RowId, x: RowId, key: string)
    requires n in v
    ensures Content(ItemShown(v, n, x, key))
            == Content(v)[n := Content(v)[n].(items := Content(v)[n].items[x := ItemData("", false, false, key)])]
  {
    var items := v[n].items[x := ClientItem(ItemData("", false, false, key), 0)];
    assert (map y | y in items :: items[y].data) == Content(v)[n].items[x := ItemData("", false, false, key)];
  }

  function WithItem(c: map<RowId, NoteContent>, n: RowId, x: RowId, data: ItemData): map<RowId, NoteContent>
    requires n in c
  {
    c[n := c[n].(items := c[n].items[x := data])]
  }

  /** t1 is t with a new item of n, listed with data. */
  ghost predicate ItemAdded(t: Tables, t1: Tables, n: RowId, x: RowId, data: ItemData) {
    && Consistent(t1) && x in t1.items && t1.items[x].noteId == n && t1.items[x].data == data
    && n in Content(Snapshot(t))
    && WithItem(Content(Snapshot(t)), n, x, data) == Content(Snapshot(t1))
  }

  lemma TextCreates(t: Tables, x: RowId, n: RowId, stamp: string)
    requires Consistent(t) && x !in t.items && n in t.notes
    ensures var r := ApplyLog(t, [ItemMutation(x, n, Text, JString(""), stamp)]);
            && r.Ok? && ItemAdded(t, r.value, n, x, ItemData("", false, false, FIRST_KEY))
            && r.value.items[x].clocks.Keys == {Text}
  {
    var m := ItemMutation(x, n, Text, JString(""), stamp);
    FirstItemWrite(t, x, n, Text, JString(""), stamp);
    LogOfOne(t, m);
    LogKeepsConsistent(t, [m]);
    var row := ApplyOne(t, m).value.items[x];
    ListedNewItem(t, x, n, row.data, row.clocks);
    assert ApplyOne(t, m).value == PutItem(t, x, n, row.data, row.clocks);
  }

  lemma WithItemTwice(c: map<RowId, NoteContent>, d: map<RowId, NoteContent>, n: RowId, x: RowId, old': ItemData,
                      data: ItemData)
    requires n in c && ItemBecomes(WithItem(c, n, x, old'), d, n, x, data) && !data.deleted
    ensures d == WithItem(c, n, x, data)
  {
    assert c[n].items[x := old'][x := data] == c[n].items[x := data];
  }

  lemma KeyFollows(t: Tables, t1: Tables, n: RowId, x: RowId, key: string, stamp: string)
    requires ItemAdded(t, t1, n, x, ItemData("", false, false, FIRST_KEY)) && t1.items[x].clocks.Keys == {Text}
    ensures var r := ApplyOne(t1, ItemMutation(x, n, Position, JString(key), stamp));
            && r.Ok?
            && Content(Snapshot(r.value)) == WithItem(Content(Snapshot(t)), n, x, ItemData("", false, false, key))
  {
    ItemWriteListed(t1, x, n, Position, JString(key), stamp);
    var t2 := ApplyOne(t1, ItemMutation(x, n, Position, JString(key), stamp)).value;
    WithItemTwice(Content(Snapshot(t)), Content(Snapshot(t2)), n, x, t1.items[x].data, ItemData("", false, false, key));
  }

  /** A new item: its two edits, under whatever stamps, make the server list exactly what was shown at once. */
  lemma NewItemListed(t: Tables, n: RowId, x: RowId, key: string, s0: string, s1: string)
    requires Consistent(t) && x !in t.items && n in t.notes
    ensures var r := ApplyLog(t, [ItemMutation(x, n, Text, JString(""), s0),
                                  ItemMutation(x, n, Position, JString(key), s1)]);
            var c := Content(Snapshot(t));
            && r.Ok?
            && Content(Snapshot(r.value)) == c[n := c[n].(items := c[n].items[x := ItemData("", false, false, key)])]
            && Content(Snapshot(r.value)) == Content(ItemShown(Snapshot(t), n, x, key))
  {
    var m0, m1 := ItemMutation(x, n, Text, JString(""), s0), ItemMutation(x, n, Position, JString(key), s1);
    TextCreates(t, x, n, s0);
    LogOfOne(t, m0);
    KeyFollows(t, ApplyLog(t, [m0]).value, n, x, key, s1);
    LogOfTwo(t, m0, m1);
    ShownNewItem(Snapshot(t), n, x, key);
  }
}
