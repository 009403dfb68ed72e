/**
 The note store of the web client (web/src/lib/stores/notes.ts) as a class with the store's own
 variables: the local copy, the queue of edits, the cursor, the flush timer and the stamp issuer.
 Displayed lists are passed in by the caller, as the components do.
 */
module Client {
  import opened Results
  import opened Models
  import opened Gestures
  import opened Replica
  import opened Optimistic
  import opened Creation
  import opened History
  import Protocol
  import Hlc
  import FracIndex
  import Ordering
  import Seqs

  /** A mutation without its stamp. */
  datatype Draft = Draft(entity: Entity, id: Option<RowId>, noteId: Option<RowId>, labelId: Option<RowId>,
                         field: Field, value: Json)

  function Stamped(d: Draft, stamp: string): Mutation {
    Mutation(d.entity, d.id, d.noteId, d.labelId, d.field, d.value, stamp)
  }

  function StampedAll(drafts: seq<Draft>, stamp: string): (ms: seq<Mutation>)
    ensures |ms| == |drafts|
  {
    seq(|drafts|, i requires 0 <= i < |drafts| => Stamped(drafts[i], stamp))
  }

  function NoteDraft(id: RowId, f: Field, value: Json): Draft {
    Draft(NoteEntity, Some(id), None, None, f, value)
  }

  function ItemDraft(x: RowId, noteId: RowId, f: Field, value: Json): Draft {
    Draft(ItemEntity, Some(x), Some(noteId), None, f, value)
  }

  lemma FlattenLast(gs: seq<Gesture>, g: Gesture, gs': seq<Gesture>)
    requires gs' == gs + [g]
    ensures Flatten(gs') == Flatten(gs) + Bundle(g)
  {
    assert gs'[..|gs|] == gs;
  }

  lemma FlattenStep(before: seq<Mutation>, gs: seq<Gesture>, hs: seq<Gesture>, g: Gesture, gs': seq<Gesture>,
                    hs': seq<Gesture>)
    requires Flatten(gs) == before + Flatten(hs) && gs' == gs + [g] && hs' == hs + [g]
    ensures Flatten(gs') == before + Flatten(hs')
  {
    FlattenLast(gs, g, gs');
    FlattenLast(hs, g, hs');
    Seqs.Associates(before, Flatten(hs), Bundle(g));
  }

  /** Whole bundles appended to whole bundles. */
  lemma FlattenAppend(a: seq<Gesture>, b: seq<Gesture>)
    ensures Flatten(a + b) == Flatten(a) + Flatten(b)
  {
    var gs, hs, i := a, [], 0;
    while i < |b|
      invariant i <= |b| && hs == b[..i] && gs == a + hs
      invariant Flatten(gs) == Flatten(a) + Flatten(hs)
    {
      var gs', hs' := gs + [b[i]], hs + [b[i]];
      FlattenStep(Flatten(a), gs, hs, b[i], gs', hs');
      Seqs.PrefixGrows(b, i);
      Seqs.Associates(a, hs, [b[i]]);
      gs, hs, i := gs', hs', i + 1;
    }
    assert hs == b;
  }

  // ---- the remaining edits are edits the protocol allows ----

  lemma ReorderChangesOnly(owner: RowId -> RowId, v: View, id: RowId, f: Field, key: string, stamp: string)
    requires f.Position? || f.ArchivePosition?
    ensures var ms := [NoteMutation(id, f, JString(key), stamp)];
            Protocol.ChangesOnly(owner, v, KeyShown(v, id, f, key), ms) && Protocol.AllOwned(owner, ms)
  {
    var ms := [NoteMutation(id, f, JString(key), stamp)];
    assert Addresses(ms[0], NoteRef(id)) && Protocol.Touched(ms, NoteRef(id));
  }

  lemma ReorderItemChangesOnly(owner: RowId -> RowId, v: View, n: RowId, x: RowId, key: string, stamp: string)
    requires owner(x) == n
    ensures var ms := [ItemMutation(x, n, Position, JString(key), stamp)];
            && Protocol.ChangesOnly(owner, v, PatchItem(v, n, x, Position, SText(key)), ms)
            && Protocol.AllOwned(owner, ms)
  {
    var ms := [ItemMutation(x, n, Position, JString(key), stamp)];
    assert Addresses(ms[0], ItemRef(x)) && Protocol.Touched(ms, ItemRef(x));
  }

  lemma InsertItemChangesOnly(owner: RowId -> RowId, v: View, n: RowId, x: RowId, key: string, s: string, s': string)
    requires owner(x) == n
    ensures var ms := [ItemMutation(x, n, Text, JString(""), s), ItemMutation(x, n, Position, JString(key), s')];
            Protocol.ChangesOnly(owner, v, ItemShown(v, n, x, key), ms) && Protocol.AllOwned(owner, ms)
  {
    var ms := [ItemMutation(x, n, Text, JString(""), s), ItemMutation(x, n, Position, JString(key), s')];
    assert Addresses(ms[0], ItemRef(x)) && Protocol.Touched(ms, ItemRef(x));
  }

  /** A new note, whatever the edits that queue it, as long as they address it. */
  lemma NewNoteChangesOnly(owner: RowId -> RowId, v: View, id: RowId, data: NoteData, ms: seq<Mutation>)
    requires id !in v && ms != []
    requires forall m :: m in ms ==> m.entity.NoteEntity? && m.id == Some(id) && IsNoteField(m.field)
    ensures Protocol.ChangesOnly(owner, v, NoteShown(v, id, data), ms) && Protocol.AllOwned(owner, ms)
  {
    assert ms[0] in ms && Addresses(ms[0], NoteRef(id)) && Protocol.Touched(ms, NoteRef(id));
  }

  ghost predicate Holds(list: seq<Ordering.Entry<RowId>>, id: RowId) {
    exists e :: e in list && e.id == id
  }

  /** index is the first place of id in the list, or -1. */
  ghost predicate IsFirstAt(list: seq<Ordering.Entry<RowId>>, id: RowId, index: int) {
    && -1 <= index < |list| && (index >= 0 ==> list[index].id == id)
    && forall i :: 0 <= i < (if index >= 0 then index else |list|) ==> list[i].id != id
  }

  method FindIndex(list: seq<Ordering.Entry<RowId>>, id: RowId) returns (index: int)
    ensures IsFirstAt(list, id, index)
  {
    index := 0;
    while index < |list|
      invariant 0 <= index <= |list|
      invariant forall i :: 0 <= i < index ==> list[i].id != id
    {
      if list[index].id == id {
        return;
      }
      index := index + 1;
    }
    index := -1;
  }

  /** Looks an entry up and lists the others. */
  method TakeOut(list: seq<Ordering.Entry<RowId>>, id: RowId) returns (found: bool, rest: seq<Ordering.Entry<RowId>>)
    ensures found <==> Holds(list, id)
    ensures rest == Ordering.Without(list, id)
  {
    found, rest := false, [];
    var i := 0;
    while i < |list|
      invariant 0 <= i <= |list|
      invariant found <==> Holds(list[..i], id)
      invariant rest == Ordering.Without(list[..i], id)
    {
      assert list[..i + 1][..i] == list[..i];
      if list[i].id == id {
        found := true;
        assert list[i] in list[..i + 1];
      } else {
        rest := rest + [list[i]];
      }
      i := i + 1;
    }
    assert list[..|list|] == list;
  }

  /** The key between the neighbours of a place in a list. */
  method KeyBetweenNeighbours(desc: bool, list: seq<Ordering.Entry<RowId>>, index: nat) returns (key: string)
    requires Ordering.AlphabetKeys(list) && index <= |list|
    ensures key == Ordering.DropKey(desc, list, index)
  {
    var before := if index >= 1 then list[index - 1].key else "";
    var after := if index < |list| then list[index].key else "";
    assert before == Ordering.KeyAt(list, index - 1) && after == Ordering.KeyAt(list, index);
    if desc {
      key := FracIndex.KeyBetween(after, before);
    } else {
      key := FracIndex.KeyBetween(before, after);
    }
  }

  /** The new key of a dragged entry, if it is in the list. */
  method KeyForDrop(desc: bool, list: seq<Ordering.Entry<RowId>>, dragged: RowId, target: int)
    returns (found: bool, key: string)
    requires Ordering.AlphabetKeys(list)
    ensures found <==> Holds(list, dragged)
    ensures found ==> var rest := Ordering.Without(list, dragged);
                      var index := if target < 0 then 0 else if target > |rest| then |rest| else target;
                      key == Ordering.DropKey(desc, rest, index)
  {
    var rest;
    found, rest := TakeOut(list, dragged);
    key := "";
    if found {
      key := KeyBetweenNeighbours(desc, rest, Ordering.Clamp(target, |rest|));
    }
  }

  method ReconcileNotes(v: View, ns: seq<NoteWire>) returns (byId: View)
    ensures byId == MergeNotes(v, ns)
  {
    byId := v;
    var i := 0;
    while i < |ns|
      invariant 0 <= i <= |ns|
      invariant byId == MergeNotes(v, ns[..i])
    {
      var n := ns[i];
      var items, labelIds := map[], {};
      if n.id in byId {
        items, labelIds := byId[n.id].items, byId[n.id].labelIds;
      }
      byId := byId[n.id := ClientNote(n.data, n.serverSeq, items, labelIds)];
      assert ns[..i + 1][..i] == ns[..i];
      i := i + 1;
    }
    assert ns[..|ns|] == ns;
  }

  method ReconcileItems(v: View, xs: seq<ItemWire>) returns (byId: View)
    ensures byId == MergeItems(v, xs)
  {
    byId := v;
    var i := 0;
    while i < |xs|
      invariant 0 <= i <= |xs|
      invariant byId == MergeItems(v, xs[..i])
    {
      var it := xs[i];
      assert xs[..i + 1][..i] == xs[..i];
      i := i + 1;
      if it.noteId in byId {
        var items := byId[it.noteId].items - {it.id};
        if !it.data.deleted {
          items := items[it.id := ClientItem(it.data, it.serverSeq)];
        }
        byId := byId[it.noteId := byId[it.noteId].(items := items)];
      }
    }
    assert xs[..|xs|] == xs;
  }

  method ReconcileLabels(v: View, ls: seq<LabelWire>) returns (byId: View)
    ensures byId == MergeLabels(v, ls)
  {
    byId := v;
    var i := 0;
    while i < |ls|
      invariant 0 <= i <= |ls|
      invariant byId == MergeLabels(v, ls[..i])
    {
      var nl := ls[i];
      assert ls[..i + 1][..i] == ls[..i];
      i := i + 1;
      if nl.noteId in byId {
        var labelIds := byId[nl.noteId].labelIds - {nl.labelId};
        if nl.attached {
          labelIds := labelIds + {nl.labelId};
        }
        byId := byId[nl.noteId := byId[nl.noteId].(labelIds := labelIds)];
      }
    }
    assert ls[..|ls|] == ls;
  }

  lemma MaxSeqStep(v: View, todo: set<RowId>, n: RowId, before: nat, s: nat)
    requires n in todo && todo <= v.Keys && IsMaxSeq(v - todo, before)
    requires s >= before && s >= v[n].serverSeq && forall x :: x in v[n].items ==> v[n].items[x].serverSeq <= s
    requires s == before || s == v[n].serverSeq || exists x :: x in v[n].items && v[n].items[x].serverSeq == s
    ensures IsMaxSeq(v - (todo - {n}), s)
  {
    var old', new' := v - todo, v - (todo - {n});
    assert forall m :: m in new' <==> m == n || m in old';
    assert n in new' && new'[n] == v[n];
    if s == before && s > 0 {
      var m :| m in old' && (old'[m].serverSeq == s || exists x :: x in old'[m].items && old'[m].items[x].serverSeq == s);
      assert m in new';
    }
  }

  /** The greatest sequence number of the listed notes and their items. */
  method MaxSeq(fetched: View) returns (maxSeq: nat)
    ensures IsMaxSeq(fetched, maxSeq)
  {
    maxSeq := 0;
    var todo := fetched.Keys;
    while todo != {}
      invariant todo <= fetched.Keys
      invariant IsMaxSeq(fetched - todo, maxSeq)
      decreases |todo|
    {
      var n :| n in todo;
      var before := maxSeq;
      var items := fetched[n].items;
      if fetched[n].serverSeq > maxSeq {
        maxSeq := fetched[n].serverSeq;
      }
      var left := items.Keys;
      while left != {}
        invariant left <= items.Keys
        invariant maxSeq >= before && maxSeq >= fetched[n].serverSeq
        invariant forall x :: x in items && x !in left ==> items[x].serverSeq <= maxSeq
        invariant maxSeq == before || maxSeq == fetched[n].serverSeq
                  || exists x :: x in items && items[x].serverSeq == maxSeq
        decreases |left|
      {
        var x :| x in left;
        if items[x].serverSeq > maxSeq {
          maxSeq := items[x].serverSeq;
        }
        left := left - {x};
      }
      MaxSeqStep(fetched, todo, n, before, maxSeq);
      todo := todo - {n};
    }
    assert fetched - {} == fetched;
  }

  lemma PinsAppend(gs: seq<Gesture>, g: Gesture)
    requires PinsInBundles(gs) && PinsInBundles([g])
    ensures PinsInBundles(gs + [g])
  {
    assert [g][0] == g;
  }

  class Store {
    const deviceId: string
    const clock: Hlc.Issuer
    var notes: View
    var lastSyncedSeq: nat
    var pending: seq<Mutation>
    var flushTimer: bool
    var loadError: Option<string>
    /** The gestures whose bundles are pending. */
    ghost var gestures: seq<Gesture>

    /** The queue consists of whole bundles. */
    ghost predicate Valid()
      reads this
    {
      pending == Flatten(gestures) && PinsInBundles(gestures)
    }

    constructor (deviceId: string)
      ensures Valid() && fresh(clock)
      ensures notes == map[] && lastSyncedSeq == 0 && pending == [] && !flushTimer && gestures == []
      ensures loadError == None
    {
      this.deviceId := deviceId;
      clock := new Hlc.Issuer();
      notes, lastSyncedSeq, pending, flushTimer, loadError := map[], 0, [], false, None;
      gestures := [];
    }

    // ---- load ----

    /** The list replaces the copy and sets the cursor; a fetch that fails changes neither. */
    method Load(response: Result<View, string>)
      modifies this`notes, this`lastSyncedSeq, this`loadError
      ensures response.Ok? ==> notes == response.value && IsMaxSeq(notes, lastSyncedSeq) && loadError == None
      ensures response.Err? ==> notes == old(notes) && lastSyncedSeq == old(lastSyncedSeq)
      ensures response.Err? ==> loadError == Some(response.error)
    {
      if response.Err? {
        loadError := Some(response.error);
        return;
      }
      lastSyncedSeq := MaxSeq(response.value);
      notes := response.value;
      loadError := None;
    }

    // ---- queueing ----

    method Queue(m: Mutation)
      modifies this`pending, this`flushTimer
      ensures pending == old(pending) + [m] && flushTimer
    {
      pending := pending + [m];
      flushTimer := true;
    }

    /** All mutations of a bundle get the same, newest stamp. */
    method QueueBundle(drafts: seq<Draft>, now: int) returns (stamp: string)
      requires drafts != []
      modifies this`pending, this`flushTimer, clock
      ensures clock.last == Hlc.Next(old(clock.last), deviceId, now) && stamp == Hlc.Encode(clock.last)
      ensures pending == old(pending) + StampedAll(drafts, stamp) && flushTimer
    {
      stamp := clock.Issue(deviceId, now);
      var i := 0;
      while i < |drafts|
        invariant 0 <= i <= |drafts|
        invariant pending == old(pending) + StampedAll(drafts[..i], stamp)
        invariant i > 0 ==> flushTimer
        invariant clock.last == Hlc.Next(old(clock.last), deviceId, now) && stamp == Hlc.Encode(clock.last)
      {
        Queue(Stamped(drafts[i], stamp));
        assert StampedAll(drafts[..i + 1], stamp) == StampedAll(drafts[..i], stamp) + [Stamped(drafts[i], stamp)];
        i := i + 1;
      }
      assert drafts[..|drafts|] == drafts;
    }

    /** The gesture g was queued whole under the next stamp. */
    twostate predicate Queued(g: Gesture, now: int)
      reads this, clock
    {
      && clock.last == Hlc.Next(old(clock.last), deviceId, now)
      && gestures == old(gestures) + [g] && pending == old(pending) + Bundle(g)
      && flushTimer && lastSyncedSeq == old(lastSyncedSeq) && loadError == old(loadError)
    }

    twostate predicate Untouched()
      reads this, clock
    {
      && notes == old(notes) && pending == old(pending) && gestures == old(gestures)
      && flushTimer == old(flushTimer) && lastSyncedSeq == old(lastSyncedSeq) && clock.last == old(clock.last)
      && loadError == old(loadError)
    }

    /** Queues a gesture's bundle; g is the gesture the drafts make under any stamp. */
    method Perform(drafts: seq<Draft>, now: int, ghost g: string -> Gesture)
      requires Valid() && drafts != []
      requires forall s :: StampedAll(drafts, s) == Bundle(g(s)) && PinsInBundles([g(s)])
      modifies this`pending, this`flushTimer, this`gestures, clock
      ensures Valid() && Queued(g(Hlc.Encode(clock.last)), now)
    {
      var stamp := QueueBundle(drafts, now);
      gestures := gestures + [g(stamp)];
      FlattenLast(old(gestures), g(stamp), gestures);
      assert PinsInBundles([g(stamp)]);
      PinsAppend(old(gestures), g(stamp));
    }

    /** A single edit outside the bundles. */
    method PerformOne(d: Draft, now: int)
      requires Valid() && LeavesPins(Stamped(d, ""))
      modifies this`pending, this`flushTimer, this`gestures, clock
      ensures Valid() && Queued(Plain(Stamped(d, Hlc.Encode(clock.last))), now)
    {
      forall s ensures StampedAll([d], s) == Bundle(Plain(Stamped(d, s))) {
      }
      Perform([d], now, s => Plain(Stamped(d, s)));
    }

    // ---- gestures ----

    method PatchNote(id: RowId, patch: NoteData -> NoteData)
      modifies this`notes
      ensures notes == if id in old(notes)
                       then old(notes)[id := old(notes)[id].(data := patch(old(notes)[id].data))] else old(notes)
    {
      if id in notes {
        notes := notes[id := notes[id].(data := patch(notes[id].data))];
      }
    }

    method SetNoteField(id: RowId, f: Field, text: string, now: int)
      requires Valid() && IsContent(f)
      modifies this, clock
      ensures Valid()
      ensures var g := EditNote(id, Hlc.Encode(clock.last), f, text);
              Queued(g, now) && notes == ShownAfter(old(notes), g)
    {
      PatchNote(id, (d: NoteData) => if f.Title? then d.(title := text) else if f.Body? then d.(body := text)
                                     else d.(color := text));
      Perform([NoteDraft(id, f, JString(text)), NoteDraft(id, TrashedAt, JNull)], now, s => EditNote(id, s, f, text));
    }

    method TogglePinned(id: RowId, pinned: bool, now: int)
      requires Valid()
      modifies this, clock
      ensures Valid()
      ensures var s := Hlc.Encode(clock.last);
              var g := if pinned then Unpin(id, s) else Pin(id, s);
              Queued(g, now) && notes == ShownAfter(old(notes), g)
    {
      if pinned {
        PatchNote(id, (d: NoteData) => d.(pinned := false));
        Perform([NoteDraft(id, Pinned, JBool(false))], now, s => Unpin(id, s));
      } else {
        PatchNote(id, (d: NoteData) => d.(pinned := true, archived := false));
        Perform([NoteDraft(id, Pinned, JBool(true)), NoteDraft(id, Archived, JBool(false))], now, s => Pin(id, s));
      }
    }

    method ArchiveAt(id: RowId, p: string, now: int)
      requires Valid()
      modifies this, clock
      ensures Valid()
      ensures var g := Archive(id, Hlc.Encode(clock.last), p); Queued(g, now) && notes == ShownAfter(old(notes), g)
    {
      PatchNote(id, (d: NoteData) => d.(archived := true, pinned := false, archivePosition := p));
      Perform([NoteDraft(id, Archived, JBool(true)), NoteDraft(id, Pinned, JBool(false)),
               NoteDraft(id, ArchivePosition, JString(p))], now, s => Archive(id, s, p));
    }

    /** A note that is archived goes to the top of the archive. */
    method ToggleArchived(id: RowId, archived: bool, archive: seq<Ordering.Entry<RowId>>, now: int)
      requires Valid() && Ordering.AlphabetKeys(archive)
      modifies this, clock
      ensures Valid()
      ensures var s := Hlc.Encode(clock.last);
              var g := if archived then Unarchive(id, s) else Archive(id, s, Ordering.DropKey(true, archive, 0));
              Queued(g, now) && notes == ShownAfter(old(notes), g)
    {
      if archived {
        PatchNote(id, (d: NoteData) => d.(archived := false));
        Perform([NoteDraft(id, Archived, JBool(false))], now, s => Unarchive(id, s));
      } else {
        var top := if archive == [] then "" else archive[0].key;
        var p := FracIndex.KeyBetween(top, "");
        ArchiveAt(id, p, now);
      }
    }

    method TrashNote(id: RowId, now: int)
      requires Valid()
      modifies this, clock
      ensures Valid()
      ensures var g := Trash(id, Hlc.Encode(clock.last), now); Queued(g, now) && notes == ShownAfter(old(notes), g)
    {
      PatchNote(id, (d: NoteData) => d.(trashedAt := Some(now)));
      Perform([NoteDraft(id, TrashedAt, JInt(now))], now, s => Trash(id, s, now));
    }

    method RestoreNote(id: RowId, now: int)
      requires Valid()
      modifies this, clock
      ensures Valid()
      ensures var g := Restore(id, Hlc.Encode(clock.last)); Queued(g, now) && notes == ShownAfter(old(notes), g)
    {
      PatchNote(id, (d: NoteData) => d.(trashedAt := None));
      Perform([NoteDraft(id, TrashedAt, JNull)], now, s => Restore(id, s));
    }

    method SetItemField(n: RowId, x: RowId, f: Field, value: Json, now: int)
      requires Valid() && Offered(EditItem(x, n, "", f, value))
      modifies this, clock
      ensures Valid()
      ensures var g := EditItem(x, n, Hlc.Encode(clock.last), f, value);
              Queued(g, now) && notes == ShownAfter(old(notes), g)
    {
      if n in notes && x in notes[n].items {
        var item := notes[n].items[x];
        var data := if f.Text? then item.data.(text := value.s) else item.data.(checked := value.b);
        notes := notes[n := notes[n].(items := notes[n].items[x := item.(data := data)])];
      }
      Perform([ItemDraft(x, n, f, value), ItemDraft(x, n, Deleted, JBool(false))], now,
              s => EditItem(x, n, s, f, value));
    }

    method RemoveItem(n: RowId, x: RowId, now: int)
      requires Valid()
      modifies this, clock
      ensures Valid()
      ensures var g := Gesture.RemoveItem(x, n, Hlc.Encode(clock.last));
              Queued(g, now) && notes == ShownAfter(old(notes), g)
    {
      if n in notes {
        notes := notes[n := notes[n].(items := notes[n].items - {x})];
      }
      Perform([ItemDraft(x, n, Deleted, JBool(true))], now, s => Gesture.RemoveItem(x, n, s));
    }

    // ---- new notes ----

    /** The edits up to i are queued after what was pending before, the clock having read the times up to i. */
    ghost predicate QueuedSoFar(start: Hlc.Clock, before: seq<Mutation>, edits: seq<Mutation>, times: seq<int>, i: nat)
      requires |edits| == |times| && i <= |times|
      reads this, clock
    {
      Valid() && clock.last == Hlc.After(start, deviceId, times[..i]) && pending == before + edits[..i]
    }

    /** One of several edits in a row, each under its own stamp: the one of reading i. */
    method MutateNote(id: RowId, f: Field, value: Json, times: seq<int>, i: nat,
                      ghost start: Hlc.Clock, ghost before: seq<Mutation>, ghost edits: seq<Mutation>,
                      ghost stamps: seq<string>)
      requires stamps == Hlc.Stamps(start, deviceId, times)
      requires i < |times| == |edits| && QueuedSoFar(start, before, edits, times, i) && !f.Pinned? && !f.Archived?
      requires edits[i] == NoteMutation(id, f, value, stamps[i])
      modifies this`pending, this`flushTimer, this`gestures, clock
      ensures QueuedSoFar(start, before, edits, times, i + 1) && flushTimer
    {
      PerformOne(NoteDraft(id, f, value), times[i]);
      assert times[..i + 1][..i] == times[..i];
      Seqs.PrefixGrows(edits, i);
      Seqs.Associates(before, edits[..i], [edits[i]]);
    }

    /** Both kinds of new notes begin with their kind and title. */
    method MutateKindAndTitle(id: RowId, kind: string, title: string, times: seq<int>,
                              ghost start: Hlc.Clock, ghost before: seq<Mutation>, ghost edits: seq<Mutation>,
                              ghost stamps: seq<string>)
      requires stamps == Hlc.Stamps(start, deviceId, times)
      requires 2 <= |times| == |edits| && QueuedSoFar(start, before, edits, times, 0)
      requires edits[0] == NoteMutation(id, Kind, JString(kind), stamps[0])
      requires edits[1] == NoteMutation(id, Title, JString(title), stamps[1])
      modifies this`pending, this`flushTimer, this`gestures, clock
      ensures QueuedSoFar(start, before, edits, times, 2) && flushTimer
    {
      MutateNote(id, Kind, JString(kind), times, 0, start, before, edits, stamps);
      MutateNote(id, Title, JString(title), times, 1, start, before, edits, stamps);
    }

    /** The queue grew by the edits; the stamps follow the readings. */
    twostate predicate Added(edits: seq<Mutation>, times: seq<int>)
      reads this, clock
    {
      && pending == old(pending) + edits && flushTimer && clock.last == Hlc.After(old(clock.last), deviceId, times)
      && lastSyncedSeq == old(lastSyncedSeq) && loadError == old(loadError)
    }

    /** The new note is shown at once. */
    method ShowNote(id: RowId, data: NoteData)
      modifies this`notes
      ensures notes == NoteShown(old(notes), id, data)
    {
      notes := notes[id := ClientNote(data, 0, map[], {})];
    }

    method MutateTextNote(id: RowId, title: string, body: string, key: string, times: seq<int>,
                          ghost edits: seq<Mutation>, ghost stamps: seq<string>)
      requires stamps == Hlc.Stamps(clock.last, deviceId, times)
      requires Valid() && |times| == 4
      requires |edits| == 4 && edits[0] == NoteMutation(id, Kind, JString("text"), stamps[0])
      requires edits[1] == NoteMutation(id, Title, JString(title), stamps[1])
      requires edits[2] == NoteMutation(id, Body, JString(body), stamps[2])
      requires edits[3] == NoteMutation(id, Position, JString(key), stamps[3])
      modifies this`pending, this`flushTimer, this`gestures, clock
      ensures Valid()
      ensures Added(edits, times)
    {
      ghost var start, before := clock.last, pending;
      MutateKindAndTitle(id, "text", title, times, start, before, edits, stamps);
      MutateNote(id, Body, JString(body), times, 2, start, before, edits, stamps);
      MutateNote(id, Position, JString(key), times, 3, start, before, edits, stamps);
      assert times[..4] == times && edits[..4] == edits;
    }

    /** A new text note, at the top of the main list: shown at once, and queued as four edits. */
    method AddTextNote(id: RowId, title: string, body: string, main: seq<Ordering.Entry<RowId>>, times: seq<int>)
      requires Valid() && id !in notes && Ordering.AlphabetKeys(main) && |times| == 4
      modifies this, clock
      ensures Valid()
      ensures var key := Ordering.DropKey(true, main, 0);
              var data := NoteData("text", title, body, "default", false, false, None, key, "");
              && notes == NoteShown(old(notes), id, data)
              && Added(TextNoteEdits(id, title, body, key, Hlc.Stamps(old(clock.last), deviceId, times)), times)
    {
      var key := KeyBetweenNeighbours(true, main, 0);
      ShowNote(id, NoteData("text", title, body, "default", false, false, None, key, ""));
      ghost var stamps := Hlc.Stamps(clock.last, deviceId, times);
      MutateTextNote(id, title, body, key, times, TextNoteEdits(id, title, body, key, stamps), stamps);
    }

    method MutateChecklist(id: RowId, title: string, key: string, times: seq<int>,
                           ghost edits: seq<Mutation>, ghost stamps: seq<string>)
      requires stamps == Hlc.Stamps(clock.last, deviceId, times)
      requires Valid() && |times| == 3
      requires edits == ChecklistEdits(id, title, key, stamps)
      modifies this`pending, this`flushTimer, this`gestures, clock
      ensures Valid()
      ensures Added(edits, times)
    {
      ghost var start, before := clock.last, pending;
      MutateKindAndTitle(id, "checklist", title, times, start, before, edits, stamps);
      MutateNote(id, Position, JString(key), times, 2, start, before, edits, stamps);
      assert times[..3] == times && edits[..3] == edits;
    }

    /** A new checklist, without items yet. */
    method AddChecklist(id: RowId, title: string, main: seq<Ordering.Entry<RowId>>, times: seq<int>)
      requires Valid() && id !in notes && Ordering.AlphabetKeys(main) && |times| == 3
      modifies this, clock
      ensures Valid()
      ensures var key := Ordering.DropKey(true, main, 0);
              var data := NoteData("checklist", title, "", "default", false, false, None, key, "");
              && notes == NoteShown(old(notes), id, data)
              && Added(ChecklistEdits(id, title, key, Hlc.Stamps(old(clock.last), deviceId, times)), times)
    {
      var key := KeyBetweenNeighbours(true, main, 0);
      ShowNote(id, NoteData("checklist", title, "", "default", false, false, None, key, ""));
      ghost var stamps := Hlc.Stamps(clock.last, deviceId, times);
      MutateChecklist(id, title, key, times, ChecklistEdits(id, title, key, stamps), stamps);
    }

    // ---- manual order ----

    /** A drop on a note list, which is sorted downwards: the dragged note gets the key of its new place. */
    method Reorder(list: seq<Ordering.Entry<RowId>>, dragged: RowId, target: int, f: Field, now: int)
      requires Valid() && Ordering.AlphabetKeys(list) && (f.Position? || f.ArchivePosition?)
      modifies this, clock
      ensures Valid()
      ensures !Holds(list, dragged) ==> Untouched()
      ensures Holds(list, dragged) ==>
                var rest := Ordering.Without(list, dragged);
                var index := if target < 0 then 0 else if target > |rest| then |rest| else target;
                var key := Ordering.DropKey(true, rest, index);
                && Queued(Plain(NoteMutation(dragged, f, JString(key), Hlc.Encode(clock.last))), now)
                && notes == KeyShown(old(notes), dragged, f, key)
    {
      var found, key := KeyForDrop(true, list, dragged, target);
      if !found {
        return;
      }
      PatchNote(dragged, (d: NoteData) => if f.Position? then d.(position := key) else d.(archivePosition := key));
      PerformOne(NoteDraft(dragged, f, JString(key)), now);
    }

    method PatchItemKey(n: RowId, x: RowId, key: string)
      modifies this`notes
      ensures notes == PatchItem(old(notes), n, x, Position, SText(key))
    {
      if n in notes && x in notes[n].items {
        var item := notes[n].items[x];
        notes := notes[n := notes[n].(items := notes[n].items[x := item.(data := item.data.(position := key))])];
      }
    }

    /** A drop on a list of items, which is sorted upwards. */
    method ReorderItem(n: RowId, list: seq<Ordering.Entry<RowId>>, dragged: RowId, target: int, now: int)
      requires Valid() && Ordering.AlphabetKeys(list)
      modifies this, clock
      ensures Valid()
      ensures !Holds(list, dragged) ==> Untouched()
      ensures Holds(list, dragged) ==>
                var rest := Ordering.Without(list, dragged);
                var index := if target < 0 then 0 else if target > |rest| then |rest| else target;
                var key := Ordering.DropKey(false, rest, index);
                && Queued(Plain(ItemMutation(dragged, n, Position, JString(key), Hlc.Encode(clock.last))), now)
                && notes == PatchItem(old(notes), n, dragged, Position, SText(key))
    {
      var found, key := KeyForDrop(false, list, dragged, target);
      if !found {
        return;
      }
      PatchItemKey(n, dragged, key);
      PerformOne(ItemDraft(dragged, n, Position, JString(key)), now);
    }

    twostate predicate Inserted(n: RowId, x: RowId, key: string, now: int, later: int)
      reads this, clock
    {
      var first := Hlc.Next(old(clock.last), deviceId, now);
      && notes == ItemShown(old(notes), n, x, key) && flushTimer && lastSyncedSeq == old(lastSyncedSeq)
      && loadError == old(loadError)
      && clock.last == Hlc.Next(first, deviceId, later)
      && gestures == old(gestures) + [Plain(ItemMutation(x, n, Text, JString(""), Hlc.Encode(first))),
                                      Plain(ItemMutation(x, n, Position, JString(key), Hlc.Encode(clock.last)))]
    }

    /** A new empty item at a given key: two edits under two stamps. */
    method InsertItem(n: RowId, x: RowId, key: string, now: int, later: int)
      requires Valid()
      modifies this, clock
      ensures Valid() && Inserted(n, x, key, now, later)
    {
      notes := ItemShown(notes, n, x, key);
      PerformOne(ItemDraft(x, n, Text, JString("")), now);
      PerformOne(ItemDraft(x, n, Position, JString(key)), later);
    }

    /**
     A new empty item directly below another one, or at the bottom if that one is gone meanwhile;
     list is the note's sorted items.
     */
    method AddItemAfter(n: RowId, list: seq<Ordering.Entry<RowId>>, after: Ordering.Entry<RowId>, x: RowId,
                        now: int, later: int)
      returns (index: int)
      requires Valid() && Ordering.AlphabetKeys(list) && FracIndex.Key(after.key)
      modifies this, clock
      ensures Valid() && IsFirstAt(list, after.id, index)
      ensures Inserted(n, x, FracIndex.Between(after.key, if index >= 0 then Ordering.KeyAt(list, index + 1) else ""),
                       now, later)
      ensures index >= 0 && list[index] == after ==>
                Inserted(n, x, Ordering.DropKey(false, list, index + 1), now, later)
    {
      index := FindIndex(list, after.id);
      var next := "";
      if 0 <= index && index + 1 < |list| {
        next := list[index + 1].key;
        assert list[index + 1] in list;
      }
      var key := FracIndex.KeyBetween(after.key, next);
      InsertItem(n, x, key, now, later);
    }

    // ---- the sync cycle ----

    /** The first half of syncNow: everything pending leaves with the cursor. */
    method BeginSync() returns (since: nat, batch: seq<Mutation>, ghost sent: seq<Gesture>)
      requires Valid()
      modifies this`pending, this`flushTimer, this`gestures
      ensures Valid() && pending == [] && !flushTimer
      ensures since == lastSyncedSeq && batch == old(pending)
      ensures batch == Flatten(sent) && PinsInBundles(sent)
    {
      flushTimer := false;
      since, batch := lastSyncedSeq, pending;
      sent := gestures;
      pending, gestures := [], [];
    }

    /** The catch branch of syncNow: the batch goes back in front, still in whole bundles. */
    method SyncFailed(batch: seq<Mutation>, error: string, ghost sent: seq<Gesture>)
      requires Valid() && batch == Flatten(sent) && PinsInBundles(sent)
      modifies this`pending, this`gestures, this`loadError
      ensures Valid() && pending == batch + old(pending) && loadError == Some(error)
    {
      pending := batch + pending;
      FlattenAppend(sent, gestures);
      gestures := sent + gestures;
      loadError := Some(error);
    }

    /** The response of a sync: the cursor only moves forward, and the changes are merged into the copy. */
    method Reconcile(serverSeq: nat, changes: Changes)
      modifies this`notes, this`lastSyncedSeq
      ensures lastSyncedSeq == Protocol.Max(old(lastSyncedSeq), serverSeq)
      ensures notes == Replica.Reconcile(old(notes), changes)
    {
      lastSyncedSeq := if lastSyncedSeq > serverSeq then lastSyncedSeq else serverSeq;
      var byId := ReconcileNotes(notes, changes.notes);
      byId := ReconcileItems(byId, changes.items);
      byId := ReconcileLabels(byId, changes.noteLabels);
      notes := byId;
    }
  }
}
