/**
 An edit that had lost before it was queued: every such edit leads, by a run of the machine in
 Protocol, to a connected client with nothing under way that goes on showing its own value.
 */
module Divergence {
  import opened Results
  import opened Models
  import opened SyncSpec
  import opened Merge
  import opened History
  import opened Gestures
  import opened Replica
  import opened Protocol
  import opened Seqs
  import opened Catchup
  import opened Convergence
  import Lex

  /** Some run leads from one state of the machine to the other. */
  ghost predicate Reachable(owner: RowId -> RowId, from: World, to: World) {
    exists ws, ms :: IsRun(owner, ws, ms) && ws[0] == from && ws[|ms|] == to
  }

  lemma ReachableSelf(owner: RowId -> RowId, w: World)
    ensures Reachable(owner, w, w)
  {
    assert IsRun(owner, [w], []) && [w][0] == w;
  }

  lemma ExtendRun(owner: RowId -> RowId, ws: seq<World>, ms: seq<Move>, m: Move)
    requires IsRun(owner, ws, ms) && Sound(owner, ws[|ms|], m)
    ensures var ws', ms' := ws + [Moved(ws[|ms|], m)], ms + [m];
            IsRun(owner, ws', ms') && ws'[0] == ws[0] && ws'[|ms'|] == Moved(ws[|ms|], m)
  {
    var ws', ms' := ws + [Moved(ws[|ms|], m)], ms + [m];
    forall i | 0 <= i < |ms'| ensures Sound(owner, ws'[i], ms'[i]) && ws'[i + 1] == Moved(ws'[i], ms'[i]) {
      if i < |ms| {
        assert ws'[i] == ws[i] && ws'[i + 1] == ws[i + 1] && ms'[i] == ms[i];
      }
    }
  }

  lemma ReachableStep(owner: RowId -> RowId, from: World, w: World, m: Move)
    requires Reachable(owner, from, w) && Sound(owner, w, m)
    ensures Reachable(owner, from, Moved(w, m))
  {
    var ws, ms :| IsRun(owner, ws, ms) && ws[0] == from && ws[|ms|] == w;
    ExtendRun(owner, ws, ms, m);
  }

  /** The whole round of a sync: everything pending is pushed, accepted at t, answered and reconciled. */
  function AfterSync(w: World, trigger: Trigger, t: Tables, ch: Changes): World {
    var s := Fired(w.signals, trigger);
    w.(server := t, signals := if w.pending != [] then s.(owed := s.owed + 1) else s, pending := [],
       view := Reconcile(w.view, ch), cursor := Max(w.cursor, t.counter), mirror := t,
       acked := w.acked + multiset(w.pending), overruled := Undelivered(w.overruled, t, w.cursor))
  }

  lemma SyncRound(owner: RowId -> RowId, from: World, w: World, trigger: Trigger, t: Tables, ch: Changes)
    requires Reachable(owner, from, w) && Due(w.signals, trigger) && w.unread == [] && w.answers == []
    requires ApplyLog(w.server, w.pending) == Ok(t) && IsDelta(t, w.cursor, ch)
    ensures Reachable(owner, from, AfterSync(w, trigger, t, ch))
  {
    ReachableStep(owner, from, w, SyncNow(trigger));
    var w1 := Moved(w, SyncNow(trigger));
    assert w1.unread == [Request(w.cursor, w.pending)];
    ReachableStep(owner, from, w1, ServerApplies(0, ch));
    var w2 := Moved(w1, ServerApplies(0, ch));
    assert w2.unread == [] && w2.answers == [Synced(t, w.cursor, ch, w.pending)];
    ReachableStep(owner, from, w2, AnswerArrives);
    assert Moved(w2, AnswerArrives) == AfterSync(w, trigger, t, ch);
  }

  /** A client that has caught up with the server at t, with nothing to send or to receive. */
  function CaughtUp(t: Tables, s: Signals, v: View, queued: multiset<Mutation>, lost: set<RowRef>): World {
    World(t, s, [], v, t.counter, [], [], [], t, queued, queued, lost)
  }

  const NO_CHANGES: Changes := Changes([], [], [])

  lemma NothingNew(t: Tables)
    requires SeqsDistinct(t)
    ensures IsDelta(t, t.counter, NO_CHANGES)
    ensures forall lost :: Undelivered(lost, t, t.counter) == lost
  {
    forall id ensures !FreshNote(t, id, t.counter) {
      assert id in t.notes ==> SeqOf(t, NoteRef(id)) <= t.counter;
    }
    forall x ensures !FreshItem(t, x, t.counter) {
      assert x in t.items ==> SeqOf(t, ItemRef(x)) <= t.counter;
    }
    forall k ensures !FreshLabel(t, k, t.counter) {
      assert k in t.noteLabels ==> SeqOf(t, LabelRef(k)) <= t.counter;
    }
  }

  /** A pull that brings nothing new. */
  lemma IdlePull(owner: RowId -> RowId, from: World, t: Tables, s: Signals, v: View, q: multiset<Mutation>,
                 lost: set<RowRef>, trigger: Trigger)
    requires Consistent(t) && Due(s, trigger) && Reachable(owner, from, CaughtUp(t, s, v, q, lost))
    ensures Reachable(owner, from, CaughtUp(t, Fired(s, trigger), v, q, lost))
  {
    NothingNew(t);
    SyncRound(owner, from, CaughtUp(t, s, v, q, lost), trigger, t, NO_CHANGES);
    assert AfterSync(CaughtUp(t, s, v, q, lost), trigger, t, NO_CHANGES) == CaughtUp(t, Fired(s, trigger), v, q, lost);
  }

  /** A client that has caught up and then queued one edit of an overruled row. */
  function Edited(t: Tables, s: Signals, m: Mutation, shown: View, row: RowRef): World {
    World(t, s.(flush := true), [m], shown, t.counter, [], [], [], t, multiset{m}, multiset{}, {row})
  }

  lemma CoveredEditQueued(owner: RowId -> RowId, from: World, t: Tables, s: Signals, v: View, m: Mutation, shown: View)
    requires WellAddressed(m) && !Effective(t, m) && Owned(owner, m) && ChangesOnly(owner, v, shown, [m])
    requires Reachable(owner, from, CaughtUp(t, s, v, multiset{}, {}))
    ensures Reachable(owner, from, Edited(t, s, m, shown, RowOf(RegOf(m))))
  {
    var w := CaughtUp(t, s, v, multiset{}, {});
    ReachableStep(owner, from, w, Edit([m], shown));
    assert OverruledRows(t, [m]) == {RowOf(RegOf(m))};
    assert Moved(w, Edit([m], shown)) == Edited(t, s, m, shown, RowOf(RegOf(m)));
  }

  lemma CoveredEditAnswered(t: Tables, s: Signals, m: Mutation, shown: View, row: RowRef)
    requires SeqsDistinct(t) && !s.stalled && !s.flush
    ensures AfterSync(Edited(t, s, m, shown, row), FlushTimer, t, NO_CHANGES)
            == CaughtUp(t, s.(owed := s.owed + 1), shown, multiset{m}, {row})
  {
    NothingNew(t);
  }

  /** An edit the server already covers is queued, pushed, accepted and acknowledged, and stays in the view. */
  lemma CoveredEditRound(owner: RowId -> RowId, from: World, t: Tables, s: Signals, v: View, m: Mutation, shown: View)
    requires Consistent(t) && Delivered(t, m) && Owned(owner, m) && ChangesOnly(owner, v, shown, [m])
    requires !s.stalled && !s.flush && Reachable(owner, from, CaughtUp(t, s, v, multiset{}, {}))
    ensures Reachable(owner, from, CaughtUp(t, s.(owed := s.owed + 1), shown, multiset{m}, {RowOf(RegOf(m))}))
  {
    var row := RowOf(RegOf(m));
    CoveredEditQueued(owner, from, t, s, v, m, shown);
    NothingNew(t);
    RedeliveryExact(t, [m]);
    SyncRound(owner, from, Edited(t, s, m, shown, row), FlushTimer, t, NO_CHANGES);
    CoveredEditAnswered(t, s, m, shown, row);
  }

  /** The signals of a connected client with nothing on its way. */
  const CONNECTED: Signals := Signals(0, 0, true, 0, 0, false, false, false, false)

  /** One hint travels from the handler to the client's pull timer. */
  lemma HintTravels(owner: RowId -> RowId, from: World, w: World)
    requires Reachable(owner, from, w) && w.signals == CONNECTED.(owed := 1)
    ensures Reachable(owner, from, w.(signals := CONNECTED.(timer := true)))
  {
    ReachableStep(owner, from, w, Signal(CallNotify));
    var w1 := w.(signals := CONNECTED.(queue := 1));
    assert Moved(w, Signal(CallNotify)) == w1;
    ReachableStep(owner, from, w1, Signal(HubTakesEvent));
    var w2 := w.(signals := CONNECTED.(buffer := 1));
    assert Moved(w1, Signal(HubTakesEvent)) == w2;
    ReachableStep(owner, from, w2, Signal(PumpWrites));
    var w3 := w.(signals := CONNECTED.(transit := 1));
    assert Moved(w2, Signal(PumpWrites)) == w3;
    ReachableStep(owner, from, w3, Signal(ClientReceives));
    assert Moved(w3, Signal(ClientReceives)) == w.(signals := CONNECTED.(timer := true));
  }

  /** The page just opened on a server at t, with nothing on its way. */
  function JustOpened(t: Tables): World {
    World(t, CONNECTED.(registered := false), [], map[], 0, [], [], [], EmptyTables(), multiset{}, multiset{}, {})
  }

  /**
   The exception of a failed sync, as an input: the very first pull is lost, nothing is scheduled,
   and a connected client shows nothing of what the server has.
   */
  lemma FailedPullStays(owner: RowId -> RowId, t: Tables, n: RowId) returns (w: World)
    requires Consistent(t) && OwnedTables(owner, t) && n in t.notes
    ensures Opened(owner, JustOpened(t)) && Reachable(owner, JustOpened(t), w)
    ensures w.signals.registered && w.signals.stalled && WorkLeft(w) == 0
    ensures w.server == t && w.view == map[] && w.view != Snapshot(t) && !UpToDate(w)
  {
    var w0 := JustOpened(t);
    ReachableSelf(owner, w0);
    ReachableStep(owner, w0, w0, Signal(Connects));
    var w1 := w0.(signals := CONNECTED.(opening := true));
    assert Moved(w0, Signal(Connects)) == w1;
    ReachableStep(owner, w0, w1, SyncNow(OnOpen));
    var w2 := w0.(signals := CONNECTED, unread := [Request(0, [])]);
    assert Moved(w1, SyncNow(OnOpen)) == w2;
    ReachableStep(owner, w0, w2, LosesRequest(0));
    w := w0.(signals := CONNECTED.(stalled := true), orphans := [[]]);
    assert Moved(w2, LosesRequest(0)) == w;
    assert n in Snapshot(t);
  }

  /** Connecting and the first pull show the whole list. */
  lemma FirstPull(owner: RowId -> RowId, t: Tables)
    requires Consistent(t)
    ensures Reachable(owner, JustOpened(t), CaughtUp(t, CONNECTED, Snapshot(t), multiset{}, {}))
  {
    var w0 := JustOpened(t);
    var ch := DeltaExists(t, 0);
    ReachableSelf(owner, w0);
    ReachableStep(owner, w0, w0, Signal(Connects));
    var w1 := w0.(signals := CONNECTED.(opening := true));
    assert Moved(w0, Signal(Connects)) == w1;
    SyncRound(owner, w0, w1, OnOpen, t, ch);
    EmptyEvolves(t);
    DeltaEqualsSnapshot(EmptyTables(), t, 0, ch);
    assert AfterSync(w1, OnOpen, t, ch) == CaughtUp(t, CONNECTED, Snapshot(t), multiset{}, {});
  }

  /**
   Whatever an overruled edit makes the client show, it goes on showing: from the opened page a
   run leads to a connected client with nothing under way and every edit delivered, whose view is
   still the edited one. Only the row of the edit is on record as overruled.
   */
  lemma CoveredEditStaysShown(owner: RowId -> RowId, t: Tables, m: Mutation, shown: View) returns (w: World)
    requires Consistent(t) && OwnedTables(owner, t)
    requires Delivered(t, m) && Owned(owner, m) && ChangesOnly(owner, Snapshot(t), shown, [m])
    ensures Opened(owner, JustOpened(t)) && Reachable(owner, JustOpened(t), w)
    ensures Quiescent(w) && w.server == t && w.view == shown && w.overruled == {RowOf(RegOf(m))}
  {
    var from, row := JustOpened(t), {RowOf(RegOf(m))};
    FirstPull(owner, t);
    CoveredEditRound(owner, from, t, CONNECTED, Snapshot(t), m, shown);
    HintTravels(owner, from, CaughtUp(t, CONNECTED.(owed := 1), shown, multiset{m}, row));
    IdlePull(owner, from, t, CONNECTED.(timer := true), shown, multiset{m}, row, PullTimer);
    w := CaughtUp(t, CONNECTED, shown, multiset{m}, row);
    assert Fired(CONNECTED.(timer := true), PullTimer) == CONNECTED;
  }

  /** One note titled "new" under stamp "2". */
  function OneNote(id: RowId): Tables {
    PutNote(EmptyTables(), id, DefaultNote().(title := "new"), map[Title := "2"])
  }

  lemma OneNoteConsistent(id: RowId)
    ensures Consistent(OneNote(id)) && OwnedTables(x => x, OneNote(id))
  {
    var t := OneNote(id);
    NoteWritesOneRow(EmptyTables(), id, t.notes[id].data, t.notes[id].clocks);
    ReachableConsistent([]);
    WriteKeepsSeqs(EmptyTables(), t, NoteRef(id));
  }

  lemma RetitledOnly(id: RowId, v: View, m: Mutation, title: string)
    requires id in v && m.entity.NoteEntity? && m.id == Some(id) && m.field.Title?
    ensures ChangesOnly(x => x, v, v[id := v[id].(data := v[id].data.(title := title))], [m])
  {
    assert Addresses([m][0], NoteRef(id)) && Touched([m], NoteRef(id));
  }

  /** An input: the note is retitled "old" under stamp "1", and stays so on this client only. */
  lemma DivergedClient(id: RowId) returns (w: World)
    ensures Opened(x => x, JustOpened(OneNote(id))) && Reachable(x => x, JustOpened(OneNote(id)), w)
    ensures Quiescent(w) && id in w.view && id in w.server.notes
    ensures w.view[id].data.title == "old" && w.server.notes[id].data.title == "new"
    ensures w.view != Snapshot(w.server)
  {
    var t, m := OneNote(id), NoteMutation(id, Title, JString("old"), "1");
    var v := Snapshot(t);
    var shown := v[id := v[id].(data := v[id].data.(title := "old"))];
    OneNoteConsistent(id);
    RetitledOnly(id, v, m, "old");
    assert Lex.Less("1", "2") && !Lex.Less("2", "1");
    w := CoveredEditStaysShown(x => x, t, m, shown);
    assert v[id].data.title == "new";
  }
}
