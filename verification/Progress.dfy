/**
 Whether a client gets there: without new input its moves come to an end, and whether it is up to
 date then is decided by whether the server accepts what the client has to push.
 */
module Progress {
  import opened Results
  import opened Models
  import opened SyncSpec
  import opened Merge
  import opened History
  import opened Replica
  import opened Protocol
  import opened Seqs
  import opened Catchup
  import opened Convergence

  // ---- quiet stretches ----

  ghost predicate QuietStretch(owner: RowId -> RowId, ws: seq<World>, ms: seq<Move>) {
    IsRun(owner, ws, ms) && forall i :: 0 <= i < |ms| ==> Internal(ms[i])
  }

  /** Without new input a run of internal moves is bounded by the work that was left. */
  lemma {:induction false} QuietStretchIsBounded(owner: RowId -> RowId, ws: seq<World>, ms: seq<Move>, i: nat)
    requires QuietStretch(owner, ws, ms) && i < |ws|
    ensures i + WorkLeft(ws[i]) <= WorkLeft(ws[0])
    ensures ws[i].signals.stalled ==> ws[0].signals.stalled
  {
    if i > 0 {
      QuietStretchIsBounded(owner, ws, ms, i - 1);
      InternalMovesUseUpWork(ws[i - 1], ms[i - 1]);
    }
  }

  lemma NoWorkIsQuiet(w: World)
    requires WorkLeft(w) == 0
    ensures w.pending == [] && w.answers == [] && !PullOwed(w)
  {
  }

  /** No internal move is possible; a refusal may be. */
  ghost predicate Drained(owner: RowId -> RowId, w: World) {
    forall m :: Sound(owner, w, m) ==> !Internal(m)
  }

  /** The server is about to refuse some request. */
  predicate FacesRefusal(w: World) {
    exists i :: 0 <= i < |w.unread| && ApplyLog(w.server, w.unread[i].batch).Err?
  }

  /** A client that cannot move is up to date, unless a refusal is ahead or its connection is gone. */
  lemma DrainedIsUpToDate(owner: RowId -> RowId, w: World)
    requires Invariant(owner, w) && Drained(owner, w) && !w.signals.stalled
    requires w.signals.registered && !FacesRefusal(w)
    ensures UpToDate(w)
  {
    if WorkLeft(w) > 0 {
      var m := BusyCanMove(owner, w);
      assert false;
    }
    NoWorkIsQuiet(w);
    QuiescentIsUpToDate(owner, w);
  }

  /**
   Progress: from any state of any run whose last sync did not fail, the internal moves come to
   an end after at most WorkLeft of them, and where they end, a client that is still connected is
   up to date unless the server is about to refuse one of its requests.
   */
  lemma QuietStretchEndsUpToDate(owner: RowId -> RowId, ws: seq<World>, ms: seq<Move>)
    requires QuietStretch(owner, ws, ms) && Invariant(owner, ws[0]) && !ws[0].signals.stalled
    ensures |ms| <= WorkLeft(ws[0])
    ensures var last := ws[|ms|];
            Drained(owner, last) && last.signals.registered && !FacesRefusal(last) ==> UpToDate(last)
  {
    var last := ws[|ms|];
    QuietStretchIsBounded(owner, ws, ms, |ms|);
    RunInvariant(owner, ws, ms, |ms|);
    if Drained(owner, last) && last.signals.registered && !FacesRefusal(last) {
      DrainedIsUpToDate(owner, last);
    }
  }

  // ---- told before the stretch: everything is acceptable ----

  /** The server, as it is, would accept whatever the client has to push. */
  ghost predicate Acceptable(w: World) {
    && ApplyLog(w.server, w.pending).Ok?
    && forall i :: 0 <= i < |w.unread| ==> ApplyLog(w.server, w.unread[i].batch).Ok?
  }

  lemma AcceptedAfter(t: Tables, pushed: seq<Mutation>, batch: seq<Mutation>)
    requires Consistent(t) && ApplyLog(t, pushed).Ok? && ApplyLog(t, batch).Ok?
    ensures ApplyLog(ApplyLog(t, pushed).value, batch).Ok?
  {
    LogGrowsClocks(t, pushed);
    LogKeepsLabels(t, pushed);
    LogKeepsConsistent(t, pushed);
    LogAcceptedLater(t, ApplyLog(t, pushed).value, batch);
  }

  lemma AnswerKeepsAcceptable(w: World, i: nat, changes: Changes)
    requires Acceptable(w) && Consistent(w.server) && Enabled(w, ServerApplies(i, changes))
    ensures Acceptable(Moved(w, ServerApplies(i, changes)))
  {
    var pushed := w.unread[i].batch;
    var rest := Remove(w.unread, i);
    RemoveShifts(w.unread, i);
    AcceptedAfter(w.server, pushed, w.pending);
    forall k | 0 <= k < |rest| ensures ApplyLog(Take(w.server, Push(pushed)), rest[k].batch).Ok? {
      AcceptedAfter(w.server, pushed, w.unread[Before(i, k)].batch);
    }
  }

  lemma MoveKeepsAcceptable(w: World, m: Move)
    requires Acceptable(w) && Consistent(w.server) && Enabled(w, m) && Internal(m)
    ensures Acceptable(Moved(w, m))
  {
    match m {
      case ServerApplies(i, changes) => AnswerKeepsAcceptable(w, i, changes);
      case SyncNow(_) =>
      case Signal(_) =>
      case AnswerArrives =>
    }
  }

  lemma {:induction false} StretchKeepsAcceptable(owner: RowId -> RowId, ws: seq<World>, ms: seq<Move>, i: nat)
    requires QuietStretch(owner, ws, ms) && Invariant(owner, ws[0]) && Acceptable(ws[0]) && i < |ws|
    ensures Acceptable(ws[i])
  {
    if i > 0 {
      StretchKeepsAcceptable(owner, ws, ms, i - 1);
      RunInvariant(owner, ws, ms, i - 1);
      MoveKeepsAcceptable(ws[i - 1], ms[i - 1]);
    }
  }

  /**
   If the server would accept, as things stand, what is pending and every batch on its way, then
   whatever order the moves come in, a client that stays connected ends up to date.
   */
  lemma AcceptableStretchEndsUpToDate(owner: RowId -> RowId, ws: seq<World>, ms: seq<Move>)
    requires QuietStretch(owner, ws, ms) && Invariant(owner, ws[0]) && !ws[0].signals.stalled && Acceptable(ws[0])
    requires Drained(owner, ws[|ms|]) && ws[|ms|].signals.registered
    ensures UpToDate(ws[|ms|])
  {
    StretchKeepsAcceptable(owner, ws, ms, |ms|);
    QuietStretchEndsUpToDate(owner, ws, ms);
  }

  // ---- and if not ----

  /** The refused batch is still pending or in a request, and all else on its way is empty. */
  ghost predicate Stuck(w: World, t: Tables, batch: seq<Mutation>) {
    && w.server == t && (w.pending == batch || w.pending == [])
    && (forall i :: 0 <= i < |w.unread| ==> w.unread[i].batch == batch || w.unread[i].batch == [])
    && (w.pending == batch || exists i :: 0 <= i < |w.unread| && w.unread[i].batch == batch)
  }

  lemma SyncKeepsStuck(w: World, trigger: Trigger, t: Tables, batch: seq<Mutation>)
    requires Stuck(w, t, batch) && Due(w.signals, trigger)
    ensures Stuck(Moved(w, SyncNow(trigger)), t, batch)
  {
    var unread := w.unread + [Request(w.cursor, w.pending)];
    if w.pending == batch {
      assert unread[|w.unread|].batch == batch;
    } else {
      var i :| 0 <= i < |w.unread| && w.unread[i].batch == batch;
      assert unread[i].batch == batch;
    }
  }

  lemma AnswerKeepsStuck(w: World, k: nat, changes: Changes, t: Tables, batch: seq<Mutation>)
    requires Stuck(w, t, batch) && ApplyLog(t, batch).Err? && Enabled(w, ServerApplies(k, changes))
    ensures Stuck(Moved(w, ServerApplies(k, changes)), t, batch)
  {
    var rest := Remove(w.unread, k);
    RemoveShifts(w.unread, k);
    assert w.unread[k].batch == [];
    if w.pending != batch {
      var i :| 0 <= i < |w.unread| && w.unread[i].batch == batch;
      assert rest[if i < k then i else i - 1] == w.unread[i];
    }
  }

  lemma {:induction false} StretchKeepsStuck(owner: RowId -> RowId, ws: seq<World>, ms: seq<Move>, i: nat)
    requires QuietStretch(owner, ws, ms) && i < |ws|
    requires ws[0].unread == [] && ApplyLog(ws[0].server, ws[0].pending).Err?
    ensures Stuck(ws[i], ws[0].server, ws[0].pending)
  {
    if i > 0 {
      StretchKeepsStuck(owner, ws, ms, i - 1);
      var t, batch := ws[0].server, ws[0].pending;
      match ms[i - 1] {
        case ServerApplies(k, changes) => AnswerKeepsStuck(ws[i - 1], k, changes, t, batch);
        case SyncNow(trigger) => SyncKeepsStuck(ws[i - 1], trigger, t, batch);
        case Signal(_) =>
        case AnswerArrives =>
      }
    }
  }

  lemma StuckIsNotUpToDate(w: World, t: Tables, batch: seq<Mutation>)
    requires Stuck(w, t, batch) && batch != [] && Conserved(w)
    ensures !UpToDate(w)
  {
    if w.pending == [] {
      var i :| 0 <= i < |w.unread| && w.unread[i].batch == batch;
      RequestedRemove(w.unread, i);
      assert batch[0] in multiset(batch);
      assert batch[0] in Requested(w.unread);
      assert w.queued[batch[0]] > w.acked[batch[0]];
    }
  }

  /**
   Retrying, exactly, and told before the stretch: a client with nothing on its way to the server,
   whose moves come to an end with the connection still up, is up to date then if and only if the
   server accepts what was pending.
   */
  lemma QuietStretchExact(owner: RowId -> RowId, ws: seq<World>, ms: seq<Move>)
    requires QuietStretch(owner, ws, ms) && Invariant(owner, ws[0]) && !ws[0].signals.stalled && ws[0].unread == []
    requires Drained(owner, ws[|ms|]) && ws[|ms|].signals.registered
    ensures UpToDate(ws[|ms|]) <==> ApplyLog(ws[0].server, ws[0].pending).Ok?
  {
    if ApplyLog(ws[0].server, ws[0].pending).Ok? {
      AcceptableStretchEndsUpToDate(owner, ws, ms);
    } else {
      StretchKeepsStuck(owner, ws, ms, |ms|);
      RunInvariant(owner, ws, ms, |ms|);
      StuckIsNotUpToDate(ws[|ms|], ws[0].server, ws[0].pending);
    }
  }

  /** For edits of storable values: if and only if each edit comes after the rows it refers to. */
  lemma QuietStretchInOrder(owner: RowId -> RowId, ws: seq<World>, ms: seq<Move>)
    requires QuietStretch(owner, ws, ms) && Invariant(owner, ws[0]) && !ws[0].signals.stalled && ws[0].unread == []
    requires Drained(owner, ws[|ms|]) && ws[|ms|].signals.registered
    requires forall m :: m in ws[0].pending ==> Storable(m)
    ensures UpToDate(ws[|ms|]) <==> InOrder(ws[0].server, ws[0].pending)
  {
    QuietStretchExact(owner, ws, ms);
    AcceptanceExact(ws[0].server, ws[0].pending);
  }

  // ---- edits that keep being refused ----

  /** No batch can carry m past the server as it is. */
  ghost predicate NeverTakes(t: Tables, m: Mutation) {
    forall batch :: m in batch ==> ApplyLog(t, batch).Err?
  }

  lemma NeverTakesMalformed(t: Tables, m: Mutation)
    requires !Passes(m)
    ensures NeverTakes(t, m)
  {
    forall batch | m in batch ensures ApplyLog(t, batch).Err? {
      if ApplyLog(t, batch).Ok? {
        LogDelivers(t, batch, m);
      }
    }
  }

  lemma NeverTakesUnknownLabel(t: Tables, m: Mutation)
    requires Consistent(t) && m.entity.NoteLabelEntity? && m.labelId.Some? && m.labelId.value !in t.labels
    ensures NeverTakes(t, m)
  {
    forall batch | m in batch ensures ApplyLog(t, batch).Err? {
      if ApplyLog(t, batch).Ok? {
        LogDelivers(t, batch, m);
        LogKeepsConsistent(t, batch);
        LogKeepsLabels(t, batch);
      }
    }
  }

  /** An edit the server cannot take goes back and forth. */
  lemma MoveKeepsRefused(w: World, move: Move, m: Mutation)
    requires Enabled(w, move) && NeverTakes(w.server, m) && m in OutstandingEdits(w.pending, w.unread)
    ensures m in OutstandingEdits(Moved(w, move).pending, Moved(w, move).unread)
  {
    match move {
      case SyncNow(_) => OutAfterSync(w.pending, w.unread, w.cursor);
      case ServerApplies(i, _) => OutAfterRemove(w.pending, w.unread, i);
      case ServerRefuses(i) => OutAfterRemove(w.pending, w.unread, i);
      case LosesRequest(i) => OutAfterRemove(w.pending, w.unread, i);
      case _ =>
    }
  }

  /** In every run: as long as no batch can carry it past the server, a queued edit stays queued or requested. */
  lemma {:induction false} RefusedEditStays(owner: RowId -> RowId, ws: seq<World>, ms: seq<Move>, m: Mutation,
                                            i: nat, j: nat)
    requires IsRun(owner, ws, ms) && i <= j < |ws|
    requires m in OutstandingEdits(ws[i].pending, ws[i].unread)
    requires forall k :: i <= k < j ==> NeverTakes(ws[k].server, m)
    ensures m in OutstandingEdits(ws[j].pending, ws[j].unread)
    decreases j - i
  {
    if i < j {
      RefusedEditStays(owner, ws, ms, m, i, j - 1);
      MoveKeepsRefused(ws[j - 1], ms[j - 1], m);
    }
  }

  /** The limit of retrying: an edit that fails the server's fixed checks is never acknowledged. */
  lemma MalformedEditIsNeverDelivered(owner: RowId -> RowId, ws: seq<World>, ms: seq<Move>, m: Mutation, i: nat, j: nat)
    requires IsRun(owner, ws, ms) && i <= j < |ws|
    requires !Passes(m) && m in OutstandingEdits(ws[i].pending, ws[i].unread)
    ensures m in OutstandingEdits(ws[j].pending, ws[j].unread)
  {
    forall k | i <= k < j ensures NeverTakes(ws[k].server, m) {
      NeverTakesMalformed(ws[k].server, m);
    }
    RefusedEditStays(owner, ws, ms, m, i, j);
  }

  /** Nor is an attachment to a label that does not exist, which passes those checks, until the label does. */
  lemma UnknownLabelIsNeverDelivered(owner: RowId -> RowId, ws: seq<World>, ms: seq<Move>, m: Mutation, i: nat, j: nat)
    requires IsRun(owner, ws, ms) && Invariant(owner, ws[0]) && i <= j < |ws|
    requires m.entity.NoteLabelEntity? && m.labelId.Some? && m in OutstandingEdits(ws[i].pending, ws[i].unread)
    requires forall k :: i <= k < j ==> m.labelId.value !in ws[k].server.labels
    ensures m in OutstandingEdits(ws[j].pending, ws[j].unread)
  {
    forall k | i <= k < j ensures NeverTakes(ws[k].server, m) {
      RunInvariant(owner, ws, ms, k);
      NeverTakesUnknownLabel(ws[k].server, m);
    }
    RefusedEditStays(owner, ws, ms, m, i, j);
  }
}
