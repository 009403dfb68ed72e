/**
 The guarantees of the whole protocol, over every run of the machine in Protocol: the client
 shows a server state it has caught up with, edits are neither lost nor forgotten, and a client
 with nothing under way shows exactly the server's snapshot.
 */
module Convergence {
  import opened Results
  import opened Models
  import opened SyncSpec
  import opened Merge
  import opened History
  import opened Replica
  import opened Protocol
  import opened Seqs
  import opened Catchup
  import Hub

  // ---- outstanding edits, move by move ----

  lemma OutAfterSync(pending: seq<Mutation>, unread: seq<Request>, cursor: nat)
    ensures OutstandingEdits([], unread + [Request(cursor, pending)]) == OutstandingEdits(pending, unread)
  {
    var rs := unread + [Request(cursor, pending)];
    forall m | m in OutstandingEdits(pending, unread) ensures m in OutstandingEdits([], rs) {
      if m in pending {
        assert rs[|unread|].batch == pending;
      } else {
        var i :| 0 <= i < |unread| && m in unread[i].batch;
        assert rs[i] == unread[i];
      }
    }
  }

  /** Without the request at i, its batch is all that may be missing. */
  lemma OutAfterRemove(pending: seq<Mutation>, unread: seq<Request>, i: nat)
    requires i < |unread|
    ensures OutstandingEdits(unread[i].batch + pending, Remove(unread, i)) == OutstandingEdits(pending, unread)
    ensures forall m :: m in OutstandingEdits(pending, unread) && m !in OutstandingEdits(pending, Remove(unread, i)) ==>
                          m in unread[i].batch
  {
    var rest := Remove(unread, i);
    RemoveShifts(unread, i);
    forall j | 0 <= j < |unread| && j != i ensures exists k :: 0 <= k < |rest| && rest[k] == unread[j] {
      assert rest[if j < i then j else j - 1] == unread[j];
    }
  }

  lemma CommitShows(owner: RowId -> RowId, w: World, step: Step)
    requires InStep(w) && Shows(owner, w) && Growing(step)
    ensures Shows(owner, Committed(w, step))
  {
    ChainCommit(w.mirror, w.server, w.answers, step);
    var out := OutstandingEdits(w.pending, w.unread);
    ShowsStays(owner, w.view, w.mirror, w.server, Take(w.server, step), out, out, w.overruled);
  }

  lemma MoreOutShows(owner: RowId -> RowId, w: World, pending: seq<Mutation>)
    requires InStep(w) && Shows(owner, w) && forall m :: m in w.pending ==> m in pending
    ensures ShowsMirror(owner, w.view, w.mirror, w.server, OutstandingEdits(pending, w.unread), w.overruled)
  {
    EvolvesReflexive(w.server);
    ShowsStays(owner, w.view, w.mirror, w.server, w.server, OutstandingEdits(w.pending, w.unread),
               OutstandingEdits(pending, w.unread), w.overruled);
  }

  lemma EditMoveShows(owner: RowId -> RowId, w: World, ms: seq<Mutation>, shown: View)
    requires InStep(w) && Shows(owner, w) && Sound(owner, w, Edit(ms, shown))
    ensures Shows(owner, Moved(w, Edit(ms, shown)))
  {
    MoreOutShows(owner, w, w.pending + ms);
    EditShows(owner, w.view, shown, w.mirror, w.server, OutstandingEdits(w.pending + ms, w.unread),
              w.overruled, w.overruled + OverruledRows(w.server, ms), ms);
  }

  /** The edits of an accepted batch are covered from then on. */
  lemma AnswerShows(owner: RowId -> RowId, w: World, i: nat, changes: Changes)
    requires InStep(w) && Shows(owner, w) && Enabled(w, ServerApplies(i, changes))
    ensures Shows(owner, Moved(w, ServerApplies(i, changes)))
  {
    var batch := w.unread[i].batch;
    var server' := Take(w.server, Push(batch));
    var out, out' := OutstandingEdits(w.pending, w.unread), OutstandingEdits(w.pending, Remove(w.unread, i));
    ChainCommit(w.mirror, w.server, w.answers, Push(batch));
    OutAfterRemove(w.pending, w.unread, i);
    forall m | m in out && m !in out' ensures !Effective(server', m) {
      LogDelivers(w.server, batch, m);
    }
    ShowsStays(owner, w.view, w.mirror, w.server, server', out, out', w.overruled);
  }

  lemma OwnedBefore(owner: RowId -> RowId, t: Tables, t': Tables)
    requires Evolves(t, t') && OwnedTables(owner, t')
    ensures OwnedTables(owner, t)
  {
  }

  lemma ListFirst(owner: RowId -> RowId, w: World)
    requires w.answers != [] && w.answers[0].Listed?
    ensures Shows(owner, Moved(w, AnswerArrives))
  {
    ListShows(owner, w.answers[0].at, w.server, OutstandingEdits(w.pending, w.unread));
  }

  lemma ReconcileFirst(owner: RowId -> RowId, w: World)
    requires InStep(w) && OwnersAgree(owner, w) && Shows(owner, w) && w.answers != [] && w.answers[0].Synced?
    ensures var a := w.answers[0];
            ShowsMirror(owner, Reconcile(w.view, a.changes), a.at, w.server, OutstandingEdits(w.pending, w.unread),
                        Undelivered(w.overruled, a.at, a.since))
  {
    var a := w.answers[0];
    assert SoundAnswer(w.mirror, w.server, a);
    OwnedBefore(owner, a.at, w.server);
    ReconcileShows(owner, w.view, w.mirror, w.server, OutstandingEdits(w.pending, w.unread), w.overruled, a);
  }

  /** In every run the client shows the mirrored state except where an edit or a newer write explains it. */
  lemma MoveShows(owner: RowId -> RowId, w: World, m: Move)
    requires InStep(w) && OwnersAgree(owner, w) && Shows(owner, w) && Sound(owner, w, m)
    ensures Shows(owner, Moved(w, m))
  {
    match m {
      case Commit(step) => CommitShows(owner, w, step);
      case Edit(ms, shown) => EditMoveShows(owner, w, ms, shown);
      case SyncNow(_) => OutAfterSync(w.pending, w.unread, w.cursor);
      case ServerApplies(i, changes) => AnswerShows(owner, w, i, changes);
      case ServerRefuses(i) => OutAfterRemove(w.pending, w.unread, i);
      case LosesRequest(i) => OutAfterRemove(w.pending, w.unread, i);
      case LosesAnswer(i) => MoreOutShows(owner, w, BatchOf(w.answers[i]) + w.pending);
      case AnswerArrives =>
        if w.answers[0].Synced? {
          ReconcileFirst(owner, w);
        } else {
          ListFirst(owner, w);
        }
      case OrphanArrives(i) => CommitShows(owner, w, Push(w.orphans[i]));
      case Signal(_) =>
      case ServerLists(_) =>
    }
  }

  // ---- edits are neither lost nor forgotten ----

  /** All mutations of a list of batches. */
  function Gathered(batches: seq<seq<Mutation>>): multiset<Mutation> {
    if batches == [] then multiset{}
    else Gathered(batches[..|batches| - 1]) + multiset(batches[|batches| - 1])
  }

  lemma GatheredLast(batches: seq<seq<Mutation>>, last: seq<Mutation>)
    ensures Gathered(batches + [last]) == Gathered(batches) + multiset(last)
  {
    assert (batches + [last])[..|batches|] == batches;
  }

  /** Multisets added up in another order. */
  lemma Regroup<X>(all: multiset<X>, init: multiset<X>, rest: multiset<X>, restInit: multiset<X>, removed: multiset<X>,
                   last: multiset<X>)
    requires all == init + last && init == restInit + removed && rest == restInit + last
    ensures all == rest + removed
  {
  }

  lemma {:induction false} GatheredRemove(batches: seq<seq<Mutation>>, i: nat)
    requires i < |batches|
    ensures Gathered(batches) == Gathered(Remove(batches, i)) + multiset(batches[i])
  {
    var n, rest := |batches| - 1, Remove(batches, i);
    RemovePrefix(batches, i);
    if i < n {
      GatheredRemove(batches[..n], i);
      Regroup(Gathered(batches), Gathered(batches[..n]), Gathered(rest), Gathered(rest[..n - 1]),
              multiset(batches[i]), multiset(batches[n]));
    }
  }

  function RequestBatches(unread: seq<Request>): (batches: seq<seq<Mutation>>)
    ensures |batches| == |unread|
  {
    seq(|unread|, i requires 0 <= i < |unread| => unread[i].batch)
  }

  function AnswerBatches(answers: seq<Answer>): (batches: seq<seq<Mutation>>)
    ensures |batches| == |answers|
  {
    seq(|answers|, i requires 0 <= i < |answers| => BatchOf(answers[i]))
  }

  function Requested(unread: seq<Request>): multiset<Mutation> {
    Gathered(RequestBatches(unread))
  }

  function Answered(answers: seq<Answer>): multiset<Mutation> {
    Gathered(AnswerBatches(answers))
  }

  lemma RequestBatchesRemove(unread: seq<Request>, i: nat)
    requires i < |unread|
    ensures RequestBatches(Remove(unread, i)) == Remove(RequestBatches(unread), i)
  {
  }

  lemma RequestedRemove(unread: seq<Request>, i: nat)
    requires i < |unread|
    ensures Requested(unread) == Requested(Remove(unread, i)) + multiset(unread[i].batch)
  {
    GatheredRemove(RequestBatches(unread), i);
    RequestBatchesRemove(unread, i);
  }

  lemma AnswerBatchesRemove(answers: seq<Answer>, i: nat)
    requires i < |answers|
    ensures AnswerBatches(Remove(answers, i)) == Remove(AnswerBatches(answers), i)
  {
  }

  lemma AnsweredRemove(answers: seq<Answer>, i: nat)
    requires i < |answers|
    ensures Answered(answers) == Answered(Remove(answers, i)) + multiset(BatchOf(answers[i]))
  {
    GatheredRemove(AnswerBatches(answers), i);
    AnswerBatchesRemove(answers, i);
  }

  lemma RequestedMore(unread: seq<Request>, r: Request)
    ensures Requested(unread + [r]) == Requested(unread) + multiset(r.batch)
  {
    GatheredLast(RequestBatches(unread), r.batch);
    assert RequestBatches(unread + [r]) == RequestBatches(unread) + [r.batch];
  }

  lemma AnsweredMore(answers: seq<Answer>, a: Answer)
    ensures Answered(answers + [a]) == Answered(answers) + multiset(BatchOf(a))
  {
    GatheredLast(AnswerBatches(answers), BatchOf(a));
    assert AnswerBatches(answers + [a]) == AnswerBatches(answers) + [BatchOf(a)];
  }

  /** Every edit ever queued is pending, requested, answered, or acknowledged: as many times as it was queued. */
  ghost predicate Conserved(w: World) {
    w.queued == multiset(w.pending) + Requested(w.unread) + Answered(w.answers) + w.acked
  }

  /** A batch put back in front of the queue is still counted once. */
  lemma Requeue(batch: seq<Mutation>, pending: seq<Mutation>, queued: multiset<Mutation>, requested: multiset<Mutation>,
                answered: multiset<Mutation>, acked: multiset<Mutation>)
    ensures multiset(batch + pending) == multiset(batch) + multiset(pending)
    ensures queued == multiset(pending) + requested + (answered + multiset(batch)) + acked
            ==> queued == multiset(batch + pending) + requested + answered + acked
    ensures queued == multiset(pending) + (requested + multiset(batch)) + answered + acked
            ==> queued == multiset(batch + pending) + requested + answered + acked
  {
  }

  lemma RequestBack(w: World, i: nat)
    requires Conserved(w) && i < |w.unread|
    ensures Conserved(SyncFails(w.(unread := Remove(w.unread, i)), w.unread[i].batch))
  {
    RequestedRemove(w.unread, i);
    Requeue(w.unread[i].batch, w.pending, w.queued, Requested(Remove(w.unread, i)), Answered(w.answers), w.acked);
  }

  lemma AnswerConserves(w: World, i: nat, changes: Changes)
    requires Conserved(w) && Enabled(w, ServerApplies(i, changes))
    ensures Conserved(Moved(w, ServerApplies(i, changes)))
  {
    RequestedRemove(w.unread, i);
    var r, at := w.unread[i], Take(w.server, Push(w.unread[i].batch));
    AnsweredMore(w.answers, Synced(at, r.since, changes, r.batch));
  }

  lemma EditConserves(w: World, ms: seq<Mutation>, shown: View)
    requires Conserved(w)
    ensures Conserved(Moved(w, Edit(ms, shown)))
  {
    assert multiset(w.pending + ms) == multiset(w.pending) + multiset(ms);
  }

  lemma SyncConserves(w: World, trigger: Trigger)
    requires Conserved(w) && Enabled(w, SyncNow(trigger))
    ensures Conserved(Moved(w, SyncNow(trigger)))
  {
    RequestedMore(w.unread, Request(w.cursor, w.pending));
  }

  lemma AnsweredFirst(answers: seq<Answer>)
    requires answers != []
    ensures Answered(answers) == Answered(answers[1..]) + multiset(BatchOf(answers[0]))
  {
    AnsweredRemove(answers, 0);
    assert Remove(answers, 0) == answers[1..];
  }

  lemma ArrivalConserves(w: World)
    requires Conserved(w) && w.answers != []
    ensures Conserved(Moved(w, AnswerArrives))
  {
    AnsweredFirst(w.answers);
  }

  lemma ListConserves(w: World, top: nat)
    requires Conserved(w)
    ensures Conserved(Moved(w, ServerLists(top)))
  {
    AnsweredMore(w.answers, Listed(w.server, top));
  }

  lemma AnswerBack(w: World, i: nat)
    requires Conserved(w) && i < |w.answers| && w.answers[i].Synced?
    ensures Conserved(Moved(w, LosesAnswer(i)))
  {
    var batch := w.answers[i].batch;
    AnsweredRemove(w.answers, i);
    assert Moved(w, LosesAnswer(i)) == SyncFails(w.(answers := Remove(w.answers, i)), batch);
    Requeue(batch, w.pending, w.queued, Requested(w.unread), Answered(Remove(w.answers, i)), w.acked);
  }

  lemma ListGone(w: World, i: nat)
    requires Conserved(w) && i < |w.answers| && w.answers[i].Listed?
    ensures Conserved(Moved(w, LosesAnswer(i)))
  {
    AnsweredRemove(w.answers, i);
    assert Moved(w, LosesAnswer(i)) == w.(answers := Remove(w.answers, i));
    assert Answered(Remove(w.answers, i)) == Answered(w.answers);
  }

  /** At-least-once delivery: no move loses an edit or makes one up. */
  lemma MoveConserves(w: World, m: Move)
    requires Conserved(w) && Enabled(w, m)
    ensures Conserved(Moved(w, m))
  {
    match m {
      case Edit(ms, shown) => EditConserves(w, ms, shown);
      case SyncNow(trigger) => SyncConserves(w, trigger);
      case ServerApplies(i, changes) => AnswerConserves(w, i, changes);
      case ServerRefuses(i) => RequestBack(w, i);
      case LosesRequest(i) => RequestBack(w, i);
      case ServerLists(top) => ListConserves(w, top);
      case AnswerArrives => ArrivalConserves(w);
      case LosesAnswer(i) =>
        if w.answers[i].Synced? {
          AnswerBack(w, i);
        } else {
          ListGone(w, i);
        }
      case _ =>
    }
  }

  /** What the server answered, and what the client took as acknowledged, the server has. */
  ghost predicate Kept(server: Tables, answers: seq<Answer>, acked: multiset<Mutation>) {
    && (forall i, m :: 0 <= i < |answers| && m in BatchOf(answers[i]) ==> Delivered(server, m))
    && (forall m :: m in acked ==> Delivered(server, m))
  }

  lemma KeptOnCommit(server: Tables, answers: seq<Answer>, acked: multiset<Mutation>, step: Step)
    requires Kept(server, answers, acked) && Growing(step)
    ensures Kept(Take(server, step), answers, acked)
  {
    StepGrowsClocks(server, step);
    forall m | Delivered(server, m) ensures Delivered(Take(server, step), m) {
      DeliveredStays(server, Take(server, step), m);
    }
  }

  lemma KeptOnAnswer(w: World, i: nat, changes: Changes)
    requires Kept(w.server, w.answers, w.acked) && Enabled(w, ServerApplies(i, changes))
    ensures var w' := Moved(w, ServerApplies(i, changes)); Kept(w'.server, w'.answers, w'.acked)
  {
    var batch := w.unread[i].batch;
    KeptOnCommit(w.server, w.answers, w.acked, Push(batch));
    forall m | m in batch ensures Delivered(Take(w.server, Push(batch)), m) {
      LogDelivers(w.server, batch, m);
    }
  }

  lemma KeptOnLoss(server: Tables, answers: seq<Answer>, acked: multiset<Mutation>, i: nat)
    requires Kept(server, answers, acked) && i < |answers|
    ensures Kept(server, Remove(answers, i), acked)
  {
    RemoveShifts(answers, i);
  }

  lemma MoveKeeps(w: World, m: Move)
    requires Kept(w.server, w.answers, w.acked) && Enabled(w, m)
    ensures var w' := Moved(w, m); Kept(w'.server, w'.answers, w'.acked)
  {
    match m {
      case Commit(step) => KeptOnCommit(w.server, w.answers, w.acked, step);
      case ServerApplies(i, changes) => KeptOnAnswer(w, i, changes);
      case LosesAnswer(i) => KeptOnLoss(w.server, w.answers, w.acked, i);
      case OrphanArrives(i) => KeptOnCommit(w.server, w.answers, w.acked, Push(w.orphans[i]));
      case _ =>
    }
  }

  // ---- runs ----

  /**
   The page has just been opened, the server and its hub being in any state: nothing is shown,
   nothing is under way. Fetching the list and connecting are moves like any other.
   */
  ghost predicate Opened(owner: RowId -> RowId, w: World) {
    && Consistent(w.server) && OwnedTables(owner, w.server)
    && w.view == map[] && w.cursor == 0 && w.mirror == EmptyTables()
    && w.pending == [] && w.unread == [] && w.answers == [] && w.orphans == []
    && w.signals == Signals(w.signals.owed, w.signals.queue, false, 0, 0, false, false, false, false)
    && w.signals.queue <= Hub.BROADCAST_CAPACITY
    && w.queued == multiset{} && w.acked == multiset{} && w.overruled == {}
  }

  /** ws are the states of the machine along the moves ms. */
  ghost predicate IsRun(owner: RowId -> RowId, ws: seq<World>, ms: seq<Move>) {
    && |ws| == |ms| + 1
    && (forall i :: 0 <= i < |ms| ==> Sound(owner, ws[i], ms[i]) && ws[i + 1] == Moved(ws[i], ms[i]))
  }

  /** The cursor stands at the state the client has caught up with, or at the top of the list it was shown. */
  ghost predicate CursorKnown(w: World) {
    w.cursor == w.mirror.counter || IsMaxSeq(Snapshot(w.mirror), w.cursor)
  }

  lemma ArrivalKeepsCursorKnown(w: World)
    requires CursorKnown(w) && InStep(w) && w.answers != []
    ensures CursorKnown(Moved(w, AnswerArrives))
  {
    assert SoundAnswer(w.mirror, w.server, w.answers[0]);
  }

  lemma OthersKeepCursor(w: World, m: Move)
    requires Enabled(w, m) && !m.AnswerArrives?
    ensures Moved(w, m).cursor == w.cursor && Moved(w, m).mirror == w.mirror
  {
  }

  lemma MoveKeepsCursorKnown(owner: RowId -> RowId, w: World, m: Move)
    requires CursorKnown(w) && InStep(w) && Sound(owner, w, m)
    ensures CursorKnown(Moved(w, m))
  {
    if m.AnswerArrives? {
      ArrivalKeepsCursorKnown(w);
    } else {
      OthersKeepCursor(w, m);
    }
  }

  ghost predicate Invariant(owner: RowId -> RowId, w: World) {
    && InStep(w) && OwnersAgree(owner, w) && Shows(owner, w) && CursorKnown(w)
    && Awake(w) && Conserved(w) && Kept(w.server, w.answers, w.acked)
  }

  lemma EmptyEvolves(server: Tables)
    requires Consistent(server)
    ensures Consistent(EmptyTables()) && Evolves(EmptyTables(), server) && Snapshot(EmptyTables()) == map[]
  {
    assert forall id :: id in server.notes ==> SeqOf(server, NoteRef(id)) > 0;
    assert forall x :: x in server.items ==> SeqOf(server, ItemRef(x)) > 0;
    assert forall k :: k in server.noteLabels ==> SeqOf(server, LabelRef(k)) > 0;
  }

  lemma OpenedInvariant(owner: RowId -> RowId, w: World)
    requires Opened(owner, w)
    ensures Invariant(owner, w)
  {
    EmptyEvolves(w.server);
  }

  lemma MoveKeepsInvariant(owner: RowId -> RowId, w: World, m: Move)
    requires Invariant(owner, w) && Sound(owner, w, m)
    ensures Invariant(owner, Moved(w, m))
  {
    MoveInStep(owner, w, m);
    MoveOwned(owner, w, m);
    MoveShows(owner, w, m);
    assert w.answers != [] ==> SoundAnswer(w.mirror, w.server, w.answers[0]);
    MoveKeepsAwake(w, m);
    MoveKeepsCursorKnown(owner, w, m);
    MoveConserves(w, m);
    MoveKeeps(w, m);
  }

  /** The invariant holds in every state of every run. */
  lemma {:induction false} RunInvariant(owner: RowId -> RowId, ws: seq<World>, ms: seq<Move>, i: nat)
    requires IsRun(owner, ws, ms) && Invariant(owner, ws[0]) && i < |ws|
    ensures Invariant(owner, ws[i])
  {
    if i > 0 {
      RunInvariant(owner, ws, ms, i - 1);
      MoveKeepsInvariant(owner, ws[i - 1], ms[i - 1]);
    }
  }

  // ---- a client with nothing under way is up to date ----

  /** Connected, its last sync succeeded, no pull owed, no response under way. */
  predicate Quiescent(w: World) {
    w.signals.registered && !w.signals.stalled && !PullOwed(w) && w.answers == []
  }

  /** The views differ in the given rows only. */
  ghost predicate DiffersOnlyIn(rows: set<RowRef>, v: View, s: View) {
    forall r :: !SameRowShown(v, s, r) ==> r in rows
  }

  /**
   Everything the client can know: no pending edit, every edit delivered, the cursor at the
   counter or at the top of the list, and the view equal to the list - but for rows edited under
   a stamp that had lost before it was queued.
   */
  ghost predicate UpToDate(w: World) {
    && w.pending == [] && (w.cursor == w.server.counter || IsMaxSeq(Snapshot(w.server), w.cursor))
    && w.acked == w.queued && (forall m :: m in w.queued ==> Delivered(w.server, m))
    && DiffersOnlyIn(w.overruled, w.view, Snapshot(w.server))
    && (w.overruled == {} ==> w.view == Snapshot(w.server))
  }

  /** No row is above the counter. */
  lemma NothingAbove(t: Tables, v: View, base: View)
    requires SeqsDistinct(t) && DiffersOnlyAbove(v, base, t, t.counter)
    ensures v == base
  {
    forall n ensures !FreshNote(t, n, t.counter) {
      assert n in t.notes ==> SeqOf(t, NoteRef(n)) <= t.counter;
    }
    forall x ensures !FreshItem(t, x, t.counter) {
      assert x in t.items ==> SeqOf(t, ItemRef(x)) <= t.counter;
    }
    forall k ensures !FreshLabel(t, k, t.counter) {
      assert k in t.noteLabels ==> SeqOf(t, LabelRef(k)) <= t.counter;
    }
    CellsDetermineView(v, base);
  }

  /** With equal counters the list has not changed. */
  lemma SameCounterSameList(mirror: Tables, server: Tables)
    requires Consistent(server) && Consistent(mirror) && Evolves(mirror, server) && mirror.counter == server.counter
    ensures Snapshot(mirror) == Snapshot(server)
  {
    BaseDoesNotMatter(Snapshot(mirror), mirror, server, server.counter);
    NothingAbove(server, Snapshot(mirror), Snapshot(server));
  }

  lemma QuietShowsServer(owner: RowId -> RowId, view: View, mirror: Tables, server: Tables, lost: set<RowRef>)
    requires Consistent(server) && Consistent(mirror) && Evolves(mirror, server) && mirror.counter == server.counter
    requires ShowsMirror(owner, view, mirror, server, {}, lost)
    ensures DiffersOnlyIn(lost, view, Snapshot(server))
    ensures lost == {} ==> view == Snapshot(server)
  {
    var s := Snapshot(server);
    SameCounterSameList(mirror, server);
    forall r | Justified(server, mirror.counter, {}, lost, r) ensures r in lost {
    }
    forall r | !SameRowShown(view, s, r) ensures r in lost {
      match r {
        case NoteRef(n) =>
        case ItemRef(x) =>
          var n :| ItemAt(view, n, x) != ItemAt(s, n, x);
        case LabelRef(k) =>
          assert LabelKey(k.noteId, k.labelId) == k;
      }
    }
    if lost == {} {
      CellsDetermineView(view, s);
    }
  }

  lemma QuiescentIsUpToDate(owner: RowId -> RowId, w: World)
    requires Invariant(owner, w) && Quiescent(w)
    ensures UpToDate(w)
  {
    assert Reaches(w) && w.mirror.counter == w.server.counter;
    assert OutstandingEdits(w.pending, w.unread) == {};
    SameCounterSameList(w.mirror, w.server);
    QuietShowsServer(owner, w.view, w.mirror, w.server, w.overruled);
  }

  /**
   No lost wake-up, end to end: in every run since the page was opened, whatever is dropped, delayed, repeated or
   refused on the way, a connected client whose last sync succeeded either has something under
   way that will make it pull, or shows exactly the server's list, but for overruled edits, with
   all its edits delivered.
   */
  lemma EveryRunConverges(owner: RowId -> RowId, ws: seq<World>, ms: seq<Move>, i: nat)
    requires IsRun(owner, ws, ms) && Opened(owner, ws[0]) && i < |ws|
    ensures var w := ws[i];
            w.signals.registered && !w.signals.stalled ==> PullOwed(w) || w.answers != [] || UpToDate(w)
  {
    OpenedInvariant(owner, ws[0]);
    RunInvariant(owner, ws, ms, i);
    if Quiescent(ws[i]) {
      QuiescentIsUpToDate(owner, ws[i]);
    }
  }

  /**
   The same in terms of the cursor: a connected client whose cursor is below the counter is owed
   a pull, unless it has just been shown the current list, whose top the cursor is.
   */
  lemma EveryRunOwesAPull(owner: RowId -> RowId, ws: seq<World>, ms: seq<Move>, i: nat)
    requires IsRun(owner, ws, ms) && Opened(owner, ws[0]) && i < |ws|
    ensures var w := ws[i];
            w.signals.registered && !w.signals.stalled && w.cursor < w.server.counter ==>
              || PullOwed(w) || ReachingAnswer(w.answers, w.server.counter)
              || (Snapshot(w.mirror) == Snapshot(w.server) && IsMaxSeq(Snapshot(w.server), w.cursor)
                  && !NewestIsListed(w.server))
  {
    OpenedInvariant(owner, ws[0]);
    RunInvariant(owner, ws, ms, i);
    var w := ws[i];
    if w.mirror.counter == w.server.counter && w.cursor < w.server.counter {
      SameCounterSameList(w.mirror, w.server);
      ListCursorExact(w.server, w.cursor);
    }
  }

  /** No edit of the run is overruled before it is queued. */
  ghost predicate TimelyEdits(ws: seq<World>, ms: seq<Move>) {
    && |ws| == |ms| + 1
    && forall i :: 0 <= i < |ms| && ms[i].Edit? ==> forall m :: m in ms[i].ms ==> Effective(ws[i].server, m)
  }

  lemma {:induction false} TimelyEditsAreNotOverruled(owner: RowId -> RowId, ws: seq<World>, ms: seq<Move>, i: nat)
    requires IsRun(owner, ws, ms) && Opened(owner, ws[0]) && TimelyEdits(ws, ms) && i < |ws|
    ensures ws[i].overruled == {}
  {
    if i > 0 {
      TimelyEditsAreNotOverruled(owner, ws, ms, i - 1);
      if ms[i - 1].Edit? {
        assert OverruledRows(ws[i - 1].server, ms[i - 1].ms) == {};
      }
    }
  }

  /** With timely stamps the client ends up showing the list exactly. */
  lemma TimelyRunsShowTheList(owner: RowId -> RowId, ws: seq<World>, ms: seq<Move>, i: nat)
    requires IsRun(owner, ws, ms) && Opened(owner, ws[0]) && TimelyEdits(ws, ms) && i < |ws| && Quiescent(ws[i])
    ensures ws[i].view == Snapshot(ws[i].server)
  {
    TimelyEditsAreNotOverruled(owner, ws, ms, i);
    EveryRunConverges(owner, ws, ms, i);
  }

  /** At-least-once delivery over runs: every edit is accounted for, and what was acknowledged the server has. */
  lemma EveryRunConserves(owner: RowId -> RowId, ws: seq<World>, ms: seq<Move>, i: nat)
    requires IsRun(owner, ws, ms) && Opened(owner, ws[0]) && i < |ws|
    ensures var w := ws[i];
            && w.queued == multiset(w.pending) + Requested(w.unread) + Answered(w.answers) + w.acked
            && forall m :: m in w.acked ==> Delivered(w.server, m)
  {
    OpenedInvariant(owner, ws[0]);
    RunInvariant(owner, ws, ms, i);
  }

  // ---- the limit: a list that was overtaken ----

  /** A list read at the present counter is as good as a response. */
  lemma TimelyList(owner: RowId -> RowId, w: World, at: Tables, top: nat)
    requires Invariant(owner, w) && Quiescent(w) && Consistent(at) && Evolves(at, w.server)
    requires IsMaxSeq(Snapshot(at), top) && at.counter == w.server.counter
    ensures Awake(ListShown(w, at, top)) && UpToDate(ListShown(w, at, top))
  {
    QuiescentIsUpToDate(owner, w);
    SameCounterSameList(at, w.server);
  }

  /** A list that was overtaken takes view and cursor back, and nothing is under way that would bring them forward. */
  lemma OvertakenList(w: World, at: Tables, top: nat)
    requires Awake(w) && Quiescent(w) && Consistent(at)
    requires IsMaxSeq(Snapshot(at), top) && at.counter < w.server.counter
    ensures var w' := ListShown(w, at, top);
            !Awake(w') && Quiescent(w') && WorkLeft(w') == 0 && w'.cursor < w.server.counter
  {
    ListCursorBelow(at, top);
  }

  /**
   Lists and responses are assumed to arrive in the order in which the server computed them;
   the code does not see to it. A list read at an earlier state and applied last keeps a quiet
   client awake if and only if nothing was committed since it was read.
   */
  lemma OvertakenListExact(owner: RowId -> RowId, w: World, at: Tables, top: nat)
    requires Invariant(owner, w) && Quiescent(w) && Consistent(at) && Evolves(at, w.server)
    requires IsMaxSeq(Snapshot(at), top)
    ensures Awake(ListShown(w, at, top)) <==> at.counter == w.server.counter
  {
    if at.counter == w.server.counter {
      TimelyList(owner, w, at, top);
    } else {
      OvertakenList(w, at, top);
    }
  }

  // ---- the limit: a response that was overtaken ----

  /**
   A sync response reconciled after a newer one, by a quiet client that shows the list: it still
   does if and only if every row the response delivers reads the same by now. Otherwise the client
   stays quiet and keeps its cursor, so it asks from then on only for what is above the present
   counter.
   */
  lemma OvertakenAnswerExact(owner: RowId -> RowId, w: World, a: Answer)
    requires Invariant(owner, w) && Quiescent(w) && w.cursor == w.server.counter && w.view == Snapshot(w.server)
    requires a.Synced? && Evolves(a.at, w.server) && RefsIntact(a.at) && IsDelta(a.at, a.since, a.changes)
    ensures var w' := Reconciled(w, a);
            && Quiescent(w') && WorkLeft(w') == 0 && w'.cursor == w'.server.counter
            && (w'.view == Snapshot(w'.server)
                <==> forall r :: WrittenSince(a.at, a.since, r) ==> SameRowShown(Snapshot(a.at), Snapshot(w.server), r))
  {
    LateAnswerExact(a.at, w.server, a.since, a.changes);
  }
}
