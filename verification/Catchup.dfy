/**
 What the client shows, over every run of the machine in Protocol: the mirrored server state
 except where a pending edit or a newer server write explains the difference.
 */
module Catchup {
  import opened Results
  import opened Models
  import opened SyncSpec
  import opened Merge
  import opened History
  import opened Replica
  import opened Protocol
  import opened Seqs

  // ---- the responses under way ----

  /** What an answer says is what the server's state was when it was computed. */
  ghost predicate Truthful(since: nat, a: Answer) {
    match a
    case Synced(at, cursor, changes, _) => cursor <= since && IsDelta(at, cursor, changes)
    case Listed(at, top) => IsMaxSeq(Snapshot(at), top)
  }

  ghost predicate SoundAnswer(mirror: Tables, server: Tables, a: Answer) {
    && Consistent(a.at) && Evolves(mirror, a.at) && Evolves(a.at, server)
    && Truthful(mirror.counter, a)
  }

  /** The responses under way lead from the mirrored state towards the present. */
  ghost predicate Chain(mirror: Tables, server: Tables, answers: seq<Answer>) {
    && Consistent(server) && Consistent(mirror) && Evolves(mirror, server)
    && (forall i :: 0 <= i < |answers| ==> SoundAnswer(mirror, server, answers[i]))
    && (forall i, j :: 0 <= i < j < |answers| ==> Evolves(answers[i].at, answers[j].at))
  }

  predicate CursorsBelow(cursor: nat, unread: seq<Request>, bound: nat) {
    cursor <= bound && forall i :: 0 <= i < |unread| ==> unread[i].since <= bound
  }

  ghost predicate InStep(w: World) {
    Chain(w.mirror, w.server, w.answers) && CursorsBelow(w.cursor, w.unread, w.mirror.counter)
  }

  /** The server moves on. */
  lemma ChainCommit(mirror: Tables, server: Tables, answers: seq<Answer>, step: Step)
    requires Chain(mirror, server, answers) && Growing(step)
    ensures Chain(mirror, Take(server, step), answers) && Evolves(server, Take(server, step))
  {
    var server' := Take(server, step);
    StepKeepsConsistent(server, step);
    StepEvolves(server, step);
    EvolvesTransitive(mirror, server, server');
    forall i | 0 <= i < |answers| ensures SoundAnswer(mirror, server', answers[i]) {
      assert SoundAnswer(mirror, server, answers[i]);
      EvolvesTransitive(answers[i].at, server, server');
    }
  }

  /** A response computed now may be appended. */
  lemma ChainAnswer(mirror: Tables, server: Tables, answers: seq<Answer>, a: Answer)
    requires Chain(mirror, server, answers)
    requires a.at == server && Truthful(mirror.counter, a)
    ensures Chain(mirror, server, answers + [a])
  {
    EvolvesReflexive(server);
    forall i | 0 <= i < |answers| ensures Evolves(answers[i].at, server) {
      assert SoundAnswer(mirror, server, answers[i]);
    }
  }

  /** The first response is reconciled. */
  lemma ChainAdvance(mirror: Tables, server: Tables, answers: seq<Answer>)
    requires Chain(mirror, server, answers) && answers != []
    ensures Chain(answers[0].at, server, answers[1..]) && mirror.counter <= answers[0].at.counter
  {
    assert SoundAnswer(mirror, server, answers[0]);
    var at, rest := answers[0].at, answers[1..];
    forall i | 0 <= i < |rest| ensures SoundAnswer(at, server, rest[i]) {
      assert SoundAnswer(mirror, server, answers[i + 1]);
      assert Evolves(answers[0].at, answers[i + 1].at);
    }
    forall i, j | 0 <= i < j < |rest| ensures Evolves(rest[i].at, rest[j].at) {
      assert Evolves(answers[i + 1].at, answers[j + 1].at);
    }
  }

  /** Where the element at i of Remove(s, k) was in s. */
  function Before(k: nat, i: nat): nat {
    if i < k then i else i + 1
  }

  lemma RemoveShifts<X>(s: seq<X>, k: nat)
    requires k < |s|
    ensures |Remove(s, k)| == |s| - 1
    ensures forall i :: 0 <= i < |s| - 1 ==> Remove(s, k)[i] == s[Before(k, i)]
  {
  }

  /** A response is lost. */
  lemma ChainLoss(mirror: Tables, server: Tables, answers: seq<Answer>, k: nat)
    requires Chain(mirror, server, answers) && k < |answers|
    ensures Chain(mirror, server, Remove(answers, k))
  {
    RemoveShifts(answers, k);
    forall i, j | 0 <= i < j < |answers| - 1 ensures Evolves(Remove(answers, k)[i].at, Remove(answers, k)[j].at) {
      assert 0 <= Before(k, i) < Before(k, j) < |answers|;
    }
  }

  lemma CursorsAfterRemove(cursor: nat, unread: seq<Request>, bound: nat, i: nat)
    requires CursorsBelow(cursor, unread, bound) && i < |unread|
    ensures CursorsBelow(cursor, Remove(unread, i), bound)
  {
    RemoveShifts(unread, i);
  }

  lemma AnswerInStep(w: World, i: nat, changes: Changes)
    requires InStep(w) && Enabled(w, ServerApplies(i, changes))
    requires IsDelta(ApplyLog(w.server, w.unread[i].batch).value, w.unread[i].since, changes)
    ensures InStep(Moved(w, ServerApplies(i, changes)))
  {
    var r := w.unread[i];
    var at := Take(w.server, Push(r.batch));
    ChainCommit(w.mirror, w.server, w.answers, Push(r.batch));
    ChainAnswer(w.mirror, at, w.answers, Synced(at, r.since, changes, r.batch));
    CursorsAfterRemove(w.cursor, w.unread, w.mirror.counter, i);
  }

  lemma ListCursorInStep(mirror: Tables, server: Tables, a: Answer)
    requires SoundAnswer(mirror, server, a) && a.Listed?
    ensures a.top <= a.at.counter
  {
    ListCursorBelow(a.at, a.top);
  }

  lemma CursorAfterArrival(w: World)
    requires InStep(w) && w.answers != []
    ensures Moved(w, AnswerArrives).cursor <= w.answers[0].at.counter
  {
    var a := w.answers[0];
    assert SoundAnswer(w.mirror, w.server, a);
    if a.Listed? {
      ListCursorInStep(w.mirror, w.server, a);
    }
  }

  /** The cursor is never beyond the state the client has caught up with, be it set by a response or by a list. */
  lemma ArrivalInStep(w: World)
    requires InStep(w) && w.answers != []
    ensures InStep(Moved(w, AnswerArrives))
  {
    ChainAdvance(w.mirror, w.server, w.answers);
    CursorAfterArrival(w);
  }

  lemma RequestGoneInStep(w: World, m: Move)
    requires InStep(w) && Enabled(w, m) && (m.ServerRefuses? || m.LosesRequest?)
    ensures InStep(Moved(w, m))
  {
    CursorsAfterRemove(w.cursor, w.unread, w.mirror.counter, m.i);
  }

  lemma AnswerGoneInStep(w: World, i: nat)
    requires InStep(w) && i < |w.answers|
    ensures InStep(Moved(w, LosesAnswer(i)))
  {
    ChainLoss(w.mirror, w.server, w.answers, i);
  }

  /** In every run the responses under way keep leading from the client's state to the server's. */
  lemma MoveInStep(owner: RowId -> RowId, w: World, m: Move)
    requires InStep(w) && Sound(owner, w, m)
    ensures InStep(Moved(w, m))
  {
    match m {
      case Commit(step) => ChainCommit(w.mirror, w.server, w.answers, step);
      case ServerApplies(i, changes) => AnswerInStep(w, i, changes);
      case ServerRefuses(_) => RequestGoneInStep(w, m);
      case LosesRequest(_) => RequestGoneInStep(w, m);
      case ServerLists(top) => ChainAnswer(w.mirror, w.server, w.answers, Listed(w.server, top));
      case AnswerArrives => ArrivalInStep(w);
      case LosesAnswer(i) => AnswerGoneInStep(w, i);
      case OrphanArrives(i) => ChainCommit(w.mirror, w.server, w.answers, Push(w.orphans[i]));
      case _ =>
    }
  }

  // ---- owners ----

  ghost predicate OwnedTables(owner: RowId -> RowId, t: Tables) {
    forall x :: x in t.items ==> t.items[x].noteId == owner(x)
  }

  ghost predicate AllBatchesOwned(owner: RowId -> RowId, pending: seq<Mutation>, unread: seq<Request>,
                                  answers: seq<Answer>, orphans: seq<seq<Mutation>>) {
    && AllOwned(owner, pending)
    && (forall i :: 0 <= i < |unread| ==> AllOwned(owner, unread[i].batch))
    && (forall i :: 0 <= i < |answers| ==> AllOwned(owner, BatchOf(answers[i])))
    && (forall i :: 0 <= i < |orphans| ==> AllOwned(owner, orphans[i]))
  }

  /** Every item, wherever it is, names the same note. */
  ghost predicate OwnersAgree(owner: RowId -> RowId, w: World) {
    OwnedTables(owner, w.server) && AllBatchesOwned(owner, w.pending, w.unread, w.answers, w.orphans)
  }

  lemma {:induction false} LogOwned(owner: RowId -> RowId, t: Tables, log: seq<Mutation>)
    requires OwnedTables(owner, t) && AllOwned(owner, log) && ApplyLog(t, log).Ok?
    ensures OwnedTables(owner, ApplyLog(t, log).value)
  {
    forall x | x in ApplyLog(t, log).value.items ensures ApplyLog(t, log).value.items[x].noteId == owner(x) {
      LogOwners(t, log, x);
    }
  }

  lemma StepOwned(owner: RowId -> RowId, t: Tables, step: Step)
    requires OwnedTables(owner, t) && Growing(step) && (step.Push? ==> AllOwned(owner, step.batch))
    ensures OwnedTables(owner, Take(t, step))
  {
    if step.Push? && ApplyLog(t, step.batch).Ok? {
      LogOwned(owner, t, step.batch);
    }
  }

  lemma LostRequestOwned(owner: RowId -> RowId, w: World, i: nat)
    requires OwnersAgree(owner, w) && i < |w.unread|
    ensures OwnersAgree(owner, Moved(w, LosesRequest(i)))
    ensures ApplyLog(w.server, w.unread[i].batch).Err? ==> OwnersAgree(owner, Moved(w, ServerRefuses(i)))
  {
    RemoveShifts(w.unread, i);
  }

  lemma LostAnswerOwned(owner: RowId -> RowId, w: World, i: nat)
    requires OwnersAgree(owner, w) && i < |w.answers|
    ensures OwnersAgree(owner, Moved(w, LosesAnswer(i)))
  {
    RemoveShifts(w.answers, i);
  }

  lemma AnswerOwned(owner: RowId -> RowId, w: World, i: nat, changes: Changes)
    requires OwnersAgree(owner, w) && Enabled(w, ServerApplies(i, changes))
    ensures OwnersAgree(owner, Moved(w, ServerApplies(i, changes)))
  {
    StepOwned(owner, w.server, Push(w.unread[i].batch));
    RemoveShifts(w.unread, i);
  }

  lemma OrphanOwned(owner: RowId -> RowId, w: World, i: nat)
    requires OwnersAgree(owner, w) && i < |w.orphans|
    ensures OwnersAgree(owner, Moved(w, OrphanArrives(i)))
  {
    StepOwned(owner, w.server, Push(w.orphans[i]));
    RemoveShifts(w.orphans, i);
  }

  lemma MoveOwned(owner: RowId -> RowId, w: World, m: Move)
    requires OwnersAgree(owner, w) && Sound(owner, w, m)
    ensures OwnersAgree(owner, Moved(w, m))
  {
    match m {
      case Commit(step) => StepOwned(owner, w.server, step);
      case ServerApplies(i, changes) => AnswerOwned(owner, w, i, changes);
      case ServerRefuses(i) => LostRequestOwned(owner, w, i);
      case LosesRequest(i) => LostRequestOwned(owner, w, i);
      case LosesAnswer(i) => LostAnswerOwned(owner, w, i);
      case OrphanArrives(i) => OrphanOwned(owner, w, i);
      case _ =>
    }
  }

  // ---- what the client shows ----

  /** The edits still to be pushed or not yet read by the server. */
  function OutstandingEdits(pending: seq<Mutation>, unread: seq<Request>): set<Mutation> {
    (set m | m in pending) + (set i, m | 0 <= i < |unread| && m in unread[i].batch :: m)
  }

  /** An edit of row r is outstanding and not yet covered. */
  ghost predicate EditPending(server: Tables, out: set<Mutation>, r: RowRef) {
    exists m :: m in out && Addresses(m, r) && Effective(server, m)
  }

  /** Why the client may show something else than the mirrored state in row r. */
  ghost predicate Justified(server: Tables, since: nat, out: set<Mutation>, lost: set<RowRef>, r: RowRef) {
    WrittenSince(server, since, r) || EditPending(server, out, r) || r in lost
  }

  /**
   The client shows the mirrored state except where an outstanding edit, a newer server write or
   an overruled edit explains the difference.
   */
  ghost predicate ShowsMirror(owner: RowId -> RowId, view: View, mirror: Tables, server: Tables, out: set<Mutation>,
                              lost: set<RowRef>) {
    var s, since := Snapshot(mirror), mirror.counter;
    && (forall n :: n in mirror.notes ==> n in view)
    && (forall n :: NoteAt(view, n) != NoteAt(s, n) ==> Justified(server, since, out, lost, NoteRef(n)))
    && (forall n, x :: ItemAt(view, n, x) != ItemAt(s, n, x) ==>
          owner(x) == n && Justified(server, since, out, lost, ItemRef(x)))
    && (forall n, l :: LabelAt(view, n, l) != LabelAt(s, n, l) ==>
          Justified(server, since, out, lost, LabelRef(LabelKey(n, l))))
  }

  ghost predicate Shows(owner: RowId -> RowId, w: World) {
    ShowsMirror(owner, w.view, w.mirror, w.server, OutstandingEdits(w.pending, w.unread), w.overruled)
  }

  /** Outstanding edits may leave only by being covered. */
  ghost predicate OnlyCoveredLeave(server': Tables, out: set<Mutation>, out': set<Mutation>) {
    forall m :: m in out && m !in out' ==> !Effective(server', m)
  }

  lemma JustifiedStays(server: Tables, server': Tables, since: nat, out: set<Mutation>, out': set<Mutation>,
                       lost: set<RowRef>, r: RowRef)
    requires Evolves(server, server') && since <= server.counter && OnlyCoveredLeave(server', out, out')
    requires Justified(server, since, out, lost, r)
    ensures Justified(server', since, out', lost, r)
  {
    if WrittenSince(server, since, r) {
      WrittenStays(server, server', since, r);
    } else if r !in lost {
      var m :| m in out && Addresses(m, r) && Effective(server, m);
      if !Effective(server', m) {
        ClockMoved(server, server', m);
      }
    }
  }

  lemma ShowsStays(owner: RowId -> RowId, view: View, mirror: Tables, server: Tables, server': Tables,
                   out: set<Mutation>, out': set<Mutation>, lost: set<RowRef>)
    requires ShowsMirror(owner, view, mirror, server, out, lost)
    requires Evolves(mirror, server) && Evolves(server, server') && OnlyCoveredLeave(server', out, out')
    ensures ShowsMirror(owner, view, mirror, server', out', lost)
  {
    var since := mirror.counter;
    forall r | Justified(server, since, out, lost, r) ensures Justified(server', since, out', lost, r) {
      JustifiedStays(server, server', since, out, out', lost, r);
    }
  }

  /** A local edit justifies what it changes: it is outstanding, or already overruled. */
  lemma EditJustifies(server: Tables, since: nat, out: set<Mutation>, lost: set<RowRef>, ms: seq<Mutation>, r: RowRef)
    requires Touched(ms, r) && forall m :: m in ms ==> m in out
    requires OverruledRows(server, ms) <= lost
    ensures Justified(server, since, out, lost, r)
  {
    var m :| m in ms && Addresses(m, r);
    if Effective(server, m) {
      assert EditPending(server, out, r);
    } else {
      assert r in OverruledRows(server, ms);
    }
  }

  lemma EditShows(owner: RowId -> RowId, view: View, shown: View, mirror: Tables, server: Tables,
                  out: set<Mutation>, lost: set<RowRef>, lost': set<RowRef>, ms: seq<Mutation>)
    requires ShowsMirror(owner, view, mirror, server, out, lost) && ChangesOnly(owner, view, shown, ms)
    requires (forall m :: m in ms ==> m in out) && lost' == lost + OverruledRows(server, ms)
    ensures ShowsMirror(owner, shown, mirror, server, out, lost')
  {
    forall r | Touched(ms, r) ensures Justified(server, mirror.counter, out, lost', r) {
      EditJustifies(server, mirror.counter, out, lost', ms, r);
    }
  }

  // ---- reconciling a response ----

  lemma NotesKept(view: View, mirror: Tables, a: Answer, n: RowId)
    requires a.Synced? && Evolves(mirror, a.at) && Truthful(mirror.counter, a)
    requires forall n :: n in mirror.notes ==> n in view
    requires n in a.at.notes
    ensures NoteAt(Reconcile(view, a.changes), n).Some?
  {
    ReconcileCells(view, a.at, a.since, a.changes, n, n, n);
  }

  /** A write after the mirrored state that the response does not contain came after the response. */
  lemma NotDeliveredIsLater(mirror: Tables, server: Tables, a: Answer, out: set<Mutation>, lost: set<RowRef>, r: RowRef)
    requires a.Synced? && SoundAnswer(mirror, server, a) && Justified(server, mirror.counter, out, lost, r)
    requires !WrittenSince(a.at, a.since, r)
    ensures Justified(server, a.at.counter, out, Undelivered(lost, a.at, a.since), r)
  {
  }

  lemma ReconciledNote(owner: RowId -> RowId, view: View, mirror: Tables, server: Tables, out: set<Mutation>,
                       lost: set<RowRef>, a: Answer, n: RowId)
    requires ShowsMirror(owner, view, mirror, server, out, lost) && RefsIntact(mirror)
    requires a.Synced? && SoundAnswer(mirror, server, a)
    requires NoteAt(Reconcile(view, a.changes), n) != NoteAt(Snapshot(a.at), n)
    ensures Justified(server, a.at.counter, out, Undelivered(lost, a.at, a.since), NoteRef(n))
  {
    ReconcileCells(view, a.at, a.since, a.changes, n, n, n);
    SnapshotCells(a.at, n, n, n);
    SameBelow(mirror, a.at, a.since, n, n);
    NotDeliveredIsLater(mirror, server, a, out, lost, NoteRef(n));
  }

  lemma DeliveredItem(view: View, mirror: Tables, a: Answer, n: RowId, x: RowId)
    requires a.Synced? && Evolves(mirror, a.at) && Truthful(mirror.counter, a)
    requires RefsIntact(a.at) && forall n :: n in mirror.notes ==> n in view
    ensures ItemAt(Reconcile(view, a.changes), n, x)
            == if FreshItem(a.at, x, a.since) && a.at.items[x].noteId == n then ItemAt(Snapshot(a.at), n, x)
               else ItemAt(view, n, x)
  {
    ReconcileCells(view, a.at, a.since, a.changes, n, x, x);
    SnapshotCells(a.at, n, x, x);
    if FreshItem(a.at, x, a.since) && a.at.items[x].noteId == n {
      NotesKept(view, mirror, a, n);
    }
  }

  lemma UndeliveredItem(owner: RowId -> RowId, view: View, mirror: Tables, a: Answer, n: RowId, x: RowId)
    requires a.Synced? && Evolves(mirror, a.at) && Truthful(mirror.counter, a)
    requires RefsIntact(mirror) && RefsIntact(a.at) && OwnedTables(owner, a.at)
    requires forall n :: n in mirror.notes ==> n in view
    requires ItemAt(view, n, x) != ItemAt(Snapshot(mirror), n, x) ==> owner(x) == n
    requires ItemAt(Reconcile(view, a.changes), n, x) != ItemAt(Snapshot(a.at), n, x)
    ensures ItemAt(view, n, x) != ItemAt(Snapshot(mirror), n, x) && !FreshItem(a.at, x, a.since)
  {
    DeliveredItem(view, mirror, a, n, x);
    SameBelow(mirror, a.at, a.since, n, x);
  }

  lemma ReconciledItem(owner: RowId -> RowId, view: View, mirror: Tables, server: Tables, out: set<Mutation>,
                       lost: set<RowRef>, a: Answer, n: RowId, x: RowId)
    requires ShowsMirror(owner, view, mirror, server, out, lost) && RefsIntact(mirror)
    requires a.Synced? && SoundAnswer(mirror, server, a)
    requires OwnedTables(owner, a.at)
    requires ItemAt(Reconcile(view, a.changes), n, x) != ItemAt(Snapshot(a.at), n, x)
    ensures owner(x) == n && Justified(server, a.at.counter, out, Undelivered(lost, a.at, a.since), ItemRef(x))
  {
    UndeliveredItem(owner, view, mirror, a, n, x);
    NotDeliveredIsLater(mirror, server, a, out, lost, ItemRef(x));
  }

  lemma ReconciledLabel(owner: RowId -> RowId, view: View, mirror: Tables, server: Tables, out: set<Mutation>,
                        lost: set<RowRef>, a: Answer, n: RowId, l: RowId)
    requires ShowsMirror(owner, view, mirror, server, out, lost) && RefsIntact(mirror)
    requires a.Synced? && SoundAnswer(mirror, server, a)
    requires LabelAt(Reconcile(view, a.changes), n, l) != LabelAt(Snapshot(a.at), n, l)
    ensures Justified(server, a.at.counter, out, Undelivered(lost, a.at, a.since), LabelRef(LabelKey(n, l)))
  {
    ReconcileCells(view, a.at, a.since, a.changes, n, l, l);
    SnapshotCells(a.at, n, l, l);
    if FreshLabel(a.at, LabelKey(n, l), a.since) {
      NotesKept(view, mirror, a, n);
    } else {
      SameBelow(mirror, a.at, a.since, n, l);
      NotDeliveredIsLater(mirror, server, a, out, lost, LabelRef(LabelKey(n, l)));
    }
  }

  /** A list leaves nothing to explain. */
  lemma ListShows(owner: RowId -> RowId, at: Tables, server: Tables, out: set<Mutation>)
    ensures ShowsMirror(owner, Snapshot(at), at, server, out, {})
  {
  }

  lemma ReconcileShows(owner: RowId -> RowId, view: View, mirror: Tables, server: Tables, out: set<Mutation>,
                       lost: set<RowRef>, a: Answer)
    requires ShowsMirror(owner, view, mirror, server, out, lost) && RefsIntact(mirror)
    requires a.Synced? && SoundAnswer(mirror, server, a)
    requires OwnedTables(owner, a.at)
    ensures ShowsMirror(owner, Reconcile(view, a.changes), a.at, server, out, Undelivered(lost, a.at, a.since))
  {
    var view' := Reconcile(view, a.changes);
    forall n | n in a.at.notes ensures n in view' {
      NotesKept(view, mirror, a, n);
    }
    forall n | NoteAt(view', n) != NoteAt(Snapshot(a.at), n)
      ensures Justified(server, a.at.counter, out, Undelivered(lost, a.at, a.since), NoteRef(n))
    {
      ReconciledNote(owner, view, mirror, server, out, lost, a, n);
    }
    forall n, x | ItemAt(view', n, x) != ItemAt(Snapshot(a.at), n, x)
      ensures owner(x) == n && Justified(server, a.at.counter, out, Undelivered(lost, a.at, a.since), ItemRef(x))
    {
      ReconciledItem(owner, view, mirror, server, out, lost, a, n, x);
    }
    forall n, l | LabelAt(view', n, l) != LabelAt(Snapshot(a.at), n, l)
      ensures Justified(server, a.at.counter, out, Undelivered(lost, a.at, a.since), LabelRef(LabelKey(n, l)))
    {
      ReconciledLabel(owner, view, mirror, server, out, lost, a, n, l);
    }
  }
}
