/**
 What the bookkeeping of the machine in Protocol means, told from the moves of a run alone: which
 edits were ever queued and in which order they are served, when the last sync counts as failed,
 and which rows count as edited under a stamp that had lost.
 */
module Ledger {
  import opened Results
  import opened Models
  import opened SyncSpec
  import opened Merge
  import opened History
  import opened Replica
  import opened Protocol
  import opened Seqs
  import opened Catchup
  import opened Convergence

  // ---- the edits of a run ----

  function MadeBy(m: Move): seq<Mutation> {
    if m.Edit? then m.ms else []
  }

  /** Everything the user did, in order. */
  function Edited(ms: seq<Move>): seq<Mutation> {
    if ms == [] then [] else Edited(ms[..|ms| - 1]) + MadeBy(ms[|ms| - 1])
  }

  lemma EditedNext(ms: seq<Move>, i: nat)
    requires i < |ms|
    ensures Edited(ms[..i + 1]) == Edited(ms[..i]) + MadeBy(ms[i])
  {
    assert ms[..i + 1][..i] == ms[..i];
  }

  lemma MoveQueues(w: World, m: Move)
    requires Enabled(w, m)
    ensures Moved(w, m).queued == w.queued + multiset(MadeBy(m))
  {
  }

  lemma CountedTogether(a: seq<Mutation>, b: seq<Mutation>)
    ensures multiset(a + b) == multiset(a) + multiset(b)
  {
  }

  /** In every run, what counts as queued are the user's edits, each as often as it was made. */
  lemma {:induction false} QueuedAreTheEdits(owner: RowId -> RowId, ws: seq<World>, ms: seq<Move>, i: nat)
    requires IsRun(owner, ws, ms) && ws[0].queued == multiset{} && i < |ws|
    ensures ws[i].queued == multiset(Edited(ms[..i]))
  {
    if i > 0 {
      QueuedAreTheEdits(owner, ws, ms, i - 1);
      EditedNext(ms, i - 1);
      assert ws[i] == Moved(ws[i - 1], ms[i - 1]);
      MoveQueues(ws[i - 1], ms[i - 1]);
      CountedTogether(Edited(ms[..i - 1]), MadeBy(ms[i - 1]));
    }
  }

  // ---- edits stay in line ----

  /** Where the edits on their way are: in one request or one response. */
  datatype Place = Nowhere | InRequest(i: nat) | InResponse(i: nat)

  /** No other request or response than the one at p carries edits. */
  predicate CarriesAlone(w: World, p: Place) {
    && (p.InRequest? ==> p.i < |w.unread|) && (p.InResponse? ==> p.i < |w.answers|)
    && (forall k :: 0 <= k < |w.unread| && w.unread[k].batch != [] ==> p == InRequest(k))
    && (forall k :: 0 <= k < |w.answers| && BatchOf(w.answers[k]) != [] ==> p == InResponse(k))
  }

  function CarriedAt(w: World, p: Place): seq<Mutation>
    requires CarriesAlone(w, p)
  {
    match p
    case Nowhere => []
    case InRequest(i) => w.unread[i].batch
    case InResponse(i) => BatchOf(w.answers[i])
  }

  /** The edits on their way, followed by those that wait. */
  function Line(w: World, p: Place): seq<Mutation>
    requires CarriesAlone(w, p)
  {
    CarriedAt(w, p) + w.pending
  }

  /** What the response that arrives acknowledges. */
  function AckedBy(w: World, m: Move): seq<Mutation> {
    if m.AnswerArrives? && w.answers != [] then BatchOf(w.answers[0]) else []
  }

  /** The edits that wait leave only when no others are on their way. */
  predicate InTurn(w: World, m: Move) {
    m.SyncNow? && w.pending != [] ==> CarriesAlone(w, Nowhere)
  }

  /** A place after the element at k is gone. */
  function Shifted(i: nat, k: nat): nat {
    if i < k then i else if i > k then i - 1 else 0
  }

  lemma SyncInLine(w: World, trigger: Trigger, p: Place) returns (q: Place)
    requires CarriesAlone(w, p) && Enabled(w, SyncNow(trigger)) && InTurn(w, SyncNow(trigger))
    ensures CarriesAlone(Moved(w, SyncNow(trigger)), q) && Line(w, p) == Line(Moved(w, SyncNow(trigger)), q)
  {
    var w' := Moved(w, SyncNow(trigger));
    if w.pending == [] {
      q := p;
    } else {
      q := InRequest(|w.unread|);
      assert CarriedAt(w, p) == [];
    }
  }

  lemma AnswerInLine(w: World, k: nat, p: Place, a: Answer, w': World) returns (q: Place)
    requires CarriesAlone(w, p) && k < |w.unread| && BatchOf(a) == w.unread[k].batch
    requires w'.unread == Remove(w.unread, k) && w'.answers == w.answers + [a] && w'.pending == w.pending
    ensures CarriesAlone(w', q) && Line(w, p) == Line(w', q)
  {
    RemoveShifts(w.unread, k);
    if p == InRequest(k) {
      q := InResponse(|w.answers|);
    } else {
      assert w.unread[k].batch == [];
      q := if p.InRequest? then InRequest(Shifted(p.i, k)) else p;
    }
  }

  /** The edits go back in front of those that wait. */
  lemma RequestBackInLine(w: World, k: nat, p: Place, w': World) returns (q: Place)
    requires CarriesAlone(w, p) && k < |w.unread|
    requires w'.unread == Remove(w.unread, k) && w'.answers == w.answers && w'.pending == w.unread[k].batch + w.pending
    ensures CarriesAlone(w', q) && Line(w, p) == Line(w', q)
  {
    RemoveShifts(w.unread, k);
    if p == InRequest(k) {
      q := Nowhere;
    } else {
      assert w.unread[k].batch == [] && w'.pending == w.pending;
      q := if p.InRequest? then InRequest(Shifted(p.i, k)) else p;
    }
  }

  lemma AnswerBackInLine(w: World, k: nat, p: Place, w': World) returns (q: Place)
    requires CarriesAlone(w, p) && k < |w.answers|
    requires w'.answers == Remove(w.answers, k) && w'.unread == w.unread
    requires w'.pending == BatchOf(w.answers[k]) + w.pending
    ensures CarriesAlone(w', q) && Line(w, p) == Line(w', q)
  {
    RemoveShifts(w.answers, k);
    if p == InResponse(k) {
      q := Nowhere;
    } else {
      assert BatchOf(w.answers[k]) == [] && w'.pending == w.pending;
      q := if p.InResponse? then InResponse(Shifted(p.i, k)) else p;
    }
  }

  lemma ArrivalInLine(w: World, p: Place, w': World) returns (q: Place)
    requires CarriesAlone(w, p) && w.answers != []
    requires w'.unread == w.unread && w'.answers == w.answers[1..] && w'.pending == w.pending
    ensures CarriesAlone(w', q) && Line(w, p) == BatchOf(w.answers[0]) + Line(w', q)
  {
    if p == InResponse(0) {
      q := Nowhere;
    } else {
      assert BatchOf(w.answers[0]) == [];
      q := if p.InResponse? then InResponse(p.i - 1) else p;
    }
  }

  /** A sync that fails gives its edits back. */
  lemma FailureInLine(w: World, m: Move, p: Place) returns (q: Place)
    requires CarriesAlone(w, p) && Enabled(w, m) && (m.ServerRefuses? || m.LosesRequest? || m.LosesAnswer?)
    ensures CarriesAlone(Moved(w, m), q) && Line(w, p) == Line(Moved(w, m), q)
  {
    if m.LosesAnswer? {
      q := AnswerBackInLine(w, m.i, p, Moved(w, m));
    } else {
      q := RequestBackInLine(w, m.i, p, Moved(w, m));
    }
  }

  lemma EditJoinsLine(w: World, ms: seq<Mutation>, shown: View, p: Place)
    requires CarriesAlone(w, p)
    ensures CarriesAlone(Moved(w, Edit(ms, shown)), p) && Line(Moved(w, Edit(ms, shown)), p) == Line(w, p) + ms
  {
    Associates(CarriedAt(w, p), w.pending, ms);
  }

  lemma OthersKeepLine(w: World, m: Move, p: Place)
    requires CarriesAlone(w, p) && Enabled(w, m)
    requires m.Commit? || m.Signal? || m.ServerLists? || m.OrphanArrives?
    ensures CarriesAlone(Moved(w, m), p) && Line(w, p) == Line(Moved(w, m), p)
  {
  }

  /** A move that neither is an edit nor brings an answer leaves the line as it is. */
  lemma QuietMoveKeepsLine(w: World, m: Move, p: Place) returns (q: Place)
    requires CarriesAlone(w, p) && Enabled(w, m) && InTurn(w, m) && !m.Edit? && !m.AnswerArrives?
    ensures CarriesAlone(Moved(w, m), q) && Line(w, p) == Line(Moved(w, m), q)
  {
    q := p;
    match m {
      case SyncNow(trigger) => q := SyncInLine(w, trigger, p);
      case ServerApplies(k, _) => q := AnswerInLine(w, k, p, Moved(w, m).answers[|w.answers|], Moved(w, m));
      case ServerRefuses(_) => q := FailureInLine(w, m, p);
      case LosesRequest(_) => q := FailureInLine(w, m, p);
      case LosesAnswer(_) => q := FailureInLine(w, m, p);
      case _ => OthersKeepLine(w, m, p);
    }
  }

  /** One move: the front of the line may be acknowledged, and new edits join at its end. */
  lemma MoveKeepsLine(w: World, m: Move, p: Place) returns (q: Place)
    requires CarriesAlone(w, p) && Enabled(w, m) && InTurn(w, m)
    ensures CarriesAlone(Moved(w, m), q)
    ensures Line(w, p) + MadeBy(m) == AckedBy(w, m) + Line(Moved(w, m), q)
  {
    if m.Edit? {
      q := p;
      EditJoinsLine(w, m.ms, m.shown, p);
    } else if m.AnswerArrives? {
      q := ArrivalInLine(w, p, Moved(w, m));
    } else {
      q := QuietMoveKeepsLine(w, m, p);
    }
  }

  /** What was acknowledged in a run, in order. */
  function Acknowledged(ws: seq<World>, ms: seq<Move>): seq<Mutation>
    requires |ws| == |ms| + 1
  {
    if ms == [] then []
    else
      var n := |ms| - 1;
      Acknowledged(ws[..n + 1], ms[..n]) + AckedBy(ws[n], ms[n])
  }

  lemma InOneLine(acked: seq<Mutation>, line: seq<Mutation>, made: seq<Mutation>, more: seq<Mutation>,
                  rest: seq<Mutation>)
    requires line + made == more + rest
    ensures (acked + line) + made == (acked + more) + rest
  {
    Associates(acked, line, made);
    Associates(acked, more, rest);
  }

  /**
   First come, first served, through any refusals, losses and retries: in a run in which edits leave
   only when no others are on their way, what was acknowledged, what is on its way and what waits are
   the user's edits in the order in which they were made.
   */
  lemma {:induction false} EditsStayInLine(owner: RowId -> RowId, ws: seq<World>, ms: seq<Move>, i: nat)
    returns (p: Place)
    requires IsRun(owner, ws, ms) && Opened(owner, ws[0]) && i < |ws|
    requires forall k :: 0 <= k < |ms| ==> InTurn(ws[k], ms[k])
    ensures CarriesAlone(ws[i], p)
    ensures Acknowledged(ws[..i + 1], ms[..i]) + Line(ws[i], p) == Edited(ms[..i])
  {
    if i == 0 {
      p := Nowhere;
    } else {
      var n := i - 1;
      var before := EditsStayInLine(owner, ws, ms, n);
      p := MoveKeepsLine(ws[n], ms[n], before);
      EditedNext(ms, n);
      assert ws[..i + 1][..n + 1] == ws[..n + 1] && ms[..i][..n] == ms[..n];
      InOneLine(Acknowledged(ws[..n + 1], ms[..n]), Line(ws[n], before), MadeBy(ms[n]), AckedBy(ws[n], ms[n]),
                Line(ws[i], p));
    }
  }

  // ---- what holds since a move ----

  /** Some move has set it, and none has cleared it since. */
  ghost predicate Since(ws: seq<World>, ms: seq<Move>, i: nat, sets: (World, Move) -> bool,
                        clears: (World, Move) -> bool)
    requires i <= |ms| < |ws|
  {
    exists k :: 0 <= k < i && sets(ws[k], ms[k]) && forall l :: k < l < i ==> !clears(ws[l], ms[l])
  }

  lemma SinceNext(ws: seq<World>, ms: seq<Move>, i: nat, sets: (World, Move) -> bool, clears: (World, Move) -> bool)
    requires i < |ms| < |ws|
    ensures Since(ws, ms, i + 1, sets, clears)
            <==> sets(ws[i], ms[i]) || (Since(ws, ms, i, sets, clears) && !clears(ws[i], ms[i]))
  {
    if Since(ws, ms, i, sets, clears) && !clears(ws[i], ms[i]) {
      var k :| 0 <= k < i && sets(ws[k], ms[k]) && forall l :: k < l < i ==> !clears(ws[l], ms[l]);
      assert sets(ws[k], ms[k]);
    }
  }

  /** A property of states that each move sets, clears or leaves holds exactly since it was last set. */
  lemma {:induction false} HoldsSince(owner: RowId -> RowId, ws: seq<World>, ms: seq<Move>, i: nat,
                                      holds: World -> bool, sets: (World, Move) -> bool, clears: (World, Move) -> bool)
    requires IsRun(owner, ws, ms) && !holds(ws[0]) && i < |ws|
    requires forall w, m :: Enabled(w, m) ==> (holds(Moved(w, m)) <==> sets(w, m) || (holds(w) && !clears(w, m)))
    ensures holds(ws[i]) <==> Since(ws, ms, i, sets, clears)
  {
    if i > 0 {
      var n := i - 1;
      HoldsSince(owner, ws, ms, n, holds, sets, clears);
      SinceNext(ws, ms, n, sets, clears);
      assert ws[i] == Moved(ws[n], ms[n]) && Enabled(ws[n], ms[n]);
    }
  }

  // ---- scheduled pulls, and the last sync that failed ----

  predicate Flushes(w: World) {
    w.signals.flush
  }

  predicate Scheduled(w: World) {
    w.signals.timer
  }

  predicate Stalled(w: World) {
    w.signals.stalled
  }

  predicate MakesEdits(w: World, m: Move) {
    MadeBy(m) != []
  }

  predicate StartsSync(w: World, m: Move) {
    m.SyncNow?
  }

  predicate ReceivesHint(w: World, m: Move) {
    m == Signal(ClientReceives)
  }

  predicate StartsPull(w: World, m: Move) {
    m == SyncNow(PullTimer)
  }

  /** A sync ends without its response: refused, lost on the way, or its response lost. */
  predicate SyncFailsAt(w: World, m: Move) {
    m.ServerRefuses? || m.LosesRequest? || (m.LosesAnswer? && m.i < |w.answers| && w.answers[m.i].Synced?)
  }

  lemma MoveFlushes(w: World, m: Move)
    requires Enabled(w, m)
    ensures Flushes(Moved(w, m)) <==> MakesEdits(w, m) || (Flushes(w) && !StartsSync(w, m))
  {
  }

  lemma MoveSchedules(w: World, m: Move)
    requires Enabled(w, m)
    ensures Scheduled(Moved(w, m)) <==> ReceivesHint(w, m) || (Scheduled(w) && !StartsPull(w, m))
  {
  }

  lemma MoveStalls(w: World, m: Move)
    requires Enabled(w, m)
    ensures Stalled(Moved(w, m)) <==> SyncFailsAt(w, m) || (Stalled(w) && !StartsSync(w, m))
  {
  }

  /**
   In every run the flush timer runs exactly if an edit was made and no sync was started since, a
   pull is scheduled exactly if a hint came in and no scheduled pull was started since, and the last
   sync counts as failed exactly if one has failed and none was started since.
   */
  lemma SignalsExact(owner: RowId -> RowId, ws: seq<World>, ms: seq<Move>, i: nat)
    requires IsRun(owner, ws, ms) && Opened(owner, ws[0]) && i < |ws|
    ensures ws[i].signals.flush <==> Since(ws, ms, i, MakesEdits, StartsSync)
    ensures ws[i].signals.timer <==> Since(ws, ms, i, ReceivesHint, StartsPull)
    ensures ws[i].signals.stalled <==> Since(ws, ms, i, SyncFailsAt, StartsSync)
  {
    forall w, m | Enabled(w, m)
      ensures Flushes(Moved(w, m)) <==> MakesEdits(w, m) || (Flushes(w) && !StartsSync(w, m))
      ensures Scheduled(Moved(w, m)) <==> ReceivesHint(w, m) || (Scheduled(w) && !StartsPull(w, m))
      ensures Stalled(Moved(w, m)) <==> SyncFailsAt(w, m) || (Stalled(w) && !StartsSync(w, m))
    {
      MoveFlushes(w, m);
      MoveSchedules(w, m);
      MoveStalls(w, m);
    }
    HoldsSince(owner, ws, ms, i, Flushes, MakesEdits, StartsSync);
    HoldsSince(owner, ws, ms, i, Scheduled, ReceivesHint, StartsPull);
    HoldsSince(owner, ws, ms, i, Stalled, SyncFailsAt, StartsSync);
  }

  // ---- what an arrival leaves ----

  /** In every run a list that arrives is shown as it is, and sets the cursor to the greatest number in it. */
  lemma ListArrivalLoads(owner: RowId -> RowId, ws: seq<World>, ms: seq<Move>, i: nat)
    requires IsRun(owner, ws, ms) && Opened(owner, ws[0]) && i < |ms|
    requires ms[i].AnswerArrives? && ws[i].answers[0].Listed?
    ensures ws[i + 1].view == Snapshot(ws[i].answers[0].at) && IsMaxSeq(ws[i + 1].view, ws[i + 1].cursor)
  {
    OpenedInvariant(owner, ws[0]);
    RunInvariant(owner, ws, ms, i);
    assert SoundAnswer(ws[i].mirror, ws[i].server, ws[i].answers[0]);
  }

  /** And a response that arrives is merged, and takes the cursor to its counter unless that is behind it. */
  lemma ResponseArrivalReconciles(owner: RowId -> RowId, ws: seq<World>, ms: seq<Move>, i: nat, since: nat)
    requires IsRun(owner, ws, ms) && Opened(owner, ws[0]) && i < |ms|
    requires ms[i].AnswerArrives? && ws[i].answers[0].Synced? && since == ws[i].answers[0].since
    ensures IsDelta(ws[i].answers[0].at, since, ws[i].answers[0].changes)
    ensures ws[i + 1].view == Reconcile(ws[i].view, ws[i].answers[0].changes)
    ensures ws[i + 1].cursor >= ws[i].cursor && ws[i + 1].cursor >= ws[i].answers[0].at.counter
    ensures ws[i + 1].cursor in {ws[i].cursor, ws[i].answers[0].at.counter}
  {
    OpenedInvariant(owner, ws[0]);
    RunInvariant(owner, ws, ms, i);
    assert SoundAnswer(ws[i].mirror, ws[i].server, ws[i].answers[0]);
  }

  // ---- rows edited under a stamp that had lost ----

  /** The move is an edit of row r under a stamp that the server covers already. */
  predicate LosesOn(w: World, m: Move, r: RowRef) {
    m.Edit? && exists e :: e in m.ms && WellAddressed(e) && RowOf(RegOf(e)) == r
                           && Covers(ClockOf(w.server, RegOf(e)), e.hlc)
  }

  /** The move shows the client row r as the server has it: a list, or a response that contains the row. */
  predicate Corrects(w: World, m: Move, r: RowRef) {
    && m.AnswerArrives? && w.answers != []
    && match w.answers[0]
       case Listed(_, _) => true
       case Synced(at, since, _, _) => Exists(at, r) && SeqOf(at, r) > since
  }

  lemma MoveOverrules(w: World, m: Move, r: RowRef)
    requires Enabled(w, m)
    ensures r in Moved(w, m).overruled <==> LosesOn(w, m, r) || (r in w.overruled && !Corrects(w, m, r))
  {
  }

  /**
   In every run the rows that may differ from the list in the end are exactly those the user edited
   under a stamp that had lost already, as long as neither a list nor a response has shown them since.
   */
  lemma OverruledExact(owner: RowId -> RowId, ws: seq<World>, ms: seq<Move>, i: nat, r: RowRef)
    requires IsRun(owner, ws, ms) && Opened(owner, ws[0]) && i < |ws|
    ensures r in ws[i].overruled
            <==> Since(ws, ms, i, (w: World, m: Move) => LosesOn(w, m, r), (w: World, m: Move) => Corrects(w, m, r))
  {
    var loses, corrects := (w: World, m: Move) => LosesOn(w, m, r), (w: World, m: Move) => Corrects(w, m, r);
    var overruled := (w: World) => r in w.overruled;
    forall w, m | Enabled(w, m)
      ensures overruled(Moved(w, m)) <==> loses(w, m) || (overruled(w) && !corrects(w, m))
    {
      MoveOverrules(w, m, r);
    }
    HoldsSince(owner, ws, ms, i, overruled, loses, corrects);
  }
}
