/**
 One client and the server as a state machine: commits by other devices, the hub and WebSocket
 path (server/internal/httpapi, server/internal/wsserver, web/src/lib/ws/client.ts), and the
 client's own edits, pushes, pulls, failures and retries (web/src/lib/stores/notes.ts).
 Responses are reconciled in the order in which the server computed them.
 */
module Protocol {
  import opened Results
  import opened Models
  import opened SyncSpec
  import opened Merge
  import opened History
  import opened Replica
  import opened Seqs
  import Hub

  /** A sync request on its way. */
  datatype Request = Request(since: nat, batch: seq<Mutation>)

  /**
   On its way back: the response to a sync, or the list of all notes that load asked for, with
   the greatest sequence number in it.
   */
  datatype Answer =
    | Synced(at: Tables, since: nat, changes: Changes, batch: seq<Mutation>)
    | Listed(at: Tables, top: nat)

  function BatchOf(a: Answer): seq<Mutation> {
    if a.Synced? then a.batch else []
  }

  /**
   The path of the hint "go pull now": commits that have not called Notify yet, the hub's
   broadcast queue, whether the client is in the hub's map, its send channel, and frames on the
   wire. At the client: the on-open pull still to come, the debounced pull, the flush timer, and
   whether the last sync failed.
   */
  datatype Signals = Signals(owed: nat, queue: nat, registered: bool, buffer: nat, transit: nat,
                             opening: bool, timer: bool, flush: bool, stalled: bool)

  /**
   Server: the committed tables. Client: pending edits, the view and the cursor. Between them:
   requests, responses, and batches the client has given up on but that may still arrive.
   Bookkeeping: the server state the client has caught up with, all edits ever queued, those whose
   response arrived, and the rows the client edited under a stamp that the server already covered,
   as long as no response has delivered them since.
   */
  datatype World = World(
    server: Tables, signals: Signals,
    pending: seq<Mutation>, view: View, cursor: nat,
    unread: seq<Request>, answers: seq<Answer>, orphans: seq<seq<Mutation>>,
    mirror: Tables, queued: multiset<Mutation>, acked: multiset<Mutation>, overruled: set<RowRef>)

  datatype Hop = CallNotify | HubTakesEvent | PumpWrites | ClientReceives | Connects | Disconnects

  datatype Trigger = PullTimer | OnOpen | FlushTimer

  datatype Move =
    | Commit(step: Step)
    | Signal(hop: Hop)
    | Edit(ms: seq<Mutation>, shown: View)
    | SyncNow(trigger: Trigger)
    | ServerApplies(i: nat, changes: Changes)
    | ServerRefuses(i: nat)
    | ServerLists(top: nat)
    | AnswerArrives
    | LosesRequest(i: nat)
    | LosesAnswer(i: nat)
    | OrphanArrives(i: nat)

  // ---- the hint on its way ----

  predicate CanHop(s: Signals, h: Hop) {
    match h
    case CallNotify => s.owed > 0
    case HubTakesEvent => s.queue > 0
    case PumpWrites => s.buffer > 0
    case ClientReceives => s.transit > 0
    case Connects => !s.registered
    case Disconnects => true
  }

  /** Full queues drop: the event at the broadcast queue, the client at its send channel. */
  function Hopped(s: Signals, h: Hop): Signals
    requires CanHop(s, h)
  {
    match h
    case CallNotify =>
      s.(owed := s.owed - 1, queue := if s.queue < Hub.BROADCAST_CAPACITY then s.queue + 1 else s.queue)
    case HubTakesEvent =>
      if !s.registered then s.(queue := s.queue - 1)
      else if s.buffer < Hub.SEND_CAPACITY then s.(queue := s.queue - 1, buffer := s.buffer + 1)
      else s.(queue := s.queue - 1, registered := false)
    case PumpWrites => s.(buffer := s.buffer - 1, transit := s.transit + 1)
    case ClientReceives => s.(transit := s.transit - 1, timer := true)
    case Connects => s.(registered := true, opening := true, buffer := 0, transit := 0)
    case Disconnects => s.(registered := false, opening := false, buffer := 0, transit := 0)
  }

  predicate Due(s: Signals, trigger: Trigger) {
    match trigger
    case PullTimer => s.timer
    case OnOpen => s.opening
    case FlushTimer => s.flush
  }

  /** Whatever triggers it, a sync clears the flush timer. */
  function Fired(s: Signals, trigger: Trigger): Signals {
    var s1 := s.(flush := false, stalled := false);
    match trigger
    case PullTimer => s1.(timer := false)
    case OnOpen => s1.(opening := false)
    case FlushTimer => s1
  }

  /** The handlers call Notify after an accepted non-empty batch and after an audio upload. */
  predicate Notifies(t: Tables, step: Step) {
    match step
    case Push(batch) => ApplyLog(t, batch).Ok? && batch != []
    case RecordAudio(id, _, _) => id !in t.notes
    case _ => false
  }

  // ---- moves ----

  predicate Enabled(w: World, m: Move) {
    match m
    case Commit(step) => Growing(step)
    case Signal(hop) => CanHop(w.signals, hop)
    case Edit(_, _) => true
    case SyncNow(trigger) => Due(w.signals, trigger)
    case ServerApplies(i, _) => i < |w.unread| && ApplyLog(w.server, w.unread[i].batch).Ok?
    case ServerRefuses(i) => i < |w.unread| && ApplyLog(w.server, w.unread[i].batch).Err?
    case ServerLists(_) => true
    case AnswerArrives => w.answers != []
    case LosesRequest(i) => i < |w.unread|
    case LosesAnswer(i) => i < |w.answers|
    case OrphanArrives(i) => i < |w.orphans|
  }

  function Max(a: nat, b: nat): nat {
    if a > b then a else b
  }

  /** The rows of edits that will lose to a write the server already has. */
  function OverruledRows(t: Tables, ms: seq<Mutation>): set<RowRef> {
    set m | m in ms && WellAddressed(m) && !Effective(t, m) :: RowOf(RegOf(m))
  }

  /** The rows a response leaves as they are. */
  function Undelivered(rows: set<RowRef>, at: Tables, since: nat): set<RowRef> {
    set r | r in rows && !WrittenSince(at, since, r)
  }

  /** A step of the server commits. */
  function Committed(w: World, step: Step): World {
    w.(server := Take(w.server, step),
       signals := if Notifies(w.server, step) then w.signals.(owed := w.signals.owed + 1) else w.signals)
  }

  /** syncNow's catch: the batch goes back in front of the queue, and nothing is scheduled. */
  function SyncFails(w: World, batch: seq<Mutation>): World {
    w.(pending := batch + w.pending, signals := w.signals.(stalled := true))
  }

  /** reconcile: the changes are merged into whatever the client shows. */
  function Reconciled(w: World, a: Answer): World
    requires a.Synced?
  {
    w.(view := Reconcile(w.view, a.changes), cursor := Max(w.cursor, a.at.counter), mirror := a.at,
       acked := w.acked + multiset(a.batch), overruled := Undelivered(w.overruled, a.at, a.since))
  }

  /** The end of load: the list replaces whatever the client shows, and the cursor is set, back if need be. */
  function ListShown(w: World, at: Tables, top: nat): World {
    w.(view := Snapshot(at), cursor := top, mirror := at, overruled := {})
  }

  function Moved(w: World, m: Move): World
    requires Enabled(w, m)
  {
    match m
    case Commit(step) => Committed(w, step)
    case Signal(hop) => w.(signals := Hopped(w.signals, hop))
    case Edit(ms, shown) =>
      w.(pending := w.pending + ms, queued := w.queued + multiset(ms), view := shown,
         overruled := w.overruled + OverruledRows(w.server, ms),
         signals := w.signals.(flush := w.signals.flush || ms != []))
    case SyncNow(trigger) =>
      w.(pending := [], signals := Fired(w.signals, trigger),
         unread := w.unread + [Request(w.cursor, w.pending)])
    case ServerApplies(i, changes) =>
      var r := w.unread[i];
      var w1 := Committed(w, Push(r.batch));
      w1.(unread := Remove(w.unread, i), answers := w.answers + [Synced(w1.server, r.since, changes, r.batch)])
    case ServerRefuses(i) => SyncFails(w.(unread := Remove(w.unread, i)), w.unread[i].batch)
    case ServerLists(top) => w.(answers := w.answers + [Listed(w.server, top)])
    case AnswerArrives =>
      var w1 := w.(answers := w.answers[1..]);
      if w.answers[0].Synced? then Reconciled(w1, w.answers[0])
      else ListShown(w1, w.answers[0].at, w.answers[0].top)
    case LosesRequest(i) =>
      SyncFails(w.(unread := Remove(w.unread, i), orphans := w.orphans + [w.unread[i].batch]), w.unread[i].batch)
    case LosesAnswer(i) =>
      var w1 := w.(answers := Remove(w.answers, i));
      if w.answers[i].Synced? then SyncFails(w1, w.answers[i].batch) else w1
    case OrphanArrives(i) => Committed(w.(orphans := Remove(w.orphans, i)), Push(w.orphans[i]))
  }

  // ---- what the environment keeps to ----

  /** Item mutations name the note the item belongs to. */
  predicate Owned(owner: RowId -> RowId, m: Mutation) {
    m.entity.ItemEntity? && m.id.Some? ==> m.noteId == Some(owner(m.id.value))
  }

  ghost predicate AllOwned(owner: RowId -> RowId, ms: seq<Mutation>) {
    forall m :: m in ms ==> Owned(owner, m)
  }

  ghost predicate Touched(ms: seq<Mutation>, r: RowRef) {
    exists m :: m in ms && Addresses(m, r)
  }

  /** A local edit drops no note and changes the view only in the rows its mutations address. */
  ghost predicate ChangesOnly(owner: RowId -> RowId, v: View, shown: View, ms: seq<Mutation>) {
    && (forall n :: n in v ==> n in shown)
    && (forall n :: NoteAt(shown, n) != NoteAt(v, n) ==> Touched(ms, NoteRef(n)))
    && (forall n, x :: ItemAt(shown, n, x) != ItemAt(v, n, x) ==> owner(x) == n && Touched(ms, ItemRef(x)))
    && (forall n, l :: LabelAt(shown, n, l) != LabelAt(v, n, l) ==> Touched(ms, LabelRef(LabelKey(n, l))))
  }

  /**
   The assumptions on a move: responses contain the delta, and lists the state, at the moment the
   server answered, and every item has one owner.
   */
  ghost predicate Sound(owner: RowId -> RowId, w: World, m: Move) {
    && Enabled(w, m)
    && match m
       case Commit(step) => step.Push? ==> AllOwned(owner, step.batch)
       case Edit(ms, shown) => AllOwned(owner, ms) && ChangesOnly(owner, w.view, shown, ms)
       case ServerApplies(i, changes) =>
         IsDelta(ApplyLog(w.server, w.unread[i].batch).value, w.unread[i].since, changes)
       case ServerLists(top) => IsMaxSeq(Snapshot(w.server), top)
       case _ => true
  }

  // ---- no lost wake-up ----

  /** Something under way will make the client pull: a hint on its path, a scheduled pull, or a request not yet read. */
  predicate PullOwed(w: World) {
    var s := w.signals;
    s.owed > 0 || s.queue > 0 || s.buffer > 0 || s.transit > 0 || s.opening || s.timer || s.flush || w.unread != []
  }

  /** A sync response under way has reached the counter. */
  predicate ReachingAnswer(answers: seq<Answer>, counter: nat) {
    exists i :: 0 <= i < |answers| && answers[i].Synced? && answers[i].at.counter >= counter
  }

  /** The state the client has caught up with, or a sync response under way, has reached the counter. */
  predicate Reaches(w: World) {
    w.mirror.counter >= w.server.counter || ReachingAnswer(w.answers, w.server.counter)
  }

  /** What arrives was not computed before what the client has caught up with. */
  predicate ArrivesInOrder(w: World, m: Move) {
    m.AnswerArrives? ==> w.answers != [] && w.mirror.counter <= w.answers[0].at.counter
  }

  /**
   A registered client that has not reached the counter has a pull owed to it, unless its last
   sync failed; edits wait only for a running flush timer or a failed sync; the queues are bounded.
   */
  predicate Awake(w: World) {
    && (w.signals.registered ==> Reaches(w) || PullOwed(w) || w.signals.stalled)
    && (w.pending != [] ==> w.signals.flush || w.signals.stalled)
    && w.signals.queue <= Hub.BROADCAST_CAPACITY && w.signals.buffer <= Hub.SEND_CAPACITY
  }

  /** A step either leaves the counter alone or leads to a Notify. */
  lemma CommitKeepsAwake(w: World, step: Step)
    requires Awake(w) && Growing(step)
    ensures Awake(Committed(w, step))
  {
    var w' := Committed(w, step);
    if !Notifies(w.server, step) {
      assert w'.server.counter == w.server.counter;
    }
  }

  lemma HopKeepsAwake(w: World, hop: Hop)
    requires Awake(w) && CanHop(w.signals, hop)
    ensures Awake(Moved(w, Signal(hop)))
  {
    assert Reaches(Moved(w, Signal(hop))) == Reaches(w);
  }

  lemma EditKeepsAwake(w: World, ms: seq<Mutation>, shown: View)
    requires Awake(w)
    ensures Awake(Moved(w, Edit(ms, shown)))
  {
    assert Reaches(Moved(w, Edit(ms, shown))) == Reaches(w);
  }

  /** A sync that starts leaves an unread request, and one that fails is marked. */
  lemma SyncKeepsAwake(w: World, m: Move)
    requires Awake(w) && Enabled(w, m) && (m.SyncNow? || m.ServerRefuses? || m.LosesRequest?)
    ensures Awake(Moved(w, m))
  {
  }

  lemma ArrivalKeepsAwake(w: World)
    requires Awake(w) && w.answers != [] && ArrivesInOrder(w, AnswerArrives)
    ensures Awake(Moved(w, AnswerArrives))
  {
    var rest, counter := w.answers[1..], w.server.counter;
    if i :| 0 <= i < |w.answers| && w.answers[i].Synced? && w.answers[i].at.counter >= counter {
      assert i > 0 ==> rest[i - 1] == w.answers[i];
      assert i == 0 || ReachingAnswer(rest, counter);
    }
  }

  lemma AnswerKeepsAwake(w: World, i: nat, changes: Changes)
    requires Awake(w) && Enabled(w, ServerApplies(i, changes))
    ensures Awake(Moved(w, ServerApplies(i, changes)))
  {
    var w' := Moved(w, ServerApplies(i, changes));
    assert w'.answers[|w.answers|].at.counter == w'.server.counter;
    assert ReachingAnswer(w'.answers, w'.server.counter);
  }

  lemma ListKeepsAwake(w: World, top: nat)
    requires Awake(w)
    ensures Awake(Moved(w, ServerLists(top)))
  {
    if i :| 0 <= i < |w.answers| && w.answers[i].Synced? && w.answers[i].at.counter >= w.server.counter {
      assert Moved(w, ServerLists(top)).answers[i] == w.answers[i];
    }
  }

  /** Losing a list owes nothing: Awake never counts on one. */
  lemma LossKeepsAwake(w: World, k: nat)
    requires Awake(w) && k < |w.answers|
    ensures Awake(Moved(w, LosesAnswer(k)))
  {
    var rest := Remove(w.answers, k);
    if w.answers[k].Listed? {
      if i :| 0 <= i < |w.answers| && w.answers[i].Synced? && w.answers[i].at.counter >= w.server.counter {
        assert rest[if i < k then i else i - 1] == w.answers[i];
      }
    }
  }

  /**
   No lost wake-up, although full queues drop events and slow clients - as long as lists and
   responses arrive in the order in which the server computed them.
   */
  lemma MoveKeepsAwake(w: World, m: Move)
    requires Awake(w) && Enabled(w, m) && ArrivesInOrder(w, m)
    ensures Awake(Moved(w, m))
  {
    match m {
      case Commit(step) => CommitKeepsAwake(w, step);
      case ServerApplies(i, changes) => AnswerKeepsAwake(w, i, changes);
      case ServerLists(top) => ListKeepsAwake(w, top);
      case AnswerArrives => ArrivalKeepsAwake(w);
      case LosesAnswer(i) => LossKeepsAwake(w, i);
      case OrphanArrives(i) => CommitKeepsAwake(w.(orphans := Remove(w.orphans, i)), Push(w.orphans[i]));
      case Signal(hop) => HopKeepsAwake(w, hop);
      case Edit(ms, shown) => EditKeepsAwake(w, ms, shown);
      case _ => SyncKeepsAwake(w, m);
    }
  }

  // ---- the hub's side of the signals ----

  /** What the hub's state is for the client's latest connection, if it has one. */
  ghost predicate SeenFrom(h: Hub.State, conn: Option<Hub.ClientId>, s: Signals) {
    && s.queue == |h.queue|
    && match conn
       case None => !s.registered && s.buffer == 0
       case Some(c) =>
         c in h.channels && s.registered == (c in h.clients) && s.buffer == |h.channels[c].buffer|
  }

  /** Events and drops: the hub's arms, with any number of other clients, are hops for each one. */
  lemma HubRefinesHops(h: Hub.State, conn: Option<Hub.ClientId>, s: Signals, serverSeq: int)
    requires Hub.Consistent(h) && SeenFrom(h, conn, s)
    ensures s.owed > 0 ==> SeenFrom(Hub.Notify(h, serverSeq), conn, Hopped(s, CallNotify))
    ensures h.queue != [] ==> SeenFrom(Hub.Broadcast(h), conn, Hopped(s, HubTakesEvent))
    ensures conn.Some? && h.channels[conn.value].buffer != [] ==>
              SeenFrom(Hub.Pump(h, conn.value), conn, Hopped(s, PumpWrites))
  {
  }

  /** Coming and going: a connection has an id of its own, and what its channel still holds is gone with it. */
  lemma HubRefinesConnections(h: Hub.State, conn: Option<Hub.ClientId>, s: Signals, c: Hub.ClientId)
    requires Hub.Consistent(h) && SeenFrom(h, conn, s)
    ensures c !in h.channels && !s.registered ==> SeenFrom(Hub.Register(h, c), Some(c), Hopped(s, Connects))
    ensures conn.Some? ==> SeenFrom(Hub.Unregister(h, conn.value), None, Hopped(s, Disconnects))
  {
  }

  // ---- quiet stretches ----

  /** Moves that need neither the user, nor other devices, nor a failure, nor a new connection. */
  predicate Internal(m: Move) {
    match m
    case Signal(hop) => !hop.Connects? && !hop.Disconnects?
    case SyncNow(_) => true
    case ServerApplies(_, _) => true
    case AnswerArrives => true
    case _ => false
  }

  function RequestWork(r: Request): nat {
    if r.batch == [] then 2 else 9
  }

  function UnreadWork(unread: seq<Request>): nat {
    if unread == [] then 0 else UnreadWork(unread[..|unread| - 1]) + RequestWork(unread[|unread| - 1])
  }

  function SignalWork(s: Signals): nat {
    7 * s.owed + 6 * s.queue + 5 * s.buffer + 4 * s.transit
    + (if s.opening then 3 else 0) + (if s.timer then 3 else 0) + (if s.flush then 3 else 0)
  }

  /** A bound on the internal moves still to come. */
  function WorkLeft(w: World): nat {
    SignalWork(w.signals) + (if w.pending == [] then 0 else 7) + UnreadWork(w.unread) + |w.answers|
  }

  lemma {:induction false} UnreadWorkRemove(unread: seq<Request>, i: nat)
    requires i < |unread|
    ensures UnreadWork(unread) == UnreadWork(Remove(unread, i)) + RequestWork(unread[i])
  {
    var n, rest := |unread| - 1, Remove(unread, i);
    RemovePrefix(unread, i);
    if i < n {
      UnreadWorkRemove(unread[..n], i);
      assert UnreadWork(rest) == UnreadWork(rest[..n - 1]) + RequestWork(unread[n]);
    }
  }

  lemma HopsUseUpWork(s: Signals, hop: Hop)
    requires CanHop(s, hop) && !hop.Connects? && !hop.Disconnects?
    ensures SignalWork(Hopped(s, hop)) < SignalWork(s)
    ensures Hopped(s, hop).stalled == s.stalled
  {
  }

  lemma SyncUsesUpWork(w: World, trigger: Trigger)
    requires Due(w.signals, trigger)
    ensures WorkLeft(Moved(w, SyncNow(trigger))) < WorkLeft(w)
  {
    var r := Request(w.cursor, w.pending);
    assert (w.unread + [r])[..|w.unread|] == w.unread;
  }

  lemma AnswerUsesUpWork(w: World, i: nat, changes: Changes)
    requires Enabled(w, ServerApplies(i, changes))
    ensures WorkLeft(Moved(w, ServerApplies(i, changes))) < WorkLeft(w)
  {
    UnreadWorkRemove(w.unread, i);
  }

  /** Every internal move uses up work and leaves no sync failed that had not failed before. */
  lemma InternalMovesUseUpWork(w: World, m: Move)
    requires Enabled(w, m) && Internal(m)
    ensures WorkLeft(Moved(w, m)) < WorkLeft(w)
    ensures Moved(w, m).signals.stalled ==> w.signals.stalled
  {
    match m {
      case Signal(hop) => HopsUseUpWork(w.signals, hop);
      case SyncNow(trigger) => SyncUsesUpWork(w, trigger);
      case ServerApplies(i, changes) => AnswerUsesUpWork(w, i, changes);
      case AnswerArrives =>
    }
  }

  lemma AnswerOrRefuse(owner: RowId -> RowId, w: World) returns (m: Move)
    requires w.unread != [] && Consistent(w.server)
    ensures Sound(owner, w, m) && (m.ServerApplies? || m.ServerRefuses?)
  {
    var r := w.unread[0];
    if ApplyLog(w.server, r.batch).Ok? {
      LogKeepsConsistent(w.server, r.batch);
      var changes := DeltaExists(ApplyLog(w.server, r.batch).value, r.since);
      m := ServerApplies(0, changes);
    } else {
      m := ServerRefuses(0);
    }
  }

  /**
   A client with work left is never stuck: some internal move is possible, or the server will
   refuse one of its requests, or its last sync failed.
   */
  lemma BusyCanMove(owner: RowId -> RowId, w: World) returns (m: Move)
    requires Awake(w) && Consistent(w.server) && WorkLeft(w) > 0 && !w.signals.stalled
    ensures Sound(owner, w, m) && (Internal(m) || m.ServerRefuses?)
  {
    var s := w.signals;
    if s.owed > 0 {
      m := Signal(CallNotify);
    } else if s.queue > 0 {
      m := Signal(HubTakesEvent);
    } else if s.buffer > 0 {
      m := Signal(PumpWrites);
    } else if s.transit > 0 {
      m := Signal(ClientReceives);
    } else if s.opening {
      m := SyncNow(OnOpen);
    } else if s.timer {
      m := SyncNow(PullTimer);
    } else if s.flush {
      m := SyncNow(FlushTimer);
    } else if w.answers != [] {
      m := AnswerArrives;
    } else {
      assert w.unread != [];
      m := AnswerOrRefuse(owner, w);
    }
  }
}
