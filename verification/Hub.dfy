/**
 The broadcast hub (server/internal/wsserver/hub.go): bounded queues that drop instead of
 blocking. One method per arm of the event loop, and every interleaving of them as a run.
 */
module Hub {
  import Seqs

  type ClientId(==, !new)

  const BROADCAST_CAPACITY: nat := 16
  const SEND_CAPACITY: nat := 8

  /** A client's outbound channel. */
  datatype Channel = Channel(buffer: seq<int>, open: bool)

  /** The hub's clients, all channels ever created, and the broadcast queue. */
  datatype State = State(clients: set<ClientId>, channels: map<ClientId, Channel>, queue: seq<int>)

  // ---- what each arm does ----

  /** Serve creates the channel and registers the client. */
  function Register(s: State, c: ClientId): State {
    s.(clients := s.clients + {c}, channels := s.channels[c := Channel([], true)])
  }

  function Close(s: State, c: ClientId): State
    requires c in s.channels
  {
    s.(clients := s.clients - {c}, channels := s.channels[c := s.channels[c].(open := false)])
  }

  function Unregister(s: State, c: ClientId): State
    requires s.clients <= s.channels.Keys
  {
    if c in s.clients then Close(s, c) else s
  }

  predicate HasRoom(ch: Channel) {
    |ch.buffer| < SEND_CAPACITY
  }

  /** One event for every client at once: appended where there is room, otherwise the client is dropped. */
  function Broadcast(s: State): State
    requires s.clients <= s.channels.Keys && s.queue != []
  {
    State(set c | c in s.clients && HasRoom(s.channels[c]),
          map c | c in s.channels ::
            if c !in s.clients then s.channels[c]
            else if HasRoom(s.channels[c]) then s.channels[c].(buffer := s.channels[c].buffer + [s.queue[0]])
            else s.channels[c].(open := false),
          s.queue[1..])
  }

  /** Notify never blocks: with the queue full the event is dropped. */
  function Notify(s: State, serverSeq: int): State {
    if |s.queue| < BROADCAST_CAPACITY then s.(queue := s.queue + [serverSeq]) else s
  }

  /** The write pump takes the oldest event. */
  function Pump(s: State, c: ClientId): State
    requires c in s.channels && s.channels[c].buffer != []
  {
    s.(channels := s.channels[c := s.channels[c].(buffer := s.channels[c].buffer[1..])])
  }

  /** Registered clients are exactly those with an open channel. */
  ghost predicate Consistent(s: State) {
    && (forall c :: c in s.clients <==> c in s.channels && s.channels[c].open)
    && (forall c :: c in s.channels ==> |s.channels[c].buffer| <= SEND_CAPACITY)
    && |s.queue| <= BROADCAST_CAPACITY
  }

  /** Part of a broadcast done: the clients in todo are still as in s, the others as after it. */
  ghost predicate PartlySent(s: State, todo: set<ClientId>, clients: set<ClientId>, channels: map<ClientId, Channel>)
    requires s.clients <= s.channels.Keys && s.queue != []
  {
    && channels.Keys == s.channels.Keys && todo <= s.clients
    && (forall c :: c in todo ==> c in clients && channels[c] == s.channels[c])
    && (forall c :: c !in todo ==> (c in clients <==> c in Broadcast(s).clients))
    && (forall c :: c in s.channels && c !in todo ==> channels[c] == Broadcast(s).channels[c])
  }

  class Hub {
    var clients: set<ClientId>
    var channels: map<ClientId, Channel>
    var queue: seq<int>

    function S(): State
      reads this
    {
      State(clients, channels, queue)
    }

    constructor ()
      ensures S() == State({}, map[], []) && Consistent(S())
    {
      clients, channels, queue := {}, map[], [];
    }

    method OnRegister(c: ClientId)
      requires Consistent(S()) && c !in channels
      modifies this
      ensures S() == Register(old(S()), c) && Consistent(S())
    {
      channels := channels[c := Channel([], true)];
      clients := clients + {c};
    }

    /** A client the hub has dropped already is not closed again. */
    method OnUnregister(c: ClientId)
      requires Consistent(S())
      modifies this
      ensures S() == Unregister(old(S()), c) && Consistent(S())
    {
      if c in clients {
        clients := clients - {c};
        assert channels[c].open;
        channels := channels[c := channels[c].(open := false)];
      }
    }

    /** Fans one event out; the clients come in the order the map happens to be iterated in. */
    method OnBroadcast()
      requires Consistent(S()) && queue != []
      modifies this
      ensures S() == Broadcast(old(S())) && Consistent(S())
    {
      ghost var s := S();
      var event := queue[0];
      queue := queue[1..];
      var todo := clients;
      while todo != {}
        invariant PartlySent(s, todo, clients, channels)
        invariant queue == s.queue[1..] && event == s.queue[0]
        decreases todo
      {
        var c :| c in todo;
        assert channels[c].open;
        if |channels[c].buffer| < SEND_CAPACITY {
          channels := channels[c := channels[c].(buffer := channels[c].buffer + [event])];
        } else {
          clients := clients - {c};
          channels := channels[c := channels[c].(open := false)];
        }
        todo := todo - {c};
      }
      assert clients == Broadcast(s).clients;
      assert channels == Broadcast(s).channels;
    }

    method OnNotify(serverSeq: int)
      requires Consistent(S())
      modifies `queue
      ensures S() == Notify(old(S()), serverSeq) && Consistent(S())
    {
      if |queue| < BROADCAST_CAPACITY {
        queue := queue + [serverSeq];
      }
    }
  }

  // ---- runs ----

  /**
   A run remembers the events that found room in the hub's queue, those the hub took off it, those
   each client's pump took out of its channel, and where in the hub's sequence each client joined
   and left. A fault is a panic of the program: closing a closed channel or sending on one.
   */
  datatype Run = Run(s: State, notified: seq<int>, dequeued: seq<int>, pumped: map<ClientId, seq<int>>,
                     joined: map<ClientId, nat>, left: map<ClientId, nat>, fault: bool)

  datatype Event =
    | Joins(c: ClientId)
    | Leaves(c: ClientId)
    | FansOut
    | Notified(serverSeq: int)
    | Pumps(c: ClientId)

  /** Clients are fresh when they register, leave only after that, and pumps need something to write. */
  predicate Enabled(r: Run, e: Event) {
    match e
    case Joins(c) => c !in r.s.channels
    case Leaves(c) => c in r.s.channels
    case FansOut => r.s.queue != []
    case Notified(_) => true
    case Pumps(c) => c in r.s.channels && r.s.channels[c].buffer != []
  }

  ghost predicate Linked(r: Run) {
    && r.s.clients <= r.s.channels.Keys
    && r.pumped.Keys == r.joined.Keys == r.s.channels.Keys
    && r.left.Keys <= r.s.channels.Keys
  }

  ghost function After(r: Run, e: Event): Run
    requires Linked(r) && Enabled(r, e)
  {
    match e
    case Joins(c) =>
      r.(s := Register(r.s, c), pumped := r.pumped[c := []], joined := r.joined[c := |r.dequeued|])
    case Leaves(c) =>
      r.(s := Unregister(r.s, c), left := if c in r.s.clients then r.left[c := |r.dequeued|] else r.left,
         fault := r.fault || (c in r.s.clients && !r.s.channels[c].open))
    case FansOut =>
      r.(s := Broadcast(r.s), dequeued := r.dequeued + [r.s.queue[0]],
         left := map c | c in r.left.Keys + r.s.clients && (c in r.left || !HasRoom(r.s.channels[c])) ::
           if c in r.s.clients && !HasRoom(r.s.channels[c]) then |r.dequeued| else r.left[c],
         fault := r.fault || exists c :: c in r.s.clients && !r.s.channels[c].open)
    case Notified(q) =>
      r.(s := Notify(r.s, q), notified := if |r.s.queue| < BROADCAST_CAPACITY then r.notified + [q] else r.notified)
    case Pumps(c) =>
      r.(s := Pump(r.s, c), pumped := r.pumped[c := r.pumped[c] + [r.s.channels[c].buffer[0]]])
  }

  /** Where c's share of the hub's sequence ends: now, or where c left. */
  function EndOf(r: Run, c: ClientId): nat {
    if c in r.s.clients then |r.dequeued| else if c in r.left then r.left[c] else 0
  }

  /** What c's pump has written, followed by what still waits in c's channel. */
  function Received(r: Run, c: ClientId): seq<int>
    requires c in r.pumped && c in r.s.channels
  {
    r.pumped[c] + r.s.channels[c].buffer
  }

  /** c is in the map or has left, and got the block of events dequeued in between, in that order. */
  ghost predicate GotItsBlock(r: Run, c: ClientId)
    requires Linked(r) && c in r.s.channels
  {
    && (c in r.s.clients <==> c !in r.left)
    && r.joined[c] <= EndOf(r, c) <= |r.dequeued|
    && Received(r, c) == r.dequeued[r.joined[c]..EndOf(r, c)]
  }

  /**
   The delivery invariant: clients in the map are those whose channel is open, nothing panicked,
   the hub works through the events that found room in their order, and every client gets exactly
   the contiguous block of them that the hub took off its queue between the client's joining and
   its leaving.
   */
  ghost predicate Delivered(r: Run) {
    && Linked(r) && Consistent(r.s) && !r.fault
    && r.notified == r.dequeued + r.s.queue
    && (forall c :: c in r.s.channels ==> GotItsBlock(r, c))
  }

  lemma BlockGrows(d: seq<int>, event: int, from: nat, to: nat)
    requires from <= to <= |d|
    ensures (d + [event])[from..to] == d[from..to]
    ensures to == |d| ==> (d + [event])[from..to + 1] == d[from..to] + [event]
  {
  }

  lemma QueueTurns(dequeued: seq<int>, queue: seq<int>)
    requires queue != []
    ensures dequeued + [queue[0]] + queue[1..] == dequeued + queue
  {
  }

  lemma FanOutBlock(r: Run, c: ClientId)
    requires Delivered(r) && Enabled(r, FansOut) && c in r.s.channels
    requires Linked(After(r, FansOut))
    ensures GotItsBlock(After(r, FansOut), c)
  {
    var r', event := After(r, FansOut), r.s.queue[0];
    assert GotItsBlock(r, c);
    BlockGrows(r.dequeued, event, r.joined[c], EndOf(r, c));
    if c !in r.s.clients {
      assert Received(r', c) == Received(r, c) && EndOf(r', c) == EndOf(r, c);
    } else if HasRoom(r.s.channels[c]) {
      Seqs.Associates(r.pumped[c], r.s.channels[c].buffer, [event]);
      assert Received(r', c) == Received(r, c) + [event] && EndOf(r', c) == |r.dequeued| + 1;
    } else {
      assert Received(r', c) == Received(r, c) && EndOf(r', c) == |r.dequeued|;
    }
  }

  lemma FanOutDelivers(r: Run)
    requires Delivered(r) && Enabled(r, FansOut)
    ensures Delivered(After(r, FansOut))
  {
    var r' := After(r, FansOut);
    assert Linked(r');
    QueueTurns(r.dequeued, r.s.queue);
    forall c | c in r'.s.channels ensures GotItsBlock(r', c) {
      FanOutBlock(r, c);
    }
  }

  lemma JoinDelivers(r: Run, c: ClientId)
    requires Delivered(r) && Enabled(r, Joins(c))
    ensures Delivered(After(r, Joins(c)))
  {
    var r' := After(r, Joins(c));
    forall d | d in r'.s.channels ensures GotItsBlock(r', d) {
      if d != c {
        assert GotItsBlock(r, d) && Received(r', d) == Received(r, d);
      }
    }
  }

  lemma LeaveDelivers(r: Run, c: ClientId)
    requires Delivered(r) && Enabled(r, Leaves(c))
    ensures Delivered(After(r, Leaves(c)))
  {
    var r' := After(r, Leaves(c));
    assert Linked(r') && Consistent(r'.s) && !r'.fault;
    forall d | d in r'.s.channels ensures GotItsBlock(r', d) {
      assert GotItsBlock(r, d) && Received(r', d) == Received(r, d);
    }
  }

  lemma NotifyDelivers(r: Run, serverSeq: int)
    requires Delivered(r)
    ensures Delivered(After(r, Notified(serverSeq)))
  {
    var r' := After(r, Notified(serverSeq));
    Seqs.Associates(r.dequeued, r.s.queue, [serverSeq]);
    forall d | d in r'.s.channels ensures GotItsBlock(r', d) {
      assert GotItsBlock(r, d) && Received(r', d) == Received(r, d);
    }
  }

  lemma PumpMoves(pumped: seq<int>, buffer: seq<int>)
    requires buffer != []
    ensures pumped + [buffer[0]] + buffer[1..] == pumped + buffer
  {
  }

  lemma PumpedBlock(r: Run, c: ClientId, d: ClientId)
    requires Delivered(r) && Enabled(r, Pumps(c)) && Linked(After(r, Pumps(c))) && d in r.s.channels
    ensures GotItsBlock(After(r, Pumps(c)), d)
  {
    var r' := After(r, Pumps(c));
    PumpMoves(r.pumped[c], r.s.channels[c].buffer);
    assert GotItsBlock(r, d);
    assert Received(r', d) == Received(r, d);
  }

  lemma PumpDelivers(r: Run, c: ClientId)
    requires Delivered(r) && Enabled(r, Pumps(c))
    ensures Delivered(After(r, Pumps(c)))
  {
    var r' := After(r, Pumps(c));
    assert Linked(r') && Consistent(r'.s);
    forall d | d in r'.s.channels ensures GotItsBlock(r', d) {
      PumpedBlock(r, c, d);
    }
  }

  lemma StepDelivers(r: Run, e: Event)
    requires Delivered(r) && Enabled(r, e)
    ensures Delivered(After(r, e))
  {
    match e {
      case Joins(c) => JoinDelivers(r, c);
      case Leaves(c) => LeaveDelivers(r, c);
      case FansOut => FanOutDelivers(r);
      case Notified(serverSeq) => NotifyDelivers(r, serverSeq);
      case Pumps(c) => PumpDelivers(r, c);
    }
  }

  const START: Run := Run(State({}, map[], []), [], [], map[], map[], map[], false)

  /** rs is a run of the hub: each state follows from the one before by the event. */
  ghost predicate IsRun(rs: seq<Run>, es: seq<Event>) {
    && |rs| == |es| + 1 && rs[0] == START
    && forall i :: 0 <= i < |es| ==> Linked(rs[i]) && Enabled(rs[i], es[i]) && rs[i + 1] == After(rs[i], es[i])
  }

  /** In every run, after any number of events. */
  lemma {:induction false} EveryRunDelivers(rs: seq<Run>, es: seq<Event>, n: nat)
    requires IsRun(rs, es) && n <= |es|
    ensures Delivered(rs[n])
  {
    if n > 0 {
      EveryRunDelivers(rs, es, n - 1);
      StepDelivers(rs[n - 1], es[n - 1]);
    }
  }

  /**
   Who falls out, exactly: a fan-out drops a client if and only if eight events wait for it
   already, and a notification is dropped if and only if sixteen wait for the hub.
   */
  lemma DropsExact(r: Run, c: ClientId, serverSeq: int)
    requires Delivered(r)
    ensures c in r.s.clients && r.s.queue != [] ==>
              (c in After(r, FansOut).s.clients <==> |r.dequeued| - r.joined[c] - |r.pumped[c]| < 8)
    ensures After(r, Notified(serverSeq)).notified == r.notified + [serverSeq] <==> |r.notified| - |r.dequeued| < 16
  {
    if c in r.s.clients {
      assert GotItsBlock(r, c);
      assert |Received(r, c)| == |r.dequeued| - r.joined[c];
    }
  }
}
