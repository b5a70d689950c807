/** The life of connections between the event loop, the pool and the workers (webcc/connection.cc,
    webcc/connection_pool.cc, webcc/server.cc). An asynchronous operation is outstanding, may complete, and has
    its handler run by one of the event loop's threads. */
module Connections {
  import opened Text
  import opened Workers

  /** What a connection is waiting for. A read or write is ready once it has completed with success and its
      handler has not been run. Pending: the request has been read and no response been sent by a worker. Over:
      nothing is outstanding. */
  datatype Phase = Read(ready: bool) | Pending | Write(ready: bool) | Over

  /** `open` is cleared by Close, `pooled` when the pool drops the connection. The counters are not part of the
      program: requests pushed to the queue, responses sent by workers, requests dropped by Queue::Clear. */
  datatype Connection = Connection(phase: Phase, open: bool, pooled: bool, pushes: nat, responses: nat, drops: nat)

  /** A thread of the event loop in the middle of a handler: about to erase a connection from the pool and then to
      close its socket, about to close it, or lost, because Parse threw or never came back. */
  datatype Task = ToErase(id: nat) | ToClose(id: nat) | Lost

  /** `busy` lists what the threads in the middle of a handler are about to do; the others are free. */
  datatype System = System(server: State, conns: seq<Connection>, busy: seq<Task>, loops: nat)

  datatype ReadOutcome = ReadAborted | ReadFailed | Rejected | Partial | Finished | NoReturn

  datatype WriteOutcome = WriteAborted | WriteFailed | More | KeepAlive | LastWritten

  datatype Event =
    | Accept
    | Completes(c: nat)
    | OnRead(c: nat, read: ReadOutcome)
    | OnWrite(c: nat, write: WriteOutcome)
    | Erases(k: nat)
    | ClosesSocket(k: nat)
    | Server(action: Action)

  predicate Possible(s: System, e: Event)
  {
    match e
    case Accept => |s.busy| < s.loops
    case Completes(c) =>
      c < |s.conns| && s.conns[c].open && (s.conns[c].phase == Read(false) || s.conns[c].phase == Write(false))
    case OnRead(c, r) =>
      && |s.busy| < s.loops && c < |s.conns| && s.conns[c].phase.Read?
      && s.conns[c].phase.ready == !(r.ReadAborted? || r.ReadFailed?)
      && (r.ReadAborted? ==> !s.conns[c].open)
    case OnWrite(c, w) =>
      && |s.busy| < s.loops && c < |s.conns| && s.conns[c].phase.Write?
      && s.conns[c].phase.ready == !(w.WriteAborted? || w.WriteFailed?)
      && (w.WriteAborted? ==> !s.conns[c].open)
    case Erases(k) => k < |s.busy| && s.busy[k].ToErase? && s.busy[k].id < |s.conns|
    case ClosesSocket(k) => k < |s.busy| && s.busy[k].ToClose? && s.busy[k].id < |s.conns|
    case Server(a) => !a.Push? && Enabled(s.server, a) && HandledExists(s, a)
  }

  predicate HandledExists(s: System, a: Action)
  {
    a.Work? && a.w < |s.server.workers| && s.server.workers[a.w].Handling? ==> s.server.workers[a.w].id < |s.conns|
  }

  /** Connection::OnRead. A failed read and a rejected request end in ConnectionPool::Close, which erases the
      connection under the pool's mutex and closes its socket afterwards. */
  function AfterRead(s: System, c: nat, r: ReadOutcome): System
    requires Possible(s, OnRead(c, r))
  {
    var conn := s.conns[c];
    match r
    case ReadAborted => s.(conns := s.conns[c := conn.(phase := Over)])
    case ReadFailed => s.(conns := s.conns[c := conn.(phase := Over)], busy := s.busy + [ToErase(c)])
    case Rejected => s.(conns := s.conns[c := conn.(phase := Write(false))], busy := s.busy + [ToErase(c)])
    case Partial => s.(conns := s.conns[c := conn.(phase := Read(false))])
    case Finished => s.(conns := s.conns[c := conn.(phase := Pending, pushes := conn.pushes + 1)],
                        server := Apply(s.server, Push(c)))
    case NoReturn => s.(conns := s.conns[c := conn.(phase := Over)], busy := s.busy + [Lost])
  }

  /** OnWriteHeaders, OnWriteBody, OnWriteOK and OnWriteError. */
  function AfterWrite(s: System, c: nat, w: WriteOutcome): System
    requires Possible(s, OnWrite(c, w))
  {
    var conn := s.conns[c];
    match w
    case WriteAborted => s.(conns := s.conns[c := conn.(phase := Over)])
    case WriteFailed => s.(conns := s.conns[c := conn.(phase := Over)], busy := s.busy + [ToErase(c)])
    case More => s.(conns := s.conns[c := conn.(phase := Write(false))])
    case KeepAlive => s.(conns := s.conns[c := conn.(phase := Read(false))])
    case LastWritten => s.(conns := s.conns[c := conn.(phase := Over)], busy := s.busy + [ToErase(c)])
  }

  /** ConnectionPool::Clear closes what is in the pool and empties it. */
  function Cleared(c: Connection): Connection {
    if c.pooled then c.(open := false, pooled := false) else c
  }

  /** What a step of the workers or of the stopping thread does to the connections: a worker that is handling a
      request sends the response, Clear drops what is queued, and the pool is closed at the end. */
  function AfterServer(s: System, a: Action): seq<Connection>
    requires Possible(s, Server(a))
  {
    if a.Work? && s.server.workers[a.w].Handling? then
      var c := s.server.workers[a.w].id;
      s.conns[c := s.conns[c].(phase := Write(false), responses := s.conns[c].responses + 1)]
    else if a.Shut? && (s.server.stopper.Clearing? || s.server.stopper.Emptying?) then
      seq(|s.conns|, c requires 0 <= c < |s.conns| =>
        s.conns[c].(drops := s.conns[c].drops + Count(s.server.queue, c)))
    else if a.Shut? && s.server.stopper.ClosingPool? then
      seq(|s.conns|, c requires 0 <= c < |s.conns| => Cleared(s.conns[c]))
    else s.conns
  }

  function Next(s: System, e: Event): System
    requires Possible(s, e)
  {
    match e
    case Accept => s.(conns := s.conns + [Connection(Read(false), true, true, 0, 0, 0)])
    case Completes(c) =>
      s.(conns := s.conns[c := s.conns[c].(phase := if s.conns[c].phase.Read? then Read(true) else Write(true))])
    case OnRead(c, r) => AfterRead(s, c, r)
    case OnWrite(c, w) => AfterWrite(s, c, w)
    case Erases(k) =>
      var c := s.busy[k].id;
      s.(conns := s.conns[c := s.conns[c].(pooled := false)], busy := s.busy[k := ToClose(c)])
    case ClosesSocket(k) =>
      var c := s.busy[k].id;
      s.(conns := s.conns[c := s.conns[c].(open := false)], busy := s.busy[..k] + s.busy[k + 1..])
    case Server(a) => s.(conns := AfterServer(s, a), server := Apply(s.server, a))
  }

  /** A server with that many event loop threads that has not been run. */
  function NewSystem(loops: nat): System {
    System(INITIAL, [], [], loops)
  }

  function AfterEvents(s: System, events: seq<Event>): Option<System>
    decreases |events|
  {
    if events == [] then Some(s)
    else if Possible(s, events[0]) then AfterEvents(Next(s, events[0]), events[1..])
    else None
  }

  ghost predicate Occurs(s: System) {
    exists events :: AfterEvents(NewSystem(s.loops), events) == Some(s)
  }

  // ---------------------------------------------------------------- where a request is

  /** How often a connection is in the queue. */
  function Count(q: seq<Entry>, c: nat): nat {
    if q == [] then 0 else (if q[0] == Conn(c) then 1 else 0) + Count(q[1..], c)
  }

  /** How many workers are handling it. */
  function Handlers(ws: seq<Worker>, c: nat): nat {
    if ws == [] then 0 else (if ws[0] == Handling(c) then 1 else 0) + Handlers(ws[1..], c)
  }

  function InHand(s: State, c: nat): nat {
    Count(s.queue, c) + Handlers(s.workers, c)
  }

  lemma {:induction false} CountAppend(q: seq<Entry>, e: Entry, c: nat)
    ensures Count(q + [e], c) == Count(q, c) + if e == Conn(c) then 1 else 0
  {
    if q == [] {
      assert q + [e] == [e] && [e][1..] == [];
    } else {
      assert (q + [e])[1..] == q[1..] + [e];
      CountAppend(q[1..], e, c);
    }
  }

  lemma {:induction false} HandlersUpdate(ws: seq<Worker>, i: nat, w: Worker, c: nat)
    requires i < |ws|
    ensures Handlers(ws[i := w], c)
            == Handlers(ws, c) - (if ws[i] == Handling(c) then 1 else 0) + (if w == Handling(c) then 1 else 0)
  {
    if i > 0 {
      assert ws[i := w][1..] == ws[1..][i - 1 := w];
      HandlersUpdate(ws[1..], i - 1, w, c);
    } else {
      assert ws[i := w][1..] == ws[1..];
    }
  }

  lemma {:induction false} NoHandlers(ws: seq<Worker>, c: nat)
    requires forall i :: 0 <= i < |ws| ==> ws[i] != Handling(c)
    ensures Handlers(ws, c) == 0
  {
    if ws != [] {
      NoHandlers(ws[1..], c);
    }
  }

  lemma {:induction false} NotifyHandlers(ws: seq<Worker>, wake: Option<nat>, c: nat)
    requires CanWake(ws, wake)
    ensures Handlers(Notify(ws, wake), c) == Handlers(ws, c)
  {
    if wake.Some? {
      HandlersUpdate(ws, wake.value, Woken, c);
    }
  }

  /** How a step changes where the request of a connection is. */
  lemma {:induction false} InHandStep(s: State, a: Action, c: nat)
    requires Inv(s) && Enabled(s, a)
    ensures InHand(Apply(s, a), c) ==
            if a == Push(c) then InHand(s, c) + 1
            else if a.Work? && s.workers[a.w] == Handling(c) then InHand(s, c) - 1
            else if a.Shut? && (s.stopper.Clearing? || s.stopper.Emptying?) then InHand(s, c) - Count(s.queue, c)
            else InHand(s, c)
  {
    match a
    case Push(id) => CountAppend(s.queue, Conn(id), c);
    case PushNotify(wake) => NotifyHandlers(s.workers, wake, c);
    case Spurious(w) => HandlersUpdate(s.workers, w, Woken, c);
    case Work(w, wake) => WorkInHand(s, w, wake, c);
    case Shut(wake) =>
      CountAppend(s.queue, Null, c);
      if s.stopper.Waking? {
        NotifyHandlers(s.workers, wake, c);
      }
      if s.stopper.Emptying? {
        NoHandlers(s.workers, c);
      }
    case Stop =>
    case Start(n) => NoHandlers(seq(n, _ => Running), c);
  }

  lemma {:induction false} WorkInHand(s: State, w: nat, wake: Option<nat>, c: nat)
    requires Enabled(s, Work(w, wake))
    ensures InHand(Worked(s, w, wake), c) == InHand(s, c) - if s.workers[w] == Handling(c) then 1 else 0
  {
    hide Handlers;
    if s.workers[w].Notifying? {
      NotifyHandlers(s.workers, wake, c);
      HandlersUpdate(Notify(s.workers, wake), w, Exited, c);
    } else {
      HandlersUpdate(s.workers, w, Worked(s, w, wake).workers[w], c);
      CountAppend(s.queue, Null, c);
    }
  }

  // ---------------------------------------------------------------- invariants

  /** Every request pushed has been answered by a worker once, dropped once, or is in hand once: queued or
      being handled, and then its connection has neither a read nor a write outstanding. */
  predicate Accounted(s: System, c: nat)
    requires c < |s.conns|
  {
    var conn := s.conns[c];
    && InHand(s.server, c) <= 1
    && (InHand(s.server, c) == 1 ==> conn.phase.Pending?)
    && conn.pushes == conn.responses + conn.drops + InHand(s.server, c)
    && (conn.pooled ==> conn.open)
  }

  ghost predicate Consistent(s: System) {
    && Inv(s.server)
    && (forall c :: 0 <= c < |s.conns| ==> Accounted(s, c))
    && (forall c: nat :: c >= |s.conns| ==> InHand(s.server, c) == 0)
    && (forall k :: 0 <= k < |s.busy| ==> Known(s, s.busy[k]))
  }

  predicate Known(s: System, t: Task) {
    t.Lost? || (t.id < |s.conns| && (t.ToClose? ==> !s.conns[t.id].pooled))
  }

  lemma {:induction false} HandlersPositive(ws: seq<Worker>, i: nat, c: nat)
    requires i < |ws| && ws[i] == Handling(c)
    ensures Handlers(ws, c) > 0
  {
    if i > 0 {
      HandlersPositive(ws[1..], i - 1, c);
    }
  }

  lemma {:induction false} ServerAccounted(s: System, a: Action, c: nat)
    requires Consistent(s) && Possible(s, Server(a)) && c < |s.conns|
    ensures Accounted(Next(s, Server(a)), c)
  {
    hide Inv, Count, Handlers, Worked, ShutDown;
    assert Accounted(s, c);
    InHandStep(s.server, a, c);
    if a.Work? && s.server.workers[a.w] == Handling(c) {
      HandlersPositive(s.server.workers, a.w, c);
    }
  }

  lemma {:induction false} ServerConsistent(s: System, a: Action)
    requires Consistent(s) && Possible(s, Server(a))
    ensures Consistent(Next(s, Server(a)))
  {
    hide InHand, Inv, Count, Accounted;
    StepKeepsInv(s.server, a);
    var t := Next(s, Server(a));
    forall c | 0 <= c < |t.conns| ensures Accounted(t, c) {
      ServerAccounted(s, a, c);
    }
    forall c: nat | c >= |t.conns| ensures InHand(t.server, c) == 0 {
      NothingUnknown(s, a, c);
    }
  }

  lemma NothingUnknown(s: System, a: Action, c: nat)
    requires Consistent(s) && Possible(s, Server(a)) && c >= |s.conns|
    ensures InHand(Apply(s.server, a), c) == 0
  {
    hide Inv, Handlers, Worked, ShutDown;
    InHandStep(s.server, a, c);
  }

  lemma {:induction false} PushAccounted(s: System, c: nat, d: nat)
    requires Consistent(s) && Possible(s, OnRead(c, Finished)) && d < |s.conns|
    ensures Accounted(AfterRead(s, c, Finished), d)
  {
    hide Inv, Count, Handlers;
    assert Accounted(s, d);
    InHandStep(s.server, Push(c), d);
  }

  lemma {:induction false} PushConsistent(s: System, c: nat)
    requires Consistent(s) && Possible(s, OnRead(c, Finished))
    ensures Consistent(AfterRead(s, c, Finished))
  {
    hide InHand, Inv, Accounted;
    StepKeepsInv(s.server, Push(c));
    var t := AfterRead(s, c, Finished);
    forall d | 0 <= d < |t.conns| ensures Accounted(t, d) {
      PushAccounted(s, c, d);
    }
    forall d: nat | d >= |t.conns| ensures InHand(t.server, d) == 0 {
      InHandStep(s.server, Push(c), d);
    }
  }

  /** The other handlers touch one connection and leave a pending one pending. */
  lemma {:induction false} UpdateConsistent(s: System, c: nat, v: Connection, busy: seq<Task>)
    requires Consistent(s) && c < |s.conns|
    requires s.conns[c].phase.Pending? ==> v.phase.Pending?
    requires (v.pushes, v.responses, v.drops) == (s.conns[c].pushes, s.conns[c].responses, s.conns[c].drops)
    requires v.pooled ==> v.open && s.conns[c].pooled
    requires forall k :: 0 <= k < |busy| ==>
               (busy[k] in s.busy || busy[k] == ToErase(c) || busy[k] == Lost || (busy[k] == ToClose(c) && !v.pooled))
    ensures Consistent(s.(conns := s.conns[c := v], busy := busy))
  {
    hide InHand, Inv;
    assert Accounted(s, c);
    var t := s.(conns := s.conns[c := v], busy := busy);
    forall d | 0 <= d < |t.conns| ensures Accounted(t, d) {
      assert Accounted(s, d);
    }
    forall k | 0 <= k < |busy| ensures Known(t, busy[k]) {
      if busy[k] in s.busy {
        assert Known(s, busy[k]);
      }
    }
  }

  lemma {:induction false} AcceptConsistent(s: System)
    requires Consistent(s)
    ensures Consistent(s.(conns := s.conns + [Connection(Read(false), true, true, 0, 0, 0)]))
  {
    hide InHand, Inv;
    var t := s.(conns := s.conns + [Connection(Read(false), true, true, 0, 0, 0)]);
    forall d | 0 <= d < |t.conns| ensures Accounted(t, d) {
      assert d < |s.conns| ==> Accounted(s, d);
    }
    forall k | 0 <= k < |t.busy| ensures Known(t, t.busy[k]) {
      assert Known(s, s.busy[k]);
    }
  }

  /** Every event keeps every connection accounted for. */
  lemma {:induction false} EventConsistent(s: System, e: Event)
    requires Consistent(s) && Possible(s, e)
    ensures Consistent(Next(s, e))
  {
    hide Consistent, Inv, Enabled, Apply;
    match e
    case Server(a) => ServerConsistent(s, a);
    case OnRead(c, r) =>
      if r == Finished {
        PushConsistent(s, c);
      } else {
        HandlerConsistent(s, e, c);
      }
    case OnWrite(c, _) => HandlerConsistent(s, e, c);
    case Completes(c) => HandlerConsistent(s, e, c);
    case Erases(k) => HandlerConsistent(s, e, s.busy[k].id);
    case ClosesSocket(k) => HandlerConsistent(s, e, s.busy[k].id);
    case Accept => AcceptConsistent(s);
  }

  lemma {:induction false} HandlerConsistent(s: System, e: Event, c: nat)
    requires Consistent(s) && Possible(s, e)
    requires match e
             case OnRead(d, r) => d == c && r != Finished
             case OnWrite(d, _) => d == c
             case Completes(d) => d == c
             case Erases(k) => s.busy[k].id == c
             case ClosesSocket(k) => s.busy[k].id == c
             case _ => false
    ensures Consistent(Next(s, e))
  {
    hide InHand, Inv;
    var t := Next(s, e);
    assert Accounted(s, c);
    assert t.conns == s.conns[c := t.conns[c]];
    UpdateConsistent(s, c, t.conns[c], t.busy);
  }

  lemma {:induction false} ConsistentAfter(s: System, events: seq<Event>)
    requires Consistent(s) && AfterEvents(s, events).Some?
    ensures Consistent(AfterEvents(s, events).value)
    decreases |events|
  {
    if events != [] {
      EventConsistent(s, events[0]);
      ConsistentAfter(Next(s, events[0]), events[1..]);
    }
  }

  /** In every reachable state a connection is queued at most once or handled by at most one worker, not both;
      it then has neither a read nor a write outstanding; and each push of it has been answered by a worker
      once, dropped once, or is still in hand. */
  lemma {:induction false} ConnectionExclusivity(s: System, c: nat)
    requires Occurs(s) && c < |s.conns|
    ensures Accounted(s, c)
  {
    hide Accounted, Inv, AfterEvents;
    var events :| AfterEvents(NewSystem(s.loops), events) == Some(s);
    NewConsistent(s.loops);
    ConsistentAfter(NewSystem(s.loops), events);
  }

  /** The connections hold up no step of the workers and of the stopping thread. */
  lemma {:induction false} ServerUnhindered(s: System, a: Action)
    requires Occurs(s) && Enabled(s.server, a) && !a.Push?
    ensures Possible(s, Server(a))
  {
    hide AfterEvents, Inv;
    var events :| AfterEvents(NewSystem(s.loops), events) == Some(s);
    NewConsistent(s.loops);
    ConsistentAfter(NewSystem(s.loops), events);
    if a.Work? && s.server.workers[a.w].Handling? {
      HandlersPositive(s.server.workers, a.w, s.server.workers[a.w].id);
      assert InHand(s.server, s.server.workers[a.w].id) > 0;
    }
  }

  lemma NewConsistent(loops: nat)
    ensures Consistent(NewSystem(loops))
  {
    InitialInv();
  }

  // ---------------------------------------------------------------- closing

  predicate BeingHandled(s: System, c: nat) {
    exists w :: 0 <= w < |s.server.workers| && s.server.workers[w] == Handling(c)
  }

  /** The event closes the socket of the connection. */
  predicate Closes(s: System, e: Event, c: nat)
    requires Possible(s, e)
  {
    match e
    case ClosesSocket(k) => s.busy[k].id == c
    case Server(a) => a.Shut? && s.server.stopper.ClosingPool? && c < |s.conns| && s.conns[c].pooled
    case _ => false
  }

  /** A thread is on its way to closing a connection that waits for nothing but a write to end. */
  predicate Idle(s: System, t: Task) {
    t.Lost? || (t.id < |s.conns| && (s.conns[t.id].phase.Write? || s.conns[t.id].phase.Over?))
  }

  /** With one event loop thread, nothing happens to a connection before a handler goes on to close it. */
  predicate LateWriting(s: System) {
    s.loops == 1 ==> |s.busy| <= 1 && forall k :: 0 <= k < |s.busy| ==> Idle(s, s.busy[k])
  }

  lemma {:induction false} LateWritingKept(s: System, e: Event)
    requires LateWriting(s) && Possible(s, e)
    ensures LateWriting(Next(s, e))
  {
    hide Apply, Enabled;
    match e
    case Server(a) => PhasesKept(s, a);
    case _ =>
  }

  lemma PhasesKept(s: System, a: Action)
    requires Possible(s, Server(a))
    ensures |AfterServer(s, a)| == |s.conns|
    ensures forall c :: 0 <= c < |s.conns| ==>
              AfterServer(s, a)[c].phase == s.conns[c].phase || AfterServer(s, a)[c].phase.Write?
    ensures forall c :: 0 <= c < |s.conns| && AfterServer(s, a)[c].open ==>
              s.conns[c].open && (AfterServer(s, a)[c].pooled <==> s.conns[c].pooled)
  {
  }

  lemma {:induction false} LateWritingAfter(s: System, events: seq<Event>)
    requires LateWriting(s) && AfterEvents(s, events).Some?
    ensures LateWriting(AfterEvents(s, events).value)
    decreases |events|
  {
    if events != [] {
      hide LateWriting;
      LateWritingKept(s, events[0]);
      LateWritingAfter(Next(s, events[0]), events[1..]);
    }
  }

  lemma HandledIsPending(s: System, c: nat)
    requires Consistent(s) && BeingHandled(s, c)
    ensures c < |s.conns| && s.conns[c].phase.Pending? && s.server.workers != []
  {
    var w :| 0 <= w < |s.server.workers| && s.server.workers[w] == Handling(c);
    HandlersPositive(s.server.workers, w, c);
    assert InHand(s.server, c) > 0;
    if c < |s.conns| {
      assert Accounted(s, c);
    }
  }

  lemma {:induction false} SafeWithOneLoop(s: System, e: Event, c: nat)
    requires Occurs(s) && s.loops == 1 && Possible(s, e) && Closes(s, e, c)
    ensures !BeingHandled(s, c)
  {
    hide BeingHandled, InHand, AfterEvents;
    var events :| AfterEvents(NewSystem(s.loops), events) == Some(s);
    NewConsistent(s.loops);
    ConsistentAfter(NewSystem(s.loops), events);
    LateWritingAfter(NewSystem(s.loops), events);
    if BeingHandled(s, c) {
      HandledIsPending(s, c);
    }
  }

  lemma {:induction false} OneEvent(s: System, e: Event, events: seq<Event>)
    ensures AfterEvents(s, events).Some? && Possible(AfterEvents(s, events).value, e) ==>
              AfterEvents(s, events + [e]) == Some(Next(AfterEvents(s, events).value, e))
    decreases |events|
  {
    if events == [] {
      assert [] + [e] == [e] && [e][1..] == [];
    } else if Possible(s, events[0]) {
      assert (events + [e])[1..] == events[1..] + [e];
      OneEvent(Next(s, events[0]), e, events[1..]);
    }
  }

  lemma {:induction false} OccursNext(s: System, e: Event)
    requires Occurs(s) && Possible(s, e)
    ensures Occurs(Next(s, e)) && Next(s, e).loops == s.loops
  {
    var events :| AfterEvents(NewSystem(s.loops), events) == Some(s);
    OneEvent(NewSystem(s.loops), e, events);
  }

  /** A server with one connection, to be closed by a thread that has started to. */
  function One(server: State, phase: Phase, pushes: nat, loops: nat): System {
    System(server, [Connection(phase, true, true, pushes, 0, 0)], [ToErase(0)], loops)
  }

  const READY := State([], [Running], 0, Serving)

  /** A connection whose first read has come to that. */
  function Opened(phase: Phase, loops: nat): System {
    System(READY, [Connection(phase, true, true, 0, 0, 0)], [], loops)
  }

  lemma OpenedOccurs(loops: nat)
    requires loops > 0
    ensures Occurs(Opened(Read(false), loops))
  {
    var s0 := NewSystem(loops);
    assert AfterEvents(s0, []) == Some(s0);
    OccursNext(s0, Server(Start(1)));
    var s1 := System(READY, [], [], loops);
    assert Next(s0, Server(Start(1))) == s1;
    OccursNext(s1, Accept);
    assert Next(s1, Accept) == Opened(Read(false), loops);
  }

  lemma RejectedOccurs(loops: nat)
    requires loops >= 2
    ensures Occurs(One(READY, Write(false), 0, loops))
  {
    OpenedOccurs(loops);
    OccursNext(Opened(Read(false), loops), Completes(0));
    assert Next(Opened(Read(false), loops), Completes(0)) == Opened(Read(true), loops);
    OccursNext(Opened(Read(true), loops), OnRead(0, Rejected));
    assert Next(Opened(Read(true), loops), OnRead(0, Rejected)) == One(READY, Write(false), 0, loops);
  }

  lemma ReadAgainOccurs(loops: nat)
    requires loops >= 2
    ensures Occurs(One(READY, Read(true), 0, loops))
  {
    RejectedOccurs(loops);
    var s0 := One(READY, Write(false), 0, loops);
    OccursNext(s0, Completes(0));
    var s1 := One(READY, Write(true), 0, loops);
    assert Next(s0, Completes(0)) == s1;
    OccursNext(s1, OnWrite(0, KeepAlive));
    var s2 := One(READY, Read(false), 0, loops);
    assert Next(s1, OnWrite(0, KeepAlive)) == s2;
    OccursNext(s2, Completes(0));
    assert Next(s2, Completes(0)) == One(READY, Read(true), 0, loops);
  }

  /** A second event loop thread writes the 400 response, keeps the connection alive and reads the next request,
      which a worker takes up, before the first thread goes on to close the connection. */
  lemma HandledAndLateOccurs(loops: nat) returns (s: System)
    requires loops >= 2
    ensures Occurs(s) && s.loops == loops && s.busy == [ToClose(0)] && |s.conns| == 1 && BeingHandled(s, 0)
  {
    ReadAgainOccurs(loops);
    var s0 := One(READY, Read(true), 0, loops);
    OccursNext(s0, OnRead(0, Finished));
    var s1 := One(State([Conn(0)], [Running], 1, Serving), Pending, 1, loops);
    assert Next(s0, OnRead(0, Finished)) == s1;
    OccursNext(s1, Server(Work(0, None)));
    var s2 := Next(s1, Server(Work(0, None)));
    assert s2.server.workers[0] == Handling(0);
    OccursNext(s2, Erases(0));
    s := Next(s2, Erases(0));
    assert s.server.workers[0] == Handling(0);
  }

  ghost predicate NeverClosedWhileHandled(loops: nat) {
    forall s, e, c :: Occurs(s) && s.loops == loops && Possible(s, e) && Closes(s, e, c) ==> !BeingHandled(s, c)
  }

  /** A connection is never closed while a worker is handling it exactly when the event loop runs in one thread. */
  lemma {:induction false} CloseSafety(loops: nat)
    requires loops > 0
    ensures NeverClosedWhileHandled(loops) <==> loops == 1
  {
    if loops == 1 {
      forall s, e, c | Occurs(s) && s.loops == loops && Possible(s, e) && Closes(s, e, c) ensures !BeingHandled(s, c) {
        SafeWithOneLoop(s, e, c);
      }
    } else {
      var s := HandledAndLateOccurs(loops);
      assert Possible(s, ClosesSocket(0)) && Closes(s, ClosesSocket(0), 0);
    }
  }

  // ---------------------------------------------------------------- the pool

  /** A connection that has left the pool is closed, or a thread is about to close it. */
  predicate Tracked(s: System, c: nat)
    requires c < |s.conns|
  {
    s.conns[c].open && !s.conns[c].pooled ==> ToClose(c) in s.busy
  }

  predicate AllTracked(s: System) {
    forall c :: 0 <= c < |s.conns| ==> Tracked(s, c)
  }

  /** Only Erase takes an open connection out of the pool. */
  lemma {:induction false} OnlyErase(s: System, e: Event, c: nat)
    requires Possible(s, e) && c < |s.conns|
    ensures |Next(s, e).conns| >= |s.conns|
    ensures Next(s, e).conns[c].open && !Next(s, e).conns[c].pooled ==>
              s.conns[c].open && (!s.conns[c].pooled || (e.Erases? && s.busy[e.k].id == c))
    ensures e.ClosesSocket? && s.busy[e.k].id == c ==> !Next(s, e).conns[c].open
  {
    hide Apply, Enabled, Count, AfterServer;
    if e.Server? {
      PhasesKept(s, e.action);
    }
  }

  lemma {:induction false} TrackedKept(s: System, e: Event)
    requires AllTracked(s) && Possible(s, e)
    ensures AllTracked(Next(s, e))
  {
    hide Next, Possible;
    var t := Next(s, e);
    forall c | 0 <= c < |t.conns| ensures Tracked(t, c) {
      if c >= |s.conns| {
        NewPooled(s, e, c);
      } else {
        assert Tracked(s, c);
        OnlyErase(s, e, c);
        if t.conns[c].open && !t.conns[c].pooled {
          if s.conns[c].pooled {
            ErasedTask(s, e);
          } else {
            var k :| 0 <= k < |s.busy| && s.busy[k] == ToClose(c);
            TaskStays(s, e, k);
          }
        }
      }
    }
  }

  lemma NewPooled(s: System, e: Event, c: nat)
    requires Possible(s, e) && |s.conns| <= c < |Next(s, e).conns|
    ensures Next(s, e).conns[c].pooled
  {
    hide Apply, Enabled, Count, AfterServer;
    if e.Server? {
      PhasesKept(s, e.action);
    }
  }

  lemma ErasedTask(s: System, e: Event)
    requires Possible(s, e) && e.Erases?
    ensures ToClose(s.busy[e.k].id) in Next(s, e).busy
  {
    assert Next(s, e).busy[e.k] == ToClose(s.busy[e.k].id);
  }

  /** A task stays until it is done. */
  lemma {:induction false} TaskStays(s: System, e: Event, k: nat)
    requires Possible(s, e) && k < |s.busy| && s.busy[k].ToClose?
    ensures e == ClosesSocket(k) || s.busy[k] in Next(s, e).busy
            || (e.ClosesSocket? && s.busy[e.k] == s.busy[k])
  {
    hide Apply, Enabled;
    var t := Next(s, e);
    match e
    case ClosesSocket(j) =>
      if j != k {
        assert t.busy[if k < j then k else k - 1] == s.busy[k];
      }
    case Erases(j) => assert t.busy[k] == s.busy[k];
    case _ => assert t.busy[k] == s.busy[k];
  }

  lemma {:induction false} TrackedAfter(s: System, events: seq<Event>)
    requires AllTracked(s) && AfterEvents(s, events).Some?
    ensures AllTracked(AfterEvents(s, events).value)
    decreases |events|
  {
    if events != [] {
      hide AllTracked;
      TrackedKept(s, events[0]);
      TrackedAfter(Next(s, events[0]), events[1..]);
    }
  }

  /** When the pool is cleared, no worker is left, and a connection stays open only if a thread that has taken it
      out of the pool is about to close it. */
  lemma {:induction false} ClearClosesAll(s: System, wake: Option<nat>, c: nat)
    requires Occurs(s) && s.server.stopper.ClosingPool? && Possible(s, Server(Shut(wake))) && c < |s.conns|
    ensures s.server.workers == []
    ensures var t := Next(s, Server(Shut(wake)));
            !t.conns[c].pooled && (t.conns[c].open ==> ToClose(c) in t.busy)
  {
    hide AfterEvents, InHand;
    var events :| AfterEvents(NewSystem(s.loops), events) == Some(s);
    NewConsistent(s.loops);
    ConsistentAfter(NewSystem(s.loops), events);
    TrackedAfter(NewSystem(s.loops), events);
    assert Accounted(s, c) && Tracked(s, c);
  }

  /** A server that is stopping, with a connection that a thread has taken out of the pool. */
  function Leaving(server: State, loops: nat): System {
    System(server, [Connection(Over, true, false, 0, 0, 0)], [ToClose(0)], loops)
  }

  lemma LeavingOccurs(loops: nat)
    requires loops > 0
    ensures Occurs(Leaving(READY, loops))
  {
    OpenedOccurs(loops);
    OccursNext(Opened(Read(false), loops), OnRead(0, ReadFailed));
    var s := System(READY, [Connection(Over, true, true, 0, 0, 0)], [ToErase(0)], loops);
    assert Next(Opened(Read(false), loops), OnRead(0, ReadFailed)) == s;
    OccursNext(s, Erases(0));
    assert Next(s, Erases(0)) == Leaving(READY, loops);
  }

  /** A step of the server that touches no connection. */
  lemma LeavingStep(v: State, a: Action, w: State, loops: nat)
    requires Occurs(Leaving(v, loops)) && !a.Push? && Enabled(v, a) && Apply(v, a) == w
    requires a.Work? ==> !v.workers[a.w].Handling?
    requires a.Shut? ==> !v.stopper.ClosingPool? && Count(v.queue, 0) == 0
    ensures Occurs(Leaving(w, loops))
  {
    OccursNext(Leaving(v, loops), Server(a));
    assert Next(Leaving(v, loops), Server(a)).conns == Leaving(v, loops).conns;
  }

  lemma LeavingRelay(loops: nat)
    requires loops > 0
    ensures Occurs(Leaving(State([Null], [Running], 0, Joining(0)), loops))
  {
    LeavingOccurs(loops);
    LeavingStep(READY, Stop, READY.(stopper := Sizing), loops);
    LeavingStep(READY.(stopper := Sizing), Shut(None), READY.(stopper := Pushing), loops);
    var v := State([Null], [Running], 0, Waking);
    LeavingStep(READY.(stopper := Pushing), Shut(None), v, loops);
    assert CanWake(v.workers, None) && Count([Null], 0) == Count([Null][1..], 0);
    LeavingStep(v, Shut(None), v.(stopper := Joining(0)), loops);
  }

  lemma LeavingHeld(loops: nat)
    requires loops > 0
    ensures Occurs(Leaving(State([Null], [Notifying], 0, Joining(0)), loops))
  {
    LeavingRelay(loops);
    var v := State([Null], [Running], 0, Waking);
    LeavingStep(v.(stopper := Joining(0)), Work(0, None), State([], [HoldsNull], 0, Joining(0)), loops);
    LeavingStep(State([], [HoldsNull], 0, Joining(0)), Work(0, None), State([Null], [Notifying], 0, Joining(0)), loops);
  }

  /** It does happen that a connection is open after the pool has been cleared, with any number of event loop
      threads: Close erases and closes in two steps. */
  lemma OpenAfterClear(loops: nat) returns (s: System)
    requires loops > 0
    ensures Occurs(s) && s.loops == loops && s.server.stopper.Stopped? && |s.conns| == 1 && s.conns[0].open
  {
    LeavingHeld(loops);
    var v := State([Null], [Notifying], 0, Joining(0));
    assert CanWake(v.workers, None);
    LeavingStep(v, Work(0, None), v.(workers := [Exited]), loops);
    assert Count([Null], 0) == Count([Null][1..], 0);
    LeavingStep(v.(workers := [Exited]), Shut(None), v.(workers := [Exited], stopper := Joining(1)), loops);
    LeavingStep(v.(workers := [Exited], stopper := Joining(1)), Shut(None),
                v.(workers := [Exited], stopper := Emptying), loops);
    LeavingStep(v.(workers := [Exited], stopper := Emptying), Shut(None), State([], [], 0, ClosingPool), loops);
    OccursNext(Leaving(State([], [], 0, ClosingPool), loops), Server(Shut(None)));
    s := Next(Leaving(State([], [], 0, ClosingPool), loops), Server(Shut(None)));
  }

  // ---------------------------------------------------------------- the server underneath

  /** What the queue, the workers and the stopping thread do in a run with connections is a run of theirs, so
      everything shown of module Workers holds here. */
  lemma {:induction false} ServerIsReachable(s: System)
    requires Occurs(s)
    ensures Reachable(s.server)
  {
    hide AfterEvents, AfterSteps;
    var events :| AfterEvents(NewSystem(s.loops), events) == Some(s);
    var steps := ServerSteps(NewSystem(s.loops), events);
  }

  lemma {:induction false} ServerSteps(s: System, events: seq<Event>) returns (steps: seq<Action>)
    requires AfterEvents(s, events).Some?
    ensures AfterSteps(s.server, steps) == Some(AfterEvents(s, events).value.server)
    decreases |events|
  {
    if events == [] {
      steps := [];
    } else {
      hide Apply, Enabled;
      var e := events[0];
      var more := ServerSteps(Next(s, e), events[1..]);
      steps := more;
      match e
      case Server(a) =>
        steps := [a] + more;
        assert steps[1..] == more;
      case OnRead(c, r) =>
        if r == Finished {
          steps := [Push(c)] + more;
          assert steps[1..] == more;
        }
      case _ =>
    }
  }
}
