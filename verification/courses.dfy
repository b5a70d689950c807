/** What becomes of every connection in the end: infinite runs of the whole server, with event loop, pool and workers
    (webcc/connection.cc, webcc/connection_pool.cc, webcc/server.cc). */
module Courses {
  import opened Text
  import opened Workers
  import opened Shutdown
  import opened Service
  import opened Connections

  // ---------------------------------------------------------------- nobody is forgotten

  predicate ToBeClosed(s: System, c: nat) {
    ToErase(c) in s.busy || ToClose(c) in s.busy
  }

  /** A connection with nothing outstanding is closed, or about to be, or its handler never came back. One whose request
      has been read is in hand, or its request has been dropped. */
  predicate Remembered(s: System, c: nat)
    requires c < |s.conns|
  {
    && (s.conns[c].phase.Over? && s.conns[c].open ==> ToBeClosed(s, c) || Lost in s.busy)
    && (s.conns[c].phase.Pending? ==> InHand(s.server, c) > 0 || s.conns[c].drops > 0)
  }

  /** A task stays until it has been done; one that erases becomes one that closes. */
  lemma {:induction false} TaskStep(s: System, e: Event, k: nat)
    requires Possible(s, e) && k < |s.busy|
    ensures || s.busy[k] in Next(s, e).busy
            || (e.Erases? && s.busy[e.k] == s.busy[k] && ToClose(s.busy[k].id) in Next(s, e).busy)
            || (e.ClosesSocket? && s.busy[e.k] == s.busy[k] && !Next(s, e).conns[s.busy[k].id].open)
  {
    hide Apply, Enabled, AfterServer, HandledExists;
    var t := Next(s, e);
    match e
    case ClosesSocket(j) =>
      if j != k {
        assert t.busy[if k < j then k else k - 1] == s.busy[k];
      }
    case Erases(j) => assert t.busy[j] == ToClose(s.busy[j].id) && (j != k ==> t.busy[k] == s.busy[k]);
    case _ => assert t.busy[k] == s.busy[k];
  }

  /** The events that touch a connection. */
  predicate Touches(s: System, e: Event, c: nat)
    requires Possible(s, e)
  {
    match e
    case Completes(d) => d == c
    case OnRead(d, _) => d == c
    case OnWrite(d, _) => d == c
    case Server(a) => a.Work? && s.server.workers[a.w] == Handling(c)
    case _ => false
  }

  lemma {:induction false} PhaseStep(s: System, e: Event, c: nat)
    requires Possible(s, e) && c < |s.conns|
    ensures c < |Next(s, e).conns|
    ensures !Touches(s, e, c) ==> Next(s, e).conns[c].phase == s.conns[c].phase
    ensures Next(s, e).conns[c].open ==> s.conns[c].open
    ensures Next(s, e).conns[c].drops >= s.conns[c].drops
  {
    hide Count, Apply;
  }

  lemma {:induction false} DropStep(s: System, e: Event, c: nat)
    requires Consistent(s) && Possible(s, e) && c < |s.conns| && s.conns[c].phase.Pending? && InHand(s.server, c) > 0
    ensures Next(s, e).conns[c].phase.Pending? ==>
              InHand(Next(s, e).server, c) > 0 || Next(s, e).conns[c].drops > 0
  {
    hide Inv, Handlers, Worked, ShutDown, Enabled, Count;
    assert Accounted(s, c);
    if e.Server? {
      InHandStep(s.server, e.action, c);
    } else if e.OnRead? && e.read == Finished {
      InHandStep(s.server, Push(e.c), c);
    }
  }

  lemma {:induction false} RememberedKept(s: System, e: Event, c: nat)
    requires Consistent(s) && Possible(s, e) && c < |s.conns| && Remembered(s, c)
    ensures Remembered(Next(s, e), c)
  {
    PhaseStep(s, e, c);
    if Touches(s, e, c) {
      TouchRemembered(s, e, c);
    } else {
      PendingRemembered(s, e, c);
      OverRemembered(s, e, c);
    }
  }

  lemma {:induction false} PendingRemembered(s: System, e: Event, c: nat)
    requires Consistent(s) && Possible(s, e) && c < |s.conns| && Remembered(s, c) && !Touches(s, e, c)
    ensures Next(s, e).conns[c].phase.Pending? ==>
              InHand(Next(s, e).server, c) > 0 || Next(s, e).conns[c].drops > 0
  {
    hide InHand, Inv, Next, Possible, Touches;
    PhaseStep(s, e, c);
    if s.conns[c].phase.Pending? && InHand(s.server, c) > 0 {
      DropStep(s, e, c);
    }
  }

  lemma {:induction false} OverRemembered(s: System, e: Event, c: nat)
    requires Possible(s, e) && c < |s.conns| && Remembered(s, c) && !Touches(s, e, c)
    ensures var t := Next(s, e); t.conns[c].phase.Over? && t.conns[c].open ==> ToBeClosed(t, c) || Lost in t.busy
  {
    hide InHand, Next, Touches;
    PhaseStep(s, e, c);
    if s.conns[c].phase.Over? && s.conns[c].open {
      var k :| 0 <= k < |s.busy| && (s.busy[k] == Lost || s.busy[k] == ToErase(c) || s.busy[k] == ToClose(c));
      TaskStep(s, e, k);
    }
  }

  lemma {:induction false} TouchRemembered(s: System, e: Event, c: nat)
    requires Consistent(s) && Possible(s, e) && c < |s.conns| && Touches(s, e, c)
    ensures Remembered(Next(s, e), c)
  {
    hide Inv, Enabled, Handlers, Worked;
    var t := Next(s, e);
    assert Accounted(s, c);
    if e.OnRead? {
      if e.read == Finished {
        InHandStep(s.server, Push(c), c);
      } else if t.busy != s.busy {
        assert t.busy[|s.busy|] in t.busy;
      }
    } else if e.OnWrite? && t.busy != s.busy {
      assert t.busy[|s.busy|] in t.busy;
    }
  }

  lemma {:induction false} RememberedAfter(s: System, events: seq<Event>)
    requires Consistent(s) && AfterEvents(s, events).Some?
    requires forall c :: 0 <= c < |s.conns| ==> Remembered(s, c)
    ensures var t := AfterEvents(s, events).value; forall c :: 0 <= c < |t.conns| ==> Remembered(t, c)
    decreases |events|
  {
    if events != [] {
      hide Consistent, Remembered, Next, Possible;
      var e := events[0];
      EventConsistent(s, e);
      forall c | 0 <= c < |Next(s, e).conns| ensures Remembered(Next(s, e), c) {
        if c < |s.conns| {
          RememberedKept(s, e, c);
        } else {
          NewRemembered(s, e, c);
        }
      }
      RememberedAfter(Next(s, e), events[1..]);
    }
  }

  lemma NewRemembered(s: System, e: Event, c: nat)
    requires Possible(s, e) && |s.conns| <= c < |Next(s, e).conns|
    ensures Remembered(Next(s, e), c)
  {
    hide Apply, InHand, Count;
  }

  /** No connection goes silent: in every reachable state, one that is open and waits for nothing is about to be closed,
      unless a handler never came back; and one whose request has been read is queued, handled, or has been dropped. */
  lemma {:induction false} NobodyForgotten(s: System, c: nat)
    requires Occurs(s) && c < |s.conns|
    ensures Remembered(s, c)
  {
    hide AfterEvents, Consistent, Remembered;
    var events :| AfterEvents(NewSystem(s.loops), events) == Some(s);
    NewConsistent(s.loops);
    RememberedAfter(NewSystem(s.loops), events);
  }

  // ---------------------------------------------------------------- infinite runs

  /** The events of a run without end, if any happens at a moment. */
  datatype Course = Course(system: nat -> System, event: nat -> Option<Event>)

  predicate Happens(t: Course, i: nat) {
    match t.event(i)
    case None => t.system(i + 1) == t.system(i)
    case Some(e) => Possible(t.system(i), e) && t.system(i + 1) == Next(t.system(i), e)
  }

  ghost predicate IsCourse(t: Course) {
    Occurs(t.system(0)) && forall i: nat :: Happens(t, i)
  }

  function ActionOf(e: Option<Event>): Option<Action> {
    match e
    case Some(Server(a)) => Some(a)
    case Some(OnRead(c, Finished)) => Some(Push(c))
    case _ => None
  }

  /** What queue, workers and stopping thread do in it. */
  function ServerRun(t: Course): Trace {
    Trace((i: nat) => t.system(i).server, (i: nat) => ActionOf(t.event(i)))
  }

  predicate InPhase(t: Course, c: nat, p: Phase, i: nat) {
    c < |t.system(i).conns| && t.system(i).conns[c].phase == p
  }

  predicate PhaseOver(t: Course, c: nat, p: Phase, i: nat, j: nat) {
    i <= j && !InPhase(t, c, p, j)
  }

  ghost predicate PhaseEnds(t: Course, c: nat, p: Phase, i: nat) {
    exists j: nat :: PhaseOver(t, c, p, i, j)
  }

  predicate TaskOver(t: Course, k: Task, i: nat, j: nat) {
    i <= j && k !in t.system(j).busy
  }

  ghost predicate TaskEnds(t: Course, k: Task, i: nat) {
    exists j: nat :: TaskOver(t, k, i, j)
  }

  /** Every thread gets its turn, every operation completes or fails in the end, a handler is run for it, and what a
      handler has started it finishes. Clients do not keep a connection waiting for ever. */
  ghost predicate FairCourse(t: Course) {
    && Fair(ServerRun(t))
    && (forall c: nat, p: Phase, i: nat :: p.Read? || p.Write? ==> PhaseEnds(t, c, p, i))
    && (forall k: Task, i: nat :: !k.Lost? ==> TaskEnds(t, k, i))
  }

  lemma {:induction false} CourseOccurs(t: Course, i: nat)
    requires IsCourse(t)
    ensures Occurs(t.system(i))
  {
    if i > 0 {
      CourseOccurs(t, i - 1);
      assert Happens(t, i - 1);
      if t.event(i - 1).Some? {
        OccursNext(t.system(i - 1), t.event(i - 1).value);
      }
    }
  }

  lemma {:induction false} ServerRunIsRun(t: Course)
    requires IsCourse(t)
    ensures IsRun(ServerRun(t))
  {
    hide AfterEvents, Apply;
    var r := ServerRun(t);
    var s := t.system(0);
    var events :| AfterEvents(NewSystem(s.loops), events) == Some(s);
    NewConsistent(s.loops);
    ConsistentAfter(NewSystem(s.loops), events);
    forall i: nat ensures Follows(r, i) {
      assert Happens(t, i);
    }
  }

  lemma {:induction false} ConnectionStays(t: Course, c: nat, i: nat, j: nat)
    requires IsCourse(t) && i <= j && c < |t.system(i).conns|
    ensures c < |t.system(j).conns|
    ensures t.system(j).conns[c].open ==> t.system(i).conns[c].open
    decreases j - i
  {
    if i < j {
      hide Next, Possible, Touches;
      ConnectionStays(t, c, i, j - 1);
      assert Happens(t, j - 1);
      if t.event(j - 1).Some? {
        PhaseStep(t.system(j - 1), t.event(j - 1).value, c);
      }
    }
  }

  predicate TouchedAt(t: Course, c: nat, j: nat) {
    t.event(j).Some? && Possible(t.system(j), t.event(j).value) && Touches(t.system(j), t.event(j).value, c)
  }

  /** Until it is touched, a connection stays in its phase. */
  lemma {:induction false} FirstTouch(t: Course, c: nat, p: Phase, i: nat, n: nat) returns (j: nat)
    requires IsCourse(t) && i <= n && InPhase(t, c, p, i) && !InPhase(t, c, p, n)
    ensures i <= j && InPhase(t, c, p, j) && TouchedAt(t, c, j)
    decreases n - i
  {
    hide Next, Possible, Touches;
    assert Happens(t, i);
    if TouchedAt(t, c, i) {
      j := i;
    } else {
      if t.event(i).Some? {
        PhaseStep(t.system(i), t.event(i).value, c);
      }
      j := FirstTouch(t, c, p, i + 1, n);
    }
  }

  lemma {:induction false} Touched(t: Course, c: nat, p: Phase, i: nat) returns (j: nat)
    requires IsCourse(t) && FairCourse(t) && InPhase(t, c, p, i) && (p.Read? || p.Write?)
    ensures i <= j && InPhase(t, c, p, j) && TouchedAt(t, c, j)
  {
    hide Fair, InPhase, TouchedAt;
    assert PhaseEnds(t, c, p, i);
    var n: nat :| PhaseOver(t, c, p, i, n);
    j := FirstTouch(t, c, p, i, n);
  }

  /** A connection that is being handled is neither reading nor writing. */
  lemma {:induction false} NotHandled(t: Course, c: nat, p: Phase, j: nat)
    requires IsCourse(t) && InPhase(t, c, p, j) && TouchedAt(t, c, j) && !p.Pending?
    ensures !t.event(j).value.Server?
  {
    hide AfterEvents, InHand;
    CourseOccurs(t, j);
    var s, e := t.system(j), t.event(j).value;
    if e.Server? {
      ConnectionExclusivity(s, c);
      HandlersPositive(s.server.workers, e.action.w, c);
      HandlersCount(s.server, c);
    }
  }

  lemma HandlersCount(s: State, c: nat)
    ensures InHand(s, c) >= Handlers(s.workers, c)
  {
  }

  predicate ReadAt(t: Course, c: nat, j: nat) {
    t.event(j).Some? && t.event(j).value.OnRead? && t.event(j).value.c == c
  }

  predicate WriteAt(t: Course, c: nat, j: nat) {
    t.event(j).Some? && t.event(j).value.OnWrite? && t.event(j).value.c == c
  }

  /** The handler of a read is run in the end. */
  lemma {:induction false} ReadTurn(t: Course, c: nat, i: nat) returns (j: nat)
    requires IsCourse(t) && FairCourse(t) && c < |t.system(i).conns| && t.system(i).conns[c].phase.Read?
    ensures i <= j && ReadAt(t, c, j) && c < |t.system(j).conns|
  {
    hide FairCourse, Occurs;
    var p := t.system(i).conns[c].phase;
    j := Touched(t, c, p, i);
    NotHandled(t, c, p, j);
    if !ReadAt(t, c, j) {
      assert Happens(t, j);
      var n := j + 1;
      j := Touched(t, c, Read(true), n);
      NotHandled(t, c, Read(true), j);
    }
  }

  lemma {:induction false} WriteTurn(t: Course, c: nat, i: nat) returns (j: nat)
    requires IsCourse(t) && FairCourse(t) && c < |t.system(i).conns| && t.system(i).conns[c].phase.Write?
    ensures i <= j && WriteAt(t, c, j) && c < |t.system(j).conns|
  {
    hide FairCourse, Occurs;
    var p := t.system(i).conns[c].phase;
    j := Touched(t, c, p, i);
    NotHandled(t, c, p, j);
    if !WriteAt(t, c, j) {
      assert Happens(t, j);
      var n := j + 1;
      j := Touched(t, c, Write(true), n);
      NotHandled(t, c, Write(true), j);
    }
  }

  // ---------------------------------------------------------------- closing

  predicate ClosedAt(t: Course, c: nat, j: nat) {
    c < |t.system(j).conns| && !t.system(j).conns[c].open
  }

  /** Until a task is done it stays. */
  lemma {:induction false} FirstDone(t: Course, k: Task, i: nat, n: nat) returns (j: nat)
    requires IsCourse(t) && i <= n && k in t.system(i).busy && k !in t.system(n).busy && !k.Lost?
    ensures i < j && (if k.ToErase? then ToClose(k.id) in t.system(j).busy else ClosedAt(t, k.id, j))
    decreases n - i
  {
    hide Next, Possible;
    assert Happens(t, i);
    var s := t.system(i);
    if k in t.system(i + 1).busy {
      j := FirstDone(t, k, i + 1, n);
    } else {
      j := i + 1;
      var x :| 0 <= x < |s.busy| && s.busy[x] == k;
      TaskStep(s, t.event(i).value, x);
      DoneBy(s, t.event(i).value, x);
    }
  }

  lemma DoneBy(s: System, e: Event, x: nat)
    requires Possible(s, e) && x < |s.busy| && s.busy[x] !in Next(s, e).busy
    ensures e.Erases? || e.ClosesSocket? ==>
              s.busy[e.k].id < |Next(s, e).conns| && (if e.Erases? then s.busy[e.k].ToErase? else s.busy[e.k].ToClose?)
  {
  }

  lemma {:induction false} GetsClosed(t: Course, c: nat, i: nat) returns (j: nat)
    requires IsCourse(t) && FairCourse(t) && ToBeClosed(t.system(i), c)
    ensures i < j && ClosedAt(t, c, j)
  {
    hide Fair, IsCourse;
    var k := if ToClose(c) in t.system(i).busy then ToClose(c) else ToErase(c);
    assert TaskEnds(t, k, i);
    var n: nat :| TaskOver(t, k, i, n);
    j := FirstDone(t, k, i, n);
    if k.ToErase? {
      assert TaskEnds(t, ToClose(c), j);
      n :| TaskOver(t, ToClose(c), j, n);
      j := FirstDone(t, ToClose(c), j, n);
    }
  }

  // ---------------------------------------------------------------- a request and its answer

  predicate PartialAt(t: Course, c: nat, j: nat) {
    t.event(j) == Some(OnRead(c, Partial))
  }

  /** A connection that reads, and whose request is not cut into reads without end, hands the request over, or is
      closed, or its handler never comes back. */
  lemma {:induction false} RequestComesIn(t: Course, c: nat, i: nat, bound: nat) returns (j: nat)
    requires IsCourse(t) && FairCourse(t) && c < |t.system(i).conns| && t.system(i).conns[c].phase.Read?
    requires forall n: nat :: n >= bound ==> !PartialAt(t, c, n)
    ensures i <= j
    ensures t.event(j) == Some(OnRead(c, Finished)) || t.event(j) == Some(OnRead(c, NoReturn)) || ClosedAt(t, c, j)
    decreases if i < bound then bound - i else 0
  {
    hide FairCourse, Occurs;
    j := ReadTurn(t, c, i);
    assert Happens(t, j);
    var s, u, r := t.system(j), t.system(j + 1), t.event(j).value.read;
    if r.Partial? {
      assert PartialAt(t, c, j);
      j := RequestComesIn(t, c, j + 1, bound);
    } else if r.ReadFailed? || r.Rejected? {
      assert u.busy[|s.busy|] == ToErase(c);
      j := GetsClosed(t, c, j + 1);
    }
  }

  predicate MoreAt(t: Course, c: nat, j: nat) {
    t.event(j) == Some(OnWrite(c, More))
  }

  predicate ReadsAgain(t: Course, c: nat, j: nat) {
    t.event(j) == Some(OnWrite(c, KeepAlive)) && InPhase(t, c, Read(false), j + 1)
  }

  /** A response with finitely many payloads is written completely, and then the connection reads again or is closed; it
      is closed, too, when writing fails. */
  lemma {:induction false} ResponseGoesOut(t: Course, c: nat, i: nat, bound: nat) returns (j: nat)
    requires IsCourse(t) && FairCourse(t) && c < |t.system(i).conns| && t.system(i).conns[c].phase.Write?
    requires forall n: nat :: n >= bound ==> !MoreAt(t, c, n)
    ensures i <= j && (ReadsAgain(t, c, j) || ClosedAt(t, c, j))
    decreases if i < bound then bound - i else 0
  {
    hide FairCourse, Occurs;
    j := WriteTurn(t, c, i);
    assert Happens(t, j);
    var s, u, w := t.system(j), t.system(j + 1), t.event(j).value.write;
    if w.More? {
      assert MoreAt(t, c, j);
      j := ResponseGoesOut(t, c, j + 1, bound);
    } else if w.WriteFailed? || w.LastWritten? {
      assert u.busy[|s.busy|] == ToErase(c);
      j := GetsClosed(t, c, j + 1);
    }
  }

  predicate AnsweredAt(t: Course, c: nat, j: nat) {
    && t.event(j).Some? && t.event(j).value.Server? && InPhase(t, c, Write(false), j + 1)
    && c < |t.system(j).conns| && t.system(j + 1).conns[c].responses == t.system(j).conns[c].responses + 1
  }

  /** A request that is handed over while the server is up is answered by a worker, or the queue is cleared. */
  lemma {:induction false} PushIsAnswered(t: Course, c: nat, i: nat) returns (j: nat)
    requires IsCourse(t) && FairCourse(t) && t.event(i) == Some(OnRead(c, Finished)) && Up(t.system(i).server)
    ensures i < j && (AnsweredAt(t, c, j) || Clears(ServerRun(t), j))
  {
    hide IsCourse, Up, Clears, Leaves, IsRun, Fair;
    var r := ServerRun(t);
    ServerRunIsRun(t);
    var w;
    j, w := EveryPushIsServed(r, i, c);
    if !Clears(r, j) {
      HandlerReady(r, w, j + 1, c);
      j := WorkerActs(r, w, j + 1);
      ActsByEvent(t, c, w, j);
    }
  }

  lemma HandlerReady(r: Trace, w: nat, i: nat, c: nat)
    requires w < |r.state(i).workers| && r.state(i).workers[w] == Handling(c)
    ensures MayWork(r.state(i), w)
  {
  }

  lemma {:induction false} ActsByEvent(t: Course, c: nat, w: nat, j: nat)
    requires IsCourse(t) && Acts(ServerRun(t), j, w)
    requires w < |t.system(j).server.workers| && t.system(j).server.workers[w] == Handling(c)
    ensures AnsweredAt(t, c, j)
  {
    hide Enabled, Apply, Occurs;
    assert Happens(t, j);
  }

  /** How a request ends: its connection is closed, its handler never comes back, the server is stopping, or the
      response has been written and the next request is being read. */
  predicate Ended(t: Course, c: nat, j: nat) {
    || ClosedAt(t, c, j)
    || t.event(j) == Some(OnRead(c, NoReturn))
    || (t.event(j) == Some(OnRead(c, Finished)) && !Up(t.system(j).server))
    || Clears(ServerRun(t), j)
    || ReadsAgain(t, c, j)
  }

  /** Every request comes to an end: in every fair run, a connection that reads, gets a request in finitely many reads
      and a response in finitely many payloads, is closed, or reads its next request; short of a handler that never
      comes back and of a server that is stopped. */
  lemma {:induction false} EveryRequestEnds(t: Course, c: nat, i: nat, bound: nat) returns (j: nat)
    requires IsCourse(t) && FairCourse(t) && c < |t.system(i).conns| && t.system(i).conns[c].phase.Read?
    requires forall n: nat :: n >= bound ==> !PartialAt(t, c, n) && !MoreAt(t, c, n)
    ensures i <= j && Ended(t, c, j)
  {
    hide IsCourse, FairCourse, Up, Clears, ClosedAt, ReadsAgain;
    j := RequestComesIn(t, c, i, bound);
    if t.event(j) == Some(OnRead(c, Finished)) && Up(t.system(j).server) {
      j := PushIsAnswered(t, c, j);
      if !Clears(ServerRun(t), j) {
        j := ResponseGoesOut(t, c, j + 1, bound);
      }
    }
  }

  // ---------------------------------------------------------------- the premises can be met

  function Visitor(phase: Phase, pushes: nat, responses: nat): Connection {
    Connection(phase, true, true, pushes, responses, 0)
  }

  /** The client's connection once it is closed. */
  const GONE := Connection(Over, false, false, 1, 1, 0)

  function At(queue: seq<Entry>, worker: Worker, wakeups: nat, c: Connection, busy: seq<Task>): System {
    System(State(queue, [worker], wakeups, Serving), [c], busy, 1)
  }

  function Afterwards(queue: seq<Entry>, workers: seq<Worker>, stopper: Stopper): System {
    System(State(queue, workers, 0, stopper), [GONE], [], 1)
  }

  /** A request in two reads is answered, the connection reads again, the client leaves, and the server is stopped. */
  function EventAt(i: nat): Option<Event> {
    match i
    case 0 => Some(Server(Start(1)))
    case 1 => Some(Accept)
    case 2 => Some(Completes(0))
    case 3 => Some(OnRead(0, Partial))
    case 4 => Some(Completes(0))
    case 5 => Some(OnRead(0, Finished))
    case 6 => Some(Server(PushNotify(None)))
    case 7 => Some(Server(Work(0, None)))
    case 8 => Some(Server(Work(0, None)))
    case 9 => Some(Completes(0))
    case 10 => Some(OnWrite(0, KeepAlive))
    case 11 => Some(OnRead(0, ReadFailed))
    case 12 => Some(Erases(0))
    case 13 => Some(ClosesSocket(0))
    case 14 => Some(Server(Work(0, None)))
    case 15 => Some(Server(Stop))
    case 16 => Some(Server(Shut(None)))
    case 17 => Some(Server(Shut(None)))
    case 18 => Some(Server(Shut(None)))
    case 19 => Some(Server(Work(0, None)))
    case 20 => Some(Server(Work(0, None)))
    case 21 => Some(Server(Work(0, None)))
    case 22 => Some(Server(Shut(None)))
    case 23 => Some(Server(Shut(None)))
    case 24 => Some(Server(Shut(None)))
    case 25 => Some(Server(Shut(None)))
    case _ => None
  }

  function SystemAt(i: nat): System {
    match i
    case 0 => NewSystem(1)
    case 1 => System(State([], [Running], 0, Serving), [], [], 1)
    case 2 => At([], Running, 0, Visitor(Read(false), 0, 0), [])
    case 3 => At([], Running, 0, Visitor(Read(true), 0, 0), [])
    case 4 => At([], Running, 0, Visitor(Read(false), 0, 0), [])
    case 5 => At([], Running, 0, Visitor(Read(true), 0, 0), [])
    case 6 => At([Conn(0)], Running, 1, Visitor(Pending, 1, 0), [])
    case 7 => At([Conn(0)], Running, 0, Visitor(Pending, 1, 0), [])
    case 8 => At([], Handling(0), 0, Visitor(Pending, 1, 0), [])
    case 9 => At([], Returning, 0, Visitor(Write(false), 1, 1), [])
    case 10 => At([], Returning, 0, Visitor(Write(true), 1, 1), [])
    case 11 => At([], Returning, 0, Visitor(Read(false), 1, 1), [])
    case 12 => At([], Returning, 0, Visitor(Over, 1, 1), [ToErase(0)])
    case 13 => At([], Returning, 0, Connection(Over, true, false, 1, 1, 0), [ToClose(0)])
    case 14 => Afterwards([], [Returning], Serving)
    case 15 => Afterwards([], [Running], Serving)
    case 16 => Afterwards([], [Running], Sizing)
    case 17 => Afterwards([], [Running], Pushing)
    case 18 => Afterwards([Null], [Running], Waking)
    case 19 => Afterwards([Null], [Running], Joining(0))
    case 20 => Afterwards([], [HoldsNull], Joining(0))
    case 21 => Afterwards([Null], [Notifying], Joining(0))
    case 22 => Afterwards([Null], [Exited], Joining(0))
    case 23 => Afterwards([Null], [Exited], Joining(1))
    case 24 => Afterwards([Null], [Exited], Emptying)
    case 25 => Afterwards([], [], ClosingPool)
    case _ => Afterwards([], [], Stopped)
  }

  function ThatCourse(): Course {
    Course((i: nat) => SystemAt(i), (i: nat) => EventAt(i))
  }

  predicate IsEvent(i: nat) {
    match EventAt(i)
    case None => SystemAt(i + 1) == SystemAt(i)
    case Some(e) => Possible(SystemAt(i), e) && SystemAt(i + 1) == Next(SystemAt(i), e)
  }

  lemma RequestRead(i: nat)
    requires i < 6
    ensures IsEvent(i)
  {
    assert i == 0 || i == 1 || i == 2 || i == 3 || i == 4 || i == 5;
  }

  lemma RequestAnswered(i: nat)
    requires 6 <= i < 11
    ensures IsEvent(i)
  {
    assert i == 6 || i == 7 || i == 8 || i == 9 || i == 10;
  }

  lemma ConnectionClosed(i: nat)
    requires 11 <= i < 16
    ensures IsEvent(i)
  {
    assert i == 11 || i == 12 || i == 13 || i == 14 || i == 15;
  }

  lemma WorkerStopped(i: nat)
    requires 16 <= i < 21
    ensures IsEvent(i)
  {
    assert i == 16 || i == 17 || i == 18 || i == 19 || i == 20;
  }

  lemma ServerStopped(i: nat)
    requires 21 <= i
    ensures IsEvent(i)
  {
    assert i == 21 || i == 22 || i == 23 || i == 24 || i == 25 || i > 25;
  }

  lemma IsThatCourse()
    ensures IsCourse(ThatCourse())
  {
    hide Possible, Next, SystemAt, EventAt;
    var t := ThatCourse();
    forall i: nat ensures Happens(t, i) {
      if i < 6 {
        RequestRead(i);
      } else if i < 11 {
        RequestAnswered(i);
      } else if i < 16 {
        ConnectionClosed(i);
      } else if i < 21 {
        WorkerStopped(i);
      } else {
        ServerStopped(i);
      }
    }
    StartOccurs();
  }

  lemma StartOccurs()
    ensures Occurs(SystemAt(0))
  {
    assert AfterEvents(NewSystem(1), []) == Some(NewSystem(1));
  }

  lemma AtTheEnd(i: nat)
    requires i >= 26
    ensures var s := SystemAt(i);
            && s.server == State([], [], 0, Stopped) && s.conns == [GONE] && s.busy == []
  {
  }

  lemma OnTheWay()
    ensures var t := ThatCourse();
            PartialAt(t, 0, 3) && t.event(5) == Some(OnRead(0, Finished)) && AnsweredAt(t, 0, 8) && ReadsAgain(t, 0, 10)
  {
  }

  /** There are fair runs of the whole server. */
  lemma FairCourseExists()
    ensures var t := ThatCourse();
            && IsCourse(t) && FairCourse(t) && PartialAt(t, 0, 3)
            && t.event(5) == Some(OnRead(0, Finished)) && AnsweredAt(t, 0, 8) && ReadsAgain(t, 0, 10)
  {
    hide SystemAt, EventAt, IsCourse, PartialAt, AnsweredAt, ReadsAgain;
    var t := ThatCourse();
    IsThatCourse();
    OnTheWay();
    var r := ServerRun(t);
    forall w: nat, i: nat ensures WorkerGetsTurn(r, w, i) {
      AtTheEnd(i + 26);
      assert WorkerTurn(r, w, i, i + 26);
    }
    forall i: nat ensures PushersGetTurn(r, i) {
      AtTheEnd(i + 26);
      assert PusherTurn(r, i, i + 26);
    }
    forall i: nat ensures StopperGetsTurn(r, i) {
      AtTheEnd(i + 26);
      assert StopperTurn(r, i, i + 26);
    }
    forall c: nat, p: Phase, i: nat | p.Read? || p.Write? ensures PhaseEnds(t, c, p, i) {
      AtTheEnd(i + 26);
      assert PhaseOver(t, c, p, i, i + 26);
    }
    forall k: Task, i: nat | !k.Lost? ensures TaskEnds(t, k, i) {
      AtTheEnd(i + 26);
      assert TaskOver(t, k, i, i + 26);
    }
  }
}
