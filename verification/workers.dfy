/** The work queue, the worker threads and the way they are stopped, as the steps of a concurrent protocol
    (webcc/queue.h, webcc/server.cc). Each step is one critical section of the queue's mutex, one notify_one,
    or one piece of code between them. */
module Workers {
  import opened Text

  /** An entry of the queue: a connection, or the null pointer that tells a worker to stop. */
  datatype Entry = Null | Conn(id: nat)

  /** Where a worker thread stands in WorkerRoutine. Running and Woken are about to take the queue's mutex and
      look at the queue; Asleep waits on the condition variable; Returning has sent its response. */
  datatype Worker = Running | Asleep | Woken | Handling(id: nat) | Returning | HoldsNull | Notifying | Exited {
    /** Has not come across the null pointer yet. */
    predicate Live() {
      !HoldsNull? && !Notifying? && !Exited?
    }

    /** Can take a step of its own. */
    predicate Ready() {
      !Asleep? && !Exited?
    }
  }

  /** Where the thread that runs DoStop stands, from the Size() test of StopWorkers to the end. */
  datatype Stopper =
    | Serving | Sizing | Clearing | Pushing | Waking | Joining(joined: nat) | Emptying | ClosingPool | Stopped

  /** `wakeups` counts the pushes of connections whose notify_one is still to come. */
  datatype State = State(queue: seq<Entry>, workers: seq<Worker>, wakeups: nat, stopper: Stopper)

  /** A server that has not been run yet. */
  const INITIAL := State([], [], 0, Stopped)

  /** `wake` is the sleeper a notify_one wakes, None if nobody sleeps. */
  datatype Action =
    | Push(id: nat) | PushNotify(wake: Option<nat>) | Spurious(w: nat)
    | Work(w: nat, wake: Option<nat>)
    | Stop | Shut(wake: Option<nat>) | Start(n: nat)

  predicate SomeAsleep(ws: seq<Worker>) {
    exists i :: 0 <= i < |ws| && ws[i].Asleep?
  }

  predicate CanWake(ws: seq<Worker>, wake: Option<nat>) {
    if wake.None? then !SomeAsleep(ws) else wake.value < |ws| && ws[wake.value].Asleep?
  }

  function Notify(ws: seq<Worker>, wake: Option<nat>): seq<Worker>
    requires CanWake(ws, wake)
  {
    if wake.None? then ws else ws[wake.value := Woken]
  }

  predicate StopperReady(s: State) {
    match s.stopper
    case Serving => false
    case Stopped => false
    case Joining(k) => k < |s.workers| ==> s.workers[k].Exited?
    case _ => true
  }

  predicate Enabled(s: State, a: Action) {
    match a
    case Push(_) => true
    case PushNotify(wake) => s.wakeups > 0 && CanWake(s.workers, wake)
    case Spurious(w) => w < |s.workers| && s.workers[w].Asleep?
    case Work(w, wake) =>
      w < |s.workers| && s.workers[w].Ready() && (s.workers[w].Notifying? ==> CanWake(s.workers, wake))
    case Stop => s.stopper == Serving
    case Shut(wake) => StopperReady(s) && (s.stopper == Waking ==> CanWake(s.workers, wake))
    case Start(n) => s.stopper == Stopped && n > 0
  }

  /** The next step of worker `w`. */
  function Worked(s: State, w: nat, wake: Option<nat>): State
    requires Enabled(s, Work(w, wake))
  {
    var ws := s.workers;
    match ws[w]
    case Handling(_) => s.(workers := ws[w := Returning])
    case Returning => s.(workers := ws[w := Running])
    case HoldsNull => s.(queue := s.queue + [Null], workers := ws[w := Notifying])
    case Notifying => s.(workers := Notify(ws, wake)[w := Exited])
    case _ =>
      if s.queue == [] then s.(workers := ws[w := Asleep])
      else s.(queue := s.queue[1..],
              workers := ws[w := if s.queue[0].Null? then HoldsNull else Handling(s.queue[0].id)])
  }

  /** The next step of StopWorkers and DoStop. */
  function ShutDown(s: State, wake: Option<nat>): State
    requires Enabled(s, Shut(wake))
  {
    match s.stopper
    case Sizing => s.(stopper := if s.queue == [] then Pushing else Clearing)
    case Clearing => s.(queue := [], stopper := Pushing)
    case Pushing => s.(queue := s.queue + [Null], stopper := Waking)
    case Waking => s.(workers := Notify(s.workers, wake), stopper := Joining(0))
    case Joining(k) => s.(stopper := if k < |s.workers| then Joining(k + 1) else Emptying)
    case Emptying => s.(queue := [], workers := [], stopper := ClosingPool)
    case ClosingPool => s.(stopper := Stopped)
    case _ => s
  }

  function Apply(s: State, a: Action): State
    requires Enabled(s, a)
  {
    match a
    case Push(id) => s.(queue := s.queue + [Conn(id)], wakeups := s.wakeups + 1)
    case PushNotify(wake) => s.(workers := Notify(s.workers, wake), wakeups := s.wakeups - 1)
    case Spurious(w) => s.(workers := s.workers[w := Woken])
    case Work(w, wake) => Worked(s, w, wake)
    case Stop => s.(stopper := Sizing)
    case Shut(wake) => ShutDown(s, wake)
    case Start(n) => s.(workers := seq(n, _ => Running), stopper := Serving)
  }

  // ---------------------------------------------------------------- counting

  datatype Kind = Wakes | Lives | Holds | Works | Notifies

  function Weight(k: Kind, w: Worker): nat {
    match k
    case Wakes => if w.Woken? then 1 else 0
    case Lives => if w.Live() then 1 else 0
    case Holds => if w.HoldsNull? then 1 else 0
    case Works => if w.Handling? then 2 else if w.Returning? then 1 else 0
    case Notifies => if w.Notifying? then 1 else 0
  }

  function Sum(k: Kind, ws: seq<Worker>): nat {
    if ws == [] then 0 else Weight(k, ws[0]) + Sum(k, ws[1..])
  }

  lemma {:induction false} SumUpdate(k: Kind, ws: seq<Worker>, i: nat, w: Worker)
    requires i < |ws|
    ensures Sum(k, ws[i := w]) == Sum(k, ws) - Weight(k, ws[i]) + Weight(k, w)
  {
    if i > 0 {
      assert ws[i := w][1..] == ws[1..][i - 1 := w];
      SumUpdate(k, ws[1..], i - 1, w);
    } else {
      assert ws[i := w][1..] == ws[1..];
    }
  }

  lemma {:induction false} SumPositive(k: Kind, ws: seq<Worker>, i: nat)
    requires i < |ws|
    ensures Weight(k, ws[i]) <= Sum(k, ws)
  {
    if i > 0 {
      SumPositive(k, ws[1..], i - 1);
    }
  }

  lemma {:induction false} SumZero(k: Kind, ws: seq<Worker>)
    requires forall i :: 0 <= i < |ws| ==> Weight(k, ws[i]) == 0
    ensures Sum(k, ws) == 0
  {
    if ws != [] {
      SumZero(k, ws[1..]);
    }
  }

  function Nulls(q: seq<Entry>): nat {
    if q == [] then 0 else (if q[0].Null? then 1 else 0) + Nulls(q[1..])
  }

  lemma {:induction false} NullsAppend(q: seq<Entry>, e: Entry)
    ensures Nulls(q + [e]) == Nulls(q) + if e.Null? then 1 else 0
  {
    if q == [] {
      assert q + [e] == [e] && [e][1..] == [];
    } else {
      assert (q + [e])[1..] == q[1..] + [e];
      NullsAppend(q[1..], e);
    }
  }

  /** How many entries are ahead of the first null pointer. */
  function Ahead(q: seq<Entry>): (n: nat)
    ensures n <= |q|
    ensures n < |q| ==> q[n].Null?
  {
    if q == [] || q[0].Null? then 0 else 1 + Ahead(q[1..])
  }

  lemma {:induction false} AheadAppend(q: seq<Entry>, e: Entry)
    ensures Nulls(q) > 0 ==> Ahead(q + [e]) == Ahead(q) < |q|
  {
    if q != [] {
      assert (q + [e])[1..] == q[1..] + [e];
      if !q[0].Null? {
        AheadAppend(q[1..], e);
      }
    }
  }

  // ---------------------------------------------------------------- invariants

  /** The null pointer has been pushed, and the queue has not been cleared for the last time. */
  predicate Relaying(p: Stopper) {
    p.Waking? || p.Joining? || p.Emptying?
  }

  /** From the push of the stopping thread to the last Clear, the null pointer is in the queue once or held by
      one worker; otherwise there is none. */
  predicate OneNull(s: State) {
    Nulls(s.queue) + Sum(Holds, s.workers) == if Relaying(s.stopper) then 1 else 0
  }

  /** No worker stops before it is told to, and none is waited for in vain. */
  predicate Orderly(s: State) {
    match s.stopper
    case ClosingPool => s.workers == []
    case Stopped => s.workers == []
    case Emptying => AllExited(s.workers)
    case Joining(k) => k <= |s.workers| && AllExited(s.workers[..k])
    case Waking => true
    case _ => forall i :: 0 <= i < |s.workers| ==> s.workers[i].Live()
  }

  predicate AllExited(ws: seq<Worker>) {
    forall i :: 0 <= i < |ws| ==> ws[i].Exited?
  }

  /** Calls of notify_one that are still to come. */
  function Outstanding(s: State): nat {
    s.wakeups + (if s.stopper.Waking? then 1 else 0) + Sum(Notifies, s.workers)
  }

  /** No wake-up is lost. */
  predicate Attended(s: State) {
    SomeAsleep(s.workers) ==> |s.queue| <= Sum(Wakes, s.workers) + Outstanding(s)
  }

  predicate Inv(s: State) {
    OneNull(s) && Orderly(s) && Attended(s)
  }

  lemma InitialInv()
    ensures Inv(INITIAL)
  {
  }

  lemma {:induction false} NotifySums(k: Kind, ws: seq<Worker>, wake: Option<nat>)
    requires CanWake(ws, wake)
    ensures Sum(k, Notify(ws, wake)) == Sum(k, ws) + if k == Wakes && wake.Some? then 1 else 0
    ensures |Notify(ws, wake)| == |ws|
    ensures forall i :: 0 <= i < |ws| && ws[i].Ready() ==> Notify(ws, wake)[i] == ws[i]
    ensures forall i :: 0 <= i < |ws| && ws[i].Exited? ==> Notify(ws, wake)[i] == ws[i]
    ensures forall i :: 0 <= i < |ws| ==> Notify(ws, wake)[i].Live() == ws[i].Live()
  {
    if wake.Some? {
      SumUpdate(k, ws, wake.value, Woken);
    }
  }

  /** Every step keeps exactly one null pointer in play. */
  lemma {:induction false} OneNullKept(s: State, a: Action)
    requires Inv(s) && Enabled(s, a)
    ensures OneNull(Apply(s, a))
  {
    match a
    case Push(id) => NullsAppend(s.queue, Conn(id));
    case PushNotify(wake) => NotifySums(Holds, s.workers, wake);
    case Spurious(w) => SumUpdate(Holds, s.workers, w, Woken);
    case Work(w, wake) => WorkOneNull(s, w, wake);
    case Shut(wake) => ShutOneNull(s, wake);
    case Stop =>
    case Start(n) => SumZero(Holds, seq(n, _ => Running));
  }

  lemma {:induction false} ShutOneNull(s: State, wake: Option<nat>)
    requires Inv(s) && Enabled(s, Shut(wake))
    ensures OneNull(ShutDown(s, wake))
  {
    NullsAppend(s.queue, Null);
    if s.stopper.Waking? {
      NotifySums(Holds, s.workers, wake);
    }
    if s.stopper.Emptying? {
      SumZero(Holds, s.workers);
    }
  }

  lemma {:induction false} WorkOneNull(s: State, w: nat, wake: Option<nat>)
    requires OneNull(s) && Enabled(s, Work(w, wake))
    ensures OneNull(Worked(s, w, wake))
  {
    hide Sum;
    if s.workers[w].Notifying? {
      NotifySums(Holds, s.workers, wake);
      SumUpdate(Holds, Notify(s.workers, wake), w, Exited);
    } else {
      SumUpdate(Holds, s.workers, w, Worked(s, w, wake).workers[w]);
      NullsAppend(s.queue, Null);
    }
  }

  /** The worker that takes a step is the only one whose state changes, apart from a sleeper it wakes. */
  lemma {:induction false} OthersStay(s: State, w: nat, wake: Option<nat>, i: nat)
    requires Enabled(s, Work(w, wake)) && i < |s.workers| && i != w
    ensures |Worked(s, w, wake).workers| == |s.workers|
    ensures var v := Worked(s, w, wake).workers[i];
            v == s.workers[i] || (s.workers[i].Asleep? && v.Woken?)
  {
  }

  lemma {:induction false} OrderlyKept(s: State, a: Action)
    requires Inv(s) && Enabled(s, a)
    ensures Orderly(Apply(s, a))
  {
    hide OneNull, Attended, Sum, Nulls;
    match a
    case PushNotify(wake) => NotifySums(Holds, s.workers, wake);
    case Work(w, wake) => WorkOrderly(s, w, wake);
    case Shut(wake) => ShutOrderly(s, wake);
    case _ =>
  }

  lemma {:induction false} ShutOrderly(s: State, wake: Option<nat>)
    requires Orderly(s) && Enabled(s, Shut(wake))
    ensures Orderly(ShutDown(s, wake))
  {
  }

  lemma {:induction false} WorkOrderly(s: State, w: nat, wake: Option<nat>)
    requires Inv(s) && Enabled(s, Work(w, wake))
    ensures Orderly(Worked(s, w, wake))
  {
    var t := Worked(s, w, wake);
    forall i | 0 <= i < |s.workers| && i != w
      ensures |t.workers| == |s.workers|
      ensures s.workers[i].Exited? ==> t.workers[i].Exited?
      ensures s.workers[i].Live() ==> t.workers[i].Live()
    {
      OthersStay(s, w, wake, i);
    }
    if !Relaying(s.stopper) && s.queue != [] {
      NoNullAhead(s);
    }
  }

  lemma NoNullAhead(s: State)
    requires OneNull(s) && !Relaying(s.stopper) && s.queue != []
    ensures !s.queue[0].Null?
  {
  }

  lemma {:induction false} AttendedKept(s: State, a: Action)
    requires Inv(s) && Enabled(s, a)
    ensures Attended(Apply(s, a))
  {
    match a
    case Push(_) =>
    case PushNotify(wake) =>
      NotifySums(Wakes, s.workers, wake);
      NotifySums(Notifies, s.workers, wake);
    case Spurious(w) =>
      SumUpdate(Wakes, s.workers, w, Woken);
      SumUpdate(Notifies, s.workers, w, Woken);
    case Work(w, wake) => WorkAttended(s, w, wake);
    case Stop =>
    case Shut(wake) =>
      if s.stopper.Waking? {
        NotifySums(Wakes, s.workers, wake);
        NotifySums(Notifies, s.workers, wake);
      }
    case Start(n) =>
  }

  lemma {:induction false} WorkAttended(s: State, w: nat, wake: Option<nat>)
    requires Inv(s) && Enabled(s, Work(w, wake))
    ensures Attended(Worked(s, w, wake))
  {
    hide Sum, OneNull, Orderly;
    var t := Worked(s, w, wake);
    if s.workers[w].Notifying? {
      NotifySums(Wakes, s.workers, wake);
      NotifySums(Notifies, s.workers, wake);
      SumUpdate(Wakes, Notify(s.workers, wake), w, Exited);
      SumUpdate(Notifies, Notify(s.workers, wake), w, Exited);
    } else {
      SumUpdate(Wakes, s.workers, w, t.workers[w]);
      SumUpdate(Notifies, s.workers, w, t.workers[w]);
    }
    if SomeAsleep(t.workers) && !(s.queue == [] && t.queue == []) {
      var i :| 0 <= i < |t.workers| && t.workers[i].Asleep?;
      if i != w {
        OthersStay(s, w, wake, i);
      }
    }
  }

  lemma StepKeepsInv(s: State, a: Action)
    requires Inv(s) && Enabled(s, a)
    ensures Inv(Apply(s, a))
  {
    OneNullKept(s, a);
    OrderlyKept(s, a);
    AttendedKept(s, a);
  }

  // ---------------------------------------------------------------- finite runs

  /** The state after a list of steps, None if one of them could not be taken. */
  function AfterSteps(s: State, steps: seq<Action>): Option<State>
    decreases |steps|
  {
    if steps == [] then Some(s)
    else if Enabled(s, steps[0]) then AfterSteps(Apply(s, steps[0]), steps[1..])
    else None
  }

  ghost predicate Reachable(s: State) {
    exists steps :: AfterSteps(INITIAL, steps) == Some(s)
  }

  lemma {:induction false} InvAfter(s: State, steps: seq<Action>)
    requires Inv(s) && AfterSteps(s, steps).Some?
    ensures Inv(AfterSteps(s, steps).value)
    decreases |steps|
  {
    if steps != [] {
      StepKeepsInv(s, steps[0]);
      InvAfter(Apply(s, steps[0]), steps[1..]);
    }
  }

  /** In every reachable state of any number of runs: the null pointer is in play exactly once between its
      push and the last Clear and not at all otherwise; no worker has stopped before that push; and when the
      server has stopped there are no workers and no null pointer for the next run to find. */
  lemma {:induction false} SentinelSafety(s: State)
    requires Reachable(s)
    ensures OneNull(s) && Orderly(s)
    ensures s.stopper.Stopped? ==> s.workers == [] && Null !in s.queue
  {
    var steps :| AfterSteps(INITIAL, steps) == Some(s);
    InitialInv();
    InvAfter(INITIAL, steps);
    if Null in s.queue {
      NullsOf(s.queue);
    }
  }

  /** If nobody pushes meanwhile, what was waiting when the server was told to stop is dropped, and the null
      pointer is all there is in the queue when the workers are woken. */
  lemma {:induction false} StopDropsPending(s: State)
    requires s.stopper == Sizing
    ensures var steps := if s.queue == [] then [Shut(None), Shut(None)] else [Shut(None), Shut(None), Shut(None)];
            AfterSteps(s, steps) == Some(s.(queue := [Null], stopper := Waking))
  {
    var t := s.(queue := [], stopper := Pushing);
    var u := s.(queue := [Null], stopper := Waking);
    assert ShutDown(t, None) == u;
    TwoShuts(t);
    if s.queue == [] {
      assert ShutDown(s, None) == t;
      assert [Shut(None), Shut(None)][1..] == [Shut(None)];
    } else {
      var v := s.(stopper := Clearing);
      assert ShutDown(s, None) == v && ShutDown(v, None) == t;
      assert [Shut(None), Shut(None), Shut(None)][1..] == [Shut(None), Shut(None)];
      assert [Shut(None), Shut(None)][1..] == [Shut(None)];
    }
  }

  lemma TwoShuts(t: State)
    requires t.stopper == Pushing
    ensures AfterSteps(t, [Shut(None)]) == Some(ShutDown(t, None))
  {
    assert [Shut(None)][1..] == [];
  }

  lemma {:induction false} NullsOf(q: seq<Entry>)
    requires Null in q
    ensures Nulls(q) > 0
  {
    if !q[0].Null? {
      NullsOf(q[1..]);
    }
  }

  /** In every reachable state with work in the queue, a worker is awake or about to be woken. */
  lemma {:induction false} NoLostWakeup(s: State)
    requires Reachable(s) && s.queue != [] && SomeAsleep(s.workers)
    ensures |s.queue| <= Sum(Wakes, s.workers) + Outstanding(s)
    ensures Outstanding(s) > 0 || exists i :: 0 <= i < |s.workers| && s.workers[i].Woken?
  {
    var steps :| AfterSteps(INITIAL, steps) == Some(s);
    InitialInv();
    InvAfter(INITIAL, steps);
    if forall i :: 0 <= i < |s.workers| ==> !s.workers[i].Woken? {
      SumZero(Wakes, s.workers);
    }
  }
}
