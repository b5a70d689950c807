/** What is pushed to the queue is taken up by a worker or dropped by Clear, in the end (webcc/queue.h,
    webcc/server.cc). */
module Service {
  import opened Text
  import opened Workers
  import opened Shutdown

  // ---------------------------------------------------------------- events

  /** A worker takes the front entry off the queue. */
  predicate Pops(t: Trace, i: nat) {
    && t.action(i).Some? && t.action(i).value.Work? && TakesFront(t.state(i), t.action(i).value.w)
  }

  predicate TakesFront(s: State, w: nat) {
    s.queue != [] && w < |s.workers| && (s.workers[w].Running? || s.workers[w].Woken?)
  }

  predicate Stops(t: Trace, i: nat) {
    t.action(i) == Some(Stop)
  }

  /** The stopping thread clears the queue. */
  predicate Clears(t: Trace, i: nat) {
    ShutsNow(t, i) && (t.state(i).stopper.Clearing? || t.state(i).stopper.Emptying?)
  }

  // ---------------------------------------------------------------- somebody works

  /** The server is running and there is something in the queue. */
  predicate Waiting(s: State) {
    s.stopper.Serving? && s.queue != []
  }

  lemma {:induction false} StillWaiting(s: State, a: Action)
    requires Waiting(s) && Enabled(s, a) && a != Stop && !(a.Work? && TakesFront(s, a.w))
    ensures Waiting(Apply(s, a)) && |Apply(s, a).workers| == |s.workers|
  {
  }

  /** Up to the first pop or stop, the server runs on with something in the queue. */
  lemma {:induction false} Undisturbed(t: Trace, i: nat, n: nat) returns (k: nat)
    requires IsRun(t) && i <= n && Waiting(t.state(i))
    ensures i <= k <= n && (k < n ==> Pops(t, k) || Stops(t, k))
    ensures k == n ==> Waiting(t.state(n)) && |t.state(n).workers| == |t.state(i).workers|
    decreases n - i
  {
    k := i;
    if i < n && !Pops(t, i) && !Stops(t, i) {
      assert Follows(t, i);
      if t.action(i).Some? {
        StillWaiting(t.state(i), t.action(i).value);
      }
      k := Undisturbed(t, i + 1, n);
    }
  }

  lemma AllLive(t: Trace, i: nat)
    requires IsRun(t) && t.state(i).stopper.Serving?
    ensures forall w :: 0 <= w < |t.state(i).workers| ==> t.state(i).workers[w].Live()
  {
    RunInv(t, i);
  }

  /** A worker that can go on comes to the queue, once it is done with what it has in hand. */
  lemma {:induction false} WorkerPops(t: Trace, w: nat, i: nat) returns (j: nat)
    requires IsRun(t) && Fair(t) && Waiting(t.state(i)) && MayWork(t.state(i), w)
    ensures i <= j && (Pops(t, j) || Stops(t, j))
    decreases Weight(Works, t.state(i).workers[w])
  {
    hide IsRun, Fair;
    AllLive(t, i);
    var n := WorkerActs(t, w, i);
    var k := Undisturbed(t, i, n);
    if k < n {
      j := k;
    } else if TakesFront(t.state(n), w) {
      j := n;
    } else {
      TurnDone(t, w, n);
      j := WorkerPops(t, w, n + 1);
    }
  }

  lemma {:induction false} TurnDone(t: Trace, w: nat, n: nat)
    requires IsRun(t) && Waiting(t.state(n)) && MayWork(t.state(n), w) && Acts(t, n, w)
    requires t.state(n).workers[w].Live() && !TakesFront(t.state(n), w)
    ensures Waiting(t.state(n + 1)) && MayWork(t.state(n + 1), w)
    ensures Weight(Works, t.state(n + 1).workers[w]) < Weight(Works, t.state(n).workers[w])
  {
    assert Follows(t, n);
  }

  /** In every fair run: whenever a running server has something in its queue, a worker takes the front entry, or the
      server is told to stop. Nobody needs to push anything for it to happen. */
  lemma {:induction false} SomebodyWorks(t: Trace, i: nat) returns (j: nat)
    requires IsRun(t) && Fair(t) && t.state(i).stopper.Serving? && t.state(i).workers != [] && t.state(i).queue != []
    ensures i <= j && (Pops(t, j) || Stops(t, j))
  {
    hide IsRun, Fair;
    var ws := t.state(i).workers;
    if w: nat :| w < |ws| && ws[w].Ready() {
      j := WorkerPops(t, w, i);
    } else {
      AllLive(t, i);
      WakeupOwed(t, i);
      var n := PusherActs(t, i);
      var k := Undisturbed(t, i, n);
      if k < n {
        j := k;
      } else {
        var w, m := SomebodyWoken(t, n);
        j := WorkerPops(t, w, m);
      }
    }
  }

  /** With everybody asleep, a pusher is still to call notify_one. */
  lemma {:induction false} WakeupOwed(t: Trace, i: nat)
    requires IsRun(t) && Waiting(t.state(i)) && t.state(i).workers != []
    requires forall w :: 0 <= w < |t.state(i).workers| ==> t.state(i).workers[w].Asleep?
    ensures t.state(i).wakeups > 0
  {
    RunInv(t, i);
    SumZero(Wakes, t.state(i).workers);
    SumZero(Notifies, t.state(i).workers);
    assert t.state(i).workers[0].Asleep?;
  }

  /** After that call somebody can go on. */
  lemma {:induction false} SomebodyWoken(t: Trace, n: nat) returns (w: nat, m: nat)
    requires IsRun(t) && Waiting(t.state(n)) && t.state(n).workers != [] && NotifiesNow(t, n)
    ensures n <= m && Waiting(t.state(m)) && MayWork(t.state(m), w)
  {
    assert Follows(t, n);
    AllLive(t, n);
    var wake := t.action(n).value.wake;
    if wake.Some? {
      w, m := wake.value, n + 1;
    } else {
      assert !t.state(n).workers[0].Asleep?;
      w, m := 0, n;
    }
  }

  // ---------------------------------------------------------------- every entry

  /** Where the entry that was at `p` at moment `i` is at moment `j`; None once it has been taken or dropped. */
  function PlaceAt(t: Trace, i: nat, p: nat, j: nat): Option<nat>
    requires i <= j
    decreases j
  {
    if i == j then Some(p)
    else
      var q := PlaceAt(t, i, p, j - 1);
      if q.None? || Clears(t, j - 1) || (Pops(t, j - 1) && q.value == 0) then None
      else if Pops(t, j - 1) then Some(q.value - 1)
      else q
  }

  /** At moment `j` a worker takes the entry, or Clear drops it. */
  predicate Leaves(t: Trace, i: nat, p: nat, j: nat) {
    i <= j && PlaceAt(t, i, p, j).Some? && (Clears(t, j) || (Pops(t, j) && PlaceAt(t, i, p, j) == Some(0)))
  }

  lemma {:induction false} QueueStep(s: State, a: Action)
    requires Inv(s) && Enabled(s, a)
    ensures var q := Apply(s, a).queue;
            if a.Shut? && (s.stopper.Clearing? || s.stopper.Emptying?) then q == []
            else if a.Work? && TakesFront(s, a.w) then q == s.queue[1..]
            else s.queue <= q
  {
  }

  /** The place is right: the entry is found there. */
  lemma {:induction false} EntryThere(t: Trace, i: nat, p: nat, j: nat)
    requires IsRun(t) && i <= j && p < |t.state(i).queue| && PlaceAt(t, i, p, j).Some?
    ensures var q := PlaceAt(t, i, p, j).value;
            q <= p && q < |t.state(j).queue| && t.state(j).queue[q] == t.state(i).queue[p]
    decreases j
  {
    if i < j {
      hide Apply, Enabled;
      EntryThere(t, i, p, j - 1);
      RunInv(t, j - 1);
      assert Follows(t, j - 1);
      if t.action(j - 1).Some? {
        QueueStep(t.state(j - 1), t.action(j - 1).value);
      }
    }
  }

  /** Following an entry may be resumed at any moment. */
  lemma {:induction false} PlaceResumes(t: Trace, i: nat, p: nat, k: nat, j: nat)
    requires i <= k <= j && PlaceAt(t, i, p, k).Some?
    ensures PlaceAt(t, i, p, j) == PlaceAt(t, k, PlaceAt(t, i, p, k).value, j)
    decreases j
  {
    if k < j {
      PlaceResumes(t, i, p, k, j - 1);
    }
  }

  /** An entry that is gone at some moment has left before. */
  lemma {:induction false} HasLeft(t: Trace, i: nat, p: nat, n: nat) returns (j: nat)
    requires i <= n && (PlaceAt(t, i, p, n).None? || Clears(t, n))
    ensures j <= n && Leaves(t, i, p, j)
    decreases n
  {
    if PlaceAt(t, i, p, n).Some? {
      j := n;
    } else if Leaves(t, i, p, n - 1) {
      j := n - 1;
    } else {
      j := HasLeft(t, i, p, n - 1);
    }
  }

  /** The last Clear of a server that has been told to stop. */
  lemma {:induction false} LastClear(t: Trace, i: nat) returns (n: nat)
    requires IsRun(t) && Fair(t)
    requires var p := t.state(i).stopper; !p.Serving? && !p.ClosingPool? && !p.Stopped?
    ensures i <= n && Clears(t, n)
  {
    hide IsRun, Fair;
    n := i;
    if var p := t.state(i).stopper; p.Sizing? || p.Clearing? || p.Pushing? {
      n := ReachesRelay(t, i);
    }
    if InRelay(t.state(n)) {
      n := RelayEnds(t, n);
    }
    n := StopperActs(t, n);
  }

  /** Until the last Clear the server has not come to its end, and while it is running it has workers. */
  predicate Up(s: State) {
    !s.stopper.ClosingPool? && !s.stopper.Stopped? && (s.stopper.Serving? ==> s.workers != [])
  }

  lemma {:induction false} StaysUp(s: State, a: Action)
    requires Up(s) && Enabled(s, a)
    requires !(a.Shut? && (s.stopper.Clearing? || s.stopper.Emptying?))
    ensures Up(Apply(s, a))
  {
  }

  lemma {:induction false} UpMeanwhile(t: Trace, i: nat, p: nat, j: nat)
    requires IsRun(t) && i <= j && Up(t.state(i)) && PlaceAt(t, i, p, j).Some?
    ensures Up(t.state(j))
    decreases j
  {
    if i < j {
      hide Apply, Enabled, Up;
      UpMeanwhile(t, i, p, j - 1);
      assert Follows(t, j - 1);
      if t.action(j - 1).Some? {
        StaysUp(t.state(j - 1), t.action(j - 1).value);
      }
    }
  }

  lemma {:induction false} AfterStop(t: Trace, i: nat)
    requires IsRun(t) && Stops(t, i)
    ensures t.state(i + 1).stopper.Sizing?
  {
    assert Follows(t, i);
  }

  lemma {:induction false} PlaceFalls(t: Trace, i: nat, p: nat, k: nat)
    requires IsRun(t) && i <= k && p < |t.state(i).queue| && Pops(t, k) && PlaceAt(t, i, p, k + 1).Some?
    ensures PlaceAt(t, i, p, k + 1).value < p
  {
    hide IsRun, Clears;
    EntryThere(t, i, p, k);
  }

  lemma {:induction false} LeavesResumes(t: Trace, i: nat, p: nat, k: nat, j: nat)
    requires i <= k && PlaceAt(t, i, p, k).Some? && Leaves(t, k, PlaceAt(t, i, p, k).value, j)
    ensures Leaves(t, i, p, j)
  {
    PlaceResumes(t, i, p, k, j);
  }

  /** In every fair run: an entry of the queue, wherever in it, is taken by a worker or dropped by Clear in the end,
      unless the server has cleared its queue for the last time. */
  lemma {:induction false} EveryEntryLeaves(t: Trace, i: nat, p: nat) returns (j: nat)
    requires IsRun(t) && Fair(t) && p < |t.state(i).queue| && Up(t.state(i))
    ensures Leaves(t, i, p, j)
    decreases p
  {
    hide IsRun, Fair, Leaves, Clears, Pops, PlaceAt;
    if !t.state(i).stopper.Serving? {
      var n := LastClear(t, i);
      j := HasLeft(t, i, p, n);
    } else {
      var k := SomebodyWorks(t, i);
      if PlaceAt(t, i, p, k + 1).None? {
        j := HasLeft(t, i, p, k + 1);
      } else if Stops(t, k) {
        AfterStop(t, k);
        var n := LastClear(t, k + 1);
        j := HasLeft(t, i, p, n);
      } else {
        PlaceFalls(t, i, p, k);
        EntryThere(t, i, p, k + 1);
        UpMeanwhile(t, i, p, k + 1);
        j := EveryEntryLeaves(t, k + 1, PlaceAt(t, i, p, k + 1).value);
        LeavesResumes(t, i, p, k + 1, j);
      }
    }
  }

  /** So every connection that is pushed while the server is up comes to be handled by a worker or is dropped. */
  lemma {:induction false} EveryPushIsServed(t: Trace, i: nat, id: nat) returns (j: nat, w: nat)
    requires IsRun(t) && Fair(t) && Up(t.state(i)) && t.action(i) == Some(Push(id))
    ensures i < j && (Clears(t, j) || (w < |t.state(j + 1).workers| && t.state(j + 1).workers[w] == Handling(id)))
    ensures Leaves(t, i + 1, |t.state(i).queue|, j)
  {
    hide Fair, Leaves, PlaceAt;
    assert Follows(t, i);
    var p := |t.state(i).queue|;
    j := EveryEntryLeaves(t, i + 1, p);
    w := TakenBy(t, i + 1, p, j);
  }

  lemma {:induction false} TakenBy(t: Trace, i: nat, p: nat, j: nat) returns (w: nat)
    requires IsRun(t) && p < |t.state(i).queue| && t.state(i).queue[p].Conn? && Leaves(t, i, p, j)
    ensures i <= j
    ensures Clears(t, j)
            || (w < |t.state(j + 1).workers| && t.state(j + 1).workers[w] == Handling(t.state(i).queue[p].id))
  {
    w := 0;
    if !Clears(t, j) {
      EntryThere(t, i, p, j);
      assert Follows(t, j);
      w := t.action(j).value.w;
    }
  }

  // ---------------------------------------------------------------- the premises can be met

  /** A server with one worker is run, handles a connection, and is told to stop. */
  const ACTIONS: seq<Action> := [
    Start(1), Push(7), PushNotify(None), Work(0, None), Work(0, None), Work(0, None),
    Stop, Shut(None), Shut(None), Shut(None), Work(0, None), Work(0, None), Work(0, None),
    Shut(None), Shut(None), Shut(None), Shut(None)]

  const STATES: seq<State> := [
    INITIAL,
    State([], [Running], 0, Serving),
    State([Conn(7)], [Running], 1, Serving),
    State([Conn(7)], [Running], 0, Serving),
    State([], [Handling(7)], 0, Serving),
    State([], [Returning], 0, Serving),
    State([], [Running], 0, Serving),
    State([], [Running], 0, Sizing),
    State([], [Running], 0, Pushing),
    State([Null], [Running], 0, Waking),
    State([Null], [Running], 0, Joining(0)),
    State([], [HoldsNull], 0, Joining(0)),
    State([Null], [Notifying], 0, Joining(0)),
    State([Null], [Exited], 0, Joining(0)),
    State([Null], [Exited], 0, Joining(1)),
    State([Null], [Exited], 0, Emptying),
    State([], [], 0, ClosingPool),
    INITIAL]

  function ThatRun(): Trace {
    Trace((i: nat) => if i < 17 then STATES[i] else INITIAL, (i: nat) => if i < 17 then Some(ACTIONS[i]) else None)
  }

  predicate IsStep(i: nat)
    requires i < 17
  {
    Enabled(STATES[i], ACTIONS[i]) && STATES[i + 1] == Apply(STATES[i], ACTIONS[i])
  }

  lemma Serves(i: nat)
    requires i < 6
    ensures IsStep(i)
  {
  }

  lemma IsTold(i: nat)
    requires 6 <= i < 11
    ensures IsStep(i)
  {
  }

  lemma IsLeft(i: nat)
    requires 11 <= i < 17
    ensures IsStep(i)
  {
  }

  /** There are fair runs, with a push that is served and a stop that ends. */
  lemma FairRunExists()
    ensures var t := ThatRun();
            && IsRun(t) && Fair(t)
            && t.action(1) == Some(Push(7)) && t.state(4).workers == [Handling(7)]
            && t.state(7).stopper == Sizing && t.state(17).stopper == Stopped
  {
    var t := ThatRun();
    InitialInv();
    forall i: nat ensures Follows(t, i) {
      if i < 6 {
        Serves(i);
      } else if i < 11 {
        IsTold(i);
      } else if i < 17 {
        IsLeft(i);
      }
    }
    forall w: nat, i: nat ensures WorkerGetsTurn(t, w, i) {
      assert WorkerTurn(t, w, i, i + 17);
    }
    forall i: nat ensures PushersGetTurn(t, i) {
      assert PusherTurn(t, i, i + 17);
    }
    forall i: nat ensures StopperGetsTurn(t, i) {
      assert StopperTurn(t, i, i + 17);
    }
  }
}
