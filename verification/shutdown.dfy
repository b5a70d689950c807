/** Stopping the workers comes to an end, however many connections are pushed meanwhile (webcc/server.cc). */
module Shutdown {
  import opened Text
  import opened Workers

  // ---------------------------------------------------------------- a measure of what is left to do

  /** Workers that have not met the null pointer, whether it is held by a worker, the entries ahead of it,
      the work in hand, and the workers about to exit. While the null pointer is held, entries and work do
      not count: the other workers may go on handling connections for as long as its holder is not scheduled. */
  datatype Rank = Rank(live: nat, held: nat, ahead: nat, works: nat, leaving: nat)

  function RankOf(s: State): Rank {
    if Sum(Holds, s.workers) > 0 then Rank(Sum(Lives, s.workers), 1, 0, 0, Sum(Notifies, s.workers))
    else Rank(Sum(Lives, s.workers), 0, Ahead(s.queue), Sum(Works, s.workers), Sum(Notifies, s.workers))
  }

  predicate Below(a: Rank, b: Rank) {
    a.live < b.live
    || (a.live == b.live
        && (a.held < b.held
            || (a.held == b.held
                && (a.ahead < b.ahead
                    || (a.ahead == b.ahead
                        && (a.works < b.works || (a.works == b.works && a.leaving < b.leaving)))))))
  }

  predicate AtMost(a: Rank, b: Rank) {
    a == b || Below(a, b)
  }

  /** The null pointer is on its way from worker to worker. */
  predicate InRelay(s: State) {
    s.stopper.Waking? || s.stopper.Joining?
  }

  /** Steps of a worker that bring the end nearer: the holder's and the leavers' always, everybody's while nobody
      holds the null pointer. */
  predicate Advances(s: State, w: nat) {
    w < |s.workers| && (Sum(Holds, s.workers) == 0 || s.workers[w].HoldsNull? || s.workers[w].Notifying?)
  }

  lemma {:induction false} NotifyRank(s: State, wake: Option<nat>)
    requires CanWake(s.workers, wake)
    ensures RankOf(s.(workers := Notify(s.workers, wake))) == RankOf(s)
  {
    hide Sum, Notify;
    NotifySums(Lives, s.workers, wake);
    NotifySums(Holds, s.workers, wake);
    NotifySums(Works, s.workers, wake);
    NotifySums(Notifies, s.workers, wake);
  }

  lemma {:induction false} UpdateSums(ws: seq<Worker>, w: nat, v: Worker)
    requires w < |ws|
    ensures Sum(Lives, ws[w := v]) == Sum(Lives, ws) - Weight(Lives, ws[w]) + Weight(Lives, v)
    ensures Sum(Holds, ws[w := v]) == Sum(Holds, ws) - Weight(Holds, ws[w]) + Weight(Holds, v)
    ensures Sum(Works, ws[w := v]) == Sum(Works, ws) - Weight(Works, ws[w]) + Weight(Works, v)
    ensures Sum(Notifies, ws[w := v]) == Sum(Notifies, ws) - Weight(Notifies, ws[w]) + Weight(Notifies, v)
  {
    hide Sum;
    SumUpdate(Lives, ws, w, v);
    SumUpdate(Holds, ws, w, v);
    SumUpdate(Works, ws, w, v);
    SumUpdate(Notifies, ws, w, v);
  }

  /** No step of anybody raises the measure, and a step of a worker lowers it if and only if it advances. */
  lemma {:induction false} RankStep(s: State, a: Action)
    requires Inv(s) && Enabled(s, a) && InRelay(s)
    ensures AtMost(RankOf(Apply(s, a)), RankOf(s))
    ensures a.Work? ==> (Below(RankOf(Apply(s, a)), RankOf(s)) <==> Advances(s, a.w))
  {
    hide Sum, Nulls;
    match a
    case Push(id) => AheadAppend(s.queue, Conn(id));
    case PushNotify(wake) => NotifyRank(s, wake);
    case Spurious(w) => UpdateSums(s.workers, w, Woken);
    case Work(w, wake) => WorkRank(s, w, wake);
    case Shut(wake) =>
      if s.stopper.Waking? {
        NotifyRank(s, wake);
      }
  }

  lemma {:induction false} WorkRank(s: State, w: nat, wake: Option<nat>)
    requires Inv(s) && Enabled(s, Work(w, wake)) && InRelay(s)
    ensures AtMost(RankOf(Worked(s, w, wake)), RankOf(s))
    ensures Below(RankOf(Worked(s, w, wake)), RankOf(s)) <==> Advances(s, w)
  {
    hide Sum, Nulls, Orderly, Attended;
    var t := Worked(s, w, wake);
    SumPositive(Lives, s.workers, w);
    SumPositive(Holds, s.workers, w);
    if s.workers[w].Notifying? {
      NotifyRank(s, wake);
      UpdateSums(Notify(s.workers, wake), w, Exited);
      NotifySums(Holds, s.workers, wake);
    } else {
      UpdateSums(s.workers, w, t.workers[w]);
      AheadOfFront(s.queue);
    }
  }

  lemma AheadOfFront(q: seq<Entry>)
    ensures q == [] ==> Nulls(q) == 0
    ensures q != [] && !q[0].Null? ==> Ahead(q) == 1 + Ahead(q[1..])
    ensures q != [] && q[0].Null? ==> Nulls(q) > 0
  {
  }

  // ---------------------------------------------------------------- no better measure

  /** Two workers, one of which has just taken the null pointer off the queue. */
  const HELD := State([], [HoldsNull, Running], 0, Joining(0))

  const TOLD := State([Null], [Running, Running], 0, Waking)

  lemma ToldIsReachable()
    ensures Reachable(TOLD)
  {
    assert AfterSteps(INITIAL, []) == Some(INITIAL);
    ReachableStep(INITIAL, Start(2));
    var s := Apply(INITIAL, Start(2));
    assert s == State([], [Running, Running], 0, Serving);
    ReachableStep(s, Stop);
    ReachableStep(Apply(s, Stop), Shut(None));
    ReachableStep(s.(stopper := Pushing), Shut(None));
    assert Apply(s.(stopper := Pushing), Shut(None)) == TOLD;
  }

  lemma HeldIsReachable()
    ensures Reachable(HELD)
  {
    ToldIsReachable();
    assert !SomeAsleep(TOLD.workers);
    ReachableStep(TOLD, Shut(None));
    var s := TOLD.(stopper := Joining(0));
    ReachableStep(s, Work(0, None));
    assert Apply(s, Work(0, None)) == HELD;
  }

  lemma {:induction false} OneStep(s: State, a: Action, steps: seq<Action>)
    ensures AfterSteps(s, steps).Some? && Enabled(AfterSteps(s, steps).value, a) ==>
              AfterSteps(s, steps + [a]) == Some(Apply(AfterSteps(s, steps).value, a))
    decreases |steps|
  {
    if steps == [] {
      assert [] + [a] == [a] && [a][1..] == [];
    } else if Enabled(s, steps[0]) {
      assert (steps + [a])[1..] == steps[1..] + [a];
      OneStep(Apply(s, steps[0]), a, steps[1..]);
    }
  }

  /** While the null pointer is held, a connection can be pushed, handled and done with, which leaves the server
      as it was: no measure whatsoever is lowered by every step of a worker and raised by none of the others. */
  lemma {:induction false} NoStrictMeasure(measure: State -> ORDINAL)
    ensures exists s, a ::
              Reachable(s) && InRelay(s) && Enabled(s, a)
              && if a.Work? then !(measure(Apply(s, a)) < measure(s)) else measure(Apply(s, a)) > measure(s)
  {
    hide Reachable;
    var steps := [Push(7), PushNotify(None), Work(1, None), Work(1, None), Work(1, None)];
    HeldIsReachable();
    var s1 := Apply(HELD, steps[0]);
    assert CanWake(s1.workers, None);
    var s2 := Apply(s1, steps[1]);
    var s3 := Apply(s2, steps[2]);
    assert s3.workers == [HoldsNull, Handling(7)];
    var s4 := Apply(s3, steps[3]);
    var s5 := Apply(s4, steps[4]);
    assert s5 == HELD;
    ReachableStep(HELD, steps[0]);
    ReachableStep(s1, steps[1]);
    ReachableStep(s2, steps[2]);
    ReachableStep(s3, steps[3]);
    if measure(s1) <= measure(HELD) && measure(s2) <= measure(s1) && measure(s3) < measure(s2)
       && measure(s4) < measure(s3) && measure(s5) < measure(s4) {
      assert false;
    }
  }

  lemma {:induction false} ReachableStep(s: State, a: Action)
    requires Reachable(s) && Enabled(s, a)
    ensures Reachable(Apply(s, a))
  {
    var steps :| AfterSteps(INITIAL, steps) == Some(s);
    OneStep(INITIAL, a, steps);
  }

  // ---------------------------------------------------------------- infinite runs

  /** A run without end: the step taken at each moment, if any. */
  datatype Trace = Trace(state: nat -> State, action: nat -> Option<Action>)

  predicate Follows(t: Trace, i: nat) {
    match t.action(i)
    case None => t.state(i + 1) == t.state(i)
    case Some(a) => Enabled(t.state(i), a) && t.state(i + 1) == Apply(t.state(i), a)
  }

  predicate Acts(t: Trace, i: nat, w: nat) {
    t.action(i).Some? && t.action(i).value.Work? && t.action(i).value.w == w
  }

  predicate MayWork(s: State, w: nat) {
    w < |s.workers| && s.workers[w].Ready()
  }

  predicate NotifiesNow(t: Trace, i: nat) {
    t.action(i).Some? && t.action(i).value.PushNotify?
  }

  predicate ShutsNow(t: Trace, i: nat) {
    t.action(i).Some? && t.action(i).value.Shut?
  }

  ghost predicate WorkerTurn(t: Trace, w: nat, i: nat, j: nat) {
    i <= j && (Acts(t, j, w) || !MayWork(t.state(j), w))
  }

  ghost predicate PusherTurn(t: Trace, i: nat, j: nat) {
    i <= j && (NotifiesNow(t, j) || t.state(j).wakeups == 0)
  }

  ghost predicate StopperTurn(t: Trace, i: nat, j: nat) {
    i <= j && (ShutsNow(t, j) || !StopperReady(t.state(j)))
  }

  ghost predicate WorkerGetsTurn(t: Trace, w: nat, i: nat) {
    exists j: nat :: WorkerTurn(t, w, i, j)
  }

  ghost predicate PushersGetTurn(t: Trace, i: nat) {
    exists j: nat :: PusherTurn(t, i, j)
  }

  ghost predicate StopperGetsTurn(t: Trace, i: nat) {
    exists j: nat :: StopperTurn(t, i, j)
  }

  /** A run in which every thread that can take a step takes one in the end; handlers return. */
  ghost predicate Fair(t: Trace) {
    && (forall w: nat, i: nat :: WorkerGetsTurn(t, w, i))
    && (forall i: nat :: PushersGetTurn(t, i))
    && (forall i: nat :: StopperGetsTurn(t, i))
  }

  ghost predicate IsRun(t: Trace) {
    Inv(t.state(0)) && forall i: nat :: Follows(t, i)
  }

  lemma {:induction false} RunInv(t: Trace, i: nat)
    requires IsRun(t)
    ensures Inv(t.state(i))
  {
    if i > 0 {
      RunInv(t, i - 1);
      assert Follows(t, i - 1);
      if t.action(i - 1).Some? {
        StepKeepsInv(t.state(i - 1), t.action(i - 1).value);
      }
    }
  }

  /** Between two moments of the relay the measure does not rise, unless all workers have been joined. */
  lemma {:induction false} RankKept(t: Trace, i: nat, j: nat) returns (k: nat)
    requires IsRun(t) && i <= j && InRelay(t.state(i))
    ensures i <= k <= j
    ensures t.state(k).stopper.Emptying?
            || (k == j && InRelay(t.state(j)) && AtMost(RankOf(t.state(j)), RankOf(t.state(i))))
    decreases j - i
  {
    if i == j {
      k := i;
    } else {
      k := RankKept(t, i, j - 1);
      if !t.state(k).stopper.Emptying? {
        RelayStep(t, j - 1);
        k := j;
      }
    }
  }

  lemma {:induction false} RelayStep(t: Trace, i: nat)
    requires IsRun(t) && InRelay(t.state(i))
    ensures InRelay(t.state(i + 1)) || t.state(i + 1).stopper.Emptying?
    ensures AtMost(RankOf(t.state(i + 1)), RankOf(t.state(i)))
    ensures t.action(i).Some? && t.action(i).value.Work? && Advances(t.state(i), t.action(i).value.w) ==>
              Below(RankOf(t.state(i + 1)), RankOf(t.state(i)))
  {
    hide RankOf, AtMost, Below, Advances, Inv;
    RunInv(t, i);
    assert Follows(t, i);
    if t.action(i).Some? {
      RankStep(t.state(i), t.action(i).value);
    }
    SameRank(RankOf(t.state(i)));
  }

  lemma SameRank(r: Rank)
    ensures AtMost(r, r)
  {
  }

  // ---------------------------------------------------------------- turns

  /** Until worker `w` acts, its state does not change. */
  lemma {:induction false} FirstAct(t: Trace, w: nat, i: nat, j: nat) returns (k: nat)
    requires IsRun(t) && i <= j && MayWork(t.state(i), w)
    ensures i <= k <= j
    ensures MayWork(t.state(k), w) && t.state(k).workers[w] == t.state(i).workers[w]
    ensures k < j ==> Acts(t, k, w)
    decreases j - i
  {
    k := i;
    if i < j && !Acts(t, i, w) {
      RunInv(t, i);
      assert Follows(t, i);
      if t.action(i).Some? {
        ReadyStays(t.state(i), t.action(i).value, w);
      }
      k := FirstAct(t, w, i + 1, j);
    }
  }

  lemma {:induction false} ReadyStays(s: State, a: Action, w: nat)
    requires Inv(s) && Enabled(s, a) && MayWork(s, w)
    requires !(a.Work? && a.w == w)
    ensures MayWork(Apply(s, a), w) && Apply(s, a).workers[w] == s.workers[w]
  {
    hide OneNull, Attended, SomeAsleep;
    if a.Work? {
      OthersStay(s, a.w, a.wake, w);
    }
  }

  lemma {:induction false} WorkerActs(t: Trace, w: nat, i: nat) returns (j: nat)
    requires IsRun(t) && Fair(t) && MayWork(t.state(i), w)
    ensures i <= j && Acts(t, j, w)
    ensures MayWork(t.state(j), w) && t.state(j).workers[w] == t.state(i).workers[w]
  {
    assert WorkerGetsTurn(t, w, i);
    var n: nat :| WorkerTurn(t, w, i, n);
    j := FirstAct(t, w, i, n);
  }

  /** A pusher that owes a notify_one calls it. */
  lemma {:induction false} PusherActs(t: Trace, i: nat) returns (j: nat)
    requires IsRun(t) && Fair(t) && t.state(i).wakeups > 0
    ensures i <= j && NotifiesNow(t, j)
  {
    assert PushersGetTurn(t, i);
    var n: nat :| PusherTurn(t, i, n);
    j := NotifyBefore(t, i, n);
  }

  lemma {:induction false} NotifyBefore(t: Trace, i: nat, n: nat) returns (j: nat)
    requires IsRun(t) && i <= n && t.state(i).wakeups > 0
    requires NotifiesNow(t, n) || t.state(n).wakeups == 0
    ensures i <= j && NotifiesNow(t, j)
    decreases n - i
  {
    if NotifiesNow(t, i) {
      j := i;
    } else if i < n {
      assert Follows(t, i);
      if t.action(i).Some? {
        WakeupsStay(t.state(i), t.action(i).value);
      }
      j := NotifyBefore(t, i + 1, n);
    }
  }

  lemma WakeupsStay(s: State, a: Action)
    requires Enabled(s, a) && !a.PushNotify?
    ensures Apply(s, a).wakeups >= s.wakeups
  {
  }

  /** The stopping thread takes its next step; workers that have all exited stay as they are till then. */
  lemma {:induction false} StopperActs(t: Trace, i: nat) returns (j: nat)
    requires IsRun(t) && Fair(t) && StopperReady(t.state(i))
    ensures i <= j && ShutsNow(t, j) && t.state(j).stopper == t.state(i).stopper
    ensures AllExited(t.state(i).workers) ==> t.state(j).workers == t.state(i).workers
  {
    assert StopperGetsTurn(t, i);
    var n: nat :| StopperTurn(t, i, n);
    j := FirstShut(t, i, n);
  }

  lemma {:induction false} FirstShut(t: Trace, i: nat, n: nat) returns (j: nat)
    requires IsRun(t) && i <= n && StopperReady(t.state(i))
    requires ShutsNow(t, n) || !StopperReady(t.state(n))
    ensures i <= j && ShutsNow(t, j) && t.state(j).stopper == t.state(i).stopper
    ensures AllExited(t.state(i).workers) ==> t.state(j).workers == t.state(i).workers
    decreases n - i
  {
    if ShutsNow(t, i) {
      j := i;
    } else {
      RunInv(t, i);
      assert Follows(t, i);
      if t.action(i).Some? {
        StopperStays(t.state(i), t.action(i).value);
      }
      if i < n {
        j := FirstShut(t, i + 1, n);
      }
    }
  }

  lemma {:induction false} StopperStays(s: State, a: Action)
    requires Inv(s) && Enabled(s, a) && StopperReady(s) && !a.Shut?
    ensures StopperReady(Apply(s, a)) && Apply(s, a).stopper == s.stopper
    ensures AllExited(s.workers) ==> Apply(s, a).workers == s.workers
  {
    hide OneNull, Attended;
    if s.stopper.Joining? && s.stopper.joined < |s.workers| {
      match a
      case Work(w, wake) => OthersStay(s, w, wake, s.stopper.joined);
      case _ =>
    }
  }

  // ---------------------------------------------------------------- the relay ends

  lemma BelowAtMost(a: Rank, b: Rank, c: Rank)
    ensures Below(a, b) && AtMost(b, c) ==> Below(a, c)
    ensures AtMost(a, b) && Below(b, c) ==> Below(a, c)
    ensures !Below(a, a)
  {
  }

  /** A worker whose step advances lowers the measure sooner or later. */
  lemma {:induction false} WorkProgress(t: Trace, w: nat, i: nat) returns (j: nat)
    requires IsRun(t) && Fair(t) && InRelay(t.state(i)) && MayWork(t.state(i), w) && Advances(t.state(i), w)
    ensures i < j
    ensures t.state(j).stopper.Emptying? || (InRelay(t.state(j)) && Below(RankOf(t.state(j)), RankOf(t.state(i))))
  {
    hide Below, IsRun, Fair;
    var n := WorkerActs(t, w, i);
    var k := RankKept(t, i, n);
    if t.state(k).stopper.Emptying? {
      j := k;
    } else if Below(RankOf(t.state(n)), RankOf(t.state(i))) {
      BelowAtMost(RankOf(t.state(i)), RankOf(t.state(i)), RankOf(t.state(i)));
      j := n;
    } else {
      assert Advances(t.state(n), w);
      RelayStep(t, n);
      j := n + 1;
    }
  }

  lemma {:induction false} SomeLive(ws: seq<Worker>) returns (w: nat)
    requires Sum(Lives, ws) > 0
    ensures w < |ws| && ws[w].Live()
  {
    if ws[0].Live() {
      w := 0;
    } else {
      w := SomeLive(ws[1..]);
      w := w + 1;
    }
  }

  /** When all who have not exited sleep, a call of notify_one is outstanding, and it brings the relay on. */
  lemma {:induction false} WakeProgress(t: Trace, i: nat) returns (j: nat)
    requires IsRun(t) && Fair(t) && InRelay(t.state(i))
    requires forall w :: 0 <= w < |t.state(i).workers| ==> !t.state(i).workers[w].Ready()
    requires !AllExited(t.state(i).workers)
    ensures i < j
    ensures t.state(j).stopper.Emptying? || (InRelay(t.state(j)) && Below(RankOf(t.state(j)), RankOf(t.state(i))))
  {
    hide Below, IsRun, Fair;
    var s := t.state(i);
    var n := NotifyComes(t, i);
    var k := RankKept(t, i, n);
    if t.state(k).stopper.Emptying? {
      j := k;
    } else if Below(RankOf(t.state(n)), RankOf(s)) {
      BelowAtMost(RankOf(s), RankOf(s), RankOf(s));
      j := n;
    } else {
      AsleepRank(s);
      var w, m := AfterNotify(t, n);
      if t.state(m).stopper.Emptying? || Below(RankOf(t.state(m)), RankOf(s)) {
        BelowAtMost(RankOf(s), RankOf(s), RankOf(s));
        j := m;
      } else {
        assert Advances(t.state(m), w);
        j := WorkProgress(t, w, m);
        BelowAtMost(RankOf(t.state(j)), RankOf(t.state(m)), RankOf(s));
      }
    }
  }

  lemma {:induction false} AsleepRank(s: State)
    requires forall w :: 0 <= w < |s.workers| ==> !s.workers[w].Ready()
    requires !AllExited(s.workers)
    ensures RankOf(s).live > 0 && RankOf(s).held == 0
  {
    SumZero(Holds, s.workers);
    var w :| 0 <= w < |s.workers| && !s.workers[w].Exited?;
    SumPositive(Lives, s.workers, w);
  }

  lemma {:induction false} NotifyComes(t: Trace, i: nat) returns (n: nat)
    requires IsRun(t) && Fair(t) && InRelay(t.state(i))
    requires forall w :: 0 <= w < |t.state(i).workers| ==> !t.state(i).workers[w].Ready()
    requires !AllExited(t.state(i).workers)
    ensures i <= n && (NotifiesNow(t, n) || (ShutsNow(t, n) && t.state(n).stopper.Waking?))
  {
    hide IsRun, Fair;
    var s := t.state(i);
    RunInv(t, i);
    SumZero(Wakes, s.workers);
    SumZero(Holds, s.workers);
    SumZero(Notifies, s.workers);
    if s.stopper.Waking? {
      n := StopperActs(t, i);
    } else {
      n := PusherActs(t, i);
    }
  }

  /** After a notify_one some worker can go on. */
  lemma {:induction false} AfterNotify(t: Trace, n: nat) returns (w: nat, m: nat)
    requires IsRun(t) && InRelay(t.state(n)) && RankOf(t.state(n)).live > 0
    requires NotifiesNow(t, n) || (ShutsNow(t, n) && t.state(n).stopper.Waking?)
    ensures n <= m <= n + 1 && AtMost(RankOf(t.state(m)), RankOf(t.state(n)))
    ensures InRelay(t.state(m)) && MayWork(t.state(m), w)
  {
    hide Below, RankOf, Advances;
    var s := t.state(n);
    assert Follows(t, n);
    RelayStep(t, n);
    SameRank(RankOf(s));
    var wake := t.action(n).value.wake;
    if wake.Some? {
      w, m := wake.value, n + 1;
    } else {
      w := LiveOf(s);
      m := n;
    }
  }

  lemma LiveOf(s: State) returns (w: nat)
    requires RankOf(s).live > 0
    ensures w < |s.workers| && s.workers[w].Live()
  {
    w := SomeLive(s.workers);
  }

  lemma {:induction false} Progress(t: Trace, i: nat) returns (j: nat)
    requires IsRun(t) && Fair(t) && InRelay(t.state(i)) && !AllExited(t.state(i).workers)
    ensures i < j
    ensures t.state(j).stopper.Emptying? || (InRelay(t.state(j)) && Below(RankOf(t.state(j)), RankOf(t.state(i))))
  {
    hide IsRun, Fair, Below;
    var ws := t.state(i).workers;
    if w: nat :| w < |ws| && (ws[w].HoldsNull? || ws[w].Notifying?) {
      j := WorkProgress(t, w, i);
    } else {
      SumZero(Holds, ws);
      if w: nat :| w < |ws| && ws[w].Ready() {
        j := WorkProgress(t, w, i);
      } else {
        j := WakeProgress(t, i);
      }
    }
  }

  function JoinsLeft(s: State): nat
    requires Inv(s) && InRelay(s)
  {
    if s.stopper.Waking? then |s.workers| + 1 else |s.workers| - s.stopper.joined
  }

  lemma {:induction false} JoinsEnd(t: Trace, i: nat) returns (j: nat)
    requires IsRun(t) && Fair(t) && InRelay(t.state(i)) && AllExited(t.state(i).workers) && Inv(t.state(i))
    ensures i <= j && t.state(j).stopper.Emptying?
    decreases JoinsLeft(t.state(i))
  {
    hide Fair, OneNull, Attended;
    var n := StopperActs(t, i);
    assert Follows(t, n);
    RunInv(t, n);
    RunInv(t, n + 1);
    if InRelay(t.state(n + 1)) {
      j := JoinsEnd(t, n + 1);
    } else {
      j := n + 1;
    }
  }

  lemma {:induction false} RelayEnds(t: Trace, i: nat) returns (j: nat)
    requires IsRun(t) && Fair(t) && InRelay(t.state(i))
    ensures i <= j && t.state(j).stopper.Emptying?
    decreases RankOf(t.state(i)).live, RankOf(t.state(i)).held, RankOf(t.state(i)).ahead,
              RankOf(t.state(i)).works, RankOf(t.state(i)).leaving
  {
    hide IsRun, Fair, RankOf;
    if AllExited(t.state(i).workers) {
      RunInv(t, i);
      j := JoinsEnd(t, i);
    } else {
      j := Progress(t, i);
      if !t.state(j).stopper.Emptying? {
        j := RelayEnds(t, j);
      }
    }
  }

  /** The steps of the stopping thread outside the relay. */
  lemma {:induction false} StopperStep(t: Trace, i: nat) returns (j: nat)
    requires IsRun(t) && Fair(t) && StopperReady(t.state(i)) && !InRelay(t.state(i))
    ensures i < j
    ensures var p, q := t.state(i).stopper, t.state(j).stopper;
            || (p.Sizing? && (q.Clearing? || q.Pushing?)) || (p.Clearing? && q.Pushing?) || (p.Pushing? && q.Waking?)
            || (p.Emptying? && q.ClosingPool?) || (p.ClosingPool? && q.Stopped?)
  {
    hide Fair;
    var n := StopperActs(t, i);
    assert Follows(t, n);
    j := n + 1;
  }

  lemma {:induction false} ReachesRelay(t: Trace, i: nat) returns (j: nat)
    requires IsRun(t) && Fair(t)
    requires var p := t.state(i).stopper; p.Sizing? || p.Clearing? || p.Pushing?
    ensures i <= j && InRelay(t.state(j))
  {
    hide IsRun, Fair;
    j := StopperStep(t, i);
    if !InRelay(t.state(j)) {
      j := StopperStep(t, j);
      if !InRelay(t.state(j)) {
        j := StopperStep(t, j);
      }
    }
  }

  /** In every fair run, however many connections are pushed and however long the handlers take, a server that
      has been told to stop has stopped in the end: all workers have been joined, and no null pointer is left. */
  lemma {:induction false} EveryStopEnds(t: Trace, i: nat) returns (j: nat)
    requires IsRun(t) && Fair(t) && !t.state(i).stopper.Serving?
    ensures i <= j && t.state(j).stopper.Stopped?
    ensures t.state(j).workers == [] && Nulls(t.state(j).queue) == 0
  {
    hide IsRun, Fair;
    j := i;
    if var p := t.state(j).stopper; p.Sizing? || p.Clearing? || p.Pushing? {
      j := ReachesRelay(t, j);
    }
    if InRelay(t.state(j)) {
      j := RelayEnds(t, j);
    }
    if t.state(j).stopper.Emptying? {
      j := StopperStep(t, j);
    }
    if t.state(j).stopper.ClosingPool? {
      j := StopperStep(t, j);
    }
    RunInv(t, j);
  }
}
