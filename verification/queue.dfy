/** The queue and the server as the objects the threads share: each method is one critical section, or one
    piece of thread code between two of them, and does what module Workers says (webcc/queue.h, webcc/server.cc). */
module Queues {
  import opened Text
  import opened Workers

  class Queue<T> {
    var messages: seq<T>

    constructor ()
      ensures messages == []
    {
      messages := [];
    }

    /** The critical section of PopOrWait once the thread holds the mutex, and that of Pop: the first message,
        or None if there is nothing to take and PopOrWait waits. */
    method TryPop() returns (r: Option<T>)
      modifies this
      ensures old(messages) == [] ==> r == None && messages == []
      ensures old(messages) != [] ==> r.Some? && old(messages) == [r.value] + messages
    {
      if |messages| == 0 {
        return None;
      }
      r := Some(messages[0]);
      messages := messages[1..];
    }

    /** The critical section of Push; notify_one is a step of its own. */
    method Push(message: T)
      modifies this
      ensures messages == old(messages) + [message]
    {
      messages := messages + [message];
    }

    method Clear()
      modifies this
      ensures messages == []
    {
      messages := [];
    }

    method Size() returns (n: nat)
      ensures n == |messages|
    {
      n := |messages|;
    }
  }

  class Server {
    const queue: Queue<Entry>
    var workers: seq<Worker>
    var wakeups: nat
    var stopper: Stopper

    ghost function Model(): State
      reads this, queue
    {
      State(queue.messages, workers, wakeups, stopper)
    }

    constructor ()
      ensures Model() == INITIAL && fresh(queue)
    {
      queue := new Queue<Entry>();
      workers, wakeups, stopper := [], 0, Stopped;
    }

    /** Run, as far as the worker threads go. */
    method Run(n: nat)
      requires Enabled(Model(), Start(n))
      modifies `workers, `stopper
      ensures Model() == Apply(old(Model()), Start(n))
    {
      workers := seq(n, _ => Running);
      stopper := Serving;
    }

    /** Connection::OnRead hands a connection over. */
    method Enqueue(id: nat)
      modifies `wakeups, queue
      ensures Model() == Apply(old(Model()), Action.Push(id))
    {
      queue.Push(Conn(id));
      wakeups := wakeups + 1;
    }

    /** notify_one: `wake` is the sleeper chosen by the condition variable. */
    method WakeOne(wake: Option<nat>)
      requires CanWake(workers, wake)
      modifies `workers
      ensures workers == Notify(old(workers), wake)
    {
      if wake.Some? {
        workers := workers[wake.value := Woken];
      }
    }

    /** The next step of a thread in WorkerRoutine. */
    method WorkerRoutine(w: nat, wake: Option<nat>)
      requires Enabled(Model(), Work(w, wake))
      modifies `workers, queue
      ensures Model() == Apply(old(Model()), Work(w, wake))
    {
      if workers[w].Handling? {
        workers := workers[w := Returning];
      } else if workers[w].Returning? {
        workers := workers[w := Running];
      } else if workers[w].HoldsNull? {
        queue.Push(Null);
        workers := workers[w := Notifying];
      } else if workers[w].Notifying? {
        WakeOne(wake);
        workers := workers[w := Exited];
      } else {
        var connection := queue.TryPop();
        if connection.None? {
          workers := workers[w := Asleep];
        } else if connection.value.Null? {
          workers := workers[w := HoldsNull];
        } else {
          workers := workers[w := Handling(connection.value.id)];
        }
      }
    }

    /** The next step of the thread in DoStop. */
    method StopWorkers(wake: Option<nat>)
      requires Enabled(Model(), Shut(wake))
      modifies `workers, `stopper, queue
      ensures Model() == Apply(old(Model()), Shut(wake))
    {
      match stopper
      case Sizing =>
        var size := queue.Size();
        stopper := if size != 0 then Clearing else Pushing;
      case Clearing =>
        queue.Clear();
        stopper := Pushing;
      case Pushing =>
        queue.Push(Null);
        stopper := Waking;
      case Waking =>
        WakeOne(wake);
        stopper := Joining(0);
      case Joining(k) => stopper := if k < |workers| then Joining(k + 1) else Emptying;
      case Emptying =>
        workers := [];
        queue.Clear();
        stopper := ClosingPool;
      case ClosingPool => stopper := Stopped;
      case _ =>
    }
  }
}
