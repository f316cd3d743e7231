/** ngx_thread_pool.c: the main thread and the workers of a pool as atomic steps. A critical section of the pool's
    mutex, or of the lock of the done list, is one step; lock, wait and signal calls succeed. */
module ThreadPool {

  /** Where a worker is in ngx_thread_pool_cycle. */
  datatype Worker =
    | Start                   // about to take the mutex
    | Waiting                 // in cond_wait, not signalled
    | Woken                   // signalled, or woken for no reason; about to take the mutex again
    | Running(task: int)      // task->handler
    | Finished(task: int)     // about to append to the done list
  {
    /** Has lowered the counter of waiting tasks and has not taken a task yet. */
    predicate Asking() { Waiting? || Woken? }
  }

  /** The pool, the done list and the list being drained. The last five fields record the history: tasks in the
      order they were posted, taken from the queue, appended to the done list and completed, and the handlers in the
      order they returned. */
  datatype State = State(
    queue: seq<int>, waiting: int, maxQueue: nat, workers: seq<Worker>, done: seq<int>,
    draining: seq<int>, active: set<int>,
    posted: seq<int>, taken: seq<int>, finished: seq<int>, completed: seq<int>, ran: seq<int>)
  {
    predicate Initial() {
      && queue == done == draining == posted == taken == finished == completed == ran == [] && waiting == 0
      && active == {}
      && forall i :: 0 <= i < |workers| ==> workers[i] == Start
    }
  }

  datatype Answer = Ok | AlreadyActive | Overflow

  /** ngx_thread_task_post in the main thread. A waiting worker, if there is one, is signalled. */
  predicate Post(s: State, t: State, task: int, signalled: int, answer: Answer) {
    if task in s.active then t == s && answer == AlreadyActive
    else if s.waiting >= s.maxQueue then t == s && answer == Overflow
    else
      && answer == Ok
      && t == s.(active := s.active + {task}, workers := t.workers, queue := s.queue + [task], waiting := s.waiting + 1,
                 posted := s.posted + [task])
      && Signal(s.workers, t.workers, signalled)
  }

  predicate Signal(before: seq<Worker>, after: seq<Worker>, i: int) {
    if 0 <= i < |before| && before[i] == Waiting then after == before[i := Worker.Woken]
    else after == before && forall k :: 0 <= k < |before| ==> before[k] != Waiting
  }

  /** The rest of the critical section of worker i: the first task, or back to sleep. */
  function Take(s: State, i: nat): State
    requires i < |s.workers|
  {
    if s.queue == [] then s.(workers := s.workers[i := Waiting])
    else s.(workers := s.workers[i := Running(s.queue[0])], queue := s.queue[1..], taken := s.taken + [s.queue[0]])
  }

  predicate WorkerStep(s: State, t: State, i: nat)
    requires i < |s.workers|
  {
    match s.workers[i]
    case Start => t == Take(s.(waiting := s.waiting - 1), i)
    case Waiting => t == s.(workers := s.workers[i := Worker.Woken])
    case Woken => t == Take(s, i)
    case Running(task) => t == s.(workers := s.workers[i := Finished(task)], ran := s.ran + [task])
    case Finished(task) =>
      t == s.(workers := s.workers[i := Start], done := s.done + [task], finished := s.finished + [task])
  }

  /** ngx_thread_pool_handler takes the done list. */
  predicate Drain(s: State, t: State) {
    s.draining == [] && t == s.(done := [], draining := s.done)
  }

  /** ngx_thread_pool_handler completes the next task of the list it took. */
  predicate Complete(s: State, t: State) {
    && s.draining != []
    && var task := s.draining[0];
      t == s.(draining := s.draining[1..], active := s.active - {task}, completed := s.completed + [task])
  }

  datatype Event = Posting(task: int, signalled: int, answer: Answer) | Working(i: nat) | Draining | Completing

  predicate Step(s: State, t: State, e: Event) {
    match e
    case Posting(task, signalled, answer) => Post(s, t, task, signalled, answer)
    case Working(i) => i < |s.workers| && WorkerStep(s, t, i)
    case Draining => Drain(s, t)
    case Completing => Complete(s, t)
  }

  predicate Run(states: seq<State>, events: seq<Event>) {
    && |states| == |events| + 1 && states[0].Initial()
    && forall k {:trigger states[k + 1]} :: 0 <= k < |events| ==> Step(states[k], states[k + 1], events[k])
  }

  /* ---- workers as a whole ---- */

  function One(b: bool): nat { if b then 1 else 0 }

  function Asking(w: seq<Worker>): nat {
    if w == [] then 0 else Asking(w[..|w| - 1]) + One(w[|w| - 1].Asking())
  }

  function WokenCount(w: seq<Worker>): nat {
    if w == [] then 0 else WokenCount(w[..|w| - 1]) + One(w[|w| - 1].Woken?)
  }

  /** How often a task occurs in a list. */
  function Count(q: seq<int>, task: int): nat {
    if q == [] then 0 else Count(q[..|q| - 1], task) + One(q[|q| - 1] == task)
  }

  /** How many workers hold a task, and how many of them are in its handler. */
  function Held(w: seq<Worker>, task: int): nat {
    if w == [] then 0 else Held(w[..|w| - 1], task) + One(HasTask(w[|w| - 1], task))
  }

  function InHandler(w: seq<Worker>, task: int): nat {
    if w == [] then 0 else InHandler(w[..|w| - 1], task) + One(w[|w| - 1] == Running(task))
  }

  predicate HasTask(w: Worker, task: int) { w == Running(task) || w == Finished(task) }

  lemma {:induction false} Moved(w: seq<Worker>, i: nat, to: Worker)
    requires i < |w|
    ensures Asking(w[i := to]) + One(w[i].Asking()) == Asking(w) + One(to.Asking())
    ensures WokenCount(w[i := to]) + One(w[i].Woken?) == WokenCount(w) + One(to.Woken?)
  {
    var last := |w| - 1;
    if i < last {
      Moved(w[..last], i, to);
      assert w[i := to][..last] == w[..last][i := to];
    } else {
      assert w[i := to][..last] == w[..last];
    }
  }

  lemma {:induction false} TaskMoved(w: seq<Worker>, i: nat, to: Worker, task: int)
    requires i < |w|
    ensures Held(w[i := to], task) + One(HasTask(w[i], task)) == Held(w, task) + One(HasTask(to, task))
    ensures InHandler(w[i := to], task) + One(w[i] == Running(task)) == InHandler(w, task) + One(to == Running(task))
  {
    var last := |w| - 1;
    if i < last {
      TaskMoved(w[..last], i, to, task);
      assert w[i := to][..last] == w[..last][i := to];
    } else {
      assert w[i := to][..last] == w[..last];
    }
  }

  lemma Appended(q: seq<int>, x: int, task: int)
    ensures Count(q + [x], task) == Count(q, task) + One(x == task)
  {
    assert (q + [x])[..|q|] == q;
  }

  lemma {:induction false} Joined(a: seq<int>, b: seq<int>, task: int)
    ensures Count(a + b, task) == Count(a, task) + Count(b, task)
  {
    if b == [] {
      assert a + b == a;
    } else {
      var last := |b| - 1;
      Joined(a, b[..last], task);
      assert (a + b)[..|a + b| - 1] == a + b[..last];
    }
  }

  lemma HeadOff(q: seq<int>, task: int)
    requires q != []
    ensures Count(q, task) == One(q[0] == task) + Count(q[1..], task)
  {
    assert q == [q[0]] + q[1..] && [q[0]] == [] + [q[0]];
    Appended([], q[0], task);
    Joined([q[0]], q[1..], task);
  }

  lemma {:induction false} AskingBound(w: seq<Worker>)
    ensures WokenCount(w) <= Asking(w) <= |w|
  {
    if w != [] {
      AskingBound(w[..|w| - 1]);
    }
  }

  lemma {:induction false} AllStart(w: seq<Worker>)
    requires forall i :: 0 <= i < |w| ==> w[i] == Start
    ensures Asking(w) == WokenCount(w) == 0
  {
    if w != [] {
      AllStart(w[..|w| - 1]);
    }
  }

  lemma {:induction false} NoTasks(w: seq<Worker>, task: int)
    requires forall i :: 0 <= i < |w| ==> w[i] == Start
    ensures Held(w, task) == InHandler(w, task) == 0
  {
    if w != [] {
      NoTasks(w[..|w| - 1], task);
    }
  }

  /* ---- what every step keeps ---- */

  /** In how many places a task is that was posted and not completed: queued, with a worker, on the done list or
      being drained. */
  function InFlight(s: State, task: int): nat {
    Count(s.queue, task) + Held(s.workers, task) + Count(s.done, task) + Count(s.draining, task)
  }

  /** A task taken is in its handler, or has run; a task that ran is with its worker or was appended. */
  predicate OncePerPost(s: State, task: int) {
    && Count(s.taken, task) == Count(s.ran, task) + InHandler(s.workers, task)
    && Count(s.taken, task) == Held(s.workers, task) + Count(s.finished, task)
  }

  /** An active task is in one place, once, and another task is nowhere. */
  predicate Placed(s: State, task: int) {
    InFlight(s, task) == One(task in s.active) && OncePerPost(s, task)
  }

  /** Tasks leave the queue in the order they were posted, and the done list in the order they were appended. */
  predicate InOrder(s: State) {
    s.posted == s.taken + s.queue && s.finished == s.completed + s.draining + s.done
  }

  predicate Counted(s: State) {
    s.waiting == |s.queue| - Asking(s.workers) && |s.queue| <= s.maxQueue + |s.workers|
  }

  /** A worker sleeps unsignalled only while the woken workers suffice for the queue. */
  predicate NobodyForgotten(s: State) {
    (exists i :: 0 <= i < |s.workers| && s.workers[i] == Waiting) ==> |s.queue| <= WokenCount(s.workers)
  }

  ghost predicate Invariant(s: State) {
    && InOrder(s) && Counted(s) && NobodyForgotten(s)
    && forall task {:trigger Placed(s, task)} :: Placed(s, task)
  }

  lemma TakenInOrder(s: State, i: nat)
    requires i < |s.workers| && InOrder(s)
    ensures InOrder(Take(s, i))
  {
    if s.queue != [] {
      assert s.taken + s.queue == s.taken + [s.queue[0]] + s.queue[1..];
    }
  }

  lemma OrderKept(s: State, t: State, e: Event)
    requires Step(s, t, e) && InOrder(s)
    ensures InOrder(t)
  {
    match e
    case Posting(_, _, _) =>
    case Working(i) =>
      match s.workers[i] {
        case Start => TakenInOrder(s.(waiting := s.waiting - 1), i);
        case Woken => TakenInOrder(s, i);
        case _ =>
      }
    case Draining =>
      assert s.done + [] == s.done;
    case Completing =>
      assert s.draining == [s.draining[0]] + s.draining[1..];
  }

  lemma TakenCounted(s: State, i: nat)
    requires i < |s.workers| && (s.workers[i] == Start || s.workers[i] == Worker.Woken)
    requires |s.queue| <= s.maxQueue + |s.workers| && NobodyForgotten(s)
    requires s.waiting == |s.queue| - Asking(s.workers) - One(s.workers[i] == Start)
    ensures Counted(Take(s, i)) && NobodyForgotten(Take(s, i))
  {
    Moved(s.workers, i, Take(s, i).workers[i]);
    if s.queue != [] {
      var t := Take(s, i);
      if k :| 0 <= k < |t.workers| && t.workers[k] == Waiting {
        assert s.workers[k] == Waiting;
      }
    }
  }

  lemma CountsKept(s: State, t: State, e: Event)
    requires Step(s, t, e) && Counted(s) && NobodyForgotten(s)
    ensures Counted(t) && NobodyForgotten(t)
  {
    match e
    case Posting(_, i, _) =>
      AskingBound(s.workers);
      if 0 <= i < |s.workers| && s.workers[i] == Waiting {
        Moved(s.workers, i, Worker.Woken);
      }
    case Working(i) =>
      match s.workers[i] {
        case Start => TakenCounted(s.(waiting := s.waiting - 1), i);
        case Woken => TakenCounted(s, i);
        case _ => QuietMove(s, t, i);
      }
    case Draining =>
    case Completing =>
  }

  /** A worker moves without touching the queue. */
  lemma QuietMove(s: State, t: State, i: nat)
    requires i < |s.workers| && s.workers[i] != Start && s.workers[i] != Worker.Woken && WorkerStep(s, t, i)
    requires Counted(s) && NobodyForgotten(s)
    ensures Counted(t) && NobodyForgotten(t)
  {
    Moved(s.workers, i, t.workers[i]);
    if k :| 0 <= k < |t.workers| && t.workers[k] == Waiting {
      assert s.workers[k] == Waiting;
    }
  }

  lemma PostPlaced(s: State, t: State, task: int, signalled: int, answer: Answer, x: int)
    requires Post(s, t, task, signalled, answer) && Placed(s, x)
    ensures Placed(t, x)
  {
    if answer == Ok {
      Appended(s.queue, task, x);
      if 0 <= signalled < |s.workers| && s.workers[signalled] == Waiting {
        TaskMoved(s.workers, signalled, Worker.Woken, x);
      }
    }
  }

  lemma TakePlaced(s: State, i: nat, x: int)
    requires i < |s.workers| && (s.workers[i] == Start || s.workers[i] == Worker.Woken) && Placed(s, x)
    ensures Placed(Take(s, i), x)
  {
    TaskMoved(s.workers, i, Take(s, i).workers[i], x);
    if s.queue != [] {
      HeadOff(s.queue, x);
      Appended(s.taken, s.queue[0], x);
    }
  }

  lemma RunPlaced(s: State, t: State, i: nat, task: int, x: int)
    requires i < |s.workers| && s.workers[i] == Running(task) && Placed(s, x)
    requires t == s.(workers := s.workers[i := Finished(task)], ran := s.ran + [task])
    ensures Placed(t, x)
  {
    hide Held;
    hide InHandler;
    hide Count;
    TaskMoved(s.workers, i, Finished(task), x);
    Appended(s.ran, task, x);
    assert Held(t.workers, x) == Held(s.workers, x);
  }

  lemma AppendPlaced(s: State, i: nat, task: int, x: int)
    requires i < |s.workers| && s.workers[i] == Finished(task) && Placed(s, x)
    ensures Placed(s.(workers := s.workers[i := Start], done := s.done + [task], finished := s.finished + [task]), x)
  {
    TaskMoved(s.workers, i, Start, x);
    Appended(s.done, task, x);
    Appended(s.finished, task, x);
  }

  lemma WorkerPlaced(s: State, t: State, i: nat, x: int)
    requires i < |s.workers| && WorkerStep(s, t, i) && Placed(s, x)
    ensures Placed(t, x)
  {
    hide Held;
    hide InHandler;
    hide Count;
    match s.workers[i]
    case Start =>
      TakePlaced(s.(waiting := s.waiting - 1), i, x);
    case Woken =>
      TakePlaced(s, i, x);
    case Waiting =>
      TaskMoved(s.workers, i, Worker.Woken, x);
    case Running(task) =>
      RunPlaced(s, t, i, task, x);
    case Finished(task) =>
      AppendPlaced(s, i, task, x);
  }

  lemma CompletePlaced(s: State, t: State, x: int)
    requires Complete(s, t) && Placed(s, x)
    ensures Placed(t, x)
  {
    HeadOff(s.draining, x);
  }

  lemma {:induction false} StepKeeps(s: State, t: State, e: Event)
    requires Invariant(s) && Step(s, t, e)
    ensures Invariant(t)
  {
    OrderKept(s, t, e);
    CountsKept(s, t, e);
    forall x ensures Placed(t, x) {
      assert Placed(s, x);
      match e
      case Posting(task, signalled, answer) => PostPlaced(s, t, task, signalled, answer, x);
      case Working(i) => WorkerPlaced(s, t, i, x);
      case Draining =>
      case Completing => CompletePlaced(s, t, x);
    }
  }

  lemma {:induction false} Reachable(states: seq<State>, events: seq<Event>, k: nat)
    requires Run(states, events) && k < |states|
    ensures Invariant(states[k])
  {
    if k == 0 {
      AllStart(states[0].workers);
      forall task ensures Placed(states[0], task) {
        NoTasks(states[0].workers, task);
      }
    } else {
      Reachable(states, events, k - 1);
      var j := k - 1;
      StepKeeps(states[j], states[j + 1], events[j]);
    }
  }

  /* ---- what holds in every run ---- */

  /** Every active task is in exactly one place: queued once, with one worker, once on the done list or once among
      the tasks being drained. */
  lemma InOnePlace(states: seq<State>, events: seq<Event>, k: nat, task: int)
    requires Run(states, events) && k < |states|
    ensures var s := states[k];
      Count(s.queue, task) + Held(s.workers, task) + Count(s.done, task) + Count(s.draining, task)
        == if task in s.active then 1 else 0
  {
    Reachable(states, events, k);
    assert Placed(states[k], task);
  }

  /** Tasks are taken in the order they were posted, and completed in the order they finished. */
  lemma FirstInFirstOut(states: seq<State>, events: seq<Event>, k: nat)
    requires Run(states, events) && k < |states|
    ensures states[k].taken <= states[k].posted && states[k].completed <= states[k].finished
  {
    Reachable(states, events, k);
  }

  /** A task is run, and completed, at most as often as it was posted. */
  lemma AtMostOnce(states: seq<State>, events: seq<Event>, k: nat, task: int)
    requires Run(states, events) && k < |states|
    ensures var s := states[k];
      Count(s.completed, task) <= Count(s.ran, task) <= Count(s.taken, task) <= Count(s.posted, task)
  {
    Reachable(states, events, k);
    var s := states[k];
    assert Placed(s, task);
    Joined(s.taken, s.queue, task);
    Joined(s.completed + s.draining, s.done, task);
    Joined(s.completed, s.draining, task);
    HandlerHeld(s.workers, task);
  }

  lemma {:induction false} HandlerHeld(w: seq<Worker>, task: int)
    ensures InHandler(w, task) <= Held(w, task)
  {
    if w != [] {
      HandlerHeld(w[..|w| - 1], task);
    }
  }

  /** The counter, which may be negative, is the queue length less the workers that are about to take a task; the
      queue never exceeds its limit by more than the number of workers. */
  lemma QueueBound(states: seq<State>, events: seq<Event>, k: nat)
    requires Run(states, events) && k < |states|
    ensures var s := states[k];
      s.waiting == |s.queue| - Asking(s.workers) && |s.queue| <= s.maxQueue + |s.workers|
  {
    Reachable(states, events, k);
  }

  /** No task waits for a worker that nobody woke. */
  lemma NoLostSignal(states: seq<State>, events: seq<Event>, k: nat, i: nat)
    requires Run(states, events) && k < |states| && i < |states[k].workers| && states[k].workers[i] == Waiting
    ensures |states[k].queue| <= WokenCount(states[k].workers)
  {
    Reachable(states, events, k);
  }

  /** A task that is not active is accepted exactly while the queue is shorter than its limit and the workers that
      are about to take a task together; it goes to the end of the queue, becomes active and wakes at most one
      waiting worker. An active task, and a task too many, change nothing. */
  lemma PostAnswer(states: seq<State>, events: seq<Event>, k: nat, task: int, signalled: int, answer: Answer)
    requires Run(states, events) && k < |events| && events[k] == Posting(task, signalled, answer)
    ensures var s, t := states[k], states[k + 1];
      if task in s.active then
        answer == AlreadyActive && t == s
      else if |s.queue| < s.maxQueue + Asking(s.workers) then
        && answer == Ok && t.queue == s.queue + [task] && t.active == s.active + {task}
        && t.posted == s.posted + [task]
        && t == s.(queue := t.queue, waiting := t.waiting, workers := t.workers, active := t.active, posted := t.posted)
      else
        answer == Overflow && t == s
    ensures var s, t := states[k], states[k + 1];
      || t.workers == s.workers
      || exists i :: 0 <= i < |s.workers| && s.workers[i] == Waiting && t.workers == s.workers[i := Worker.Woken]
    ensures var s, t := states[k], states[k + 1];
      answer == Ok && (exists i :: 0 <= i < |s.workers| && s.workers[i] == Waiting) ==>
        WokenCount(t.workers) == WokenCount(s.workers) + 1
  {
    Reachable(states, events, k);
    assert Step(states[k], states[k + 1], events[k]);
    var s, t := states[k], states[k + 1];
    if 0 <= signalled < |s.workers| && s.workers[signalled] == Waiting {
      Moved(s.workers, signalled, Worker.Woken);
    }
  }

  /** A task can be posted at any time: the mutex is not held across steps. */
  lemma CanPost(s: State, task: int)
    ensures exists t, i, answer :: Step(s, t, Posting(task, i, answer))
  {
    if task in s.active {
      assert Step(s, s, Posting(task, 0, AlreadyActive));
    } else if s.waiting >= s.maxQueue {
      assert Step(s, s, Posting(task, 0, Overflow));
    } else {
      var t := s.(active := s.active + {task}, queue := s.queue + [task], waiting := s.waiting + 1,
                  posted := s.posted + [task]);
      if i :| 0 <= i < |s.workers| && s.workers[i] == Waiting {
        assert Step(s, t.(workers := s.workers[i := Worker.Woken]), Posting(task, i, Ok));
      } else {
        assert Step(s, t, Posting(task, 0, Ok));
      }
    }
  }

  /** A worker can always go on, a waiting one because it may be woken for nothing; and so can the main thread with
      the finished tasks. */
  lemma CanWork(s: State, i: nat)
    ensures i < |s.workers| ==> exists t :: Step(s, t, Working(i))
    ensures (exists t :: Step(s, t, Draining)) || exists t :: Step(s, t, Completing)
  {
    if i < |s.workers| {
      match s.workers[i]
      case Start => assert Step(s, Take(s.(waiting := s.waiting - 1), i), Working(i));
      case Waiting => assert Step(s, s.(workers := s.workers[i := Worker.Woken]), Working(i));
      case Woken => assert Step(s, Take(s, i), Working(i));
      case Running(task) =>
        assert Step(s, s.(workers := s.workers[i := Finished(task)], ran := s.ran + [task]), Working(i));
      case Finished(task) =>
        var t := s.(workers := s.workers[i := Start], done := s.done + [task], finished := s.finished + [task]);
        assert Step(s, t, Working(i));
    }
    if s.draining == [] {
      assert Step(s, s.(done := [], draining := s.done), Draining);
    } else {
      var task := s.draining[0];
      var t := s.(draining := s.draining[1..], active := s.active - {task}, completed := s.completed + [task]);
      assert Step(s, t, Completing);
    }
  }

  lemma {:induction false} AllWaiting(w: seq<Worker>, task: int)
    requires forall i :: 0 <= i < |w| ==> w[i] == Waiting
    ensures WokenCount(w) == 0 && Held(w, task) == 0
  {
    if w != [] {
      AllWaiting(w[..|w| - 1], task);
    }
  }

  /** No task is left alone: while one is active, a worker is awake, or there are finished tasks to complete. */
  lemma NoDeadlock(states: seq<State>, events: seq<Event>, k: nat, task: int)
    requires Run(states, events) && k < |states| && task in states[k].active && |states[k].workers| > 0
    ensures var s := states[k];
      (exists i :: 0 <= i < |s.workers| && s.workers[i] != Waiting) || s.done != [] || s.draining != []
  {
    Reachable(states, events, k);
    var s := states[k];
    assert Placed(s, task);
    if forall i :: 0 <= i < |s.workers| ==> s.workers[i] == Waiting {
      AllWaiting(s.workers, task);
      assert s.workers[0] == Waiting;
    }
  }
}
