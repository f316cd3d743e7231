/** ngx_shmtx.c, with atomic operations and a semaphore: a shared mutex as atomic steps of several processes. */
module Shmtx {

  const WORD: int := 0x1_0000_0000_0000_0000

  /** What a process is about to do. */
  datatype Pc =
    | Idle
    | TryLook                 // trylock: *mtx->lock == 0
    | TrySwap                 // trylock: ngx_atomic_cmp_set(mtx->lock, 0, ngx_pid)
    | Look                    // lock: *mtx->lock == 0, the first time or while spinning
    | Swap                    // lock: ngx_atomic_cmp_set(mtx->lock, 0, ngx_pid)
    | Register                // ngx_atomic_fetch_add(mtx->wait, 1)
    | LastLook                // *mtx->lock == 0, once registered
    | LastSwap
    | Retract                 // has the lock: ngx_atomic_fetch_add(mtx->wait, -1)
    | Sleep                   // sem_wait()
    | Holding
    | Gone                    // died in the critical section
    | WakeLook                // wait = *mtx->wait
    | WakeSwap(wait: int)     // ngx_atomic_cmp_set(mtx->wait, wait, wait - 1)
    | Post                    // sem_post()
  {
    predicate HasLock() { Retract? || Holding? }

    /** Has added one to the waiter counter, and neither taken it back nor been woken. */
    predicate Registered() { LastLook? || LastSwap? || Retract? || Sleep? }

    /** In ngx_shmtx_lock or ngx_shmtx_wakeup, and not asleep. */
    predicate Active() {
      Look? || Swap? || Register? || LastLook? || LastSwap? || WakeLook? || WakeSwap? || Post?
    }
  }

  /** The shared words, the semaphore and the processes. `lock` and `wait` are machine words. */
  datatype State = State(lock: int, wait: int, sem: nat, semaphore: bool, pid: seq<int>, pc: seq<Pc>)
  {
    predicate WellFormed() {
      && |pid| == |pc| < WORD / 4
      && (forall i :: 0 <= i < |pid| ==> 0 < pid[i] < WORD)
      && forall i, j :: 0 <= i < j < |pid| ==> pid[i] != pid[j]
    }

    predicate Initial() {
      WellFormed() && lock == 0 && wait == 0 && sem == 0 && forall i :: 0 <= i < |pc| ==> pc[i] == Idle
    }
  }

  /** (ngx_atomic_int_t) w */
  function Signed(w: int): int {
    if w < WORD / 2 then w else w - WORD
  }

  /** What a process may decide for itself, or have happen to it. */
  datatype Choice = Lock | TryLock | Unlock | Die | ForceUnlock(j: nat) | Spin | Enqueue | Interrupt | Go

  /** One atomic step of process i. */
  predicate Step(s: State, t: State, i: nat, c: Choice)
    requires i < |s.pc| == |s.pid|
  {
    var me := s.pid[i];
    match s.pc[i]
    case Idle =>
      (c.Lock? && t == s.(pc := s.pc[i := Look]))
      || (c.TryLock? && t == s.(pc := s.pc[i := TryLook]))
      || (c.ForceUnlock? && c.j < |s.pc| && s.pc[c.j] == Gone && t == Freed(s, i, s.pid[c.j]))
    case TryLook => t == s.(pc := s.pc[i := if s.lock == 0 then TrySwap else Idle])
    case TrySwap => if s.lock == 0 then t == s.(lock := me, pc := s.pc[i := Holding])
      else t == s.(pc := s.pc[i := Idle])
    case Look => if s.lock == 0 then t == s.(pc := s.pc[i := Swap]) else Failed(s, t, i, c)
    case Swap => if s.lock == 0 then t == s.(lock := me, pc := s.pc[i := Holding]) else Failed(s, t, i, c)
    case Register => t == s.(wait := (s.wait + 1) % WORD, pc := s.pc[i := LastLook])
    case LastLook => t == s.(pc := s.pc[i := if s.lock == 0 then LastSwap else Sleep])
    case LastSwap => if s.lock == 0 then t == s.(lock := me, pc := s.pc[i := Retract])
      else t == s.(pc := s.pc[i := Sleep])
    case Retract => t == s.(wait := (s.wait - 1) % WORD, pc := s.pc[i := Holding])
    case Sleep => if c.Interrupt? then t == s else s.sem > 0 && t == s.(sem := s.sem - 1, pc := s.pc[i := Look])
    case Holding => (c.Unlock? && t == Freed(s, i, me)) || (c.Die? && t == s.(pc := s.pc[i := Gone]))
    case Gone => false
    case WakeLook => t == s.(pc := s.pc[i := if s.semaphore && Signed(s.wait) > 0 then WakeSwap(s.wait) else Idle])
    case WakeSwap(w) =>
      if s.wait == w then t == s.(wait := (w - 1) % WORD, pc := s.pc[i := Post]) else t == s.(pc := s.pc[i := WakeLook])
    case Post => t == s.(sem := s.sem + 1, pc := s.pc[i := Idle])
  }

  /** A failed attempt: spin or yield and look again, or go and wait for the semaphore. */
  predicate Failed(s: State, t: State, i: nat, c: Choice)
    requires i < |s.pc|
  {
    (c.Spin? && t == s.(pc := s.pc[i := Look])) || (c.Enqueue? && s.semaphore && t == s.(pc := s.pc[i := Register]))
  }

  /** ngx_atomic_cmp_set(mtx->lock, pid, 0), then ngx_shmtx_wakeup if the lock was that process's. */
  function Freed(s: State, i: nat, pid: int): State
    requires i < |s.pc|
  {
    if s.lock == pid then s.(lock := 0, pc := s.pc[i := WakeLook]) else s.(pc := s.pc[i := Idle])
  }

  /** A run of any length, of any processes in any order. */
  predicate Run(states: seq<State>, who: seq<nat>, choices: seq<Choice>) {
    && |states| > 0 && |who| == |choices| == |states| - 1 && states[0].Initial()
    && forall k {:trigger states[k + 1]} :: 0 <= k < |who| ==>
         who[k] < |states[k].pc| == |states[k].pid| && Step(states[k], states[k + 1], who[k], choices[k])
  }

  /* ---- counting processes ---- */

  function One(b: bool): nat { if b then 1 else 0 }

  function Waiters(pc: seq<Pc>): nat {
    if pc == [] then 0 else Waiters(pc[..|pc| - 1]) + One(pc[|pc| - 1].Registered())
  }

  function Posts(pc: seq<Pc>): nat {
    if pc == [] then 0 else Posts(pc[..|pc| - 1]) + One(pc[|pc| - 1].Post?)
  }

  lemma {:induction false} Moved(pc: seq<Pc>, i: nat, to: Pc)
    requires i < |pc|
    ensures Waiters(pc[i := to]) == Waiters(pc) + One(to.Registered()) - One(pc[i].Registered())
    ensures Posts(pc[i := to]) == Posts(pc) + One(to.Post?) - One(pc[i].Post?)
  {
    var last := |pc| - 1;
    if i < last {
      Moved(pc[..last], i, to);
      assert pc[i := to][..last] == pc[..last][i := to];
    } else {
      assert pc[i := to][..last] == pc[..last];
    }
  }

  lemma {:induction false} WaitersBound(pc: seq<Pc>)
    ensures Waiters(pc) <= |pc|
  {
    if pc != [] {
      WaitersBound(pc[..|pc| - 1]);
    }
  }

  lemma {:induction false} SomePost(pc: seq<Pc>) returns (i: nat)
    requires Posts(pc) > 0
    ensures i < |pc| && pc[i].Post?
  {
    var last := |pc| - 1;
    if pc[last].Post? {
      i := last;
    } else {
      i := SomePost(pc[..last]);
    }
  }

  lemma {:induction false} SomeWaiter(pc: seq<Pc>, i: nat)
    requires i < |pc| && pc[i].Registered()
    ensures Waiters(pc) > 0
  {
    if i < |pc| - 1 {
      SomeWaiter(pc[..|pc| - 1], i);
    }
  }

  lemma {:induction false} Nobody(pc: seq<Pc>)
    requires forall i :: 0 <= i < |pc| ==> pc[i] == Idle
    ensures Waiters(pc) == 0 && Posts(pc) == 0
  {
    if pc != [] {
      Nobody(pc[..|pc| - 1]);
    }
  }

  /* ---- what every step keeps ---- */

  /** The lock word names the process that has the lock. */
  ghost predicate Owned(s: State) {
    && |s.pc| == |s.pid|
    && (forall i {:trigger s.pc[i]} :: 0 <= i < |s.pc| ==>
          && (s.pc[i].HasLock() ==> s.lock == s.pid[i])
          && (s.lock == s.pid[i] ==> s.pc[i].HasLock() || s.pc[i].Gone?))
    && (s.lock != 0 ==> exists i :: 0 <= i < |s.pid| && s.pid[i] == s.lock)
  }

  /** A process that is about to lower the waiter counter saw it positive. */
  ghost predicate SawWaiters(s: State) {
    forall i {:trigger s.pc[i]} :: 0 <= i < |s.pc| && s.pc[i].WakeSwap? ==> 0 < s.pc[i].wait < WORD / 2
  }

  /** The waiter counter, the semaphore and the posts in flight make up the registered waiters. */
  ghost predicate Balanced(s: State) {
    && 0 <= s.wait < WORD && s.sem + Posts(s.pc) <= |s.pc|
    && Signed(s.wait) + s.sem + Posts(s.pc) == Waiters(s.pc)
  }

  ghost predicate SomeoneActive(s: State) {
    exists i :: 0 <= i < |s.pc| && s.pc[i].Active()
  }

  /** While the lock is free and a process sleeps, it can be woken or somebody will see to it. */
  ghost predicate NotForgotten(s: State) {
    s.lock == 0 && (exists i :: 0 <= i < |s.pc| && s.pc[i] == Sleep) ==> s.sem > 0 || SomeoneActive(s)
  }

  /** Without a semaphore nobody waits for it. */
  ghost predicate NoneWaits(s: State) {
    !s.semaphore ==> forall i {:trigger s.pc[i]} :: 0 <= i < |s.pc| ==> !s.pc[i].Registered() && !s.pc[i].Register?
  }

  ghost predicate Invariant(s: State) {
    s.WellFormed() && Owned(s) && SawWaiters(s) && Balanced(s) && NotForgotten(s) && NoneWaits(s)
  }

  /** A step moves one process. */
  lemma OneMoves(s: State, t: State, i: nat, c: Choice)
    requires i < |s.pc| == |s.pid| && Step(s, t, i, c)
    ensures |t.pc| == |s.pc| && t.pc == s.pc[i := t.pc[i]] && t.pid == s.pid && t.semaphore == s.semaphore
  {
  }

  lemma StepCounts(s: State, t: State, i: nat, c: Choice)
    requires s.WellFormed() && i < |s.pc| && Step(s, t, i, c)
    ensures |t.pc| == |s.pc| && t.WellFormed()
    ensures Waiters(t.pc) == Waiters(s.pc) + One(t.pc[i].Registered()) - One(s.pc[i].Registered())
    ensures Posts(t.pc) == Posts(s.pc) + One(t.pc[i].Post?) - One(s.pc[i].Post?)
  {
    OneMoves(s, t, i, c);
    Moved(s.pc, i, t.pc[i]);
  }

  lemma OwnedKept(s: State, t: State, i: nat, c: Choice)
    requires s.WellFormed() && i < |s.pc| && Step(s, t, i, c) && Owned(s)
    ensures Owned(t)
  {
    OneMoves(s, t, i, c);
    forall k | 0 <= k < |t.pc|
      ensures t.pc[k].HasLock() ==> t.lock == t.pid[k]
      ensures t.lock == t.pid[k] ==> t.pc[k].HasLock() || t.pc[k].Gone?
    {
      var was, mine := s.pc[k], s.pc[i];
    }
    if t.lock != 0 && t.lock != s.lock {
      assert t.pid[i] == t.lock;
    }
  }

  lemma SawWaitersKept(s: State, t: State, i: nat, c: Choice)
    requires s.WellFormed() && i < |s.pc| && Step(s, t, i, c) && SawWaiters(s) && 0 <= s.wait < WORD
    ensures SawWaiters(t)
  {
    OneMoves(s, t, i, c);
    forall k | 0 <= k < |t.pc| && t.pc[k].WakeSwap? ensures 0 < t.pc[k].wait < WORD / 2 {
      var was := s.pc[k];
    }
  }

  lemma BalancedKept(s: State, t: State, i: nat, c: Choice)
    requires s.WellFormed() && i < |s.pc| && Step(s, t, i, c) && SawWaiters(s) && Balanced(s)
    ensures Balanced(t)
  {
    StepCounts(s, t, i, c);
    WaitersBound(s.pc);
    WaitersBound(t.pc);
    var was := s.pc[i];
    RolesMove(s, t, i, c);
    PostsMove(s, t, i, c);
    CounterMoves(s, t, i, c);
  }

  lemma Up(w: int)
    requires 0 <= w < WORD && Signed(w) < WORD / 2 - 1
    ensures 0 <= (w + 1) % WORD < WORD && Signed((w + 1) % WORD) == Signed(w) + 1
  {
  }

  lemma Down(w: int)
    requires 0 <= w < WORD && Signed(w) > -WORD / 2
    ensures 0 <= (w - 1) % WORD < WORD && Signed((w - 1) % WORD) == Signed(w) - 1
  {
  }

  /** What a step does to the counter. */
  lemma CounterMoves(s: State, t: State, i: nat, c: Choice)
    requires i < |s.pc| == |s.pid| && Step(s, t, i, c) && 0 <= s.wait < WORD
    requires -WORD / 2 < Signed(s.wait) < WORD / 2 - 1
    requires s.pc[i].WakeSwap? ==> s.pc[i].wait == Signed(s.pc[i].wait)
    ensures 0 <= t.wait < WORD
    ensures Signed(t.wait) == Signed(s.wait) +
      (match s.pc[i]
       case Register => 1
       case Retract => -1
       case WakeSwap(w) => if s.wait == w then -1 else 0
       case _ => 0)
  {
    Up(s.wait);
    Down(s.wait);
  }

  /** What a step does to the semaphore and the waiters. */
  lemma RolesMove(s: State, t: State, i: nat, c: Choice)
    requires i < |s.pc| == |s.pid| && Step(s, t, i, c)
    ensures |t.pc| == |s.pc|
    ensures var woken := s.pc[i] == Sleep && t.pc[i] == Look;
      && t.sem == s.sem + One(s.pc[i].Post?) - One(woken)
      && One(t.pc[i].Registered()) - One(s.pc[i].Registered()) ==
         One(s.pc[i].Register?) - One(s.pc[i].Retract?) - One(woken)
  {
  }

  /** What it does to the posts. */
  lemma PostsMove(s: State, t: State, i: nat, c: Choice)
    requires i < |s.pc| == |s.pid| && Step(s, t, i, c)
    ensures |t.pc| == |s.pc|
    ensures One(t.pc[i].Post?) - One(s.pc[i].Post?) ==
        One(s.pc[i].WakeSwap? && s.pc[i].wait == s.wait) - One(s.pc[i].Post?)
  {
  }

  /** A process that stops being active while the lock is free leaves a post behind, or nobody to wake. */
  lemma Leaving(s: State, t: State, i: nat, c: Choice)
    requires s.WellFormed() && i < |s.pc| && Step(s, t, i, c) && NoneWaits(s)
    requires t.lock == 0 && t.sem == 0 && !t.pc[i].Active() && s.pc[i].Active()
    ensures s.pc[i] == WakeLook && t == s.(pc := s.pc[i := Idle]) && !(s.semaphore && Signed(s.wait) > 0)
  {
  }

  lemma NotForgottenKept(s: State, t: State, i: nat, c: Choice)
    requires Invariant(s) && i < |s.pc| && Step(s, t, i, c) && Balanced(t)
    ensures NotForgotten(t)
  {
    hide Step;
    OneMoves(s, t, i, c);
    if t.lock == 0 && t.sem == 0 && exists k :: 0 <= k < |t.pc| && t.pc[k] == Sleep {
      var k :| 0 <= k < |t.pc| && t.pc[k] == Sleep;
      if !t.pc[i].Active() {
        SomeWaiter(t.pc, k);
        if Posts(t.pc) > 0 {
          var p := SomePost(t.pc);
        } else if s.pc[i].Active() {
          Leaving(s, t, i, c);
        } else {
          Elsewhere(s, t, i, c, k);
        }
      }
    }
  }

  /** Another process was active before the step, and still is. */
  lemma Elsewhere(s: State, t: State, i: nat, c: Choice, k: nat)
    requires Invariant(s) && i < |s.pc| && Step(s, t, i, c) && k < |t.pc| && t.pc[k] == Sleep
    requires t.lock == 0 && t.sem == 0 && !t.pc[i].Active() && !s.pc[i].Active()
    ensures SomeoneActive(t)
  {
    OneMoves(s, t, i, c);
    assert s.pc[k] == Sleep && s.lock == 0 && s.sem == 0;
    var j :| 0 <= j < |s.pc| && s.pc[j].Active();
    assert t.pc[j].Active();
  }

  lemma NoneWaitsKept(s: State, t: State, i: nat, c: Choice)
    requires Invariant(s) && i < |s.pc| && Step(s, t, i, c)
    ensures NoneWaits(t)
  {
    OneMoves(s, t, i, c);
    forall k | 0 <= k < |t.pc| && !t.semaphore ensures !t.pc[k].Registered() && !t.pc[k].Register? {
      var was, mine := s.pc[k], s.pc[i];
    }
  }

  lemma BalancedRange(s: State)
    requires Balanced(s)
    ensures 0 <= s.wait < WORD
  {
  }

  lemma StepKeeps(s: State, t: State, i: nat, c: Choice)
    requires Invariant(s) && i < |s.pc| && Step(s, t, i, c)
    ensures Invariant(t)
  {
    hide Step;
    hide Balanced;
    hide Owned;
    hide NotForgotten;
    BalancedRange(s);
    StepCounts(s, t, i, c);
    OwnedKept(s, t, i, c);
    SawWaitersKept(s, t, i, c);
    BalancedKept(s, t, i, c);
    NotForgottenKept(s, t, i, c);
    NoneWaitsKept(s, t, i, c);
  }

  lemma {:induction false} Reachable(states: seq<State>, who: seq<nat>, choices: seq<Choice>, k: nat)
    requires Run(states, who, choices) && k < |states|
    ensures Invariant(states[k])
  {
    if k == 0 {
      Nobody(states[0].pc);
    } else {
      Reachable(states, who, choices, k - 1);
      var j := k - 1;
      var next := states[j + 1];
      StepKeeps(states[k - 1], states[k], who[k - 1], choices[k - 1]);
    }
  }

  /* ---- what holds in every run ---- */

  /** At most one process has the lock. */
  lemma MutualExclusion(states: seq<State>, who: seq<nat>, choices: seq<Choice>, k: nat, i: nat, j: nat)
    requires Run(states, who, choices) && k < |states| && i < j < |states[k].pc|
    ensures !(states[k].pc[i].HasLock() && states[k].pc[j].HasLock())
  {
    Reachable(states, who, choices, k);
  }

  /** The counter, however negative, the semaphore and the posts in flight always make up the registered waiters,
      and the surplus of the semaphore never exceeds the number of processes. */
  lemma Conservation(states: seq<State>, who: seq<nat>, choices: seq<Choice>, k: nat)
    requires Run(states, who, choices) && k < |states|
    ensures var s := states[k];
      Signed(s.wait) + s.sem + Posts(s.pc) == Waiters(s.pc) && s.sem + Posts(s.pc) <= |s.pc|
        && Signed(s.wait) >= -|s.pc|
  {
    Reachable(states, who, choices, k);
  }

  /** No wakeup is lost: it never happens that the lock is free, a process sleeps on an empty semaphore, and every
      other process is idle, asleep or merely trying the lock once. */
  lemma NoLostWakeup(states: seq<State>, who: seq<nat>, choices: seq<Choice>, k: nat, i: nat)
    requires Run(states, who, choices) && k < |states| && i < |states[k].pc|
    requires states[k].lock == 0 && states[k].pc[i] == Sleep && states[k].sem == 0
    ensures exists j :: 0 <= j < |states[k].pc| && states[k].pc[j].Active()
  {
    Reachable(states, who, choices, k);
  }

  /* ---- what the calls answer and do ---- */

  /** The sign of a machine word. */
  lemma SignedValue(w: int)
    requires 0 <= w < 0x1_0000_0000_0000_0000
    ensures -0x8000_0000_0000_0000 <= Signed(w) < 0x8000_0000_0000_0000
    ensures (Signed(w) - w) % 0x1_0000_0000_0000_0000 == 0
    ensures Signed(0) == 0 && Signed(0xFFFF_FFFF_FFFF_FFFF) == -1
  {
  }

  /** Process i makes n steps in a row. */
  predicate Alone(who: seq<nat>, k: nat, n: nat, i: nat) {
    k + n <= |who| && forall m {:trigger who[m]} :: k <= m < k + n ==> who[m] == i
  }

  /** Step k of a run is process i's. */
  lemma ItsStep(states: seq<State>, who: seq<nat>, choices: seq<Choice>, k: nat, i: nat)
    requires Run(states, who, choices) && Alone(who, k, 1, i)
    ensures i < |states[k].pc| == |states[k].pid| && Step(states[k], states[k + 1], i, choices[k])
    ensures Invariant(states[k])
  {
    Reachable(states, who, choices, k);
    assert who[k] == i;
    var next := states[k + 1];
  }

  /** A process calls ngx_shmtx_lock or ngx_shmtx_trylock. */
  lemma Called(states: seq<State>, who: seq<nat>, choices: seq<Choice>, k: nat, i: nat)
    requires Run(states, who, choices) && Alone(who, k, 1, i) && i < |states[k].pc| && states[k].pc[i] == Idle
    ensures var s := states[k];
      && (choices[k] == Lock ==> states[k + 1] == s.(pc := s.pc[i := Look]))
      && (choices[k] == TryLock ==> states[k + 1] == s.(pc := s.pc[i := TryLook]))
  {
    ItsStep(states, who, choices, k, i);
  }

  /** Whatever the other processes do meanwhile, trylock answers yes exactly if the lock is free at its last step,
      and takes the lock then; if it answers no, it has changed nothing. */
  lemma TryLockAnswer(states: seq<State>, who: seq<nat>, choices: seq<Choice>, k: nat, n: nat, i: nat)
    requires Run(states, who, choices) && k < n < |states| && i < |states[k].pc| == |states[n].pc|
    requires states[k].pc[i] == TryLook
    requires forall m {:trigger states[m].pc} :: k <= m < n ==>
      i < |states[m].pc| && (states[m].pc[i] == TryLook || states[m].pc[i] == TrySwap)
    requires states[n].pc[i] != TryLook && states[n].pc[i] != TrySwap
    ensures |states[n - 1].pc| == |states[n - 1].pid|
    ensures var s := states[n - 1];
      states[n] == if s.lock == 0 then s.(lock := s.pid[i], pc := s.pc[i := Holding]) else s.(pc := s.pc[i := Idle])
    ensures (forall m {:trigger states[m].lock} :: k <= m < n ==> states[m].lock == 0) ==> states[n].pc[i] == Holding
  {
    var m := n - 1;
    Reachable(states, who, choices, m);
    assert states[m + 1] == states[n];
    OneMoves(states[m], states[n], who[m], choices[m]);
  }

  /** From a free lock, trylock takes two steps to the lock. */
  lemma TryLockFree(states: seq<State>, who: seq<nat>, choices: seq<Choice>, k: nat, i: nat)
    requires Run(states, who, choices) && Alone(who, k, 2, i) && i < |states[k].pc|
    requires states[k].lock == 0 && states[k].pc[i] == TryLook
    ensures |states[k].pid| == |states[k].pc|
    ensures states[k + 2] == states[k].(lock := states[k].pid[i], pc := states[k].pc[i := Holding])
  {
    ItsStep(states, who, choices, k, i);
    ItsStep(states, who, choices, k + 1, i);
    assert states[k].pc[i := TrySwap][i := Holding] == states[k].pc[i := Holding];
  }

  /** And so does lock. */
  lemma LockFree(states: seq<State>, who: seq<nat>, choices: seq<Choice>, k: nat, i: nat)
    requires Run(states, who, choices) && Alone(who, k, 2, i) && i < |states[k].pc|
    requires states[k].lock == 0 && states[k].pc[i] == Look
    ensures |states[k].pid| == |states[k].pc|
    ensures states[k + 2] == states[k].(lock := states[k].pid[i], pc := states[k].pc[i := Holding])
  {
    ItsStep(states, who, choices, k, i);
    ItsStep(states, who, choices, k + 1, i);
    assert states[k].pc[i := Swap][i := Holding] == states[k].pc[i := Holding];
  }

  /** A registered process that finds the lock free takes it in three steps, and takes its registration back. */
  lemma LockLate(states: seq<State>, who: seq<nat>, choices: seq<Choice>, k: nat, i: nat)
    requires Run(states, who, choices) && Alone(who, k, 3, i) && i < |states[k].pc|
    requires states[k].lock == 0 && states[k].pc[i] == LastLook
    ensures |states[k].pid| == |states[k].pc|
    ensures var s, t := states[k], states[k + 3];
      t == s.(lock := s.pid[i], wait := t.wait, pc := s.pc[i := Holding]) && Signed(t.wait) == Signed(s.wait) - 1
  {
    var s := states[k];
    ItsStep(states, who, choices, k, i);
    ItsStep(states, who, choices, k + 1, i);
    ItsStep(states, who, choices, k + 2, i);
    assert s.pc[i := LastSwap][i := Retract][i := Holding] == s.pc[i := Holding];
    WaitersBound(s.pc);
    Down(s.wait);
  }

  /** A process registers as a waiter. */
  lemma Registers(states: seq<State>, who: seq<nat>, choices: seq<Choice>, k: nat, i: nat)
    requires Run(states, who, choices) && Alone(who, k, 1, i) && i < |states[k].pc| && states[k].pc[i] == Register
    ensures var s, t := states[k], states[k + 1];
      t == s.(wait := t.wait, pc := s.pc[i := LastLook]) && Signed(t.wait) == Signed(s.wait) + 1
  {
    ItsStep(states, who, choices, k, i);
    WaitersBound(states[k].pc);
    Up(states[k].wait);
  }

  /** While the lock is taken nobody changes anything shared by trying to take it: trylock answers no, lock looks
      again, or registers if there is a semaphore, and a registered process goes to sleep. */
  lemma LockTaken(states: seq<State>, who: seq<nat>, choices: seq<Choice>, k: nat, i: nat)
    requires Run(states, who, choices) && Alone(who, k, 1, i) && i < |states[k].pc| && states[k].lock != 0
    ensures var s, t := states[k], states[k + 1];
      match s.pc[i]
      case TryLook => t == s.(pc := s.pc[i := Idle])
      case TrySwap => t == s.(pc := s.pc[i := Idle])
      case Look => t == s || (s.semaphore && t == s.(pc := s.pc[i := Register]))
      case Swap => t == s.(pc := s.pc[i := Look]) || (s.semaphore && t == s.(pc := s.pc[i := Register]))
      case LastLook => t == s.(pc := s.pc[i := Sleep])
      case LastSwap => t == s.(pc := s.pc[i := Sleep])
      case _ => true
  {
    ItsStep(states, who, choices, k, i);
    assert states[k].pc[i := states[k].pc[i]] == states[k].pc;
  }

  /** ngx_shmtx_lock returns to a process that has the lock, and to no other. */
  lemma LockReturns(states: seq<State>, who: seq<nat>, choices: seq<Choice>, k: nat, i: nat)
    requires Run(states, who, choices) && k + 1 < |states| && i < |states[k].pc|
    requires states[k].pc[i].Registered() || states[k].pc[i].Look? || states[k].pc[i].Swap? || states[k].pc[i].Register?
    ensures |states[k + 1].pc| == |states[k + 1].pid| == |states[k].pc|
    ensures var pc := states[k + 1].pc[i];
      || (pc == Holding && states[k + 1].lock == states[k + 1].pid[i])
      || pc.Registered() || pc.Look? || pc.Swap? || pc.Register?
  {
    Reachable(states, who, choices, k);
    Reachable(states, who, choices, k + 1);
    OneMoves(states[k], states[k + 1], who[k], choices[k]);
  }

  /** The process that has the lock frees it, and goes to see whether it has to wake another. */
  lemma UnlockFrees(states: seq<State>, who: seq<nat>, choices: seq<Choice>, k: nat, i: nat)
    requires Run(states, who, choices) && Alone(who, k, 1, i) && i < |states[k].pc|
    requires states[k].pc[i] == Holding && choices[k] == Unlock
    ensures states[k + 1] == states[k].(lock := 0, pc := states[k].pc[i := WakeLook])
  {
    ItsStep(states, who, choices, k, i);
  }

  /** Process i unlocks by force for process j, which died holding the lock: the lock becomes free if it is still
      that of j, and nothing changes otherwise. */
  lemma ForceUnlockFrees(states: seq<State>, who: seq<nat>, choices: seq<Choice>, k: nat, i: nat, j: nat)
    requires Run(states, who, choices) && Alone(who, k, 1, i) && i < |states[k].pc| && j < |states[k].pid|
    requires states[k].pc[i] == Idle && choices[k] == ForceUnlock(j)
    ensures var s := states[k];
      states[k + 1] == if s.lock == s.pid[j] then s.(lock := 0, pc := s.pc[i := WakeLook]) else s
  {
    ItsStep(states, who, choices, k, i);
    assert states[k].pc[i := Idle] == states[k].pc;
  }

  /** ngx_shmtx_wakeup: with a semaphore and waiters, an undisturbed process takes one from the counter and adds
      one to the semaphore; otherwise it returns at once. */
  lemma WakesOne(states: seq<State>, who: seq<nat>, choices: seq<Choice>, k: nat, i: nat)
    requires Run(states, who, choices) && Alone(who, k, 3, i) && i < |states[k].pc| && states[k].pc[i] == WakeLook
    ensures var s, t := states[k], states[k + 3];
      if s.semaphore && Signed(s.wait) > 0 then
        && t == s.(wait := t.wait, sem := s.sem + 1, pc := s.pc[i := Idle])
        && Signed(t.wait) == Signed(s.wait) - 1
      else
        states[k + 1] == s.(pc := s.pc[i := Idle])
  {
    var s := states[k];
    ItsStep(states, who, choices, k, i);
    if s.semaphore && Signed(s.wait) > 0 {
      ItsStep(states, who, choices, k + 1, i);
      ItsStep(states, who, choices, k + 2, i);
      assert s.pc[i := WakeSwap(s.wait)][i := Post][i := Idle] == s.pc[i := Idle];
      Down(s.wait);
    }
  }

  /** A sleeping process goes on exactly when it takes one from the semaphore; a signal does not end its sleep. */
  lemma Awakes(states: seq<State>, who: seq<nat>, choices: seq<Choice>, k: nat, i: nat)
    requires Run(states, who, choices) && Alone(who, k, 1, i) && i < |states[k].pc| && states[k].pc[i] == Sleep
    ensures var s, t := states[k], states[k + 1];
      if t.pc[i] == Sleep then t == s else s.sem > 0 && t == s.(sem := s.sem - 1, pc := s.pc[i := Look])
  {
    ItsStep(states, who, choices, k, i);
  }

  /* ---- nobody is stuck ---- */

  ghost predicate CanGoOn(s: State, i: nat)
    requires i < |s.pc| == |s.pid|
  {
    exists t, c :: Step(s, t, i, c) && |t.pc| == |s.pc| && t.pc[i] != s.pc[i]
  }

  /** A process can go on unless it is dead, asleep on an empty semaphore, or spinning for a taken lock that has no
      semaphore. */
  lemma GoesOn(s: State, i: nat)
    requires i < |s.pc| == |s.pid|
    ensures CanGoOn(s, i) <==>
            !(s.pc[i] == Gone || (s.pc[i] == Sleep && s.sem == 0) || (s.pc[i] == Look && s.lock != 0 && !s.semaphore))
  {
    var me := s.pid[i];
    match s.pc[i]
    case Idle => Goes(s, s.(pc := s.pc[i := Look]), i, Lock);
    case TryLook => Goes(s, s.(pc := s.pc[i := if s.lock == 0 then TrySwap else Idle]), i, Go);
    case TrySwap =>
      if s.lock == 0 {
        Goes(s, s.(lock := me, pc := s.pc[i := Holding]), i, Go);
      } else {
        Goes(s, s.(pc := s.pc[i := Idle]), i, Go);
      }
    case Look =>
      if s.lock == 0 {
        Goes(s, s.(pc := s.pc[i := Swap]), i, Go);
      } else if s.semaphore {
        Goes(s, s.(pc := s.pc[i := Register]), i, Enqueue);
      }
    case Swap =>
      if s.lock == 0 {
        Goes(s, s.(lock := me, pc := s.pc[i := Holding]), i, Go);
      } else {
        Goes(s, s.(pc := s.pc[i := Look]), i, Spin);
      }
    case Register => Goes(s, s.(wait := (s.wait + 1) % WORD, pc := s.pc[i := LastLook]), i, Go);
    case LastLook => Goes(s, s.(pc := s.pc[i := if s.lock == 0 then LastSwap else Sleep]), i, Go);
    case LastSwap =>
      if s.lock == 0 {
        Goes(s, s.(lock := me, pc := s.pc[i := Retract]), i, Go);
      } else {
        Goes(s, s.(pc := s.pc[i := Sleep]), i, Go);
      }
    case Retract => Goes(s, s.(wait := (s.wait - 1) % WORD, pc := s.pc[i := Holding]), i, Go);
    case Sleep =>
      if s.sem > 0 {
        Goes(s, s.(sem := s.sem - 1, pc := s.pc[i := Look]), i, Go);
      }
    case Holding => Goes(s, Freed(s, i, me), i, Unlock);
    case Gone =>
    case WakeLook =>
      Goes(s, s.(pc := s.pc[i := if s.semaphore && Signed(s.wait) > 0 then WakeSwap(s.wait) else Idle]), i, Go);
    case WakeSwap(w) =>
      if s.wait == w {
        Goes(s, s.(wait := (w - 1) % WORD, pc := s.pc[i := Post]), i, Go);
      } else {
        Goes(s, s.(pc := s.pc[i := WakeLook]), i, Go);
      }
    case Post => Goes(s, s.(sem := s.sem + 1, pc := s.pc[i := Idle]), i, Go);
  }

  lemma Goes(s: State, t: State, i: nat, c: Choice)
    requires i < |s.pc| == |s.pid| && Step(s, t, i, c) && |t.pc| == |s.pc| && t.pc[i] != s.pc[i]
    ensures CanGoOn(s, i)
  {
  }

  /** No run ends in a deadlock: while a process is in one of the calls, it or another one that is not idle can go
      on, unless the lock is that of a process that died. */
  lemma NoDeadlock(states: seq<State>, who: seq<nat>, choices: seq<Choice>, k: nat, i: nat)
    requires Run(states, who, choices) && k < |states| && i < |states[k].pc| == |states[k].pid|
    requires states[k].pc[i] != Idle && states[k].pc[i] != Gone
    requires forall j {:trigger states[k].pid[j]} :: 0 <= j < |states[k].pid| && states[k].pid[j] == states[k].lock ==>
      states[k].pc[j] != Gone
    ensures exists j :: 0 <= j < |states[k].pc| && states[k].pc[j] != Idle && CanGoOn(states[k], j)
  {
    hide Step;
    hide CanGoOn;
    var s := states[k];
    Reachable(states, who, choices, k);
    GoesOn(s, i);
    if s.lock != 0 {
      var j :| 0 <= j < |s.pid| && s.pid[j] == s.lock;
      assert s.pc[j].HasLock();
      GoesOn(s, j);
    } else if s.pc[i] == Sleep && s.sem == 0 {
      var j :| 0 <= j < |s.pc| && s.pc[j].Active();
      GoesOn(s, j);
    }
  }
}
