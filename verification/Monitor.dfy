/** One lock and any number of condition variables on it (threads/synch.c), used by any number
    of threads, as a state machine over the interrupts-off sections and the single stores
    between them.

    A thread inside cond_wait owns one waiter element, which lives on its stack, so waiter
    elements are identified by thread.  `owner`, `ticket`, `next` and `popLog` are history:
    owner is the thread between its down and its up of the lock's semaphore, each cond_wait
    call draws a ticket of its condition when it queues its element, and each pop by
    cond_signal logs, at the condition, the ticket it removed. */
module Monitor {
  import opened Options
  import opened Semaphore

  /** Where a thread stands.  `w` says that the lock is being reacquired, or released, on
      behalf of cond_wait. */
  datatype Place =
    | Outside                          // not using the monitor
    | LockBlocked(w: bool)             // on the lock's waiters list
    | LockWoken(w: bool)               // unblocked, to re-test the lock's semaphore
    | GotLock(w: bool)                 // sema_down done, lock->holder not yet stored
    | Holding                          // in the critical section
    | Queued                           // cond_wait: element pushed, lock not yet released
    | Releasing(w: bool)               // lock->holder cleared, sema_up to come
    | AboutToWait                      // cond_wait: lock released, sema_down to come
    | WaitBlocked                      // on its own element's waiters list
    | WaitWoken                        // unblocked, to re-test its own element
    | Reacquiring                      // cond_wait: signalled, lock_acquire to come
    | Signalling(u: Tid, back: Place)  // element of u popped, sema_up on it to come, then back
    | Broadcasting(c: nat, upto: nat)  // at the loop test of cond_broadcast on condition c

  /** A condition variable: its waiters list, the next ticket to draw and the tickets popped. */
  datatype Condition = Condition(waiters: seq<Tid>, next: nat, popLog: seq<nat>)

  /** The number-th ticket of condition c. */
  datatype Ticket = Ticket(c: nat, number: nat)

  datatype System = System(
    lock: Sema, holder: Option<Tid>,
    conds: seq<Condition>, elem: map<Tid, Sema>,
    at: map<Tid, Place>,
    owner: Option<Tid>, ticket: map<Tid, Ticket>)

  datatype Step =
    | Acquire(t: Tid) | TryAcquire(t: Tid) | LockResume(t: Tid) | Reacquire(t: Tid)
    | StoreHolder(t: Tid) | ClearHolder(t: Tid) | ReleaseUp(t: Tid)
    | WaitQueue(t: Tid, c: nat) | WaitDown(t: Tid) | WaitResume(t: Tid)
    | Signal(t: Tid, c: nat) | SignalUp(t: Tid)
    | Broadcast(t: Tid, c: nat) | BroadcastTest(t: Tid)

  /** cond_init. */
  const NoWaiters := Condition([], 0, [])

  function Init(threads: set<Tid>, conditions: nat): System
  {
    System(Sema(1, []), None, seq(conditions, _ => NoWaiters), map[], map t | t in threads :: Outside, None, map[])
  }

  /** Steps are enabled by the thread's place alone; a call names a condition there is. */
  predicate Enabled(s: System, step: Step)
  {
    && step.t in s.at
    && match step
       case Acquire(t) => s.at[t] == Outside
       case TryAcquire(t) => s.at[t] == Outside
       case LockResume(t) => s.at[t].LockWoken?
       case Reacquire(t) => s.at[t] == Reacquiring
       case StoreHolder(t) => s.at[t].GotLock?
       case ClearHolder(t) => s.at[t] == Holding || s.at[t] == Queued
       case ReleaseUp(t) => s.at[t].Releasing?
       case WaitQueue(t, c) => s.at[t] == Holding && c < |s.conds|
       case WaitDown(t) => s.at[t] == AboutToWait
       case WaitResume(t) => s.at[t] == WaitWoken
       case Signal(t, c) => s.at[t] == Holding && c < |s.conds|
       case SignalUp(t) => s.at[t].Signalling?
       case Broadcast(t, c) => s.at[t] == Holding && c < |s.conds|
       case BroadcastTest(t) => s.at[t].Broadcasting?
  }

  /** What the source asserts when a step runs, and what it takes for granted: that a waiter
      element is reached only while its owner is still inside cond_wait, and that a thread
      taken off a waiters list is blocked. */
  predicate Safe(s: System, step: Step)
    requires Enabled(s, step)
  {
    match step
    case Acquire(t) => s.holder != Some(t)
    case TryAcquire(t) => s.holder != Some(t)
    case LockResume(t) => true
    case Reacquire(t) => s.holder != Some(t)
    case StoreHolder(t) => true
    case ClearHolder(t) => s.holder == Some(t)
    case ReleaseUp(t) =>
      s.lock.waiters != [] ==> s.lock.waiters[0] in s.at && s.at[s.lock.waiters[0]].LockBlocked?
    case WaitQueue(t, c) => s.holder == Some(t)
    case WaitDown(t) => t in s.elem
    case WaitResume(t) => t in s.elem
    case Signal(t, c) => s.holder == Some(t) && FrontLive(s, s.conds[c])
    case SignalUp(t) =>
      var u := s.at[t].u;
      && u in s.at && Waiting(s.at[u]) && u in s.elem
      && (s.elem[u].waiters != [] ==> s.elem[u].waiters[0] in s.at && s.at[s.elem[u].waiters[0]] == WaitBlocked)
    case Broadcast(t, c) => true
    case BroadcastTest(t) =>
      var c := s.at[t].c;
      c < |s.conds| && (s.conds[c].waiters != [] ==> s.holder == Some(t) && FrontLive(s, s.conds[c]))
  }

  predicate FrontLive(s: System, q: Condition)
  {
    q.waiters != [] ==> q.waiters[0] in s.at && Waiting(s.at[q.waiters[0]]) && q.waiters[0] in s.ticket
  }

  /** One test of the lock's semaphore by t. */
  function LockTest(s: System, t: Tid, w: bool): System
  {
    var (lock, took) := Attempt(s.lock, t);
    s.(lock := lock, owner := if took then Some(t) else s.owner,
       at := s.at[t := if took then GotLock(w) else LockBlocked(w)])
  }

  /** One test of t's own waiter element. */
  function ElemTest(s: System, t: Tid): System
    requires t in s.elem
  {
    var (e, took) := Attempt(s.elem[t], t);
    s.(elem := s.elem[t := e], at := s.at[t := if took then Reacquiring else WaitBlocked])
  }

  /** cond_signal's list_pop_front: remove the front element and remember it at t. */
  function Pop(s: System, t: Tid, c: nat, back: Place): System
    requires c < |s.conds| && s.conds[c].waiters != [] && s.conds[c].waiters[0] in s.ticket
  {
    var q := s.conds[c];
    var u := q.waiters[0];
    s.(conds := s.conds[c := q.(waiters := q.waiters[1..], popLog := q.popLog + [s.ticket[u].number])],
       at := s.at[t := Signalling(u, back)])
  }

  /** lock_release's sema_up: the front waiter becomes ready and the lock is free. */
  function Release(s: System, t: Tid): System
    requires t in s.at && s.at[t].Releasing?
    requires s.lock.waiters != [] ==> s.lock.waiters[0] in s.at && s.at[s.lock.waiters[0]].LockBlocked?
  {
    var (lock, woken) := Up(s.lock);
    var at := s.at[t := if s.at[t].w then AboutToWait else Outside];
    s.(lock := lock, owner := None,
       at := if woken.Some? then at[woken.value := LockWoken(s.at[woken.value].w)] else at)
  }

  /** cond_wait's sema_init and list_push_back. */
  function Queue(s: System, t: Tid, c: nat): System
    requires c < |s.conds|
  {
    var q := s.conds[c];
    s.(elem := s.elem[t := Sema(0, [])],
       conds := s.conds[c := q.(waiters := q.waiters + [t], next := q.next + 1)],
       ticket := s.ticket[t := Ticket(c, q.next)], at := s.at[t := Queued])
  }

  /** cond_signal's sema_up on the element it popped. */
  function Deliver(s: System, t: Tid, u: Tid, back: Place): System
    requires u in s.elem
  {
    var (e, woken) := Up(s.elem[u]);
    var at := s.at[t := back];
    s.(elem := s.elem[u := e], at := if woken.Some? then at[woken.value := WaitWoken] else at)
  }

  function Move(s: System, t: Tid, p: Place): System { s.(at := s.at[t := p]) }

  function Apply(s: System, step: Step): System
    requires Enabled(s, step) && Safe(s, step)
  {
    match step
    case Acquire(t) => LockTest(s, t, false)
    case TryAcquire(t) => if TryDown(s.lock).1 then LockTest(s, t, false) else s
    case LockResume(t) => LockTest(s, t, s.at[t].w)
    case Reacquire(t) => LockTest(s, t, true)
    case StoreHolder(t) => Move(s, t, Holding).(holder := Some(t))
    case ClearHolder(t) => Move(s, t, Releasing(s.at[t] == Queued)).(holder := None)
    case ReleaseUp(t) => Release(s, t)
    case WaitQueue(t, c) => Queue(s, t, c)
    case WaitDown(t) => ElemTest(s, t)
    case WaitResume(t) => ElemTest(s, t)
    case Signal(t, c) => if s.conds[c].waiters == [] then s else Pop(s, t, c, Holding)
    case SignalUp(t) => Deliver(s, t, s.at[t].u, s.at[t].back)
    case Broadcast(t, c) => Move(s, t, Broadcasting(c, s.conds[c].next))
    case BroadcastTest(t) =>
      if s.conds[s.at[t].c].waiters == [] then Move(s, t, Holding) else Pop(s, t, s.at[t].c, s.at[t])
  }

  // ----- the invariant

  /** Between its sema_down on the lock's semaphore and the matching sema_up. */
  predicate Critical(p: Place)
  {
    p.GotLock? || p.Releasing? || Holds(p)
  }

  /** Between the store to lock->holder and its clearing. */
  predicate Holds(p: Place)
  {
    p == Holding || p == Queued || p.Signalling? || p.Broadcasting?
  }

  /** Inside cond_wait, from queueing the element to taking its unit. */
  predicate Waiting(p: Place)
  {
    p == Queued || p == Releasing(true) || p == AboutToWait || p == WaitBlocked || p == WaitWoken
  }

  /** Inside cond_wait, past its own semaphore. */
  predicate Returning(p: Place)
  {
    p == Reacquiring || p == LockBlocked(true) || p == LockWoken(true) || p == GotLock(true)
  }

  ghost predicate MutexInv(s: System)
  {
    && s.lock.value == (if s.owner.None? then 1 else 0)
    && (s.owner.Some? ==> s.owner.value in s.at)
    && (forall t :: t in s.at ==> (Critical(s.at[t]) <==> s.owner == Some(t)))
    && (s.holder.Some? ==> s.holder.value in s.at)
    && (forall t :: t in s.at ==> (Holds(s.at[t]) <==> s.holder == Some(t)))
  }

  ghost predicate LockQueueInv(s: System)
  {
    && (forall i, j :: 0 <= i < j < |s.lock.waiters| ==> s.lock.waiters[i] != s.lock.waiters[j])
    && (forall t :: t in s.lock.waiters <==> t in s.at && s.at[t].LockBlocked?)
    && (s.lock.waiters != [] && s.lock.value > 0 ==> exists u :: u in s.at && s.at[u].LockWoken?)
  }

  /** The pending-signal ledger of a waiting thread t.  While its element is queued nobody has
      signalled it; once popped it is owed exactly one unit, which is either still in the hands
      of the signaller or already in its element. */
  ghost predicate Ledger(s: System, t: Tid)
    requires t in s.at
  {
    && t in s.elem && t in s.ticket && s.ticket[t].c < |s.conds|
    && s.elem[t].waiters == (if s.at[t] == WaitBlocked then [t] else [])
    && s.elem[t].value == (if Listed(s, t) || Owed(s, t) then 0 else 1)
    && (Listed(s, t) ==> !Owed(s, t))
    && (s.at[t] == Queued || s.at[t] == Releasing(true) ==> Listed(s, t))
    && (s.at[t] == WaitBlocked ==> Listed(s, t) || Owed(s, t))
    && (s.at[t] == WaitWoken ==> !Listed(s, t) && !Owed(s, t))
    && (Listed(s, t) <==> !Popped(s, t))
    && s.ticket[t].number < s.conds[s.ticket[t].c].next
  }

  /** t's element is on the list of the condition that t waits for. */
  predicate Listed(s: System, t: Tid)
  {
    t in s.ticket && s.ticket[t].c < |s.conds| && t in s.conds[s.ticket[t].c].waiters
  }

  /** The condition has popped t's ticket. */
  predicate Popped(s: System, t: Tid)
  {
    t in s.ticket && s.ticket[t].c < |s.conds| && s.ticket[t].number < |s.conds[s.ticket[t].c].popLog|
  }

  /** The lock's holder has popped t's element and not yet upped it. */
  predicate Owed(s: System, t: Tid)
  {
    && s.holder.Some? && s.holder.value in s.at
    && s.at[s.holder.value].Signalling? && s.at[s.holder.value].u == t
  }

  ghost predicate WaitInv(s: System)
  {
    && (forall t :: t in s.at && Waiting(s.at[t]) ==> Ledger(s, t))
    && (forall t :: t in s.at && Returning(s.at[t]) ==> Popped(s, t))
    && (forall u :: Owed(s, u) ==> u in s.at && (s.at[u] == AboutToWait || s.at[u] == WaitBlocked))
  }

  /** Condition c's queue is in ticket order, and its tickets are popped in the order they were
      drawn. */
  ghost predicate InOrder(s: System, c: nat)
    requires c < |s.conds|
  {
    var q := s.conds[c];
    && q.next == |q.popLog| + |q.waiters|
    && (forall i :: 0 <= i < |q.popLog| ==> q.popLog[i] == i)
    && (forall i :: 0 <= i < |q.waiters| ==>
          && q.waiters[i] in s.at && Waiting(s.at[q.waiters[i]])
          && q.waiters[i] in s.ticket && s.ticket[q.waiters[i]] == Ticket(c, |q.popLog| + i))
  }

  /** p is at the loop test of a broadcast whose bound is still the next ticket. */
  predicate Bounded(s: System, p: Place)
  {
    p.Broadcasting? && p.c < |s.conds| && p.upto == s.conds[p.c].next
  }

  ghost predicate FifoInv(s: System)
  {
    && (forall c :: 0 <= c < |s.conds| ==> InOrder(s, c))
    && (forall t :: t in s.at && s.at[t].Broadcasting? ==> Bounded(s, s.at[t]))
    && (forall t :: t in s.at && s.at[t].Signalling? ==> s.at[t].back == Holding || Bounded(s, s.at[t].back))
  }

  ghost predicate Inv(s: System)
  {
    MutexInv(s) && LockQueueInv(s) && WaitInv(s) && FifoInv(s)
  }

  lemma InitInv(threads: set<Tid>, conditions: nat)
    ensures Inv(Init(threads, conditions))
  {}

  /** No assertion of the source fires and no dead waiter element is touched. */
  lemma InvSafe(s: System, step: Step)
    requires Inv(s) && Enabled(s, step)
    ensures Safe(s, step)
  {
    var t := step.t;
    match step
    case Signal(_, c) => FrontSafe(s, c);
    case BroadcastTest(_) => BroadcastSafe(s, t);
    case SignalUp(_) => SignalUpSafe(s, t);
    case WaitDown(_) => assert Ledger(s, t);
    case WaitResume(_) => assert Ledger(s, t);
    case _ => hide WaitInv, FifoInv;
  }

  lemma FrontSafe(s: System, c: nat)
    requires FifoInv(s) && c < |s.conds|
    ensures FrontLive(s, s.conds[c])
  {
    assert InOrder(s, c);
  }

  lemma BroadcastSafe(s: System, t: Tid)
    requires MutexInv(s) && FifoInv(s) && t in s.at && s.at[t].Broadcasting?
    ensures Safe(s, BroadcastTest(t))
  {
    assert Bounded(s, s.at[t]);
    FrontSafe(s, s.at[t].c);
  }

  lemma SignalUpSafe(s: System, t: Tid)
    requires MutexInv(s) && WaitInv(s) && t in s.at && s.at[t].Signalling?
    ensures Safe(s, SignalUp(t))
  {
    assert Owed(s, s.at[t].u);
    assert Ledger(s, s.at[t].u);
  }

  // ----- tests of the lock's semaphore

  lemma LockTestMutex(s: System, t: Tid, w: bool)
    requires MutexInv(s) && t in s.at && !Critical(s.at[t])
    ensures MutexInv(LockTest(s, t, w))
  {}

  lemma LockTestQueue(s: System, t: Tid, w: bool)
    requires MutexInv(s) && LockQueueInv(s) && t in s.at && !s.at[t].LockBlocked?
    ensures LockQueueInv(LockTest(s, t, w))
  {}

  /** Steps that leave the condition variable alone keep the ledger when the moving thread is
      not waiting and is not a signaller, before or after. */
  lemma WaitFrame(s: System, s': System, t: Tid)
    requires WaitInv(s) && t in s.at
    requires s'.elem == s.elem && s'.conds == s.conds && s'.ticket == s.ticket
    requires s'.at.Keys == s.at.Keys
    requires forall u :: u in s.at && u != t ==>
               s'.at[u] == s.at[u] || (s.at[u].LockBlocked? && s'.at[u] == LockWoken(s.at[u].w))
    requires forall u :: Owed(s', u) <==> Owed(s, u)
    requires Waiting(s'.at[t]) <==> Waiting(s.at[t])
    requires Waiting(s.at[t]) ==> (s'.at[t] != WaitBlocked && s.at[t] != WaitBlocked && Listed(s, t) && s'.at[t] != WaitWoken)
    requires Returning(s'.at[t]) ==> Returning(s.at[t])
    ensures WaitInv(s')
  {
    forall u | u in s'.at && Waiting(s'.at[u]) ensures Ledger(s', u) {
      assert Ledger(s, u);
    }
  }

  /** The same steps keep the queue's order. */
  lemma FifoFrame(s: System, s': System)
    requires FifoInv(s)
    requires s'.conds == s.conds && s'.ticket == s.ticket
    requires s'.at.Keys == s.at.Keys
    requires forall u :: u in s.at ==> (Waiting(s.at[u]) ==> Waiting(s'.at[u]))
    requires forall u :: u in s.at && s'.at[u].Broadcasting? ==> s.at[u] == s'.at[u] || Bounded(s, s'.at[u])
    requires forall u :: u in s.at && s'.at[u].Signalling? ==> s.at[u] == s'.at[u]
    ensures FifoInv(s')
  {
    forall c | 0 <= c < |s'.conds| ensures InOrder(s', c) {
      assert InOrder(s, c);
    }
  }

  /** Steps that leave the lock's semaphore and its clients alone. */
  lemma QueueFrame(s: System, s': System)
    requires LockQueueInv(s) && s'.lock == s.lock && s'.at.Keys == s.at.Keys
    requires forall u :: u in s.at ==> s'.at[u].LockBlocked? == s.at[u].LockBlocked?
    requires forall u :: u in s.at ==> s'.at[u].LockWoken? == s.at[u].LockWoken?
    ensures LockQueueInv(s')
  {
    if s'.lock.waiters != [] && s'.lock.value > 0 {
      var u :| u in s.at && s.at[u].LockWoken?;
      assert u in s'.at && s'.at[u].LockWoken?;
    }
  }

  lemma LockTestKeepsInv(s: System, t: Tid, w: bool)
    requires Inv(s) && t in s.at
    requires w == Returning(s.at[t]) && !Critical(s.at[t]) && !Waiting(s.at[t]) && !s.at[t].LockBlocked?
    ensures Inv(LockTest(s, t, w))
  {
    var s' := LockTest(s, t, w);
    LockTestMutex(s, t, w);
    LockTestQueue(s, t, w);
    LockTestFrames(s, t, w);
  }

  lemma LockTestFrames(s: System, t: Tid, w: bool)
    requires MutexInv(s) && WaitInv(s) && FifoInv(s) && t in s.at
    requires w == Returning(s.at[t]) && !Critical(s.at[t]) && !Waiting(s.at[t])
    ensures WaitInv(LockTest(s, t, w)) && FifoInv(LockTest(s, t, w))
  {
    hide WaitInv, FifoInv;
    WaitFrame(s, LockTest(s, t, w), t);
    FifoFrame(s, LockTest(s, t, w));
  }

  // ----- stores to lock->holder, and the release

  /** When no signal is in flight on either side, a step that moves only t among places outside
      the lock's queue keeps everything but mutual exclusion, which is checked directly. */
  lemma QuietMove(s: System, s': System, t: Tid)
    requires LockQueueInv(s) && WaitInv(s) && FifoInv(s) && t in s.at
    requires t in s'.at && s' == Move(s, t, s'.at[t]).(holder := s'.holder)
    requires forall u :: !Owed(s, u) && !Owed(s', u)
    requires !s.at[t].LockBlocked? && !s.at[t].LockWoken? && !s'.at[t].LockBlocked? && !s'.at[t].LockWoken?
    requires Waiting(s'.at[t]) <==> Waiting(s.at[t])
    requires Waiting(s.at[t]) ==> s.at[t] == Queued && s'.at[t] == Releasing(true)
    requires Returning(s'.at[t]) ==> Returning(s.at[t])
    requires s'.at[t].Broadcasting? ==> Bounded(s, s'.at[t])
    requires !s'.at[t].Signalling?
    ensures LockQueueInv(s') && WaitInv(s') && FifoInv(s')
  {
    if Waiting(s.at[t]) { assert Ledger(s, t); }
    QueueFrame(s, s');
    WaitFrame(s, s', t);
    FifoFrame(s, s');
  }

  lemma StoreHolderKeepsInv(s: System, t: Tid)
    requires Inv(s) && t in s.at && s.at[t].GotLock?
    ensures Inv(Move(s, t, Holding).(holder := Some(t)))
  {
    QuietMove(s, Move(s, t, Holding).(holder := Some(t)), t);
  }

  lemma ClearHolderKeepsInv(s: System, t: Tid)
    requires Inv(s) && t in s.at && (s.at[t] == Holding || s.at[t] == Queued)
    ensures Inv(Move(s, t, Releasing(s.at[t] == Queued)).(holder := None))
  {
    QuietMove(s, Move(s, t, Releasing(s.at[t] == Queued)).(holder := None), t);
  }

  lemma BroadcastEndsKeepInv(s: System, t: Tid, p: Place)
    requires Inv(s) && t in s.at && (s.at[t] == Holding || s.at[t].Broadcasting?)
    requires p == Holding || Bounded(s, p)
    ensures Inv(Move(s, t, p))
  {
    QuietMove(s, Move(s, t, p), t);
  }

  lemma ReleaseQueue(s: System, t: Tid)
    requires LockQueueInv(s) && t in s.at && s.at[t].Releasing?
    ensures LockQueueInv(Release(s, t))
  {
    var s' := Release(s, t);
    if s.lock.waiters != [] {
      var u := s.lock.waiters[0];
      assert s.lock.waiters == [u] + s'.lock.waiters;
      assert s'.at[u].LockWoken?;
    }
  }

  lemma ReleaseMutex(s: System, t: Tid)
    requires MutexInv(s) && LockQueueInv(s) && t in s.at && s.at[t].Releasing?
    ensures MutexInv(Release(s, t))
  {}

  lemma ReleaseWait(s: System, t: Tid)
    requires MutexInv(s) && LockQueueInv(s) && WaitInv(s) && t in s.at && s.at[t].Releasing?
    ensures WaitInv(Release(s, t))
  {
    if s.at[t].w { assert Ledger(s, t); }
    WaitFrame(s, Release(s, t), t);
  }

  lemma ReleaseFifo(s: System, t: Tid)
    requires LockQueueInv(s) && FifoInv(s) && t in s.at && s.at[t].Releasing?
    ensures FifoInv(Release(s, t))
  {
    hide FifoInv;
    FifoFrame(s, Release(s, t));
  }

  lemma ReleaseKeepsInv(s: System, t: Tid)
    requires Inv(s) && t in s.at && s.at[t].Releasing?
    ensures Inv(Release(s, t))
  {
    ReleaseQueue(s, t);
    ReleaseMutex(s, t);
    ReleaseWait(s, t);
    hide MutexInv, WaitInv, LockQueueInv, FifoInv;
    ReleaseFifo(s, t);
  }

  // ----- cond_wait

  lemma QueueWait(s: System, t: Tid, c: nat)
    requires Inv(s) && t in s.at && s.at[t] == Holding && c < |s.conds|
    ensures WaitInv(Queue(s, t, c))
  {
    var s' := Queue(s, t, c);
    assert forall u :: !Owed(s, u) && !Owed(s', u);
    assert forall u :: u != t ==> (Listed(s', u) <==> Listed(s, u)) && (Popped(s', u) <==> Popped(s, u));
    assert InOrder(s, c);
    assert s'.conds[c].waiters[|s.conds[c].waiters|] == t;
    forall u | u in s'.at && Waiting(s'.at[u]) ensures Ledger(s', u) {
      if u != t { assert Ledger(s, u); }
    }
  }

  lemma QueueFifo(s: System, t: Tid, c: nat)
    requires MutexInv(s) && FifoInv(s) && t in s.at && s.at[t] == Holding && c < |s.conds|
    ensures FifoInv(Queue(s, t, c))
  {
    var s' := Queue(s, t, c);
    forall d | 0 <= d < |s'.conds| ensures InOrder(s', d) {
      assert InOrder(s, d);
    }
  }

  lemma QueueKeepsInv(s: System, t: Tid, c: nat)
    requires Inv(s) && t in s.at && s.at[t] == Holding && c < |s.conds|
    ensures Inv(Queue(s, t, c))
  {
    QueueFrame(s, Queue(s, t, c));
    QueueWait(s, t, c);
    QueueFifo(s, t, c);
  }

  lemma ElemTestWait(s: System, t: Tid)
    requires MutexInv(s) && WaitInv(s) && t in s.at && (s.at[t] == AboutToWait || s.at[t] == WaitWoken)
    ensures t in s.elem && WaitInv(ElemTest(s, t))
    ensures s.at[t] == WaitWoken ==> ElemTest(s, t).at[t] == Reacquiring
  {
    assert Ledger(s, t);
    var s' := ElemTest(s, t);
    assert forall u :: Owed(s', u) <==> Owed(s, u);
    forall u | u in s'.at && Waiting(s'.at[u]) ensures Ledger(s', u) {
      assert Ledger(s, u);
    }
  }

  lemma ElemTestRest(s: System, t: Tid)
    requires MutexInv(s) && FifoInv(s) && t in s.at && (s.at[t] == AboutToWait || s.at[t] == WaitWoken)
    requires t in s.elem && (Listed(s, t) ==> s.elem[t].value == 0)
    ensures MutexInv(ElemTest(s, t)) && FifoInv(ElemTest(s, t))
  {
    var s' := ElemTest(s, t);
    forall c | 0 <= c < |s'.conds| ensures InOrder(s', c) {
      assert InOrder(s, c);
      assert t in s.conds[c].waiters ==> Listed(s, t);
    }
  }

  lemma ElemTestKeepsInv(s: System, t: Tid)
    requires Inv(s) && t in s.at && (s.at[t] == AboutToWait || s.at[t] == WaitWoken)
    ensures t in s.elem && Inv(ElemTest(s, t))
  {
    assert Ledger(s, t);
    ElemTestWait(s, t);
    ElemTestRest(s, t);
    hide MutexInv, WaitInv, FifoInv, LockQueueInv;
    QueueFrame(s, ElemTest(s, t));
  }

  // ----- cond_signal

  /** What popping does to the lists and the logs. */
  lemma PopLists(s: System, t: Tid, c: nat, back: Place)
    requires FifoInv(s) && c < |s.conds| && s.conds[c].waiters != []
    ensures s.conds[c].waiters[0] in s.ticket
    ensures var s', u := Pop(s, t, c, back), s.conds[c].waiters[0];
            && Listed(s, u) && !Listed(s', u) && Popped(s', u)
            && forall v :: v != u ==>
                 && (Listed(s', v) <==> Listed(s, v)) && (Popped(s, v) ==> Popped(s', v))
                 && (Listed(s, v) && !Popped(s, v) ==> !Popped(s', v))
  {
    assert InOrder(s, c);
    var q, q' := s.conds[c], Pop(s, t, c, back).conds[c];
    assert q.waiters == [q.waiters[0]] + q'.waiters;
    forall i | 0 <= i < |q'.waiters| ensures q'.waiters[i] != q.waiters[0] {
      assert s.ticket[q.waiters[i + 1]] != s.ticket[q.waiters[0]];
    }
  }

  lemma PopWait(s: System, t: Tid, c: nat, back: Place)
    requires Inv(s) && t in s.at && (s.at[t] == Holding || s.at[t].Broadcasting?)
    requires c < |s.conds| && s.conds[c].waiters != [] && (back == Holding || Bounded(s, back))
    ensures s.conds[c].waiters[0] in s.ticket && WaitInv(Pop(s, t, c, back))
  {
    PopLists(s, t, c, back);
    var s' := Pop(s, t, c, back);
    var u := s.conds[c].waiters[0];
    assert InOrder(s, c);
    assert Ledger(s, u);
    assert forall v :: !Owed(s, v) && (Owed(s', v) <==> v == u);
    forall v | v in s'.at && Waiting(s'.at[v]) ensures Ledger(s', v) {
      assert Ledger(s, v);
    }
  }

  lemma PopFifo(s: System, t: Tid, c: nat, back: Place)
    requires MutexInv(s) && FifoInv(s) && t in s.at && (s.at[t] == Holding || s.at[t].Broadcasting?)
    requires c < |s.conds| && s.conds[c].waiters != [] && (back == Holding || Bounded(s, back))
    ensures s.conds[c].waiters[0] in s.ticket && FifoInv(Pop(s, t, c, back))
  {
    PopLists(s, t, c, back);
    var s' := Pop(s, t, c, back);
    forall d | 0 <= d < |s'.conds| ensures InOrder(s', d) {
      assert InOrder(s, d);
    }
  }

  lemma PopKeepsInv(s: System, t: Tid, c: nat, back: Place)
    requires Inv(s) && t in s.at && (s.at[t] == Holding || s.at[t].Broadcasting?)
    requires c < |s.conds| && s.conds[c].waiters != [] && (back == Holding || Bounded(s, back))
    ensures s.conds[c].waiters[0] in s.ticket && Inv(Pop(s, t, c, back))
  {
    PopWait(s, t, c, back);
    PopFifo(s, t, c, back);
    QueueFrame(s, Pop(s, t, c, back));
  }

  /** The popped waiter u gets its unit; every other waiter's ledger is as it was. */
  lemma DeliverLedger(s: System, t: Tid, v: Tid)
    requires MutexInv(s) && WaitInv(s) && t in s.at && s.at[t].Signalling? && s.at[t].u in s.elem
    requires v in s.at && (s.at[t].back == Holding || s.at[t].back.Broadcasting?)
    ensures var s' := Deliver(s, t, s.at[t].u, s.at[t].back);
            v in s'.at && Waiting(s'.at[v]) ==> Ledger(s', v)
  {
    var u := s.at[t].u;
    assert Owed(s, u);
    assert Ledger(s, u);
    var s' := Deliver(s, t, u, s.at[t].back);
    assert s'.at[t] == s.at[t].back && !Owed(s', v) && (Owed(s, v) <==> v == u);
    if Waiting(s'.at[v]) { assert Ledger(s, v); }
  }

  lemma DeliverWait(s: System, t: Tid)
    requires Inv(s) && t in s.at && s.at[t].Signalling?
    ensures s.at[t].u in s.elem && WaitInv(Deliver(s, t, s.at[t].u, s.at[t].back))
  {
    var u := s.at[t].u;
    assert Owed(s, u);
    assert Ledger(s, u);
    var s' := Deliver(s, t, u, s.at[t].back);
    assert forall v :: !Owed(s', v) && (Owed(s, v) <==> v == u);
    forall v | v in s.at { DeliverLedger(s, t, v); }
    hide Ledger;
  }

  lemma DeliverMutex(s: System, t: Tid, u: Tid, back: Place)
    requires MutexInv(s) && t in s.at && s.at[t].Signalling? && u in s.elem
    requires u in s.at && s.elem[u].waiters == if s.at[u] == WaitBlocked then [u] else []
    requires back == Holding || back.Broadcasting?
    ensures MutexInv(Deliver(s, t, u, back))
  {}

  lemma DeliverFrames(s: System, t: Tid, u: Tid, back: Place)
    requires LockQueueInv(s) && FifoInv(s) && t in s.at && s.at[t].Signalling? && u in s.elem
    requires u in s.at && (s.at[u] == AboutToWait || s.at[u] == WaitBlocked)
    requires s.elem[u].waiters == if s.at[u] == WaitBlocked then [u] else []
    requires back == Holding || Bounded(s, back)
    ensures LockQueueInv(Deliver(s, t, u, back)) && FifoInv(Deliver(s, t, u, back))
  {
    hide LockQueueInv, FifoInv;
    QueueFrame(s, Deliver(s, t, u, back));
    FifoFrame(s, Deliver(s, t, u, back));
  }

  lemma DeliverKeepsInv(s: System, t: Tid)
    requires Inv(s) && t in s.at && s.at[t].Signalling?
    ensures s.at[t].u in s.elem && Inv(Deliver(s, t, s.at[t].u, s.at[t].back))
  {
    var u := s.at[t].u;
    assert Owed(s, u) && Ledger(s, u);
    assert s.at[t].back == Holding || Bounded(s, s.at[t].back);
    hide MutexInv, WaitInv, FifoInv, LockQueueInv;
    DeliverWait(s, t);
    DeliverMutex(s, t, u, s.at[t].back);
    DeliverFrames(s, t, u, s.at[t].back);
  }

  // ----- every interleaving

  lemma StepKeepsInv(s: System, step: Step)
    requires Inv(s) && Enabled(s, step)
    ensures Safe(s, step) && Inv(Apply(s, step))
  {
    InvSafe(s, step);
    var t := step.t;
    match step
    case Acquire(_) => LockTestKeepsInv(s, t, false);
    case TryAcquire(_) => LockTestKeepsInv(s, t, false);
    case LockResume(_) => LockTestKeepsInv(s, t, s.at[t].w);
    case Reacquire(_) => LockTestKeepsInv(s, t, true);
    case StoreHolder(_) => StoreHolderKeepsInv(s, t);
    case ClearHolder(_) => ClearHolderKeepsInv(s, t);
    case ReleaseUp(_) => ReleaseKeepsInv(s, t);
    case WaitQueue(_, c) => QueueKeepsInv(s, t, c);
    case WaitDown(_) => ElemTestKeepsInv(s, t);
    case WaitResume(_) => ElemTestKeepsInv(s, t);
    case Signal(_, c) => if s.conds[c].waiters != [] { PopKeepsInv(s, t, c, Holding); }
    case SignalUp(_) => DeliverKeepsInv(s, t);
    case Broadcast(_, c) => BroadcastEndsKeepInv(s, t, Broadcasting(c, s.conds[c].next));
    case BroadcastTest(_) =>
      var c := s.at[t].c;
      if s.conds[c].waiters == [] { BroadcastEndsKeepInv(s, t, Holding); } else { PopKeepsInv(s, t, c, s.at[t]); }
  }

  /** `trace` is an execution: each state follows from the one before by some thread's step. */
  ghost predicate IsTrace(trace: seq<System>, steps: seq<Step>)
  {
    && |trace| == |steps| + 1
    && forall i :: 0 <= i < |steps| ==>
         Enabled(trace[i], steps[i]) && (Safe(trace[i], steps[i]) ==> trace[i + 1] == Apply(trace[i], steps[i]))
  }

  /** Over every interleaving the invariant holds in each state, no assertion of the source
      fires and no waiter element is touched after its owner has left cond_wait. */
  lemma {:induction false} TraceKeepsInv(threads: set<Tid>, conditions: nat, trace: seq<System>, steps: seq<Step>, n: nat)
    requires IsTrace(trace, steps) && trace[0] == Init(threads, conditions) && n <= |steps|
    ensures Inv(trace[n])
    ensures n < |steps| ==> Safe(trace[n], steps[n])
  {
    if n == 0 {
      InitInv(threads, conditions);
    } else {
      TraceKeepsInv(threads, conditions, trace, steps, n - 1);
      StepKeepsInv(trace[n - 1], steps[n - 1]);
    }
    if n < |steps| { StepKeepsInv(trace[n], steps[n]); }
  }

  // ----- what the invariant gives

  ghost function CriticalThreads(s: System): set<Tid>
  {
    set t | t in s.at && Critical(s.at[t])
  }

  /** Mutual exclusion: the lock's value plus the threads between their down and their up is
      one, so at most one thread is inside, and lock->holder names it whenever it is set. */
  lemma MutualExclusion(s: System)
    requires Inv(s)
    ensures s.lock.value + |CriticalThreads(s)| == 1
    ensures s.holder.Some? ==> CriticalThreads(s) == {s.holder.value}
  {
    match s.owner
    case None => assert CriticalThreads(s) == {};
    case Some(t) => assert CriticalThreads(s) == {t};
  }

  /** lock_try_acquire gets the lock exactly when nobody has it, and else changes nothing; nor
      does lock_acquire get it then. */
  lemma AcquiresExactly(s: System, t: Tid)
    requires Inv(s) && Enabled(s, TryAcquire(t))
    ensures var s' := Apply(s, TryAcquire(t));
            if s.owner.None? then s'.at[t] == GotLock(false) && s'.owner == Some(t) && s'.lock == s.lock.(value := 0)
            else s' == s
    ensures Safe(s, Acquire(t))
    ensures var s' := Apply(s, Acquire(t));
            if s.owner.None? then s'.at[t] == GotLock(false) && s'.owner == Some(t) && s'.lock == s.lock.(value := 0)
            else s'.at[t] == LockBlocked(false) && s'.lock.waiters == s.lock.waiters + [t]
  {
    hide WaitInv, FifoInv, LockQueueInv;
    assert Holds(s.at[t]) == (s.holder == Some(t));
  }

  /** Having queued, cond_wait releases the lock before it waits. */
  lemma WaitReleases(s: System, t: Tid)
    requires Inv(s) && t in s.at && s.at[t] == Queued
    ensures Enabled(s, ClearHolder(t)) && Safe(s, ClearHolder(t))
    ensures var s' := Apply(s, ClearHolder(t));
            && s'.at[t] == Releasing(true) && s'.holder == None && Safe(s', ReleaseUp(t))
            && Apply(s', ReleaseUp(t)).at[t] == AboutToWait
  {
    ClearHolderKeepsInv(s, t);
    InvSafe(s, ClearHolder(t));
    InvSafe(Apply(s, ClearHolder(t)), ReleaseUp(t));
    hide WaitInv, FifoInv;
  }

  /** Only sleepers have no step to take; a thread outside may acquire or try the lock, and the
      holder may release it or call any operation on any condition. */
  lemma NextSteps(s: System, t: Tid)
    requires Inv(s) && t in s.at
    ensures (exists step: Step :: step.t == t && Enabled(s, step)) <==> !s.at[t].LockBlocked? && s.at[t] != WaitBlocked
    ensures s.at[t] == Outside ==> Enabled(s, Acquire(t)) && Enabled(s, TryAcquire(t))
    ensures s.at[t] == Holding ==>
              && Enabled(s, ClearHolder(t))
              && forall c :: 0 <= c < |s.conds| ==>
                   Enabled(s, WaitQueue(t, c)) && Enabled(s, Signal(t, c)) && Enabled(s, Broadcast(t, c))
  {
    hide MutexInv, LockQueueInv, WaitInv, FifoInv;
    var step := match s.at[t]
                case Outside => Acquire(t)
                case LockBlocked(_) => Acquire(t)
                case LockWoken(_) => LockResume(t)
                case GotLock(_) => StoreHolder(t)
                case Holding => ClearHolder(t)
                case Queued => ClearHolder(t)
                case Releasing(_) => ReleaseUp(t)
                case AboutToWait => WaitDown(t)
                case WaitBlocked => Acquire(t)
                case WaitWoken => WaitResume(t)
                case Reacquiring => Reacquire(t)
                case Signalling(_, _) => SignalUp(t)
                case Broadcasting(_, _) => BroadcastTest(t);
    assert step.t == t && (Enabled(s, step) <==> !s.at[t].LockBlocked? && s.at[t] != WaitBlocked);
  }

  /** No wake-up of the lock is lost: whenever the lock is free and someone is blocked on it, a
      woken thread is on its way to the test and will get the lock there. */
  lemma LockNotStranded(s: System, t: Tid)
    requires Inv(s) && t in s.at && s.at[t].LockBlocked? && s.lock.value > 0
    ensures exists u :: u in s.at && Enabled(s, LockResume(u)) && Apply(s, LockResume(u)).at[u].GotLock?
  {
    assert t in s.lock.waiters;
    var u :| u in s.at && s.at[u].LockWoken?;
    assert Enabled(s, LockResume(u)) && Apply(s, LockResume(u)).at[u].GotLock?;
  }

  /** cond_wait returns, by the StoreHolder step that ends its lock_acquire, with the lock held
      and after its element was popped exactly once. */
  lemma WaitReturnsSignalled(s: System, t: Tid)
    requires Inv(s) && t in s.at && s.at[t] == GotLock(true)
    ensures var s' := Apply(s, StoreHolder(t));
            s'.holder == Some(t) && CriticalThreads(s') == {t}
    ensures t in s.ticket && s.ticket[t].c < |s.conds|
    ensures var log, k := s.conds[s.ticket[t].c].popLog, s.ticket[t].number;
            k in log && forall i, j :: 0 <= i < |log| && 0 <= j < |log| && log[i] == k && log[j] == k ==> i == j
  {
    StoreHolderKeepsInv(s, t);
    MutualExclusion(Apply(s, StoreHolder(t)));
    assert Popped(s, t) && InOrder(s, s.ticket[t].c);
    assert s.conds[s.ticket[t].c].popLog[s.ticket[t].number] == s.ticket[t].number;
  }

  /** A signal is not lost, even one sent between cond_wait's lock_release and its sema_down: a
      waiter whose element has been popped is either about to be upped by the lock's holder or
      will pass its semaphore at the next test, without sleeping on it. */
  lemma SignalNotLost(s: System, t: Tid)
    requires Inv(s) && t in s.at && Waiting(s.at[t]) && !Listed(s, t)
    ensures s.at[t] == AboutToWait || s.at[t] == WaitBlocked || s.at[t] == WaitWoken
    ensures Owed(s, t) || (s.at[t] != WaitBlocked && t in s.elem && ElemTest(s, t).at[t] == Reacquiring)
    ensures Owed(s, t) ==>
              var h := s.holder.value;
              && Enabled(s, SignalUp(h)) && Safe(s, SignalUp(h))
              && var s' := Apply(s, SignalUp(h));
                 (s'.at[t] == AboutToWait || s'.at[t] == WaitWoken) && s'.elem[t].value == 1
  {
    assert Ledger(s, t);
    if Owed(s, t) { InvSafe(s, SignalUp(s.holder.value)); }
  }

  /** A thread sleeping on its element has not been signalled, or is being signalled now, and it
      sleeps on the list of one condition only. */
  lemma SleepersUnsignalled(s: System, t: Tid)
    requires Inv(s) && t in s.at && s.at[t] == WaitBlocked
    ensures Listed(s, t) || Owed(s, t)
    ensures Listed(s, t) ==> s.ticket[t].number !in s.conds[s.ticket[t].c].popLog
    ensures forall c :: 0 <= c < |s.conds| && t in s.conds[c].waiters ==> t in s.ticket && s.ticket[t].c == c
  {
    assert Ledger(s, t);
    forall c | 0 <= c < |s.conds| && t in s.conds[c].waiters ensures t in s.ticket && s.ticket[t].c == c {
      assert InOrder(s, c);
    }
    if Listed(s, t) { assert InOrder(s, s.ticket[t].c); }
  }

  /** Signals go to the oldest waiter: the front of the condition's queue drew its ticket before
      every other waiter still queued there.  No other condition is touched. */
  lemma OldestFirst(s: System, t: Tid, c: nat, u: Tid)
    requires Inv(s) && Enabled(s, Signal(t, c)) && u in s.conds[c].waiters
    ensures Safe(s, Signal(t, c))
    ensures var s' := Apply(s, Signal(t, c));
            && s'.at[t].Signalling? && s'.at[t].u in s.ticket && u in s.ticket
            && s.ticket[s'.at[t].u].c == s.ticket[u].c == c
            && s.ticket[s'.at[t].u].number <= s.ticket[u].number
            && |s'.conds| == |s.conds| && s'.conds[c].popLog == s.conds[c].popLog + [s.ticket[s'.at[t].u].number]
            && forall d :: 0 <= d < |s.conds| && d != c ==> s'.conds[d] == s.conds[d]
  {
    InvSafe(s, Signal(t, c));
    assert InOrder(s, c);
  }

  /** While t's cond_broadcast runs nobody can queue: its bound stays the next ticket.  When it
      returns its condition's queue is empty and every ticket drawn there before it began has
      been popped. */
  lemma BroadcastReleasesAll(s: System, t: Tid)
    requires Inv(s) && t in s.at && s.at[t].Broadcasting?
    ensures s.at[t].c < |s.conds|
    ensures var c, upto := s.at[t].c, s.at[t].upto;
            upto == s.conds[c].next &&
            (s.conds[c].waiters == [] ==>
              && |s.conds[c].popLog| == upto && (forall k :: 0 <= k < upto ==> k in s.conds[c].popLog)
              && forall u :: u in s.at && Waiting(s.at[u]) && u in s.ticket && s.ticket[u].c == c ==>
                   !Listed(s, u) && u in s.elem && s.elem[u].value == 1)
  {
    assert Bounded(s, s.at[t]);
    var c := s.at[t].c;
    assert InOrder(s, c);
    if s.conds[c].waiters == [] {
      forall k | 0 <= k < s.at[t].upto ensures k in s.conds[c].popLog {
        assert s.conds[c].popLog[k] == k;
      }
      forall u | u in s.at && Waiting(s.at[u]) && u in s.ticket && s.ticket[u].c == c
        ensures !Listed(s, u) && u in s.elem && s.elem[u].value == 1
      {
        assert Ledger(s, u);
      }
    }
  }

  /** A broadcast in progress is not disturbed by any other thread. */
  lemma BroadcastUndisturbed(s: System, t: Tid, step: Step)
    requires Inv(s) && t in s.at && Enabled(s, step) && step.t != t
    requires s.at[t].Broadcasting? || (s.at[t].Signalling? && s.at[t].back.Broadcasting?)
    ensures Safe(s, step)
    ensures Apply(s, step).at[t] == s.at[t] && Apply(s, step).conds == s.conds
  {
    InvSafe(s, step);
  }
}
