/** The round-robin scheduler (threads/thread.c) from the moment the idle thread has announced
    itself.  Each call that runs with interrupts off is one event. */
module Scheduler {
  import opened Sequences

  type Tid = nat

  const TIME_SLICE: nat := 4

  datatype Status = Running | Ready | Blocked | Dying

  /** `cur` is the thread on the CPU, `ticks` the timer ticks of its slice so far.  A destroyed
      thread has no status; the initial thread's memory is never freed. */
  datatype State = State(cur: Tid, ready: seq<Tid>, status: map<Tid, Status>, idle: Tid, initial: Tid, ticks: nat)

  datatype Event = Tick | Yield | Block | Exit | Unblock(t: Tid) | Create(t: Tid)

  // ----- the source's functions

  function NextThreadToRun(s: State): (Tid, seq<Tid>)
  {
    if s.ready == [] then (s.idle, []) else (s.ready[0], s.ready[1..])
  }

  /** schedule and thread_schedule_tail: switch, start a new slice, destroy a dying predecessor. */
  function Schedule(s: State): State
  {
    var (next, rest) := NextThreadToRun(s);
    var status := s.status[next := Running];
    var dead := next != s.cur && s.cur in s.status && s.status[s.cur] == Dying && s.cur != s.initial;
    s.(cur := next, ready := rest, ticks := 0, status := if dead then status - {s.cur} else status)
  }

  function YieldTo(s: State): State
  {
    Schedule(s.(ready := if s.cur != s.idle then s.ready + [s.cur] else s.ready, status := s.status[s.cur := Ready]))
  }

  predicate Enabled(s: State, e: Event)
  {
    match e
    case Tick => true
    case Yield => true
    case Block => true
    case Exit => s.cur != s.idle
    case Unblock(t) => t in s.status && s.status[t] == Blocked && t != s.idle
    case Create(t) => t !in s.status
  }

  function Apply(s: State, e: Event): State
  {
    match e
    case Tick => if s.ticks + 1 >= TIME_SLICE then YieldTo(s.(ticks := s.ticks + 1)) else s.(ticks := s.ticks + 1)
    case Yield => YieldTo(s)
    case Block => Schedule(s.(status := s.status[s.cur := Blocked]))
    case Exit => Schedule(s.(status := s.status[s.cur := Dying]))
    case Unblock(t) => s.(ready := s.ready + [t], status := s.status[t := Ready])
    case Create(t) => s.(status := s.status[t := Blocked])
  }

  /** Whether the event calls schedule. */
  predicate Switches(s: State, e: Event)
  {
    e == Yield || e == Block || e == Exit || (e == Tick && s.ticks + 1 >= TIME_SLICE)
  }

  // ----- the invariant

  /** Exactly one thread runs, and the ready list holds every ready thread but idle, once. */
  ghost predicate Inv(s: State)
  {
    && s.cur in s.status && (forall t :: t in s.status ==> (s.status[t] == Running <==> t == s.cur))
    && s.idle in s.status && s.status[s.idle] != Dying
    && Distinct(s.ready) && (forall t :: t in s.ready <==> t in s.status && s.status[t] == Ready && t != s.idle)
    && s.ticks < TIME_SLICE
    && (forall t :: t in s.status && s.status[t] == Dying ==> t == s.initial)
  }

  /** The state from which schedule may be called: the current thread has left RUNNING, and is
      already on the ready list if it is to go on. */
  ghost predicate Leaving(s: State)
  {
    && s.cur in s.status && (forall t :: t in s.status ==> s.status[t] != Running)
    && s.idle in s.status && s.status[s.idle] != Dying
    && Distinct(s.ready) && (forall t :: t in s.ready <==> t in s.status && s.status[t] == Ready && t != s.idle)
    && (forall t :: t in s.status && s.status[t] == Dying ==> t == s.initial || t == s.cur)
  }

  /** schedule's assertions hold, next is a live thread, and the invariant is restored. */
  lemma ScheduleInv(s: State)
    requires Leaving(s)
    ensures Inv(Schedule(s)) && NextThreadToRun(s).0 in s.status
    ensures s.cur in s.status && s.status[s.cur] != Running
  {
    var (next, rest) := NextThreadToRun(s);
    if s.ready != [] {
      assert s.ready == [next] + rest;
      assert next in s.ready;
      assert forall t :: t in s.ready <==> t == next || t in rest;
    }
  }

  lemma YieldInv(s: State)
    requires s.cur in s.status && (forall t :: t in s.status ==> (s.status[t] == Running <==> t == s.cur))
    requires s.idle in s.status && s.status[s.idle] != Dying
    requires Distinct(s.ready) && (forall t :: t in s.ready <==> t in s.status && s.status[t] == Ready && t != s.idle)
    requires forall t :: t in s.status && s.status[t] == Dying ==> t == s.initial
    ensures Inv(YieldTo(s))
  {
    var s' := s.(ready := if s.cur != s.idle then s.ready + [s.cur] else s.ready, status := s.status[s.cur := Ready]);
    assert Leaving(s');
    ScheduleInv(s');
  }

  lemma StepInv(s: State, e: Event)
    requires Inv(s) && Enabled(s, e)
    ensures Inv(Apply(s, e))
  {
    match e
    case Tick => if s.ticks + 1 >= TIME_SLICE { YieldInv(s.(ticks := s.ticks + 1)); }
    case Yield => YieldInv(s);
    case Block => ScheduleInv(s.(status := s.status[s.cur := Blocked]));
    case Exit => ScheduleInv(s.(status := s.status[s.cur := Dying]));
    case Unblock(t) =>
    case Create(t) =>
  }

  // ----- runs

  ghost predicate CanRun(s: State, es: seq<Event>)
    decreases |es|
  {
    es == [] || (Enabled(s, es[0]) && CanRun(Apply(s, es[0]), es[1..]))
  }

  function Run(s: State, es: seq<Event>): State
    decreases |es|
  {
    if es == [] then s else Run(Apply(s, es[0]), es[1..])
  }

  function Switchings(s: State, es: seq<Event>): nat
    decreases |es|
  {
    if es == [] then 0 else (if Switches(s, es[0]) then 1 else 0) + Switchings(Apply(s, es[0]), es[1..])
  }

  function TickCount(es: seq<Event>): nat
  {
    if es == [] then 0 else (if es[0] == Tick then 1 else 0) + TickCount(es[1..])
  }

  lemma {:induction false} RunInv(s: State, es: seq<Event>)
    requires Inv(s) && CanRun(s, es)
    ensures Inv(Run(s, es))
    decreases |es|
  {
    if es != [] {
      StepInv(s, es[0]);
      RunInv(Apply(s, es[0]), es[1..]);
    }
  }

  /** One event moves a waiting thread up one place if it switches, and not at all otherwise. */
  lemma PlaceAfter(s: State, e: Event, k: nat)
    requires Inv(s) && Enabled(s, e) && k < |s.ready|
    ensures !Switches(s, e) ==> k < |Apply(s, e).ready| && Apply(s, e).ready[k] == s.ready[k]
    ensures Switches(s, e) && k > 0 ==> k - 1 < |Apply(s, e).ready| && Apply(s, e).ready[k - 1] == s.ready[k]
    ensures Switches(s, e) && k == 0 ==> Apply(s, e).cur == s.ready[0]
  {}

  /** Bounded waiting: a thread at place k of the ready list runs by the (k+1)-st schedule call,
      whatever the other threads do. */
  lemma {:induction false} RunsWithinSchedules(s: State, es: seq<Event>, k: nat) returns (n: nat)
    requires Inv(s) && CanRun(s, es) && k < |s.ready| && Switchings(s, es) >= k + 1
    ensures n <= |es| && Run(s, es[..n]).cur == s.ready[k] && Switchings(s, es[..n]) <= k + 1
    decreases |es|
  {
    var e, s' := es[0], Apply(s, es[0]);
    StepInv(s, e);
    PlaceAfter(s, e, k);
    if Switches(s, e) && k == 0 {
      n := 1;
      assert es[..1][1..] == [];
    } else {
      var n' := RunsWithinSchedules(s', es[1..], if Switches(s, e) then k - 1 else k);
      n := n' + 1;
      assert es[..n][1..] == es[1..][..n'] && es[..n][0] == e;
    }
  }

  /** Every full slice of ticks forces a schedule call. */
  lemma {:induction false} TicksForceSwitches(s: State, es: seq<Event>)
    requires Inv(s) && CanRun(s, es)
    ensures TickCount(es) + s.ticks < TIME_SLICE * Switchings(s, es) + TIME_SLICE
    decreases |es|
  {
    if es != [] {
      StepInv(s, es[0]);
      TicksForceSwitches(Apply(s, es[0]), es[1..]);
    }
  }

  /** So it runs within (k+1) * TIME_SLICE delivered timer ticks. */
  lemma RunsWithinTicks(s: State, es: seq<Event>, k: nat) returns (n: nat)
    requires Inv(s) && CanRun(s, es) && k < |s.ready| && TickCount(es) >= (k + 1) * TIME_SLICE
    ensures n <= |es| && Run(s, es[..n]).cur == s.ready[k]
  {
    TicksForceSwitches(s, es);
    n := RunsWithinSchedules(s, es, k);
  }

  // ----- a whole slice for everyone

  /** Events that do not give up the processor. */
  ghost predicate Stays(es: seq<Event>)
  {
    forall e :: e in es ==> e != Yield && e != Block && e != Exit
  }

  /** From any schedule call on, the thread that it runs keeps the processor until TIME_SLICE
      ticks have come, unless it gives it up, whatever else happens; and the tick that completes
      them hands it to the front of the ready list, and puts the thread at its back. */
  lemma WholeSlice(s: State, e: Event, es: seq<Event>)
    requires Inv(s) && Enabled(s, e) && Switches(s, e)
    requires CanRun(Apply(s, e), es) && Stays(es) && TickCount(es) < TIME_SLICE
    ensures var s1 := Apply(s, e);
            var s2 := Run(s1, es);
            var s3 := Apply(s2, Tick);
            && s2.cur == s1.cur
            && (TickCount(es) == TIME_SLICE - 1 ==>
                  if s2.ready == [] then s3.cur == s1.cur
                  else s3.cur == s2.ready[0] && s3.ready == s2.ready[1..] + if s1.cur == s1.idle then [] else [s1.cur])
  {
    StepInv(s, e);
    KeepsRunning(Apply(s, e), es);
  }

  lemma {:induction false} KeepsRunning(s: State, es: seq<Event>)
    requires Inv(s) && CanRun(s, es) && Stays(es) && s.ticks + TickCount(es) < TIME_SLICE
    ensures Run(s, es).cur == s.cur && Run(s, es).ticks == s.ticks + TickCount(es)
    ensures Run(s, es).idle == s.idle
    decreases |es|
  {
    if es != [] {
      var e := es[0];
      assert e in es && forall d :: d in es[1..] ==> d in es;
      StepInv(s, e);
      KeepsRunning(Apply(s, e), es[1..]);
    }
  }

  // ----- whose memory is freed

  /** A thread's memory is freed at the schedule call by which it exits, and never otherwise;
      the initial thread's stays. */
  lemma FreedExactly(s: State, e: Event, t: Tid)
    requires Inv(s) && Enabled(s, e) && t in s.status
    ensures t !in Apply(s, e).status <==> e == Exit && t == s.cur && t != s.initial
  {
    if s.ready != [] { assert s.ready[0] in s.ready; }
  }

  /** So over any run a thread that never exits is still there, and so is the initial one. */
  lemma {:induction false} NeverFreed(s: State, es: seq<Event>, t: Tid)
    requires Inv(s) && CanRun(s, es) && t in s.status
    requires t == s.initial || forall i :: 0 <= i < |es| && es[i] == Exit ==> Run(s, es[..i]).cur != t
    ensures t in Run(s, es).status
    decreases |es|
  {
    if es != [] {
      var s' := Apply(s, es[0]);
      StepInv(s, es[0]);
      FreedExactly(s, es[0], t);
      assert es[..0] == [];
      forall i | 0 <= i < |es| - 1 ensures Run(s, es[..i + 1]) == Run(s', es[1..][..i]) {
        assert es[..i + 1][1..] == es[1..][..i];
      }
      NeverFreed(s', es[1..], t);
    }
  }

  // ----- the scheduler's variables

  class Threads {
    var cur: Tid
    var readyList: seq<Tid>
    var status: map<Tid, Status>
    const idleThread: Tid
    const initialThread: Tid
    var threadTicks: nat

    ghost function Abs(): State
      reads this
    {
      State(cur, readyList, status, idleThread, initialThread, threadTicks)
    }

    /** The idle thread has just set idle_thread; the initial thread is ready or blocked. */
    constructor (idle: Tid, initial: Tid, initialReady: bool)
      requires idle != initial
      ensures Inv(Abs()) && cur == idle
    {
      cur, idleThread, initialThread, threadTicks := idle, idle, initial, 0;
      readyList := if initialReady then [initial] else [];
      status := map[idle := Running, initial := if initialReady then Ready else Blocked];
    }

    /** schedule with thread_schedule_tail; the assertions are its precondition. */
    method DoSchedule()
      requires cur in status && status[cur] != Running
      modifies this
      ensures Abs() == Schedule(old(Abs()))
    {
      var prev := cur;
      var next := idleThread;
      if readyList != [] { next, readyList := readyList[0], readyList[1..]; }
      cur := next;
      status := status[cur := Running];
      threadTicks := 0;
      if prev != cur && status[prev] == Dying && prev != initialThread { status := status - {prev}; }
    }

    method ThreadYield()
      requires Inv(Abs())
      modifies this
      ensures Abs() == Apply(old(Abs()), Yield) && Inv(Abs())
    {
      StepInv(Abs(), Yield);
      if cur != idleThread { readyList := readyList + [cur]; }
      status := status[cur := Ready];
      DoSchedule();
    }

    method ThreadBlock()
      requires Inv(Abs())
      modifies this
      ensures Abs() == Apply(old(Abs()), Block) && Inv(Abs())
    {
      StepInv(Abs(), Block);
      status := status[cur := Blocked];
      DoSchedule();
    }

    method ThreadExit()
      requires Inv(Abs()) && cur != idleThread
      modifies this
      ensures Abs() == Apply(old(Abs()), Exit) && Inv(Abs())
    {
      StepInv(Abs(), Exit);
      status := status[cur := Dying];
      DoSchedule();
    }

    method ThreadUnblock(t: Tid)
      requires Inv(Abs()) && Enabled(Abs(), Unblock(t))
      modifies this
      ensures Abs() == Apply(old(Abs()), Unblock(t)) && Inv(Abs())
    {
      StepInv(Abs(), Unblock(t));
      readyList := readyList + [t];
      status := status[t := Ready];
    }

    /** thread_tick, with the yield that intr_yield_on_return asks for at the end of a slice. */
    method ThreadTick()
      requires Inv(Abs())
      modifies this
      ensures Abs() == Apply(old(Abs()), Tick) && Inv(Abs())
    {
      StepInv(Abs(), Tick);
      threadTicks := threadTicks + 1;
      if threadTicks >= TIME_SLICE {
        if cur != idleThread { readyList := readyList + [cur]; }
        status := status[cur := Ready];
        DoSchedule();
      }
    }
  }
}
