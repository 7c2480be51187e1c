/** Semaphores (threads/synch.c), as a state machine over any number of threads.

    Each section that runs with interrupts off is one atomic step.  sema_down re-tests the
    value every time the scheduler resumes it, so a down is one step when the value is
    positive and otherwise an enqueue followed, after a wake-up, by another test. */
module Semaphore {
  import opened Options

  type Tid = nat

  datatype Sema = Sema(value: nat, waiters: seq<Tid>)

  // ----- the three interrupts-off sections

  /** One pass of sema_down's loop: take a unit, or join the back of the waiters and block. */
  function Attempt(s: Sema, t: Tid): (Sema, bool)
  {
    if s.value == 0 then (Sema(0, s.waiters + [t]), false)
    else (Sema(s.value - 1, s.waiters), true)
  }

  function TryDown(s: Sema): (Sema, bool)
  {
    if s.value > 0 then (Sema(s.value - 1, s.waiters), true) else (s, false)
  }

  /** sema_up: unblock the front waiter, if any, then count the unit. */
  function Up(s: Sema): (Sema, Option<Tid>)
  {
    if s.waiters == [] then (Sema(s.value + 1, []), None)
    else (Sema(s.value + 1, s.waiters[1..]), Some(s.waiters[0]))
  }

  // ----- the system

  /** Away: not inside sema_down.  Blocked: on the waiters list.  Woken: unblocked by an up,
      not yet back at the test. */
  datatype Pc = Away | Blocked | Woken

  /** `ups` and `downs` are history: completed ups, and downs that took a unit. */
  datatype State = State(sema: Sema, pc: map<Tid, Pc>, initial: nat, ups: nat, downs: nat)

  datatype Step = DownBegin(t: Tid) | DownResume(t: Tid) | DownTry(t: Tid) | UpStep

  function Init(value: nat, threads: set<Tid>): State
  {
    State(Sema(value, []), map t | t in threads :: Away, value, 0, 0)
  }

  predicate Enabled(s: State, step: Step)
  {
    match step
    case DownBegin(t) => t in s.pc && s.pc[t] == Away
    case DownResume(t) => t in s.pc && s.pc[t] == Woken
    case DownTry(t) => t in s.pc && s.pc[t] == Away
    case UpStep => true
  }

  function Apply(s: State, step: Step): State
    requires Enabled(s, step)
  {
    match step
    case DownBegin(t) => Test(s, t)
    case DownResume(t) => Test(s, t)
    case DownTry(t) =>
      var (sema, took) := TryDown(s.sema);
      s.(sema := sema, downs := if took then s.downs + 1 else s.downs)
    case UpStep =>
      var (sema, woken) := Up(s.sema);
      s.(sema := sema, ups := s.ups + 1,
         pc := if woken.Some? then s.pc[woken.value := Woken] else s.pc)
  }

  function Test(s: State, t: Tid): State
  {
    var (sema, took) := Attempt(s.sema, t);
    s.(sema := sema, pc := s.pc[t := if took then Away else Blocked],
       downs := if took then s.downs + 1 else s.downs)
  }

  predicate CanRun(s: State, steps: seq<Step>)
    decreases |steps|
  {
    steps == [] || (Enabled(s, steps[0]) && CanRun(Apply(s, steps[0]), steps[1..]))
  }

  function Run(s: State, steps: seq<Step>): State
    requires CanRun(s, steps)
    decreases |steps|
  {
    if steps == [] then s else Run(Apply(s, steps[0]), steps[1..])
  }

  // ----- the invariant

  ghost function WokenThreads(s: State): set<Tid>
  {
    set t | t in s.pc && s.pc[t] == Woken
  }

  /** The waiters list holds each blocked thread exactly once. */
  ghost predicate WaitersExact(s: State)
  {
    && (forall i, j :: 0 <= i < j < |s.sema.waiters| ==> s.sema.waiters[i] != s.sema.waiters[j])
    && (forall t :: t in s.sema.waiters <==> t in s.pc && s.pc[t] == Blocked)
  }

  /** While anyone waits, every unit of value is spoken for by a woken thread. */
  ghost predicate UnitsClaimed(s: State)
  {
    s.sema.waiters != [] ==> s.sema.value <= |WokenThreads(s)|
  }

  predicate Conserved(s: State)
  {
    s.sema.value + s.downs == s.initial + s.ups
  }

  ghost predicate Inv(s: State)
  {
    WaitersExact(s) && UnitsClaimed(s) && Conserved(s)
  }

  lemma InitInv(value: nat, threads: set<Tid>)
    ensures Inv(Init(value, threads))
  {}

  lemma TestKeepsInv(s: State, t: Tid)
    requires Inv(s) && t in s.pc && s.pc[t] != Blocked
    ensures Inv(Test(s, t))
  {
    var s' := Test(s, t);
    assert t !in s.sema.waiters;
    if s.sema.value == 0 {
      assert s'.sema.waiters == s.sema.waiters + [t];
    } else {
      assert WokenThreads(s') == WokenThreads(s) - {t};
    }
  }

  lemma UpKeepsInv(s: State)
    requires Inv(s)
    ensures Inv(Apply(s, UpStep))
  {
    var s' := Apply(s, UpStep);
    if s.sema.waiters != [] {
      var u := s.sema.waiters[0];
      assert s.sema.waiters == [u] + s'.sema.waiters;
      assert forall t :: t in s.sema.waiters <==> t == u || t in s'.sema.waiters;
      assert u !in s'.sema.waiters;
      assert s.pc[u] == Blocked;
      assert WokenThreads(s') == WokenThreads(s) + {u};
    }
  }

  lemma StepKeepsInv(s: State, step: Step)
    requires Inv(s) && Enabled(s, step)
    ensures Inv(Apply(s, step))
  {
    match step
    case DownBegin(t) => TestKeepsInv(s, t);
    case DownResume(t) => TestKeepsInv(s, t);
    case DownTry(t) =>
      assert WokenThreads(Apply(s, step)) == WokenThreads(s);
    case UpStep => UpKeepsInv(s);
  }

  /** Every interleaving of downs, tries, ups and resumptions keeps the invariant. */
  lemma {:induction false} RunKeepsInv(s: State, steps: seq<Step>)
    requires Inv(s) && CanRun(s, steps)
    ensures Inv(Run(s, steps))
    decreases |steps|
  {
    if steps != [] {
      StepKeepsInv(s, steps[0]);
      RunKeepsInv(Apply(s, steps[0]), steps[1..]);
    }
  }

  // ----- what the invariant gives

  /** No wake-up is lost: in every reachable state, if a thread is blocked then at least
      `value` threads are on their way to the test, and any one of them that gets there while
      the value is positive takes a unit. */
  lemma NoLostWakeup(value: nat, threads: set<Tid>, steps: seq<Step>, blocked: Tid)
    requires CanRun(Init(value, threads), steps)
    requires var s := Run(Init(value, threads), steps);
             blocked in s.pc && s.pc[blocked] == Blocked && s.sema.value > 0
    ensures var s := Run(Init(value, threads), steps);
            && s.sema.value <= |WokenThreads(s)|
            && exists u :: u in s.pc && Enabled(s, DownResume(u))
                           && Apply(s, DownResume(u)).downs == s.downs + 1
  {
    InitInv(value, threads);
    RunKeepsInv(Init(value, threads), steps);
    var s := Run(Init(value, threads), steps);
    assert blocked in s.sema.waiters;
    assert WokenThreads(s) != {};
    var u :| u in WokenThreads(s);
    assert Enabled(s, DownResume(u));
  }

  /** Only a blocked thread has no step to take; one that is away may begin a down or try one. */
  lemma NextSteps(s: State, t: Tid)
    requires t in s.pc
    ensures (exists step: Step :: !step.UpStep? && step.t == t && Enabled(s, step)) <==> s.pc[t] != Blocked
    ensures Enabled(s, DownBegin(t)) <==> s.pc[t] == Away
    ensures Enabled(s, DownTry(t)) <==> s.pc[t] == Away
  {
    assert Enabled(s, DownBegin(t)) || Enabled(s, DownResume(t)) || s.pc[t] == Blocked;
  }

  /** A try takes a unit exactly where there is one, whoever waits, and else changes nothing. */
  lemma TryTakesExactly(s: State, t: Tid)
    requires Enabled(s, DownTry(t))
    ensures var s' := Apply(s, DownTry(t));
            if s.sema.value == 0 then s' == s
            else s' == s.(sema := Sema(s.sema.value - 1, s.sema.waiters), downs := s.downs + 1)
  {}

  function UpCount(steps: seq<Step>): nat
  {
    if steps == [] then 0 else (if steps[0] == UpStep then 1 else 0) + UpCount(steps[1..])
  }

  /** The longest-waiting thread is the one woken: from any state on, the thread at place k of the
      waiters list stays blocked up to the (k+1)-st up, and that up wakes it. */
  lemma {:induction false} WokenInTurn(s: State, steps: seq<Step>, k: nat)
    requires Inv(s) && CanRun(s, steps) && k < |s.sema.waiters|
    ensures var t, s' := s.sema.waiters[k], Run(s, steps);
            && t in s.pc && t in s'.pc
            && (UpCount(steps) <= k ==> s'.pc[t] == Blocked)
            && (UpCount(steps) == k + 1 && steps[|steps| - 1] == UpStep ==> s'.pc[t] == Woken)
    decreases |steps|
  {
    var t := s.sema.waiters[k];
    assert t in s.sema.waiters;
    if steps != [] {
      var s1, rest := Apply(s, steps[0]), steps[1..];
      StepKeepsInv(s, steps[0]);
      if steps[0] != UpStep {
        assert s1.sema.waiters[k] == t;
        WokenInTurn(s1, rest, k);
      } else if k > 0 {
        assert s1.sema.waiters[k - 1] == t;
        WokenInTurn(s1, rest, k - 1);
      } else {
        assert s1.pc[t] == Woken;
        KeepsThreads(s1, rest, t);
        if UpCount(rest) == 0 && rest != [] { NoUps(rest); }
      }
    }
  }

  lemma {:induction false} KeepsThreads(s: State, steps: seq<Step>, t: Tid)
    requires Inv(s) && CanRun(s, steps) && t in s.pc
    ensures t in Run(s, steps).pc
    decreases |steps|
  {
    if steps != [] {
      StepKeepsInv(s, steps[0]);
      KeepsThreads(Apply(s, steps[0]), steps[1..], t);
    }
  }

  lemma {:induction false} NoUps(steps: seq<Step>)
    requires UpCount(steps) == 0 && steps != []
    ensures steps[|steps| - 1] != UpStep
  {
    if |steps| > 1 { NoUps(steps[1..]); }
  }

  /** A thread that finds no unit joins at the back. */
  lemma JoinsAtBack(s: State, t: Tid)
    requires Enabled(s, DownBegin(t)) && s.sema.value == 0
    ensures Apply(s, DownBegin(t)).sema.waiters == s.sema.waiters + [t]
  {}

  /** Units are neither made nor lost, and once no woken thread remains a thread can still be
      blocked only when every unit ever supplied has been taken. */
  lemma UnitsConserved(value: nat, threads: set<Tid>, steps: seq<Step>)
    requires CanRun(Init(value, threads), steps)
    ensures var s := Run(Init(value, threads), steps);
            && s.sema.value == value + s.ups - s.downs
            && (WokenThreads(s) == {} && s.sema.waiters != [] ==> s.downs == value + s.ups)
  {
    InitInv(value, threads);
    RunKeepsInv(Init(value, threads), steps);
    RunKeepsInitial(Init(value, threads), steps);
  }

  lemma {:induction false} RunKeepsInitial(s: State, steps: seq<Step>)
    requires CanRun(s, steps)
    ensures Run(s, steps).initial == s.initial
    decreases |steps|
  {
    if steps != [] { RunKeepsInitial(Apply(s, steps[0]), steps[1..]); }
  }
}
