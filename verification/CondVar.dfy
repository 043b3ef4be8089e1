/** The condition variable that is built from a manual-reset event and a lock. Every block of code
    under the lock, and every return of the system's wait, is one step of one thread; the steps of
    all threads come in any order. */
module CondVar {

  datatype WaitResult = Object0 | TimedOut | WaitFailed

  /** Where a thread is: outside; in the system's wait; back from it and about to take the lock; or
      out of the loop with its result (0 woken, 1 timeout, -1 failure). */
  datatype Phase = Outside | Blocked(gen: int) | Polled(gen: int, res: WaitResult) | Leaving(result: int)

  datatype State = State(nWaiting: int, nToWake: int, generation: int, isSet: bool, threads: seq<Phase>)

  datatype Step = Signal(broadcast: bool) | Enter(t: nat) | Return(t: nat, res: WaitResult)
                | Check(t: nat, expired: bool) | Finish(t: nat)

  /** Can the step happen? The system's wait ends with success only while the event is set. */
  predicate Enabled(s: State, step: Step) {
    match step
    case Signal(_) => true
    case Enter(t) => t < |s.threads| && s.threads[t].Outside?
    case Return(t, res) => t < |s.threads| && s.threads[t].Blocked? && (res == Object0 ==> s.isSet)
    case Check(t, _) => t < |s.threads| && s.threads[t].Polled?
    case Finish(t) => t < |s.threads| && s.threads[t].Leaving?
  }

  /** The part of the wait loop under the lock: `expired` says that there is a timeout and it is over. */
  function CheckStep(s: State, t: nat, expired: bool): State
    requires t < |s.threads| && s.threads[t].Polled?
  {
    var p := s.threads[t];
    if s.nToWake != 0 && s.generation != p.gen then
      s.(nToWake := s.nToWake - 1, nWaiting := s.nWaiting - 1, threads := s.threads[t := Leaving(0)])
    else if p.res != Object0 then
      s.(nWaiting := s.nWaiting - 1, threads := s.threads[t := Leaving(if p.res == TimedOut then 1 else -1)])
    else if expired then
      s.(nWaiting := s.nWaiting - 1, threads := s.threads[t := Leaving(1)])
    else
      s.(isSet := s.isSet && s.nToWake != 0, threads := s.threads[t := Blocked(p.gen)])
  }

  function Next(s: State, step: Step): (s': State)
    requires Enabled(s, step)
    ensures |s'.threads| == |s.threads|
  {
    match step
    case Signal(broadcast) =>
      s.(nToWake := if broadcast then s.nWaiting else s.nToWake + 1, generation := s.generation + 1, isSet := true)
    case Enter(t) => s.(nWaiting := s.nWaiting + 1, threads := s.threads[t := Blocked(s.generation)])
    case Return(t, res) => s.(threads := s.threads[t := Polled(s.threads[t].gen, res)])
    case Check(t, expired) => CheckStep(s, t, expired)
    case Finish(t) => s.(isSet := s.isSet && s.nWaiting != 0, threads := s.threads[t := Outside])
  }

  predicate Inside(p: Phase) {
    p.Blocked? || p.Polled?
  }

  /** Waiting since before the last signal. */
  predicate Older(p: Phase, generation: int) {
    Inside(p) && p.gen != generation
  }

  function CountInside(threads: seq<Phase>): nat {
    if threads == [] then 0
    else CountInside(threads[..|threads| - 1]) + if Inside(threads[|threads| - 1]) then 1 else 0
  }

  function CountOlder(threads: seq<Phase>, generation: int): nat {
    if threads == [] then 0
    else CountOlder(threads[..|threads| - 1], generation) + if Older(threads[|threads| - 1], generation) then 1 else 0
  }

  lemma {:induction false} CountsUpdate(threads: seq<Phase>, t: nat, p: Phase, generation: int)
    requires t < |threads|
    ensures CountInside(threads[t := p])
            == CountInside(threads) + (if Inside(p) then 1 else 0) - (if Inside(threads[t]) then 1 else 0)
    ensures CountOlder(threads[t := p], generation)
            == CountOlder(threads, generation) + (if Older(p, generation) then 1 else 0)
               - (if Older(threads[t], generation) then 1 else 0)
  {
    var n := |threads| - 1;
    if t == n {
      assert threads[t := p][..n] == threads[..n];
    } else {
      assert threads[t := p][..n] == threads[..n][t := p];
      CountsUpdate(threads[..n], t, p, generation);
    }
  }

  /** After a signal every waiting thread counts as older. */
  lemma {:induction false} AllOlder(threads: seq<Phase>, generation: int)
    requires forall p :: p in threads && Inside(p) ==> p.gen < generation
    ensures CountOlder(threads, generation) == CountInside(threads)
  {
    if threads != [] {
      AllOlder(threads[..|threads| - 1], generation);
    }
  }

  lemma {:induction false} OlderThere(threads: seq<Phase>, t: nat, generation: int)
    requires t < |threads|
    ensures Older(threads[t], generation) ==> CountOlder(threads, generation) > 0
    ensures CountOlder(threads, generation) <= CountInside(threads)
  {
    CountsUpdate(threads, t, Outside, generation);
    OlderLess(threads, generation);
  }

  lemma {:induction false} OlderLess(threads: seq<Phase>, generation: int)
    ensures CountOlder(threads, generation) <= CountInside(threads)
  {
    if threads != [] {
      OlderLess(threads[..|threads| - 1], generation);
    }
  }

  /** What every step keeps: the count of waiting threads is right, and as long as there is someone to
      wake and someone who may be woken, the event is set. */
  predicate Invariant(s: State) {
    && s.nWaiting == CountInside(s.threads) && s.nToWake >= 0
    && (forall p :: p in s.threads && Inside(p) ==> p.gen <= s.generation)
    && (s.nToWake > 0 && CountOlder(s.threads, s.generation) > 0 ==> s.isSet)
  }

  lemma InvariantKept(s: State, step: Step)
    requires Invariant(s) && Enabled(s, step)
    ensures Invariant(Next(s, step))
  {
    match step
    case Signal(broadcast) =>
    case Enter(t) => CountsUpdate(s.threads, t, Blocked(s.generation), s.generation);
    case Return(t, res) => CountsUpdate(s.threads, t, Polled(s.threads[t].gen, res), s.generation);
    case Check(t, expired) =>
      CountsUpdate(s.threads, t, Next(s, step).threads[t], s.generation);
      assert s.threads[t] in s.threads;
    case Finish(t) =>
      CountsUpdate(s.threads, t, Outside, s.generation);
      OlderLess(s.threads, s.generation);
  }

  predicate IsRun(s: State, steps: seq<Step>)
    decreases |steps|, 0
  {
    steps == [] || (IsRun(s, steps[..|steps| - 1]) && Enabled(After(s, steps[..|steps| - 1]), steps[|steps| - 1]))
  }

  function After(s: State, steps: seq<Step>): (s': State)
    requires IsRun(s, steps)
    ensures |s'.threads| == |s.threads|
    decreases |steps|, 1
  {
    if steps == [] then s else Next(After(s, steps[..|steps| - 1]), steps[|steps| - 1])
  }

  function Start(n: nat): State {
    State(0, 0, 0, false, seq(n, _ => Outside))
  }

  lemma {:induction false} StartCounts(n: nat)
    ensures CountInside(Start(n).threads) == 0 && CountOlder(Start(n).threads, 0) == 0
  {
    if n > 0 {
      StartCounts(n - 1);
      assert Start(n).threads[..n - 1] == Start(n - 1).threads;
    }
  }

  /** In every interleaving the invariant holds. */
  lemma {:induction false} AlwaysInvariant(n: nat, steps: seq<Step>)
    requires IsRun(Start(n), steps)
    ensures Invariant(After(Start(n), steps))
    decreases |steps|
  {
    if steps == [] {
      StartCounts(n);
    } else {
      AlwaysInvariant(n, steps[..|steps| - 1]);
      InvariantKept(After(Start(n), steps[..|steps| - 1]), steps[|steps| - 1]);
    }
  }

  // Broadcasts only.

  predicate BroadcastsOnly(steps: seq<Step>) {
    forall step :: step in steps && step.Signal? ==> step.broadcast
  }

  /** There are as many threads to wake as threads that may be woken. */
  predicate Exact(s: State) {
    Invariant(s) && s.nToWake == CountOlder(s.threads, s.generation)
  }

  lemma ExactKept(s: State, step: Step)
    requires Exact(s) && Enabled(s, step) && (step.Signal? ==> step.broadcast)
    ensures Exact(Next(s, step))
  {
    InvariantKept(s, step);
    match step
    case Signal(broadcast) => AllOlder(s.threads, s.generation + 1);
    case Enter(t) => CountsUpdate(s.threads, t, Blocked(s.generation), s.generation);
    case Return(t, res) => CountsUpdate(s.threads, t, Polled(s.threads[t].gen, res), s.generation);
    case Check(t, expired) =>
      OlderThere(s.threads, t, s.generation);
      CountsUpdate(s.threads, t, Next(s, step).threads[t], s.generation);
    case Finish(t) => CountsUpdate(s.threads, t, Outside, s.generation);
  }

  lemma {:induction false} AlwaysExact(n: nat, steps: seq<Step>)
    requires IsRun(Start(n), steps) && BroadcastsOnly(steps)
    ensures Exact(After(Start(n), steps))
    decreases |steps|
  {
    if steps == [] {
      StartCounts(n);
    } else {
      var m := |steps| - 1;
      assert forall step :: step in steps[..m] ==> step in steps;
      AlwaysExact(n, steps[..m]);
      ExactKept(After(Start(n), steps[..m]), steps[m]);
    }
  }

  /** A thread that waits when a broadcast happens can return from the system's wait at any time, and
      then leaves with 0, whatever the wait itself said. */
  lemma NotStuck(s: State, t: nat)
    requires Exact(s) && t < |s.threads| && Older(s.threads[t], s.generation)
    ensures s.threads[t].Blocked? ==> Enabled(s, Return(t, Object0))
    ensures s.threads[t].Polled? ==> forall expired :: Next(s, Check(t, expired)).threads[t] == Leaving(0)
  {
    OlderThere(s.threads, t, s.generation);
  }

  /** Up to step `k` of the run, but not after it, the thread is one that waits since before the last
      broadcast. */
  predicate OlderUntil(s: State, steps: seq<Step>, t: nat, k: nat)
    requires k <= |steps| + 1
  {
    forall j :: 0 <= j < k ==> OlderAfter(s, steps, t, j)
  }

  predicate OlderAfter(s: State, steps: seq<Step>, t: nat, j: nat)
    requires j <= |steps|
  {
    IsRun(s, steps[..j])
    && var now := After(s, steps[..j]); t < |now.threads| && Older(now.threads[t], now.generation)
  }

  /** The first time that the thread is found not to wait like that any more, it leaves with 0. */
  predicate LeavesWoken(s: State, steps: seq<Step>, t: nat, k: nat)
    requires k <= |steps|
  {
    && OlderUntil(s, steps, t, k) && IsRun(s, steps[..k])
    && t < |s.threads| && After(s, steps[..k]).threads[t] == Leaving(0)
  }

  lemma OlderPrefix(s: State, steps: seq<Step>, t: nat, m: nat)
    requires m <= |steps|
    ensures forall j :: 0 <= j <= m ==> steps[..m][..j] == steps[..j]
    ensures forall k :: 0 <= k <= m + 1 && OlderUntil(s, steps[..m], t, k) ==> OlderUntil(s, steps, t, k)
  {
    forall k | 0 <= k <= m + 1 && OlderUntil(s, steps[..m], t, k) ensures OlderUntil(s, steps, t, k) {
      forall j | 0 <= j < k ensures OlderAfter(s, steps, t, j) {
        assert OlderAfter(s, steps[..m], t, j) && steps[..m][..j] == steps[..j];
      }
    }
  }

  /** Over the rest of the run it goes on waiting as an older thread, until it leaves with 0: it never
      leaves with a timeout or a failure. */
  lemma {:induction false} BroadcastWakes(s: State, steps: seq<Step>, t: nat)
    requires Exact(s) && IsRun(s, steps) && BroadcastsOnly(steps)
    requires t < |s.threads| && Older(s.threads[t], s.generation)
    ensures Exact(After(s, steps))
    ensures OlderUntil(s, steps, t, |steps| + 1) || exists k :: 0 < k <= |steps| && LeavesWoken(s, steps, t, k)
    decreases |steps|
  {
    if steps == [] {
      assert OlderAfter(s, steps, t, 0);
    } else {
      var m := |steps| - 1;
      assert forall step :: step in steps[..m] ==> step in steps;
      BroadcastWakes(s, steps[..m], t);
      OlderPrefix(s, steps, t, m);
      var before := After(s, steps[..m]);
      ExactKept(before, steps[m]);
      if OlderUntil(s, steps[..m], t, m + 1) {
        assert OlderAfter(s, steps, t, m);
        OlderStep(before, steps[m], t);
        assert steps[..|steps|] == steps;
        if Older(Next(before, steps[m]).threads[t], Next(before, steps[m]).generation) {
          assert OlderAfter(s, steps, t, m + 1);
        } else {
          assert LeavesWoken(s, steps, t, m + 1);
        }
      } else {
        var k :| 0 < k <= m && LeavesWoken(s, steps[..m], t, k);
        assert LeavesWoken(s, steps, t, k);
      }
    }
  }

  /** One step of that. */
  lemma OlderStep(s: State, step: Step, t: nat)
    requires Exact(s) && Enabled(s, step) && (step.Signal? ==> step.broadcast)
    requires t < |s.threads| && Older(s.threads[t], s.generation)
    ensures var now := Next(s, step); Older(now.threads[t], now.generation) || now.threads[t] == Leaving(0)
  {
    NotStuck(s, t);
    assert s.threads[t] in s.threads;
  }

  // Single signals.

  predicate SignalsOnly(steps: seq<Step>) {
    forall step :: step in steps && step.Signal? ==> !step.broadcast
  }

  function SignalsSent(steps: seq<Step>): nat {
    if steps == [] then 0 else SignalsSent(steps[..|steps| - 1]) + if steps[|steps| - 1].Signal? then 1 else 0
  }

  /** Is this the step of a thread that leaves because it is woken? */
  predicate IsWake(s: State, step: Step) {
    step.Check? && Enabled(s, step) && Next(s, step).threads[step.t] == Leaving(0)
  }

  function Wakes(s: State, steps: seq<Step>): nat
    requires IsRun(s, steps)
  {
    if steps == [] then 0
    else
      var m := |steps| - 1;
      Wakes(s, steps[..m]) + if IsWake(After(s, steps[..m]), steps[m]) then 1 else 0
  }

  /** No signal is lost or counted twice: each one has woken a thread or is still to be used. */
  lemma {:induction false} SignalsConserved(n: nat, steps: seq<Step>)
    requires IsRun(Start(n), steps) && SignalsOnly(steps)
    ensures After(Start(n), steps).nToWake + Wakes(Start(n), steps) == SignalsSent(steps)
    decreases |steps|
  {
    if steps != [] {
      var m := |steps| - 1;
      assert forall step :: step in steps[..m] ==> step in steps;
      SignalsConserved(n, steps[..m]);
    }
  }

  /** A thread that was there before the last signal leaves with 0 just when fewer threads have been
      woken than signals were sent. */
  lemma WokenIff(n: nat, steps: seq<Step>, t: nat, expired: bool)
    requires IsRun(Start(n), steps) && SignalsOnly(steps)
    requires var s := After(Start(n), steps);
             t < n && s.threads[t].Polled? && Older(s.threads[t], s.generation)
    ensures IsWake(After(Start(n), steps), Check(t, expired)) <==> Wakes(Start(n), steps) < SignalsSent(steps)
  {
    SignalsConserved(n, steps);
    AlwaysInvariant(n, steps);
  }

  function Stolen(): seq<Step> {
    [Enter(0), Signal(false), Enter(1), Enter(2), Signal(false),
     Return(1, Object0), Check(1, false), Return(2, Object0), Check(2, false), Return(0, TimedOut)]
  }

  /** Two threads that came after a signal can use up it and their own: the one thread that was waiting
      for it times out. */
  lemma SignalStolen()
    ensures IsRun(Start(3), Stolen()) && IsRun(Start(3), Stolen()[..2])
    ensures After(Start(3), Stolen()[..2]).threads[0].Blocked? && After(Start(3), Stolen()[..2]).nToWake == 1
    ensures Next(After(Start(3), Stolen()), Check(0, false)).threads[0] == Leaving(1)
  {
    hide After, IsRun;
    var steps := Stolen();
    var s0 := Start(3);
    var s1 := Next(s0, steps[0]);
    RunStep(s0, steps, 0, s0);
    RunStep(s0, steps, 1, s1);
    var s2 := Next(s1, steps[1]);
    RunStep(s0, steps, 2, s2);
    var s3 := Next(s2, steps[2]);
    RunStep(s0, steps, 3, s3);
    var s4 := Next(s3, steps[3]);
    RunStep(s0, steps, 4, s4);
    var s5 := Next(s4, steps[4]);
    RunStep(s0, steps, 5, s5);
    var s6 := Next(s5, steps[5]);
    RunStep(s0, steps, 6, s6);
    var s7 := Next(s6, steps[6]);
    RunStep(s0, steps, 7, s7);
    var s8 := Next(s7, steps[7]);
    RunStep(s0, steps, 8, s8);
    var s9 := Next(s8, steps[8]);
    RunStep(s0, steps, 9, s9);
    assert steps[..10] == steps;
  }

  lemma RunStep(s0: State, steps: seq<Step>, k: nat, s: State)
    requires k < |steps| && (k > 0 ==> IsRun(s0, steps[..k]) && After(s0, steps[..k]) == s) && (k == 0 ==> s == s0)
    requires Enabled(s, steps[k])
    ensures IsRun(s0, steps[..k + 1]) && After(s0, steps[..k + 1]) == Next(s, steps[k])
  {
    var before, upto := steps[..k], steps[..k + 1];
    assert IsRun(s0, before) && After(s0, before) == s;
    assert upto[..|upto| - 1] == before && upto[|upto| - 1] == steps[k];
  }

  // The condition variable itself.

  class Cond {
    var nWaiting: int
    var nToWake: int
    var generation: int
    var event: bool

    constructor ()
      ensures forall n: nat :: View(seq(n, _ => Outside)) == Start(n)
    {
      nWaiting, nToWake, generation, event := 0, 0, 0, false;
    }

    ghost function View(threads: seq<Phase>): State
      reads this
    {
      State(nWaiting, nToWake, generation, event, threads)
    }

    /** evthread_win32_cond_signal. */
    method Wake(broadcast: bool)
      modifies this
      ensures forall threads :: View(threads) == Next(old(View(threads)), Signal(broadcast))
    {
      if broadcast {
        nToWake := nWaiting;
      } else {
        nToWake := nToWake + 1;
      }
      generation := generation + 1;
      event := true;
    }

    /** The start of evthread_win32_cond_wait. */
    method BeginWait() returns (gen: int)
      modifies this
      ensures forall threads, t: nat :: Enabled(old(View(threads)), Enter(t)) ==>
                View(threads[t := Blocked(gen)]) == Next(old(View(threads)), Enter(t))
    {
      nWaiting := nWaiting + 1;
      gen := generation;
    }

    /** The body of the wait loop after the system's wait has returned `res`. */
    method CheckWait(gen: int, res: WaitResult, hasTimeout: bool, isOver: bool) returns (waiting: bool, result: int)
      modifies this
      ensures forall threads, t: nat :: t < |threads| && threads[t] == Polled(gen, res) ==>
                View(threads[t := if waiting then Blocked(gen) else Leaving(result)])
                == Next(old(View(threads)), Check(t, hasTimeout && isOver))
    {
      if nToWake != 0 && generation != gen {
        nToWake := nToWake - 1;
        nWaiting := nWaiting - 1;
        return false, 0;
      } else if res != Object0 {
        nWaiting := nWaiting - 1;
        return false, if res == TimedOut then 1 else -1;
      } else if hasTimeout {
        if isOver {
          nWaiting := nWaiting - 1;
          return false, 1;
        }
      }
      if nToWake == 0 {
        event := false;
      }
      return true, -1;
    }

    /** The end of evthread_win32_cond_wait. */
    method EndWait()
      modifies this
      ensures forall threads, t: nat :: Enabled(old(View(threads)), Finish(t)) ==>
                View(threads[t := Outside]) == Next(old(View(threads)), Finish(t))
    {
      if nWaiting == 0 {
        event := false;
      }
    }
  }
}
