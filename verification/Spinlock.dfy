/** The spinlock of exercise 29 and the workers that count under it, one atomic access a step.
    The increment is a separate load and store, so without the lock updates would be lost. */
module Spinlock {
  import opened Totals

  datatype Pc = Loop | Spin | Load | Store(seen: int) | Unlock | Exit

  /** `i` is the loop counter of `spin_worker`. */
  datatype Worker = Worker(pc: Pc, i: nat)

  datatype State = State(flag: bool, count: int, iters: nat, workers: seq<Worker>)

  ghost predicate Enabled(s: State, t: nat) {
    t < |s.workers| && s.workers[t].pc != Exit
  }

  ghost function Next(s: State, t: nat): State
    requires Enabled(s, t)
  {
    var me := s.workers[t];
    match me.pc
    case Loop => s.(workers := s.workers[t := me.(pc := if me.i < s.iters then Spin else Exit)])
    case Spin => s.(flag := true, workers := s.workers[t := me.(pc := if s.flag then Spin else Load)])
    case Load => s.(workers := s.workers[t := me.(pc := Store(s.count))])
    case Store(seen) => s.(count := seen + 1, workers := s.workers[t := me.(pc := Unlock)])
    case Unlock => s.(flag := false, workers := s.workers[t := Worker(Loop, me.i + 1)])
  }

  predicate Holds(w: Worker) { w.pc.Load? || w.pc.Store? || w.pc.Unlock? }
  function Holding(w: Worker): int { if Holds(w) then 1 else 0 }

  /** The increments this worker has made. */
  function Increments(w: Worker): int { w.i + if w.pc.Unlock? then 1 else 0 }

  ghost predicate Init(s: State) {
    !s.flag && s.count == 0 && forall t :: 0 <= t < |s.workers| ==> s.workers[t] == Worker(Loop, 0)
  }

  ghost predicate Inv(s: State) {
    && Total(s.workers, Holding) == (if s.flag then 1 else 0)
    && Total(s.workers, Increments) == s.count
    && (forall t :: 0 <= t < |s.workers| ==>
          var w := s.workers[t];
          && (w.pc.Store? ==> w.pc.seen == s.count)
          && (if w.pc == Loop then w.i <= s.iters else if w.pc == Exit then w.i == s.iters else w.i < s.iters))
  }

  lemma InitInv(s: State)
    requires Init(s)
    ensures Inv(s)
  {
    TotalConstant(s.workers, Holding, 0);
    TotalConstant(s.workers, Increments, 0);
  }

  lemma StepInv(s: State, t: nat)
    requires Inv(s) && Enabled(s, t)
    ensures Inv(Next(s, t))
  {
    var s' := Next(s, t);
    TotalUpdate(s.workers, t, s'.workers[t], Holding);
    TotalUpdate(s.workers, t, s'.workers[t], Increments);
    TotalNonnegative(s.workers, Holding);
    forall u | 0 <= u < |s.workers| && u != t
      ensures !(Holds(s.workers[t]) && Holds(s.workers[u]))
    {
      assert Holding(s.workers[t]) + Holding(s.workers[u]) <= 1;
    }
  }

  /** A schedule is the list of threads that take the steps. */
  ghost predicate IsRun(s: State, schedule: seq<nat>)
    decreases |schedule|
  {
    schedule == [] || (Enabled(s, schedule[0]) && IsRun(Next(s, schedule[0]), schedule[1..]))
  }

  ghost function Final(s: State, schedule: seq<nat>): State
    requires IsRun(s, schedule)
    decreases |schedule|
  {
    if schedule == [] then s else Final(Next(s, schedule[0]), schedule[1..])
  }

  lemma {:induction false} RunInv(s: State, schedule: seq<nat>)
    requires Inv(s) && IsRun(s, schedule)
    ensures Inv(Final(s, schedule))
    ensures |Final(s, schedule).workers| == |s.workers| && Final(s, schedule).iters == s.iters
    decreases |schedule|
  {
    if schedule != [] {
      StepInv(s, schedule[0]);
      RunInv(Next(s, schedule[0]), schedule[1..]);
    }
  }

  /** In every reachable state at most one worker is between `spin_lock` and `spin_unlock`. */
  lemma AtMostOneHolder(s0: State, schedule: seq<nat>)
    requires Init(s0) && IsRun(s0, schedule)
    ensures var s := Final(s0, schedule);
      forall t, u :: 0 <= t < u < |s.workers| ==> !(Holds(s.workers[t]) && Holds(s.workers[u]))
  {
    InitInv(s0);
    RunInv(s0, schedule);
    var s := Final(s0, schedule);
    TotalNonnegative(s.workers, Holding);
    forall t, u | 0 <= t < u < |s.workers|
      ensures !(Holds(s.workers[t]) && Holds(s.workers[u]))
    {
      assert Holding(s.workers[t]) + Holding(s.workers[u]) <= 1;
    }
  }

  /** When all workers have returned, no increment was lost. */
  lemma FinalCount(s0: State, schedule: seq<nat>)
    requires Init(s0) && IsRun(s0, schedule)
    requires forall t :: 0 <= t < |s0.workers| ==> !Enabled(Final(s0, schedule), t)
    ensures Final(s0, schedule).count == s0.iters * |s0.workers|
  {
    InitInv(s0);
    RunInv(s0, schedule);
    var s := Final(s0, schedule);
    forall t | 0 <= t < |s.workers|
      ensures Increments(s.workers[t]) == s0.iters
    {
      assert !Enabled(s, t);
    }
    TotalConstant(s.workers, Increments, s0.iters);
  }

  // ---------- progress ----------

  /** `spin_lock` on a free lock takes it in one step. */
  lemma FreeLockIsTaken(s: State, t: nat)
    requires t < |s.workers| && s.workers[t].pc == Spin && !s.flag
    ensures Enabled(s, t) && Next(s, t).flag && Next(s, t).workers[t].pc == Load
  {
  }

  /** The steps a worker still has to make, spinning apart. */
  function Left(iters: nat, w: Worker): int {
    5 * (iters - w.i) + match w.pc
      case Loop => 1
      case Spin => 0
      case Load => -1
      case Store(_) => -2
      case Unlock => -3
      case Exit => 0
  }

  function LeftOf(iters: nat): Worker -> int { w => Left(iters, w) }

  ghost function Remaining(s: State): int { Total(s.workers, LeftOf(s.iters)) }

  ghost predicate Finished(s: State) {
    forall t :: 0 <= t < |s.workers| ==> s.workers[t].pc == Exit
  }

  lemma RemainingNonnegative(s: State)
    requires Inv(s)
    ensures Remaining(s) >= 0
  {
    TotalNonnegative(s.workers, LeftOf(s.iters));
  }

  /** Every step brings the end nearer, but spinning on a taken lock. */
  lemma StepRemaining(s: State, t: nat)
    requires Inv(s) && Enabled(s, t) && !(s.workers[t].pc == Spin && s.flag)
    ensures Remaining(Next(s, t)) < Remaining(s)
  {
    var s' := Next(s, t);
    TotalUpdate(s.workers, t, s'.workers[t], LeftOf(s.iters));
  }

  /** Some worker can take such a step: the holder of the lock, or anyone if it is free. */
  lemma SomeoneAdvances(s: State) returns (t: nat)
    requires Inv(s) && !Finished(s)
    ensures Enabled(s, t) && !(s.workers[t].pc == Spin && s.flag)
  {
    if u: nat :| u < |s.workers| && Holds(s.workers[u]) {
      t := u;
    } else {
      TotalConstant(s.workers, Holding, 0);
      t :| t < |s.workers| && s.workers[t].pc != Exit;
    }
  }

  lemma CanFinish(s: State) returns (schedule: seq<nat>)
    requires Inv(s)
    ensures IsRun(s, schedule) && Finished(Final(s, schedule))
    decreases Remaining(s)
  {
    schedule := [];
    if !Finished(s) {
      var t := SomeoneAdvances(s);
      StepInv(s, t);
      StepRemaining(s, t);
      RemainingNonnegative(s);
      RemainingNonnegative(Next(s, t));
      var others := CanFinish(Next(s, t));
      schedule := [t] + others;
      assert schedule[1..] == others;
    }
  }

  /** From every reachable state some schedule lets all workers return: no state is a deadlock, and
      the counter can always reach its final value. */
  lemma AlwaysFinishable(s0: State, schedule: seq<nat>) returns (others: seq<nat>)
    requires Init(s0) && IsRun(s0, schedule)
    ensures var s := Final(s0, schedule);
      && IsRun(s, others) && Finished(Final(s, others))
      && Final(s, others).count == s0.iters * |s0.workers|
  {
    InitInv(s0);
    RunInv(s0, schedule);
    var s := Final(s0, schedule);
    others := CanFinish(s);
    RunInv(s, others);
    TotalConstant(Final(s, others).workers, Increments, s0.iters);
  }
}
