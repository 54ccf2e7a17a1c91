/** Why the lock-free stack needs its assumption: if a node is pushed again while a pop still holds
    a pointer to it, the stack ends up with a node that was already taken off. */
module TreiberReuse {
  import opened TreiberStack

  // ---------- runs in which nodes may be pushed again ----------

  ghost predicate IsReuseRun(s: State, steps: seq<Step>)
    decreases |steps|
  {
    steps == [] || (Possible(s, steps[0]) && IsReuseRun(Next(s, steps[0]), steps[1..]))
  }

  /** The state after a run and the log of its events. */
  ghost function Outcome(s: State, log: seq<Event>, steps: seq<Step>): (State, seq<Event>)
    requires IsReuseRun(s, steps)
    decreases |steps|
  {
    if steps == [] then (s, log) else Outcome(Next(s, steps[0]), log + Events(s, steps[0]), steps[1..])
  }

  lemma {:induction false} OneMoreStep(s: State, log: seq<Event>, steps: seq<Step>, step: Step)
    requires IsReuseRun(s, steps) && Possible(Outcome(s, log, steps).0, step)
    ensures IsReuseRun(s, steps + [step])
    ensures var (s', log') := Outcome(s, log, steps);
      Outcome(s, log, steps + [step]) == (Next(s', step), log' + Events(s', step))
    decreases |steps|
  {
    if steps == [] {
      assert [step][1..] == [];
      assert steps + [step] == [step];
    } else {
      assert (steps + [step])[1..] == steps[1..] + [step];
      OneMoreStep(Next(s, steps[0]), log + Events(s, steps[0]), steps[1..], step);
    }
  }

  ghost predicate Reached(s0: State, s: State, log: seq<Event>) {
    exists steps :: IsReuseRun(s0, steps) && Outcome(s0, [], steps) == (s, log)
  }

  lemma ReachNext(s0: State, s: State, log: seq<Event>, step: Step)
    requires Reached(s0, s, log) && Possible(s, step)
    ensures Reached(s0, Next(s, step), log + Events(s, step))
  {
    var steps :| IsReuseRun(s0, steps) && Outcome(s0, [], steps) == (s, log);
    OneMoreStep(s0, [], steps, step);
  }

  // ---------- an operation without interference ----------

  lemma ReplayQuiet(log: seq<Event>, e: Event)
    ensures Replay(log + [e]) == if e.Committed? then StackOp(Replay(log), e.op).0 else Replay(log)
  {
    assert (log + [e])[..|log|] == log;
  }

  /** A thread pushes node `n`, alone. */
  lemma SoloPush(s0: State, s: State, log: seq<Event>, t: nat, n: nat) returns (log': seq<Event>)
    requires Reached(s0, s, log) && t < |s.threads| && s.threads[t] == Idle
    ensures Reached(s0, s.(head := At(n), next := s.next[n := s.head], used := s.used + {n}), log')
    ensures Replay(log') == [n] + Replay(log)
  {
    var run := Run(t, false);
    ReachNext(s0, s, log, Invoke(t, Push(n)));
    var s1, log1 := Next(s, Invoke(t, Push(n))), log + [Called(t, Push(n))];
    ReachNext(s0, s1, log1, run);
    var s2 := Next(s1, run);
    assert log1 + [] == log1;
    ReachNext(s0, s2, log1, run);
    var s3 := Next(s2, run);
    ReachNext(s0, s3, log1, run);
    var s4, log4 := Next(s3, run), log1 + [Committed(t, Push(n), Null)];
    ReachNext(s0, s4, log4, Return(t));
    log' := log4 + [Returned(t, Push(n), Null)];
    assert Next(s4, Return(t)).threads == s.threads;
    ReplayQuiet(log, Called(t, Push(n)));
    ReplayQuiet(log1, Committed(t, Push(n), Null));
    ReplayQuiet(log4, Returned(t, Push(n), Null));
  }

  /** A thread starts to pop: it has read the front node `n` and the one below it. */
  lemma BeginPop(s0: State, s: State, log: seq<Event>, t: nat, n: nat) returns (log': seq<Event>)
    requires Reached(s0, s, log) && t < |s.threads| && s.threads[t] == Idle && s.head == At(n) && n in s.next
    ensures Reached(s0, s.(threads := s.threads[t := PopCas(n, s.next[n])]), log')
    ensures Replay(log') == Replay(log)
  {
    var run := Run(t, false);
    ReachNext(s0, s, log, Invoke(t, Pop));
    var s1 := Next(s, Invoke(t, Pop));
    log' := log + [Called(t, Pop)];
    ReachNext(s0, s1, log', run);
    var s2 := Next(s1, run);
    assert log' + [] == log';
    ReachNext(s0, s2, log', run);
    assert Next(s2, run).threads == s.threads[t := PopCas(n, s.next[n])];
    ReplayQuiet(log, Called(t, Pop));
  }

  /** Its CAS succeeds if the front node is `n`, or is `n` again. */
  lemma EndPop(s0: State, s: State, log: seq<Event>, t: nat, n: nat, below: Ptr) returns (log': seq<Event>)
    requires Reached(s0, s, log) && t < |s.threads| && s.threads[t] == PopCas(n, below)
    requires s.head == At(n) && Replay(log) != [] && Replay(log)[0] == n
    ensures Reached(s0, s.(head := below, threads := s.threads[t := Finished(Pop, At(n))]), log')
    ensures Replay(log') == Replay(log)[1..]
  {
    ReachNext(s0, s, log, Run(t, false));
    log' := log + [Committed(t, Pop, At(n))];
    ReplayQuiet(log, Committed(t, Pop, At(n)));
  }

  lemma ReturnFrom(s0: State, s: State, log: seq<Event>, t: nat) returns (log': seq<Event>)
    requires Reached(s0, s, log) && t < |s.threads| && s.threads[t].Finished?
    ensures Reached(s0, s.(threads := s.threads[t := Idle]), log')
    ensures Replay(log') == Replay(log)
  {
    ReachNext(s0, s, log, Return(t));
    var e := Returned(t, s.threads[t].op, s.threads[t].result);
    log' := log + [e];
    ReplayQuiet(log, e);
  }

  /** A thread pops the front node, alone. */
  lemma SoloPop(s0: State, s: State, log: seq<Event>, t: nat, n: nat) returns (log': seq<Event>)
    requires Reached(s0, s, log) && t < |s.threads| && s.threads[t] == Idle
    requires s.head == At(n) && n in s.next && Replay(log) != [] && Replay(log)[0] == n
    ensures Reached(s0, s.(head := s.next[n]), log')
    ensures Replay(log') == Replay(log)[1..]
  {
    log' := BeginPop(s0, s, log, t, n);
    var s1 := s.(threads := s.threads[t := PopCas(n, s.next[n])]);
    log' := EndPop(s0, s1, log', t, n, s.next[n]);
    var s2 := s1.(head := s.next[n], threads := s1.threads[t := Finished(Pop, At(n))]);
    log' := ReturnFrom(s0, s2, log', t);
    assert s2.threads[t := Idle] == s.threads;
  }

  /** A pop alone on an empty stack returns NULL and changes nothing. */
  lemma SoloPopEmpty(s0: State, s: State, log: seq<Event>, t: nat) returns (log': seq<Event>)
    requires Reached(s0, s, log) && t < |s.threads| && s.threads[t] == Idle
    requires s.head == Null && Replay(log) == []
    ensures Reached(s0, s, log') && Replay(log') == []
    ensures log' == log + [Called(t, Pop), Committed(t, Pop, Null), Returned(t, Pop, Null)]
  {
    ReachNext(s0, s, log, Invoke(t, Pop));
    var s1, log1 := Next(s, Invoke(t, Pop)), log + [Called(t, Pop)];
    ReachNext(s0, s1, log1, Run(t, false));
    var s2, log2 := Next(s1, Run(t, false)), log1 + [Committed(t, Pop, Null)];
    ReachNext(s0, s2, log2, Return(t));
    log' := log2 + [Returned(t, Pop, Null)];
    assert Next(s2, Return(t)).threads == s.threads;
    ReplayQuiet(log, Called(t, Pop));
    ReplayQuiet(log1, Committed(t, Pop, Null));
    ReplayQuiet(log2, Returned(t, Pop, Null));
  }

  // ---------- the failing run ----------

  lemma TwoPushed(s0: State, a: nat, b: nat) returns (log: seq<Event>)
    requires s0 == State(Null, map[], [Idle, Idle], {}) && a != b
    ensures Reached(s0, State(At(b), map[a := Null, b := At(a)], [Idle, Idle], {a, b}), log)
    ensures Replay(log) == [b, a]
  {
    assert IsReuseRun(s0, []) && Outcome(s0, [], []) == (s0, []);
    log := SoloPush(s0, s0, [], 1, a);
    var s1 := State(At(a), map[a := Null], [Idle, Idle], {a});
    assert s1 == s0.(head := At(a), next := s0.next[a := Null], used := s0.used + {a});
    log := SoloPush(s0, s1, log, 1, b);
    assert s1.next[b := At(a)] == map[a := Null, b := At(a)] && s1.used + {b} == {a, b};
  }

  /** Thread 0 reads the front of the stack b, a; thread 1 pops both and pushes b again; the CAS of
      thread 0 succeeds.  The operations leave an empty stack, but `head` points to a, which was
      popped before. */
  lemma ReuseBreaksTheStack(a: nat, b: nat)
    requires a != b
    ensures exists s0, s, log ::
      Init(s0) && |s0.threads| == 2 && Reached(s0, s, log) && Replay(log) == [] && s.head == At(a)
  {
    var s0 := State(Null, map[], [Idle, Idle], {});
    var log := TwoPushed(s0, a, b);
    var s2 := State(At(b), map[a := Null, b := At(a)], [Idle, Idle], {a, b});
    log := BeginPop(s0, s2, log, 0, b);
    var s3 := s2.(threads := s2.threads[0 := PopCas(b, At(a))]);
    log := SoloPop(s0, s3, log, 1, b);
    log := SoloPop(s0, s3.(head := At(a)), log, 1, a);
    var s5 := s3.(head := Null);
    log := SoloPush(s0, s5, log, 1, b);
    var s6 := s5.(head := At(b), next := s5.next[b := Null], used := s5.used + {b});
    log := EndPop(s0, s6, log, 0, b, At(a));
  }
}
