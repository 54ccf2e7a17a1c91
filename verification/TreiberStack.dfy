/** The lock-free stack of exercise 29 as a machine of single atomic steps, and the proof that it
    is linearizable.  Addresses of nodes are naturals.  Assumed, as the exercise itself says:
    a node is pushed at most once and never reclaimed. */
module TreiberStack {
  import opened Sequences

  datatype Ptr = Null | At(node: nat)

  datatype Op = Push(node: nat) | Pop

  /** Where a thread is: the load, the access to `next`, and the weak CAS of each loop. */
  datatype Thread =
    | Idle
    | PushLoad(node: nat) | PushLink(node: nat, seen: Ptr) | PushCas(node: nat, seen: Ptr)
    | PopLoad | PopNext(top: nat) | PopCas(top: nat, below: Ptr)
    | Finished(op: Op, result: Ptr)

  /** `used` holds the nodes ever handed to `lf_push`. */
  datatype State = State(head: Ptr, next: map<nat, Ptr>, threads: seq<Thread>, used: set<nat>)

  /** A Run step with `spurious` is one in which a weak CAS fails although `head` matches. */
  datatype Step = Invoke(t: nat, op: Op) | Run(t: nat, spurious: bool) | Return(t: nat)

  datatype Event =
    | Called(t: nat, op: Op)
    | Committed(t: nat, op: Op, result: Ptr)
    | Returned(t: nat, op: Op, result: Ptr)

  // ---------- the machine ----------

  /** What a thread can do next. */
  ghost predicate Possible(s: State, step: Step) {
    && step.t < |s.threads|
    && var me := s.threads[step.t];
       match step
       case Invoke(_, _) => me.Idle?
       case Run(_, _) => !me.Idle? && !me.Finished? && (me.PopNext? ==> me.top in s.next)
       case Return(_) => me.Finished?
  }

  /** The assumption on the callers: no node is pushed twice. */
  ghost predicate Enabled(s: State, step: Step) {
    Possible(s, step) && (step.Invoke? && step.op.Push? ==> step.op.node !in s.used)
  }

  function Start(op: Op): Thread {
    match op
    case Push(n) => PushLoad(n)
    case Pop => PopLoad
  }

  /** Does the compare-and-exchange of this thread succeed? */
  ghost predicate Succeeds(s: State, step: Step)
    requires Possible(s, step)
  {
    && step.Run? && !step.spurious
    && match s.threads[step.t]
       case PushCas(_, seen) => s.head == seen
       case PopCas(top, _) => s.head == At(top)
       case _ => false
  }

  ghost function Next(s: State, step: Step): State
    requires Possible(s, step)
  {
    var t := step.t;
    var me := s.threads[t];
    match step
    case Invoke(_, op) =>
      s.(threads := s.threads[t := Start(op)],
         used := if op.Push? then s.used + {op.node} else s.used)
    case Return(_) => s.(threads := s.threads[t := Idle])
    case Run(_, _) =>
      match me
      case PushLoad(n) => s.(threads := s.threads[t := PushLink(n, s.head)])
      case PushLink(n, seen) => s.(next := s.next[n := seen], threads := s.threads[t := PushCas(n, seen)])
      case PushCas(n, seen) =>
        if Succeeds(s, step)
        then s.(head := At(n), threads := s.threads[t := Finished(Push(n), Null)])
        else s.(threads := s.threads[t := PushLoad(n)])
      case PopLoad =>
        s.(threads := s.threads[t := if s.head == Null then Finished(Pop, Null) else PopNext(s.head.node)])
      case PopNext(top) => s.(threads := s.threads[t := PopCas(top, s.next[top])])
      case PopCas(top, below) =>
        if Succeeds(s, step)
        then s.(head := below, threads := s.threads[t := Finished(Pop, At(top))])
        else s.(threads := s.threads[t := PopLoad])
  }

  /** The events of a step.  An operation commits at its successful CAS; a pop of an empty
      stack commits when it loads NULL. */
  ghost function Events(s: State, step: Step): seq<Event>
    requires Possible(s, step)
  {
    var t := step.t;
    match step
    case Invoke(_, op) => [Called(t, op)]
    case Return(_) => [Returned(t, s.threads[t].op, s.threads[t].result)]
    case Run(_, _) =>
      match s.threads[t]
      case PushCas(n, _) => if Succeeds(s, step) then [Committed(t, Push(n), Null)] else []
      case PopCas(top, _) => if Succeeds(s, step) then [Committed(t, Pop, At(top))] else []
      case PopLoad => if s.head == Null then [Committed(t, Pop, Null)] else []
      case _ => []
  }

  /** What callers see of a step. */
  ghost function Observed(s: State, step: Step): seq<Event>
    requires Possible(s, step)
  {
    match step
    case Invoke(t, op) => [Called(t, op)]
    case Return(t) => [Returned(t, s.threads[t].op, s.threads[t].result)]
    case Run(_, _) => []
  }

  ghost predicate Init(s: State) {
    s.head == Null && s.used == {} && forall t :: 0 <= t < |s.threads| ==> s.threads[t] == Idle
  }

  ghost predicate IsRun(s: State, steps: seq<Step>)
    decreases |steps|
  {
    steps == [] || (Enabled(s, steps[0]) && IsRun(Next(s, steps[0]), steps[1..]))
  }

  ghost function Final(s: State, steps: seq<Step>): State
    requires IsRun(s, steps)
    decreases |steps|
  {
    if steps == [] then s else Final(Next(s, steps[0]), steps[1..])
  }

  ghost function Log(s: State, steps: seq<Step>): seq<Event>
    requires IsRun(s, steps)
    decreases |steps|
  {
    if steps == [] then [] else Events(s, steps[0]) + Log(Next(s, steps[0]), steps[1..])
  }

  /** The calls and returns of a run, in the order they happen. */
  ghost function History(s: State, steps: seq<Step>): seq<Event>
    requires IsRun(s, steps)
    decreases |steps|
  {
    if steps == [] then []
    else Observed(s, steps[0]) + History(Next(s, steps[0]), steps[1..])
  }

  // ---------- linearizability ----------

  /** The sequential stack. */
  function StackOp(stack: seq<nat>, op: Op): (seq<nat>, Ptr) {
    match op
    case Push(n) => ([n] + stack, Null)
    case Pop => if stack == [] then ([], Null) else (stack[1..], At(stack[0]))
  }

  /** The sequential stack after the committed operations, in the order of their commits. */
  function Replay(log: seq<Event>): seq<nat> {
    if log == [] then []
    else
      var before := Replay(log[..|log| - 1]);
      match log[|log| - 1]
      case Committed(_, op, _) => StackOp(before, op).0
      case _ => before
  }

  /** Every operation returned what the sequential stack returns at its commit. */
  ghost predicate Legal(log: seq<Event>) {
    log == [] ||
    (var before, e := log[..|log| - 1], log[|log| - 1];
     && Legal(before)
     && (e.Committed? ==> e.result == StackOp(Replay(before), e.op).1))
  }

  datatype Phase = Quiet | Pending(op: Op) | Done(op: Op, result: Ptr)

  function AfterEvent(e: Event): Phase {
    match e
    case Called(_, op) => Pending(op)
    case Committed(_, op, r) => Done(op, r)
    case Returned(_, _, _) => Quiet
  }

  /** What thread `t` is in the middle of, according to the log. */
  function PhaseOf(log: seq<Event>, t: nat): Phase {
    if log == [] then Quiet
    else
      var e := log[|log| - 1];
      if e.t == t then AfterEvent(e) else PhaseOf(log[..|log| - 1], t)
  }

  /** Each operation commits exactly once, between its call and its return, with the result
      it returns. */
  ghost predicate WellFormed(log: seq<Event>) {
    log == [] ||
    (var before, e := log[..|log| - 1], log[|log| - 1];
     && WellFormed(before)
     && match e
        case Called(t, _) => PhaseOf(before, t) == Quiet
        case Committed(t, op, _) => PhaseOf(before, t) == Pending(op)
        case Returned(t, op, r) => PhaseOf(before, t) == Done(op, r))
  }

  /** What callers can observe. */
  function Visible(log: seq<Event>): seq<Event> {
    if log == [] then []
    else Visible(log[..|log| - 1]) + if log[|log| - 1].Committed? then [] else [log[|log| - 1]]
  }

  /** A history of calls and returns is linearizable if commit points can be placed in it, each
      inside its operation, such that the sequential stack explains every result. */
  ghost predicate Linearizable(history: seq<Event>) {
    exists log :: Visible(log) == history && WellFormed(log) && Legal(log)
  }

  // ---------- the invariant ----------

  /** From `p`, following `next`, the nodes are exactly `q`. */
  ghost predicate Chain(next: map<nat, Ptr>, p: Ptr, q: seq<nat>)
    decreases |q|
  {
    if q == [] then p == Null
    else p == At(q[0]) && q[0] in next && Chain(next, next[q[0]], q[1..])
  }

  /** The nodes whose push has committed. */
  function Published(log: seq<Event>): set<nat> {
    if log == [] then {}
    else
      var e := log[|log| - 1];
      Published(log[..|log| - 1]) + if e.Committed? && e.op.Push? then {e.op.node} else {}
  }

  predicate Pushing(me: Thread) { me.PushLoad? || me.PushLink? || me.PushCas? }

  function Expected(me: Thread): Phase {
    match me
    case Idle => Quiet
    case PushLoad(n) => Pending(Push(n))
    case PushLink(n, _) => Pending(Push(n))
    case PushCas(n, _) => Pending(Push(n))
    case PopLoad => Pending(Pop)
    case PopNext(_) => Pending(Pop)
    case PopCas(_, _) => Pending(Pop)
    case Finished(op, r) => Done(op, r)
  }

  ghost predicate Explained(s: State, log: seq<Event>) {
    && Legal(log) && WellFormed(log)
    && forall t: nat :: t < |s.threads| ==> PhaseOf(log, t) == Expected(s.threads[t])
  }

  /** The heap list is the abstract stack.  Only a node whose push has not committed is still
      written, so what a thread has read of a published node stays true. */
  ghost predicate HeapInv(s: State, stack: seq<nat>, published: set<nat>) {
    && Chain(s.next, s.head, stack)
    && (forall k :: 0 <= k < |stack| ==> stack[k] in published)
    && published <= s.used && published <= s.next.Keys
    && (forall t: nat :: t < |s.threads| ==>
          match s.threads[t]
          case PushLoad(n) => n in s.used - published
          case PushLink(n, _) => n in s.used - published
          case PushCas(n, seen) => n in s.used - published && n in s.next && s.next[n] == seen
          case PopNext(top) => top in published
          case PopCas(top, below) => top in published && s.next[top] == below
          case _ => true)
    && (forall t: nat, u: nat :: t < u < |s.threads| && Pushing(s.threads[t]) && Pushing(s.threads[u]) ==>
          s.threads[t].node != s.threads[u].node)
  }

  /** The nodes that committed pushes put on the stack, and those that committed pops took off. */
  function PushedNodes(log: seq<Event>): multiset<nat> {
    if log == [] then multiset{}
    else
      var e := log[|log| - 1];
      PushedNodes(log[..|log| - 1]) + if e.Committed? && e.op.Push? then multiset{e.op.node} else multiset{}
  }

  function PoppedNodes(log: seq<Event>): multiset<nat> {
    if log == [] then multiset{}
    else
      var e := log[|log| - 1];
      PoppedNodes(log[..|log| - 1])
      + if e.Committed? && e.op.Pop? && e.result.At? then multiset{e.result.node} else multiset{}
  }

  ghost predicate PushedOnce(log: seq<Event>) {
    forall n :: PushedNodes(log)[n] == if n in Published(log) then 1 else 0
  }

  ghost predicate Inv(s: State, log: seq<Event>) {
    Explained(s, log) && HeapInv(s, Replay(log), Published(log)) && PushedOnce(log)
  }

  lemma {:induction false} ChainFrame(next: map<nat, Ptr>, p: Ptr, q: seq<nat>, n: nat, x: Ptr)
    requires Chain(next, p, q) && n !in q
    ensures Chain(next[n := x], p, q)
    decreases |q|
  {
    if q != [] {
      ChainFrame(next, next[q[0]], q[1..], n, x);
    }
  }

  /** One event appended to the log. */
  lemma ExtendLog(log: seq<Event>, e: Event)
    ensures Replay(log + [e]) == if e.Committed? then StackOp(Replay(log), e.op).0 else Replay(log)
    ensures Published(log + [e]) == Published(log) + if e.Committed? && e.op.Push? then {e.op.node} else {}
    ensures PushedNodes(log + [e]) == PushedNodes(log) + if e.Committed? && e.op.Push? then multiset{e.op.node} else multiset{}
    ensures Visible(log + [e]) == Visible(log) + if e.Committed? then [] else [e]
    ensures forall t :: PhaseOf(log + [e], t) == if e.t == t then AfterEvent(e) else PhaseOf(log, t)
  {
    assert (log + [e])[..|log|] == log;
  }

  lemma ExtendExplained(s: State, log: seq<Event>, e: Event, s': State)
    requires Explained(s, log) && e.t < |s.threads| == |s'.threads|
    requires forall t: nat :: t < |s.threads| && t != e.t ==> s'.threads[t] == s.threads[t]
    requires match e
      case Called(_, op) => Expected(s.threads[e.t]) == Quiet && Expected(s'.threads[e.t]) == Pending(op)
      case Committed(_, op, r) => Expected(s.threads[e.t]) == Pending(op) && Expected(s'.threads[e.t]) == Done(op, r)
                                  && r == StackOp(Replay(log), op).1
      case Returned(_, op, r) => Expected(s.threads[e.t]) == Done(op, r) && Expected(s'.threads[e.t]) == Quiet
    ensures Explained(s', log + [e])
  {
    ExtendLog(log, e);
    assert (log + [e])[..|log|] == log;
  }

  lemma StepExplained(s: State, log: seq<Event>, step: Step)
    requires Explained(s, log) && Enabled(s, step)
    requires s.threads[step.t].PopLoad? && s.head == Null ==> Replay(log) == []
    requires s.threads[step.t].PopCas? && Succeeds(s, step) ==>
      Replay(log) != [] && s.threads[step.t].top == Replay(log)[0]
    ensures Explained(Next(s, step), log + Events(s, step))
  {
    var es := Events(s, step);
    if es == [] {
      assert log + es == log;
    } else {
      ExtendExplained(s, log, es[0], Next(s, step));
    }
  }

  /** The write of `next`: nothing that others rely on changes. */
  lemma LinkHeap(s: State, step: Step, stack: seq<nat>, published: set<nat>)
    requires HeapInv(s, stack, published) && Enabled(s, step)
    requires step.Run? && s.threads[step.t].PushLink?
    ensures HeapInv(Next(s, step), stack, published)
  {
    ChainFrame(s.next, s.head, stack, s.threads[step.t].node, s.threads[step.t].seen);
  }

  lemma PushCasHeap(s: State, step: Step, stack: seq<nat>, published: set<nat>)
    requires HeapInv(s, stack, published) && Enabled(s, step)
    requires s.threads[step.t].PushCas? && Succeeds(s, step)
    ensures HeapInv(Next(s, step), [s.threads[step.t].node] + stack, published + {s.threads[step.t].node})
  {
    var n := s.threads[step.t].node;
    assert ([n] + stack)[1..] == stack;
    assert Chain(s.next, At(n), [n] + stack);
  }

  lemma PopCasHeap(s: State, step: Step, stack: seq<nat>, published: set<nat>)
    requires HeapInv(s, stack, published) && Enabled(s, step)
    requires s.threads[step.t].PopCas? && Succeeds(s, step)
    ensures stack != [] && s.threads[step.t].top == stack[0]
    ensures HeapInv(Next(s, step), stack[1..], published)
  {
  }

  lemma OtherHeap(s: State, step: Step, stack: seq<nat>, published: set<nat>)
    requires HeapInv(s, stack, published) && Enabled(s, step)
    requires !Succeeds(s, step) && !s.threads[step.t].PushLink?
    ensures HeapInv(Next(s, step), stack, published)
    ensures s.threads[step.t].PopLoad? && s.head == Null ==> stack == []
  {
  }

  lemma StepHeap(s: State, log: seq<Event>, step: Step)
    requires HeapInv(s, Replay(log), Published(log)) && Enabled(s, step)
    ensures HeapInv(Next(s, step), Replay(log + Events(s, step)), Published(log + Events(s, step)))
    ensures s.threads[step.t].PopLoad? && s.head == Null ==> Replay(log) == []
    ensures s.threads[step.t].PopCas? && Succeeds(s, step) ==>
      Replay(log) != [] && s.threads[step.t].top == Replay(log)[0]
  {
    var stack, published := Replay(log), Published(log);
    var es := Events(s, step);
    if es == [] {
      assert log + es == log;
    } else {
      ExtendLog(log, es[0]);
    }
    if Succeeds(s, step) {
      if s.threads[step.t].PushCas? {
        PushCasHeap(s, step, stack, published);
      } else {
        PopCasHeap(s, step, stack, published);
      }
    } else if s.threads[step.t].PushLink? {
      LinkHeap(s, step, stack, published);
    } else {
      OtherHeap(s, step, stack, published);
    }
  }

  lemma ExtendPushedOnce(log: seq<Event>, e: Event)
    requires PushedOnce(log)
    requires e.Committed? && e.op.Push? ==> e.op.node !in Published(log)
    ensures PushedOnce(log + [e])
  {
    ExtendLog(log, e);
    var before, after := PushedNodes(log), PushedNodes(log + [e]);
    forall n
      ensures after[n] == if n in Published(log + [e]) then 1 else 0
    {
      assert before[n] == if n in Published(log) then 1 else 0;
    }
  }

  lemma StepPushedOnce(s: State, log: seq<Event>, step: Step)
    requires Enabled(s, step) && PushedOnce(log)
    requires s.threads[step.t].PushCas? ==> s.threads[step.t].node !in Published(log)
    ensures PushedOnce(log + Events(s, step))
  {
    var es := Events(s, step);
    if es == [] {
      assert log + es == log;
    } else {
      ExtendPushedOnce(log, es[0]);
    }
  }

  /** One atomic step of one thread, any interleaving. */
  lemma StepInv(s: State, log: seq<Event>, step: Step)
    requires Inv(s, log) && Enabled(s, step)
    ensures Inv(Next(s, step), log + Events(s, step))
  {
    StepHeap(s, log, step);
    StepPushedOnce(s, log, step);
    StepExplained(s, log, step);
  }

  lemma VisibleNext(log: seq<Event>, e: Event)
    ensures Visible(log + [e]) == Visible(log) + if e.Committed? then [] else [e]
  {
    assert (log + [e])[..|log|] == log;
  }

  /** A step has one event at most, and what callers see of it is what is no commit. */
  lemma EventsObserved(s: State, step: Step)
    requires Enabled(s, step)
    ensures var es := Events(s, step);
      if es == [] then Observed(s, step) == []
      else es == [es[0]] && Observed(s, step) == if es[0].Committed? then [] else [es[0]]
  {
  }

  lemma StepVisible(s: State, log: seq<Event>, step: Step)
    requires Enabled(s, step)
    ensures Visible(log + Events(s, step)) == Visible(log) + Observed(s, step)
  {
    var es, seen := Events(s, step), Observed(s, step);
    EventsObserved(s, step);
    if es == [] {
      assert log + es == log && Visible(log) + seen == Visible(log);
    } else {
      VisibleNext(log, es[0]);
    }
  }

  lemma Regroup(a: seq<Event>, b: seq<Event>, c: seq<Event>)
    ensures a + (b + c) == (a + b) + c
  {
  }

  lemma LogStep(s: State, log: seq<Event>, steps: seq<Step>)
    requires IsRun(s, steps) && steps != []
    ensures log + Log(s, steps) == (log + Events(s, steps[0])) + Log(Next(s, steps[0]), steps[1..])
  {
    Regroup(log, Events(s, steps[0]), Log(Next(s, steps[0]), steps[1..]));
  }

  lemma HistoryStep(s: State, seen: seq<Event>, steps: seq<Step>)
    requires IsRun(s, steps) && steps != []
    ensures seen + History(s, steps) == (seen + Observed(s, steps[0])) + History(Next(s, steps[0]), steps[1..])
  {
    Regroup(seen, Observed(s, steps[0]), History(Next(s, steps[0]), steps[1..]));
  }

  lemma {:induction false} RunInv(s: State, log: seq<Event>, steps: seq<Step>)
    requires Inv(s, log) && IsRun(s, steps)
    ensures Inv(Final(s, steps), log + Log(s, steps))
    decreases |steps|
  {
    if steps == [] {
      assert log + Log(s, steps) == log;
    } else {
      StepInv(s, log, steps[0]);
      RunInv(Next(s, steps[0]), log + Events(s, steps[0]), steps[1..]);
      LogStep(s, log, steps);
    }
  }

  lemma {:induction false} RunVisible(s: State, log: seq<Event>, steps: seq<Step>)
    requires IsRun(s, steps)
    ensures Visible(log + Log(s, steps)) == Visible(log) + History(s, steps)
    decreases |steps|
  {
    if steps == [] {
      assert log + Log(s, steps) == log;
    } else {
      StepVisible(s, log, steps[0]);
      RunVisible(Next(s, steps[0]), log + Events(s, steps[0]), steps[1..]);
      LogStep(s, log, steps);
      HistoryStep(s, Visible(log), steps);
    }
  }

  // ---------- the theorems ----------

  lemma {:induction false} RunThreads(s: State, steps: seq<Step>)
    requires IsRun(s, steps)
    ensures |Final(s, steps).threads| == |s.threads|
    decreases |steps|
  {
    if steps != [] {
      RunThreads(Next(s, steps[0]), steps[1..]);
    }
  }

  lemma InitInv(s: State)
    requires Init(s)
    ensures Inv(s, [])
  {
  }

  /** For any number of threads and any interleaving, with any spurious CAS failures, the calls
      and returns form a linearizable history of a stack. */
  lemma EveryRunLinearizable(s0: State, steps: seq<Step>)
    requires Init(s0) && IsRun(s0, steps)
    ensures Linearizable(History(s0, steps))
  {
    InitInv(s0);
    RunInv(s0, [], steps);
    RunVisible(s0, [], steps);
    var log := [] + Log(s0, steps);
    assert Visible(log) == History(s0, steps) && WellFormed(log) && Legal(log);
  }

  lemma StackOpBalance(stack: seq<nat>, op: Op)
    ensures op.Push? ==> multiset(StackOp(stack, op).0) == multiset{op.node} + multiset(stack)
    ensures op.Pop? && stack != [] ==> multiset(stack) == multiset{stack[0]} + multiset(StackOp(stack, op).0)
  {
    if op.Pop? && stack != [] {
      assert stack == [stack[0]] + stack[1..];
    }
  }

  lemma {:induction false} Balance(log: seq<Event>)
    requires Legal(log)
    ensures PushedNodes(log) == PoppedNodes(log) + multiset(Replay(log))
  {
    if log != [] {
      var before := log[..|log| - 1];
      var e := log[|log| - 1];
      Balance(before);
      if e.Committed? {
        StackOpBalance(Replay(before), e.op);
      }
    }
  }

  /** Nothing is lost and nothing is returned twice: the pushed nodes are pairwise different and
      each is either popped or still on the stack, not both. */
  lemma NothingLostOrReturnedTwice(s0: State, steps: seq<Step>)
    requires Init(s0) && IsRun(s0, steps)
    ensures var log := Log(s0, steps);
      && PushedNodes(log) == PoppedNodes(log) + multiset(Replay(log))
      && forall n :: PushedNodes(log)[n] <= 1
  {
    InitInv(s0);
    RunInv(s0, [], steps);
    assert [] + Log(s0, steps) == Log(s0, steps);
    Balance(Log(s0, steps));
  }

  lemma OnceMeansDistinct(s: seq<nat>)
    requires forall n :: multiset(s)[n] <= 1
    ensures Distinct(s)
  {
    forall i, j | 0 <= i < j < |s|
      ensures s[i] != s[j]
    {
      var n := s[j];
      assert multiset(s[..j] + s[j..]) == multiset(s) by {
        assert s[..j] + s[j..] == s;
      }
      assert n == s[j..][0];
      assert s[i] == s[..j][i];
      assert multiset(s)[n] == multiset(s[..j])[n] + multiset(s[j..])[n] <= 1;
    }
  }

  /** In every reachable state the list from `head` is finite and acyclic and holds exactly the
      nodes that the committed operations leave on a stack. */
  lemma HeapIsStack(s0: State, steps: seq<Step>)
    requires Init(s0) && IsRun(s0, steps)
    ensures var s, stack := Final(s0, steps), Replay(Log(s0, steps));
      Chain(s.next, s.head, stack) && Distinct(stack)
  {
    InitInv(s0);
    RunInv(s0, [], steps);
    assert [] + Log(s0, steps) == Log(s0, steps);
    NothingLostOrReturnedTwice(s0, steps);
    OnceMeansDistinct(Replay(Log(s0, steps)));
  }

  /** A thread in the middle of an operation can always step: no node is read before its `next`
      was written. */
  lemma NeverBlocked(s0: State, steps: seq<Step>, t: nat)
    requires Init(s0) && IsRun(s0, steps) && t < |s0.threads|
    ensures var s := Final(s0, steps);
      && |s.threads| == |s0.threads|
      && (!s.threads[t].Idle? && !s.threads[t].Finished? ==> Enabled(s, Run(t, false)))
  {
    InitInv(s0);
    RunInv(s0, [], steps);
    RunThreads(s0, steps);
  }

  // ---------- lock-freedom ----------

  /** Has `head` moved since this thread loaded it? */
  predicate Stale(me: Thread, head: Ptr) {
    match me
    case PushLink(_, seen) => seen != head
    case PushCas(_, seen) => seen != head
    case PopNext(top) => At(top) != head
    case PopCas(top, _) => At(top) != head
    case _ => false
  }

  function StaleCount(threads: seq<Thread>, head: Ptr): nat {
    if threads == [] then 0
    else (if Stale(threads[0], head) then 1 else 0) + StaleCount(threads[1..], head)
  }

  lemma {:induction false} StaleUpdate(threads: seq<Thread>, head: Ptr, t: nat, me: Thread)
    requires t < |threads|
    ensures StaleCount(threads[t := me], head) ==
      StaleCount(threads, head) - (if Stale(threads[t], head) then 1 else 0) + (if Stale(me, head) then 1 else 0)
  {
    if t == 0 {
      assert threads[0 := me][1..] == threads[1..];
    } else {
      assert threads[t := me][1..] == threads[1..][t - 1 := me];
      StaleUpdate(threads[1..], head, t - 1, me);
    }
  }

  lemma {:induction false} StaleAtMost(threads: seq<Thread>, head: Ptr)
    ensures StaleCount(threads, head) <= |threads|
  {
    if threads != [] {
      StaleAtMost(threads[1..], head);
    }
  }

  lemma {:induction false} StaleBound(threads: seq<Thread>, head: Ptr, t: nat)
    requires t < |threads| && !Stale(threads[t], head)
    ensures StaleCount(threads, head) <= |threads| - 1
  {
    if t > 0 {
      StaleBound(threads[1..], head, t - 1);
    } else {
      StaleAtMost(threads[1..], head);
    }
  }

  /** A CAS that fails although it was not spurious. */
  ghost predicate Fails(s: State, step: Step)
    requires Enabled(s, step)
  {
    step.Run? && !step.spurious && !Succeeds(s, step)
    && (s.threads[step.t].PushCas? || s.threads[step.t].PopCas?)
  }

  ghost function Failures(s: State, steps: seq<Step>): nat
    requires IsRun(s, steps)
    decreases |steps|
  {
    if steps == [] then 0
    else (if Fails(s, steps[0]) then 1 else 0) + Failures(Next(s, steps[0]), steps[1..])
  }

  ghost function Successes(s: State, steps: seq<Step>): nat
    requires IsRun(s, steps)
    decreases |steps|
  {
    if steps == [] then 0
    else (if Succeeds(s, steps[0]) then 1 else 0) + Successes(Next(s, steps[0]), steps[1..])
  }

  lemma StepStale(s: State, step: Step)
    requires Enabled(s, step)
    ensures var s' := Next(s, step);
      && |s'.threads| == |s.threads|
      && StaleCount(s'.threads, s'.head) + (if Fails(s, step) then 1 else 0)
         <= StaleCount(s.threads, s.head) + (if Succeeds(s, step) then |s.threads| - 1 else 0)
  {
    var s' := Next(s, step);
    if Succeeds(s, step) {
      StaleBound(s'.threads, s'.head, step.t);
    } else {
      StaleUpdate(s.threads, s.head, step.t, s'.threads[step.t]);
    }
  }

  lemma {:induction false} NoneStale(threads: seq<Thread>, head: Ptr)
    requires forall t :: 0 <= t < |threads| ==> threads[t].Idle?
    ensures StaleCount(threads, head) == 0
  {
    if threads != [] {
      NoneStale(threads[1..], head);
    }
  }

  lemma TimesOneMore(a: int, k: nat)
    ensures a * (k + 1) == a * k + a
  {
  }

  /** Lock-freedom: a CAS can fail only because another thread's CAS has succeeded since. */
  lemma {:induction false} FailuresArePaidFor(s: State, steps: seq<Step>)
    requires IsRun(s, steps)
    ensures Failures(s, steps) <= StaleCount(s.threads, s.head) + (|s.threads| - 1) * Successes(s, steps)
    decreases |steps|
  {
    if steps != [] {
      StepStale(s, steps[0]);
      FailuresArePaidFor(Next(s, steps[0]), steps[1..]);
      TimesOneMore(|s.threads| - 1, Successes(Next(s, steps[0]), steps[1..]));
    }
  }

  /** From the start, T threads see at most T-1 genuine failures for each success. */
  lemma FailuresBound(s0: State, steps: seq<Step>)
    requires Init(s0) && IsRun(s0, steps)
    ensures Failures(s0, steps) <= (|s0.threads| - 1) * Successes(s0, steps)
  {
    NoneStale(s0.threads, s0.head);
    FailuresArePaidFor(s0, steps);
  }
}
