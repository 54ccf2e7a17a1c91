/** The producer/consumer protocol of exercise 24 as a state machine: one producer that
    pushes 0, 1, ..., n-1 and then closes the queue, and any number of consumers that pop
    until the queue is closed and empty.  A step is one statement of one thread; the mutex
    owner and the two wait sets are part of the state. */
module BoundedQueue {
  import opened RingBuffer
  import opened Totals

  /** Where the producer is: `bq_push` (P...), then `bq_close` (Q...). */
  datatype ProducerPc =
    | PLoop | PLock | PTest | PWait | PWoken | PPut | PSignal | PUnlock
    | QLock | QSet | QBroadcast | QUnlock | PDone

  /** Where a consumer is: `bq_pop`, then `sum += val; n++` (CAdd) when it returned 1. */
  datatype ConsumerPc =
    CLock | CTest | CWait | CWoken | CTake | CSignal | CUnlock | CAdd | CExit | CDone

  datatype Consumer = Consumer(pc: ConsumerPc, val: int, sum: int, n: int)

  datatype Owner = Free | Producer | OneConsumer(c: nat)

  /** `items` is the source's NITEMS.  A thread at PWait (CWait) is in the wait set of
      `not_full` (`not_empty`).  `pushed` and `popped` record history and are never read. */
  datatype State = State(
    ring: Ring, items: nat, owner: Owner,
    i: nat, ppc: ProducerPc, cons: seq<Consumer>,
    pushed: seq<int>, popped: seq<int>)

  /** `wake` is the set of waiters that a signal by the producer releases. */
  datatype Step = ProducerStep(wake: set<nat>) | ConsumerStep(c: nat)
                | SpuriousProducer | SpuriousConsumer(c: nat)

  // ---------- the step relation ----------

  predicate ProducerHolds(pc: ProducerPc) {
    pc.PTest? || pc.PPut? || pc.PSignal? || pc.PUnlock? || pc.QSet? || pc.QBroadcast? || pc.QUnlock?
  }

  predicate ConsumerHolds(pc: ConsumerPc) {
    pc.CTest? || pc.CTake? || pc.CSignal? || pc.CUnlock? || pc.CExit?
  }

  ghost function Waiters(cons: seq<Consumer>): set<nat> {
    set c: nat | c < |cons| && cons[c].pc == CWait
  }

  function Wake(cons: seq<Consumer>, wake: set<nat>): (w: seq<Consumer>)
    ensures |w| == |cons|
    ensures forall c: nat :: c < |cons| ==> w[c] == if c in wake then cons[c].(pc := CWoken) else cons[c]
  {
    seq(|cons|, c requires 0 <= c < |cons| =>
      if c in wake then cons[c].(pc := CWoken) else cons[c])
  }

  ghost predicate Enabled(s: State, step: Step) {
    match step
    case ProducerStep(wake) =>
      (match s.ppc
       case PLock | PWoken | QLock => s.owner == Free
       case PWait | PDone => false
       case PPut => s.ring.tail < |s.ring.data|
       // pthread_cond_signal wakes at least one waiter, if there is one
       case PSignal => wake <= Waiters(s.cons) && (wake == {} ==> Waiters(s.cons) == {})
       // pthread_cond_broadcast wakes them all
       case QBroadcast => wake == Waiters(s.cons)
       case _ => true)
    case ConsumerStep(c) =>
      c < |s.cons| &&
      (match s.cons[c].pc
       case CLock | CWoken => s.owner == Free
       case CWait | CDone => false
       case CTake => s.ring.count > 0 && s.ring.head < |s.ring.data|
       case _ => true)
    case SpuriousProducer => s.ppc == PWait
    case SpuriousConsumer(c) => c < |s.cons| && s.cons[c].pc == CWait
  }

  ghost function ProducerNext(s: State, wake: set<nat>): State
    requires Enabled(s, ProducerStep(wake))
  {
    match s.ppc
    case PLoop => s.(ppc := if s.i < s.items then PLock else QLock)
    case PLock | PWoken => s.(ppc := PTest, owner := Producer)
    case PTest =>
      if s.ring.count == |s.ring.data|
      then s.(ppc := PWait, owner := Free)            // release and enqueue atomically
      else s.(ppc := PPut)
    case PPut => s.(ppc := PSignal, ring := s.ring.Put(s.i), pushed := s.pushed + [s.i])
    case PSignal => s.(ppc := PUnlock, cons := Wake(s.cons, wake))
    case PUnlock => s.(ppc := PLoop, owner := Free, i := s.i + 1)
    case QLock => s.(ppc := QSet, owner := Producer)
    case QSet => s.(ppc := QBroadcast, ring := s.ring.(closed := true))
    case QBroadcast => s.(ppc := QUnlock, cons := Wake(s.cons, wake))
    case QUnlock => s.(ppc := PDone, owner := Free)
  }

  ghost function ConsumerNext(s: State, c: nat): State
    requires Enabled(s, ConsumerStep(c))
  {
    var me := s.cons[c];
    match me.pc
    case CLock | CWoken => s.(owner := OneConsumer(c), cons := s.cons[c := me.(pc := CTest)])
    case CTest =>
      if s.ring.count == 0 && !s.ring.closed
      then s.(owner := Free, cons := s.cons[c := me.(pc := CWait)])
      else s.(cons := s.cons[c := me.(pc := if s.ring.count == 0 then CExit else CTake)])
    case CTake =>
      var out := s.ring.data[s.ring.head];
      s.(ring := s.ring.Take(), popped := s.popped + [out],
         cons := s.cons[c := me.(pc := CSignal, val := out)])
    case CSignal =>
      s.(ppc := if s.ppc == PWait then PWoken else s.ppc,
         cons := s.cons[c := me.(pc := CUnlock)])
    case CUnlock => s.(owner := Free, cons := s.cons[c := me.(pc := CAdd)])
    case CAdd => s.(cons := s.cons[c := me.(pc := CLock, sum := me.sum + me.val, n := me.n + 1)])
    case CExit => s.(owner := Free, cons := s.cons[c := me.(pc := CDone)])
  }

  ghost function Next(s: State, step: Step): State
    requires Enabled(s, step)
  {
    match step
    case ProducerStep(wake) => ProducerNext(s, wake)
    case ConsumerStep(c) => ConsumerNext(s, c)
    case SpuriousProducer => s.(ppc := PWoken)
    case SpuriousConsumer(c) => s.(cons := s.cons[c := s.cons[c].(pc := CWoken)])
  }

  /** The state in which `section_condvar` starts the threads. */
  ghost predicate Init(s: State) {
    && |s.ring.data| > 0 && s.ring.head == s.ring.tail == s.ring.count == 0 && !s.ring.closed
    && s.owner == Free && s.i == 0 && s.ppc == PLoop
    && |s.cons| > 0 && (forall c :: 0 <= c < |s.cons| ==> s.cons[c] == Consumer(CLock, s.cons[c].val, 0, 0))
    && s.pushed == [] && s.popped == []
  }

  ghost predicate IsRun(s: State, steps: seq<Step>)
    decreases |steps|
  {
    steps == [] || (Enabled(s, steps[0]) && IsRun(Next(s, steps[0]), steps[1..]))
  }

  ghost function Final(s: State, steps: seq<Step>): State
    requires IsRun(s, steps)
    decreases |steps|
  {
    if steps == [] then s else Final(Next(s, steps[0]), steps[1..])
  }

  predicate Spurious(step: Step) {
    step.SpuriousProducer? || step.SpuriousConsumer?
  }

  function SpuriousCount(steps: seq<Step>): nat {
    if steps == [] then 0 else (if Spurious(steps[0]) then 1 else 0) + SpuriousCount(steps[1..])
  }

  ghost predicate AllDone(s: State) {
    s.ppc == PDone && forall c :: 0 <= c < |s.cons| ==> s.cons[c].pc == CDone
  }

  // ---------- totals over the consumers ----------

  /** Consumers that will look at the queue without needing to be woken again. */
  function Active(m: Consumer): int { if m.pc.CWoken? || m.pc.CTest? || m.pc.CTake? then 1 else 0 }

  /** What a consumer has taken out of the queue, added to its sum or not. */
  function Held(m: Consumer): int { m.sum + if m.pc.CSignal? || m.pc.CUnlock? || m.pc.CAdd? then m.val else 0 }
  function HeldCount(m: Consumer): int { m.n + if m.pc.CSignal? || m.pc.CUnlock? || m.pc.CAdd? then 1 else 0 }
  function SumOf(m: Consumer): int { m.sum }
  function CountOf(m: Consumer): int { m.n }

  /** How many steps a consumer can still take before it needs another item or a wakeup. */
  function Weight(m: Consumer): int {
    match m.pc
    case CDone => 0 case CWait => 1 case CExit => 1 case CTake => 2 case CTest => 3
    case CWoken => 4 case CLock => 4 case CAdd => 5 case CUnlock => 6 case CSignal => 9
  }

  /** A woken waiter joins the active consumers. */
  lemma {:induction false} WakeActivates(cons: seq<Consumer>, wake: set<nat>, c: nat)
    requires wake <= Waiters(cons) && c in wake
    ensures Total(Wake(cons, wake), Active) >= Total(cons, Active) + 1
  {
    var w := Wake(cons, wake);
    var one := cons[c := w[c]];
    TotalUpdate(cons, c, w[c], Active);
    TotalPointwise(one, w, Active, 1);
  }

  function SumSeq(q: seq<int>): int {
    if q == [] then 0 else SumSeq(q[..|q| - 1]) + q[|q| - 1]
  }

  // ---------- the invariant ----------

  function Upto(n: nat): seq<int> { seq(n, k => k) }

  ghost function PushedSoFar(s: State): nat {
    if s.ppc.PSignal? || s.ppc.PUnlock? then s.i + 1 else s.i
  }

  /** Everything pushed is popped or still queued, in order. */
  ghost predicate Conserved(s: State) {
    && s.ring.Valid()
    && s.pushed == Upto(PushedSoFar(s))
    && s.pushed == s.popped + s.ring.Contents()
  }

  /** The mutex owner is the one thread inside a critical section. */
  ghost predicate MutualExclusion(s: State) {
    && (s.owner == Producer <==> ProducerHolds(s.ppc))
    && (s.owner.OneConsumer? ==> s.owner.c < |s.cons|)
    && forall c: nat :: c < |s.cons| ==> (s.owner == OneConsumer(c) <==> ConsumerHolds(s.cons[c].pc))
  }

  ghost predicate ProgramPoints(s: State) {
    && ((s.ppc.PLock? || s.ppc.PTest? || s.ppc.PWait? || s.ppc.PWoken? || s.ppc.PPut? || s.ppc.PSignal? || s.ppc.PUnlock?) ==> s.i < s.items)
    && (s.ppc == PLoop ==> s.i <= s.items)
    && ((s.ppc.QLock? || s.ppc.QSet? || s.ppc.QBroadcast? || s.ppc.QUnlock? || s.ppc.PDone?) ==> s.i == s.items)
    && (s.ring.closed <==> (s.ppc.QBroadcast? || s.ppc.QUnlock? || s.ppc.PDone?))
    && (s.ppc == PPut ==> s.ring.count < |s.ring.data|)
    && (forall c :: 0 <= c < |s.cons| && s.cons[c].pc == CTake ==> s.ring.count > 0)
    && (forall c :: 0 <= c < |s.cons| && (s.cons[c].pc.CExit? || s.cons[c].pc.CDone?) ==> s.ring.closed && s.ring.count == 0)
  }

  /** No wakeup is lost.  Consumers still waiting are not needed for the queued items: each item
      has an active consumer or a pending signal; none waits once the close was broadcast; and a
      waiting producer faces a full queue or a pending signal. */
  ghost predicate NoLostWakeup(s: State) {
    && (Waiters(s.cons) != {} ==>
          s.ring.count <= Total(s.cons, Active) + if s.ppc == PSignal then 1 else 0)
    && (s.ring.closed && s.ppc != QBroadcast ==> Waiters(s.cons) == {})
    && (s.ppc == PWait ==>
          s.ring.count == |s.ring.data|
          || exists c :: 0 <= c < |s.cons| && s.cons[c].pc == CSignal)
  }

  ghost predicate Tallied(s: State) {
    && Total(s.cons, Held) == SumSeq(s.popped)
    && Total(s.cons, HeldCount) == |s.popped|
  }

  ghost predicate Inv(s: State) {
    && |s.cons| > 0
    && Conserved(s) && MutualExclusion(s) && ProgramPoints(s) && NoLostWakeup(s) && Tallied(s)
  }

  lemma InitInv(s: State)
    requires Init(s)
    ensures Inv(s)
  {
    TotalConstant(s.cons, Held, 0);
    TotalConstant(s.cons, HeldCount, 0);
  }

  /** What replacing one consumer does to the sums over consumers and to the wait set. */
  lemma ReplaceConsumer(cons: seq<Consumer>, c: nat, x: Consumer)
    requires c < |cons|
    ensures Total(cons[c := x], Active) == Total(cons, Active) - Active(cons[c]) + Active(x)
    ensures Total(cons[c := x], Held) == Total(cons, Held) - Held(cons[c]) + Held(x)
    ensures Total(cons[c := x], HeldCount) == Total(cons, HeldCount) - HeldCount(cons[c]) + HeldCount(x)
    ensures Total(cons[c := x], Weight) == Total(cons, Weight) - Weight(cons[c]) + Weight(x)
    ensures x.pc != CWait ==> Waiters(cons[c := x]) == Waiters(cons) - {c}
  {
    TotalUpdate(cons, c, x, Active);
    TotalUpdate(cons, c, x, Held);
    TotalUpdate(cons, c, x, HeldCount);
    TotalUpdate(cons, c, x, Weight);
  }

  lemma WakeWaiters(cons: seq<Consumer>, wake: set<nat>)
    requires wake <= Waiters(cons)
    ensures Waiters(Wake(cons, wake)) == Waiters(cons) - wake
  {
    var w := Wake(cons, wake);
    forall c: nat | c < |cons|
      ensures c in Waiters(w) <==> c in Waiters(cons) && c !in wake
    {
      assert w[c] == if c in wake then cons[c].(pc := CWoken) else cons[c];
    }
  }

  lemma WakeHeld(cons: seq<Consumer>, wake: set<nat>)
    requires wake <= Waiters(cons)
    ensures Total(Wake(cons, wake), Held) == Total(cons, Held)
    ensures Total(Wake(cons, wake), HeldCount) == Total(cons, HeldCount)
  {
    TotalPointwise(cons, Wake(cons, wake), Held, 0);
    TotalPointwise(cons, Wake(cons, wake), HeldCount, 0);
  }

  lemma WakeActive(cons: seq<Consumer>, wake: set<nat>)
    requires wake <= Waiters(cons)
    ensures Total(cons, Active) <= Total(Wake(cons, wake), Active)
    ensures wake != {} ==> Total(cons, Active) + 1 <= Total(Wake(cons, wake), Active)
  {
    TotalPointwise(cons, Wake(cons, wake), Active, 1);
    if wake != {} {
      var c :| c in wake;
      WakeActivates(cons, wake, c);
    }
  }

  lemma WakeWeight(cons: seq<Consumer>, wake: set<nat>)
    requires wake <= Waiters(cons)
    ensures Total(Wake(cons, wake), Weight) <= Total(cons, Weight) + 3 * |cons|
  {
    TotalPointwise(cons, Wake(cons, wake), Weight, 3);
  }

  lemma ProducerConserves(s: State, wake: set<nat>)
    requires Enabled(s, ProducerStep(wake)) && Conserved(s)
    requires s.ppc == PPut ==> s.ring.count < |s.ring.data|
    ensures Conserved(ProducerNext(s, wake))
  {
    var t := ProducerNext(s, wake);
    if s.ppc == PPut {
      PutAppends(s.ring, s.i);
      assert t.pushed == Upto(s.i + 1);
    } else if s.ppc == QSet {
      assert t.ring.Contents() == s.ring.Contents();
    }
  }

  lemma ProducerExcludes(s: State, wake: set<nat>)
    requires Enabled(s, ProducerStep(wake)) && MutualExclusion(s)
    ensures MutualExclusion(ProducerNext(s, wake))
  {
    var t := ProducerNext(s, wake);
    forall c: nat | c < |s.cons|
      ensures ConsumerHolds(t.cons[c].pc) <==> ConsumerHolds(s.cons[c].pc)
    {
    }
  }

  lemma ProducerPoints(s: State, wake: set<nat>)
    requires Enabled(s, ProducerStep(wake)) && MutualExclusion(s) && ProgramPoints(s)
    requires s.ring.count <= |s.ring.data|
    ensures ProgramPoints(ProducerNext(s, wake))
  {
    var t := ProducerNext(s, wake);
    forall c: nat | c < |t.cons|
      ensures t.cons[c].pc == CTake ==> s.cons[c].pc == CTake
      ensures t.cons[c].pc.CExit? || t.cons[c].pc.CDone? ==> t.cons[c].pc == s.cons[c].pc
    {
    }
  }

  lemma ProducerWakes(s: State, wake: set<nat>)
    requires Enabled(s, ProducerStep(wake)) && MutualExclusion(s) && ProgramPoints(s) && NoLostWakeup(s)
    ensures NoLostWakeup(ProducerNext(s, wake))
  {
    if s.ppc == PSignal || s.ppc == QBroadcast {
      WakeActive(s.cons, wake);
      WakeWaiters(s.cons, wake);
    }
  }

  lemma ProducerInv(s: State, wake: set<nat>)
    requires Inv(s) && Enabled(s, ProducerStep(wake))
    ensures Inv(ProducerNext(s, wake))
  {
    ProducerConserves(s, wake);
    ProducerExcludes(s, wake);
    ProducerPoints(s, wake);
    ProducerWakes(s, wake);
    if s.ppc == PSignal || s.ppc == QBroadcast {
      WakeHeld(s.cons, wake);
    }
  }

  lemma ConsumerConserves(s: State, c: nat)
    requires Enabled(s, ConsumerStep(c)) && Conserved(s) && MutualExclusion(s)
    ensures Conserved(ConsumerNext(s, c))
  {
    if s.cons[c].pc == CTake {
      TakeRemovesFirst(s.ring);
    }
  }

  lemma ConsumerExcludes(s: State, c: nat)
    requires Enabled(s, ConsumerStep(c)) && MutualExclusion(s)
    ensures MutualExclusion(ConsumerNext(s, c))
  {
  }

  lemma ConsumerPoints(s: State, c: nat)
    requires Enabled(s, ConsumerStep(c)) && MutualExclusion(s) && ProgramPoints(s)
    ensures ProgramPoints(ConsumerNext(s, c))
  {
  }

  lemma ConsumerWakes(s: State, c: nat)
    requires Enabled(s, ConsumerStep(c)) && MutualExclusion(s) && ProgramPoints(s) && NoLostWakeup(s)
    ensures NoLostWakeup(ConsumerNext(s, c))
  {
    var t := ConsumerNext(s, c);
    ReplaceConsumer(s.cons, c, t.cons[c]);
    TotalNonnegative(t.cons, Active);
    assert t.cons[c].pc == CSignal ==> exists d :: 0 <= d < |t.cons| && t.cons[d].pc == CSignal;
    assert forall d :: 0 <= d < |s.cons| && d != c ==> t.cons[d] == s.cons[d];
  }

  lemma ConsumerTallies(s: State, c: nat)
    requires Enabled(s, ConsumerStep(c)) && Tallied(s)
    ensures Tallied(ConsumerNext(s, c))
  {
    var t := ConsumerNext(s, c);
    ReplaceConsumer(s.cons, c, t.cons[c]);
    if s.cons[c].pc == CTake {
      assert t.popped[..|s.popped|] == s.popped;
    }
  }

  lemma ConsumerInv(s: State, c: nat)
    requires Inv(s) && Enabled(s, ConsumerStep(c))
    ensures Inv(ConsumerNext(s, c))
  {
    ConsumerConserves(s, c);
    ConsumerExcludes(s, c);
    ConsumerPoints(s, c);
    ConsumerWakes(s, c);
    ConsumerTallies(s, c);
  }

  lemma SpuriousInv(s: State, step: Step)
    requires Inv(s) && Enabled(s, step) && Spurious(step)
    ensures Inv(Next(s, step))
  {
    if step.SpuriousConsumer? {
      ReplaceConsumer(s.cons, step.c, Next(s, step).cons[step.c]);
    }
  }

  lemma StepInv(s: State, step: Step)
    requires Inv(s) && Enabled(s, step)
    ensures Inv(Next(s, step))
  {
    match step {
      case ProducerStep(wake) => ProducerInv(s, wake);
      case ConsumerStep(c) => ConsumerInv(s, c);
      case _ => SpuriousInv(s, step);
    }
  }

  // ---------- safety over whole runs ----------

  /** Every state of every run satisfies the invariant: FIFO and conservation, mutual exclusion,
      no lost wakeup. */
  lemma {:induction false} RunInv(s: State, steps: seq<Step>)
    requires Inv(s) && IsRun(s, steps)
    ensures Inv(Final(s, steps))
    decreases |steps|
  {
    if steps != [] {
      StepInv(s, steps[0]);
      RunInv(Next(s, steps[0]), steps[1..]);
    }
  }

  /** In every reachable state the values popped so far, then the queued ones, are 0, 1, 2, ... in
      order, and no two threads are inside a critical section. */
  lemma FifoAndMutualExclusion(s0: State, steps: seq<Step>)
    requires Init(s0) && IsRun(s0, steps)
    ensures var s := Final(s0, steps);
      && s.ring.Valid() && s.pushed == s.popped + s.ring.Contents()
      && (forall k :: 0 <= k < |s.pushed| ==> s.pushed[k] == k)
      && (forall c, d :: 0 <= c < d < |s.cons| ==> !(ConsumerHolds(s.cons[c].pc) && ConsumerHolds(s.cons[d].pc)))
      && (forall c :: 0 <= c < |s.cons| ==> !(ProducerHolds(s.ppc) && ConsumerHolds(s.cons[c].pc)))
  {
    InitInv(s0);
    RunInv(s0, steps);
  }

  /** A consumer returns only when the queue is closed and empty and everything was popped; and in
      every state the consumers' totals account for everything popped so far. */
  lemma ConsumersStopAtTheEnd(s0: State, steps: seq<Step>)
    requires Init(s0) && IsRun(s0, steps)
    ensures var s := Final(s0, steps);
      && (forall c :: 0 <= c < |s.cons| && s.cons[c].pc == CDone ==>
            s.ring.closed && s.ring.count == 0 && s.popped == Upto(s.items))
      && Total(s.cons, Held) == SumSeq(s.popped) && Total(s.cons, HeldCount) == |s.popped|
  {
    InitInv(s0);
    RunInv(s0, steps);
  }

  // ---------- no deadlock ----------

  /** If every thread is waiting or finished, then every thread is finished: the wakeup
      invariant excludes all other blocked configurations. */
  lemma BlockedMeansDone(s: State)
    requires Inv(s) && s.owner == Free && (s.ppc == PWait || s.ppc == PDone)
    requires forall c: nat :: c < |s.cons| ==> s.cons[c].pc == CWait || s.cons[c].pc == CDone
    ensures AllDone(s)
  {
    TotalConstant(s.cons, Active, 0);
    assert forall c: nat :: c < |s.cons| ==> (s.cons[c].pc == CWait <==> c in Waiters(s.cons));
    assert s.cons[0].pc == CWait || s.cons[0].pc == CDone;
  }

  /** While a thread is unfinished some thread can move without a spurious wakeup. */
  lemma Progress(s: State) returns (step: Step)
    requires Inv(s) && !AllDone(s)
    ensures !Spurious(step) && Enabled(s, step)
  {
    if s.owner == Producer || (s.owner == Free && s.ppc != PWait && s.ppc != PDone) {
      step := ProducerStep(Waiters(s.cons));
    } else if s.owner.OneConsumer? {
      step := ConsumerStep(s.owner.c);
    } else {
      if forall c: nat :: c < |s.cons| ==> s.cons[c].pc == CWait || s.cons[c].pc == CDone {
        BlockedMeansDone(s);
      }
      var c: nat :| c < |s.cons| && s.cons[c].pc != CWait && s.cons[c].pc != CDone;
      step := ConsumerStep(c);
    }
  }

  // ---------- termination ----------

  function ProducerWeight(pc: ProducerPc, k: nat): nat {
    match pc
    case PLoop => 6 + 3 * k case PLock => 5 + 3 * k case PTest => 4 + 3 * k
    case PWait => 3 + 3 * k case PWoken => 5 + 3 * k case PPut => 3 + 3 * k
    case PSignal => 2 + 3 * k case PUnlock => 1
    case QLock => 5 + 3 * k case QSet => 4 + 3 * k case QBroadcast => 3 + 3 * k
    case QUnlock => 2 case PDone => 1
  }

  /** What `left` further pushes cost the producer and the consumers it wakes. */
  function PushBudget(left: nat, k: nat): nat {
    if left == 0 then 0 else PushBudget(left - 1, k) + 6 + 3 * k
  }

  lemma {:induction false} PushBudgetIs(left: nat, k: nat)
    ensures PushBudget(left, k) == left * (6 + 3 * k)
  {
    if left > 0 {
      PushBudgetIs(left - 1, k);
      assert left * (6 + 3 * k) == (left - 1) * (6 + 3 * k) + (6 + 3 * k);
    }
  }

  /** A bound on the steps still to come: pushes left, pops left, and each thread's position. */
  ghost function Measure(s: State): int {
    PushBudget(if s.i < s.items then s.items - s.i else 0, |s.cons|) + ProducerWeight(s.ppc, |s.cons|)
    + 8 * (s.items - |s.popped|) + Total(s.cons, Weight)
  }

  lemma ItemsLeft(s: State)
    requires Conserved(s) && ProgramPoints(s)
    ensures s.i <= s.items && |s.popped| <= s.items
  {
    assert |s.pushed| == |s.popped| + |s.ring.Contents()|;
  }

  lemma SignalMeasure(s: State, wake: set<nat>)
    requires Enabled(s, ProducerStep(wake)) && (s.ppc == PSignal || s.ppc == QBroadcast)
    ensures Measure(ProducerNext(s, wake)) < Measure(s)
  {
    WakeWeight(s.cons, wake);
  }

  lemma ProducerMeasure(s: State, wake: set<nat>)
    requires Enabled(s, ProducerStep(wake)) && ProgramPoints(s)
    ensures Measure(ProducerNext(s, wake)) < Measure(s)
  {
    if s.ppc == PSignal || s.ppc == QBroadcast {
      SignalMeasure(s, wake);
    } else {
      assert ProducerNext(s, wake).cons == s.cons;
    }
  }

  lemma ConsumerMeasure(s: State, c: nat)
    requires Enabled(s, ConsumerStep(c))
    ensures Measure(ConsumerNext(s, c)) < Measure(s)
  {
    var t := ConsumerNext(s, c);
    ReplaceConsumer(s.cons, c, t.cons[c]);
    assert |t.cons| == |s.cons|;
  }

  lemma StepMeasure(s: State, step: Step)
    requires Enabled(s, step) && ProgramPoints(s)
    ensures !Spurious(step) ==> Measure(Next(s, step)) < Measure(s)
    ensures Measure(Next(s, step)) <= Measure(s) + 3
  {
    match step {
      case ProducerStep(wake) => ProducerMeasure(s, wake);
      case ConsumerStep(c) => ConsumerMeasure(s, c);
      case SpuriousConsumer(c) => ReplaceConsumer(s.cons, c, Next(s, step).cons[c]);
      case SpuriousProducer =>
    }
  }

  lemma {:induction false} RunLength(s: State, steps: seq<Step>)
    requires Inv(s) && IsRun(s, steps)
    ensures |steps| <= Measure(s) + 4 * SpuriousCount(steps)
    decreases |steps|
  {
    if steps == [] {
      ItemsLeft(s);
      TotalNonnegative(s.cons, Weight);
    } else {
      StepInv(s, steps[0]);
      StepMeasure(s, steps[0]);
      RunLength(Next(s, steps[0]), steps[1..]);
    }
  }

  lemma BudgetSum(n: nat, k: nat)
    ensures n * (6 + 3 * k) + 8 * n == n * (14 + 3 * k)
  {
  }

  lemma StartMeasure(s0: State)
    requires Init(s0)
    ensures Measure(s0) == s0.items * (14 + 3 * |s0.cons|) + 7 * |s0.cons| + 6
  {
    TotalConstant(s0.cons, Weight, 4);
    PushBudgetIs(s0.items, |s0.cons|);
    BudgetSum(s0.items, |s0.cons|);
  }

  /** However the threads are scheduled, a run with k consumers and n items has at most
      n(14 + 3k) + 7k + 6 steps, plus 4 for each spurious wakeup in it. */
  lemma EveryRunEnds(s0: State, steps: seq<Step>)
    requires Init(s0) && IsRun(s0, steps)
    ensures |steps| <= s0.items * (14 + 3 * |s0.cons|) + 7 * |s0.cons| + 6 + 4 * SpuriousCount(steps)
  {
    InitInv(s0);
    RunLength(s0, steps);
    StartMeasure(s0);
  }

  // ---------- what a finished run has computed ----------

  lemma {:induction false} SumUpto(n: nat)
    ensures 2 * SumSeq(Upto(n)) == n * (n - 1)
  {
    if n > 0 {
      assert Upto(n)[..n - 1] == Upto(n - 1);
      SumUpto(n - 1);
    }
  }

  lemma TotalSame(cons: seq<Consumer>)
    requires forall c :: 0 <= c < |cons| ==> cons[c].pc == CDone
    ensures Total(cons, Held) == Total(cons, SumOf) && Total(cons, HeldCount) == Total(cons, CountOf)
  {
    if cons != [] {
      TotalSame(cons[1..]);
    }
  }

  ghost predicate Stuck(s: State) {
    forall step :: Enabled(s, step) ==> Spurious(step)
  }

  /** A run that cannot go on (spurious wakeups aside) has finished: every thread has returned, each
      item was popped once and in order, and the consumers' totals are n items and n(n-1)/2. */
  lemma StuckMeansComplete(s0: State, steps: seq<Step>)
    requires Init(s0) && IsRun(s0, steps) && Stuck(Final(s0, steps))
    ensures var s := Final(s0, steps);
      && AllDone(s) && s.owner == Free && s.popped == Upto(s.items)
      && Total(s.cons, CountOf) == s.items
      && 2 * Total(s.cons, SumOf) == s.items * (s.items - 1)
  {
    InitInv(s0);
    RunInv(s0, steps);
    var s := Final(s0, steps);
    if !AllDone(s) {
      var step := Progress(s);
      assert false;
    }
    assert s.cons[0].pc == CDone;
    assert s.popped == Upto(s.items);
    SumUpto(s.items);
    TotalSame(s.cons);
  }

  // ---------- who got which item ----------

  /** The step in which a consumer takes an item out of the ring. */
  ghost predicate Takes(s: State, step: Step) {
    step.ConsumerStep? && step.c < |s.cons| && s.cons[step.c].pc == CTake
  }

  /** The consumers that took the items of a run, in the order of the items. */
  ghost function Takers(s: State, steps: seq<Step>): seq<nat>
    requires IsRun(s, steps)
    decreases |steps|
  {
    if steps == [] then []
    else (if Takes(s, steps[0]) then [steps[0].c] else []) + Takers(Next(s, steps[0]), steps[1..])
  }

  /** The items popped[k] with takers[k] == c. */
  function Share(popped: seq<int>, takers: seq<nat>, c: nat): seq<int>
    requires |takers| == |popped|
  {
    if popped == [] then []
    else
      var k := |popped| - 1;
      Share(popped[..k], takers[..k], c) + if takers[k] == c then [popped[k]] else []
  }

  ghost function TakenAt(takers: seq<nat>, c: nat): set<nat> {
    set k: nat | k < |takers| && takers[k] == c
  }

  /** The size of a share is the number of k with takers[k] == c. */
  lemma {:induction false} ShareCounts(popped: seq<int>, takers: seq<nat>, c: nat)
    requires |takers| == |popped|
    ensures |Share(popped, takers, c)| == |TakenAt(takers, c)|
  {
    if popped != [] {
      var last := |popped| - 1;
      var before := TakenAt(takers[..last], c);
      ShareCounts(popped[..last], takers[..last], c);
      assert TakenAt(takers, c) == if takers[last] == c then before + {last} else before;
    }
  }

  lemma ShareAppend(popped: seq<int>, takers: seq<nat>, c: nat, x: int, d: nat)
    requires |takers| == |popped|
    ensures Share(popped + [x], takers + [d], c) == if d == c then Share(popped, takers, c) + [x] else Share(popped, takers, c)
  {
    assert (popped + [x])[..|popped|] == popped && (takers + [d])[..|takers|] == takers;
  }

  lemma SumAppend(q: seq<int>, x: int)
    ensures SumSeq(q + [x]) == SumSeq(q) + x
  {
    assert (q + [x])[..|q|] == q;
  }

  /** What this consumer has taken, added up or not, is what the run gave it. */
  ghost predicate Credited(m: Consumer, share: seq<int>) {
    HeldCount(m) == |share| && Held(m) == SumSeq(share)
  }

  ghost predicate AllCredited(s: State, takers: seq<nat>) {
    && |takers| == |s.popped|
    && forall c: nat :: c < |s.cons| ==> Credited(s.cons[c], Share(s.popped, takers, c))
  }

  lemma ItemCredited(m: Consumer, share: seq<int>, out: int)
    requires Credited(m, share) && m.pc == CTake
    ensures Credited(m.(pc := CSignal, val := out), share + [out])
  {
    SumAppend(share, out);
  }

  lemma TakeCredits(s: State, takers: seq<nat>, c: nat)
    requires AllCredited(s, takers) && Enabled(s, ConsumerStep(c)) && s.cons[c].pc == CTake
    ensures AllCredited(ConsumerNext(s, c), takers + [c])
  {
    var t, out := ConsumerNext(s, c), s.ring.data[s.ring.head];
    assert t.popped == s.popped + [out];
    assert t.cons == s.cons[c := s.cons[c].(pc := CSignal, val := out)];
    forall d: nat | d < |s.cons|
      ensures Credited(t.cons[d], Share(s.popped + [out], takers + [c], d))
    {
      var share := Share(s.popped, takers, d);
      assert Credited(s.cons[d], share);
      ShareAppend(s.popped, takers, d, out, c);
      if d == c {
        ItemCredited(s.cons[c], share, out);
      }
    }
  }

  lemma OtherStepCredits(s: State, takers: seq<nat>, step: Step)
    requires AllCredited(s, takers) && Enabled(s, step) && !Takes(s, step)
    ensures AllCredited(Next(s, step), takers)
  {
    var t := Next(s, step);
    forall d: nat | d < |t.cons|
      ensures Credited(t.cons[d], Share(t.popped, takers, d))
    {
      assert Credited(s.cons[d], Share(s.popped, takers, d));
    }
  }

  lemma {:induction false} RunCredits(s: State, takers: seq<nat>, steps: seq<Step>)
    requires AllCredited(s, takers) && IsRun(s, steps)
    ensures AllCredited(Final(s, steps), takers + Takers(s, steps))
    decreases |steps|
  {
    if steps == [] {
      assert takers + [] == takers;
    } else {
      var next, others := Next(s, steps[0]), steps[1..];
      if Takes(s, steps[0]) {
        TakeCredits(s, takers, steps[0].c);
        RunCredits(next, takers + [steps[0].c], others);
        assert takers + ([steps[0].c] + Takers(next, others)) == (takers + [steps[0].c]) + Takers(next, others);
      } else {
        OtherStepCredits(s, takers, steps[0]);
        RunCredits(next, takers, others);
        assert [] + Takers(next, others) == Takers(next, others);
      }
    }
  }

  /** In every reachable state each consumer has counted and added up, or is about to, exactly the
      items that it took itself. */
  lemma EachConsumerCredited(s0: State, steps: seq<Step>)
    requires Init(s0) && IsRun(s0, steps)
    ensures var s, takers := Final(s0, steps), Takers(s0, steps);
      && |takers| == |s.popped|
      && forall c: nat :: c < |s.cons| ==>
           HeldCount(s.cons[c]) == |Share(s.popped, takers, c)| && Held(s.cons[c]) == SumSeq(Share(s.popped, takers, c))
  {
    RunCredits(s0, [], steps);
    assert [] + Takers(s0, steps) == Takers(s0, steps);
    assert forall c: nat :: c < |Final(s0, steps).cons| ==>
      Credited(Final(s0, steps).cons[c], Share(Final(s0, steps).popped, Takers(s0, steps), c));
  }

  /** When a run cannot go on, what each consumer prints is the number and the sum of the items it
      took itself. */
  lemma EachConsumerPrints(s0: State, steps: seq<Step>)
    requires Init(s0) && IsRun(s0, steps) && Stuck(Final(s0, steps))
    ensures var s, takers := Final(s0, steps), Takers(s0, steps);
      && |takers| == s.items
      && forall c: nat :: c < |s.cons| ==>
           s.cons[c].n == |Share(Upto(s.items), takers, c)| && s.cons[c].sum == SumSeq(Share(Upto(s.items), takers, c))
  {
    StuckMeansComplete(s0, steps);
    EachConsumerCredited(s0, steps);
  }
}
