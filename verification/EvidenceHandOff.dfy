/** The hand-off of evidence records from producers to one consumer over a bounded queue
    (tap_reader/src/bin/bench_ring.rs), as a state machine whose steps are the atomic actions of the
    threads. The queue is an atomic bounded FIFO. */
module EvidenceHandOff {

  /** Record `index` of `producer`. */
  datatype Item = Item(producer: nat, index: nat)

  datatype Config = Config(producers: nat, perProducer: nat, capacity: nat)

  datatype Consumer = AtPop | Counting | SawEmpty | Exited

  /** The main thread joins the producers one by one, waits for the count, sets the flag and joins
      the consumer. */
  datatype Main = Joining(next: nat) | Waiting | Stopped | Ended

  /** `pushed[p]` and `counted[p]` say how far producer `p` is. */
  datatype State = State(
    pushed: seq<nat>, counted: seq<nat>, queue: seq<Item>, popped: seq<Item>, consumed: nat,
    consumer: Consumer, main: Main, stop: bool)

  datatype Step =
    | Push(p: nat)          // succeeds
    | PushFull(p: nat)      // fails, and the producer spins
    | CountProduced(p: nat)
    | Pop
    | PopEmpty
    | CountConsumed
    | LoadStop
    | Join
    | Check
    | JoinConsumer

  function Start(c: Config): State {
    State(seq(c.producers, _ => 0), seq(c.producers, _ => 0), [], [], 0, AtPop, Joining(0), false)
  }

  function Expected(c: Config): nat { c.producers * c.perProducer }

  ghost predicate Sized(c: Config, s: State) { |s.pushed| == |s.counted| == c.producers }

  predicate ReadyToPush(c: Config, s: State, p: nat) {
    p < |s.pushed| && p < |s.counted| && s.pushed[p] == s.counted[p] && s.pushed[p] < c.perProducer
  }

  predicate Enabled(c: Config, s: State, step: Step) {
    match step
    case Push(p) => ReadyToPush(c, s, p) && |s.queue| < c.capacity
    case PushFull(p) => ReadyToPush(c, s, p) && |s.queue| >= c.capacity
    case CountProduced(p) => p < |s.pushed| && p < |s.counted| && s.counted[p] < s.pushed[p]
    case Pop => s.consumer == AtPop && s.queue != []
    case PopEmpty => s.consumer == AtPop && s.queue == []
    case CountConsumed => s.consumer == Counting
    case LoadStop => s.consumer == SawEmpty
    case Join => s.main.Joining? && (s.main.next < |s.counted| ==> s.counted[s.main.next] == c.perProducer)
    case Check => s.main == Waiting
    case JoinConsumer => s.main == Stopped && s.consumer == Exited
  }

  function Apply(c: Config, s: State, step: Step): State
    requires Enabled(c, s, step)
  {
    match step
    case Push(p) => s.(queue := s.queue + [Item(p, s.pushed[p])], pushed := s.pushed[p := s.pushed[p] + 1])
    case PushFull(p) => s
    case CountProduced(p) => s.(counted := s.counted[p := s.counted[p] + 1])
    case Pop => s.(popped := s.popped + [s.queue[0]], queue := s.queue[1..], consumer := Counting)
    case PopEmpty => s.(consumer := SawEmpty)
    case CountConsumed => s.(consumed := s.consumed + 1, consumer := AtPop)
    case LoadStop => s.(consumer := if s.stop then Exited else AtPop)
    case Join => s.(main := if s.main.next < |s.counted| then Joining(s.main.next + 1) else Waiting)
    case Check => if s.consumed < Expected(c) then s else s.(stop := true, main := Stopped)
    case JoinConsumer => s.(main := Ended)
  }

  /** The state after `steps`, all of which have to be enabled where they are taken. */
  ghost predicate Leads(c: Config, s: State, steps: seq<Step>, t: State)
    decreases |steps|
  {
    if steps == [] then s == t
    else Enabled(c, s, steps[0]) && Leads(c, Apply(c, s, steps[0]), steps[1..], t)
  }

  ghost predicate Reachable(c: Config, s: State) { exists steps :: Leads(c, Start(c), steps, s) }

  // ----- The invariant

  function Of(items: seq<Item>, p: nat): seq<Item> {
    if items == [] then []
    else Of(items[..|items| - 1], p) + if items[|items| - 1].producer == p then [items[|items| - 1]] else []
  }

  /** The first `n` records of producer `p`, in order. */
  function FirstOf(p: nat, n: nat): (items: seq<Item>)
    ensures |items| == n
  {
    seq(n, i requires 0 <= i < n => Item(p, i))
  }

  function Sum(xs: seq<nat>): nat { if xs == [] then 0 else Sum(xs[..|xs| - 1]) + xs[|xs| - 1] }

  /** Everything that has been pushed, oldest first. */
  function History(s: State): seq<Item> { s.popped + s.queue }

  ghost predicate Conserved(c: Config, s: State)
    requires Sized(c, s)
  {
    && (forall p: nat :: p < c.producers ==> Of(History(s), p) == FirstOf(p, s.pushed[p]))
    && |History(s)| == Sum(s.pushed)
  }

  ghost predicate Paced(c: Config, s: State)
    requires Sized(c, s)
  {
    && (forall p: nat :: p < c.producers ==>
          s.counted[p] <= s.pushed[p] <= s.counted[p] + 1 && s.pushed[p] <= c.perProducer)
    && |s.queue| <= c.capacity
    && |s.popped| == s.consumed + if s.consumer == Counting then 1 else 0
  }

  ghost predicate Ordered(c: Config, s: State)
    requires Sized(c, s)
  {
    && (s.main.Joining? ==> s.main.next <= c.producers)
    && (forall p: nat :: p < c.producers && (s.main.Joining? ==> p < s.main.next) ==> s.counted[p] == c.perProducer)
    && (s.stop <==> s.main == Stopped || s.main == Ended)
    && (s.stop ==> s.consumed == Expected(c))
    && (s.consumer == Exited ==> s.stop)
    && (s.main == Ended ==> s.consumer == Exited)
  }

  ghost predicate Inv(c: Config, s: State) {
    Sized(c, s) && Conserved(c, s) && Paced(c, s) && Ordered(c, s)
  }

  lemma {:induction false} OfSnoc(items: seq<Item>, item: Item, p: nat)
    ensures Of(items + [item], p) == Of(items, p) + if item.producer == p then [item] else []
  {
    assert (items + [item])[..|items|] == items;
  }

  lemma {:induction false} SumUpdate(xs: seq<nat>, p: nat, v: nat)
    requires p < |xs|
    ensures Sum(xs[p := v]) == Sum(xs) - xs[p] + v
  {
    var ys := xs[p := v];
    if p == |xs| - 1 {
      assert ys[..|xs| - 1] == xs[..|xs| - 1];
    } else {
      SumUpdate(xs[..|xs| - 1], p, v);
      assert ys[..|xs| - 1] == xs[..|xs| - 1][p := v];
    }
  }

  lemma {:induction false} SumOfZeros(n: nat)
    ensures Sum(seq(n, _ => 0)) == 0
  {
    if n > 0 {
      SumOfZeros(n - 1);
      assert seq(n, _ => 0)[..n - 1] == seq(n - 1, _ => 0);
    }
  }

  lemma {:induction false} SumBound(xs: seq<nat>, bound: nat)
    requires forall i :: 0 <= i < |xs| ==> xs[i] <= bound
    ensures Sum(xs) <= |xs| * bound
    ensures Sum(xs) == |xs| * bound <==> forall i :: 0 <= i < |xs| ==> xs[i] == bound
  {
    if xs != [] {
      SumBound(xs[..|xs| - 1], bound);
      assert |xs| * bound == (|xs| - 1) * bound + bound;
    }
  }

  lemma StartInv(c: Config)
    ensures Inv(c, Start(c))
  {
    SumOfZeros(c.producers);
    forall p: nat | p < c.producers
      ensures Of([], p) == FirstOf(p, 0)
    {
    }
    assert [] + [] == History(Start(c));
  }

  lemma FirstOfNext(p: nat, n: nat)
    ensures FirstOf(p, n + 1) == FirstOf(p, n) + [Item(p, n)]
  {
  }

  lemma PushKeepsOrder(history: seq<Item>, p: nat, n: nat, q: nat, m: nat)
    requires Of(history, q) == FirstOf(q, m) && (q == p ==> n == m)
    ensures Of(history + [Item(p, n)], q) == FirstOf(q, if q == p then n + 1 else m)
  {
    OfSnoc(history, Item(p, n), q);
    FirstOfNext(p, n);
    if q != p { assert Of(history, q) + [] == Of(history, q); }
  }

  lemma PushConserves(c: Config, s: State, p: nat)
    requires Inv(c, s) && Enabled(c, s, Push(p))
    ensures Sized(c, Apply(c, s, Push(p))) && Conserved(c, Apply(c, s, Push(p)))
  {
    var t := Apply(c, s, Push(p));
    assert History(t) == History(s) + [Item(p, s.pushed[p])];
    SumUpdate(s.pushed, p, s.pushed[p] + 1);
    forall q: nat | q < c.producers
      ensures Of(History(t), q) == FirstOf(q, t.pushed[q])
    {
      PushKeepsOrder(History(s), p, s.pushed[p], q, s.pushed[q]);
    }
  }

  lemma PushKeepsInv(c: Config, s: State, p: nat)
    requires Inv(c, s) && Enabled(c, s, Push(p))
    ensures Inv(c, Apply(c, s, Push(p)))
  {
    PushConserves(c, s, p);
  }

  lemma CountKeepsInv(c: Config, s: State, p: nat)
    requires Inv(c, s) && Enabled(c, s, CountProduced(p))
    ensures Inv(c, Apply(c, s, CountProduced(p)))
  {
    assert History(Apply(c, s, CountProduced(p))) == History(s);
  }

  lemma PopConserves(c: Config, s: State)
    requires Inv(c, s) && Enabled(c, s, Pop)
    ensures Inv(c, Apply(c, s, Pop))
  {
    assert History(Apply(c, s, Pop)) == History(s);
  }

  lemma CheckConserves(c: Config, s: State)
    requires Inv(c, s) && Enabled(c, s, Check)
    ensures Inv(c, Apply(c, s, Check))
  {
    AllPushed(c, s);
  }

  /** Once all producers have been joined, all records have been pushed. */
  lemma AllPushed(c: Config, s: State)
    requires Inv(c, s) && !s.main.Joining?
    ensures |s.popped| + |s.queue| == Expected(c) && s.consumed <= Expected(c)
    ensures forall p: nat :: p < c.producers ==> s.pushed[p] == c.perProducer
  {
    forall i | 0 <= i < |s.pushed|
      ensures s.pushed[i] == c.perProducer
    {
      assert s.counted[i] == c.perProducer;
    }
    SumBound(s.pushed, c.perProducer);
  }

  /** The steps that touch neither the queue nor the producers' counters. */
  lemma ControlKeepsInv(c: Config, s: State, step: Step)
    requires Inv(c, s) && Enabled(c, s, step)
    requires step.PushFull? || step.PopEmpty? || step.LoadStop? || step.Join? || step.JoinConsumer?
    ensures Inv(c, Apply(c, s, step))
  {
    assert History(Apply(c, s, step)) == History(s);
  }

  lemma CountConsumedKeepsInv(c: Config, s: State)
    requires Inv(c, s) && Enabled(c, s, CountConsumed)
    ensures Inv(c, Apply(c, s, CountConsumed))
  {
    if s.stop { AllPushed(c, s); }
    assert History(Apply(c, s, CountConsumed)) == History(s);
  }

  lemma StepKeepsInv(c: Config, s: State, step: Step)
    requires Inv(c, s) && Enabled(c, s, step)
    ensures Inv(c, Apply(c, s, step))
  {
    match step
    case Push(p) => PushKeepsInv(c, s, p);
    case CountProduced(p) => CountKeepsInv(c, s, p);
    case Pop => PopConserves(c, s);
    case CountConsumed => CountConsumedKeepsInv(c, s);
    case Check => CheckConserves(c, s);
    case _ => ControlKeepsInv(c, s, step);
  }

  lemma {:induction false} LeadsKeepsInv(c: Config, s: State, steps: seq<Step>, t: State)
    requires Inv(c, s) && Leads(c, s, steps, t)
    ensures Inv(c, t)
    decreases |steps|
  {
    if steps != [] {
      StepKeepsInv(c, s, steps[0]);
      LeadsKeepsInv(c, Apply(c, s, steps[0]), steps[1..], t);
    }
  }

  lemma ReachableInv(c: Config, s: State)
    requires Reachable(c, s)
    ensures Inv(c, s)
  {
    StartInv(c);
    var steps :| Leads(c, Start(c), steps, s);
    LeadsKeepsInv(c, Start(c), steps, s);
  }

  // ----- Safety

  lemma {:induction false} OfPrefix(a: seq<Item>, b: seq<Item>, p: nat)
    ensures Of(a, p) <= Of(a + b, p)
    decreases |b|
  {
    if b == [] {
      assert a + b == a;
    } else {
      var c := b[..|b| - 1];
      OfPrefix(a, c, p);
      OfSnoc(a + c, b[|b| - 1], p);
      assert (a + c) + [b[|b| - 1]] == a + b;
    }
  }

  /** In every reachable state: what was pushed is what was popped followed by what is queued, each
      producer's records exactly once and in order in the whole, and what was popped of each is a
      prefix of its records. */
  lemma NothingLostOrReordered(c: Config, s: State, p: nat)
    requires Reachable(c, s) && p < c.producers
    ensures Sized(c, s) && |s.popped| + |s.queue| == Sum(s.pushed) && |s.queue| <= c.capacity
    ensures Of(s.popped + s.queue, p) == FirstOf(p, s.pushed[p])
    ensures Of(s.popped, p) <= FirstOf(p, c.perProducer)
  {
    ReachableInv(c, s);
    OfPrefix(s.popped, s.queue, p);
    assert FirstOf(p, s.pushed[p]) <= FirstOf(p, c.perProducer);
  }

  /** The consumer leaves its loop only after every record of every producer has been popped and
      counted, and the queue is then empty. */
  lemma ExitsOnlyWhenDone(c: Config, s: State)
    requires Reachable(c, s) && s.consumer == Exited
    ensures s.queue == [] && s.consumed == |s.popped| == Expected(c)
    ensures forall p: nat :: p < c.producers ==> Of(s.popped, p) == FirstOf(p, c.perProducer)
    ensures Sum(s.counted) == Expected(c)
  {
    ReachableInv(c, s);
    AllPushed(c, s);
    assert s.popped + s.queue == s.popped;
    SumBound(s.counted, c.perProducer);
  }

  // ----- Turns of the threads

  datatype Thread = Producer(p: nat) | TheConsumer | TheMain

  predicate IsThread(c: Config, th: Thread) { th.Producer? ==> th.p < c.producers }

  function ThreadOf(step: Step): Thread {
    match step
    case Push(p) => Producer(p)
    case PushFull(p) => Producer(p)
    case CountProduced(p) => Producer(p)
    case Join => TheMain
    case Check => TheMain
    case JoinConsumer => TheMain
    case _ => TheConsumer
  }

  /** What a thread does next; if that is not enabled the thread waits or has ended. */
  function NextOf(c: Config, s: State, th: Thread): Step {
    match th
    case Producer(p) =>
      if p < |s.pushed| && p < |s.counted| && s.counted[p] < s.pushed[p] then CountProduced(p)
      else if |s.queue| < c.capacity then Push(p)
      else PushFull(p)
    case TheConsumer =>
      (match s.consumer
       case AtPop => if s.queue != [] then Pop else PopEmpty
       case Counting => CountConsumed
       case _ => LoadStop)
    case TheMain => if s.main.Joining? then Join else if s.main == Waiting then Check else JoinConsumer
  }

  /** The schedule decides whose turn it is; nothing else is left open. */
  lemma ScheduleDecides(c: Config, s: State, step: Step)
    requires Enabled(c, s, step)
    ensures NextOf(c, s, ThreadOf(step)) == step
  {
  }

  function Turn(c: Config, s: State, th: Thread): State {
    var step := NextOf(c, s, th);
    if Enabled(c, s, step) then Apply(c, s, step) else s
  }

  // ----- Progress

  function ConsumerWeight(s: State): nat {
    match s.consumer
    case AtPop => if s.stop then 2 else 0
    case Counting => if s.stop then 3 else 1
    case SawEmpty => if s.stop then 1 else 0
    case Exited => 0
  }

  function MainWeight(c: Config, s: State): nat {
    match s.main
    case Joining(next) => 6 + if next <= c.producers then c.producers - next else 0
    case Waiting => 5
    case Stopped => 1
    case Ended => 0
  }

  /** The consumer is about to look at the stop flag although the queue has been filled again. */
  predicate Late(s: State) { s.consumer == SawEmpty && !s.stop && s.queue != [] }

  /** How much is still to be done. */
  function Work(c: Config, s: State): int {
    2 * (4 * (Expected(c) - Sum(s.pushed)) + (Sum(s.pushed) - Sum(s.counted)) + 2 * |s.queue|
         + ConsumerWeight(s) + MainWeight(c, s))
    + if Late(s) then 1 else 0
  }

  lemma {:induction false} SumMonotone(xs: seq<nat>, ys: seq<nat>)
    requires |xs| == |ys| && forall i :: 0 <= i < |xs| ==> xs[i] <= ys[i]
    ensures Sum(xs) <= Sum(ys)
  {
    if xs != [] { SumMonotone(xs[..|xs| - 1], ys[..|ys| - 1]); }
  }

  lemma WorkNotNegative(c: Config, s: State)
    requires Inv(c, s)
    ensures Work(c, s) >= 0
  {
    SumBound(s.pushed, c.perProducer);
    SumMonotone(s.counted, s.pushed);
  }

  /** The steps that only spin. */
  predicate Spins(c: Config, s: State, step: Step) {
    match step
    case PushFull(_) => true
    case PopEmpty => !s.stop
    case LoadStop => !s.stop && s.queue == []
    case Check => s.consumed < Expected(c)
    case _ => false
  }

  /** Spinning changes nothing except where in its loop the consumer of an empty queue is. */
  ghost predicate Alike(s: State, t: State) {
    s == t || (s.queue == [] && !s.stop && s.consumer in {AtPop, SawEmpty} && t.consumer in {AtPop, SawEmpty}
               && t == s.(consumer := t.consumer))
  }

  lemma PushWork(c: Config, s: State, p: nat)
    requires Sized(c, s) && Enabled(c, s, Push(p))
    ensures Work(c, Apply(c, s, Push(p))) < Work(c, s)
  {
    SumUpdate(s.pushed, p, s.pushed[p] + 1);
  }

  lemma CountWork(c: Config, s: State, p: nat)
    requires Sized(c, s) && Enabled(c, s, CountProduced(p))
    ensures Work(c, Apply(c, s, CountProduced(p))) < Work(c, s)
  {
    SumUpdate(s.counted, p, s.counted[p] + 1);
  }

  lemma ProducerWork(c: Config, s: State, step: Step)
    requires Sized(c, s) && Enabled(c, s, step) && ThreadOf(step).Producer?
    ensures if Spins(c, s, step) then Alike(s, Apply(c, s, step)) else Work(c, Apply(c, s, step)) < Work(c, s)
  {
    match step
    case Push(p) => PushWork(c, s, p);
    case CountProduced(p) => CountWork(c, s, p);
    case _ =>
  }

  lemma ConsumerWork(c: Config, s: State, step: Step)
    requires Enabled(c, s, step) && ThreadOf(step) == TheConsumer
    ensures if Spins(c, s, step) then Alike(s, Apply(c, s, step)) else Work(c, Apply(c, s, step)) < Work(c, s)
  {
  }

  lemma MainWork(c: Config, s: State, step: Step)
    requires Inv(c, s) && Enabled(c, s, step) && ThreadOf(step) == TheMain
    ensures if Spins(c, s, step) then Alike(s, Apply(c, s, step)) else Work(c, Apply(c, s, step)) < Work(c, s)
  {
  }

  /** Whoever's turn it is, the work gets less, or the thread spins or waits. */
  lemma TurnWork(c: Config, s: State, th: Thread)
    requires Inv(c, s)
    ensures Inv(c, Turn(c, s, th))
    ensures Alike(s, Turn(c, s, th)) || Work(c, Turn(c, s, th)) < Work(c, s)
  {
    var step := NextOf(c, s, th);
    if Enabled(c, s, step) {
      StepKeepsInv(c, s, step);
      match th
      case Producer(_) => ProducerWork(c, s, step);
      case TheConsumer => ConsumerWork(c, s, step);
      case TheMain => MainWork(c, s, step);
    }
  }

  /** The thread is neither waiting nor spinning. */
  ghost predicate Helps(c: Config, s: State, th: Thread) {
    Enabled(c, s, NextOf(c, s, th)) && !Spins(c, s, NextOf(c, s, th))
  }

  lemma HelpingTurn(c: Config, s: State, th: Thread)
    requires Inv(c, s) && Helps(c, s, th)
    ensures Work(c, Turn(c, s, th)) < Work(c, s)
  {
    var step := NextOf(c, s, th);
    match th
    case Producer(_) => ProducerWork(c, s, step);
    case TheConsumer => ConsumerWork(c, s, step);
    case TheMain => MainWork(c, s, step);
  }

  /** Short of the end some thread helps, and goes on helping while the others only spin. */
  lemma HelpfulThread(c: Config, s: State) returns (th: Thread)
    requires Inv(c, s) && c.capacity > 0 && s.main != Ended
    ensures IsThread(c, th) && forall t :: Alike(s, t) ==> Helps(c, t, th)
  {
    if s.consumer == Counting || (s.queue != [] && s.consumer != Exited) {
      th := TheConsumer;
    } else if p: nat :| p < c.producers && s.counted[p] < s.pushed[p] {
      th := Producer(p);
    } else if p: nat :| p < c.producers && s.consumer != Exited && s.pushed[p] < c.perProducer {
      th := Producer(p);
    } else {
      th := LastThread(c, s);
    }
  }

  lemma LastThread(c: Config, s: State) returns (th: Thread)
    requires Inv(c, s) && s.main != Ended && s.consumer != Counting && (s.consumer != Exited ==> s.queue == [])
    requires forall p: nat :: p < c.producers ==> s.counted[p] == s.pushed[p]
    requires s.consumer != Exited ==> forall p: nat :: p < c.producers ==> s.pushed[p] == c.perProducer
    ensures IsThread(c, th) && forall t :: Alike(s, t) ==> Helps(c, t, th)
  {
    th := if s.main == Stopped && s.consumer != Exited then TheConsumer else TheMain;
    if !s.main.Joining? { AllPushed(c, s); }
  }

  /** Short of the end some step can be taken that leaves less to do. */
  lemma HelpfulStep(c: Config, s: State) returns (step: Step)
    requires Inv(c, s) && c.capacity > 0 && s.main != Ended
    ensures Enabled(c, s, step) && Work(c, Apply(c, s, step)) < Work(c, s)
  {
    var th := HelpfulThread(c, s);
    assert Alike(s, s);
    HelpingTurn(c, s, th);
    step := NextOf(c, s, th);
  }

  lemma {:induction false} CanFinish(c: Config, s: State) returns (steps: seq<Step>, t: State)
    requires Inv(c, s) && c.capacity > 0
    ensures Leads(c, s, steps, t) && Inv(c, t) && t.main == Ended
    decreases Work(c, s)
  {
    if s.main == Ended {
      steps, t := [], s;
    } else {
      var step := HelpfulStep(c, s);
      WorkNotNegative(c, s);
      StepKeepsInv(c, s, step);
      var more;
      more, t := CanFinish(c, Apply(c, s, step));
      steps := [step] + more;
    }
  }

  /** The program has ended, with every record popped, in order, and both counters at the expected
      total. */
  ghost predicate Finished(c: Config, t: State) {
    && t.main == Ended && t.consumed == Sum(t.counted) == Expected(c)
    && forall p: nat :: p < c.producers ==> Of(t.popped, p) == FirstOf(p, c.perProducer)
  }

  lemma EndedIsFinished(c: Config, s: State)
    requires Reachable(c, s) && s.main == Ended
    ensures Finished(c, s)
  {
    ReachableInv(c, s);
    ExitsOnlyWhenDone(c, s);
  }

  /** No reachable state is stuck: from each one some continuation finishes. */
  lemma NeverStuck(c: Config, s: State)
    requires Reachable(c, s) && c.capacity > 0
    ensures exists steps, t :: Leads(c, s, steps, t) && Finished(c, t)
  {
    ReachableInv(c, s);
    var steps, t := CanFinish(c, s);
    var before :| Leads(c, Start(c), before, s);
    LeadsJoin(c, Start(c), before, s, steps, t);
    EndedIsFinished(c, t);
  }

  lemma {:induction false} LeadsJoin(c: Config, s: State, before: seq<Step>, t: State, after: seq<Step>, u: State)
    requires Leads(c, s, before, t) && Leads(c, t, after, u)
    ensures Leads(c, s, before + after, u)
    decreases |before|
  {
    if before == [] {
      assert before + after == after;
    } else {
      LeadsJoin(c, Apply(c, s, before[0]), before[1..], t, after, u);
      assert (before + after)[1..] == before[1..] + after;
    }
  }

  // ----- Every fair run finishes

  type Schedule = nat -> Thread

  type Trace = nat -> State

  /** The thread whose turn it is at time `i` takes it. */
  ghost predicate TurnAt(c: Config, trace: Trace, schedule: Schedule, i: nat) {
    trace(i + 1) == Turn(c, trace(i), schedule(i))
  }

  ghost predicate RunsAlong(c: Config, trace: Trace, schedule: Schedule) {
    trace(0) == Start(c) && forall i: nat :: TurnAt(c, trace, schedule, i)
  }

  ghost predicate HasTurn(schedule: Schedule, th: Thread, after: nat) {
    exists j: nat :: after <= j && schedule(j) == th
  }

  /** Every thread gets a turn again and again. */
  ghost predicate Fair(c: Config, schedule: Schedule) {
    forall th, i: nat :: IsThread(c, th) ==> HasTurn(schedule, th, i)
  }

  lemma TurnReachable(c: Config, s: State, th: Thread)
    requires Reachable(c, s)
    ensures Reachable(c, Turn(c, s, th))
  {
    var steps :| Leads(c, Start(c), steps, s);
    var step := NextOf(c, s, th);
    if Enabled(c, s, step) {
      assert Leads(c, s, [step], Apply(c, s, step));
      LeadsJoin(c, Start(c), steps, s, [step], Apply(c, s, step));
    }
  }

  lemma {:induction false} TraceReachable(c: Config, trace: Trace, schedule: Schedule, i: nat)
    requires RunsAlong(c, trace, schedule)
    ensures Reachable(c, trace(i)) && Inv(c, trace(i))
  {
    if i == 0 {
      assert Leads(c, Start(c), [], trace(0));
    } else {
      TraceReachable(c, trace, schedule, i - 1);
      assert TurnAt(c, trace, schedule, i - 1);
      TurnReachable(c, trace(i - 1), schedule(i - 1));
    }
    ReachableInv(c, trace(i));
  }

  /** From `i` to `j` the work has become less or all threads have only spun. */
  lemma {:induction false} SpinsOrWorks(c: Config, trace: Trace, schedule: Schedule, i: nat, j: nat)
    requires RunsAlong(c, trace, schedule) && i <= j
    ensures Alike(trace(i), trace(j)) || Work(c, trace(j)) < Work(c, trace(i))
    decreases j
  {
    if i < j {
      SpinsOrWorks(c, trace, schedule, i, j - 1);
      TraceReachable(c, trace, schedule, j - 1);
      assert TurnAt(c, trace, schedule, j - 1);
      TurnWork(c, trace(j - 1), schedule(j - 1));
      AlikeOrLess(c, trace(i), trace(j - 1), trace(j));
    }
  }

  lemma AlikeOrLess(c: Config, s: State, t: State, u: State)
    requires (Alike(s, t) || Work(c, t) < Work(c, s)) && (Alike(t, u) || Work(c, u) < Work(c, t))
    ensures Alike(s, u) || Work(c, u) < Work(c, s)
  {
    AlikeWork(c, s, t);
    AlikeWork(c, t, u);
  }

  lemma AlikeWork(c: Config, s: State, t: State)
    ensures Alike(s, t) ==> Work(c, s) == Work(c, t)
  {
  }

  /** Short of the end the work becomes less at some later time. */
  lemma WorkGetsLess(c: Config, trace: Trace, schedule: Schedule, i: nat) returns (n: nat)
    requires RunsAlong(c, trace, schedule) && Fair(c, schedule) && c.capacity > 0 && trace(i).main != Ended
    ensures Work(c, trace(n)) < Work(c, trace(i))
  {
    TraceReachable(c, trace, schedule, i);
    var th := HelpfulThread(c, trace(i));
    assert HasTurn(schedule, th, i);
    n :| i <= n && schedule(n) == th;
    SpinsOrWorks(c, trace, schedule, i, n);
    if Alike(trace(i), trace(n)) {
      HelperActs(c, trace, schedule, n);
      AlikeWork(c, trace(i), trace(n));
      n := n + 1;
    }
  }

  lemma HelperActs(c: Config, trace: Trace, schedule: Schedule, n: nat)
    requires RunsAlong(c, trace, schedule) && Helps(c, trace(n), schedule(n))
    ensures Work(c, trace(n + 1)) < Work(c, trace(n))
  {
    TraceReachable(c, trace, schedule, n);
    HelpingTurn(c, trace(n), schedule(n));
    assert TurnAt(c, trace, schedule, n);
  }

  lemma {:induction false} EndsAfter(c: Config, trace: Trace, schedule: Schedule, i: nat) returns (n: nat)
    requires RunsAlong(c, trace, schedule) && Fair(c, schedule) && c.capacity > 0
    ensures trace(n).main == Ended
    decreases Work(c, trace(i))
  {
    n := i;
    if trace(i).main != Ended {
      TraceReachable(c, trace, schedule, i);
      WorkNotNegative(c, trace(i));
      var later := WorkGetsLess(c, trace, schedule, i);
      n := EndsAfter(c, trace, schedule, later);
    }
  }

  /** Under every schedule that gives each thread a turn again and again, the program ends, with every
      record popped, in order, and both counters at the expected total. */
  lemma FairRunsFinish(c: Config, trace: Trace, schedule: Schedule) returns (n: nat)
    requires RunsAlong(c, trace, schedule) && Fair(c, schedule) && c.capacity > 0
    ensures Finished(c, trace(n))
  {
    n := EndsAfter(c, trace, schedule, 0);
    TraceReachable(c, trace, schedule, n);
    EndedIsFinished(c, trace(n));
  }
}
