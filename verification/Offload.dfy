/** The offload queue: a ring of eight slots between one producer and one worker thread,
    as a system of atomic steps.  Each step is what a thread does between taking and giving up
    the lock, or one unlocked action of the worker. */
module Offload {
  import opened Numbers

  const QUEUE_SIZE: int := 8

  /** The slot that a counter points at. */
  function At(i: int): (k: nat)
    ensures k < QUEUE_SIZE
  {
    i % QUEUE_SIZE
  }

  /** A 32-bit counter. */
  function Wrap(i: int): (u: nat)
    ensures u < WRAP
  {
    i % WRAP
  }

  type Job = nat

  datatype Slot = Empty | Holding(job: Job)

  datatype Worker =
    | Top                 // about to take the lock and look at the queue
    | Waiting             // inside pthread_cond_wait on s_cond_work
    | Woken               // signalled, about to get the lock back
    | Running(slot: nat)  // about to call the handler in a slot, without the lock
    | Clearing(slot: nat) // about to drop the handler, without the lock
    | Advancing           // about to take the lock and move the tail
    | Exited
    | Crashed             // called an empty handler

  datatype Producer =
    | Idle
    | Blocked(job: Job)   // inside pthread_cond_wait on s_cond_available
    | Freed(job: Job)     // signalled, about to get the lock back
    | Joining             // offload_stop, waiting for the worker to exit
    | Stopped

  /** The shared variables, where each thread stands, and the history: the jobs handed over,
      the jobs run, and how often the tail has moved. */
  datatype State = State(
    head: int, tail: int, slots: seq<Slot>, quit: bool,
    worker: Worker, producer: Producer,
    submitted: seq<Job>, executed: seq<Job>, retired: nat)

  datatype Step =
    | Look | Resume | Call | Drop | Advance          // the worker
    | Add(job: Job) | Retry | Stop | Join            // the producer
    | SpuriousWorker | SpuriousProducer              // a wait that returns without a signal

  predicate Spurious(a: Step) { a.SpuriousWorker? || a.SpuriousProducer? }

  function Init(): State {
    State(0, 0, seq(QUEUE_SIZE, _ => Empty), false, Top, Idle, [], [], 0)
  }

  // ---------- the steps ----------

  /** Signal s_cond_work. */
  function SignalWork(w: Worker): Worker { if w.Waiting? then Woken else w }

  /** Signal s_cond_available. */
  function SignalAvailable(p: Producer): Producer { if p.Blocked? then Freed(p.job) else p }

  /** Take the slot under the tail. */
  function TakeSlot(s: State): State { s.(worker := Running(At(s.tail))) }

  /** Put a job under the head and move the head. */
  function Put(s: State, job: Job): State
    requires |s.slots| == QUEUE_SIZE
  {
    s.(slots := s.slots[At(s.head) := Holding(job)],
       head := Wrap(s.head + 1),
       worker := SignalWork(s.worker),
       producer := Idle,
       submitted := s.submitted + [job])
  }

  predicate Enabled(s: State, a: Step) {
    match a
    case Look => s.worker.Top?
    case Resume => s.worker.Woken?
    case Call => s.worker.Running?
    case Drop => s.worker.Clearing?
    case Advance => s.worker.Advancing?
    case Add(_) => s.producer.Idle?
    case Retry => s.producer.Freed?
    case Stop => s.producer.Idle?
    case Join => s.producer.Joining? && s.worker.Exited?
    case SpuriousWorker => s.worker.Waiting?
    case SpuriousProducer => s.producer.Blocked?
  }

  predicate Shaped(s: State) {
    |s.slots| == QUEUE_SIZE
    && (s.worker.Running? || s.worker.Clearing? ==> s.worker.slot < QUEUE_SIZE)
  }

  function Do(s: State, a: Step): (t: State)
    requires Shaped(s) && Enabled(s, a)
    ensures Shaped(t)
  {
    match a
    case Look =>
      if s.head == s.tail then (if s.quit then s.(worker := Exited) else s.(worker := Waiting))
      else TakeSlot(s)
    case Resume =>
      if s.quit && s.head == s.tail then s.(worker := Exited) else TakeSlot(s)
    case Call =>
      (match s.slots[s.worker.slot]
       case Empty => s.(worker := Crashed)
       case Holding(job) => s.(worker := Clearing(s.worker.slot), executed := s.executed + [job]))
    case Drop => s.(worker := Advancing, slots := s.slots[s.worker.slot := Empty])
    case Advance =>
      s.(worker := Top, tail := Wrap(s.tail + 1), retired := s.retired + 1,
         producer := SignalAvailable(s.producer))
    case Add(job) =>
      if Wrap(s.head - s.tail) == QUEUE_SIZE then s.(producer := Blocked(job)) else Put(s, job)
    case Retry => Put(s, s.producer.job)
    case Stop => s.(quit := true, worker := SignalWork(s.worker), producer := Joining)
    case Join => s.(producer := Stopped)
    case SpuriousWorker => s.(worker := Woken)
    case SpuriousProducer => s.(producer := Freed(s.producer.job))
  }

  /** A run: every step enabled where it is taken. */
  predicate IsRun(s: State, steps: seq<Step>)
    requires Shaped(s)
    decreases |steps|
  {
    steps == [] || (Enabled(s, steps[0]) && IsRun(Do(s, steps[0]), steps[1..]))
  }

  function After(s: State, steps: seq<Step>): (t: State)
    requires Shaped(s) && IsRun(s, steps)
    ensures Shaped(t)
    decreases |steps|
  {
    if steps == [] then s else After(Do(s, steps[0]), steps[1..])
  }

  predicate NoSpurious(steps: seq<Step>) {
    forall i :: 0 <= i < |steps| ==> !Spurious(steps[i])
  }

  // ---------- the invariant ----------

  function Pending(s: State): int { |s.submitted| - s.retired }

  /** How many jobs have run: the retired ones, and the one whose slot is being given back. */
  function Ran(s: State): nat {
    s.retired + if s.worker.Clearing? || s.worker.Advancing? then 1 else 0
  }

  /** What slot `i` must hold, given that jobs `retired..|submitted|` are in the ring. */
  ghost predicate SlotsRight(s: State)
    requires |s.slots| == QUEUE_SIZE
  {
    && (forall k :: s.retired <= k < |s.submitted| ==>
          s.slots[At(k)] == if k == s.retired && s.worker.Advancing? then Empty else Holding(s.submitted[k]))
  }

  ghost predicate WorkerRight(s: State) {
    match s.worker
    case Top => true
    case Waiting => Pending(s) == 0 && !s.quit
    case Woken => Pending(s) > 0 || s.quit
    case Running(i) => Pending(s) > 0 && i == At(s.retired)
    case Clearing(i) => Pending(s) > 0 && i == At(s.retired)
    case Advancing => Pending(s) > 0
    case Exited => Pending(s) == 0 && s.quit
    case Crashed => false
  }

  ghost predicate ProducerRight(s: State) {
    match s.producer
    case Idle => !s.quit
    case Blocked(_) => !s.quit && Pending(s) == QUEUE_SIZE
    case Freed(_) => !s.quit && Pending(s) < QUEUE_SIZE
    case Joining => s.quit
    case Stopped => s.quit && s.worker.Exited?
  }

  ghost predicate Inv(s: State) {
    && Shaped(s)
    && s.head == Wrap(|s.submitted|)
    && s.tail == Wrap(s.retired)
    && 0 <= Pending(s) <= QUEUE_SIZE
    && Ran(s) <= |s.submitted|
    && s.executed == s.submitted[..Ran(s)]
    && SlotsRight(s)
    && WorkerRight(s)
    && ProducerRight(s)
  }

  // ---------- arithmetic of the wrapping counters ----------

  /** Wrapping loses nothing while at most eight jobs are in the ring. */
  lemma Counters(h: nat, t: nat)
    requires 0 <= h - t <= QUEUE_SIZE
    ensures Wrap(Wrap(h) - Wrap(t)) == h - t
    ensures Wrap(h) == Wrap(t) <==> h == t
    ensures At(Wrap(h)) == At(h) && At(Wrap(t)) == At(t)
    ensures Wrap(Wrap(h) + 1) == Wrap(h + 1) && Wrap(Wrap(t) + 1) == Wrap(t + 1)
  {
    WrapParts(h, h / WRAP);
    WrapParts(t, t / WRAP);
    WrapParts(h + 1, h / WRAP);
    WrapParts(t + 1, t / WRAP);
    var a, b := h % WRAP, t % WRAP;
    if h / WRAP != t / WRAP {
      assert a - b == h - t - WRAP;
    }
  }

  lemma WrapParts(h: nat, q: nat)
    requires q * WRAP <= h <= q * WRAP + WRAP
    ensures h % WRAP == if h == q * WRAP + WRAP then 0 else h - q * WRAP
    ensures h < q * WRAP + WRAP ==> (h - q * WRAP) % QUEUE_SIZE == h % QUEUE_SIZE
  {
    var r := h - q * WRAP;
    if r == WRAP {
      assert h == (q + 1) * WRAP;
    } else {
      assert h / WRAP == q;
      assert h == 8 * (q * 0x2000_0000) + r;
    }
  }

  lemma Apart(k: int, n: int)
    requires 0 < n - k < QUEUE_SIZE
    ensures At(k) != At(n)
  {
  }

  // ---------- every step keeps the invariant ----------

  lemma InitInv()
    ensures Inv(Init())
  {
  }

  /** Handing over a job when the ring has room. */
  lemma PutInv(s: State, job: Job)
    requires Inv(s) && !s.quit && Pending(s) < QUEUE_SIZE
    ensures Inv(Put(s, job))
  {
    hide SlotsRight, At, Wrap;
    Counters(|s.submitted|, s.retired);
    PutSlots(s, job);
  }

  lemma PutSlots(s: State, job: Job)
    requires Inv(s) && Pending(s) < QUEUE_SIZE
    ensures SlotsRight(Put(s, job))
  {
    hide WorkerRight, ProducerRight, At, Wrap;
    var t, n := Put(s, job), |s.submitted|;
    Counters(n, s.retired);
    forall k | t.retired <= k < |t.submitted|
      ensures t.slots[At(k)]
           == if k == t.retired && t.worker.Advancing? then Empty else Holding(t.submitted[k])
    {
      if k < n {
        Apart(k, n);
        SlotOf(s, k);
      } else {
        NothingToRetire(s);
      }
    }
  }

  lemma NothingToRetire(s: State)
    requires Inv(s)
    ensures s.worker.Advancing? ==> s.retired < |s.submitted|
  {
  }

  /** What the invariant says of one job in the ring. */
  lemma SlotOf(s: State, k: nat)
    requires Inv(s) && s.retired <= k < |s.submitted|
    ensures s.slots[At(k)] == if k == s.retired && s.worker.Advancing? then Empty else Holding(s.submitted[k])
  {
  }

  /** Taking a slot, or going to sleep or away over an empty ring. */
  lemma LookInv(s: State, a: Step)
    requires Inv(s) && Enabled(s, a) && (a.Look? || a.Resume?)
    ensures Inv(Do(s, a))
  {
    hide At, Wrap;
    Counters(|s.submitted|, s.retired);
    Counters(s.retired, s.retired);
    var t := Do(s, a);
    forall k | t.retired <= k < |t.submitted| ensures t.slots[At(k)] == Holding(t.submitted[k]) {
      SlotOf(s, k);
    }
  }

  lemma CallInv(s: State)
    requires Inv(s) && s.worker.Running?
    ensures Inv(Do(s, Call))
  {
    hide At, Wrap;
    var t := Do(s, Call);
    SlotOf(s, s.retired);
    forall k | t.retired <= k < |t.submitted| ensures t.slots[At(k)] == Holding(t.submitted[k]) {
      SlotOf(s, k);
    }
  }

  lemma DropInv(s: State)
    requires Inv(s) && s.worker.Clearing?
    ensures Inv(Do(s, Drop))
  {
    hide At, Wrap;
    var t := Do(s, Drop);
    forall k | t.retired <= k < |t.submitted|
      ensures t.slots[At(k)] == if k == t.retired then Empty else Holding(t.submitted[k])
    {
      if k > s.retired { Apart(s.retired, k); }
      SlotOf(s, k);
    }
  }

  lemma AdvanceInv(s: State)
    requires Inv(s) && s.worker.Advancing?
    ensures Inv(Do(s, Advance))
  {
    hide At, Wrap;
    var t := Do(s, Advance);
    Counters(s.retired, s.retired);
    forall k | t.retired <= k < |t.submitted|
      ensures t.slots[At(k)]
           == if k == t.retired && t.worker.Advancing? then Empty else Holding(t.submitted[k])
    {
      assert s.slots[At(k)] == if k == s.retired && s.worker.Advancing? then Empty else Holding(s.submitted[k]);
    }
  }

  lemma StepInv(s: State, a: Step)
    requires Inv(s) && Enabled(s, a) && !Spurious(a)
    ensures Inv(Do(s, a))
  {
    hide At, Wrap;
    Counters(|s.submitted|, s.retired);
    match a
    case Advance => AdvanceInv(s);
    case Add(job) => if Pending(s) < QUEUE_SIZE { PutInv(s, job); }
    case Retry => PutInv(s, s.producer.job);
    case Stop =>
    case Join =>
    case Look => LookInv(s, a);
    case Resume => LookInv(s, a);
    case Call => CallInv(s);
    case Drop => DropInv(s);
  }

  /** The invariant holds after every run without spurious wake-ups. */
  lemma {:induction false} RunInv(s: State, steps: seq<Step>)
    requires Inv(s) && IsRun(s, steps) && NoSpurious(steps)
    ensures Inv(After(s, steps))
    decreases |steps|
  {
    if steps == [] {
    } else {
      assert !Spurious(steps[0]);
      StepInv(s, steps[0]);
      RunInv(Do(s, steps[0]), steps[1..]);
    }
  }

  // ---------- what the invariant gives ----------

  /** After every run: the counter difference is the number of jobs in the ring, at most eight,
      across every wrap; jobs have run exactly once each, in the order they were handed over;
      and the worker has exited only with nothing left to run. */
  lemma Safety(steps: seq<Step>)
    requires IsRun(Init(), steps) && NoSpurious(steps)
    ensures var s := After(Init(), steps);
            && 0 <= Wrap(s.head - s.tail) <= QUEUE_SIZE
            && Wrap(s.head - s.tail) == |s.submitted| - s.retired
            && s.executed <= s.submitted && |s.executed| - s.retired <= 1
            && !s.worker.Crashed?
            && (s.worker.Exited? ==> s.quit && s.executed == s.submitted)
  {
    InitInv();
    RunInv(Init(), steps);
    var s := After(Init(), steps);
    Counters(|s.submitted|, s.retired);
  }

  /** The jobs that a run's calls of `offload_add_work` bring, in their order. */
  function Brought(steps: seq<Step>): seq<Job>
    decreases |steps|
  {
    if steps == [] then [] else (if steps[0].Add? then [steps[0].job] else []) + Brought(steps[1..])
  }

  /** The job of a call that is still waiting for room. */
  function Held(p: Producer): seq<Job> {
    match p
    case Blocked(job) => [job]
    case Freed(job) => [job]
    case _ => []
  }

  /** In any run, every job that was brought is in the history once, in order, but for one that waits
      for room. */
  lemma {:induction false} NoneForgotten(s: State, steps: seq<Step>)
    requires Shaped(s) && IsRun(s, steps)
    ensures var t := After(s, steps);
            t.submitted + Held(t.producer) == s.submitted + Held(s.producer) + Brought(steps)
    decreases |steps|
  {
    hide At, Wrap, Shaped;
    if steps == [] {
    } else {
      var t := Do(s, steps[0]);
      BroughtIn(s, steps[0]);
      NoneForgotten(t, steps[1..]);
      var one := if steps[0].Add? then [steps[0].job] else [];
      assert s.submitted + Held(s.producer) + (one + Brought(steps[1..]))
          == t.submitted + Held(t.producer) + Brought(steps[1..]);
    }
  }

  lemma BroughtIn(s: State, a: Step)
    requires Shaped(s) && Enabled(s, a)
    ensures var t := Do(s, a);
            t.submitted + Held(t.producer)
            == s.submitted + Held(s.producer) + if a.Add? then [a.job] else []
  {
    hide At, Wrap;
  }

  /** A call waits exactly if eight jobs are in the ring; the worker waits exactly if none is and none
      is asked to stop, and leaves exactly if none is and it is. */
  lemma WhoWaits(s: State, a: Step)
    requires Inv(s) && Enabled(s, a)
    ensures a.Add? ==> (Do(s, a).producer.Blocked? <==> |s.submitted| - s.retired == 8)
    ensures a.Look? ==> (Do(s, a).worker.Waiting? <==> |s.submitted| == s.retired && !s.quit)
    ensures a.Look? || a.Resume? ==> (Do(s, a).worker.Exited? <==> |s.submitted| == s.retired && s.quit)
  {
    hide SlotsRight, At, Wrap;
    Counters(|s.submitted|, s.retired);
  }

  /** The producer never writes the slot that the worker is using outside the lock. */
  lemma BusySlotKept(s: State, a: Step)
    requires Inv(s) && Enabled(s, a) && (a.Add? || a.Retry?)
    requires s.worker.Running? || s.worker.Clearing?
    ensures Do(s, a).worker == s.worker
    ensures Do(s, a).slots[s.worker.slot] == s.slots[s.worker.slot]
  {
    hide SlotsRight, At, Wrap;
    var n, t := |s.submitted|, s.retired;
    Counters(n, t);
    if n - t < QUEUE_SIZE { Apart(t, n); }
  }

  /** The worker's next step, if it is not asleep or gone. */
  function WorkerStep(w: Worker): Step
    requires !w.Waiting? && !w.Exited? && !w.Crashed?
  {
    match w
    case Top => Look
    case Woken => Resume
    case Running(_) => Call
    case Clearing(_) => Drop
    case Advancing => Advance
  }

  /** No lost wake-up and no deadlock: while a job is in the ring the worker can move; a producer
      that waits is never stuck together with the worker; and an idle system is an empty one. */
  lemma NoDeadlock(s: State)
    requires Inv(s)
    ensures Pending(s) > 0 ==> !s.worker.Waiting? && !s.worker.Exited? && Enabled(s, WorkerStep(s.worker))
    ensures s.producer.Blocked? ==> Enabled(s, WorkerStep(s.worker))
    ensures s.producer.Freed? ==> Enabled(s, Retry)
    ensures s.producer.Joining? ==> Enabled(s, Join) || (!s.worker.Waiting? && Enabled(s, WorkerStep(s.worker)))
    ensures s.worker.Waiting? ==> s.executed == s.submitted && (s.producer.Idle? || s.producer.Freed?)
  {
  }

  // ---------- stopping ----------

  /** How many steps are left once the producer waits in offload_stop. */
  function StepsLeft(s: State): int {
    5 * Pending(s) + (
      match s.worker
      case Top => 2
      case Waiting => 2
      case Woken => 2
      case Running(_) => 0
      case Clearing(_) => -1
      case Advancing => -2
      case Exited => 1
      case Crashed => 0)
  }

  /** After offload_stop every step brings the end nearer, so the run is bounded. */
  lemma StopProgress(s: State, a: Step)
    requires Inv(s) && Enabled(s, a) && !Spurious(a) && s.producer.Joining?
    ensures var t := Do(s, a);
            && (t.producer.Joining? || t.producer.Stopped?)
            && t.submitted == s.submitted
            && (t.producer.Joining? ==> 0 < StepsLeft(t) < StepsLeft(s))
  {
    hide At, Wrap;
    StepInv(s, a);
    Counters(|s.submitted|, s.retired);
  }

  lemma {:induction false} StopBound(s: State, steps: seq<Step>)
    requires Inv(s) && s.producer.Joining? && IsRun(s, steps) && NoSpurious(steps)
    ensures After(s, steps).producer.Joining? || After(s, steps).producer.Stopped?
    ensures After(s, steps).submitted == s.submitted
    ensures |steps| <= StepsLeft(s)
    decreases |steps|
  {
    if steps == [] {
    } else {
      var a, t := steps[0], Do(s, steps[0]);
      assert !Spurious(a);
      StepInv(s, a);
      StopProgress(s, a);
      if t.producer.Joining? {
        StopBound(t, steps[1..]);
      } else {
        StoppedEnd(t, steps[1..]);
      }
    }
  }

  /** Nothing happens after the join. */
  lemma StoppedEnd(s: State, steps: seq<Step>)
    requires Inv(s) && s.producer.Stopped? && IsRun(s, steps)
    ensures steps == []
  {
  }

  ghost predicate Stuck(s: State) {
    forall a :: Enabled(s, a) ==> Spurious(a)
  }

  lemma JoiningMoves(s: State)
    requires Inv(s) && s.producer.Joining?
    ensures !Stuck(s)
  {
    NoDeadlock(s);
    var a := if s.worker.Exited? then Join else WorkerStep(s.worker);
    assert Enabled(s, a) && !Spurious(a);
  }

  /** offload_stop drains the queue: from any reachable state in which it waits, every run is
      bounded, and where a run cannot go on the worker is gone and every job handed over has run. */
  lemma StopDrains(s: State, steps: seq<Step>)
    requires Inv(s) && s.producer.Joining? && IsRun(s, steps) && NoSpurious(steps)
    ensures |steps| <= StepsLeft(s)
    ensures Stuck(After(s, steps)) ==>
      After(s, steps).producer.Stopped? && After(s, steps).executed == s.submitted
  {
    StopBound(s, steps);
    RunInv(s, steps);
    var t := After(s, steps);
    if t.producer.Joining? { JoiningMoves(t); }
  }

  // ---------- spurious wake-ups ----------

  /** Whether every run of the system is free of calls to an empty handler. */
  ghost predicate NeverCrashes(spuriousAllowed: bool) {
    forall steps :: IsRun(Init(), steps) && (spuriousAllowed || NoSpurious(steps)) ==>
      !After(Init(), steps).worker.Crashed?
  }

  /** The waits are not repeated when they return, so the queue is safe exactly where condition
      variables never wake up without a signal; the run below calls an empty handler. */
  lemma SpuriousMatters(allowed: bool)
    ensures NeverCrashes(allowed) <==> !allowed
  {
    if allowed {
      var run := [Look, SpuriousWorker, Resume, Call];
      var s0 := Init();
      var s1 := Do(s0, Look);
      var s2 := Do(s1, SpuriousWorker);
      var s3 := Do(s2, Resume);
      var s4 := Do(s3, Call);
      assert s4.worker.Crashed?;
      assert run[1..] == [SpuriousWorker, Resume, Call] && run[1..][1..] == [Resume, Call];
      assert run[1..][1..][1..] == [Call] && run[1..][1..][1..][1..] == [];
      assert After(s3, [Call]) == s4 && After(s2, [Resume, Call]) == s4;
      assert IsRun(s0, run) && After(s0, run) == s4;
    } else {
      forall steps | IsRun(Init(), steps) && NoSpurious(steps) ensures !After(Init(), steps).worker.Crashed? {
        Safety(steps);
      }
    }
  }
}
