/** The offload queue when a wait may return without a signal: exactly which runs still run every
    job, and two that do not. */
module OffloadWaits {
  import opened Numbers
  import opened Offload

  // ---------- what a run should keep ----------

  /** No empty handler has been called, what has run is what came first, in order, and every job
      that has not run yet is in a slot of its own. */
  ghost predicate Fine(s: State)
    requires Shaped(s)
  {
    !s.worker.Crashed? && s.executed <= s.submitted && |s.submitted| - |s.executed| <= QUEUE_SIZE
    && forall k :: |s.executed| <= k < |s.submitted| ==> s.slots[At(k)] == Holding(s.submitted[k])
  }

  ghost predicate AlwaysFine(s: State, steps: seq<Step>)
    requires Shaped(s) && IsRun(s, steps)
    decreases |steps|
  {
    Fine(s) && (steps == [] || AlwaysFine(Do(s, steps[0]), steps[1..]))
  }

  /** The counters' difference, as the program computes it. */
  function Difference(s: State): nat { Wrap(s.head - s.tail) }

  /** A handler is called only if the queue is not empty; a job goes into the queue, or a slot is
      emptied, only if that is not the slot of a job still to be run. */
  predicate Careful(s: State, a: Step) {
    match a
    case Call => s.head != s.tail
    case Retry => Difference(s) < QUEUE_SIZE || s.worker.Clearing? || s.worker.Advancing?
    case Add(_) => Difference(s) <= QUEUE_SIZE
    case Drop => Difference(s) <= QUEUE_SIZE
    case _ => true
  }

  predicate CarefulRun(s: State, steps: seq<Step>)
    requires Shaped(s) && IsRun(s, steps)
    decreases |steps|
  {
    steps == [] || (Careful(s, steps[0]) && CarefulRun(Do(s, steps[0]), steps[1..]))
  }

  // ---------- the invariant of careful runs ----------

  /** The jobs still to be run are in their slots, and the free slots are empty. */
  ghost predicate SlotsSound(s: State)
    requires |s.slots| == QUEUE_SIZE
  {
    (forall k :: Ran(s) <= k < |s.submitted| ==> s.slots[At(k)] == Holding(s.submitted[k]))
    && (forall k :: |s.submitted| <= k < s.retired + QUEUE_SIZE ==> s.slots[At(k)] == Empty)
    && (s.worker.Advancing? && Pending(s) <= QUEUE_SIZE ==> s.slots[At(s.retired)] == Empty)
  }

  ghost predicate WorkerSound(s: State) {
    match s.worker
    case Top => true
    case Waiting => Pending(s) == 0 && !s.quit
    case Woken => true
    case Running(i) => i == At(s.retired)
    case Clearing(i) => Pending(s) > 0 && i == At(s.retired)
    case Advancing => Pending(s) > 0
    case Exited => Pending(s) == 0 && s.quit
    case Crashed => false
  }

  /** While the worker gives back a slot whose job has run, the slot may already be used again. */
  function Room(s: State): nat { if s.worker.Clearing? || s.worker.Advancing? then QUEUE_SIZE + 1 else QUEUE_SIZE }

  ghost predicate ProducerSound(s: State) {
    match s.producer
    case Idle => !s.quit
    case Blocked(_) => !s.quit && Pending(s) == QUEUE_SIZE
    case Freed(_) => !s.quit && Pending(s) <= QUEUE_SIZE
    case Joining => s.quit
    case Stopped => s.quit && s.worker.Exited?
  }

  ghost predicate Sound(s: State) {
    Shaped(s) && s.head == Wrap(|s.submitted|) && s.tail == Wrap(s.retired)
    && 0 <= Pending(s) <= Room(s) && Ran(s) <= |s.submitted| && s.executed == s.submitted[..Ran(s)]
    && SlotsSound(s) && WorkerSound(s) && ProducerSound(s)
  }

  lemma SoundIsFine(s: State)
    requires Sound(s)
    ensures Shaped(s) && Fine(s)
  {
    hide At, Wrap;
  }

  lemma InitSound()
    ensures Sound(Init())
  {
    hide At;
  }

  /** The counters' difference is right for nine jobs, too. */
  lemma Nine(h: nat, t: nat)
    requires 0 <= h - t <= QUEUE_SIZE + 1
    ensures Wrap(Wrap(h) - Wrap(t)) == h - t
    ensures Wrap(h) == Wrap(t) <==> h == t
    ensures At(Wrap(h)) == At(h) && At(Wrap(t)) == At(t)
    ensures Wrap(Wrap(h) + 1) == Wrap(h + 1) && Wrap(Wrap(t) + 1) == Wrap(t + 1)
  {
    Counters(h, h);
    Counters(t, t);
    WrapParts(h, h / WRAP);
    WrapParts(t, t / WRAP);
    var a, b := h % WRAP, t % WRAP;
    if h / WRAP != t / WRAP { assert a - b == h - t - WRAP; }
  }

  /** The slot of a job that has not run is not the one under the head, if there is room. */
  lemma HeadApart(s: State, k: nat)
    requires Sound(s) && Ran(s) <= k < |s.submitted|
    requires Pending(s) < QUEUE_SIZE || (Pending(s) == QUEUE_SIZE && Ran(s) > s.retired)
    ensures At(k) != At(|s.submitted|)
  {
    hide At, Wrap;
    Apart(k, |s.submitted|);
  }

  /** Handing over a job where there is room for it. */
  lemma PutSound(s: State, job: Job)
    requires Sound(s) && !s.quit
    requires Pending(s) < QUEUE_SIZE || (Pending(s) == QUEUE_SIZE && (s.worker.Clearing? || s.worker.Advancing?))
    ensures Sound(Put(s, job))
  {
    hide SlotsSound, At, Wrap;
    Nine(|s.submitted|, s.retired);
    PutSlotsSound(s, job);
  }

  lemma PutSlotsSound(s: State, job: Job)
    requires Sound(s) && !s.quit
    requires Pending(s) < QUEUE_SIZE || (Pending(s) == QUEUE_SIZE && (s.worker.Clearing? || s.worker.Advancing?))
    ensures SlotsSound(Put(s, job))
  {
    hide At, Wrap, WorkerSound, ProducerSound;
    var t, n := Put(s, job), |s.submitted|;
    Nine(n, s.retired);
    forall k | Ran(t) <= k < |t.submitted| ensures t.slots[At(k)] == Holding(t.submitted[k]) {
      if k < n { HeadApart(s, k); }
    }
    forall k | |t.submitted| <= k < t.retired + QUEUE_SIZE ensures t.slots[At(k)] == Empty { Apart(n, k); }
    if t.worker.Advancing? && Pending(t) <= QUEUE_SIZE { Apart(s.retired, n); }
  }

  lemma LookSound(s: State, a: Step)
    requires Sound(s) && Enabled(s, a) && (a.Look? || a.Resume?)
    ensures Sound(Do(s, a))
  {
    hide At, Wrap;
    Nine(|s.submitted|, s.retired);
  }

  lemma CallSound(s: State)
    requires Sound(s) && s.worker.Running?
    ensures Sound(Do(s, Call)) <==> Pending(s) > 0
    ensures Pending(s) == 0 ==> !Fine(Do(s, Call))
  {
    hide At, Wrap;
    Nine(|s.submitted|, s.retired);
    assert Pending(s) == 0 ==> s.slots[At(s.retired)] == Empty;
    assert Pending(s) > 0 ==> s.slots[At(s.retired)] == Holding(s.submitted[s.retired]);
  }

  lemma DropSound(s: State)
    requires Sound(s) && s.worker.Clearing?
    ensures Sound(Do(s, Drop)) <==> Pending(s) <= QUEUE_SIZE
    ensures Pending(s) > QUEUE_SIZE ==> !Fine(Do(s, Drop))
  {
    hide At, Wrap;
    var t, r := Do(s, Drop), s.retired;
    if Pending(s) <= QUEUE_SIZE {
      forall k | Ran(t) <= k < |t.submitted| ensures t.slots[At(k)] == Holding(t.submitted[k]) { Apart(r, k); }
    } else {
      Around(r);
      assert t.slots[At(r + QUEUE_SIZE)] == Empty;
    }
  }

  lemma Around(k: nat)
    ensures At(k + QUEUE_SIZE) == At(k)
  {
  }

  lemma AdvanceSound(s: State)
    requires Sound(s) && s.worker.Advancing?
    ensures Sound(Do(s, Advance))
  {
    hide At, Wrap;
    var t, r := Do(s, Advance), s.retired;
    Nine(|s.submitted|, r);
    Around(r);
    forall k | |t.submitted| <= k < t.retired + QUEUE_SIZE ensures t.slots[At(k)] == Empty {
      assert k < r + QUEUE_SIZE ==> s.slots[At(k)] == Empty;
    }
  }

  /** A job put where there is no room for it. */
  lemma NoRoom(s: State, job: Job)
    requires Sound(s) && (Pending(s) > QUEUE_SIZE || (Pending(s) == QUEUE_SIZE && Ran(s) == s.retired))
    ensures !Fine(Put(s, job))
  {
    hide At, Wrap;
  }

  /** A careful step keeps the invariant; any other takes a job away or calls an empty handler. */
  lemma StepSound(s: State, a: Step)
    requires Sound(s) && Enabled(s, a)
    ensures if Careful(s, a) then Sound(Do(s, a)) else !Fine(Do(s, a))
  {
    hide At, Wrap, SlotsSound, Fine;
    Nine(|s.submitted|, s.retired);
    match a
    case Look => LookSound(s, a);
    case Resume => LookSound(s, a);
    case Call => CallSound(s);
    case Drop => DropSound(s);
    case Advance => AdvanceSound(s);
    case Add(job) =>
      if Pending(s) < QUEUE_SIZE { PutSound(s, job); }
      else if Pending(s) > QUEUE_SIZE { NoRoom(s, job); }
      else { SameSlots(s, a); }
    case Retry => if Careful(s, a) { PutSound(s, s.producer.job); } else { NoRoom(s, s.producer.job); }
    case Stop => SameSlots(s, a);
    case Join => SameSlots(s, a);
    case SpuriousWorker => SameSlots(s, a);
    case SpuriousProducer => SameSlots(s, a);
  }

  lemma SameSlots(s: State, a: Step)
    requires Sound(s) && Enabled(s, a)
    requires a.Stop? || a.Join? || Spurious(a) || (a.Add? && Wrap(s.head - s.tail) == QUEUE_SIZE)
    ensures SlotsSound(Do(s, a))
  {
    hide At, Wrap;
  }

  lemma {:induction false} FineFrom(s: State, steps: seq<Step>)
    requires Sound(s) && IsRun(s, steps)
    ensures AlwaysFine(s, steps) <==> CarefulRun(s, steps)
    decreases |steps|
  {
    hide Sound, Fine, Careful;
    SoundIsFine(s);
    if steps == [] {
    } else {
      StepSound(s, steps[0]);
      if Careful(s, steps[0]) {
        FineFrom(Do(s, steps[0]), steps[1..]);
      }
    }
  }

  /** Whatever wakes the threads up: a run keeps every job, runs them in order and never calls an
      empty handler exactly when it is careful. */
  lemma FineExactly(steps: seq<Step>)
    requires IsRun(Init(), steps)
    ensures AlwaysFine(Init(), steps) <==> CarefulRun(Init(), steps)
  {
    InitSound();
    FineFrom(Init(), steps);
  }

  /** Without such wake-ups every run is careful. */
  lemma {:induction false} SignalledCareful(s: State, steps: seq<Step>)
    requires Inv(s) && IsRun(s, steps) && NoSpurious(steps)
    ensures CarefulRun(s, steps)
    decreases |steps|
  {
    hide At, Wrap, SlotsRight;
    if steps == [] {
    } else {
      assert !Spurious(steps[0]);
      Counters(|s.submitted|, s.retired);
      StepInv(s, steps[0]);
      SignalledCareful(Do(s, steps[0]), steps[1..]);
    }
  }

  // ---------- a producer that wakes up too early ----------

  lemma {:induction false} RunOn(s: State, a: seq<Step>, b: seq<Step>)
    requires Shaped(s) && IsRun(s, a) && IsRun(After(s, a), b)
    ensures IsRun(s, a + b) && After(s, a + b) == After(After(s, a), b)
    decreases |a|
  {
    if a == [] {
      assert a + b == b;
    } else {
      assert (a + b)[1..] == a[1..] + b;
      RunOn(Do(s, a[0]), a[1..], b);
    }
  }

  /** The worker is about to call job 0, and jobs 1 to `n - 1` are in the queue behind it. */
  function Filled(n: nat): State {
    State(n, 0, seq(QUEUE_SIZE, i requires 0 <= i => if i < n then Holding(i) else Empty), false, Running(0), Idle,
          seq(n, i requires 0 <= i => i), [], 0)
  }

  function Filling(n: nat): (steps: seq<Step>)
    requires n >= 1
  {
    if n == 1 then [Add(0), Look] else Filling(n - 1) + [Add(n - 1)]
  }

  lemma FilledOnce()
    ensures IsRun(Init(), Filling(1)) && After(Init(), Filling(1)) == Filled(1)
  {
    var run := [Add(0), Look];
    var s := Do(Init(), Add(0));
    assert run[1..] == [Look] && run[1..][1..] == [];
    assert Do(s, Look) == Filled(1);
    assert IsRun(s, [Look]) && After(s, [Look]) == Filled(1);
  }

  lemma OneStep(s: State, a: Step)
    requires Shaped(s) && Enabled(s, a)
    ensures IsRun(s, [a]) && After(s, [a]) == Do(s, a)
  {
    hide Do;
    assert [a][1..] == [];
  }

  lemma {:induction false} FilledBy(n: nat)
    requires 1 <= n <= QUEUE_SIZE
    ensures IsRun(Init(), Filling(n)) && After(Init(), Filling(n)) == Filled(n)
  {
    if n == 1 {
      FilledOnce();
    } else {
      FilledBy(n - 1);
      var s, a := Filled(n - 1), Add(n - 1);
      OneStep(s, a);
      assert Do(s, a) == Filled(n);
      RunOn(Init(), Filling(n - 1), [a]);
    }
  }

  function Overwriting(): seq<Step> {
    Filling(8) + [Add(8), SpuriousProducer, Retry, Call]
  }

  predicate FirstLost(s: State) { |s.submitted| == 9 && s.submitted[0] == 0 && s.executed == [8] }

  /** The ninth job is put over the first one, which the worker is about to call, and is called in
      its place. */
  lemma ProducerLosesJob()
    ensures IsRun(Init(), Overwriting()) && FirstLost(After(Init(), Overwriting()))
  {
    FilledBy(8);
    var s0 := Filled(8);
    var s1 := s0.(producer := Blocked(8));
    var s2 := s0.(producer := Freed(8));
    var s3 := Put(s2, 8);
    var s4 := s3.(worker := Clearing(0), executed := [8]);
    assert Do(s0, Add(8)) == s1 && Do(s1, SpuriousProducer) == s2 && Do(s2, Retry) == s3;
    assert s3.slots[0] == Holding(8) && Do(s3, Call) == s4;
    Four(s0, [Add(8), SpuriousProducer, Retry, Call]);
    RunOn(Init(), Filling(8), [Add(8), SpuriousProducer, Retry, Call]);
  }

  lemma Four(s: State, a: seq<Step>)
    requires |a| == 4 && Shaped(s) && Enabled(s, a[0]) && Enabled(Do(s, a[0]), a[1])
    requires Enabled(Do(Do(s, a[0]), a[1]), a[2]) && Enabled(Do(Do(Do(s, a[0]), a[1]), a[2]), a[3])
    ensures IsRun(s, a) && After(s, a) == Do(Do(Do(Do(s, a[0]), a[1]), a[2]), a[3])
  {
    hide Do, Enabled;
    var s1 := Do(s, a[0]);
    var s2 := Do(s1, a[1]);
    OneStep(Do(s2, a[2]), a[3]);
    OneStep(s2, a[2]);
    OneStep(s1, a[1]);
    OneStep(s, a[0]);
    RunOn(s2, [a[2]], [a[3]]);
    RunOn(s1, [a[1]], [a[2]] + [a[3]]);
    RunOn(s, [a[0]], [a[1]] + ([a[2]] + [a[3]]));
    assert a == [a[0]] + ([a[1]] + ([a[2]] + [a[3]]));
  }
}
