/** Handing dispatched frames to the worker thread, over every interleaving of the two threads. */
module Worker {

  /** Dispatching: take the lock, push, release, then notify. */
  datatype MainPc = Ready | Pushing | Notifying

  /** The worker tests the queue with the lock held, waits without it, and moves the queue out with
      it; a woken worker has to take the lock again. */
  datatype WorkerPc = Locking | Testing | Asleep | Moving | Decoding

  datatype Owner = Free | ByMain | ByWorker

  datatype HandOff<!F> = HandOff(
    main: MainPc, worker: WorkerPc, lock: Owner,
    shared: seq<F>, local: seq<F>, dispatched: seq<F>, decoded: seq<F>)

  datatype Step<!F> =
    | MainLock(frame: F)
    | MainUnlock
    | MainNotify
    | WorkerLock
    | WorkerTest
    | WorkerWake            // spurious: nobody notified
    | WorkerMove
    | WorkerDecode
    | WorkerLoop

  function Start<F>(): HandOff<F> {
    HandOff(Ready, Locking, Free, [], [], [], [])
  }

  predicate CanStep<F>(s: HandOff<F>, a: Step<F>) {
    match a
    case MainLock(_) => s.main == Ready && s.lock == Free
    case MainUnlock => s.main == Pushing
    case MainNotify => s.main == Notifying
    case WorkerLock => s.worker == Locking && s.lock == Free
    case WorkerTest => s.worker == Testing
    case WorkerWake => s.worker == Asleep
    case WorkerMove => s.worker == Moving
    case WorkerDecode => s.worker == Decoding && s.local != []
    case WorkerLoop => s.worker == Decoding && s.local == []
  }

  function Stepped<F>(s: HandOff<F>, a: Step<F>): HandOff<F>
    requires CanStep(s, a)
  {
    match a
    case MainLock(frame) =>
      s.(main := Pushing, lock := ByMain, shared := s.shared + [frame], dispatched := s.dispatched + [frame])
    case MainUnlock => s.(main := Notifying, lock := Free)
    case MainNotify => s.(main := Ready, worker := if s.worker == Asleep then Locking else s.worker)
    case WorkerLock => s.(worker := Testing, lock := ByWorker)
    case WorkerTest =>
      if s.shared == [] then s.(worker := Asleep, lock := Free) else s.(worker := Moving)
    case WorkerWake => s.(worker := Locking)
    case WorkerMove =>
      if s.shared == [] then s.(worker := Decoding, lock := Free)
      else s.(local := s.local + [s.shared[0]], shared := s.shared[1..])
    case WorkerDecode => s.(decoded := s.decoded + [s.local[0]], local := s.local[1..])
    case WorkerLoop => s.(worker := Locking)
  }

  ghost predicate HandOffInv<F>(s: HandOff<F>) {
    // mutual exclusion
    && (s.lock == ByMain <==> s.main == Pushing)
    && (s.lock == ByWorker <==> s.worker == Testing || s.worker == Moving)
    // exactly once, in order
    && s.decoded + s.local + s.shared == s.dispatched
    && (s.worker != Moving && s.worker != Decoding ==> s.local == [])
    // no lost wake-up
    && (s.worker == Asleep && s.shared != [] ==> s.main != Ready)
  }

  lemma StepKeepsHandOff<F>(s: HandOff<F>, a: Step<F>)
    requires HandOffInv(s) && CanStep(s, a)
    ensures HandOffInv(Stepped(s, a))
  {
    var t := Stepped(s, a);
    match a {
      case MainLock(frame) => assert t.decoded + t.local + t.shared == s.decoded + s.local + s.shared + [frame];
      case WorkerMove =>
        if s.shared != [] {
          assert [s.shared[0]] + s.shared[1..] == s.shared;
        }
      case WorkerDecode => assert [s.local[0]] + s.local[1..] == s.local;
      case _ =>
    }
    assert t.decoded + t.local + t.shared == t.dispatched;
  }

  ghost predicate CanRun<F>(s: HandOff<F>, steps: seq<Step<F>>)
    decreases |steps|
  {
    steps == [] || (CanStep(s, steps[0]) && CanRun(Stepped(s, steps[0]), steps[1..]))
  }

  ghost function RunSteps<F>(s: HandOff<F>, steps: seq<Step<F>>): HandOff<F>
    requires CanRun(s, steps)
    decreases |steps|
  {
    if steps == [] then s else RunSteps(Stepped(s, steps[0]), steps[1..])
  }

  lemma {:induction false} RunKeepsHandOff<F>(s: HandOff<F>, steps: seq<Step<F>>)
    requires HandOffInv(s) && CanRun(s, steps)
    ensures HandOffInv(RunSteps(s, steps))
    decreases |steps|
  {
    if steps != [] {
      StepKeepsHandOff(s, steps[0]);
      RunKeepsHandOff(Stepped(s, steps[0]), steps[1..]);
    }
  }

  /** Over every interleaving, with spurious wake-ups: the frames decoded, taken and queued are the
      dispatched ones, each once and in order; the threads never hold the lock together; and the
      worker sleeps on a non-empty queue only while main still has to notify. */
  lemma HandOffOverRuns<F>(steps: seq<Step<F>>)
    requires CanRun(Start<F>(), steps)
    ensures var s := RunSteps(Start<F>(), steps);
            && s.decoded + s.local + s.shared == s.dispatched
            && s.decoded <= s.dispatched
            && !(s.main == Pushing && (s.worker == Testing || s.worker == Moving))
            && (s.worker == Asleep && s.shared != [] ==> s.main == Pushing || s.main == Notifying)
  {
    RunKeepsHandOff(Start<F>(), steps);
    var s := RunSteps(Start<F>(), steps);
    assert s.decoded + s.local + s.shared == s.decoded + (s.local + s.shared);
  }

  /** How far the worker is from having decoded everything dispatched. */
  ghost function Remaining<F>(s: HandOff<F>): nat {
    6 * |s.shared| + 5 * |s.local| +
    match s.worker
    case Locking => 3
    case Testing => 2
    case Moving => 1
    case Decoding => if s.local == [] then 4 else 0
    case Asleep => 0
  }

  predicate WorkerWorks<F>(a: Step<F>) {
    a.WorkerLock? || a.WorkerTest? || a.WorkerMove? || a.WorkerDecode? || a.WorkerLoop?
  }

  /** No deadlock and no lost frame: while a dispatched frame is not decoded, main can go on with its
      hand-off or the worker can take a step that is not a spurious wake-up; and every such worker
      step brings the worker closer to having decoded everything. */
  lemma WorkerProgress<F>(s: HandOff<F>)
    requires HandOffInv(s) && s.decoded != s.dispatched
    ensures || CanStep(s, MainUnlock) || CanStep(s, MainNotify)
            || CanStep(s, WorkerLock) || CanStep(s, WorkerTest) || CanStep(s, WorkerMove)
            || CanStep(s, WorkerDecode) || CanStep(s, WorkerLoop)
    ensures forall a :: CanStep(s, a) && WorkerWorks(a) ==> Remaining(Stepped(s, a)) < Remaining(s)
  {
    assert s.local == [] && s.shared == [] ==> s.decoded + s.local + s.shared == s.decoded;
  }

  // ---------- whole rounds of either thread ----------

  lemma StepThen<F>(s: HandOff<F>, a: Step<F>, t: HandOff<F>, rest: seq<Step<F>>)
    requires CanStep(s, a) && t == Stepped(s, a) && CanRun(t, rest)
    ensures CanRun(s, [a] + rest) && RunSteps(s, [a] + rest) == RunSteps(t, rest)
  {
    assert ([a] + rest)[1..] == rest;
  }

  /** Main can take the lock to dispatch in every reachable state, except while it is still handing off
      the frame before, or while the worker tests the queue or moves it out. */
  lemma DispatchIsFree<F>(steps: seq<Step<F>>, frame: F)
    requires CanRun(Start<F>(), steps)
    ensures var s := RunSteps(Start<F>(), steps);
            CanStep(s, MainLock(frame)) <==>
            s.main != Pushing && s.main != Notifying && s.worker != Testing && s.worker != Moving
  {
    RunKeepsHandOff(Start<F>(), steps);
  }

  /** Main's round: the frame goes to the back of the shared queue, and a sleeping worker is woken. */
  lemma MainRound<F>(s: HandOff<F>, frame: F)
    requires HandOffInv(s) && CanStep(s, MainLock(frame))
    ensures var round := [MainLock(frame)] + ([MainUnlock] + ([MainNotify] + []));
            && CanRun(s, round)
            && RunSteps(s, round) ==
               s.(shared := s.shared + [frame], dispatched := s.dispatched + [frame],
                  worker := if s.worker == Asleep then Locking else s.worker)
  {
    var t1 := Stepped(s, MainLock(frame));
    var t2 := Stepped(t1, MainUnlock);
    var t3 := Stepped(t2, MainNotify);
    StepThen(t2, MainNotify, t3, []);
    StepThen(t1, MainUnlock, t2, [MainNotify] + []);
    StepThen(s, MainLock(frame), t1, [MainUnlock] + ([MainNotify] + []));
  }

  /** The worker moves the whole shared queue out, in order, before it lets go of the lock. */
  lemma {:induction false} TakesAll<F>(s: HandOff<F>) returns (steps: seq<Step<F>>)
    requires s.worker == Moving
    ensures |steps| == |s.shared| + 1 && forall i :: 0 <= i < |steps| ==> steps[i].WorkerMove?
    ensures CanRun(s, steps)
    ensures RunSteps(s, steps) == s.(local := s.local + s.shared, shared := [], worker := Decoding, lock := Free)
    decreases |s.shared|
  {
    var t := Stepped(s, WorkerMove);
    if s.shared == [] {
      StepThen(s, WorkerMove, t, []);
      steps := [WorkerMove] + [];
      assert s.local + s.shared == s.local;
    } else {
      var rest := TakesAll(t);
      StepThen(s, WorkerMove, t, rest);
      steps := [WorkerMove] + rest;
      assert s.local + s.shared == s.local + [s.shared[0]] + s.shared[1..];
    }
  }

  /** The worker decodes all it took, in order, before it looks at the shared queue again. */
  lemma {:induction false} DecodesAll<F>(s: HandOff<F>) returns (steps: seq<Step<F>>)
    requires s.worker == Decoding
    ensures CanRun(s, steps)
    ensures RunSteps(s, steps) == s.(decoded := s.decoded + s.local, local := [], worker := Locking)
    decreases |s.local|
  {
    if s.local == [] {
      var t := Stepped(s, WorkerLoop);
      StepThen(s, WorkerLoop, t, []);
      steps := [WorkerLoop] + [];
      assert s.decoded + s.local == s.decoded;
    } else {
      var t := Stepped(s, WorkerDecode);
      var rest := DecodesAll(t);
      StepThen(s, WorkerDecode, t, rest);
      steps := [WorkerDecode] + rest;
      assert s.decoded + s.local == s.decoded + [s.local[0]] + s.local[1..];
    }
  }

  lemma {:induction false} RunsThen<F>(s: HandOff<F>, first: seq<Step<F>>, second: seq<Step<F>>)
    requires CanRun(s, first) && CanRun(RunSteps(s, first), second)
    ensures CanRun(s, first + second) && RunSteps(s, first + second) == RunSteps(RunSteps(s, first), second)
    decreases |first|
  {
    if first == [] {
      assert first + second == second;
    } else {
      var t := Stepped(s, first[0]);
      RunsThen(t, first[1..], second);
      StepThen(s, first[0], t, first[1..] + second);
      assert first + second == [first[0]] + (first[1..] + second);
    }
  }

  /** The worker's round. On an empty queue it goes to sleep, without the lock; otherwise it decodes all
      that was queued when it took the lock, in order, and comes back for more. */
  lemma WorkerRound<F>(s: HandOff<F>) returns (round: seq<Step<F>>)
    requires HandOffInv(s) && s.worker == Locking && s.lock == Free
    ensures CanRun(s, round)
    ensures RunSteps(s, round) ==
            if s.shared == [] then s.(worker := Asleep)
            else s.(shared := [], decoded := s.decoded + s.shared)
  {
    var t1 := Stepped(s, WorkerLock);
    var t2 := Stepped(t1, WorkerTest);
    if s.shared == [] {
      StepThen(t1, WorkerTest, t2, []);
      StepThen(s, WorkerLock, t1, [WorkerTest] + []);
      round := [WorkerLock] + ([WorkerTest] + []);
    } else {
      var moves := TakesAll(t2);
      var decodes := DecodesAll(RunSteps(t2, moves));
      RunsThen(t2, moves, decodes);
      StepThen(t1, WorkerTest, t2, moves + decodes);
      StepThen(s, WorkerLock, t1, [WorkerTest] + (moves + decodes));
      round := [WorkerLock] + ([WorkerTest] + (moves + decodes));
      assert s.local + s.shared == s.shared;
    }
  }
}
