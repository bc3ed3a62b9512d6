/**
 The thread pool guarded by one mutex: N workers, the adjusting thread, callers of add_task
 and one shutdown, as interleaved steps.

 What a thread does while it holds the mutex is still cut into steps, because the adjuster
 reads and writes the three counters and reads the sizes without it.
 */
module ThreadPool {
  import opened Basics

  type Task = nat

  datatype Worker =
    | Waiting             // wants the mutex, or waits on the condition variable
    | Woken               // holds the mutex; the wait condition was true
    | Retiring            // holds the mutex; saw exit_num > 0
    | Staying             // holds the mutex; saw exit_num <= 0
    | Took(task: Task)    // has a task, run_num not yet incremented
    | Counted(task: Task) // run_num incremented, live_num not yet decremented
    | Running(task: Task)
    | Retired             // gone through the exit_num branch
    | Left                // gone through the shutdown branch
    | Stuck               // asked an empty queue for its front

  datatype Adjuster =
    | Idle
    | Sizing
    | AddGuard1(size: int)
    | AddGuard2(size: int)
    | AddLock(size: int)
    | Adding(i: int, add: nat)       // holds the mutex
    | RetGuard1
    | RetGuard2
    | Reading
    | Rereading
    | Storing(v: int)
    | Loading
    | RetLock(x: int)
    | Announcing(i: int, x: int)     // holds the mutex

  datatype Mutex = Free | ByWorker(w: nat) | ByAdjuster

  datatype Pool = Pool(
    minThr: nat, maxThr: int,
    queue: seq<Task>, shutdown: bool, workers: seq<Worker>,
    run: int, live: int, exit: int,
    mutex: Mutex, adj: Adjuster,
    accepted: seq<Task>,     // everything add_task put into the queue
    taken: seq<Task>,        // everything taken out of it
    executed: multiset<Task>,
    added: nat,              // workers added by the adjuster
    announced: nat,          // retirements announced by the adjuster
    before: nat)             // size of the thread vector when this round read it

  datatype Step =
    | AddTask(t: Task)
    | SetShutdown
    | Wake(w: nat)
    | CheckExit(w: nat)
    | Retire(w: nat)
    | Proceed(w: nat)
    | IncRun(w: nat)
    | DecLive(w: nat)
    | Finish(w: nat)
    | Adjust

  const ADD_LIMIT: nat := 10

  /** The thread vector starts with minThr entries that never get a thread. */
  function Threads(s: Pool): int {
    s.minThr + |s.workers|
  }

  ghost predicate Init(s: Pool) {
    && s.queue == s.accepted == s.taken == [] && s.executed == multiset{}
    && !s.shutdown && s.mutex == Free && s.adj == Idle
    && s.run == s.live == s.exit == 0 && s.added == s.announced == 0
    && s.workers == seq(s.minThr, _ => Waiting) && s.before == 2 * s.minThr
  }

  predicate Enabled(s: Pool, step: Step) {
    match step
    case AddTask(_) => s.mutex == Free
    case SetShutdown => s.mutex == Free
    case Wake(w) =>
      && w < |s.workers| && s.workers[w].Waiting? && s.mutex == Free
      && (s.queue != [] || s.shutdown || s.exit > 0)
    case CheckExit(w) => w < |s.workers| && s.workers[w].Woken?
    case Retire(w) => w < |s.workers| && s.workers[w].Retiring?
    case Proceed(w) => w < |s.workers| && s.workers[w].Staying?
    case IncRun(w) => w < |s.workers| && s.workers[w].Took?
    case DecLive(w) => w < |s.workers| && s.workers[w].Counted?
    case Finish(w) => w < |s.workers| && s.workers[w].Running?
    case Adjust =>
      (s.adj.Idle? ==> !s.shutdown) && (s.adj.AddLock? || s.adj.RetLock? ==> s.mutex == Free)
  }

  function To(s: Pool, w: nat, k: Worker): seq<Worker>
    requires w < |s.workers|
  {
    s.workers[w := k]
  }

  /** queue length > live_num as the source compares them: live_num is converted to an
      unsigned 64-bit number, and a negative one becomes larger than any queue. */
  predicate MoreTasksThanLive(s: Pool) {
    s.live >= 0 && |s.queue| > s.live
  }

  function Apply(s: Pool, step: Step): Pool
    requires Enabled(s, step)
  {
    match step
    case AddTask(t) => if s.shutdown then s else s.(queue := s.queue + [t], accepted := s.accepted + [t])
    case SetShutdown => s.(shutdown := true)
    case Wake(w) => s.(workers := To(s, w, Woken), mutex := ByWorker(w))
    case CheckExit(w) => s.(workers := To(s, w, if s.exit > 0 then Retiring else Staying))
    case Retire(w) => s.(workers := To(s, w, Retired), exit := s.exit - 1, mutex := Free)
    case Proceed(w) =>
      if s.shutdown && s.queue == [] then s.(workers := To(s, w, Left), mutex := Free)
      else if s.queue == [] then s.(workers := To(s, w, Stuck))
      else s.(workers := To(s, w, Took(s.queue[0])), mutex := Free,
              queue := s.queue[1..], taken := s.taken + [s.queue[0]])
    case IncRun(w) => s.(workers := To(s, w, Counted(s.workers[w].task)), run := s.run + 1)
    case DecLive(w) => s.(workers := To(s, w, Running(s.workers[w].task)), live := s.live - 1)
    case Finish(w) => s.(workers := To(s, w, Waiting), executed := s.executed + multiset{s.workers[w].task})
    case Adjust => AdjustStep(s)
  }

  /** The adjuster's round, one read or write of shared state at a time. */
  function AdjustStep(s: Pool): Pool {
    match s.adj
    case Idle => s.(adj := Sizing)
    case Sizing => s.(adj := AddGuard1(Threads(s)), before := Threads(s))
    case AddGuard1(size) => s.(adj := if MoreTasksThanLive(s) then AddGuard2(size) else RetGuard1)
    case AddGuard2(size) => s.(adj := if s.live < s.maxThr && size < s.maxThr then AddLock(size) else RetGuard1)
    case AddLock(size) => s.(adj := Adding(size, 0), mutex := ByAdjuster)
    case Adding(i, add) =>
      if i < s.maxThr && add < ADD_LIMIT then
        s.(adj := Adding(i + 1, add + 1), workers := s.workers + [Waiting], live := s.live + 1, added := s.added + 1)
      else s.(adj := RetGuard1, mutex := Free)
    case RetGuard1 => s.(adj := if s.run * 2 < s.live then RetGuard2 else Idle)
    case RetGuard2 => s.(adj := if s.live > s.minThr then Reading else Idle)
    case Reading => s.(adj := if s.live - s.minThr >= 10 then Storing(10) else Rereading)
    case Rereading => s.(adj := Storing(s.live - s.minThr))
    case Storing(v) => s.(adj := Loading, exit := v)
    case Loading => s.(adj := RetLock(s.exit))
    case RetLock(x) => s.(adj := Announcing(0, x), mutex := ByAdjuster)
    case Announcing(i, x) =>
      if i < x then s.(adj := Announcing(i + 1, x), live := s.live - 1, announced := s.announced + 1)
      else s.(adj := Idle, mutex := Free)
  }

  // Runs

  ghost predicate Legal(s: Pool, steps: seq<Step>)
    decreases |steps|, 0
  {
    steps == [] ||
    (Legal(s, steps[..|steps| - 1]) && Enabled(Exec(s, steps[..|steps| - 1]), steps[|steps| - 1]))
  }

  ghost function Exec(s: Pool, steps: seq<Step>): Pool
    requires Legal(s, steps)
    decreases |steps|, 1
  {
    if steps == [] then s else Apply(Exec(s, steps[..|steps| - 1]), steps[|steps| - 1])
  }

  // Tallies over the workers

  /** The tasks workers have taken and not finished. */
  function Hands(ws: seq<Worker>): multiset<Task> {
    if ws == [] then multiset{} else Hands(ws[..|ws| - 1]) + InHand(ws[|ws| - 1])
  }

  function InHand(w: Worker): multiset<Task> {
    if w.Took? || w.Counted? || w.Running? then multiset{w.task} else multiset{}
  }

  lemma HandsSnoc(ws: seq<Worker>, w: Worker)
    ensures Hands(ws + [w]) == Hands(ws) + InHand(w)
  {
    assert (ws + [w])[..|ws|] == ws;
  }

  lemma {:induction false} HandsUpdate(ws: seq<Worker>, i: nat, w: Worker)
    requires i < |ws|
    ensures Hands(ws[i := w]) + InHand(ws[i]) == Hands(ws) + InHand(w)
  {
    var last := |ws| - 1;
    var init := ws[..last];
    if i == last {
      assert ws[i := w] == init + [w];
      HandsSnoc(init, w);
      Exchange(Hands(init), InHand(ws[i]), InHand(w));
    } else {
      assert ws[i := w] == init[i := w] + [ws[last]];
      HandsSnoc(init[i := w], ws[last]);
      HandsUpdate(init, i, w);
      Regroup(Hands(init[i := w]), Hands(init), InHand(ws[last]), InHand(ws[i]), InHand(w));
    }
  }

  datatype Kind = AtCounted | AtRunning

  function Is(w: Worker, k: Kind): nat {
    if (k.AtCounted? && w.Counted?) || (k.AtRunning? && w.Running?) then 1 else 0
  }

  function Tally(ws: seq<Worker>, k: Kind): nat {
    if ws == [] then 0 else Tally(ws[..|ws| - 1], k) + Is(ws[|ws| - 1], k)
  }

  lemma {:induction false} TallyUpdate(ws: seq<Worker>, i: nat, w: Worker, k: Kind)
    requires i < |ws|
    ensures Tally(ws[i := w], k) + Is(ws[i], k) == Tally(ws, k) + Is(w, k)
  {
    var last := |ws| - 1;
    if i == last {
      assert ws[i := w][..last] == ws[..last];
    } else {
      assert ws[i := w][..last] == ws[..last][i := w];
      TallyUpdate(ws[..last], i, w, k);
    }
  }

  lemma {:induction false} AllWaiting(n: nat)
    ensures Hands(seq(n, _ => Waiting)) == multiset{}
    ensures Tally(seq(n, _ => Waiting), AtCounted) == Tally(seq(n, _ => Waiting), AtRunning) == 0
  {
    if n > 0 {
      assert seq(n, _ => Waiting)[..n - 1] == seq(n - 1, _ => Waiting);
      AllWaiting(n - 1);
    }
  }

  // The invariant

  /** Accepted tasks are taken in order, and each taken one is in a hand or executed. */
  ghost predicate TasksKept(s: Pool) {
    s.accepted == s.taken + s.queue && multiset(s.taken) == s.executed + Hands(s.workers)
  }

  /** run_num and live_num in terms of what has happened. */
  ghost predicate CountersKept(s: Pool) {
    && s.run == |s.executed| + Tally(s.workers, AtRunning) + Tally(s.workers, AtCounted)
    && s.live == s.added - s.announced - |s.executed| - Tally(s.workers, AtRunning)
  }

  predicate Holds(w: Worker) {
    w.Woken? || w.Retiring? || w.Staying? || w.Stuck?
  }

  ghost predicate MutexKept(s: Pool) {
    && (forall w {:trigger s.workers[w]} :: 0 <= w < |s.workers| ==> (Holds(s.workers[w]) <==> s.mutex == ByWorker(w)))
    && (s.adj.Adding? || s.adj.Announcing? <==> s.mutex == ByAdjuster)
  }

  ghost predicate SizeKept(s: Pool) {
    && |s.workers| == s.minThr + s.added
    && Threads(s) <= Max(2 * s.minThr, s.maxThr)
    && s.before <= Threads(s) <= s.before + ADD_LIMIT
    && match s.adj
       case AddGuard1(size) => size == s.before == Threads(s)
       case AddGuard2(size) => size == s.before == Threads(s)
       case AddLock(size) => size == s.before == Threads(s) && size < s.maxThr
       case Adding(i, add) => i == s.before + add == Threads(s) && add <= ADD_LIMIT && i <= s.maxThr
       case _ => true
  }

  /** A worker that left by the shutdown branch saw the end of the queue. */
  ghost predicate LeavingKept(s: Pool) {
    forall w {:trigger s.workers[w]} :: 0 <= w < |s.workers| && s.workers[w].Left? ==> s.shutdown && s.queue == []
  }

  ghost predicate Inv(s: Pool) {
    TasksKept(s) && CountersKept(s) && MutexKept(s) && SizeKept(s) && LeavingKept(s)
  }

  lemma InitInv(s: Pool)
    requires Init(s)
    ensures Inv(s)
  {
    AllWaiting(s.minThr);
  }

  predicate ByAWorker(step: Step) {
    !step.AddTask? && !step.SetShutdown? && !step.Adjust?
  }

  lemma HandsSame(ws: seq<Worker>, i: nat, w: Worker)
    requires i < |ws| && InHand(w) == InHand(ws[i])
    ensures Hands(ws[i := w]) == Hands(ws)
  {
    HandsUpdate(ws, i, w);
    Cancel(Hands(ws[i := w]), Hands(ws), InHand(w));
  }

  lemma TasksProceed(s: Pool, w: nat)
    requires TasksKept(s) && Enabled(s, Proceed(w)) && s.queue != []
    ensures TasksKept(Apply(s, Proceed(w)))
  {
    var t, hands := s.queue[0], Hands(s.workers);
    HandsTake(s.workers, w, t);
    BagAppend(s.taken, t);
    Assoc(s.executed, hands, multiset{t});
    FrontMoves(s.taken, s.queue);
  }

  lemma HandsTake(ws: seq<Worker>, w: nat, t: Task)
    requires w < |ws| && InHand(ws[w]) == multiset{}
    ensures Hands(ws[w := Took(t)]) == Hands(ws) + multiset{t}
  {
    HandsUpdate(ws, w, Took(t));
  }

  lemma FrontMoves(taken: seq<Task>, queue: seq<Task>)
    requires queue != []
    ensures (taken + [queue[0]]) + queue[1..] == taken + queue
  {
  }

  lemma TasksFinish(s: Pool, w: nat)
    requires TasksKept(s) && Enabled(s, Finish(w))
    ensures TasksKept(Apply(s, Finish(w)))
  {
    var s' := Apply(s, Finish(w));
    var t := multiset{s.workers[w].task};
    HandsUpdate(s.workers, w, Waiting);
    assert Hands(s'.workers) + t == Hands(s.workers);
    Assoc(s.executed, Hands(s'.workers), t);
    Exchange(s.executed, Hands(s'.workers), t);
  }

  function NewState(s: Pool, step: Step): Worker
    requires Enabled(s, step) && ByAWorker(step)
  {
    Apply(s, step).workers[step.w]
  }

  lemma OneWorkerMoves(s: Pool, step: Step)
    requires Enabled(s, step) && ByAWorker(step)
    ensures Apply(s, step).workers == s.workers[step.w := NewState(s, step)]
  {
  }

  lemma SameHand(s: Pool, step: Step)
    requires Enabled(s, step) && ByAWorker(step)
    requires !step.Finish? && (step.Proceed? ==> s.queue == [])
    ensures InHand(NewState(s, step)) == InHand(s.workers[step.w])
  {
    if step.IncRun? || step.DecLive? { TaskStaysInHand(s, step); } else { HandStaysEmpty(s, step); }
  }

  lemma TaskStaysInHand(s: Pool, step: Step)
    requires Enabled(s, step) && (step.IncRun? || step.DecLive?)
    ensures InHand(NewState(s, step)) == InHand(s.workers[step.w]) == multiset{s.workers[step.w].task}
  {
  }

  lemma HandStaysEmpty(s: Pool, step: Step)
    requires Enabled(s, step) && ByAWorker(step) && !step.IncRun? && !step.DecLive?
    requires !step.Finish? && (step.Proceed? ==> s.queue == [])
    ensures InHand(NewState(s, step)) == InHand(s.workers[step.w]) == multiset{}
  {
  }

  /** A worker step that neither takes nor finishes a task leaves all hands as they are. */
  lemma TasksUntouched(s: Pool, s': Pool, w: nat)
    requires TasksKept(s) && w < |s.workers|
    requires s'.accepted == s.accepted && s'.taken == s.taken && s'.queue == s.queue && s'.executed == s.executed
    requires |s'.workers| == |s.workers| && s'.workers == s.workers[w := s'.workers[w]]
    requires InHand(s'.workers[w]) == InHand(s.workers[w])
    ensures TasksKept(s')
  {
    HandsSame(s.workers, w, s'.workers[w]);
  }

  lemma TasksStep(s: Pool, step: Step)
    requires TasksKept(s) && Enabled(s, step)
    ensures TasksKept(Apply(s, step))
  {
    if step.Adjust? {
      AdjustTouches(s);
      HandsGrow(s.workers);
    } else if step.Finish? {
      TasksFinish(s, step.w);
    } else if step.Proceed? && s.queue != [] {
      TasksProceed(s, step.w);
    } else if ByAWorker(step) {
      OneWorkerMoves(s, step);
      SameHand(s, step);
      TasksUntouched(s, Apply(s, step), step.w);
    }
  }

  lemma HandsGrow(ws: seq<Worker>)
    ensures Hands(ws + [Waiting]) == Hands(ws)
    ensures Tally(ws + [Waiting], AtRunning) == Tally(ws, AtRunning)
    ensures Tally(ws + [Waiting], AtCounted) == Tally(ws, AtCounted)
  {
    assert (ws + [Waiting])[..|ws|] == ws;
  }

  /** The adjuster touches the workers only by adding a waiting one, counted in `added` and
      live_num alike; a retirement is announced by one off live_num. */
  lemma AdjustTouches(s: Pool)
    ensures var t := AdjustStep(s);
      && t.accepted == s.accepted && t.taken == s.taken && t.queue == s.queue && t.executed == s.executed
      && t.run == s.run && t.live - t.added + t.announced == s.live - s.added + s.announced
      && (t.workers == s.workers || t.workers == s.workers + [Waiting])
  {
  }

  lemma CountersWorker(s: Pool, step: Step)
    requires CountersKept(s) && Enabled(s, step) && ByAWorker(step)
    ensures CountersKept(Apply(s, step))
  {
    var w := step.w;
    var s' := Apply(s, step);
    var k := s'.workers[w];
    assert s'.workers == s.workers[w := k];
    TallyUpdate(s.workers, w, k, AtRunning);
    TallyUpdate(s.workers, w, k, AtCounted);
    if step.Finish? {
      assert |s'.executed| == |s.executed| + 1;
    }
  }

  lemma CountersStep(s: Pool, step: Step)
    requires CountersKept(s) && Enabled(s, step)
    ensures CountersKept(Apply(s, step))
  {
    if step.Adjust? {
      AdjustTouches(s);
      HandsGrow(s.workers);
    } else if ByAWorker(step) {
      CountersWorker(s, step);
    }
  }

  lemma StepKeepsInv(s: Pool, step: Step)
    requires Inv(s) && Enabled(s, step)
    ensures Inv(Apply(s, step))
  {
    TasksStep(s, step);
    CountersStep(s, step);
    MutexStep(s, step);
    SizeStep(s, step);
    LeavingStep(s, step);
  }

  lemma MutexStep(s: Pool, step: Step)
    requires MutexKept(s) && Enabled(s, step)
    ensures MutexKept(Apply(s, step))
  {
    if step.Adjust? {
      MutexAdjust(s);
    } else if ByAWorker(step) {
      MutexWorker(s, step);
    }
  }

  lemma MutexAdjust(s: Pool)
    requires MutexKept(s) && Enabled(s, Adjust)
    ensures MutexKept(AdjustStep(s))
  {
  }

  lemma MutexWorker(s: Pool, step: Step)
    requires MutexKept(s) && Enabled(s, step) && ByAWorker(step)
    ensures MutexKept(Apply(s, step))
  {
    OneWorkerMoves(s, step);
    assert Holds(NewState(s, step)) <==> Apply(s, step).mutex == ByWorker(step.w);
  }

  lemma SizeStep(s: Pool, step: Step)
    requires SizeKept(s) && Enabled(s, step)
    ensures SizeKept(Apply(s, step))
  {
    if step.Adjust? {
      SizeAdjust(s);
    } else {
      var s' := Apply(s, step);
      assert |s'.workers| == |s.workers| && s'.adj == s.adj && s'.before == s.before && s'.added == s.added;
      assert s'.minThr == s.minThr && s'.maxThr == s.maxThr;
    }
  }

  lemma SizeAdjust(s: Pool)
    requires SizeKept(s)
    ensures SizeKept(AdjustStep(s))
  {
    if s.adj.Adding? { SizeAdding(s); } else { SizeSame(s); }
  }

  lemma SizeAdding(s: Pool)
    requires SizeKept(s) && s.adj.Adding?
    ensures SizeKept(AdjustStep(s))
  {
  }

  lemma SizeSame(s: Pool)
    requires SizeKept(s) && !s.adj.Adding?
    ensures SizeKept(AdjustStep(s))
  {
    assert AdjustStep(s).workers == s.workers && AdjustStep(s).added == s.added;
  }

  lemma LeavingStep(s: Pool, step: Step)
    requires LeavingKept(s) && Enabled(s, step)
    ensures LeavingKept(Apply(s, step))
  {
  }

  lemma {:induction false} RunKeepsInv(s0: Pool, steps: seq<Step>)
    requires Init(s0) && Legal(s0, steps)
    ensures Inv(Exec(s0, steps))
    ensures Exec(s0, steps).minThr == s0.minThr && Exec(s0, steps).maxThr == s0.maxThr
  {
    BoundsStay(s0, steps);
    if steps == [] {
      InitInv(s0);
    } else {
      RunKeepsInv(s0, steps[..|steps| - 1]);
      StepKeepsInv(Exec(s0, steps[..|steps| - 1]), steps[|steps| - 1]);
    }
  }

  lemma {:induction false} BoundsStay(s: Pool, steps: seq<Step>)
    requires Legal(s, steps)
    ensures Exec(s, steps).minThr == s.minThr && Exec(s, steps).maxThr == s.maxThr
  {
    if steps != [] { BoundsStay(s, steps[..|steps| - 1]); }
  }

  // What every run keeps

  /** The tasks of the calls of add_task made before the shutdown, read off the steps alone. */
  function Offered(steps: seq<Step>): seq<Task> {
    if steps == [] then []
    else
      var init, last := steps[..|steps| - 1], steps[|steps| - 1];
      Offered(init) + if last.AddTask? && SetShutdown !in init then [last.t] else []
  }

  lemma {:induction false} AcceptedIsOffered(s0: Pool, steps: seq<Step>)
    requires Init(s0) && Legal(s0, steps)
    ensures Exec(s0, steps).accepted == Offered(steps)
    ensures Exec(s0, steps).shutdown <==> SetShutdown in steps
  {
    if steps != [] {
      var init := steps[..|steps| - 1];
      AcceptedIsOffered(s0, init);
      assert steps == init + [steps[|steps| - 1]];
    }
  }

  /** The accepted tasks are those offered before the shutdown, in order.  Accepted = queued +
      in a worker's hand + executed, as multisets; tasks leave the queue in the order they
      came. */
  lemma TasksAreConserved(s0: Pool, steps: seq<Step>)
    requires Init(s0) && Legal(s0, steps)
    ensures var s := Exec(s0, steps);
      && s.accepted == Offered(steps) == s.taken + s.queue
      && multiset(s.accepted) == multiset(s.queue) + Hands(s.workers) + s.executed
  {
    AcceptedIsOffered(s0, steps);
    RunKeepsInv(s0, steps);
    var s := Exec(s0, steps);
    assert multiset(s.taken + s.queue) == multiset(s.taken) + multiset(s.queue);
  }

  /** Nothing is accepted once shutdown is set. */
  lemma {:induction false} NothingAcceptedAfterShutdown(s: Pool, steps: seq<Step>)
    requires s.shutdown && Legal(s, steps)
    ensures Exec(s, steps).shutdown && Exec(s, steps).accepted == s.accepted
  {
    if steps != [] { NothingAcceptedAfterShutdown(s, steps[..|steps| - 1]); }
  }

  /** The conserved counter, and the size of the thread vector. */
  lemma CountersAreConserved(s0: Pool, steps: seq<Step>)
    requires Init(s0) && Legal(s0, steps)
    ensures var s := Exec(s0, steps);
      && s.run + s.live + s.announced == s.added + Tally(s.workers, AtCounted)
      && Threads(s) <= Max(2 * s0.minThr, s0.maxThr)
      && s.before <= Threads(s) <= s.before + ADD_LIMIT
  {
    RunKeepsInv(s0, steps);
  }

  ghost predicate AllGone(s: Pool) {
    forall w {:trigger s.workers[w]} :: 0 <= w < |s.workers| ==> s.workers[w].Retired? || s.workers[w].Left?
  }

  lemma {:induction false} GoneHaveNothing(ws: seq<Worker>)
    requires forall w :: 0 <= w < |ws| ==> ws[w].Retired? || ws[w].Left?
    ensures Hands(ws) == multiset{}
  {
    if ws != [] { GoneHaveNothing(ws[..|ws| - 1]); }
  }

  /** When all workers are gone, at least one of them through the shutdown branch, every
      accepted task has been executed. */
  lemma JoinCompletesTasks(s0: Pool, steps: seq<Step>, w: nat)
    requires Init(s0) && Legal(s0, steps) && AllGone(Exec(s0, steps))
    requires w < |Exec(s0, steps).workers| && Exec(s0, steps).workers[w].Left?
    ensures var s := Exec(s0, steps);
      s.queue == [] && s.executed == multiset(s.accepted)
  {
    RunKeepsInv(s0, steps);
    var s := Exec(s0, steps);
    GoneHaveNothing(s.workers);
    assert s.accepted == s.taken + [];
    assert s.accepted == s.taken;
  }

  /** As the workers never give live_num back, resizing ends: once more tasks have been
      executed than workers were added and not retired, and the adjuster starts a round, it
      never adds or retires a worker again. */
  lemma ResizingEnds(s0: Pool, steps: seq<Step>, later: seq<Step>)
    requires Init(s0) && Legal(s0, steps)
    requires Exec(s0, steps).adj.Idle?
    requires |Exec(s0, steps).executed| > Exec(s0, steps).added - Exec(s0, steps).announced
    requires Legal(Exec(s0, steps), later)
    ensures var s, t := Exec(s0, steps), Exec(Exec(s0, steps), later);
      t.added == s.added && t.announced == s.announced && |t.workers| == |s.workers| && t.exit <= s.exit
  {
    RunKeepsInv(s0, steps);
    StaysFrozen(Exec(s0, steps), later);
  }

  /** The adjuster passes over both halves of every round to come. */
  ghost predicate Frozen(s: Pool) {
    (s.adj.Idle? && s.shutdown) ||
    (&& (s.live < 0 || Threads(s) >= s.maxThr) && (s.run * 2 >= s.live || s.live <= s.minThr)
     && match s.adj
        case Idle => true
        case Sizing => true
        case AddGuard1(size) => s.live < 0 || size >= s.maxThr
        case AddGuard2(size) => size >= s.maxThr
        case RetGuard1 => true
        case RetGuard2 => s.live <= s.minThr
        case _ => false)
  }

  lemma FrozenStep(s: Pool, step: Step)
    requires Frozen(s) && Enabled(s, step)
    ensures var t := Apply(s, step);
      && Frozen(t) && t.added == s.added && t.announced == s.announced
      && |t.workers| == |s.workers| && t.exit <= s.exit
  {
  }

  lemma {:induction false} StaysFrozen(s: Pool, later: seq<Step>)
    requires Frozen(s) && Legal(s, later)
    ensures var t := Exec(s, later);
      && Frozen(t) && t.added == s.added && t.announced == s.announced
      && |t.workers| == |s.workers| && t.exit <= s.exit
  {
    if later != [] {
      var n := |later| - 1;
      StaysFrozen(s, later[..n]);
      FrozenStep(Exec(s, later[..n]), later[n]);
    }
  }

  // The front of an empty queue

  /** The adjuster sets exit_num to 0 or less just when a worker, woken to retire, has not
      checked it yet and there is no task for it.  The value comes from a second read of
      live_num, which may have dropped since the guard. */
  ghost predicate BadStore(s: Pool, step: Step) {
    && step.Adjust? && s.adj.Storing? && s.adj.v <= 0
    && s.queue == [] && !s.shutdown && exists w :: 0 <= w < |s.workers| && s.workers[w].Woken?
  }

  /** The worker has asked an empty queue for its front, or will with its own next steps. */
  ghost predicate Doomed(s: Pool, w: nat)
    requires w < |s.workers|
  {
    match s.workers[w]
    case Woken =>
      var checked := Apply(s, CheckExit(w));
      checked.workers[w].Staying? && Apply(checked, Proceed(w)).workers[w].Stuck?
    case Staying => Apply(s, Proceed(w)).workers[w].Stuck?
    case Stuck => true
    case _ => false
  }

  ghost predicate FrontSafe(s: Pool) {
    forall w :: 0 <= w < |s.workers| ==> !Doomed(s, w)
  }

  ghost predicate AlwaysSafe(s0: Pool, steps: seq<Step>)
    requires Legal(s0, steps)
  {
    FrontSafe(Exec(s0, steps)) && (steps == [] || AlwaysSafe(s0, steps[..|steps| - 1]))
  }

  ghost predicate NoBadStore(s0: Pool, steps: seq<Step>)
    requires Legal(s0, steps)
  {
    steps == [] ||
    (NoBadStore(s0, steps[..|steps| - 1]) && !BadStore(Exec(s0, steps[..|steps| - 1]), steps[|steps| - 1]))
  }

  /** Over any run, no worker is ever doomed if and only if there is no bad store. */
  lemma {:induction false} SafeExactlyWithoutBadStore(s0: Pool, steps: seq<Step>)
    requires Init(s0) && Legal(s0, steps)
    ensures AlwaysSafe(s0, steps) <==> NoBadStore(s0, steps)
  {
    if steps != [] {
      var init := steps[..|steps| - 1];
      SafeExactlyWithoutBadStore(s0, init);
      RunKeepsInv(s0, init);
      if AlwaysSafe(s0, init) {
        FrontStep(Exec(s0, init), steps[|steps| - 1]);
      }
    }
  }

  lemma FrontStep(s: Pool, step: Step)
    requires MutexKept(s) && FrontSafe(s) && Enabled(s, step)
    ensures FrontSafe(Apply(s, step)) <==> !BadStore(s, step)
  {
    FrontMeans(s);
    FrontMeans(Apply(s, step));
    if step.Adjust? {
      FrontAdjust(s);
    } else if ByAWorker(step) {
      FrontWorker(s, step);
    }
  }

  /** What keeps a worker from its doom, by the state it is in. */
  ghost predicate Secure(s: Pool, w: Worker) {
    match w
    case Woken => s.queue != [] || s.shutdown || s.exit > 0
    case Staying => s.queue != [] || s.shutdown
    case Stuck => false
    case _ => true
  }

  ghost predicate AllSecure(s: Pool) {
    forall w {:trigger s.workers[w]} :: 0 <= w < |s.workers| ==> Secure(s, s.workers[w])
  }

  lemma FrontAdjust(s: Pool)
    requires AllSecure(s) && Enabled(s, Adjust)
    ensures AllSecure(AdjustStep(s)) <==> !BadStore(s, Adjust)
  {
    if BadStore(s, Adjust) {
      var w :| 0 <= w < |s.workers| && s.workers[w].Woken?;
      assert !Secure(AdjustStep(s), AdjustStep(s).workers[w]);
    }
  }

  lemma FrontWorker(s: Pool, step: Step)
    requires MutexKept(s) && AllSecure(s) && Enabled(s, step) && ByAWorker(step)
    ensures AllSecure(Apply(s, step))
  {
    OneWorkerMoves(s, step);
    assert Secure(Apply(s, step), NewState(s, step));
  }

  lemma FrontMeans(s: Pool)
    ensures FrontSafe(s) <==> AllSecure(s)
  {
    forall w | 0 <= w < |s.workers|
      ensures Doomed(s, w) <==>
        s.workers[w].Stuck? || (s.workers[w].Staying? && s.queue == [] && !s.shutdown)
        || (s.workers[w].Woken? && s.queue == [] && !s.shutdown && s.exit <= 0)
    {
    }
  }

  // When the thread vector leaves room for at most minThr more workers, nobody retires

  predicate InService(w: Worker) {
    !w.Retired? && !w.Left? && !w.Stuck?
  }

  function Serving(ws: seq<Worker>): nat {
    if ws == [] then 0 else Serving(ws[..|ws| - 1]) + (if InService(ws[|ws| - 1]) then 1 else 0)
  }

  /** The adjuster is not between the guards of a retirement and its end. */
  predicate NotRetiring(a: Adjuster) {
    !a.Reading? && !a.Rereading? && !a.Storing? && !a.Loading? && !a.RetLock? && !a.Announcing?
  }

  ghost predicate NoRetirement(s: Pool) {
    && NotRetiring(s.adj) && s.exit == 0 && s.announced == 0
    && forall w {:trigger s.workers[w]} :: 0 <= w < |s.workers| ==> !s.workers[w].Retiring? && !s.workers[w].Retired?
  }

  lemma AddedIsBounded(s: Pool)
    requires SizeKept(s)
    ensures s.added <= Max(0, s.maxThr - 2 * s.minThr)
  {
  }

  lemma NoRetirementStep(s: Pool, step: Step)
    requires NoRetirement(s) && s.live <= s.minThr && Enabled(s, step)
    ensures NoRetirement(Apply(s, step))
  {
  }

  lemma {:induction false} NobodyRetires(s0: Pool, steps: seq<Step>)
    requires Init(s0) && Legal(s0, steps) && s0.maxThr <= 3 * s0.minThr
    ensures NoRetirement(Exec(s0, steps)) && NoBadStore(s0, steps)
  {
    if steps != [] {
      var init := steps[..|steps| - 1];
      NobodyRetires(s0, init);
      RunKeepsInv(s0, init);
      AddedIsBounded(Exec(s0, init));
      NoRetirementStep(Exec(s0, init), steps[|steps| - 1]);
    }
  }

  lemma {:induction false} AllServing(ws: seq<Worker>)
    requires forall w :: 0 <= w < |ws| ==> InService(ws[w])
    ensures Serving(ws) == |ws|
  {
    if ws != [] { AllServing(ws[..|ws| - 1]); }
  }

  /** Then every worker stays until shutdown, so the documented minimum is kept. */
  lemma MinimumIsKept(s0: Pool, steps: seq<Step>)
    requires Init(s0) && Legal(s0, steps) && s0.maxThr <= 3 * s0.minThr
    ensures var s := Exec(s0, steps);
      s.shutdown || Serving(s.workers) == |s.workers| >= s0.minThr
  {
    var s := Exec(s0, steps);
    RunKeepsInv(s0, steps);
    NobodyRetires(s0, steps);
    SafeExactlyWithoutBadStore(s0, steps);
    FrontMeans(s);
    if !s.shutdown { AllServing(s.workers); }
  }

  /** And when all workers are gone, all accepted tasks have been executed, whatever the run. */
  lemma NarrowPoolCompletesTasks(s0: Pool, steps: seq<Step>)
    requires Init(s0) && Legal(s0, steps) && AllGone(Exec(s0, steps))
    requires 0 < s0.minThr && s0.maxThr <= 3 * s0.minThr
    ensures var s := Exec(s0, steps);
      s.queue == [] && s.executed == multiset(s.accepted)
  {
    RunKeepsInv(s0, steps);
    NobodyRetires(s0, steps);
    assert Exec(s0, steps).workers[0].Left?;
    JoinCompletesTasks(s0, steps, 0);
  }

  // With room for one worker more, a retirement can be ordered only once

  /** Until the first announcement, no order is open when the adjuster decides on one. */
  ghost predicate OneRetirement(s: Pool) {
    match s.adj
    case Reading => s.announced == 0 && s.exit <= 0
    case Rereading => s.announced == 0 && s.exit <= 0
    case Storing(_) => s.announced == 0 && s.exit <= 0
    case Loading => s.announced == 0
    case RetLock(x) => s.announced == 0 && s.exit <= x
    case Announcing(i, x) => s.announced == i && s.exit <= x
    case _ => s.announced == 0 ==> s.exit <= 0
  }

  lemma OneRetirementStep(s: Pool, step: Step)
    requires OneRetirement(s) && Enabled(s, step)
    requires s.live > s.minThr ==> s.announced == 0
    ensures OneRetirement(Apply(s, step))
  {
    if step.Adjust? { OneRetirementAdjust(s); }
  }

  lemma OneRetirementAdjust(s: Pool)
    requires OneRetirement(s) && (s.live > s.minThr ==> s.announced == 0)
    ensures OneRetirement(AdjustStep(s))
  {
  }

  lemma {:induction false} NarrowPoolHasNoBadStore(s0: Pool, steps: seq<Step>)
    requires Init(s0) && Legal(s0, steps) && s0.maxThr <= 3 * s0.minThr + 1
    ensures OneRetirement(Exec(s0, steps)) && NoBadStore(s0, steps)
  {
    if steps != [] {
      var init, last := steps[..|steps| - 1], steps[|steps| - 1];
      NarrowPoolHasNoBadStore(s0, init);
      var s := Exec(s0, init);
      RunKeepsInv(s0, init);
      AddedIsBounded(s);
      OneRetirementStep(s, last);
      SafeExactlyWithoutBadStore(s0, init);
      FrontMeans(s);
    }
  }

  lemma NarrowPoolNeverStuck(s0: Pool, steps: seq<Step>, w: nat)
    requires Init(s0) && Legal(s0, steps) && s0.maxThr <= 3 * s0.minThr + 1
    requires w < |Exec(s0, steps).workers|
    ensures !Exec(s0, steps).workers[w].Stuck?
  {
    NarrowPoolHasNoBadStore(s0, steps);
    SafeExactlyWithoutBadStore(s0, steps);
    FrontMeans(Exec(s0, steps));
  }
}
