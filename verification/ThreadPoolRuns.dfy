/**
 Runs of the thread pool that go wrong, built for every pool that has room for them, and
 with them the exact conditions, on the pool's own parameters, under which it keeps what it
 promises.
 */
module ThreadPoolRuns {
  import opened Basics
  import opened ThreadPool

  // Reachable states

  ghost predicate Follows(s0: Pool, steps: seq<Step>, s: Pool) {
    Legal(s0, steps) && Exec(s0, steps) == s
  }

  ghost predicate Reached(s0: Pool, s: Pool) {
    exists steps :: Follows(s0, steps, s)
  }

  ghost function Reachable(s0: Pool): iset<Pool> {
    iset s | Reached(s0, s)
  }

  ghost predicate Moves(states: iset<Pool>, s: Pool, step: Step) {
    s in states && Enabled(s, step) ==> Apply(s, step) in states
  }

  /** Closed under steps; the pieces of runs below need to know no more of the set they stay in. */
  ghost predicate Closed(states: iset<Pool>) {
    forall s, step :: Moves(states, s, step)
  }

  lemma ReachableClosed(s0: Pool)
    ensures s0 in Reachable(s0) && Closed(Reachable(s0))
  {
    assert Follows(s0, [], s0);
    forall s, step ensures Moves(Reachable(s0), s, step) {
      if s in Reachable(s0) && Enabled(s, step) {
        var steps :| Follows(s0, steps, s);
        assert (steps + [step])[..|steps|] == steps;
        assert Follows(s0, steps + [step], Apply(s, step));
      }
    }
  }

  lemma ReachedInv(s0: Pool, s: Pool)
    requires Init(s0) && s in Reachable(s0)
    ensures Inv(s) && s.minThr == s0.minThr && s.maxThr == s0.maxThr
  {
    var steps :| Follows(s0, steps, s);
    RunKeepsInv(s0, steps);
  }

  lemma Move(states: iset<Pool>, s: Pool, step: Step) returns (s': Pool)
    requires Closed(states) && s in states && Enabled(s, step)
    ensures s' == Apply(s, step) && s' in states
  {
    s' := Apply(s, step);
    assert Moves(states, s, step);
  }

  // Pieces of a run

  /** More tasks come in. */
  lemma {:induction false} Offer(states: iset<Pool>, s: Pool, n: nat) returns (s': Pool)
    requires Closed(states) && s in states && s.mutex == Free && !s.shutdown
    ensures s' in states && |s'.queue| == |s.queue| + n
    ensures s' == s.(queue := s'.queue, accepted := s'.accepted)
    decreases n
  {
    s' := s;
    if n > 0 {
      s' := Move(states, s, AddTask(n));
      s' := Offer(states, s', n - 1);
    }
  }

  function NewWorkers(s: Pool, i: int, add: nat): (n: nat)
    requires add <= ADD_LIMIT
  {
    Max(0, Min(s.maxThr - i, ADD_LIMIT - add))
  }

  function Grown(s: Pool, n: nat): Pool {
    s.(workers := s.workers + seq(n, _ => Waiting), live := s.live + n, added := s.added + n)
  }

  /** The adding loop, once the mutex is held. */
  lemma {:induction false} Add(states: iset<Pool>, s: Pool, i: int, add: nat) returns (s': Pool)
    requires Closed(states) && s in states && s.adj == Adding(i, add) && add <= ADD_LIMIT
    ensures s' in states && s' == Grown(s, NewWorkers(s, i, add)).(adj := RetGuard1, mutex := Free)
    decreases ADD_LIMIT - add
  {
    s' := Move(states, s, Adjust);
    if i < s.maxThr && add < ADD_LIMIT {
      var n := NewWorkers(s, i + 1, add + 1);
      assert [Waiting] + seq(n, _ => Waiting) == seq(n + 1, _ => Waiting);
      assert s.workers + [Waiting] + seq(n, _ => Waiting) == s.workers + seq(n + 1, _ => Waiting);
      s' := Add(states, s', i + 1, add + 1);
    } else {
      assert s.workers + seq(0, _ => Waiting) == s.workers;
    }
  }

  /** A round's first half that adds workers. */
  lemma GrowOnce(states: iset<Pool>, s: Pool) returns (s': Pool)
    requires Closed(states) && s in states && s.adj.Idle? && s.mutex == Free && !s.shutdown
    requires MoreTasksThanLive(s) && s.live < s.maxThr && Threads(s) < s.maxThr
    ensures s' in states
    ensures s' == Grown(s, NewWorkers(s, Threads(s), 0)).(adj := RetGuard1, before := Threads(s))
  {
    s' := Move(states, s, Adjust);
    s' := Move(states, s', Adjust);
    s' := Move(states, s', Adjust);
    s' := Move(states, s', Adjust);
    s' := Move(states, s', Adjust);
    s' := Add(states, s', Threads(s), 0);
  }

  /** A round's first half that adds nobody. */
  lemma PassOver(states: iset<Pool>, s: Pool) returns (s': Pool)
    requires Closed(states) && s in states && s.adj.Idle? && !s.shutdown
    requires !MoreTasksThanLive(s) || Threads(s) >= s.maxThr
    ensures s' in states && s' == s.(adj := RetGuard1, before := Threads(s))
  {
    s' := Move(states, s, Adjust);
    s' := Move(states, s', Adjust);
    s' := Move(states, s', Adjust);
    if s'.adj.AddGuard2? { s' := Move(states, s', Adjust); }
  }

  lemma AdjustTo(states: iset<Pool>, s: Pool, a: Adjuster) returns (s': Pool)
    requires Closed(states) && s in states && Enabled(s, Adjust) && AdjustStep(s) == s.(adj := a)
    ensures s' in states && s' == s.(adj := a)
  {
    s' := Move(states, s, Adjust);
  }

  /** A round's second half, up to the order to retire. */
  lemma Order(states: iset<Pool>, s: Pool) returns (s': Pool)
    requires Closed(states) && s in states && s.adj.RetGuard1? && s.run * 2 < s.live && s.live > s.minThr
    ensures s' in states && s' == s.(adj := Storing(Min(10, s.live - s.minThr)))
  {
    s' := AdjustTo(states, s, RetGuard2);
    s' := AdjustTo(states, s', Reading);
    s' := Decide(states, s');
  }

  lemma Decide(states: iset<Pool>, s: Pool) returns (s': Pool)
    requires Closed(states) && s in states && s.adj.Reading?
    ensures s' in states && s' == s.(adj := Storing(Min(10, s.live - s.minThr)))
  {
    s' := Move(states, s, Adjust);
    if s'.adj.Rereading? { s' := AdjustTo(states, s', Storing(s.live - s.minThr)); }
  }

  /** The announcements for what is left of the order when it is read back. */
  lemma {:induction false} Announce(states: iset<Pool>, s: Pool, i: int, x: int) returns (s': Pool)
    requires Closed(states) && s in states && s.adj == Announcing(i, x) && i <= x
    ensures s' in states
    ensures s' == s.(adj := Idle, mutex := Free, live := s.live - (x - i), announced := s.announced + (x - i))
    decreases x - i
  {
    s' := Move(states, s, Adjust);
    if i < x { s' := Announce(states, s', i + 1, x); }
  }

  lemma Settle(states: iset<Pool>, s: Pool) returns (s': Pool)
    requires Closed(states) && s in states && s.adj.Loading? && s.mutex == Free && s.exit >= 0
    ensures s' in states
    ensures s' == s.(adj := Idle, live := s.live - s.exit, announced := s.announced + s.exit)
  {
    s' := Move(states, s, Adjust);
    s' := Move(states, s', Adjust);
    s' := Announce(states, s', 0, s.exit);
  }

  lemma RetireOne(states: iset<Pool>, s: Pool, w: nat) returns (s': Pool)
    requires Closed(states) && s in states && s.mutex == Free && s.exit > 0
    requires w < |s.workers| && s.workers[w].Waiting?
    ensures s' in states && s' == s.(workers := s.workers[w := Retired], exit := s.exit - 1)
  {
    s' := Move(states, s, Wake(w));
    s' := Move(states, s', CheckExit(w));
    s' := Move(states, s', Retire(w));
    assert s'.workers == s.workers[w := Retired];
  }

  /** The first k workers have retired and the others wait. */
  ghost predicate RetiredUpTo(ws: seq<Worker>, k: nat) {
    k <= |ws| && forall i :: 0 <= i < |ws| ==> ws[i] == if i < k then Retired else Waiting
  }

  lemma {:induction false} RetireSome(states: iset<Pool>, s: Pool, k: nat, n: nat) returns (s': Pool)
    requires Closed(states) && s in states && s.mutex == Free && n <= s.exit
    requires RetiredUpTo(s.workers, k) && k + n <= |s.workers|
    ensures s' in states && RetiredUpTo(s'.workers, k + n) && |s'.workers| == |s.workers|
    ensures s' == s.(workers := s'.workers, exit := s.exit - n)
    decreases n
  {
    s' := s;
    if n > 0 {
      s' := RetireOne(states, s, k);
      s' := RetireSome(states, s', k + 1, n - 1);
    }
  }

  // Growing beyond the minimum, and retiring everybody

  /** Nothing has been run or announced, no order is open, and the first k workers have retired. */
  ghost predicate Calm(s: Pool, k: nat) {
    && s.mutex == Free && !s.shutdown && s.run == s.exit == 0
    && RetiredUpTo(s.workers, k) && |s.workers| == s.minThr + s.live && s.live >= 0
  }

  /** What the pieces below leave alone. */
  ghost predicate SameTasks(s: Pool, s': Pool) {
    && s'.minThr == s.minThr && s'.maxThr == s.maxThr
    && s'.queue == s.queue && s'.executed == s.executed
  }

  lemma GrowOnceCalm(states: iset<Pool>, s: Pool) returns (s': Pool)
    requires Closed(states) && s in states && s.adj.Idle? && Calm(s, 0)
    requires |s.queue| > s.live && Threads(s) < s.maxThr
    ensures s' in states && s'.adj.RetGuard1? && Calm(s', 0) && SameTasks(s, s')
    ensures s'.live == Min(s.live + ADD_LIMIT, s.maxThr - 2 * s.minThr)
  {
    s' := GrowOnce(states, s);
  }

  /** Enough tasks make the adjuster add workers until more than minThr of them are live. */
  lemma {:induction false} Grow(states: iset<Pool>, s: Pool) returns (s': Pool)
    requires Closed(states) && s in states && s.adj.Idle? && Calm(s, 0)
    requires s.live <= s.minThr < |s.queue| && s.maxThr > 3 * s.minThr
    ensures s' in states && s'.adj.RetGuard1? && Calm(s', 0) && SameTasks(s, s')
    ensures s.minThr < s'.live <= s.minThr + ADD_LIMIT
    ensures s'.live == s'.maxThr - 2 * s'.minThr || s'.live >= ADD_LIMIT
    decreases s.minThr - s.live
  {
    s' := GrowOnceCalm(states, s);
    if s'.live <= s.minThr {
      s' := AdjustTo(states, s', RetGuard2);
      s' := AdjustTo(states, s', Idle);
      s' := Grow(states, s');
    }
  }

  /** Order after order is carried out before it is read back, so live_num stays as it is and
      the next round orders again, until no worker is left. */
  lemma {:induction false} RetireAll(states: iset<Pool>, s: Pool, k: nat) returns (s': Pool)
    requires Closed(states) && s in states && s.adj.RetGuard1? && Calm(s, k)
    requires s.minThr < s.live && |s.queue| <= s.live && k < |s.workers|
    ensures s' in states && AllGone(s') && SameTasks(s, s') && !s'.shutdown && s'.mutex == Free && s'.adj.Idle?
    decreases |s.workers| - k
  {
    var v := Min(10, s.live - s.minThr);
    var n := Min(v, |s.workers| - k);
    s' := Order(states, s);
    s' := Move(states, s', Adjust);
    s' := RetireSome(states, s', k, n);
    s' := Settle(states, s');
    if k + n < |s.workers| {
      s' := PassOver(states, s');
      s' := RetireAll(states, s', k + n);
    }
  }

  /** In any pool whose maximum is above three times its minimum, all workers can retire
      with a task in the queue, before anybody asked for a shutdown. */
  lemma TaskLeftBehind(s0: Pool) returns (s: Pool)
    requires Init(s0) && s0.maxThr > 3 * s0.minThr
    ensures s in Reachable(s0) && AllGone(s) && s.queue != [] && !s.shutdown && s.mutex == Free && s.adj.Idle?
  {
    ReachableClosed(s0);
    s := Offer(Reachable(s0), s0, s0.minThr + 1);
    s := Grow(Reachable(s0), s);
    s := RetireAll(Reachable(s0), s, 0);
  }

  // The front of an empty queue

  /** Workers k, k + 1, ... take all the tasks and go no further. */
  lemma {:induction false} TakeAll(states: iset<Pool>, s: Pool, k: nat) returns (s': Pool)
    requires Closed(states) && s in states && s.mutex == Free && !s.shutdown && s.exit == 0
    requires k + |s.queue| <= |s.workers|
    requires forall i :: k <= i < |s.workers| ==> s.workers[i].Waiting?
    ensures s' in states && s'.queue == [] && |s'.workers| == |s.workers|
    ensures forall i :: k <= i < k + |s.queue| ==> s'.workers[i].Took?
    ensures forall i :: k + |s.queue| <= i < |s.workers| ==> s'.workers[i].Waiting?
    ensures forall i :: 0 <= i < k ==> s'.workers[i] == s.workers[i]
    ensures s' == s.(queue := [], taken := s'.taken, workers := s'.workers)
    decreases |s.queue|
  {
    s' := s;
    if s.queue != [] {
      s' := Move(states, s, Wake(k));
      s' := Move(states, s', CheckExit(k));
      s' := Move(states, s', Proceed(k));
      s' := TakeAll(states, s', k + 1);
    }
  }

  /** Everything is ready for the store that dooms a worker: no task is queued, an order to
      retire is still open, workers k and maybe k + 1 have a task in hand, and live_num is
      above the minimum by no more than those. */
  ghost predicate Primed(s: Pool, k: nat) {
    && s.adj.RetGuard1? && s.mutex == Free && !s.shutdown && s.queue == []
    && s.run == 0 && s.exit > 0 && s.minThr < s.live <= s.minThr + 2
    && |s.workers| > k && s.workers[k].Took?
    && (s.live == s.minThr + 2 ==> |s.workers| > k + 1 && s.workers[k + 1].Took?)
  }

  lemma Begin(states: iset<Pool>, s: Pool, w: nat) returns (s': Pool)
    requires Closed(states) && s in states && w < |s.workers| && s.workers[w].Took?
    ensures s' in states
    ensures s' == s.(workers := s.workers[w := Running(s.workers[w].task)], run := s.run + 1, live := s.live - 1)
  {
    s' := Move(states, s, IncRun(w));
    s' := Move(states, s', DecLive(w));
    assert s'.workers == s.workers[w := Running(s.workers[w].task)];
  }

  lemma ComeBack(states: iset<Pool>, s: Pool, w: nat) returns (s': Pool)
    requires Closed(states) && s in states
    requires w < |s.workers| && s.workers[w].Running? && s.mutex == Free && s.exit > 0
    ensures s' in states && |s'.workers| == |s.workers| && s'.workers[w].Woken?
    ensures s' == s.(workers := s'.workers, executed := s'.executed, mutex := ByWorker(w))
  {
    s' := Move(states, s, Finish(w));
    s' := Move(states, s', Wake(w));
  }

  /** live_num falls to the minimum between the guard and the second read, and worker k comes
      back for the open order just before 0 is stored. */
  lemma GetStuck(states: iset<Pool>, s: Pool, k: nat) returns (s': Pool)
    requires Closed(states) && s in states && Primed(s, k)
    ensures s' in states && |s'.workers| > k && s'.workers[k].Stuck?
  {
    s' := AdjustTo(states, s, RetGuard2);
    s' := AdjustTo(states, s', Reading);
    s' := AdjustTo(states, s', Rereading);
    if s.live == s.minThr + 2 { s' := Begin(states, s', k + 1); }
    s' := Begin(states, s', k);
    s' := ComeBack(states, s', k);
    s' := AdjustTo(states, s', Storing(0));
    s' := Move(states, s', Adjust);
    s' := Move(states, s', CheckExit(k));
    s' := Move(states, s', Proceed(k));
  }

  /** If the first growth stops one above the minimum, one worker retires before its order is
      read back, and the next round adds more. */
  lemma GrowMore(states: iset<Pool>, s: Pool) returns (s': Pool)
    requires Closed(states) && s in states && s.adj.RetGuard1? && Calm(s, 0)
    requires s.live == s.minThr + 1 < |s.queue| && s.maxThr > 3 * s.minThr + 1
    ensures s' in states && s'.adj.RetGuard1? && Calm(s', 1) && SameTasks(s, s')
    ensures s.minThr + 1 < s'.live <= s.minThr + 1 + ADD_LIMIT
  {
    s' := Order(states, s);
    s' := Move(states, s', Adjust);
    s' := RetireSome(states, s', 0, 1);
    s' := Settle(states, s');
    s' := GrowOnce(states, s');
  }

  /** From a grown pool: all tasks are taken, an order is given, one worker obeys, the rest
      of the order is announced, and the next round begins. */
  lemma Prime(states: iset<Pool>, s: Pool, k: nat) returns (s': Pool)
    requires Closed(states) && s in states && s.adj.RetGuard1? && Calm(s, k)
    requires s.minThr + 1 < s.live <= s.minThr + 1 + ADD_LIMIT
    requires s.queue != [] && (s.live > s.minThr + ADD_LIMIT ==> |s.queue| > 1) && k + |s.queue| < |s.workers|
    ensures s' in states && Primed(s', k)
  {
    var w := k + |s.queue|;
    s' := TakeAll(states, s, k);
    s' := Order(states, s');
    s' := Move(states, s', Adjust);
    s' := RetireOne(states, s', w);
    s' := Settle(states, s');
    s' := PassOver(states, s');
  }

  /** In any pool whose maximum is at least two above three times its minimum, a worker can
      ask an empty queue for its front. */
  lemma WorkerGetsStuck(s0: Pool) returns (s: Pool, w: nat)
    requires Init(s0) && s0.maxThr > 3 * s0.minThr + 1
    ensures s in Reachable(s0) && w < |s.workers| && s.workers[w].Stuck?
  {
    var states := Reachable(s0);
    ReachableClosed(s0);
    s := Offer(states, s0, if s0.minThr == 0 then 1 else s0.minThr + 2);
    s := Grow(states, s);
    w := 0;
    if s.live == s.minThr + 1 {
      s := GrowMore(states, s);
      w := 1;
    }
    s := Prime(states, s, w);
    s := GetStuck(states, s, w);
  }

  // Exactly when the pool keeps what it promises

  /** Shutdown returns once the workers that stood in the thread vector as its joining loop
      began, in state b, have ended; workers the adjuster adds later are not waited for. */
  ghost predicate Joined(b: Pool, t: Pool) {
    && b.shutdown && |b.workers| <= |t.workers|
    && forall w :: 0 <= w < |b.workers| ==> t.workers[w].Retired? || t.workers[w].Left?
  }

  ghost predicate AllExecuted(s: Pool) {
    s.queue == [] && s.executed == multiset(s.accepted)
  }

  lemma {:induction false} StaysIn(states: iset<Pool>, s: Pool, steps: seq<Step>)
    requires Closed(states) && s in states && Legal(s, steps)
    ensures Exec(s, steps) in states
  {
    if steps != [] {
      var init := steps[..|steps| - 1];
      StaysIn(states, s, init);
      var s' := Move(states, Exec(s, init), steps[|steps| - 1]);
    }
  }

  lemma ReachableFurther(s0: Pool, s: Pool, t: Pool)
    requires s in Reachable(s0) && t in Reachable(s)
    ensures t in Reachable(s0)
  {
    ReachableClosed(s0);
    var steps :| Follows(s, steps, t);
    StaysIn(Reachable(s0), s, steps);
  }

  /** If every worker is waited for, the narrow pool has executed everything. */
  lemma AllJoined(s0: Pool, b: Pool, t: Pool)
    requires Init(s0) && 0 < s0.minThr && s0.maxThr <= 3 * s0.minThr
    requires t in Reachable(s0) && Joined(b, t) && |t.workers| == |b.workers|
    ensures AllExecuted(t)
  {
    var steps :| Follows(s0, steps, t);
    NarrowPoolCompletesTasks(s0, steps);
  }

  lemma NobodyAdded(s0: Pool, s: Pool)
    requires Init(s0) && s in Reachable(s0) && s0.maxThr <= 2 * s0.minThr
    ensures |s.workers| == s0.minThr
  {
    ReachedInv(s0, s);
    AddedIsBounded(s);
  }

  /** Workers k and up leave by the shutdown branch. */
  lemma {:induction false} LeaveFrom(states: iset<Pool>, s: Pool, k: nat, n: nat) returns (s': Pool)
    requires Closed(states) && s in states && s.mutex == Free && s.shutdown && s.queue == [] && s.exit <= 0
    requires k <= n <= |s.workers| && forall i :: k <= i < n ==> s.workers[i].Waiting?
    ensures s' in states && |s'.workers| == |s.workers| && s' == s.(workers := s'.workers)
    ensures forall i :: k <= i < n ==> s'.workers[i].Left?
    ensures forall i :: 0 <= i < |s.workers| && !(k <= i < n) ==> s'.workers[i] == s.workers[i]
    decreases n - k
  {
    s' := s;
    if k < n {
      s' := Move(states, s, Wake(k));
      s' := Move(states, s', CheckExit(k));
      s' := Move(states, s', Proceed(k));
      s' := LeaveFrom(states, s', k + 1, n);
    }
  }

  /** The adjuster has passed its guards and waits for the mutex when the flag is set. */
  lemma CaughtAdding(s0: Pool) returns (b: Pool)
    requires Init(s0) && s0.maxThr > 2 * s0.minThr
    ensures b in Reachable(s0) && b.shutdown && b.mutex == Free && b.adj == AddLock(2 * s0.minThr)
    ensures b.workers == s0.workers && |b.queue| == |b.accepted| == 1 && b.executed == multiset{}
    ensures b.exit == 0 && b.minThr == s0.minThr && b.maxThr == s0.maxThr
  {
    var states := Reachable(s0);
    ReachableClosed(s0);
    b := Offer(states, s0, 1);
    ReachedInv(s0, b);
    b := Move(states, b, Adjust);
    b := Move(states, b, Adjust);
    b := Move(states, b, Adjust);
    b := Move(states, b, Adjust);
    b := Move(states, b, SetShutdown);
  }

  /** It then adds a worker, who takes the only task; the others leave and are joined. */
  lemma EarlyReturn(s0: Pool) returns (b: Pool, t: Pool)
    requires Init(s0) && s0.maxThr > 2 * s0.minThr
    ensures b in Reachable(s0) && t in Reachable(b) && Joined(b, t) && !AllExecuted(t)
  {
    var m := s0.minThr;
    b := CaughtAdding(s0);
    var states := Reachable(b);
    ReachableClosed(b);
    t := Move(states, b, Adjust);
    t := Add(states, t, 2 * m, 0);
    t := Move(states, t, Wake(m));
    t := Move(states, t, CheckExit(m));
    t := Move(states, t, Proceed(m));
    t := LeaveFrom(states, t, 0, m);
  }

  /** Every accepted task has been executed by the time shutdown returns, if and only if the
      pool has a minimum of at least one worker and a maximum of at most twice that, so that
      the adjuster never adds anybody. */
  lemma ShutdownCompletesExactly(s0: Pool)
    requires Init(s0)
    ensures (forall b, t :: b in Reachable(s0) && t in Reachable(b) && Joined(b, t) ==> AllExecuted(t)) <==>
            0 < s0.minThr && s0.maxThr <= 2 * s0.minThr
  {
    if s0.maxThr > 2 * s0.minThr {
      var b, t := EarlyReturn(s0);
    } else if s0.minThr == 0 {
      var b := NobodyThere(s0);
      ReachableClosed(b);
    } else {
      forall b, t | b in Reachable(s0) && t in Reachable(b) && Joined(b, t) ensures AllExecuted(t) {
        ReachableFurther(s0, b, t);
        NobodyAdded(s0, b);
        NobodyAdded(s0, t);
        AllJoined(s0, b, t);
      }
    }
  }

  /** A pool without workers returns from shutdown with its tasks still queued. */
  lemma NobodyThere(s0: Pool) returns (b: Pool)
    requires Init(s0) && s0.minThr == 0
    ensures b in Reachable(s0) && Joined(b, b) && !AllExecuted(b)
    ensures exists a :: CalledIdle(s0, a, b)
  {
    ReachableClosed(s0);
    var a := Offer(Reachable(s0), s0, 1);
    b := Move(Reachable(s0), a, SetShutdown);
    assert CalledIdle(s0, a, b);
  }

  /** Shutdown sets its flag, giving b, while the adjuster is about to test it. */
  ghost predicate CalledIdle(s0: Pool, a: Pool, b: Pool) {
    a in Reachable(s0) && a.adj.Idle? && a.mutex == Free && !a.shutdown && b == Apply(a, SetShutdown)
  }

  /** If only calls of shutdown are considered that find the adjuster about to test the flag,
      so that it adds nobody during the joins, a maximum of three times the minimum will do,
      and no more. */
  lemma IdleShutdownCompletesExactly(s0: Pool)
    requires Init(s0)
    ensures (forall a, b, t :: CalledIdle(s0, a, b) && t in Reachable(b) && Joined(b, t) ==> AllExecuted(t)) <==>
            0 < s0.minThr && s0.maxThr <= 3 * s0.minThr
  {
    if s0.maxThr > 3 * s0.minThr {
      var a := TaskLeftBehind(s0);
      var b := Apply(a, SetShutdown);
      ReachableClosed(b);
      assert CalledIdle(s0, a, b) && b in Reachable(b) && Joined(b, b) && !AllExecuted(b);
    } else if s0.minThr == 0 {
      var b := NobodyThere(s0);
      ReachableClosed(b);
    } else {
      forall a, b, t | CalledIdle(s0, a, b) && t in Reachable(b) && Joined(b, t) ensures AllExecuted(t) {
        ReachableClosed(s0);
        var b' := Move(Reachable(s0), a, SetShutdown);
        ReachableFurther(s0, b, t);
        var steps :| Follows(b, steps, t);
        StaysFrozen(b, steps);
        AllJoined(s0, b, t);
      }
    }
  }

  /** Until shutdown at least minThr workers are in service, if and only if the maximum is at
      most three times the minimum, or the minimum is 0. */
  lemma MinimumIsKeptExactly(s0: Pool)
    requires Init(s0)
    ensures (forall s :: s in Reachable(s0) && !s.shutdown ==> Serving(s.workers) >= s0.minThr) <==>
            s0.minThr == 0 || s0.maxThr <= 3 * s0.minThr
  {
    if s0.maxThr <= 3 * s0.minThr {
      forall s | s in Reachable(s0) && !s.shutdown ensures Serving(s.workers) >= s0.minThr {
        var steps :| Follows(s0, steps, s);
        MinimumIsKept(s0, steps);
      }
    } else {
      var s := TaskLeftBehind(s0);
      NobodyServes(s.workers);
      assert s in Reachable(s0) && !s.shutdown && Serving(s.workers) == 0;
    }
  }

  lemma {:induction false} NobodyServes(ws: seq<Worker>)
    requires forall w :: 0 <= w < |ws| ==> !InService(ws[w])
    ensures Serving(ws) == 0
  {
    if ws != [] { NobodyServes(ws[..|ws| - 1]); }
  }

  /** No worker ever asks an empty queue for its front, if and only if the maximum is at most
      one above three times the minimum. */
  lemma NeverStuckExactly(s0: Pool)
    requires Init(s0)
    ensures (forall s, w :: s in Reachable(s0) && 0 <= w < |s.workers| ==> !s.workers[w].Stuck?) <==>
            s0.maxThr <= 3 * s0.minThr + 1
  {
    if s0.maxThr <= 3 * s0.minThr + 1 {
      forall s, w | s in Reachable(s0) && 0 <= w < |s.workers| ensures !s.workers[w].Stuck? {
        var steps :| Follows(s0, steps, s);
        NarrowPoolNeverStuck(s0, steps, w);
      }
    } else {
      var s, w := WorkerGetsStuck(s0);
      assert s in Reachable(s0) && s.workers[w].Stuck?;
    }
  }

  // Exactly when a later round can still resize the pool

  /** A worker has been added since, or an order to retire is about to be stored. */
  ghost predicate Resized(s: Pool, t: Pool) {
    t.added > s.added || t.adj.Storing?
  }

  ghost predicate CanResize(s: Pool) {
    !s.shutdown &&
    ((s.live >= 0 && Threads(s) < s.maxThr) || (s.run * 2 < s.live && s.minThr < s.live))
  }

  lemma ResizeIsReachable(s0: Pool, s: Pool) returns (t: Pool)
    requires Init(s0) && s in Reachable(s0) && s.adj.Idle? && s.mutex == Free && CanResize(s)
    ensures t in Reachable(s) && Resized(s, t)
  {
    var states := Reachable(s);
    ReachableClosed(s);
    ReachedInv(s0, s);
    AddedIsBounded(s);
    if s.live >= 0 && Threads(s) < s.maxThr {
      t := Offer(states, s, s.live + 1);
      t := GrowOnce(states, t);
    } else {
      t := PassOver(states, s);
      t := Order(states, t);
    }
  }

  /** At the start of a round a worker can still be added, or a retirement ordered, some time
      later if and only if there is no shutdown and either the thread vector has room and
      live_num is not negative, or live_num is above the minimum and above twice run_num. */
  lemma ResizableExactly(s0: Pool, s: Pool)
    requires Init(s0) && s in Reachable(s0) && s.adj.Idle? && s.mutex == Free
    ensures (exists t :: t in Reachable(s) && Resized(s, t)) <==> CanResize(s)
  {
    if CanResize(s) {
      var t := ResizeIsReachable(s0, s);
    } else {
      forall t | t in Reachable(s) ensures !Resized(s, t) {
        var steps :| Follows(s, steps, t);
        StaysFrozen(s, steps);
      }
    }
  }
}
