/**
 Runs of the lock-free worker, and the exact condition at the call of shutdown under which
 every accepted task is run.
 */
module LfThreadRuns {
  import opened PowersOfTwo
  import opened RingProtocol
  import opened LfThread

  // Reachable states

  ghost predicate Follows(s0: Thread, moves: seq<Move>, s: Thread) {
    LfThread.Legal(s0, moves) && LfThread.Exec(s0, moves) == s
  }

  ghost predicate Reached(s0: Thread, s: Thread) {
    exists moves :: Follows(s0, moves, s)
  }

  ghost function Reachable(s0: Thread): iset<Thread> {
    iset s | Reached(s0, s)
  }

  ghost predicate Stays(states: iset<Thread>, s: Thread, m: Move) {
    s in states && LfThread.Enabled(s, m) ==> LfThread.Apply(s, m) in states
  }

  ghost predicate Closed(states: iset<Thread>) {
    forall s, m :: Stays(states, s, m)
  }

  lemma {:induction false} OneMore(s: Thread, moves: seq<Move>, m: Move)
    requires LfThread.Legal(s, moves) && LfThread.Enabled(LfThread.Exec(s, moves), m)
    ensures Follows(s, moves + [m], LfThread.Apply(LfThread.Exec(s, moves), m))
    decreases |moves|
  {
    if moves == [] {
      assert [m][1..] == [] && moves + [m] == [m];
      assert LfThread.Legal(LfThread.Apply(s, m), []);
    } else {
      OneMore(LfThread.Apply(s, moves[0]), moves[1..], m);
      assert (moves + [m])[1..] == moves[1..] + [m];
    }
  }

  lemma ReachableClosed(s0: Thread)
    ensures s0 in Reachable(s0) && Closed(Reachable(s0))
  {
    assert Follows(s0, [], s0);
    forall s, m ensures Stays(Reachable(s0), s, m) {
      if s in Reachable(s0) && LfThread.Enabled(s, m) {
        var moves :| Follows(s0, moves, s);
        OneMore(s0, moves, m);
      }
    }
  }

  lemma Go(states: iset<Thread>, s: Thread, m: Move) returns (s': Thread)
    requires Closed(states) && s in states && LfThread.Inv(s) && LfThread.Enabled(s, m)
    ensures s' == LfThread.Apply(s, m) && s' in states && LfThread.Inv(s')
  {
    s' := LfThread.Apply(s, m);
    MoveKeepsInv(s, m);
    assert Stays(states, s, m);
  }

  // Pieces of a run

  predicate Pops(s: Thread) {
    s.worker.Popping? || s.worker.Draining?
  }

  /** What a pop leaves alone. */
  ghost predicate SameTasks(s: Thread, s': Thread) {
    s'.flag == s.flag && s'.accepted == s.accepted && s'.seenAt == s.seenAt && s'.ring.pushed == s.ring.pushed
  }

  lemma Begin(states: iset<Thread>, s: Thread) returns (s': Thread)
    requires Closed(states) && s in states && LfThread.Inv(s) && Pops(s) && s.ring.cons.CIdle?
    ensures s' in states && LfThread.Inv(s') && s'.ring.cons.CTail? && SameTasks(s, s')
    ensures s'.worker == s.worker && s'.ring.popped == s.ring.popped && s'.ring.headSeen == s.ring.headSeen
  {
    s' := Go(states, s, WorkerRing(PopBegin(s.worker.Popping?)));
  }

  lemma Check(states: iset<Thread>, s: Thread, h: nat) returns (s': Thread)
    requires Closed(states) && s in states && LfThread.Inv(s) && Pops(s) && s.ring.cons.CTail?
    requires s.ring.headSeen <= h <= |s.ring.pushed|
    ensures s' in states && LfThread.Inv(s') && SameTasks(s, s') && s'.ring.popped == s.ring.popped
    ensures if h == |s.ring.popped| then s'.worker == (if s.worker.Popping? then Checking else Exited)
            else s'.worker == s.worker && s'.ring.cons.CSlot?
  {
    PopCheckDecides(s.ring, h);
    s' := Go(states, s, WorkerRing(PopCheck(h)));
  }

  lemma Read(states: iset<Thread>, s: Thread) returns (s': Thread)
    requires Closed(states) && s in states && LfThread.Inv(s) && Pops(s) && s.ring.cons.CSlot?
    ensures s' in states && LfThread.Inv(s') && SameTasks(s, s')
    ensures s'.worker == s.worker && s'.ring.popped == s.ring.popped && s'.ring.cons.CStore?
  {
    s' := Go(states, s, WorkerRing(PopRead(WakeUp)));
  }

  lemma Publish(states: iset<Thread>, s: Thread) returns (s': Thread)
    requires Closed(states) && s in states && LfThread.Inv(s) && Pops(s) && s.ring.cons.CStore?
    ensures s' in states && LfThread.Inv(s') && SameTasks(s, s')
    ensures |s'.ring.popped| == |s.ring.popped| + 1 <= |s.ring.pushed|
    ensures if s.worker.Popping? then s'.worker.Running? else s'.worker.Draining?
  {
    s' := Go(states, s, WorkerRing(PopPublish));
  }

  /** A pop that sees the head index after h pushes, from wherever it is. */
  lemma FinishPop(states: iset<Thread>, s: Thread, h: nat) returns (s': Thread)
    requires Closed(states) && s in states && LfThread.Inv(s) && Pops(s)
    requires s.ring.headSeen <= h <= |s.ring.pushed|
    ensures s' in states && LfThread.Inv(s') && SameTasks(s, s')
    ensures if h == |s.ring.popped|
            then s'.worker == (if s.worker.Popping? then Checking else Exited) && s'.ring.popped == s.ring.popped
            else |s'.ring.popped| == |s.ring.popped| + 1 <= |s.ring.pushed|
                 && if s.worker.Popping? then s'.worker.Running? else s'.worker.Draining?
  {
    s' := s;
    if s'.ring.cons.CIdle? { s' := Begin(states, s'); }
    if s'.ring.cons.CTail? { s' := Check(states, s', h); }
    if Pops(s') {
      if s'.ring.cons.CSlot? { s' := Read(states, s'); }
      s' := Publish(states, s');
    }
  }

  /** The worker finishes its pop, if it is in one, and runs what it got. */
  lemma ComeBack(states: iset<Thread>, s: Thread) returns (s': Thread)
    requires Closed(states) && s in states && LfThread.Inv(s)
    requires s.worker.Checking? || s.worker.Popping? || s.worker.Running?
    ensures s' in states && LfThread.Inv(s') && s'.worker.Checking? && SameTasks(s, s')
    ensures |s'.ring.popped| ==
      |s.ring.popped| + if s.worker.Popping? && s.ring.headSeen > |s.ring.popped| then 1 else 0
  {
    s' := s;
    if s.worker.Popping? { s' := FinishPop(states, s, s.ring.headSeen); }
    if s'.worker.Running? { s' := Go(states, s', RunTask); }
  }

  /** The final drain, with nothing else going on. */
  lemma {:induction false} Drain(states: iset<Thread>, s: Thread) returns (s': Thread)
    requires Closed(states) && s in states && LfThread.Inv(s) && s.worker.Draining?
    ensures s' in states && LfThread.Inv(s') && s'.worker.Exited? && SameTasks(s, s')
    decreases |s.ring.pushed| - |s.ring.popped|
  {
    s' := FinishPop(states, s, |s.ring.pushed|);
    if s'.worker.Draining? { s' := Drain(states, s'); }
  }

  /** From the flag seen to the exit, with nothing else going on. */
  lemma SeeAndDrain(states: iset<Thread>, s: Thread) returns (s': Thread)
    requires Closed(states) && s in states && LfThread.Inv(s) && s.worker.Checking? && s.flag
    ensures s' in states && LfThread.Inv(s') && s'.worker.Exited?
    ensures s'.accepted == s.accepted && s'.seenAt == |s.ring.popped| && s'.ring.pushed == s.ring.pushed
  {
    s' := Go(states, s, SeeSet);
    s' := Drain(states, s');
  }

  // The promise of shutdown

  /** Whatever happens later, every task accepted before the flag is set is run by the time
      the worker has exited, if and only if at that moment none is in the ring, or one that
      the worker is already popping. */
  lemma ShutdownCompletesExactly(s: Thread)
    requires LfThread.Inv(s) && LfThread.Enabled(s, SetFlag)
    ensures (forall t :: t in Reachable(LfThread.Apply(s, SetFlag)) && t.worker.Exited? ==>
              t.accepted <= |t.ring.pushed| && t.ring.pushed[..t.accepted] <= t.ran) <==>
            AllTaken(s)
  {
    var s1 := LfThread.Apply(s, SetFlag);
    MoveKeepsInv(s, SetFlag);
    if AllTaken(s) {
      forall t | t in Reachable(s1) && t.worker.Exited?
        ensures t.accepted <= |t.ring.pushed| && t.ring.pushed[..t.accepted] <= t.ran
      {
        var moves :| Follows(s1, moves, t);
        WillRunAllLater(s1, moves);
        ExitedRan(t);
      }
    } else {
      var t := LosingRun(s1);
      ExitedRan(t);
    }
  }

  lemma LosingRun(s: Thread) returns (t: Thread)
    requires LfThread.Inv(s) && s.flag && (s.worker.Checking? || s.worker.Popping? || s.worker.Running?)
    requires s.accepted == |s.ring.pushed| && !AllTaken(s)
    ensures t in Reachable(s) && LfThread.Inv(t) && t.worker.Exited?
    ensures t.accepted == s.accepted > t.seenAt && t.ring.pushed == s.ring.pushed
  {
    ReachableClosed(s);
    t := ComeBack(Reachable(s), s);
    t := SeeAndDrain(Reachable(s), t);
  }

  lemma FinishPush(states: iset<Thread>, s: Thread) returns (s': Thread)
    requires Closed(states) && s in states && LfThread.Inv(s)
    requires s.ring.prod.PHead? && |s.ring.pushed| - s.ring.tailSeen < s.ring.cap - 1
    ensures s' in states && LfThread.Inv(s') && s'.ring.prod.PIdle?
    ensures s' == s.(ring := s'.ring) && s'.ring.pushed == s.ring.pushed + [s.ring.prod.item]
    ensures s'.ring.popped == s.ring.popped
  {
    PushCheckDecides(s.ring, s.ring.tailSeen);
    s' := Go(states, s, MainRing(PushCheck(s.ring.tailSeen)));
    s' := Go(states, s', MainRing(PushWrite));
    s' := Go(states, s', MainRing(PushPublish));
  }

  lemma NothingRan(s: Thread)
    requires LfThread.Inv(s) && s.worker.Exited?
    requires s.seenAt == 0 && s.accepted == 1 && s.ring.pushed == [Work(7)]
    ensures s.ran == [] && s.dropped == [Work(7)]
  {
    ExitedRan(s);
    DroppedFrom(s);
    assert s.ran + s.dropped == s.ring.popped;
  }

  /** A worker that is alone with one task when it is shut down drops it. */
  lemma AcceptedTaskDropped() returns (s0: Thread, moves: seq<Move>)
    ensures LfThread.Init(s0) && LfThread.Legal(s0, moves)
    ensures var s := LfThread.Exec(s0, moves);
      && s.worker.Exited? && s.accepted == 1 && s.ring.pushed == [Work(7)]
      && s.dropped == [Work(7)] && s.ran == []
  {
    s0 := Thread(Ring(2, [WakeUp, WakeUp], 0, 0, PIdle, CIdle, [], [], 0, 0),
                 false, Serving, Checking, [], [], 0, 0);
    assert 2 == Pow2(1);
    RingProtocol.InitInv(s0.ring);
    ReachableClosed(s0);
    var s := Go(Reachable(s0), s0, Enqueue(7));
    s := FinishPush(Reachable(s0), s);
    s := Go(Reachable(s0), s, SetFlag);
    s := SeeAndDrain(Reachable(s0), s);
    NothingRan(s);
    moves :| Follows(s0, moves, s);
  }
}
