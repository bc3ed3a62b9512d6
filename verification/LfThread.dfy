/**
 The worker thread built on the ring: one thread enqueues tasks and finally shuts the
 worker down, the worker pops and runs them.  The ring underneath is the step machine of
 `RingProtocol`; this machine adds the `shutdown_` flag, the wake-up task and the two
 loops of the worker.
 */
module LfThread {
  import opened RingProtocol

  datatype Task = Work(id: nat) | WakeUp

  datatype Main = Serving | Waking | Joining

  datatype Worker =
    | Checking             // about to read shutdown_
    | Popping              // in pop_move of the main loop
    | Running(task: Task)  // about to run what it popped
    | Draining             // in the loop after the main one
    | Exited

  datatype Thread = Thread(
    ring: Ring<Task>, flag: bool, main: Main, worker: Worker,
    ran: seq<Task>, dropped: seq<Task>,
    accepted: nat, // tasks in `pushed` when the flag was set
    seenAt: nat)   // tasks popped when the worker saw the flag

  datatype Move =
    | Enqueue(id: nat)
    | SetFlag
    | PushWakeUp
    | MainRing(step: Step<Task>)
    | SeeClear             // the flag reads false, possibly stale
    | SeeSet
    | WorkerRing(step: Step<Task>)
    | RunTask

  ghost predicate Init(s: Thread) {
    RingProtocol.Init(s.ring) && !s.flag && s.main == Serving && s.worker == Checking
    && s.ran == s.dropped == []
  }

  predicate Enabled(s: Thread, m: Move) {
    match m
    case Enqueue(id) => s.main == Serving && RingProtocol.Enabled(s.ring, PushBegin(Work(id)))
    case SetFlag => s.main == Serving && s.ring.prod.PIdle?
    case PushWakeUp => s.main == Waking && RingProtocol.Enabled(s.ring, PushBegin(WakeUp))
    case MainRing(step) =>
      (step.PushCheck? || step.PushWrite? || step.PushPublish?) && RingProtocol.Enabled(s.ring, step)
    case SeeClear => s.worker.Checking?
    case SeeSet => s.worker.Checking? && s.flag
    case WorkerRing(step) =>
      && (s.worker.Popping? || s.worker.Draining?)
      && (step == PopBegin(s.worker.Popping?) || step.PopCheck? || step.PopRead? || step.PopPublish?)
      && RingProtocol.Enabled(s.ring, step)
    case RunTask => s.worker.Running?
  }

  function Apply(s: Thread, m: Move): Thread
    requires Enabled(s, m)
  {
    match m
    case Enqueue(id) => s.(ring := RingProtocol.Apply(s.ring, PushBegin(Work(id))))
    case SetFlag => s.(flag := true, main := Waking, accepted := |s.ring.pushed|)
    case PushWakeUp => s.(ring := RingProtocol.Apply(s.ring, PushBegin(WakeUp)), main := Joining)
    case MainRing(step) => s.(ring := RingProtocol.Apply(s.ring, step))
    case SeeClear => s.(worker := Popping)
    case SeeSet => // whatever was published before the flag was set is now visible
      s.(worker := Draining, seenAt := |s.ring.popped|,
         ring := s.ring.(headSeen := if s.ring.headSeen < s.accepted then s.accepted else s.ring.headSeen))
    case WorkerRing(step) =>
      var ring := RingProtocol.Apply(s.ring, step);
      if step.PopCheck? && ring.cons.CIdle? then
        s.(ring := ring, worker := if s.worker.Popping? then Checking else Exited)
      else if step.PopPublish? then
        if s.worker.Popping? then s.(ring := ring, worker := Running(s.ring.cons.item))
        else s.(ring := ring, dropped := s.dropped + [s.ring.cons.item])
      else s.(ring := ring)
    case RunTask => s.(worker := Checking, ran := s.ran + [s.worker.task])
  }

  // The invariant

  function InHand(s: Thread): seq<Task> {
    if s.worker.Running? then [s.worker.task] else []
  }

  ghost predicate AllWork(tasks: seq<Task>) {
    forall i :: 0 <= i < |tasks| ==> tasks[i].Work?
  }

  function Pushing(p: Producer<Task>): seq<Task> {
    if p.PIdle? then [] else [p.item]
  }

  ghost predicate MainOk(s: Thread) {
    var todo := s.ring.pushed + Pushing(s.ring.prod);
    if s.main == Serving then !s.flag && AllWork(todo)
    else
      && s.flag && s.accepted <= |s.ring.pushed| && AllWork(s.ring.pushed[..s.accepted])
      && (todo[s.accepted..] == [] || todo[s.accepted..] == [WakeUp])
      && (s.main == Waking ==> todo[s.accepted..] == [])
  }

  ghost predicate WorkerOk(s: Thread) {
    && s.ran + InHand(s) + s.dropped == s.ring.popped
    && !s.ring.cons.DHead? && !s.ring.cons.DMove?
    && (s.worker.Checking? || s.worker.Running? || s.worker.Exited? ==> s.ring.cons.CIdle?)
    && if s.worker.Draining? || s.worker.Exited? then
         && s.flag && s.seenAt == |s.ran| && s.ring.headSeen >= s.accepted
         && (s.worker.Exited? ==> |s.ring.popped| >= s.accepted)
       else s.dropped == []
  }

  ghost predicate Inv(s: Thread) {
    RingProtocol.Inv(s.ring) && MainOk(s) && WorkerOk(s)
  }

  /** What is pushed together with what is being pushed only ever loses its last item. */
  lemma MainRingKeepsInv(s: Thread, step: Step<Task>)
    requires Inv(s) && Enabled(s, MainRing(step))
    ensures Inv(Apply(s, MainRing(step)))
  {
    var s' := Apply(s, MainRing(step));
    StepKeepsInv(s.ring, step);
    var before, after := s.ring.pushed + Pushing(s.ring.prod), s'.ring.pushed + Pushing(s'.ring.prod);
    assert after <= before && s.ring.pushed <= s'.ring.pushed;
    PrefixKeepsTodo(s, s', before, after);
    assert WorkerOk(s');
  }

  lemma PrefixKeepsTodo(s: Thread, s': Thread, before: seq<Task>, after: seq<Task>)
    requires before == s.ring.pushed + Pushing(s.ring.prod)
    requires after == s'.ring.pushed + Pushing(s'.ring.prod)
    requires MainOk(s) && after <= before && s.ring.pushed <= s'.ring.pushed
    requires s'.flag == s.flag && s'.main == s.main && s'.accepted == s.accepted
    ensures MainOk(s')
  {
    assert forall i :: 0 <= i < |after| ==> after[i] == before[i];
    if s.main != Serving {
      assert after[s.accepted..] <= before[s.accepted..];
      assert s'.ring.pushed[..s.accepted] == s.ring.pushed[..s.accepted];
    }
  }

  lemma EnqueueKeepsInv(s: Thread, id: nat)
    requires Inv(s) && Enabled(s, Enqueue(id))
    ensures Inv(Apply(s, Enqueue(id)))
  {
    StepKeepsInv(s.ring, PushBegin(Work(id)));
    var s' := Apply(s, Enqueue(id));
    assert s.ring.pushed + Pushing(s.ring.prod) == s.ring.pushed;
    assert MainOk(s');
    assert WorkerOk(s');
  }

  lemma PushWakeUpKeepsInv(s: Thread)
    requires Inv(s) && Enabled(s, PushWakeUp)
    ensures Inv(Apply(s, PushWakeUp))
  {
    StepKeepsInv(s.ring, PushBegin(WakeUp));
    var s' := Apply(s, PushWakeUp);
    assert s.ring.pushed + Pushing(s.ring.prod) == s.ring.pushed;
    assert MainOk(s');
    assert WorkerOk(s');
  }

  lemma SetFlagKeepsInv(s: Thread)
    requires Inv(s) && Enabled(s, SetFlag)
    ensures Inv(Apply(s, SetFlag))
  {
    assert s.ring.pushed + [] == s.ring.pushed[..|s.ring.pushed|] == s.ring.pushed;
  }

  lemma SeeSetKeepsInv(s: Thread)
    requires Inv(s) && Enabled(s, SeeSet)
    ensures Inv(Apply(s, SeeSet))
  {
    var s' := Apply(s, SeeSet);
    assert RingProtocol.Inv(s'.ring);
    assert MainOk(s');
  }

  lemma WorkerRingKeepsInv(s: Thread, step: Step<Task>)
    requires Inv(s) && Enabled(s, WorkerRing(step))
    ensures Inv(Apply(s, WorkerRing(step)))
  {
    StepKeepsInv(s.ring, step);
    if step.PopCheck? { PopCheckDecides(s.ring, step.h); }
    WorkerRingKeepsParts(s, step);
  }

  lemma WorkerRingKeepsParts(s: Thread, step: Step<Task>)
    requires MainOk(s) && WorkerOk(s) && Enabled(s, WorkerRing(step))
    requires s.ring.popped <= RingProtocol.Apply(s.ring, step).popped
    requires step.PopCheck? ==>
      var r := RingProtocol.Apply(s.ring, step);
      (r.cons.CIdle? ==> step.h == |s.ring.popped|) && s.ring.headSeen <= step.h
    ensures MainOk(Apply(s, WorkerRing(step))) && WorkerOk(Apply(s, WorkerRing(step)))
  {
  }

  lemma RunTaskKeepsInv(s: Thread)
    requires Inv(s) && Enabled(s, RunTask)
    ensures Inv(Apply(s, RunTask))
  {
    assert s.ran + [s.worker.task] + s.dropped == s.ring.popped;
  }

  lemma MoveKeepsInv(s: Thread, m: Move)
    requires Inv(s) && Enabled(s, m)
    ensures Inv(Apply(s, m))
  {
    match m
    case Enqueue(id) => EnqueueKeepsInv(s, id);
    case SetFlag => SetFlagKeepsInv(s);
    case PushWakeUp => PushWakeUpKeepsInv(s);
    case MainRing(step) => MainRingKeepsInv(s, step);
    case SeeClear =>
    case SeeSet => SeeSetKeepsInv(s);
    case WorkerRing(step) => WorkerRingKeepsInv(s, step);
    case RunTask => RunTaskKeepsInv(s);
  }

  // Runs

  ghost predicate Legal(s: Thread, moves: seq<Move>)
    decreases |moves|
  {
    moves == [] || (Enabled(s, moves[0]) && Legal(Apply(s, moves[0]), moves[1..]))
  }

  ghost function Exec(s: Thread, moves: seq<Move>): Thread
    requires Legal(s, moves)
    decreases |moves|
  {
    if moves == [] then s else Exec(Apply(s, moves[0]), moves[1..])
  }

  lemma {:induction false} RunKeepsInv(s: Thread, moves: seq<Move>)
    requires Inv(s) && Legal(s, moves)
    ensures Inv(Exec(s, moves))
    decreases |moves|
  {
    if moves != [] {
      MoveKeepsInv(s, moves[0]);
      RunKeepsInv(Apply(s, moves[0]), moves[1..]);
    }
  }

  /** The tasks whose enqueuing went through, and the wake-up task if it did, in order, read off
      the moves alone; `current` is the task of the call under way. */
  function Enqueued(moves: seq<Move>, current: seq<Task>): seq<Task>
    decreases |moves|
  {
    if moves == [] then []
    else
      match moves[0]
      case Enqueue(id) => Enqueued(moves[1..], [Work(id)])
      case PushWakeUp => Enqueued(moves[1..], [WakeUp])
      case MainRing(step) =>
        if step.PushPublish? then current + Enqueued(moves[1..], []) else Enqueued(moves[1..], current)
      case _ => Enqueued(moves[1..], current)
  }

  lemma {:induction false} PushedIsEnqueued(s: Thread, moves: seq<Move>, current: seq<Task>)
    requires Legal(s, moves) && (s.ring.prod.PIdle? || current == [s.ring.prod.item])
    ensures Exec(s, moves).ring.pushed == s.ring.pushed + Enqueued(moves, current)
    decreases |moves|
  {
    if moves != [] {
      var next :=
        match moves[0]
        case Enqueue(id) => [Work(id)]
        case PushWakeUp => [WakeUp]
        case MainRing(step) => if step.PushPublish? then [] else current
        case _ => current;
      PushedIsEnqueued(Apply(s, moves[0]), moves[1..], next);
    }
  }

  /** Tasks run, then the one in hand, then tasks dropped, then tasks still in the ring:
      together they are the accepted tasks in order, in every state of every run. */
  lemma TasksAreConserved(s0: Thread, moves: seq<Move>)
    requires Init(s0) && Legal(s0, moves)
    ensures var s := Exec(s0, moves);
      && |s.ring.popped| <= |s.ring.pushed|
      && s.ran + InHand(s) + s.dropped + s.ring.pushed[|s.ring.popped|..] == s.ring.pushed == Enqueued(moves, [])
  {
    PushedIsEnqueued(s0, moves, []);
    InitInv(s0.ring);
    RunKeepsInv(s0, moves);
    RanInOrder(Exec(s0, moves));
  }

  lemma RanInOrder(s: Thread)
    requires Inv(s)
    ensures |s.ring.popped| <= |s.ring.pushed|
    ensures s.ran + InHand(s) + s.dropped + s.ring.pushed[|s.ring.popped|..] == s.ring.pushed
  {
    assert s.ring.popped == s.ring.pushed[..|s.ring.popped|];
  }

  /** Once the worker has exited nothing but the wake-up task can be left in the ring. */
  lemma OnlyWakeUpIsLeft(s0: Thread, moves: seq<Move>)
    requires Init(s0) && Legal(s0, moves) && Exec(s0, moves).worker.Exited?
    ensures var s := Exec(s0, moves);
      && |s.ring.popped| <= |s.ring.pushed|
      && (s.ring.pushed[|s.ring.popped|..] == [] || s.ring.pushed[|s.ring.popped|..] == [WakeUp])
  {
    InitInv(s0.ring);
    RunKeepsInv(s0, moves);
    var s := Exec(s0, moves);
    var todo := s.ring.pushed + Pushing(s.ring.prod);
    assert |todo[s.accepted..]| <= 1 && |s.ring.popped| >= s.accepted;
    if |s.ring.popped| < |s.ring.pushed| {
      assert |s.ring.popped| == s.accepted && |s.ring.pushed| == s.accepted + 1;
      assert todo[s.accepted..][0] == s.ring.pushed[s.accepted] == WakeUp;
    }
  }

  /** What has been run by the time the worker has exited. */
  lemma ExitedRan(s: Thread)
    requires Inv(s) && s.worker.Exited?
    ensures s.accepted <= |s.ring.pushed| && AllWork(s.ring.pushed[..s.accepted])
    ensures s.seenAt <= |s.ring.pushed| && s.ran == s.ring.pushed[..s.seenAt]
    ensures s.ring.pushed[..s.accepted] <= s.ran <==> s.accepted <= s.seenAt
  {
    assert s.ring.popped == s.ring.pushed[..|s.ring.popped|];
    assert s.ran == s.ring.popped[..s.seenAt];
  }

  /** The documented promise that shutting down completes every task: it is kept exactly
      when no accepted task was left in the ring at the moment the worker saw the flag.
      Otherwise the tasks from that point on are the ones dropped. */
  lemma ShutdownCompletesTasks(s0: Thread, moves: seq<Move>)
    requires Init(s0) && Legal(s0, moves) && Exec(s0, moves).worker.Exited?
    ensures var s := Exec(s0, moves);
      && s.accepted <= |s.ring.pushed| && AllWork(s.ring.pushed[..s.accepted])
      && s.seenAt <= |s.ring.pushed| && s.ran == s.ring.pushed[..s.seenAt]
      && (s.ring.pushed[..s.accepted] <= s.ran <==> s.accepted <= s.seenAt)
      && (s.seenAt < s.accepted ==> s.ring.pushed[s.seenAt..s.accepted] <= s.dropped)
  {
    InitInv(s0.ring);
    RunKeepsInv(s0, moves);
    var s := Exec(s0, moves);
    ExitedRan(s);
    if s.seenAt < s.accepted { DroppedFrom(s); }
  }

  lemma DroppedFrom(s: Thread)
    requires Inv(s) && s.worker.Exited? && s.seenAt < s.accepted <= |s.ring.pushed|
    ensures s.ring.pushed[s.seenAt..s.accepted] <= s.dropped
  {
    assert s.ring.popped == s.ring.pushed[..|s.ring.popped|];
    assert s.dropped == s.ring.popped[s.seenAt..];
    assert s.dropped[..s.accepted - s.seenAt] == s.ring.pushed[s.seenAt..s.accepted];
  }

  // The same as a condition at the call of shutdown

  /** Every accepted task has been popped, or the one that has not is being popped. */
  ghost predicate AllTaken(s: Thread) {
    |s.ring.pushed| - |s.ring.popped| <= if s.worker.Popping? && s.ring.headSeen > |s.ring.popped| then 1 else 0
  }

  ghost predicate WillRunAll(s: Thread) {
    && s.flag
    && (|s.ring.popped| >= s.accepted
        || (s.worker.Popping? && s.ring.headSeen > |s.ring.popped| && |s.ring.popped| + 1 >= s.accepted))
    && (s.worker.Draining? || s.worker.Exited? ==> s.seenAt >= s.accepted)
  }

  lemma WillRunAllStep(s: Thread, m: Move)
    requires Inv(s) && WillRunAll(s) && Enabled(s, m)
    ensures WillRunAll(Apply(s, m))
  {
    if m.WorkerRing? && m.step.PopCheck? { PopCheckDecides(s.ring, m.step.h); }
  }

  lemma {:induction false} WillRunAllLater(s: Thread, moves: seq<Move>)
    requires Inv(s) && WillRunAll(s) && Legal(s, moves)
    ensures Inv(Exec(s, moves)) && WillRunAll(Exec(s, moves))
    decreases |moves|
  {
    if moves != [] {
      WillRunAllStep(s, moves[0]);
      MoveKeepsInv(s, moves[0]);
      WillRunAllLater(Apply(s, moves[0]), moves[1..]);
    }
  }
}
