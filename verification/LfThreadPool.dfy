/**
 The pool of lock-free workers: choosing a worker, and removing the busiest one.  A worker
 is represented by its ring of queued tasks; what its thread does with them is the subject
 of `LfThread`.
 */
module RemovalModel {
  import opened Basics
  import opened LoadBalance
  import opened RingQueue
  import opened PoolModel

  function Lengths<T>(queues: seq<seq<T>>): seq<int> {
    seq(|queues|, i requires 0 <= i < |queues| => |queues[i]|)
  }

  function Queued<T>(queues: seq<seq<T>>): nat {
    if queues == [] then 0 else Queued(queues[..|queues| - 1]) + |queues[|queues| - 1]|
  }

  lemma {:induction false} QueuedUpdate<T>(queues: seq<seq<T>>, i: nat, q: seq<T>)
    requires i < |queues|
    ensures Queued(queues[i := q]) + |queues[i]| == Queued(queues) + |q|
  {
    var last := |queues| - 1;
    if i == last {
      assert queues[i := q][..last] == queues[..last];
    } else {
      assert queues[i := q][..last] == queues[..last][i := q];
      QueuedUpdate(queues[..last], i, q);
    }
  }

  lemma QueuedTakeOut<T>(queues: seq<seq<T>>, i: nat)
    requires i < |queues|
    ensures Queued(TakeOut(queues, i)) + |queues[i]| == Queued(queues)
  {
    var last := |queues| - 1;
    if i == last {
      assert TakeOut(queues, i) == queues[..last];
    } else {
      assert TakeOut(queues, i) == queues[..last][i := queues[last]];
      QueuedUpdate(queues[..last], i, queues[last]);
    }
  }

  /** Taking out the busiest worker together with its tasks keeps every queued task exactly
      when no worker has any. */
  lemma LosesUnlessAllIdle<T>(queues: seq<seq<T>>)
    requires queues != []
    ensures Queued(TakeOut(queues, MostIdx(Lengths(queues)))) == Queued(queues) <==>
            forall i :: 0 <= i < |queues| ==> queues[i] == []
  {
    var v := MostIdx(Lengths(queues));
    QueuedTakeOut(queues, v);
    MostIdxIsLeftmost(Lengths(queues));
    if queues[v] == [] {
      forall i | 0 <= i < |queues| ensures queues[i] == [] {
        assert Lengths(queues)[i] <= Lengths(queues)[v];
      }
    }
  }

  // Handing tasks out again

  /** The workers' queues, and the turn of the static mode. */
  datatype Board<T> = Board(queues: seq<seq<T>>, next: nat)

  function Chosen<T>(b: Board<T>, dynamic: bool): (i: nat)
    requires b.queues != []
    ensures i < |b.queues|
  {
    if dynamic then LeastIdx(Lengths(b.queues)) else Turn(b.next, |b.queues|)
  }

  function Offer<T>(b: Board<T>, t: T, dynamic: bool, cap: nat): (r: Board<T>)
    requires b.queues != []
    ensures |r.queues| == |b.queues|
  {
    var i := Chosen(b, dynamic);
    Board(if |b.queues[i]| < cap - 1 then b.queues[i := b.queues[i] + [t]] else b.queues,
          if dynamic then b.next else i)
  }

  /** Tasks offered one by one; what a full ring refuses is gone. */
  function HandOut<T>(b: Board<T>, tasks: seq<T>, dynamic: bool, cap: nat): (r: Board<T>)
    requires b.queues != [] || tasks == []
    ensures |r.queues| == |b.queues|
    decreases |tasks|
  {
    if tasks == [] then b else HandOut(Offer(b, tasks[0], dynamic, cap), tasks[1..], dynamic, cap)
  }

  ghost predicate Fits<T>(queues: seq<seq<T>>, cap: nat) {
    forall i :: 0 <= i < |queues| ==> |queues[i]| < cap
  }

  lemma {:induction false} QueuedIsSum<T>(queues: seq<seq<T>>)
    ensures Queued(queues) == Sum(Lengths(queues))
  {
    if queues != [] {
      var last := |queues| - 1;
      assert Lengths(queues)[..last] == Lengths(queues[..last]);
      QueuedIsSum(queues[..last]);
    }
  }

  /** Least-loaded placement refuses a task only if every ring is full. */
  lemma OfferTakesWhatFits<T>(b: Board<T>, t: T, cap: nat)
    requires b.queues != [] && Fits(b.queues, cap)
    ensures var r := Offer(b, t, true, cap);
      && Fits(r.queues, cap)
      && Queued(b.queues) <= |b.queues| * (cap - 1)
      && Queued(r.queues) ==
         if Queued(b.queues) < |b.queues| * (cap - 1) then Queued(b.queues) + 1 else Queued(b.queues)
  {
    var loads := Lengths(b.queues);
    var i := Chosen(b, true);
    var full := Level(|loads|, cap - 1);
    QueuedIsSum(b.queues);
    SumLevel(|loads|, cap - 1);
    SumMonotone(loads, full);
    QueuedUpdate(b.queues, i, b.queues[i] + [t]);
    LeastIdxIsLeftmost(loads);
    if |b.queues[i]| == cap - 1 {
      assert loads == full;
    }
  }

  lemma {:induction false} HandOutTakesWhatFits<T>(b: Board<T>, tasks: seq<T>, cap: nat)
    requires b.queues != [] && Fits(b.queues, cap)
    ensures var total := Queued(b.queues) + |tasks|;
      var room := |b.queues| * (cap - 1);
      Queued(HandOut(b, tasks, true, cap).queues) == if total <= room then total else room
    decreases |tasks|
  {
    if tasks == [] {
      QueuedIsSum(b.queues);
      SumLevel(|b.queues|, cap - 1);
      SumMonotone(Lengths(b.queues), Level(|b.queues|, cap - 1));
    } else {
      OfferTakesWhatFits(b, tasks[0], cap);
      HandOutTakesWhatFits(Offer(b, tasks[0], true, cap), tasks[1..], cap);
    }
  }

  /** In static mode the tasks go round: worker j is offered one whenever its turn comes, and
      takes it unless its ring is full. */
  lemma {:induction false} HandOutGoesRound<T>(b: Board<T>, tasks: seq<T>, cap: nat, j: nat)
    requires j < |b.queues| && Fits(b.queues, cap)
    ensures var r, m := HandOut(b, tasks, false, cap), |tasks|;
      && b.queues[j] <= r.queues[j] && r.next == After(b.next, |b.queues|, m)
      && |r.queues[j]| == Min(cap - 1, |b.queues[j]| + Hits(b.next, |b.queues|, m, j))
    decreases |tasks|
  {
    if tasks != [] {
      HandOutGoesRound(Offer(b, tasks[0], false, cap), tasks[1..], cap, j);
    }
  }

  /** So as long as no ring fills up, each worker gets its fair share of m tasks. */
  lemma HandOutIsFair<T>(b: Board<T>, tasks: seq<T>, cap: nat, j: nat)
    requires j < |b.queues| && Fits(b.queues, cap)
    requires |HandOut(b, tasks, false, cap).queues[j]| < cap - 1
    ensures FairShare(|HandOut(b, tasks, false, cap).queues[j]| - |b.queues[j]|, |tasks|, |b.queues|)
  {
    HandOutGoesRound(b, tasks, cap, j);
    RoundRobinIsFair(b.next, |b.queues|, |tasks|, j);
  }

  /** The removal as documented, with the victim's tasks in hand: in dynamic mode every task
      finds a place exactly when all of them fit into the remaining rings. */
  lemma IntendedRemovalKeepsTasks<T>(queues: seq<seq<T>>, next: nat, cap: nat)
    requires |queues| > 1 && Fits(queues, cap)
    ensures var v := MostIdx(Lengths(queues));
      Queued(HandOut(Board(TakeOut(queues, v), next), queues[v], true, cap).queues) == Queued(queues) <==>
      Queued(queues) <= (|queues| - 1) * (cap - 1)
  {
    var v := MostIdx(Lengths(queues));
    QueuedTakeOut(queues, v);
    HandOutTakesWhatFits(Board(TakeOut(queues, v), next), queues[v], cap);
  }

  /** What swapping does to the other side, seen on the array alone: reading the old array
      through other indices finds the same items, for every content, exactly when the two
      windows are the same or both are empty. */
  lemma SameWindowOrEmpty(cap: nat, tail: nat, head: nat, tail': nat, head': nat)
    requires tail < cap && head < cap && tail' < cap && head' < cap
    ensures (forall slots: seq<nat> :: |slots| == cap ==> Walk(slots, tail', head') == Walk(slots, tail, head)) <==>
            (tail == tail' && head == head') || (tail == head && tail' == head')
  {
    var ids: seq<nat> := seq(cap, i => i);
    if Walk(ids, tail', head') == Walk(ids, tail, head) {
      WalkLength(ids, tail, head);
      WalkLength(ids, tail', head');
      if tail != head {
        assert Walk(ids, tail, head)[0] == tail;
        assert Walk(ids, tail', head')[0] == tail';
      }
      if tail == head && tail' == head' {
        assert forall slots: seq<nat> :: |slots| == cap ==> Walk(slots, tail', head') == Walk(slots, tail, head);
      }
    } else {
      assert |ids| == cap;
    }
  }
}

module LfThreadPools {
  import opened PowersOfTwo
  import opened RingQueue
  import opened RingBuffers
  import opened LoadBalance
  import opened PoolModel
  import opened RemovalModel
  import LfThread

  type Task = LfThread.Task

  class LfThreadPool {
    var workers: seq<RingBuffer<Task>>
    var tnum: int
    var next: nat
    var stopped: bool
    const dynamic: bool
    const buffsize: nat
    ghost const ringCapacity: nat

    /** The requested ring size is one the ring can adjust. */
    ghost predicate Sized() {
      buffsize <= Pow2(WORD_BITS - 1) && ringCapacity == AdjSize(buffsize)
    }

    /** Every worker has a ring of the pool's size. */
    ghost predicate Sound()
      reads this`workers, this`tnum, workers
    {
      && tnum == |workers|
      && (forall i :: 0 <= i < |workers| ==> workers[i].Valid() && workers[i].capacity == ringCapacity)
    }

    /** No two workers share a ring or an array. */
    ghost predicate Apart()
      reads this`workers, workers
    {
      forall i, j :: 0 <= i < j < |workers| ==> workers[i] != workers[j] && workers[i].buffer != workers[j].buffer
    }

    ghost predicate Valid()
      reads this`workers, this`tnum, workers
    {
      Sound() && Apart()
    }

    ghost function Queues(): seq<seq<Task>>
      requires Sound()
      reads this`workers, this`tnum, workers, set w | w in workers :: w.buffer
    {
      var ws := workers;
      seq(|ws|, i requires 0 <= i < |ws| && ws[i].Valid() reads ws, set w | w in ws :: w.buffer => ws[i].Contents())
    }

    ghost function View(): Board<Task>
      requires Sound()
      reads this`workers, this`tnum, this`next, workers, set w | w in workers :: w.buffer
    {
      Board(Queues(), next)
    }

    constructor (n: nat, buffsize: nat, dynamic: bool)
      requires buffsize <= Pow2(WORD_BITS - 1)
      ensures Valid() && Sized() && forall w :: w in workers ==> fresh(w)
      ensures |Queues()| == n && (forall i :: 0 <= i < n ==> Queues()[i] == [])
      ensures next == 0 && !stopped && this.dynamic == dynamic
    {
      this.buffsize, this.dynamic := buffsize, dynamic;
      ringCapacity := AdjSize(buffsize);
      workers, tnum, next, stopped := [], n, 0, false;
      new;
      var i := 0;
      while i < n
        invariant 0 <= i == |workers| <= n && next == 0 && !stopped && tnum == n && Sized()
        invariant Apart()
        invariant forall w :: w in workers ==> fresh(w) && w.Valid() && w.capacity == ringCapacity && w.Contents() == []
      {
        var w := AddWorker();
        i := i + 1;
      }
    }

    method AddWorker() returns (w: RingBuffer<Task>)
      requires Sized() && Apart()
      modifies this`workers
      ensures Apart() && workers == old(workers) + [w]
      ensures fresh(w) && fresh(w.buffer) && w.Valid() && w.capacity == ringCapacity && w.Contents() == []
    {
      w := new RingBuffer<Task>(buffsize);
      workers := workers + [w];
    }

    /** The load of one worker: how many tasks its ring holds. */
    function Load(i: nat): (n: nat)
      requires Sound() && i < |workers|
      reads this`workers, this`tnum, workers, set w | w in workers :: w.buffer
      ensures n == Lengths(Queues())[i]
    {
      workers[i].Size()
    }

    method GetMinIdx() returns (idx: nat)
      requires Sound() && workers != []
      ensures idx == LeastIdx(Lengths(Queues()))
    {
      ghost var loads := Lengths(Queues());
      assert |loads| == |workers| && loads[..1] == [loads[0]];
      var minLoad := Load(0);
      idx := 0;
      var i := 1;
      while i < tnum
        invariant 1 <= i <= |workers|
        invariant idx == LeastIdx(loads[..i]) && minLoad == loads[idx]
      {
        var curLoad := Load(i);
        LeastStep(loads, i);
        if curLoad < minLoad {
          minLoad, idx := curLoad, i;
        }
        i := i + 1;
      }
      assert loads[..i] == loads;
    }

    method GetMaxIdx() returns (idx: nat)
      requires Sound() && workers != []
      ensures idx == MostIdx(Lengths(Queues()))
    {
      ghost var loads := Lengths(Queues());
      assert |loads| == |workers| && loads[..1] == [loads[0]];
      var maxLoad := Load(0);
      idx := 0;
      var i := 1;
      while i < tnum
        invariant 1 <= i <= |workers|
        invariant idx == MostIdx(loads[..i]) && maxLoad == loads[idx]
      {
        var curLoad := Load(i);
        MostStep(loads, i);
        if curLoad > maxLoad {
          maxLoad, idx := curLoad, i;
        }
        i := i + 1;
      }
      assert loads[..i] == loads;
    }

    method GetNext() returns (idx: nat)
      requires Sound() && workers != []
      modifies this`next
      ensures idx == if dynamic then LeastIdx(Lengths(Queues())) else Turn(old(next), |workers|)
      ensures next == if dynamic then old(next) else idx
    {
      if dynamic {
        idx := GetMinIdx();
      } else {
        next := (next + 1) % tnum;
        idx := next;
      }
    }

    /** Accepted unless the pool is stopped or the chosen worker's ring is full. */
    method AddTask(t: Task) returns (ok: bool)
      requires Valid() && workers != []
      modifies this`next, workers, set w | w in workers :: w.buffer
      ensures Valid() && forall w :: w in workers ==> w.buffer == old(w.buffer)
      ensures stopped ==> !ok && View() == old(View())
      ensures !stopped ==> View() == Offer(old(View()), t, dynamic, ringCapacity)
      ensures !stopped && !dynamic ==>
        var i := (old(next) + 1) % |workers|;
        && next == i && ok == (|old(Queues())[i]| < ringCapacity - 1)
        && Queues() == if ok then old(Queues())[i := old(Queues())[i] + [t]] else old(Queues())
      ensures !stopped && dynamic ==>
        var i := LeastIdx(Lengths(old(Queues())));
        && next == old(next) && ok == (|old(Queues())[i]| < ringCapacity - 1)
        && Queues() == if ok then old(Queues())[i := old(Queues())[i] + [t]] else old(Queues())
    {
      if stopped { return false; }
      var idx := GetNext();
      ok := EnqueueAt(idx, t);
    }

    method EnqueueAt(idx: nat, t: Task) returns (ok: bool)
      requires Valid() && idx < |workers|
      modifies workers[idx], workers[idx].buffer
      ensures Valid() && forall w :: w in workers ==> w.buffer == old(w.buffer)
      ensures ok == (|old(Queues())[idx]| < ringCapacity - 1)
      ensures Queues() == if ok then old(Queues())[idx := old(Queues())[idx] + [t]] else old(Queues())
    {
      ghost var queues := Queues();
      ok := workers[idx].Push(t);
      forall i | 0 <= i < |workers| && i != idx
        ensures workers[i].Valid() && workers[i].Contents() == queues[i]
      {
        assert workers[i] != workers[idx] && workers[i].buffer != workers[idx].buffer;
      }
    }

    /** Hands one task out and takes the next one from the ring. */
    method PassOn(rb: RingBuffer<Task>, task: Task) returns (next_: Task, more: bool)
      requires Valid() && rb.Valid() && rb !in workers && workers != []
      requires forall w :: w in workers ==> w.buffer != rb.buffer
      modifies this`next, rb`tail, rb.buffer, workers, set w | w in workers :: w.buffer
      ensures Valid() && rb.Valid() && rb.buffer == old(rb.buffer)
      ensures forall w :: w in workers ==> w.buffer == old(w.buffer)
      ensures View() == if stopped then old(View()) else Offer(old(View()), task, dynamic, ringCapacity)
      ensures old(rb.Contents()) == (if more then [next_] else []) + rb.Contents()
      ensures !more ==> rb.Contents() == []
    {
      ghost var left := rb.Contents();
      var ok := AddTask(task);
      assert rb.Contents() == left;
      next_, more := rb.PopMove();
    }

    /** Hands the tasks of a ring out to the workers, one by one. */
    method Redispatch(rb: RingBuffer<Task>) returns (moved: nat)
      requires Valid() && rb.Valid() && rb !in workers
      requires workers != [] || rb.Contents() == []
      requires forall w :: w in workers ==> w.buffer != rb.buffer
      modifies this`next, rb`tail, rb.buffer, workers, set w | w in workers :: w.buffer
      ensures Valid() && rb.Valid() && rb.Contents() == []
      ensures moved == |old(rb.Contents())|
      ensures View() == if stopped then old(View()) else HandOut(old(View()), old(rb.Contents()), dynamic, ringCapacity)
    {
      moved := 0;
      ghost var goal := if stopped then View() else HandOut(View(), rb.Contents(), dynamic, ringCapacity);
      ghost var left := rb.Contents();
      var task, more := rb.PopMove();
      while more
        invariant Valid() && rb.Valid() && rb.buffer == old(rb.buffer)
        invariant forall w :: w in workers ==> w.buffer == old(w.buffer)
        invariant left == (if more then [task] else []) + rb.Contents() && (left != [] ==> more)
        invariant moved + |left| == |old(rb.Contents())|
        invariant goal == if stopped then View() else HandOut(View(), left, dynamic, ringCapacity)
        decreases |left|
      {
        moved := moved + 1;
        left := left[1..];
        task, more := PassOn(rb, task);
      }
    }

    /** Swaps a worker's ring with a fresh local one and shuts the worker down.  The swap
        copies the fresh ring's indices to the worker and leaves them where they were, so
        the local ring reads as empty although it now holds the worker's array. */
    method Detach(victim: RingBuffer<Task>) returns (rb: RingBuffer<Task>)
      requires victim.Valid() && Sized() && victim.capacity == ringCapacity
      modifies victim, victim.buffer
      ensures fresh(rb) && rb.Valid() && rb.Contents() == [] && rb.buffer == old(victim.buffer)
      ensures victim.Valid() && fresh(victim.buffer) && victim.capacity == old(victim.capacity)
      ensures victim.Contents() == if victim.capacity > 1 then [LfThread.WakeUp] else []
    {
      rb := new RingBuffer<Task>(buffsize);
      victim.Swap(rb);
      var ok := victim.Push(LfThread.WakeUp);
    }

    method EraseAt(idx: nat)
      requires Valid() && idx < |workers|
      modifies this`workers, this`tnum
      ensures Valid() && tnum == old(tnum) - 1
      ensures workers == TakeOut(old(workers), idx)
      ensures forall w :: w in workers ==> w in old(workers) && w != old(workers)[idx]
      ensures Queues() == TakeOut(old(Queues()), idx)
    {
      ghost var queues, was := Queues(), workers;
      var last := |workers| - 1;
      workers := workers[idx := workers[last]];
      workers := workers[..last];
      tnum := tnum - 1;
      assert forall i :: 0 <= i < last ==> workers[i] == was[if i == idx then last else i];
      assert Apart();
      assert Queues() == TakeOut(queues, idx);
    }

    /** Takes the worker out of service; the others are as they were. */
    method DetachAt(idx: nat) returns (rb: RingBuffer<Task>)
      requires Valid() && Sized() && idx < |workers|
      modifies workers[idx], workers[idx].buffer
      ensures fresh(rb) && rb.Valid() && rb.Contents() == [] && rb.buffer == old(workers[idx].buffer)
      ensures Valid() && fresh(workers[idx].buffer)
      ensures forall i :: 0 <= i < |workers| && i != idx ==> Queues()[i] == old(Queues())[i]
    {
      ghost var queues := Queues();
      rb := Detach(workers[idx]);
      forall i | 0 <= i < |workers| && i != idx
        ensures workers[i].Contents() == queues[i]
      {
        assert workers[i] != workers[idx] && workers[i].buffer != rb.buffer;
      }
    }

    /** Takes a worker out of the pool; the local ring that should hold its tasks reads as
        empty. */
    method RetireAt(idx: nat) returns (rb: RingBuffer<Task>)
      requires Valid() && Sized() && idx < |workers|
      modifies this`workers, this`tnum, workers[idx], workers[idx].buffer
      ensures Valid() && tnum == old(tnum) - 1
      ensures workers == TakeOut(old(workers), idx) && Queues() == TakeOut(old(Queues()), idx)
      ensures fresh(rb) && rb.Valid() && rb.Contents() == [] && rb.buffer == old(workers[idx].buffer)
      ensures forall w :: w in workers ==> w in old(workers) && w != old(workers)[idx]
    {
      ghost var queues := Queues();
      rb := DetachAt(idx);
      ghost var after := Queues();
      EraseAt(idx);
      SameOthers(queues, after, idx);
    }

    /** Everything up to the re-dispatch, for the busiest worker. */
    method Retire() returns (rb: RingBuffer<Task>)
      requires Valid() && Sized() && workers != []
      modifies this`workers, this`tnum, workers, set w | w in workers :: w.buffer
      ensures Valid() && tnum == old(tnum) - 1
      ensures workers == TakeOut(old(workers), MostIdx(Lengths(old(Queues()))))
      ensures Queues() == TakeOut(old(Queues()), MostIdx(Lengths(old(Queues()))))
      ensures rb.Valid() && fresh(rb) && rb.Contents() == []
      ensures rb.buffer in old(set w | w in workers :: w.buffer)
      ensures forall w :: w in workers ==> w in old(workers) && w.buffer == old(w.buffer) != rb.buffer
    {
      var idx := GetMaxIdx();
      rb := RetireAt(idx);
    }

    /** The removal: nothing is moved, and the victim's queued tasks go with it. */
    method DelThreadDispatch() returns (moved: nat)
      requires Valid() && Sized() && workers != []
      modifies this`next, this`workers, this`tnum, workers, set w | w in workers :: w.buffer
      ensures Valid() && tnum == old(tnum) - 1
      ensures workers == TakeOut(old(workers), MostIdx(Lengths(old(Queues()))))
      ensures Queues() == TakeOut(old(Queues()), MostIdx(Lengths(old(Queues()))))
      ensures moved == 0
    {
      var rb := Retire();
      moved := Redispatch(rb);
    }
  }

  lemma SameOthers(a: seq<seq<Task>>, b: seq<seq<Task>>, idx: nat)
    requires |a| == |b| && idx < |a| && forall i :: 0 <= i < |a| && i != idx ==> a[i] == b[i]
    ensures TakeOut(a, idx) == TakeOut(b, idx)
  {
  }
}
