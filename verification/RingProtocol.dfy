/**
 One producer and one consumer on the ring, step by step.

 Every atomic load, every slot access and every atomic store is a step of its own, and
 the two threads interleave freely.  An acquire load of the other side's index may be
 stale: it returns any value that index has held since this thread's previous load of it.
 The machine carries the full histories `pushed` and `popped`; |pushed| and |popped| are
 the unbounded counters behind the masked indices.
 */
module RingProtocol {
  import opened Division
  import opened PowersOfTwo
  import opened RingQueue

  datatype Producer<T> =
    | PIdle
    | PHead(item: T, head: nat)             // own index loaded
    | PSlot(item: T, head: nat, nhead: nat) // found room, slot not yet written
    | PStore(item: T, nhead: nat)           // slot written, index not yet published

  datatype Consumer<T> =
    | CIdle
    | CTail(move: bool, tail: nat)          // own index loaded
    | CSlot(move: bool, tail: nat)          // found an item, slot not yet read
    | CStore(item: T, ntail: nat)           // slot read, index not yet published
    | DHead(head: nat)                      // batch drain: the other index loaded
    | DMove(head: nat, tail: nat, i: nat, wrapped: bool, out: seq<T>) // in the copy loops

  datatype Ring<T> = Ring(
    cap: nat, slots: seq<T>, head: nat, tail: nat,
    prod: Producer<T>, cons: Consumer<T>,
    pushed: seq<T>, popped: seq<T>,
    tailSeen: nat, // how many pops the producer knows of
    headSeen: nat) // how many pushes the consumer knows of

  datatype Step<T> =
    | PushBegin(item: T)
    | PushCheck(t: nat)   // loads the tail index as it was after t pops
    | PushWrite
    | PushPublish
    | PopBegin(move: bool)
    | PopCheck(h: nat)    // loads the head index as it was after h pushes
    | PopRead(junk: T)    // a moved-from slot is left with any value
    | PopPublish
    | DrainLoadHead(h: nat)
    | DrainLoadTail
    | DrainMove(junk: T)
    | DrainWrap
    | DrainPublish

  /** The slot of the n-th item. */
  function At(n: nat, cap: nat): (i: nat)
    requires cap > 0
    ensures i < cap
  {
    n % cap
  }

  ghost predicate Init<T>(s: Ring<T>) {
    IsPower(s.cap) && |s.slots| == s.cap && s.head == s.tail == 0
    && s.prod == PIdle && s.cons == CIdle
    && s.pushed == s.popped == [] && s.tailSeen == s.headSeen == 0
  }

  predicate Enabled<T>(s: Ring<T>, step: Step<T>) {
    s.cap > 0 && |s.slots| == s.cap &&
    match step
    case PushBegin(_) => s.prod.PIdle?
    case PushCheck(t) => s.prod.PHead? && s.tailSeen <= t <= |s.popped|
    case PushWrite => s.prod.PSlot? && s.prod.head < s.cap
    case PushPublish => s.prod.PStore?
    case PopBegin(_) => s.cons.CIdle?
    case PopCheck(h) => s.cons.CTail? && s.headSeen <= h <= |s.pushed|
    case PopRead(_) => s.cons.CSlot? && s.cons.tail < s.cap
    case PopPublish => s.cons.CStore?
    case DrainLoadHead(h) => s.cons.CIdle? && s.headSeen <= h <= |s.pushed|
    case DrainLoadTail => s.cons.DHead?
    case DrainMove(_) => s.cons.DMove? && InCopyLoop(s.cap, s.cons)
    case DrainWrap => s.cons.DMove? && s.cons.head <= s.cons.tail && !s.cons.wrapped && s.cons.i >= s.cap
    case DrainPublish => s.cons.DMove? && CopyDone(s.cons)
  }

  /** The guards of the one or two copy loops. */
  predicate InCopyLoop<T>(cap: nat, c: Consumer<T>)
    requires c.DMove?
  {
    c.i < cap && (c.tail < c.head || c.wrapped ==> c.i < c.head)
  }

  predicate CopyDone<T>(c: Consumer<T>)
    requires c.DMove?
  {
    (c.tail < c.head || c.wrapped) && c.i >= c.head
  }

  function Apply<T>(s: Ring<T>, step: Step<T>): Ring<T>
    requires Enabled(s, step)
  {
    match step
    case PushBegin(item) => s.(prod := PHead(item, s.head))
    case PushCheck(t) =>
      var nhead := Masked(s.prod.head + 1, s.cap);
      if nhead == At(t, s.cap) then s.(prod := PIdle, tailSeen := t)
      else s.(prod := PSlot(s.prod.item, s.prod.head, nhead), tailSeen := t)
    case PushWrite =>
      s.(slots := s.slots[s.prod.head := s.prod.item], prod := PStore(s.prod.item, s.prod.nhead))
    case PushPublish =>
      s.(head := s.prod.nhead, pushed := s.pushed + [s.prod.item], prod := PIdle)
    case PopBegin(move) => s.(cons := CTail(move, s.tail))
    case PopCheck(h) =>
      if s.cons.tail == At(h, s.cap) then s.(cons := CIdle, headSeen := h)
      else s.(cons := CSlot(s.cons.move, s.cons.tail), headSeen := h)
    case PopRead(junk) =>
      var i := s.cons.tail;
      s.(slots := if s.cons.move then s.slots[i := junk] else s.slots,
         cons := CStore(s.slots[i], Masked(i + 1, s.cap)))
    case PopPublish =>
      s.(tail := s.cons.ntail, popped := s.popped + [s.cons.item], cons := CIdle)
    case DrainLoadHead(h) => s.(cons := DHead(At(h, s.cap)), headSeen := h)
    case DrainLoadTail =>
      if s.tail == s.cons.head then s.(cons := CIdle)
      else s.(cons := DMove(s.cons.head, s.tail, s.tail, false, []))
    case DrainMove(junk) =>
      var i := s.cons.i;
      s.(slots := s.slots[i := junk], cons := s.cons.(i := i + 1, out := s.cons.out + [s.slots[i]]))
    case DrainWrap => s.(cons := s.cons.(i := 0, wrapped := true))
    case DrainPublish =>
      s.(tail := s.cons.head, popped := s.popped + s.cons.out, cons := CIdle)
  }

  // The invariant

  /** Items already copied out by the consumer but not yet given back to the producer. */
  function InHand<T>(s: Ring<T>): seq<T> {
    match s.cons
    case CStore(item, _) => [item]
    case DMove(_, _, _, _, out) => out
    case _ => []
  }

  function Taken<T>(s: Ring<T>): nat {
    |s.popped| + |InHand(s)|
  }

  ghost predicate Counters<T>(s: Ring<T>) {
    && IsPower(s.cap) && |s.slots| == s.cap > 0
    && s.tailSeen <= |s.popped| <= Taken(s) <= s.headSeen <= |s.pushed| < s.tailSeen + s.cap
    && s.head == At(|s.pushed|, s.cap) && s.tail == At(|s.popped|, s.cap)
  }

  ghost predicate Fifo<T>(s: Ring<T>) {
    s.popped + InHand(s) <= s.pushed
  }

  ghost predicate Live<T>(s: Ring<T>)
    requires |s.slots| == s.cap > 0
  {
    forall j {:trigger s.pushed[j]} :: Taken(s) <= j < |s.pushed| ==> s.slots[At(j, s.cap)] == s.pushed[j]
  }

  ghost predicate ProducerOk<T>(s: Ring<T>)
    requires |s.slots| == s.cap > 0
  {
    match s.prod
    case PIdle => true
    case PHead(_, head) => head == s.head
    case PSlot(_, head, nhead) =>
      head == s.head && nhead == At(|s.pushed| + 1, s.cap) && |s.pushed| + 1 < s.tailSeen + s.cap
    case PStore(item, nhead) =>
      nhead == At(|s.pushed| + 1, s.cap) && |s.pushed| + 1 < s.tailSeen + s.cap
      && s.slots[At(|s.pushed|, s.cap)] == item
  }

  ghost predicate ConsumerOk<T>(s: Ring<T>)
    requires s.cap > 0
  {
    match s.cons
    case CIdle => true
    case CTail(_, tail) => tail == s.tail
    case CSlot(_, tail) => tail == s.tail && |s.popped| < s.headSeen
    case CStore(_, ntail) => ntail == At(|s.popped| + 1, s.cap)
    case DHead(head) => head == At(s.headSeen, s.cap)
    case DMove(head, tail, i, wrapped, out) =>
      && head == At(s.headSeen, s.cap) && tail == s.tail && head != tail
      && (if wrapped then head < tail && i <= head && |out| == s.cap - tail + i
          else tail <= i <= (if tail < head then head else s.cap) && |out| == i - tail)
  }

  ghost predicate Inv<T>(s: Ring<T>) {
    Counters(s) && Fifo(s) && Live(s) && ProducerOk(s) && ConsumerOk(s)
  }

  // Slots and counters

  lemma AtOffset(n: nat, d: nat, cap: nat)
    requires cap > 0 && d <= cap
    ensures At(n + d, cap) == if At(n, cap) + d < cap then At(n, cap) + d else At(n, cap) + d - cap
  {
    var q, r := n / cap, n % cap;
    assert n == q * cap + r;
    if r + d < cap {
      RemainderUnique(n + d, cap, q, r + d);
    } else {
      assert (q + 1) * cap == q * cap + cap;
      RemainderUnique(n + d, cap, q + 1, r + d - cap);
    }
  }

  lemma AtSucc(n: nat, cap: nat)
    requires IsPower(cap)
    ensures cap > 0 && Masked(At(n, cap) + 1, cap) == At(n + 1, cap)
  {
    MaskedSucc(At(n, cap), cap);
    AtOffset(n, 1, cap);
  }

  /** Counters less than a capacity apart can be told apart by their slots. */
  lemma AtApart(m: nat, n: nat, cap: nat)
    requires cap > 0 && m <= n < m + cap
    ensures Distance(At(m, cap), At(n, cap), cap) == n - m
    ensures At(m, cap) == At(n, cap) <==> m == n
  {
    AtOffset(m, n - m, cap);
  }

  // Every step keeps the invariant

  lemma InitInv<T>(s: Ring<T>)
    requires Init(s)
    ensures Inv(s)
  {
  }

  /** The producer fails on a load exactly when that load shows a full ring. */
  lemma PushCheckDecides<T>(s: Ring<T>, t: nat)
    requires Inv(s) && Enabled(s, PushCheck(t))
    ensures Apply(s, PushCheck(t)).prod == PIdle <==> |s.pushed| - t == s.cap - 1
    ensures Apply(s, PushCheck(t)).prod != PIdle ==> |s.pushed| - t < s.cap - 1
  {
    var n := |s.pushed|;
    AtSucc(n, s.cap);
    if n + 1 < t + s.cap {
      AtApart(t, n + 1, s.cap);
    } else {
      AtOffset(t, s.cap, s.cap);
    }
  }

  /** The consumer fails on a load exactly when that load shows an empty ring. */
  lemma PopCheckDecides<T>(s: Ring<T>, h: nat)
    requires Inv(s) && Enabled(s, PopCheck(h))
    ensures Apply(s, PopCheck(h)).cons == CIdle <==> h == |s.popped|
  {
    AtApart(|s.popped|, h, s.cap);
  }

  lemma PushWriteKeepsInv<T>(s: Ring<T>)
    requires Inv(s) && Enabled(s, PushWrite)
    ensures Inv(Apply(s, PushWrite))
  {
    forall j: nat | Taken(s) <= j < |s.pushed| ensures At(j, s.cap) != At(|s.pushed|, s.cap) {
      AtApart(j, |s.pushed|, s.cap);
    }
    assert Live(Apply(s, PushWrite));
  }

  lemma PushStepKeepsInv<T>(s: Ring<T>, step: Step<T>)
    requires Inv(s) && Enabled(s, step)
    requires step.PushBegin? || step.PushCheck? || step.PushWrite? || step.PushPublish?
    ensures Inv(Apply(s, step))
  {
    match step
    case PushBegin(_) =>
    case PushCheck(t) => PushCheckKeepsInv(s, t);
    case PushWrite => PushWriteKeepsInv(s);
    case PushPublish => PushPublishKeepsInv(s);
  }

  lemma PushCheckKeepsInv<T>(s: Ring<T>, t: nat)
    requires Inv(s) && Enabled(s, PushCheck(t))
    ensures Inv(Apply(s, PushCheck(t)))
  {
    PushCheckProducer(s, t);
    assert InHand(Apply(s, PushCheck(t))) == InHand(s);
  }

  lemma PushCheckProducer<T>(s: Ring<T>, t: nat)
    requires Inv(s) && Enabled(s, PushCheck(t))
    ensures var s' := Apply(s, PushCheck(t));
      Counters(s') && ProducerOk(s')
  {
    AtSucc(|s.pushed|, s.cap);
    PushCheckDecides(s, t);
  }

  lemma PushPublishKeepsInv<T>(s: Ring<T>)
    requires Inv(s) && Enabled(s, PushPublish)
    ensures Inv(Apply(s, PushPublish))
  {
    var s' := Apply(s, PushPublish);
    assert Counters(s') && ProducerOk(s') && ConsumerOk(s');
    assert InHand(s') == InHand(s);
  }

  /** What the consumer reads at its next slot is the oldest item it has not copied yet. */
  lemma NextItem<T>(s: Ring<T>, i: nat, junk: T)
    requires Inv(s) && Taken(s) < |s.pushed| && i == At(Taken(s), s.cap)
    ensures s.slots[i] == s.pushed[Taken(s)]
    ensures forall j {:trigger s.pushed[j]} :: Taken(s) < j < |s.pushed| ==>
      s.slots[i := junk][At(j, s.cap)] == s.pushed[j]
    ensures i != At(|s.pushed|, s.cap)
  {
    AtApart(Taken(s), |s.pushed|, s.cap);
    forall j: nat | Taken(s) < j < |s.pushed| ensures At(j, s.cap) != i {
      AtApart(Taken(s), j, s.cap);
    }
  }

  lemma PopReadKeepsInv<T>(s: Ring<T>, junk: T)
    requires Inv(s) && Enabled(s, PopRead(junk))
    ensures Inv(Apply(s, PopRead(junk)))
  {
    AtSucc(|s.popped|, s.cap);
    NextItem(s, s.cons.tail, junk);
    var s' := Apply(s, PopRead(junk));
    assert InHand(s') == [s.pushed[|s.popped|]];
    assert Counters(s') && Fifo(s') && ConsumerOk(s');
    assert ProducerOk(s');
  }

  lemma PopStepKeepsInv<T>(s: Ring<T>, step: Step<T>)
    requires Inv(s) && Enabled(s, step)
    requires step.PopBegin? || step.PopCheck? || step.PopRead? || step.PopPublish?
    ensures Inv(Apply(s, step))
  {
    match step
    case PopBegin(_) =>
    case PopCheck(h) => PopCheckDecides(s, h);
    case PopRead(junk) => PopReadKeepsInv(s, junk);
    case PopPublish =>
  }

  /** In the copy loops the loop index is the slot of the next item, and the loops end
      exactly when the items published at the load of the head index have been copied. */
  lemma CopyPosition<T>(s: Ring<T>)
    requires Inv(s) && s.cons.DMove?
    ensures s.cons.i < s.cap ==> s.cons.i == At(Taken(s), s.cap)
    ensures CopyDone(s.cons) ==> Taken(s) == s.headSeen
    ensures InCopyLoop(s.cap, s.cons) ==> Taken(s) < s.headSeen
  {
    AtOffset(|s.popped|, |s.cons.out|, s.cap);
    AtApart(|s.popped|, s.headSeen, s.cap);
  }

  lemma DrainMoveKeepsInv<T>(s: Ring<T>, junk: T)
    requires Inv(s) && Enabled(s, DrainMove(junk))
    ensures Inv(Apply(s, DrainMove(junk)))
  {
    CopyPosition(s);
    NextItem(s, s.cons.i, junk);
    DrainMoveCopies(s, junk);
    var s' := Apply(s, DrainMove(junk));
    assert Live(s');
    assert ProducerOk(s');
  }

  lemma DrainMoveCopies<T>(s: Ring<T>, junk: T)
    requires Inv(s) && Enabled(s, DrainMove(junk))
    ensures var s' := Apply(s, DrainMove(junk));
      Taken(s') == Taken(s) + 1 && Counters(s') && Fifo(s') && ConsumerOk(s')
  {
    CopyPosition(s);
    NextItem(s, s.cons.i, junk);
    assert InHand(Apply(s, DrainMove(junk))) == InHand(s) + [s.pushed[Taken(s)]];
  }

  lemma DrainStepKeepsInv<T>(s: Ring<T>, step: Step<T>)
    requires Inv(s) && Enabled(s, step)
    requires step.DrainLoadHead? || step.DrainLoadTail? || step.DrainMove? || step.DrainWrap? || step.DrainPublish?
    ensures Inv(Apply(s, step))
  {
    match step
    case DrainLoadHead(_) =>
    case DrainLoadTail =>
    case DrainMove(junk) => DrainMoveKeepsInv(s, junk);
    case DrainWrap =>
    case DrainPublish => CopyPosition(s);
  }

  lemma StepKeepsInv<T>(s: Ring<T>, step: Step<T>)
    requires Inv(s) && Enabled(s, step)
    ensures Inv(Apply(s, step))
  {
    match step
    case PushBegin(_) => PushStepKeepsInv(s, step);
    case PushCheck(_) => PushStepKeepsInv(s, step);
    case PushWrite => PushStepKeepsInv(s, step);
    case PushPublish => PushStepKeepsInv(s, step);
    case PopBegin(_) => PopStepKeepsInv(s, step);
    case PopCheck(_) => PopStepKeepsInv(s, step);
    case PopRead(_) => PopStepKeepsInv(s, step);
    case PopPublish => PopStepKeepsInv(s, step);
    case _ => DrainStepKeepsInv(s, step);
  }

  // Runs

  ghost predicate Legal<T>(s: Ring<T>, steps: seq<Step<T>>)
    decreases |steps|
  {
    steps == [] || (Enabled(s, steps[0]) && Legal(Apply(s, steps[0]), steps[1..]))
  }

  ghost function Exec<T>(s: Ring<T>, steps: seq<Step<T>>): Ring<T>
    requires Legal(s, steps)
    decreases |steps|
  {
    if steps == [] then s else Exec(Apply(s, steps[0]), steps[1..])
  }

  lemma {:induction false} RunKeepsInv<T>(s: Ring<T>, steps: seq<Step<T>>)
    requires Inv(s) && Legal(s, steps)
    ensures Inv(Exec(s, steps))
    ensures Exec(s, steps).cap == s.cap
    ensures s.pushed <= Exec(s, steps).pushed && s.popped <= Exec(s, steps).popped
    decreases |steps|
  {
    if steps != [] {
      StepKeepsInv(s, steps[0]);
      RunKeepsInv(Apply(s, steps[0]), steps[1..]);
      RunGrows(s, steps);
    }
  }

  /** What was pushed or popped stays so. */
  lemma {:induction false} RunGrows<T>(s: Ring<T>, steps: seq<Step<T>>)
    requires Legal(s, steps)
    ensures Exec(s, steps).cap == s.cap
    ensures s.pushed <= Exec(s, steps).pushed && s.popped <= Exec(s, steps).popped
    decreases |steps|
  {
    if steps != [] { RunGrows(Apply(s, steps[0]), steps[1..]); }
  }

  /** The items of the push calls that went through, in order, read off the steps alone;
      `current` is the item of the call under way. */
  function Published<T>(steps: seq<Step<T>>, current: seq<T>): seq<T>
    decreases |steps|
  {
    if steps == [] then []
    else
      match steps[0]
      case PushBegin(item) => Published(steps[1..], [item])
      case PushPublish => current + Published(steps[1..], [])
      case _ => Published(steps[1..], current)
  }

  lemma {:induction false} PushedIsPublished<T>(s: Ring<T>, steps: seq<Step<T>>, current: seq<T>)
    requires Legal(s, steps) && (s.prod.PIdle? || current == [s.prod.item])
    ensures Exec(s, steps).pushed == s.pushed + Published(steps, current)
    decreases |steps|
  {
    if steps != [] {
      var next := match steps[0] case PushBegin(item) => [item] case PushPublish => [] case _ => current;
      PushedIsPublished(Apply(s, steps[0]), steps[1..], next);
    }
  }

  /** The slot the producer is about to write, or the consumer about to read or clear. */
  function Touching<T>(s: Ring<T>): (slots: (set<nat>, set<nat>)) {
    (if s.prod.PSlot? then {s.prod.head} else {},
     if s.cons.CSlot? then {s.cons.tail}
     else if s.cons.DMove? && InCopyLoop(s.cap, s.cons) then {s.cons.i} else {})
  }

  /** Every interleaving: what is pushed is what the calls published, in order; first in,
      first out; at most capacity - 1 items; the producer
      never writes a slot that holds an item or that the consumer is using. */
  lemma RingIsSafe<T>(s0: Ring<T>, steps: seq<Step<T>>)
    requires Init(s0) && Legal(s0, steps)
    ensures var s := Exec(s0, steps);
      && s.pushed == Published(steps, []) && s.popped <= s.pushed
      && |s.pushed| - |s.popped| <= s.cap - 1
      && Touching(s).0 !! Touching(s).1
      && (s.prod.PSlot? ==> forall j: nat :: |s.popped| <= j < |s.pushed| ==> At(j, s.cap) != s.prod.head)
  {
    InitInv(s0);
    RunKeepsInv(s0, steps);
    PushedIsPublished(s0, steps, []);
    var s := Exec(s0, steps);
    if s.prod.PSlot? {
      forall j: nat | |s.popped| <= j < |s.pushed| ensures At(j, s.cap) != s.prod.head {
        AtApart(j, |s.pushed|, s.cap);
      }
      if s.cons.DMove? { CopyPosition(s); }
    }
  }

  /** A refused call is justified by the index it loaded, and only by that. */
  lemma RefusalsAreJustified<T>(s0: Ring<T>, steps: seq<Step<T>>, n: nat)
    requires Init(s0) && Legal(s0, steps)
    ensures var s := Exec(s0, steps);
      && (Enabled(s, PushCheck(n)) ==>
          (Apply(s, PushCheck(n)).prod == PIdle <==> |s.pushed| - n == s.cap - 1))
      && (Enabled(s, PopCheck(n)) ==>
          (Apply(s, PopCheck(n)).cons == CIdle <==> n == |s.popped|))
  {
    InitInv(s0);
    RunKeepsInv(s0, steps);
    var s := Exec(s0, steps);
    if Enabled(s, PushCheck(n)) { PushCheckDecides(s, n); }
    if Enabled(s, PopCheck(n)) { PopCheckDecides(s, n); }
  }

  /** Between calls of the consumer, the walk from the tail index to the head index finds
      exactly the items pushed and not yet popped. */
  lemma QueueIsWalk<T>(s: Ring<T>)
    requires Inv(s) && InHand(s) == []
    ensures Walk(s.slots, s.tail, s.head) == s.pushed[|s.popped|..]
  {
    WalkFinds(s, |s.popped|);
  }

  lemma {:induction false} WalkFinds<T>(s: Ring<T>, n: nat)
    requires Inv(s) && Taken(s) <= n <= |s.pushed|
    ensures Walk(s.slots, At(n, s.cap), s.head) == s.pushed[n..]
    decreases |s.pushed| - n
  {
    AtApart(n, |s.pushed|, s.cap);
    if n < |s.pushed| {
      MaskedSucc(At(n, s.cap), s.cap);
      AtSucc(n, s.cap);
      WalkFinds(s, n + 1);
      assert s.pushed[n..] == [s.pushed[n]] + s.pushed[n + 1..];
    }
  }

  // Batch drains

  ghost predicate OpensCall<T>(step: Step<T>) {
    step.PopBegin? || step.DrainLoadHead?
  }

  /** The drain that loaded `h` is under way, or has delivered exactly the items before h. */
  ghost predicate Draining<T>(s: Ring<T>, before: seq<T>, h: nat) {
    if s.cons.DHead? || s.cons.DMove? then s.popped == before && s.headSeen == h
    else s.cons.CIdle? && |s.popped| == h
  }

  lemma DrainingStep<T>(s: Ring<T>, before: seq<T>, h: nat, step: Step<T>)
    requires Inv(s) && Draining(s, before, h) && Enabled(s, step) && !OpensCall(step)
    ensures Draining(Apply(s, step), before, h)
  {
    if step.DrainPublish? { CopyPosition(s); }
    if step.DrainLoadTail? { AtApart(|s.popped|, s.headSeen, s.cap); }
  }

  lemma {:induction false} DrainRun<T>(s: Ring<T>, before: seq<T>, h: nat, rest: seq<Step<T>>)
    requires Inv(s) && Draining(s, before, h) && Legal(s, rest)
    requires forall i :: 0 <= i < |rest| ==> !OpensCall(rest[i])
    ensures Draining(Exec(s, rest), before, h)
    decreases |rest|
  {
    if rest != [] {
      assert !OpensCall(rest[0]);
      StepKeepsInv(s, rest[0]);
      DrainingStep(s, before, h, rest[0]);
      DrainRun(Apply(s, rest[0]), before, h, rest[1..]);
    }
  }

  lemma {:induction false} RunsCompose<T>(s: Ring<T>, a: seq<Step<T>>, b: seq<Step<T>>)
    requires Legal(s, a) && Legal(Exec(s, a), b)
    ensures Legal(s, a + b) && Exec(s, a + b) == Exec(Exec(s, a), b)
    decreases |a|
  {
    if a == [] {
      assert a + b == b;
    } else {
      RunsCompose(Apply(s, a[0]), a[1..], b);
      assert (a + b)[1..] == a[1..] + b;
    }
  }

  lemma TwoSteps<T>(s: Ring<T>, x: Step<T>, y: Step<T>)
    requires Enabled(s, x) && Enabled(Apply(s, x), y)
    ensures Legal(s, [x, y]) && Exec(s, [x, y]) == Apply(Apply(s, x), y)
  {
    assert [x, y][1..] == [y] && [y][1..] == [];
    var t := Apply(s, x);
    assert Legal(Apply(t, y), []) && Legal(t, [y]);
    assert Exec(t, [y]) == Exec(Apply(t, y), []);
  }

  /** One call of pop_move that finds an item: up to the check, then the rest. */
  function PopCall<T>(h: nat, junk: T): seq<Step<T>> {
    [PopBegin(true), PopCheck(h)] + [PopRead(junk), PopPublish]
  }

  /** n calls of pop_move in a row, each seeing the head index as it was after h pushes. */
  function PopCalls<T>(n: nat, h: nat, junk: T): seq<Step<T>> {
    if n == 0 then [] else PopCall(h, junk) + PopCalls(n - 1, h, junk)
  }

  lemma PopCallFinds<T>(s: Ring<T>, h: nat)
    requires Inv(s) && s.cons == CIdle && s.headSeen <= h <= |s.pushed| && |s.popped| < h
    ensures Legal(s, [PopBegin(true), PopCheck(h)])
    ensures var s' := Exec(s, [PopBegin(true), PopCheck(h)]);
      Inv(s') && s'.cons.CSlot? && s'.popped == s.popped && s'.pushed == s.pushed && s'.headSeen == h && s'.cap == s.cap
  {
    var s1 := Apply(s, PopBegin(true));
    StepKeepsInv(s, PopBegin(true));
    PopCheckDecides(s1, h);
    StepKeepsInv(s1, PopCheck(h));
    TwoSteps(s, PopBegin(true), PopCheck(h));
  }

  lemma PopCallTakes<T>(s: Ring<T>, junk: T)
    requires Inv(s) && s.cons.CSlot?
    ensures Legal(s, [PopRead(junk), PopPublish])
    ensures var s' := Exec(s, [PopRead(junk), PopPublish]);
      && Inv(s') && s'.cons.CIdle? && |s'.popped| == |s.popped| + 1
      && s'.pushed == s.pushed && s'.headSeen == s.headSeen && s'.cap == s.cap
  {
    var s1 := Apply(s, PopRead(junk));
    StepKeepsInv(s, PopRead(junk));
    StepKeepsInv(s1, PopPublish);
    TwoSteps(s, PopRead(junk), PopPublish);
  }

  lemma PopCallDelivers<T>(s: Ring<T>, h: nat, junk: T)
    requires Inv(s) && s.cons == CIdle && s.headSeen <= h <= |s.pushed| && |s.popped| < h
    ensures Legal(s, PopCall(h, junk))
    ensures var s' := Exec(s, PopCall(h, junk));
      && Inv(s') && s'.cons == CIdle && |s'.popped| == |s.popped| + 1
      && s'.pushed == s.pushed && s'.headSeen == h && s'.cap == s.cap
  {
    PopCallFinds(s, h);
    PopCallTakes(Exec(s, [PopBegin(true), PopCheck(h)]), junk);
    RunsCompose(s, [PopBegin(true), PopCheck(h)], [PopRead(junk), PopPublish]);
  }

  lemma {:induction false} PopCallsRun<T>(s: Ring<T>, n: nat, h: nat, junk: T)
    requires Inv(s) && s.cons == CIdle
    requires s.headSeen <= h && |s.popped| + n <= h <= |s.pushed|
    ensures Legal(s, PopCalls(n, h, junk))
    ensures var s' := Exec(s, PopCalls(n, h, junk));
      Inv(s') && |s'.popped| == |s.popped| + n && s'.pushed == s.pushed && s'.cap == s.cap
    decreases n
  {
    if n > 0 {
      PopCallDelivers(s, h, junk);
      PopCallsRun(Exec(s, PopCall(h, junk)), n - 1, h, junk);
      RunsCompose(s, PopCall(h, junk), PopCalls(n - 1, h, junk));
    }
  }

  lemma PopCallsDeliver<T>(s: Ring<T>, n: nat, h: nat, junk: T)
    requires Inv(s) && s.cons == CIdle
    requires s.headSeen <= h && |s.popped| + n <= h <= |s.pushed|
    ensures Legal(s, PopCalls(n, h, junk))
    ensures Exec(s, PopCalls(n, h, junk)).popped == s.pushed[..|s.popped| + n]
    ensures Exec(s, PopCalls(n, h, junk)).tail == At(|s.popped| + n, s.cap)
  {
    PopCallsRun(s, n, h, junk);
    var s' := Exec(s, PopCalls(n, h, junk));
    PoppedIsPrefix(s');
    assert |s'.popped| == |s.popped| + n && s'.pushed == s.pushed && s'.cap == s.cap;
  }

  lemma PoppedIsPrefix<T>(s: Ring<T>)
    requires Inv(s)
    ensures |s.popped| <= |s.pushed| && s.popped == s.pushed[..|s.popped|] && s.tail == At(|s.popped|, s.cap)
  {
  }

  /** One drain call by the consumer that loads h, whatever the producer does meanwhile. */
  ghost predicate DrainCall<T>(s: Ring<T>, drain: seq<Step<T>>, h: nat) {
    && s.cons == CIdle && Legal(s, drain) && Exec(s, drain).cons == CIdle
    && drain != [] && drain[0] == DrainLoadHead(h)
    && forall i :: 0 < i < |drain| ==> !OpensCall(drain[i])
  }

  /** A batch drain, with any producer steps in between, delivers in order exactly the
      items published at its load of the head index; everything pushed later stays queued. */
  lemma DrainDelivers<T>(s: Ring<T>, drain: seq<Step<T>>, h: nat)
    requires Inv(s) && DrainCall(s, drain, h)
    ensures |s.popped| <= s.headSeen <= h <= |s.pushed|
    ensures var drained := Exec(s, drain);
      && Inv(drained) && drained.cap == s.cap
      && drained.popped == s.pushed[..h] && drained.tail == At(h, s.cap)
      && Walk(drained.slots, drained.tail, drained.head) == drained.pushed[h..]
  {
    var s1 := Apply(s, drain[0]);
    var rest := drain[1..];
    StepKeepsInv(s, drain[0]);
    DrainRun(s1, s.popped, h, rest);
    RunKeepsInv(s1, rest);
    QueueIsWalk(Exec(s1, rest));
  }

  /** So a batch drain takes out exactly what pop_move, repeated on the items published at
      its load of the head index, takes out, and leaves the tail index in the same place. */
  lemma DrainIsRepeatedPop<T>(s: Ring<T>, drain: seq<Step<T>>, h: nat, pops: seq<Step<T>>, junk: T)
    requires Inv(s) && DrainCall(s, drain, h)
    requires h >= |s.popped| && pops == PopCalls(h - |s.popped|, h, junk)
    ensures Legal(s, pops)
    ensures Exec(s, drain).popped == Exec(s, pops).popped && Exec(s, drain).tail == Exec(s, pops).tail
  {
    DrainDelivers(s, drain, h);
    PopCallsDeliver(s, h - |s.popped|, h, junk);
  }

  // The size operation: two loads, then the branch on the two values

  /** Called by the producer it counts from the pop it knows of, called by the consumer up
      to the push it knows of; a load that is not stale makes either exact. */
  lemma SizeByOwner<T>(s: Ring<T>, n: nat)
    requires Inv(s)
    ensures s.tailSeen <= n <= |s.popped| ==> Distance(At(n, s.cap), s.head, s.cap) == |s.pushed| - n
    ensures s.headSeen <= n <= |s.pushed| ==> Distance(s.tail, At(n, s.cap), s.cap) == n - |s.popped|
  {
    if s.tailSeen <= n <= |s.popped| { AtApart(n, |s.pushed|, s.cap); }
    if s.headSeen <= n <= |s.pushed| { AtApart(|s.popped|, n, s.cap); }
  }

  /** The pops the producer knew of when it published its h-th push; whoever has loaded that
      head index sees at least those. */
  ghost function KnownAt<T>(s: Ring<T>, steps: seq<Step<T>>, h: nat): nat
    requires Legal(s, steps)
    decreases |steps|
  {
    if steps == [] then 0
    else if steps[0] == PushPublish && |s.pushed| + 1 == h then s.tailSeen
    else KnownAt(Apply(s, steps[0]), steps[1..], h)
  }

  lemma {:induction false} KnownIsClose<T>(s: Ring<T>, steps: seq<Step<T>>, h: nat)
    requires Inv(s) && Legal(s, steps) && |s.pushed| < h <= |Exec(s, steps).pushed|
    ensures h < KnownAt(s, steps, h) + s.cap
    decreases |steps|
  {
    if steps[0] != PushPublish || |s.pushed| + 1 != h {
      StepKeepsInv(s, steps[0]);
      KnownIsClose(Apply(s, steps[0]), steps[1..], h);
    }
  }

  /** A third thread loads the head index as it was after any h pushes, and then the tail
      index as it was after any t pops it may still see, both as stale as they may be.  The
      result is the difference of the two counters exactly if the consumer had not gone past
      that head, and then that difference is at most capacity - 1. */
  lemma SizeByThirdThread<T>(s0: Ring<T>, steps: seq<Step<T>>, h: nat, t: nat)
    requires Init(s0) && Legal(s0, steps)
    requires h <= |Exec(s0, steps).pushed| && KnownAt(s0, steps, h) <= t <= |Exec(s0, steps).popped|
    ensures s0.cap > 0
    ensures Distance(At(t, s0.cap), At(h, s0.cap), s0.cap) == h - t <==> t <= h
    ensures h - t <= s0.cap - 1
  {
    InitInv(s0);
    if h > 0 { KnownIsClose(s0, steps, h); }
    if t <= h { AtApart(t, h, s0.cap); }
  }

  // One call with nothing in between

  lemma PushCallFinds<T>(s: Ring<T>, item: T)
    requires Inv(s) && s.prod == PIdle
    ensures Legal(s, [PushBegin(item), PushCheck(|s.popped|)])
    ensures var s' := Exec(s, [PushBegin(item), PushCheck(|s.popped|)]);
      && Inv(s') && s'.popped == s.popped && s'.pushed == s.pushed && s'.cons == s.cons
      && if |s.pushed| - |s.popped| < s.cap - 1 then s'.prod.PSlot? && s'.prod.item == item else s'.prod.PIdle?
  {
    var s1 := Apply(s, PushBegin(item));
    StepKeepsInv(s, PushBegin(item));
    PushCheckDecides(s1, |s.popped|);
    StepKeepsInv(s1, PushCheck(|s.popped|));
    TwoSteps(s, PushBegin(item), PushCheck(|s.popped|));
  }

  lemma PushCallStores<T>(s: Ring<T>)
    requires Inv(s) && s.prod.PSlot?
    ensures Legal(s, [PushWrite, PushPublish])
    ensures var s' := Exec(s, [PushWrite, PushPublish]);
      && Inv(s') && s'.prod.PIdle? && s'.popped == s.popped && s'.cons == s.cons
      && s'.pushed == s.pushed + [s.prod.item]
  {
    StepKeepsInv(s, PushWrite);
    StepKeepsInv(Apply(s, PushWrite), PushPublish);
    TwoSteps(s, PushWrite, PushPublish);
  }

  lemma PushCallDecides<T>(s: Ring<T>, item: T) returns (steps: seq<Step<T>>, ok: bool)
    requires Inv(s) && s.prod == PIdle
    ensures ok == (|s.pushed| - |s.popped| < s.cap - 1)
    ensures steps == [PushBegin(item), PushCheck(|s.popped|)] + (if ok then [PushWrite, PushPublish] else [])
    ensures Legal(s, steps)
    ensures var s' := Exec(s, steps);
      && Inv(s') && s'.prod == PIdle && s'.cons == s.cons && s'.popped == s.popped
      && s'.pushed == s.pushed + (if ok then [item] else [])
  {
    var x := [PushBegin(item), PushCheck(|s.popped|)];
    var y := [PushWrite, PushPublish];
    PushCallFinds(s, item);
    ok := |s.pushed| - |s.popped| < s.cap - 1;
    if ok {
      PushCallStores(Exec(s, x));
      RunsCompose(s, x, y);
      steps := x + y;
    } else {
      steps := x;
      assert x + [] == x;
    }
  }

  /** An uninterrupted push that sees the current tail index does what the contract of the
      sequential buffer says: it fails exactly when capacity - 1 items are queued. */
  lemma UninterruptedPush<T>(s: Ring<T>, item: T) returns (steps: seq<Step<T>>, ok: bool)
    requires Inv(s) && s.prod == PIdle && s.cons == CIdle
    ensures steps == [PushBegin(item), PushCheck(|s.popped|)] + (if ok then [PushWrite, PushPublish] else [])
    ensures ok == (|Walk(s.slots, s.tail, s.head)| < s.cap - 1)
    ensures Legal(s, steps) && Inv(Exec(s, steps)) && Exec(s, steps).prod == PIdle
    ensures var s' := Exec(s, steps);
      Walk(s'.slots, s'.tail, s'.head) == Walk(s.slots, s.tail, s.head) + (if ok then [item] else [])
  {
    steps, ok := PushCallDecides(s, item);
    QueueIsWalk(s);
    QueueIsWalk(Exec(s, steps));
  }

  lemma EmptyPopFails<T>(s: Ring<T>)
    requires Inv(s) && s.cons == CIdle && |s.popped| == |s.pushed|
    ensures Legal(s, [PopBegin(true), PopCheck(|s.pushed|)])
    ensures var s' := Exec(s, [PopBegin(true), PopCheck(|s.pushed|)]);
      Inv(s') && s'.cons == CIdle && s'.popped == s.popped && s'.pushed == s.pushed
  {
    var s1 := Apply(s, PopBegin(true));
    StepKeepsInv(s, PopBegin(true));
    PopCheckDecides(s1, |s.pushed|);
    StepKeepsInv(s1, PopCheck(|s.pushed|));
    TwoSteps(s, PopBegin(true), PopCheck(|s.pushed|));
  }

  lemma QueueIsRest<T>(s: Ring<T>)
    requires Inv(s) && s.cons == CIdle
    ensures s.popped + Walk(s.slots, s.tail, s.head) == s.pushed
    ensures Walk(s.slots, s.tail, s.head) == [] <==> |s.popped| == |s.pushed|
  {
    QueueIsWalk(s);
    assert s.popped == s.pushed[..|s.popped|];
  }

  lemma PopCallDecides<T>(s: Ring<T>, junk: T) returns (steps: seq<Step<T>>, ok: bool)
    requires Inv(s) && s.cons == CIdle
    ensures ok == (|s.popped| < |s.pushed|)
    ensures steps == [PopBegin(true), PopCheck(|s.pushed|)] + (if ok then [PopRead(junk), PopPublish] else [])
    ensures Legal(s, steps)
    ensures var s' := Exec(s, steps);
      && Inv(s') && s'.cons == CIdle && s'.pushed == s.pushed
      && |s'.popped| == |s.popped| + (if ok then 1 else 0)
  {
    ok := |s.popped| < |s.pushed|;
    if ok {
      PopCallDelivers(s, |s.pushed|, junk);
      steps := PopCall(|s.pushed|, junk);
    } else {
      EmptyPopFails(s);
      steps := [PopBegin(true), PopCheck(|s.pushed|)];
      assert steps + [] == steps;
    }
  }

  /** And an uninterrupted pop that sees the current head index takes the oldest item, or
      fails exactly when nothing is queued. */
  lemma UninterruptedPop<T>(s: Ring<T>, junk: T) returns (steps: seq<Step<T>>, ok: bool)
    requires Inv(s) && s.prod == PIdle && s.cons == CIdle
    ensures steps == [PopBegin(true), PopCheck(|s.pushed|)] + (if ok then [PopRead(junk), PopPublish] else [])
    ensures ok == (Walk(s.slots, s.tail, s.head) != [])
    ensures Legal(s, steps) && Inv(Exec(s, steps)) && Exec(s, steps).cons == CIdle
    ensures var s' := Exec(s, steps);
      && s'.popped + Walk(s'.slots, s'.tail, s'.head) == s.popped + Walk(s.slots, s.tail, s.head)
      && |s'.popped| == |s.popped| + (if ok then 1 else 0)
  {
    steps, ok := PopCallDecides(s, junk);
    QueueIsRest(s);
    QueueIsRest(Exec(s, steps));
  }
}
