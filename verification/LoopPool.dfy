/**
 The pool of event loops: dispatch, removal of the busiest loop, and the resize controller.
 An event is known by its identity; the event a loop registers for its own wake-ups counts
 like any other.
 */
module PoolModel {
  import opened Basics
  import opened LoadBalance

  type Event = nat

  /** A loop's load counter and its list of events. */
  datatype Loop = Loop(load: int, events: seq<Event>)

  datatype Pool = Pool(loops: seq<Loop>, next: nat, dynamic: bool)

  function Loads(loops: seq<Loop>): seq<int> {
    seq(|loops|, i requires 0 <= i < |loops| => loops[i].load)
  }

  /** The position ev_dispatch picks: least loaded, or the next one round. */
  function Target(p: Pool): (i: nat)
    requires p.loops != []
    ensures i < |p.loops|
  {
    if p.dynamic then LeastIdx(Loads(p.loops)) else Turn(p.next, |p.loops|)
  }

  function AddTo(l: Loop, e: Event): Loop {
    Loop(l.load + 1, l.events + [e])
  }

  /** Dispatch one event and register it there. */
  function Deliver(p: Pool, e: Event): (r: Pool)
    requires p.loops != []
    ensures |r.loops| == |p.loops|
  {
    var i := Target(p);
    p.(loops := p.loops[i := AddTo(p.loops[i], e)], next := if p.dynamic then p.next else i)
  }

  function DeliverAll(p: Pool, es: seq<Event>): (r: Pool)
    requires p.loops != []
    ensures |r.loops| == |p.loops|
  {
    if es == [] then p else Deliver(DeliverAll(p, es[..|es| - 1]), es[|es| - 1])
  }

  /** Events dispatched in turn: splitting the list anywhere makes no difference, and a single
      event goes to the target of the moment, at the end of its list. */
  lemma {:induction false} DeliverAllSplits(p: Pool, a: seq<Event>, b: seq<Event>)
    requires p.loops != []
    ensures DeliverAll(p, a + b) == DeliverAll(DeliverAll(p, a), b)
    decreases |b|
  {
    if b == [] {
      assert a + b == a;
    } else {
      var init := b[..|b| - 1];
      assert (a + b)[..|a + b| - 1] == a + init;
      DeliverAllSplits(p, a, init);
    }
  }

  /** Overwrite position i with the last element and drop the last position. */
  function TakeOut<T>(s: seq<T>, i: nat): (r: seq<T>)
    requires i < |s|
    ensures |r| == |s| - 1
    ensures forall j :: 0 <= j < |r| ==> r[j] == if j == i then s[|s| - 1] else s[j]
  {
    s[i := s[|s| - 1]][..|s| - 1]
  }

  /** The list is handed over; the load counter is not touched. */
  function Emptied(p: Pool, v: nat): Pool
    requires v < |p.loops|
  {
    p.(loops := p.loops[v := Loop(p.loops[v].load, [])])
  }

  /** The busiest loop emptied and its events dispatched again, just before it is deleted. */
  function Placed(p: Pool): (r: Pool)
    requires p.loops != []
    ensures |r.loops| == |p.loops|
  {
    var v := MostIdx(Loads(p.loops));
    DeliverAll(Emptied(p, v), p.loops[v].events)
  }

  /** All events of the busiest loop are dispatched again, then that loop is deleted. */
  function Removed(p: Pool): Pool
    requires p.loops != []
  {
    Placed(p).(loops := TakeOut(Placed(p).loops, MostIdx(Loads(p.loops))))
  }

  // Load counters and event lists

  /** The counter agrees with the list. */
  predicate Accurate(l: Loop) {
    l.load == |l.events|
  }

  function Without(es: seq<Event>, e: Event): seq<Event> {
    if es == [] then [] else (if es[0] == e then [] else [es[0]]) + Without(es[1..], e)
  }

  /** del_event: one off the counter, every occurrence off the list. */
  function DeleteFrom(l: Loop, e: Event): Loop {
    Loop(l.load - 1, Without(l.events, e))
  }

  lemma WithoutStep(es: seq<Event>, i: nat, e: Event)
    requires i < |es|
    ensures es[i] == e ==>
      var cut := es[..i] + es[i + 1..];
      cut[..i] == es[..i] && Without(cut[i..], e) == Without(es[i..], e)
    ensures es[i] != e ==> es[..i + 1] + Without(es[i + 1..], e) == es[..i] + Without(es[i..], e)
  {
    assert es[i..][1..] == es[i + 1..];
    assert (es[..i] + es[i + 1..])[i..] == es[i + 1..];
  }

  /** Nothing changes places: every part of the list is treated by itself. */
  lemma {:induction false} WithoutParts(a: seq<Event>, b: seq<Event>, e: Event)
    ensures Without(a + b, e) == Without(a, e) + Without(b, e)
    decreases |a|
  {
    if a == [] {
      assert a + b == b;
    } else {
      assert (a + b)[1..] == a[1..] + b;
      WithoutParts(a[1..], b, e);
    }
  }

  lemma {:induction false} WithoutCounts(es: seq<Event>, e: Event)
    ensures |Without(es, e)| == |es| - multiset(es)[e]
    ensures multiset(Without(es, e)) == multiset(es)[e := 0]
  {
    if es != [] {
      assert es == [es[0]] + es[1..];
      WithoutCounts(es[1..], e);
    }
  }

  /** Deleting keeps an accurate counter accurate exactly when the event was there once. */
  lemma DeleteStaysAccurate(l: Loop, e: Event)
    requires Accurate(l)
    ensures Accurate(DeleteFrom(l, e)) <==> multiset(l.events)[e] == 1
  {
    WithoutCounts(l.events, e);
  }

  // What a removal does to the events

  function Bag(l: Loop): multiset<Event> {
    multiset(l.events)
  }

  function AllEvents(loops: seq<Loop>): multiset<Event> {
    if loops == [] then multiset{} else AllEvents(loops[..|loops| - 1]) + Bag(loops[|loops| - 1])
  }

  lemma AllEventsSnoc(loops: seq<Loop>, l: Loop)
    ensures AllEvents(loops + [l]) == AllEvents(loops) + Bag(l)
  {
    assert (loops + [l])[..|loops|] == loops;
  }

  lemma {:induction false} AllEventsUpdate(loops: seq<Loop>, i: nat, l: Loop)
    requires i < |loops|
    ensures AllEvents(loops[i := l]) + Bag(loops[i]) == AllEvents(loops) + Bag(l)
  {
    var last := |loops| - 1;
    var init := loops[..last];
    if i == last {
      assert loops[i := l] == init + [l];
      AllEventsSnoc(init, l);
      Exchange(AllEvents(init), Bag(loops[i]), Bag(l));
    } else {
      assert loops[i := l] == init[i := l] + [loops[last]];
      AllEventsSnoc(init[i := l], loops[last]);
      AllEventsUpdate(init, i, l);
      Regroup(AllEvents(init[i := l]), AllEvents(init), Bag(loops[last]), Bag(loops[i]), Bag(l));
    }
  }

  lemma AllEventsTakeOut(loops: seq<Loop>, i: nat)
    requires i < |loops|
    ensures AllEvents(TakeOut(loops, i)) + Bag(loops[i]) == AllEvents(loops)
  {
    var last := |loops| - 1;
    var init := loops[..last];
    if i == last {
      assert TakeOut(loops, i) == init;
    } else {
      assert TakeOut(loops, i) == init[i := loops[last]];
      AllEventsUpdate(init, i, loops[last]);
    }
  }

  lemma DeliverAddsEvent(p: Pool, e: Event)
    requires p.loops != []
    ensures AllEvents(Deliver(p, e).loops) == AllEvents(p.loops) + multiset{e}
  {
    var i := Target(p);
    var was := Bag(p.loops[i]);
    AllEventsUpdate(p.loops, i, AddTo(p.loops[i], e));
    BagAppend(p.loops[i].events, e);
    Assoc(AllEvents(p.loops), multiset{e}, was);
    Cancel(AllEvents(Deliver(p, e).loops), AllEvents(p.loops) + multiset{e}, was);
  }

  lemma {:induction false} DeliverAllAddsEvents(p: Pool, es: seq<Event>)
    requires p.loops != []
    ensures AllEvents(DeliverAll(p, es).loops) == AllEvents(p.loops) + multiset(es)
  {
    if es != [] {
      var init, e := es[..|es| - 1], es[|es| - 1];
      DeliverAllAddsEvents(p, init);
      DeliverAddsEvent(DeliverAll(p, init), e);
      BagSnoc(es);
      Assoc(AllEvents(p.loops), multiset(init), multiset{e});
    }
  }

  /** Each loop's list grows with its counter. */
  lemma {:induction false} EventsFollowLoad(p: Pool, es: seq<Event>, i: nat)
    requires i < |p.loops|
    ensures var r := DeliverAll(p, es);
      |r.loops[i].events| - |p.loops[i].events| == r.loops[i].load - p.loops[i].load
  {
    if es != [] { EventsFollowLoad(p, es[..|es| - 1], i); }
  }

  /** Dispatch in dynamic mode is least-loaded placement. */
  lemma {:induction false} DeliverAllIsGreedy(p: Pool, es: seq<Event>)
    requires p.loops != [] && p.dynamic
    ensures var r := DeliverAll(p, es);
      && r.dynamic && r.next == p.next
      && Loads(r.loops) == Greedy(Loads(p.loops), |es|)
  {
    if es != [] {
      var init := es[..|es| - 1];
      DeliverAllIsGreedy(p, init);
      var q := DeliverAll(p, init);
      var i := Target(q);
      assert Loads(Deliver(q, es[|es| - 1]).loops) == Loads(q.loops)[i := Loads(q.loops)[i] + 1];
    }
  }

  lemma {:induction false} RoundRobinCounts(p: Pool, es: seq<Event>, j: nat)
    requires j < |p.loops| && !p.dynamic
    ensures var r := DeliverAll(p, es);
      && !r.dynamic && r.next == After(p.next, |p.loops|, |es|)
      && r.loops[j].load - p.loops[j].load == Hits(p.next, |p.loops|, |es|, j)
  {
    if es != [] {
      RoundRobinCounts(p, es[..|es| - 1], j);
      OneMoreDispatch(p.next, |p.loops|, |es| - 1, j);
    }
  }

  /** In round-robin mode every loop gets its turn as often as any other, give or take one:
      of m events each of n loops gets m/n, rounded down or up. */
  lemma RoundRobinDelivers(p: Pool, es: seq<Event>, j: nat)
    requires j < |p.loops| && !p.dynamic
    ensures FairShare(DeliverAll(p, es).loops[j].load - p.loops[j].load, |es|, |p.loops|)
  {
    RoundRobinCounts(p, es, j);
    RoundRobinIsFair(p.next, |p.loops|, |es|, j);
  }

  /** Least-loaded dispatch of any events: no placement of as many events has a smaller
      largest load, and the loads stay as even as they were, or within one. */
  lemma LeastLoadedDelivers(p: Pool, es: seq<Event>, other: seq<int>)
    requires p.loops != [] && p.dynamic && Placement(Loads(p.loops), |es|, other)
    ensures var was, now := Loads(p.loops), Loads(DeliverAll(p, es).loops);
      && Placement(was, |es|, now) && Top(now) <= Top(other)
      && Top(now) - Low(now) <= (if Top(was) - Low(was) > 1 then Top(was) - Low(was) else 1)
  {
    DeliverAllIsGreedy(p, es);
    GreedyShape(Loads(p.loops), |es|);
    LeastLoadedIsOptimal(Loads(p.loops), |es|, other);
    LeastLoadedSpread(Loads(p.loops), |es|);
  }

  /** A removal loses exactly the events that came back to the victim. */
  lemma RemovalLosesWhatCameBack(p: Pool)
    requires p.loops != []
    ensures var v := MostIdx(Loads(p.loops));
      AllEvents(Removed(p).loops) + Bag(Placed(p).loops[v]) == AllEvents(p.loops)
  {
    var v := MostIdx(Loads(p.loops));
    AllEventsUpdate(p.loops, v, Loop(p.loops[v].load, []));
    DeliverAllAddsEvents(Emptied(p, v), p.loops[v].events);
    AllEventsTakeOut(Placed(p).loops, v);
  }

  lemma KeptIfNoneCameBack(p: Pool)
    requires p.loops != []
    ensures var v := MostIdx(Loads(p.loops));
      AllEvents(Removed(p).loops) == AllEvents(p.loops) <==> Placed(p).loops[v].events == []
  {
    var v := MostIdx(Loads(p.loops));
    var back := Placed(p).loops[v].events;
    RemovalLosesWhatCameBack(p);
    if back != [] {
      assert back[0] in Bag(Placed(p).loops[v]);
    }
  }

  /** As many events come back to the victim as its counter grows. */
  lemma CameBack(p: Pool)
    requires p.loops != []
    ensures var v := MostIdx(Loads(p.loops));
      |Placed(p).loops[v].events| == Placed(p).loops[v].load - p.loops[v].load
  {
    var v := MostIdx(Loads(p.loops));
    EventsFollowLoad(Emptied(p, v), p.loops[v].events, v);
  }

  lemma PlacedIsGreedy(p: Pool)
    requires p.loops != [] && p.dynamic
    ensures var v := MostIdx(Loads(p.loops));
      Placed(p).loops[v].load == Greedy(Loads(p.loops), |p.loops[v].events|)[v]
  {
    var v := MostIdx(Loads(p.loops));
    assert Loads(Emptied(p, v).loops) == Loads(p.loops);
    DeliverAllIsGreedy(Emptied(p, v), p.loops[v].events);
    assert Loads(Placed(p).loops)[v] == Placed(p).loops[v].load;
  }

  /** Removing the busiest loop in dynamic mode keeps every event on a surviving loop if
      and only if the events moved are no more than the headroom of the other loops plus
      the position of the victim. */
  lemma RemovalKeepsEvents(p: Pool)
    requires p.loops != [] && p.dynamic
    ensures var v := MostIdx(Loads(p.loops));
      AllEvents(Removed(p).loops) == AllEvents(p.loops) <==>
      |p.loops[v].events| <= Headroom(Loads(p.loops)) + v
  {
    KeptIfNoneCameBack(p);
    CameBack(p);
    PlacedIsGreedy(p);
    BusiestIsSpared(Loads(p.loops), |p.loops[MostIdx(Loads(p.loops))].events|);
  }

  /** In round-robin mode it keeps them if and only if the events moved are fewer than the
      turns until the victim's. */
  lemma RemovalInTurnKeepsEvents(p: Pool)
    requires p.loops != [] && !p.dynamic
    ensures var v, n := MostIdx(Loads(p.loops)), |p.loops|;
      AllEvents(Removed(p).loops) == AllEvents(p.loops) <==>
      |p.loops[v].events| < Until(p.next % n, n, v)
  {
    var v := MostIdx(Loads(p.loops));
    var n, m := |p.loops|, |p.loops[v].events|;
    KeptIfNoneCameBack(p);
    CameBack(p);
    RoundRobinCounts(Emptied(p, v), p.loops[v].events, v);
    NotHitUntil(p.next, n, m, v);
  }

  /** What is lost otherwise: the events dispatched back to the victim, one for each unit
      by which its counter has grown. */
  lemma RemovalLoses(p: Pool)
    requires p.loops != [] && p.dynamic
    ensures var v, loads := MostIdx(Loads(p.loops)), Loads(p.loops);
      |AllEvents(p.loops)| - |AllEvents(Removed(p).loops)| == Greedy(loads, |p.loops[v].events|)[v] - loads[v]
  {
    RemovalLosesWhatCameBack(p);
    CameBack(p);
    PlacedIsGreedy(p);
  }

  /** With all loads equal and the victim leftmost, any event at all is lost. */
  lemma EqualLoadsLose(p: Pool)
    requires p.loops != [] && p.dynamic && p.loops[0].events != []
    requires forall i :: 0 <= i < |p.loops| ==> p.loops[i].load == p.loops[0].load
    ensures AllEvents(Removed(p).loops) != AllEvents(p.loops)
  {
    var loads := Loads(p.loops);
    MostIdxIsLeftmost(loads);
    assert loads[MostIdx(loads)] == loads[0];
    assert loads == Level(|loads|, loads[0]);
    SumLevel(|loads|, loads[0]);
    RemovalKeepsEvents(p);
  }

  // The resize controller

  const COOLSEC: int := 30
  const ADJUST_TIMEOUT_SEC: int := 5
  const SCALE_MAX: int := 80
  const SCALE_MIN: int := 20

  /** Number of loops, its bounds, and the seconds to the next round. */
  datatype Control = Control(t: int, min: int, max: int, time: int)

  /** One round of adjust_task under the given loads. */
  function Round(c: Control, loads: seq<int>): Control
    requires c.t != 0
  {
    if !(c.min < c.t < c.max) then c.(time := Max(c.time, ADJUST_TIMEOUT_SEC))
    else if Scale(loads, c.t) < SCALE_MIN then
      c.(t := c.t - 1, time := Max(c.time + COOLSEC, ADJUST_TIMEOUT_SEC))
    else if Scale(loads, c.t) > SCALE_MAX then
      c.(t := c.t + 1, time := Max(c.time - COOLSEC, ADJUST_TIMEOUT_SEC))
    else c.(time := Max(c.time, ADJUST_TIMEOUT_SEC))
  }

  /** The rounds see any loads at all, one for each loop there is. */
  ghost predicate PlausibleRun(c: Control, rounds: seq<seq<int>>)
    decreases |rounds|
  {
    rounds == [] || (c.t > 0 && |rounds[0]| == c.t && PlausibleRun(Round(c, rounds[0]), rounds[1..]))
  }

  ghost function Rounds(c: Control, rounds: seq<seq<int>>): Control
    requires PlausibleRun(c, rounds)
    decreases |rounds|
  {
    if rounds == [] then c else Rounds(Round(c, rounds[0]), rounds[1..])
  }

  /** Strictly between its bounds the controller can only shrink: each round takes out one
      loop until the minimum is reached, whatever the loads are. */
  lemma {:induction false} ControllerOnlyShrinks(c: Control, rounds: seq<seq<int>>)
    requires 1 <= c.min <= c.t < c.max && PlausibleRun(c, rounds)
    ensures var d := Rounds(c, rounds);
      && d.t == (if |rounds| < c.t - c.min then c.t - |rounds| else c.min)
      && d.min == c.min && d.max == c.max
      && (rounds != [] ==> d.time >= ADJUST_TIMEOUT_SEC)
      && (c.time >= ADJUST_TIMEOUT_SEC ==> d.time == c.time + COOLSEC * (c.t - d.t))
    decreases |rounds|
  {
    if rounds != [] {
      ScaleIsAllOrNothing(rounds[0]);
      ControllerOnlyShrinks(Round(c, rounds[0]), rounds[1..]);
    }
  }

  /** One round under any loads, in full: within the bounds a single loaded loop gets
      company and anything else loses a loop; the delay changes by 30 seconds, but is
      never less than 5. */
  lemma RoundExactly(c: Control, loads: seq<int>)
    requires c.t > 0 && |loads| == c.t
    ensures var d := Round(c, loads);
      && d.min == c.min && d.max == c.max
      && (!(c.min < c.t < c.max) ==> d.t == c.t && d.time == Max(c.time, 5))
      && (c.min < c.t < c.max ==>
          if c.t == 1 && loads[0] != 0 then d.t == 2 && d.time == Max(c.time - 30, 5)
          else d.t == c.t - 1 && d.time == Max(c.time + 30, 5))
  {
    ScaleIsAllOrNothing(loads);
    if c.t == 1 {
      assert loads == [loads[0]];
      assert Sum(loads) == Sum(loads[..0]) + loads[0];
    }
  }

  /** A pool as created, with its minimum equal to its size, is never resized. */
  lemma {:induction false} ControllerStartsFrozen(c: Control, rounds: seq<seq<int>>)
    requires c.t <= c.min || c.max <= c.t
    requires PlausibleRun(c, rounds)
    ensures Rounds(c, rounds).t == c.t
    decreases |rounds|
  {
    if rounds != [] {
      ControllerStartsFrozen(Round(c, rounds[0]), rounds[1..]);
    }
  }
}

module LoopPools {
  import opened Basics
  import opened LoadBalance
  import opened PoolModel

  class EventLoop {
    var load: int
    var evlist: seq<Event>

    /** A new loop registers its wake-up event with itself. */
    constructor (wake: Event)
      ensures View() == Loop(1, [wake])
    {
      load := 1;
      evlist := [wake];
    }

    ghost function View(): Loop
      reads this
    {
      Loop(load, evlist)
    }

    method AddEvent(e: Event)
      modifies this
      ensures View() == AddTo(old(View()), e)
      ensures load == old(load) + 1 && evlist == old(evlist) + [e]
    {
      load := load + 1;
      evlist := evlist + [e];
    }

    method DelEvent(e: Event)
      modifies this
      ensures View() == DeleteFrom(old(View()), e)
      ensures load == old(load) - 1 && e !in evlist
    {
      WithoutCounts(evlist, e);
      load := load - 1;
      Remove(e);
      assert e in evlist ==> multiset(evlist)[e] > 0;
    }

    /** The list's own removal: every element equal to e is taken out where it stands. */
    method Remove(e: Event)
      modifies this`evlist
      ensures evlist == Without(old(evlist), e)
    {
      var i := 0;
      while i < |evlist|
        invariant 0 <= i <= |evlist|
        invariant evlist[..i] + Without(evlist[i..], e) == Without(old(evlist), e)
        decreases |evlist| - i
      {
        WithoutStep(evlist, i, e);
        if evlist[i] == e {
          evlist := evlist[..i] + evlist[i + 1..];
        } else {
          i := i + 1;
        }
      }
      assert evlist[..i] + [] == evlist;
    }

    /** Swaps the caller's list with this one; the load counter stays. */
    method GetAllEv(list: seq<Event>) returns (all: seq<Event>)
      modifies this
      ensures all == old(evlist) && View() == Loop(old(load), list)
      ensures load == old(load) && evlist == list
    {
      all := evlist;
      evlist := list;
    }
  }

  class LoopPool {
    const base: EventLoop
    var loadvec: seq<EventLoop>
    var next: nat
    var tnum: int
    var minTnum: int
    var maxTnum: int
    var dispatch: bool
    var timesec: int

    ghost predicate Valid()
      reads this`loadvec, this`tnum
    {
      tnum == |loadvec| && base !in loadvec
      && forall i, j :: 0 <= i < j < |loadvec| ==> loadvec[i] != loadvec[j]
    }

    ghost function View(): Pool
      reads this`loadvec, this`next, this`dispatch, loadvec
    {
      var ls := loadvec;
      Pool(seq(|ls|, i requires 0 <= i < |ls| reads ls => ls[i].View()), next, dispatch)
    }

    ghost function Control(): Control
      reads this
    {
      PoolModel.Control(tnum, minTnum, maxTnum, timesec)
    }

    constructor (base: EventLoop, dispatch: bool)
      ensures Valid() && View() == Pool([], 0, dispatch) && this.base == base
      ensures Control() == PoolModel.Control(0, 0, 0, 5)
    {
      this.base := base;
      loadvec := [];
      next, tnum, minTnum, maxTnum, timesec := 0, 0, 0, 0, 5;
      this.dispatch := dispatch;
    }

    /** create_pool with a given number of loops. */
    method CreatePool(n: nat, wakes: nat -> Event)
      requires Valid() && loadvec == []
      modifies this
      ensures Valid() && fresh(set l | l in loadvec)
      ensures View() == Pool(seq(n, i requires 0 <= i < n => Loop(1, [wakes(i)])), old(next), true)
      ensures Control() == PoolModel.Control(n, n, n * 2 - 1, old(timesec))
    {
      dispatch := true;
      tnum := n;
      maxTnum := tnum * 2 - 1;
      minTnum := tnum;
      var i := 0;
      while i < n
        invariant 0 <= i == |loadvec| <= n
        invariant forall j :: 0 <= j < i ==> fresh(loadvec[j]) && loadvec[j].View() == Loop(1, [wakes(j)])
        invariant forall j, k :: 0 <= j < k < i ==> loadvec[j] != loadvec[k]
        invariant tnum == minTnum == n && maxTnum == n * 2 - 1 && dispatch
        invariant next == old(next) && timesec == old(timesec)
      {
        var l := AppendLoop(wakes(i));
        i := i + 1;
      }
      assert View().loops == seq(n, i requires 0 <= i < n => Loop(1, [wakes(i)]));
    }

    method AppendLoop(wake: Event) returns (l: EventLoop)
      modifies this`loadvec
      ensures fresh(l) && l.View() == Loop(1, [wake]) && loadvec == old(loadvec) + [l]
    {
      l := new EventLoop(wake);
      loadvec := loadvec + [l];
    }

    /** The first of the loops with the least load. */
    ghost predicate LeastLoaded(ep: EventLoop)
      reads this`loadvec, loadvec
    {
      exists i :: 0 <= i < |loadvec| && ep == loadvec[i] && forall j :: 0 <= j < |loadvec| ==>
        if j < i then ep.load < loadvec[j].load else ep.load <= loadvec[j].load
    }

    lemma LeastLoadedAt(idx: nat)
      requires loadvec != [] && idx == LeastIdx(Loads(View().loops))
      ensures LeastLoaded(loadvec[idx])
    {
      var loads := Loads(View().loops);
      LeastIdxIsLeftmost(loads);
      assert forall j :: 0 <= j < |loadvec| ==> loads[j] == loadvec[j].load;
    }

    method GetMinLoad() returns (ep: EventLoop)
      requires Valid() && loadvec != []
      ensures ep == loadvec[LeastIdx(Loads(View().loops))]
      ensures LeastLoaded(ep)
    {
      ghost var loads := Loads(View().loops);
      assert |loads| == |loadvec| && loads[..1] == [loads[0]];
      var minLoad := loadvec[0].load;
      var idx := 0;
      var i := 1;
      while i < tnum
        invariant 1 <= i <= |loadvec|
        invariant idx == LeastIdx(loads[..i]) && minLoad == loads[idx]
      {
        var curLoad := loadvec[i].load;
        LeastStep(loads, i);
        if curLoad < minLoad {
          minLoad, idx := curLoad, i;
        }
        i := i + 1;
      }
      assert loads[..i] == loads;
      ep := loadvec[idx];
      LeastLoadedAt(idx);
    }

    method GetMaxIdx() returns (idx: nat)
      requires Valid() && loadvec != []
      ensures idx == MostIdx(Loads(View().loops))
    {
      ghost var loads := Loads(View().loops);
      assert |loads| == |loadvec| && loads[..1] == [loads[0]];
      var maxLoad := loadvec[0].load;
      idx := 0;
      var i := 1;
      while i < tnum
        invariant 1 <= i <= |loadvec|
        invariant idx == MostIdx(loads[..i]) && maxLoad == loads[idx]
      {
        var curLoad := loadvec[i].load;
        MostStep(loads, i);
        if curLoad > maxLoad {
          maxLoad, idx := curLoad, i;
        }
        i := i + 1;
      }
      assert loads[..i] == loads;
    }

    method EvDispatch() returns (ep: EventLoop)
      requires Valid()
      modifies this`next
      ensures loadvec == [] ==> ep == base && next == old(next)
      ensures loadvec != [] ==> ep == loadvec[Target(old(View()))]
      ensures loadvec != [] && dispatch ==> LeastLoaded(ep)
      ensures loadvec != [] && !dispatch ==> next == (old(next) + 1) % |loadvec| && ep == loadvec[next]
      ensures loadvec != [] ==> next == if dispatch then old(next) else Target(old(View()))
    {
      if tnum == 0 { return base; }
      if dispatch {
        ep := GetMinLoad();
      } else {
        next := (next + 1) % tnum;
        ep := loadvec[next];
      }
    }

    /** The loop body of the removal: one event is dispatched and registered. */
    method Dispatch(e: Event)
      requires Valid() && loadvec != []
      modifies this`next, loadvec
      ensures View() == Deliver(old(View()), e)
    {
      ghost var i := Target(View());
      var ep := EvDispatch();
      ep.AddEvent(e);
      assert View().loops == old(View().loops)[i := AddTo(old(View().loops[i]), e)];
    }

    /** Deletes the busiest loop.  Its counter is not reset while its events are dispatched
        again, and it is still in the vector, so some may come back to it. */
    method DelLoopDispatch()
      requires Valid() && loadvec != []
      modifies this`next, this`loadvec, this`tnum, loadvec
      ensures Valid() && View() == Removed(old(View()))
      ensures tnum == old(tnum) - 1
      ensures loadvec == TakeOut(old(loadvec), MostIdx(Loads(old(View()).loops)))
    {
      ghost var p := View();
      var idx := GetMaxIdx();
      var ep := loadvec[idx];
      var list := ep.GetAllEv([]);
      assert View() == Emptied(p, idx);
      DispatchAll(list);
      assert View() == Placed(p);
      EraseAt(idx);
    }

    method DispatchAll(list: seq<Event>)
      requires Valid() && loadvec != []
      modifies this`next, loadvec
      ensures View() == DeliverAll(old(View()), list)
    {
      var k := 0;
      while k < |list|
        invariant 0 <= k <= |list|
        invariant View() == DeliverAll(old(View()), list[..k])
      {
        assert list[..k + 1][..k] == list[..k];
        Dispatch(list[k]);
        k := k + 1;
      }
      assert list[..k] == list;
    }

    /** The last loop takes the victim's place in the vector. */
    method EraseAt(idx: nat)
      requires Valid() && idx < |loadvec|
      modifies this`loadvec, this`tnum
      ensures Valid() && tnum == old(tnum) - 1
      ensures loadvec == TakeOut(old(loadvec), idx)
      ensures View() == old(View()).(loops := TakeOut(old(View()).loops, idx))
    {
      ghost var loops := View().loops;
      var last := |loadvec| - 1;
      loadvec := loadvec[idx := loadvec[last]];
      loadvec := loadvec[..last];
      tnum := tnum - 1;
      assert View().loops == TakeOut(loops, idx);
    }

    method AddLoop(wake: Event)
      requires Valid()
      modifies this`loadvec, this`tnum
      ensures Valid() && tnum == old(tnum) + 1
      ensures View() == old(View()).(loops := old(View()).loops + [Loop(1, [wake])])
    {
      var l := new EventLoop(wake);
      loadvec := loadvec + [l];
      tnum := tnum + 1;
    }

    method GetScale() returns (scale: int)
      requires Valid() && loadvec != []
      ensures scale == Scale(Loads(View().loops), tnum)
    {
      ghost var loads := Loads(View().loops);
      var sum, i := 0, 0;
      while i < |loadvec|
        invariant 0 <= i <= |loadvec| && sum == Sum(loads[..i])
      {
        var load := loadvec[i].load;
        assert loads[..i + 1][..i] == loads[..i];
        sum := sum + load;
        i := i + 1;
      }
      assert loads[..i] == loads;
      if sum == 0 { return 0; }
      var avgScale := TruncDiv(sum, tnum);
      return TruncDiv(avgScale, sum) * 100;
    }

    /** One round of the controller's loop, after its sleep. */
    method AdjustRound(wake: Event)
      requires Valid() && loadvec != []
      modifies this`next, this`loadvec, this`tnum, this`timesec, loadvec
      ensures Valid()
      ensures Control() == Round(old(Control()), Loads(old(View()).loops))
      ensures tnum < old(tnum) ==> View() == Removed(old(View()))
      ensures tnum == old(tnum) ==> View() == old(View())
      ensures tnum > old(tnum) ==> View() == old(View()).(loops := old(View()).loops + [Loop(1, [wake])])
    {
      if minTnum < tnum < maxTnum {
        var scale := GetScale();
        if scale < SCALE_MIN {
          DelLoopDispatch();
          timesec := timesec + COOLSEC;
        } else if scale > SCALE_MAX {
          AddLoop(wake);
          timesec := timesec - COOLSEC;
        }
      }
      KeepDelay();
    }

    method KeepDelay()
      modifies this`timesec
      ensures timesec == Max(old(timesec), ADJUST_TIMEOUT_SEC)
    {
      if timesec < ADJUST_TIMEOUT_SEC { timesec := ADJUST_TIMEOUT_SEC; }
    }
  }
}
