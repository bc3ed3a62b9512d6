/**
 The fixed-size ring buffer, as one thread sees it.

 `RingQueue` says what a pair of masked indices into an array stands for; `RingBuffer`
 is the array with its two indices, operation by operation.  The interleavings of a
 producer and a consumer are the subject of `RingProtocol`.
 */
module RingQueue {
  import opened PowersOfTwo

  /** The index update of the source: add, then mask with capacity - 1. */
  function Masked(i: nat, cap: nat): nat
    requires cap > 0
  {
    And(i, cap - 1)
  }

  function Succ(i: nat, cap: nat): nat {
    if i + 1 == cap then 0 else i + 1
  }

  /** The branch on the two indices taken by `size`. */
  function Distance(tail: nat, head: nat, cap: nat): nat
    requires tail < cap
  {
    if head >= tail then head - tail else cap - tail + head
  }

  /** The queued items: read at `tail`, step, and stop on reaching `head`. */
  function Walk<T>(slots: seq<T>, tail: nat, head: nat): seq<T>
    requires tail < |slots| && head < |slots|
    decreases Distance(tail, head, |slots|)
  {
    if tail == head then [] else [slots[tail]] + Walk(slots, Succ(tail, |slots|), head)
  }

  lemma MaskedSucc(i: nat, cap: nat)
    requires IsPower(cap) && i < cap
    ensures Masked(i + 1, cap) == Succ(i, cap) == (i + 1) % cap
  {
    var k: nat :| cap == Pow2(k);
    MaskIsMod(i + 1, k);
    SmallRemainder(i + 1, cap);
  }

  /** Walking round the ring is the same as taking one or two slices of the array. */
  lemma {:induction false} WalkIsSlices<T>(slots: seq<T>, tail: nat, head: nat)
    requires tail < |slots| && head < |slots|
    ensures Walk(slots, tail, head) ==
            if tail <= head then slots[tail..head] else slots[tail..] + slots[..head]
    decreases Distance(tail, head, |slots|)
  {
    if tail != head {
      WalkIsSlices(slots, Succ(tail, |slots|), head);
      if tail < head {
        assert slots[tail..head] == [slots[tail]] + slots[tail + 1..head];
      } else {
        assert slots[tail..] == [slots[tail]] + slots[tail + 1..];
        if tail + 1 == |slots| { assert slots[tail + 1..] == []; }
      }
    }
  }

  lemma WalkLength<T>(slots: seq<T>, tail: nat, head: nat)
    requires tail < |slots| && head < |slots|
    ensures |Walk(slots, tail, head)| == Distance(tail, head, |slots|) < |slots|
  {
    WalkIsSlices(slots, tail, head);
  }

  lemma {:induction false} WalkExtends<T>(slots: seq<T>, tail: nat, head: nat, item: T)
    requires tail < |slots| && head < |slots|
    requires Succ(head, |slots|) != tail
    ensures Walk(slots[head := item], tail, Succ(head, |slots|)) == Walk(slots, tail, head) + [item]
    decreases Distance(tail, head, |slots|)
  {
    if tail != head { WalkExtends(slots, Succ(tail, |slots|), head, item); }
  }

  /** Only the slots between the two indices matter. */
  lemma WalkLocal<T>(a: seq<T>, b: seq<T>, tail: nat, head: nat)
    requires |a| == |b| && tail < |a| && head < |a|
    requires forall i :: 0 <= i < |a| && a[i] != b[i] ==>
      if tail <= head then i < tail || head <= i else head <= i < tail
    ensures Walk(a, tail, head) == Walk(b, tail, head)
  {
    WalkIsSlices(a, tail, head);
    WalkIsSlices(b, tail, head);
  }
}

module RingBuffers {
  import opened Division
  import opened PowersOfTwo
  import opened RingQueue

  class RingBuffer<T(0)> {
    var head: nat
    var tail: nat
    var capacity: nat
    var buffer: array<T>

    ghost predicate Valid()
      reads this
    {
      IsPower(capacity) && buffer.Length == capacity && head < capacity && tail < capacity
    }

    ghost function Contents(): seq<T>
      requires Valid()
      reads this, buffer
    {
      Walk(buffer[..], tail, head)
    }

    constructor (size: nat)
      requires size <= Pow2(WORD_BITS - 1)
      ensures Valid() && fresh(buffer)
      ensures Contents() == [] && head == tail == 0
      ensures capacity == AdjSize(size) >= size
    {
      head, tail := 0, 0;
      capacity := AdjSize(size);
      buffer := new T[AdjSize(size)];
      new;
      Pow2Increases(WORD_BITS - 1, WORD_BITS);
      AdjSizeSettles(size);
      IsPowTwoExact(capacity);
    }

    /** Fails exactly when capacity - 1 items are held; one slot always stays free. */
    method Push(item: T) returns (ok: bool)
      requires Valid()
      modifies this`head, buffer
      ensures Valid()
      ensures ok == (|old(Contents())| < capacity - 1)
      ensures Contents() == if ok then old(Contents()) + [item] else old(Contents())
    {
      MaskedSucc(head, capacity);
      WalkLength(buffer[..], tail, head);
      var nhead := Masked(head + 1, capacity);
      if nhead == tail { return false; }
      WalkExtends(buffer[..], tail, head, item);
      buffer[head] := item;
      head := nhead;
      return true;
    }

    method Pop() returns (item: T, ok: bool)
      requires Valid()
      modifies this`tail
      ensures Valid()
      ensures ok == (old(Contents()) != [])
      ensures ok ==> [item] + Contents() == old(Contents())
      ensures !ok ==> Contents() == []
    {
      MaskedSucc(tail, capacity);
      item := *;
      if tail == head { return item, false; }
      item := buffer[tail];
      tail := Masked(tail + 1, capacity);
      return item, true;
    }

    /** As `Pop`, but the slot it moved from is left with an unspecified value. */
    method PopMove() returns (item: T, ok: bool)
      requires Valid()
      modifies this`tail, buffer
      ensures Valid()
      ensures ok == (old(Contents()) != [])
      ensures ok ==> [item] + Contents() == old(Contents())
      ensures !ok ==> Contents() == []
    {
      MaskedSucc(tail, capacity);
      item := *;
      if tail == head { return item, false; }
      item := buffer[tail];
      buffer[tail] := *;
      tail := Masked(tail + 1, capacity);
      WalkLocal(buffer[..], old(buffer[..]), tail, head);
      return item, true;
    }

    function Empty(): (r: bool)
      requires Valid()
      reads this, buffer
      ensures r == (Contents() == [])
    {
      head == tail
    }

    function Full(): (r: bool)
      requires Valid()
      reads this, buffer
      ensures r == (|Contents()| == capacity - 1)
    {
      MaskedSucc(head, capacity);
      WalkLength(buffer[..], tail, head);
      Masked(head + 1, capacity) == tail
    }

    function Size(): (n: nat)
      requires Valid()
      reads this, buffer
      ensures n == |Contents()|
    {
      WalkLength(buffer[..], tail, head);
      if head >= tail then head - tail else capacity - tail + head
    }

    /** Moves slots `lo` up to `hi` to the end of a list, left to right. */
    method AppendRange(list: seq<T>, lo: nat, hi: nat) returns (out: seq<T>)
      requires lo <= hi <= buffer.Length
      modifies buffer
      ensures out == list + old(buffer[lo..hi])
      ensures buffer[..lo] == old(buffer[..lo])
    {
      out := list;
      var i := lo;
      while i < hi
        invariant lo <= i <= hi
        invariant out == list + old(buffer[lo..i])
        invariant forall j :: 0 <= j < buffer.Length && !(lo <= j < i) ==> buffer[j] == old(buffer[j])
      {
        out := out + [buffer[i]];
        buffer[i] := *;
        i := i + 1;
      }
    }

    /** The wrapped case: from `t` to the end of the array, then from its start up to `h`. */
    method AppendWrapped(list: seq<T>, t: nat, h: nat) returns (out: seq<T>)
      requires h <= t <= buffer.Length
      modifies buffer
      ensures out == list + (old(buffer[t..]) + old(buffer[..h]))
    {
      ghost var upper, lower := buffer[t..], buffer[..h];
      out := AppendRange(list, t, buffer.Length);
      assert buffer[..h] == buffer[..t][..h] == lower;
      out := AppendRange(out, 0, h);
      assert out == (list + upper) + lower;
    }

    /** Moves every item, oldest first, to the end of the list; the wrap takes two loops. */
    method SwapToList(list: seq<T>) returns (out: seq<T>)
      requires Valid()
      modifies this`tail, buffer
      ensures Valid()
      ensures out == list + old(Contents())
      ensures Contents() == []
    {
      out := list;
      var h, t := head, tail;
      WalkIsSlices(buffer[..], t, h);
      if t == h { return; }
      if t < h {
        out := AppendRange(out, t, h);
      } else {
        out := AppendWrapped(out, t, h);
      }
      tail := h;
    }

    /** As `SwapToList`, with room reserved first for exactly the items to come. */
    method SwapToVector(vec: seq<T>) returns (out: seq<T>, reserved: nat)
      requires Valid()
      modifies this`tail, buffer
      ensures Valid()
      ensures out == vec + old(Contents())
      ensures reserved == |vec| + |old(Contents())|
      ensures Contents() == []
    {
      out, reserved := vec, |vec|;
      var h, t := head, tail;
      WalkIsSlices(buffer[..], t, h);
      if t == h { return; }
      var size := (h + capacity - t) % capacity;
      ReserveIsExact(t, h, capacity);
      reserved := |vec| + size;
      if t < h {
        out := AppendRange(out, t, h);
      } else {
        out := AppendWrapped(out, t, h);
      }
      tail := h;
    }

    method SwapToNewList() returns (out: seq<T>)
      requires Valid()
      modifies this`tail, buffer
      ensures Valid()
      ensures out == old(Contents()) && Contents() == []
    {
      out := SwapToList([]);
    }

    method SwapToNewVector() returns (out: seq<T>)
      requires Valid()
      modifies this`tail, buffer
      ensures Valid()
      ensures out == old(Contents()) && Contents() == []
    {
      var reserved;
      out, reserved := SwapToVector([]);
    }

    /** Writes this ring's indices only: both arrays change hands, but `other` keeps its own
        indices and neither capacity moves.  With equal capacities this ring gets the other's
        contents, and the other sees this ring's array through its own window. */
    method Swap(other: RingBuffer<T>)
      requires Valid() && other.Valid()
      modifies this`head, this`tail, this`buffer, other`buffer
      ensures head == old(other.head) && tail == old(other.tail)
      ensures buffer == old(other.buffer) && other.buffer == old(buffer)
      ensures Valid() && other.Valid() <==> capacity == other.capacity
      ensures capacity == other.capacity ==>
        Contents() == old(other.Contents()) && other.Contents() == Walk(old(buffer[..]), other.tail, other.head)
    {
      head := other.head;
      tail := other.tail;
      buffer, other.buffer := other.buffer, buffer;
    }
  }

  lemma ReserveIsExact(tail: nat, head: nat, cap: nat)
    requires tail < cap && head < cap
    ensures (head + cap - tail) % cap == Distance(tail, head, cap)
  {
    if head >= tail {
      RemainderUnique(head + cap - tail, cap, 1, head - tail);
    } else {
      RemainderUnique(head + cap - tail, cap, 0, head + cap - tail);
    }
  }
}
