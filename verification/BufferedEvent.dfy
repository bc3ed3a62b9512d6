/**
 The buffered connection: `sendout`, `handle_write` and `handle_read`, with the kernel's
 answers to write, writev and readv as parameters.
 */
module OutputStream {
  import opened ByteQueue

  /** What the kernel answers to write or writev: a count, "try again", or another error. */
  datatype Reply = Wrote(n: nat) | Again | Broken

  /** Bytes on the wire, bytes waiting in the output buffer, and whether EPOLLOUT is enabled. */
  datatype Conn = Conn(wire: seq<byte>, pending: seq<byte>, armed: bool)

  datatype Call =
    | Send(data: seq<byte>, before: byte, w: Reply, v: Reply) // sendout; `before` lies in memory just ahead of data
    | Writable(sent: nat)                                     // handle_write, which got rid of `sent` bytes

  /** sendout tries a plain write first. */
  predicate Direct(c: Conn) {
    !c.armed && c.pending == []
  }

  predicate LegalCall(c: Conn, call: Call) {
    match call
    case Send(data, _, w, v) => (w.Wrote? ==> w.n <= |data|) && (v.Wrote? ==> v.n <= |c.pending| + |data|)
    case Writable(sent) => sent <= |c.pending|
  }

  /** One writev of the waiting bytes followed by `msg`; after "try again" it is `fallback`
      that goes into the buffer. */
  function Gather(c: Conn, msg: seq<byte>, fallback: seq<byte>, v: Reply): Conn
    requires v.Wrote? ==> v.n <= |c.pending| + |msg|
  {
    match v
    case Again => Conn(c.wire, c.pending + fallback, true)
    case Broken => c
    case Wrote(n) =>
      var all := c.pending + msg;
      Conn(c.wire + all[..n], all[n..], c.armed || n < |all|)
  }

  /** What that comes to: the bytes written, the bytes that wait, and EPOLLOUT, which is enabled
      as soon as bytes are kept. */
  lemma GatherFields(c: Conn, msg: seq<byte>, data: seq<byte>, v: Reply)
    requires v.Wrote? ==> v.n <= |c.pending| + |msg|
    requires data != []
    ensures var g := Gather(c, msg, data, v);
      && g.wire == c.wire + (if v.Wrote? then (c.pending + msg)[..v.n] else [])
      && g.pending == (if v.Wrote? then (c.pending + msg)[v.n..] else if v.Again? then c.pending + data else c.pending)
      && g.armed == (c.armed || (!v.Broken? && g.pending != []))
  {
  }

  function Shifted(before: byte, data: seq<byte>): seq<byte> {
    if data == [] then [] else [before] + data[..|data| - 1]
  }

  function Sent(c: Conn, data: seq<byte>, before: byte, w: Reply, v: Reply): Conn
    requires LegalCall(c, Send(data, before, w, v))
  {
    if Direct(c) && w.Wrote? then c.(wire := c.wire + data[..w.n])
    else if data == [] || (Direct(c) && w.Broken?) then c
    else if Direct(c) then Gather(c, Shifted(before, data), data, v)
    else Gather(c, data, data, v)
  }

  function Flushed(c: Conn, sent: nat): Conn
    requires sent <= |c.pending|
  {
    Conn(c.wire + c.pending[..sent], c.pending[sent..], c.armed && sent < |c.pending|)
  }

  function Next(c: Conn, call: Call): Conn
    requires LegalCall(c, call)
  {
    match call
    case Send(data, before, w, v) => Sent(c, data, before, w, v)
    case Writable(sent) => Flushed(c, sent)
  }

  // The byte stream

  function Stream(c: Conn): seq<byte> {
    c.wire + c.pending
  }

  /** sendout reported an error: the message counts as not accepted. */
  predicate Refused(c: Conn, call: Call) {
    call.Send? && call.data != [] && (if Direct(c) && !call.w.Again? then call.w.Broken? else call.v.Broken?)
  }

  function Accepted(c: Conn, call: Call): seq<byte> {
    if call.Writable? || Refused(c, call) then [] else call.data
  }

  /** The direct write took the whole message, or the writev after its "try again" took
      nothing either (or the stray byte makes no difference). */
  predicate Faithful(c: Conn, call: Call) {
    call.Send? && Direct(c) ==>
      match call.w
      case Wrote(n) => n == |call.data|
      case Broken => true
      case Again => call.v.Wrote? ==> forall i :: 0 <= i < |call.data| ==> call.data[i] == call.before
  }

  /** What a caller can rely on without knowing the kernel's answers: a call is faithful for
      all of them exactly if it has nothing to send or does not write directly. */
  lemma FaithfulForAllAnswers(c: Conn, data: seq<byte>, before: byte)
    ensures (forall w, v :: LegalCall(c, Send(data, before, w, v)) ==> Faithful(c, Send(data, before, w, v))) <==>
            !Direct(c) || data == []
  {
    if Direct(c) && data != [] {
      var short := Send(data, before, Wrote(0), Again);
      assert LegalCall(c, short) && !Faithful(c, short);
    }
  }

  lemma ShiftedSame(before: byte, data: seq<byte>)
    ensures Shifted(before, data) == data <==> forall i :: 0 <= i < |data| ==> data[i] == before
  {
    if Shifted(before, data) == data {
      forall i | 0 <= i < |data| ensures data[i] == before { SameAsFirst(before, data, i); }
    }
  }

  lemma {:induction false} SameAsFirst(before: byte, data: seq<byte>, i: nat)
    requires Shifted(before, data) == data && i < |data|
    ensures data[i] == before
    decreases i
  {
    assert data[i] == Shifted(before, data)[i];
    if i > 0 { SameAsFirst(before, data, i - 1); }
  }

  lemma GatherAdds(c: Conn, msg: seq<byte>, data: seq<byte>, v: Reply)
    requires !v.Broken? && (v.Wrote? ==> v.n <= |c.pending| + |msg|)
    ensures Stream(Gather(c, msg, data, v)) == Stream(c) + (if v.Wrote? then msg else data)
  {
    if v.Wrote? {
      var all := c.pending + msg;
      assert all == all[..v.n] + all[v.n..];
      assert Stream(Gather(c, msg, data, v)) == c.wire + all;
    }
  }

  /** What one call really adds to the stream: never more bytes than were accepted, and
      exactly those accepted if and only if the call is faithful. */
  lemma CallAdds(c: Conn, call: Call) returns (added: seq<byte>)
    requires LegalCall(c, call)
    ensures Stream(Next(c, call)) == Stream(c) + added
    ensures |added| <= |Accepted(c, call)|
    ensures added == Accepted(c, call) <==> Faithful(c, call)
  {
    match call
    case Writable(sent) =>
      assert c.pending == c.pending[..sent] + c.pending[sent..];
      added := [];
    case Send(data, before, w, v) =>
      if Direct(c) && w.Wrote? {
        added := data[..w.n];
      } else if data == [] || Refused(c, call) {
        added := [];
      } else {
        var msg := if Direct(c) then Shifted(before, data) else data;
        ShiftedSame(before, data);
        GatherAdds(c, msg, data, v);
        added := if v.Wrote? then msg else data;
      }
  }

  ghost predicate LegalRun(c: Conn, calls: seq<Call>)
    decreases |calls|
  {
    calls == [] || (LegalCall(c, calls[0]) && LegalRun(Next(c, calls[0]), calls[1..]))
  }

  ghost function Run(c: Conn, calls: seq<Call>): Conn
    requires LegalRun(c, calls)
    decreases |calls|
  {
    if calls == [] then c else Run(Next(c, calls[0]), calls[1..])
  }

  ghost function AllAccepted(c: Conn, calls: seq<Call>): seq<byte>
    requires LegalRun(c, calls)
    decreases |calls|
  {
    if calls == [] then [] else Accepted(c, calls[0]) + AllAccepted(Next(c, calls[0]), calls[1..])
  }

  ghost predicate AllFaithful(c: Conn, calls: seq<Call>)
    requires LegalRun(c, calls)
    decreases |calls|
  {
    calls == [] || (Faithful(c, calls[0]) && AllFaithful(Next(c, calls[0]), calls[1..]))
  }

  /** `taken` is what was accepted before: a stream that has gone wrong never comes right. */
  lemma {:induction false} StreamFollows(c: Conn, taken: seq<byte>, calls: seq<Call>)
    requires LegalRun(c, calls) && |Stream(c)| <= |taken|
    ensures |Stream(Run(c, calls))| <= |taken + AllAccepted(c, calls)|
    ensures Stream(Run(c, calls)) == taken + AllAccepted(c, calls) <==> Stream(c) == taken && AllFaithful(c, calls)
    decreases |calls|
  {
    if calls != [] {
      var added := CallAdds(c, calls[0]);
      var c', more := Next(c, calls[0]), Accepted(c, calls[0]);
      StreamFollows(c', taken + more, calls[1..]);
      assert taken + AllAccepted(c, calls) == (taken + more) + AllAccepted(c', calls[1..]);
      AppendInjective(Stream(c), added, taken, more);
    }
  }

  lemma AppendInjective(a: seq<byte>, b: seq<byte>, x: seq<byte>, y: seq<byte>)
    requires |a| <= |x| && |b| <= |y|
    ensures a + b == x + y <==> a == x && b == y
  {
    if a + b == x + y {
      assert |a| == |x|;
      assert a == (a + b)[..|a|] && b == (a + b)[|a|..];
      assert x == (x + y)[..|a|] && y == (x + y)[|a|..];
    }
  }

  const FRESH: Conn := Conn([], [], false)

  /** Over any run from a fresh connection, under any kernel answers: the bytes on the wire
      followed by the bytes waiting are the bytes accepted, in order, if and only if every
      call was faithful. */
  lemma StreamIsKeptExactlyWhenFaithful(calls: seq<Call>)
    requires LegalRun(FRESH, calls)
    ensures Stream(Run(FRESH, calls)) == AllAccepted(FRESH, calls) <==> AllFaithful(FRESH, calls)
  {
    StreamFollows(FRESH, [], calls);
    assert [] + AllAccepted(FRESH, calls) == AllAccepted(FRESH, calls);
  }

  /** The two ways to lose bytes, each with a concrete call. */
  lemma BytesCanBeLost()
    ensures Next(FRESH, Send([1, 2, 3], 9, Wrote(1), Again)) == Conn([1], [], false)
    ensures Next(FRESH, Send([1, 2, 3], 9, Again, Wrote(2))) == Conn([9, 1], [2], true)
  {
    assert Shifted(9, [1, 2, 3]) == [9, 1, 2];
    assert [] + [9, 1, 2] == [9, 1, 2];
  }

  // Waiting output and EPOLLOUT

  /** Bytes waiting imply that the next writable event will be delivered. */
  predicate NotStranded(c: Conn) {
    c.pending != [] ==> c.armed
  }

  lemma {:induction false} OutputNeverStranded(c: Conn, calls: seq<Call>)
    requires NotStranded(c) && LegalRun(c, calls)
    ensures NotStranded(Run(c, calls))
    decreases |calls|
  {
    if calls != [] {
      OutputNeverStranded(Next(c, calls[0]), calls[1..]);
    }
  }
}

module BufferedEvents {
  import opened Basics
  import opened ByteQueue
  import opened ByteBuffers
  import opened OutputStream

  /** How a run of reads ends. */
  datatype ReadEnd = WouldBlock | EndOfFile | ReadError

  class BufferedEvent {
    const inbuff: ByteBuffer
    const outbuff: ByteBuffer
    var armed: bool       // EPOLLOUT in the event mask
    var hasWriteCb: bool
    var hasReadCb: bool
    var hasEventCb: bool
    var writeCalls: nat   // how often each callback has run
    var readCalls: nat
    var eventCalls: nat
    ghost var wire: seq<byte>

    ghost predicate Valid()
      reads inbuff, outbuff, inbuff.data, outbuff.data
    {
      inbuff != outbuff && inbuff.data != outbuff.data && inbuff.Valid() && outbuff.Valid()
    }

    ghost function View(): Conn
      reads this, outbuff
    {
      Conn(wire, outbuff.queue.unread, armed)
    }

    constructor (writeCb: bool, readCb: bool, eventCb: bool)
      ensures Valid() && fresh(inbuff) && fresh(outbuff) && fresh(inbuff.data) && fresh(outbuff.data)
      ensures View() == OutputStream.FRESH && inbuff.queue == EMPTY
      ensures hasWriteCb == writeCb && hasReadCb == readCb && hasEventCb == eventCb
      ensures writeCalls == readCalls == eventCalls == 0
    {
      inbuff := new ByteBuffer();
      outbuff := new ByteBuffer();
      armed := false;
      hasWriteCb, hasReadCb, hasEventCb := writeCb, readCb, eventCb;
      writeCalls, readCalls, eventCalls := 0, 0, 0;
      wire := [];
    }

    /** The writev of sendout: the waiting bytes, then `msg`.  Says whether the call is over,
        and if the waiting bytes are all gone, how much of `msg` went with them.  What is then
        left to do is to keep the rest of `msg`, or else `data`. */
    method WriteGather(msg: seq<byte>, ghost data: seq<byte>, v: Reply) returns (over: bool, past: bool, diff: nat)
      requires Valid() && (v.Wrote? ==> v.n <= |View().pending| + |msg|)
      requires msg == data || View().pending == []
      modifies this`writeCalls, this`wire, outbuff
      ensures Valid() && outbuff.data == old(outbuff.data) && diff <= |msg|
      ensures Gather(old(View()), msg, data, v) ==
        if over then View() else Conn(wire, View().pending + (if past then msg[diff..] else data), true)
      ensures writeCalls == old(writeCalls) +
        (if hasWriteCb && v.Wrote? && v.n == |old(View()).pending| + |msg| then 1 else 0)
    {
      var wbytes := outbuff.ReadBytes();
      over, past, diff := v.Broken?, false, 0;
      if v.Wrote? {
        GatherCases(View(), msg, data, v.n);
        wire := wire + (outbuff.Peek() + msg)[..v.n];
        if v.n < wbytes + |msg| {
          if v.n < wbytes {
            outbuff.Retrieve(v.n);
          } else {
            outbuff.Reset();
            past, diff := true, v.n - wbytes;
          }
        } else {
          outbuff.Reset();
          if hasWriteCb { writeCalls := writeCalls + 1; }
          over := true;
        }
      }
    }

    /** What could not be sent waits in the buffer, and EPOLLOUT is enabled for it. */
    method Keep(rest: seq<byte>)
      requires Valid()
      modifies this`armed, outbuff, outbuff.data
      ensures Valid() && armed && wire == old(wire)
      ensures outbuff.queue.unread == old(outbuff.queue.unread) + rest
    {
      outbuff.Append(rest);
      if !armed { armed := true; }
    }

    /** The second half of sendout, entered with n at 0, or at -1 after a direct write that
        said "try again".  The message and the byte ahead of it are addressed as the source
        does: `p` is the position of the data pointer. */
    method SendGathered(data: seq<byte>, before: byte, n: int, v: Reply)
      requires Valid() && data != [] && (n == 0 || (n == -1 && View().pending == []))
      requires v.Wrote? ==> v.n <= |View().pending| + |data|
      modifies this`armed, this`writeCalls, this`wire, outbuff, outbuff.data
      ensures Valid()
      ensures View() == Gather(old(View()), if n == -1 then Shifted(before, data) else data, data, v)
      ensures writeCalls == old(writeCalls) +
        (if hasWriteCb && v.Wrote? && v.n == |old(View()).pending| + |data| then 1 else 0)
    {
      var p: int := 1;
      var relen: int := |data|;
      var msg := Memory(before, data, p + n, relen);
      ghost var spec := if n == -1 then Shifted(before, data) else data;
      assert msg == spec by { MessageAt(before, data, n); }
      var over, past, diff := WriteGather(msg, data, v);
      if over { return; }
      if past {
        relen := relen - diff;
        p := p + n + diff;
      }
      var rest := Memory(before, data, p, relen);
      assert rest == if past then spec[diff..] else data by { RestAt(before, data, n, diff); }
      Keep(rest);
    }

    /** `w` and `v` are the kernel's answers, should the write and the writev be reached. */
    method SendOut(data: seq<byte>, before: byte, w: Reply, v: Reply)
      requires Valid() && LegalCall(View(), Send(data, before, w, v))
      modifies this`armed, this`writeCalls, this`wire, outbuff, outbuff.data
      ensures Valid()
      ensures View() == Next(old(View()), Send(data, before, w, v))
      // The direct write, tried with EPOLLOUT off and nothing waiting.
      ensures var direct, u := !old(armed) && old(outbuff.queue.unread) == [], old(outbuff.queue.unread);
        direct && w.Wrote? ==>
          wire == old(wire) + data[..w.n] && outbuff.queue.unread == u && armed == old(armed)
      // Neither of the two writes took anything, and nothing is kept.
      ensures var direct, u := !old(armed) && old(outbuff.queue.unread) == [], old(outbuff.queue.unread);
        (direct && w.Broken?) || (data == [] && !(direct && w.Wrote?)) ==>
          wire == old(wire) && outbuff.queue.unread == u && armed == old(armed)
      // The writev of the waiting bytes and the message, which starts one byte early after EAGAIN.
      ensures var direct, u := !old(armed) && old(outbuff.queue.unread) == [], old(outbuff.queue.unread);
        data != [] && (direct ==> w.Again?) ==>
          var msg := if direct then [before] + data[..|data| - 1] else data;
          && wire == old(wire) + (if v.Wrote? then (u + msg)[..v.n] else [])
          && outbuff.queue.unread == (if v.Wrote? then (u + msg)[v.n..] else if v.Again? then u + data else u)
          && armed == (old(armed) || (!v.Broken? && outbuff.queue.unread != []))
      ensures (old(outbuff.queue.unread) != [] ==> old(armed)) ==>
        armed == (old(armed) || outbuff.queue.unread != [])
      ensures var direct, u := !old(armed) && old(outbuff.queue.unread) == [], old(outbuff.queue.unread);
        writeCalls == old(writeCalls) +
          (if hasWriteCb && (if direct && w.Wrote? then true
                             else data != [] && (direct ==> w.Again?) && v.Wrote? && v.n == |u| + |data|)
           then 1 else 0)
    {
      var n: int := 0;
      var relen: int := |data|;
      var waiting := outbuff.ReadBytes();
      if !armed && waiting == 0 {
        match w
        case Wrote(count) =>
          n := count;
          wire := wire + data[..count];
          relen := relen - |data|;
          if relen == 0 && hasWriteCb {
            writeCalls := writeCalls + 1;
            return;
          }
        case Broken =>
          return;
        case Again =>
          n := -1;
      }
      if relen > 0 {
        SendGathered(data, before, n, v);
      }
    }

    /** Of the bytes that were waiting, `gone` have been put onto the wire after `before`. */
    ghost predicate HasSent(pending: seq<byte>, gone: seq<byte>, before: seq<byte>)
      reads this`wire, inbuff, outbuff, inbuff.data, outbuff.data
    {
      Valid() && gone + outbuff.queue.unread == pending && wire == before + gone
    }

    /** One round of the loop: a write of all that waits, and what follows its answer. */
    method WriteOnce(reply: Reply, ghost pending: seq<byte>, ghost gone: seq<byte>, ghost before: seq<byte>)
      returns (n: int, ghost more: seq<byte>)
      requires HasSent(pending, gone, before)
      modifies this`wire, this`writeCalls, this`eventCalls, outbuff
      ensures HasSent(pending, gone + more, before) && outbuff.data == old(outbuff.data)
      ensures if reply.Wrote? then n == |more| == Min(reply.n, |pending| - |gone|) else n == -1 && more == []
      ensures writeCalls == old(writeCalls) + (if n > 0 && hasWriteCb then 1 else 0)
      ensures eventCalls == old(eventCalls) + (if reply.Broken? && hasEventCb then 1 else 0)
    {
      if !reply.Wrote? {
        if reply.Broken? && hasEventCb { eventCalls := eventCalls + 1; }
        assert gone + [] == gone;
        return -1, [];
      }
      var bytes := outbuff.Peek();
      n := Min(reply.n, |bytes|);
      more := bytes[..n];
      SplitOnce(gone, bytes, n, before);
      wire := wire + bytes[..n];
      if n > 0 {
        outbuff.Retrieve(n);
        if hasWriteCb { writeCalls := writeCalls + 1; }
      }
    }

    /** Writes until the buffer is empty or the kernel refuses.  Of the i-th call it takes
        `replies(i)` bytes or all that is offered; only finitely many calls take nothing. */
    method WriteLoop(replies: nat -> Reply, ghost zeros: nat)
      returns (sent: nat, used: nat, ghost gone: seq<byte>)
      requires Valid()
      requires forall i: nat :: i >= zeros && replies(i).Wrote? ==> replies(i).n > 0
      modifies this`writeCalls, this`eventCalls, this`wire, outbuff
      ensures Answered(replies, used, |old(outbuff.queue.unread)|, sent)
      ensures HasSent(old(outbuff.queue.unread), gone, old(wire)) && |gone| == sent
      ensures writeCalls == old(writeCalls) + (if hasWriteCb then Productive(replies, used) else 0)
      ensures eventCalls == old(eventCalls) +
        (if used > 0 && replies(used - 1).Broken? && hasEventCb then 1 else 0)
    {
      sent, used, gone := 0, 0, [];
      ghost var pending := outbuff.queue.unread;
      while outbuff.ReadBytes() > 0
        invariant HasSent(pending, gone, old(wire)) && outbuff.data == old(outbuff.data)
        invariant sent == |gone| == Min(|pending|, Reported(replies, used))
        invariant forall i :: 0 <= i < used ==> replies(i).Wrote?
        invariant used > 0 ==> Reported(replies, used - 1) < |pending|
        invariant writeCalls == old(writeCalls) + (if hasWriteCb then Productive(replies, used) else 0)
        invariant eventCalls == old(eventCalls)
        decreases |pending| - sent, zeros - used
      {
        ghost var more;
        var n;
        n, more := WriteOnce(replies(used), pending, gone, old(wire));
        used, gone := used + 1, gone + more;
        if n < 0 { return; }
        sent := sent + n;
      }
    }

    /** The loop, and then EPOLLOUT is disabled if nothing waits any more. */
    method HandleWrite(replies: nat -> Reply, ghost zeros: nat) returns (sent: nat, used: nat)
      requires Valid()
      requires forall i: nat :: i >= zeros && replies(i).Wrote? ==> replies(i).n > 0
      modifies this`armed, this`writeCalls, this`eventCalls, this`wire, outbuff
      ensures Valid()
      ensures Answered(replies, used, |old(outbuff.queue.unread)|, sent)
      ensures sent <= |old(View()).pending| && View() == Next(old(View()), Writable(sent))
      ensures wire == old(wire) + old(outbuff.queue.unread)[..sent]
      ensures outbuff.queue.unread == old(outbuff.queue.unread)[sent..]
      ensures armed == (old(armed) && outbuff.queue.unread != [])
      ensures writeCalls == old(writeCalls) + (if hasWriteCb then Productive(replies, used) else 0)
      ensures eventCalls == old(eventCalls) +
        (if used > 0 && replies(used - 1).Broken? && hasEventCb then 1 else 0)
    {
      ghost var c, gone := View(), [];
      sent, used, gone := WriteLoop(replies, zeros);
      SplitAt(c, gone, outbuff.queue.unread);
      if outbuff.ReadBytes() == 0 { armed := false; }
    }

    /** One successful readv and the read callback, which takes out up to `take` bytes. */
    method ReadOnce(piece: seq<byte>, take: nat) returns (out: seq<byte>)
      requires Valid() && |piece| <= inbuff.Room()
      modifies this`readCalls, inbuff, inbuff.data
      ensures Valid() && (inbuff.data == old(inbuff.data) || fresh(inbuff.data))
      ensures out + inbuff.queue.unread == old(inbuff.queue.unread) + piece
      ensures readCalls == old(readCalls) + (if hasReadCb then 1 else 0)
      ensures !hasReadCb ==> out == []
    {
      out := [];
      Arrive(inbuff.queue, piece);
      var n, errnum := inbuff.ReadIov(Got(piece));
      if hasReadCb {
        TakeFront(inbuff.queue, take);
        readCalls := readCalls + 1;
        out := inbuff.Remove(take);
      }
    }

    /** Of what was unread and what has arrived since, `delivered` has gone to the callback. */
    ghost predicate HasRead(start: seq<byte>, incoming: seq<byte>, done: nat, delivered: seq<byte>)
      reads this`hasReadCb, inbuff, outbuff, inbuff.data, outbuff.data
    {
      && Valid() && done <= |incoming| && delivered + inbuff.queue.unread == start + incoming[..done]
      && (done == 0 || !hasReadCb ==> delivered == [])
    }

    /** The same for the next k bytes of all that arrives. */
    method ReadNext(incoming: seq<byte>, done: nat, k: nat, take: nat,
                    ghost delivered: seq<byte>, ghost start: seq<byte>) returns (out: seq<byte>)
      requires HasRead(start, incoming, done, delivered) && done + k <= |incoming| && 0 < k <= inbuff.Room()
      modifies this`readCalls, inbuff, inbuff.data
      ensures HasRead(start, incoming, done + k, delivered + out)
      ensures inbuff.data == old(inbuff.data) || fresh(inbuff.data)
      ensures readCalls == old(readCalls) + (if hasReadCb then 1 else 0)
    {
      ghost var unread := inbuff.queue.unread;
      out := ReadOnce(incoming[done..done + k], take);
      Delivered(delivered, out, unread, inbuff.queue.unread, start, incoming, done, k);
    }

    /** The loop: one piece after the other, until all that arrives has been read. */
    method ReadLoop(incoming: seq<byte>, cut: nat -> nat, takes: nat -> nat)
      returns (delivered: seq<byte>, pieces: seq<nat>)
      requires Valid()
      requires forall i: nat :: cut(i) > 0
      modifies this`readCalls, inbuff, inbuff.data
      ensures HasRead(old(inbuff.queue.unread), incoming, |incoming|, delivered)
      ensures Total(pieces) == |incoming| && CutUp(cut, pieces, |incoming|)
      ensures readCalls == old(readCalls) + (if hasReadCb then |pieces| else 0)
    {
      delivered, pieces := [], [];
      var done: nat := 0;
      ghost var start := inbuff.queue.unread;
      while done < |incoming|
        invariant HasRead(start, incoming, done, delivered)
        invariant inbuff.data == old(inbuff.data) || fresh(inbuff.data)
        invariant Total(pieces) == done && CutUp(cut, pieces, |incoming|)
        invariant readCalls == old(readCalls) + (if hasReadCb then |pieces| else 0)
      {
        var i := |pieces|;
        var k: nat := Min(Min(cut(i), inbuff.Room()), |incoming| - done);
        PieceFits(cut(i), inbuff.Room(), |incoming| - done);
        TotalSnoc(cut, pieces, k, |incoming|);
        var out := ReadNext(incoming, done, k, takes(i), delivered, start);
        delivered, pieces, done := delivered + out, pieces + [k], done + k;
      }
    }

    /** Reads until the kernel has nothing more.  `incoming` is what arrives meanwhile, cut
        by the kernel into pieces of any size that fits; after each piece the read callback
        takes out as many bytes as it likes. */
    method HandleRead(incoming: seq<byte>, cut: nat -> nat, takes: nat -> nat, end: ReadEnd)
      returns (delivered: seq<byte>, pieces: seq<nat>)
      requires Valid()
      requires forall i: nat :: cut(i) > 0
      modifies this`readCalls, this`eventCalls, inbuff, inbuff.data
      ensures Valid()
      ensures delivered + inbuff.queue.unread == old(inbuff.queue.unread) + incoming
      ensures Total(pieces) == |incoming| && CutUp(cut, pieces, |incoming|)
      ensures readCalls == old(readCalls) + (if hasReadCb then |pieces| else 0)
      ensures incoming == [] || !hasReadCb ==> delivered == []
      ensures eventCalls == old(eventCalls) + (if hasEventCb && end != WouldBlock then 1 else 0)
    {
      delivered, pieces := ReadLoop(incoming, cut, takes);
      assert incoming[..|incoming|] == incoming;
      if hasEventCb && end != WouldBlock { eventCalls := eventCalls + 1; }
    }
  }

  function Total(pieces: seq<nat>): nat {
    if pieces == [] then 0 else Total(pieces[..|pieces| - 1]) + pieces[|pieces| - 1]
  }

  /** Each piece is as large as the kernel cuts it, or as there is room for, or the last. */
  ghost predicate CutUp(cut: nat -> nat, pieces: seq<nat>, len: nat) {
    pieces == [] ||
    var i := |pieces| - 1;
    && CutUp(cut, pieces[..i], len)
    && Min(Min(cut(i), IOBUF), len - Total(pieces[..i])) <= pieces[i] <= cut(i)
  }

  lemma PieceFits(cut: nat, room: nat, left: nat)
    requires cut > 0 && left > 0 && room >= IOBUF
    ensures 0 < Min(Min(cut, room), left) <= cut
    ensures Min(Min(cut, IOBUF), left) <= Min(Min(cut, room), left) <= room
    ensures Min(Min(cut, room), left) <= left
  {
  }

  lemma TotalSnoc(cut: nat -> nat, pieces: seq<nat>, k: nat, len: nat)
    requires CutUp(cut, pieces, len)
    requires Min(Min(cut(|pieces|), IOBUF), len - Total(pieces)) <= k <= cut(|pieces|)
    ensures Total(pieces + [k]) == Total(pieces) + k && CutUp(cut, pieces + [k], len)
  {
    assert (pieces + [k])[..|pieces|] == pieces;
  }

  /** What the first `used` answers of write report as taken, all together. */
  function Reported(replies: nat -> Reply, used: nat): nat {
    if used == 0 then 0
    else Reported(replies, used - 1) + if replies(used - 1).Wrote? then replies(used - 1).n else 0
  }

  /** How many of them report that bytes were taken. */
  function Productive(replies: nat -> Reply, used: nat): nat {
    if used == 0 then 0
    else Productive(replies, used - 1) + if replies(used - 1).Wrote? && replies(used - 1).n > 0 then 1 else 0
  }

  /** A loop of writes has used these answers and no more: it went on for as long as they
      took bytes and some of the n bytes were left. */
  ghost predicate Answered(replies: nat -> Reply, used: nat, n: nat, sent: nat) {
    && sent == Min(n, Reported(replies, used))
    && (forall i :: 0 <= i < used - 1 ==> replies(i).Wrote?)
    && (used > 0 ==> Reported(replies, used - 1) < n)
    && (sent < n ==> used > 0 && !replies(used - 1).Wrote?)
  }

  lemma Delivered(a: seq<byte>, out: seq<byte>, u: seq<byte>, u': seq<byte>, start: seq<byte>,
                  incoming: seq<byte>, done: nat, k: nat)
    requires done + k <= |incoming|
    requires a + u == start + incoming[..done] && out + u' == u + incoming[done..done + k]
    ensures (a + out) + u' == start + incoming[..done + k]
  {
    assert incoming[..done + k] == incoming[..done] + incoming[done..done + k];
    calc {
      (a + out) + u';
      a + (out + u');
      a + (u + incoming[done..done + k]);
      (a + u) + incoming[done..done + k];
      start + incoming[..done] + incoming[done..done + k];
      start + (incoming[..done] + incoming[done..done + k]);
    }
  }

  /** The `len` bytes found at position p, of a message that starts at position 1. */
  function Memory(before: byte, data: seq<byte>, p: nat, len: nat): seq<byte>
    requires p + len <= 1 + |data|
  {
    ([before] + data)[p..p + len]
  }

  /** The bytes under the data pointer, and one byte earlier. */
  lemma MessageAt(before: byte, data: seq<byte>, n: int)
    requires n == 0 || n == -1
    ensures Memory(before, data, 1, |data|) == data
    ensures Memory(before, data, 1 + n, |data|) == if n == -1 then Shifted(before, data) else data
  {
    assert ([before] + data)[1..1 + |data|] == data;
    if n == -1 && data != [] {
      var k := |data| - 1;
      assert ([before] + data)[0..1 + k] == [before] + data[..k];
    }
  }

  lemma RestAt(before: byte, data: seq<byte>, n: int, diff: nat)
    requires (n == 0 || n == -1) && diff <= |data|
    ensures Memory(before, data, 1, |data|) == data
    ensures Memory(before, data, 1 + n + diff, |data| - diff) ==
            (if n == -1 then Shifted(before, data) else data)[diff..]
  {
    MessageAt(before, data, n);
    assert Memory(before, data, 1 + n + diff, |data| - diff) == Memory(before, data, 1 + n, |data|)[diff..];
  }

  lemma SplitOnce(gone: seq<byte>, unread: seq<byte>, n: nat, before: seq<byte>)
    requires n <= |unread|
    ensures (gone + unread[..n]) + unread[n..] == gone + unread
    ensures (before + gone) + unread[..n] == before + (gone + unread[..n])
  {
    assert unread[..n] + unread[n..] == unread;
  }

  lemma SplitAt(c: Conn, gone: seq<byte>, rest: seq<byte>)
    requires gone + rest == c.pending
    ensures gone == c.pending[..|gone|] && rest == c.pending[|gone|..]
    ensures Next(c, Writable(|gone|)) == Conn(c.wire + gone, rest, c.armed && rest != [])
  {
  }

  /** The specification of a writev that took n bytes, case by case. */
  lemma GatherCases(c: Conn, msg: seq<byte>, data: seq<byte>, n: nat)
    requires n <= |c.pending| + |msg| && (msg == data || c.pending == [])
    ensures var w := c.wire + (c.pending + msg)[..n];
      Gather(c, msg, data, Wrote(n)) ==
      if n == |c.pending| + |msg| then Conn(w, [], c.armed)
      else if n < |c.pending| then Conn(w, c.pending[n..] + data, true)
      else Conn(w, [] + msg[n - |c.pending|..], true)
  {
    var all := c.pending + msg;
    if n < |c.pending| {
      assert all[n..] == c.pending[n..] + msg;
    } else {
      assert all[n..] == msg[n - |c.pending|..];
    }
  }
}
