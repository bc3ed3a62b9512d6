/**
 The compacting, growing byte buffer and the queue of bytes it implements.
 */
module ByteQueue {
  import opened Basics

  newtype byte = b: int | 0 <= b < 256

  const BUFSIZE: nat := 1024
  const IOBUF: nat := 65536

  /** The unread bytes, and the size of the array that holds them. */
  datatype Queue = Queue(unread: seq<byte>, size: nat)

  const EMPTY: Queue := Queue([], BUFSIZE)

  datatype Op =
    | Append(data: seq<byte>)
    | ReadIov(data: seq<byte>)
    | Remove(len: nat)
    | Retrieve(len: nat)
    | Reset

  /** The bytes an operation puts in. */
  function Fed(op: Op): seq<byte> {
    match op
    case Append(data) => data
    case ReadIov(data) => data
    case _ => []
  }

  /** How many bytes an operation takes out when `n` are unread. */
  function Drawn(op: Op, n: nat): (k: nat)
    ensures k <= n
  {
    match op
    case Remove(len) => Min(len, n)
    case Retrieve(len) => Min(len, n)
    case Reset => n
    case _ => 0
  }

  /** Bytes leave at the front and arrive at the back; the array only ever grows to fit. */
  function Apply(q: Queue, op: Op): Queue {
    var unread := q.unread[Drawn(op, |q.unread|)..] + Fed(op);
    Queue(unread, Max(q.size, |unread|))
  }

  function Run(q: Queue, ops: seq<Op>): Queue {
    if ops == [] then q else Apply(Run(q, ops[..|ops| - 1]), ops[|ops| - 1])
  }

  function AllFed(ops: seq<Op>): seq<byte> {
    if ops == [] then [] else AllFed(ops[..|ops| - 1]) + Fed(ops[|ops| - 1])
  }

  /** Everything taken out over a run, in the order it was taken. */
  function AllDrawn(ops: seq<Op>): seq<byte> {
    if ops == [] then []
    else
      var before := Run(EMPTY, ops[..|ops| - 1]).unread;
      AllDrawn(ops[..|ops| - 1]) + before[..Drawn(ops[|ops| - 1], |before|)]
  }

  /** Bytes that arrive come last, and nothing else moves. */
  lemma Arrive(q: Queue, data: seq<byte>)
    ensures Apply(q, ReadIov(data)).unread == Apply(q, Append(data)).unread == q.unread + data
  {
    assert q.unread[0..] == q.unread;
  }

  lemma Leave(q: Queue, op: Op)
    requires Fed(op) == [] && |q.unread| <= q.size
    ensures Apply(q, op) == Queue(q.unread[Drawn(op, |q.unread|)..], q.size)
  {
  }

  /** What is taken out, followed by what stays, is what was there. */
  lemma TakeFront(q: Queue, len: nat)
    ensures q.unread[..Min(len, |q.unread|)] + Apply(q, Remove(len)).unread == q.unread
  {
  }

  lemma RunSnoc(ops: seq<Op>, op: Op)
    ensures Run(EMPTY, ops + [op]) == Apply(Run(EMPTY, ops), op)
    ensures var before := Run(EMPTY, ops).unread;
      AllDrawn(ops + [op]) == AllDrawn(ops) + before[..Drawn(op, |before|)]
  {
    assert (ops + [op])[..|ops|] == ops;
  }

  lemma Reassociate(drawn: seq<byte>, u: seq<byte>, k: nat, fed: seq<byte>)
    requires k <= |u|
    ensures (drawn + u[..k]) + (u[k..] + fed) == (drawn + u) + fed
  {
    assert u == u[..k] + u[k..];
  }

  /** Whatever the run, the bytes drawn followed by the bytes unread are the bytes fed. */
  lemma {:induction false} FirstInFirstOut(ops: seq<Op>)
    ensures AllDrawn(ops) + Run(EMPTY, ops).unread == AllFed(ops)
  {
    if ops != [] {
      var init, op := ops[..|ops| - 1], ops[|ops| - 1];
      FirstInFirstOut(init);
      var u := Run(EMPTY, init).unread;
      Reassociate(AllDrawn(init), u, Drawn(op, |u|), Fed(op));
    }
  }

  function UnreadAfter(ops: seq<Op>, k: nat): nat
    requires k <= |ops|
  {
    |Run(EMPTY, ops[..k]).unread|
  }

  lemma UnreadBefore(ops: seq<Op>, n: nat, k: nat)
    requires k <= n <= |ops|
    ensures UnreadAfter(ops, k) == UnreadAfter(ops[..n], k)
  {
    assert ops[..n][..k] == ops[..k];
  }

  lemma SizeGrows(ops: seq<Op>)
    requires ops != []
    ensures Run(EMPTY, ops).size == Max(Run(EMPTY, ops[..|ops| - 1]).size, UnreadAfter(ops, |ops|))
  {
    assert ops[..|ops|] == ops;
  }

  lemma {:induction false} SizeIsEnough(ops: seq<Op>, k: nat)
    requires k <= |ops|
    ensures UnreadAfter(ops, k) <= Run(EMPTY, ops).size
    decreases |ops|
  {
    if ops == [] {
      assert UnreadAfter(ops, 0) == 0;
    } else {
      SizeGrows(ops);
      if k < |ops| {
        var init := ops[..|ops| - 1];
        UnreadBefore(ops, |ops| - 1, k);
        SizeIsEnough(init, k);
      }
    }
  }

  /** A moment at which all of the array was needed, or 0 if it still has its first size. */
  lemma {:induction false} SizeIsReached(ops: seq<Op>) returns (k: nat)
    ensures k <= |ops| && Run(EMPTY, ops).size == Max(BUFSIZE, UnreadAfter(ops, k))
    decreases |ops|
  {
    if ops == [] {
      k := 0;
      assert UnreadAfter(ops, 0) == 0;
    } else {
      SizeGrows(ops);
      var init := ops[..|ops| - 1];
      k := SizeIsReached(init);
      UnreadBefore(ops, |ops| - 1, k);
      if UnreadAfter(ops, |ops|) > Run(EMPTY, init).size { k := |ops|; }
    }
  }

  /** The array is never smaller than the initial size or the most bytes ever held unread,
      and it is as large as one of the two. */
  lemma SizeIsPeak(ops: seq<Op>)
    ensures Run(EMPTY, ops).size >= BUFSIZE
    ensures forall k :: 0 <= k <= |ops| ==> UnreadAfter(ops, k) <= Run(EMPTY, ops).size
    ensures Run(EMPTY, ops).size == BUFSIZE ||
            exists k :: 0 <= k <= |ops| && UnreadAfter(ops, k) == Run(EMPTY, ops).size
  {
    forall k | 0 <= k <= |ops| ensures UnreadAfter(ops, k) <= Run(EMPTY, ops).size {
      SizeIsEnough(ops, k);
    }
    var k := SizeIsReached(ops);
  }
}

module ByteBuffers {
  import opened Basics
  import opened ByteQueue

  /** What the kernel answers to readv. */
  datatype ReadvReply = Got(bytes: seq<byte>) | Failed(errno: int)

  class ByteBuffer {
    ghost var queue: Queue // the abstract value
    var data: array<byte>
    var reader: nat
    var writer: nat

    ghost predicate Valid()
      reads this, data
    {
      reader <= writer <= data.Length && queue == Queue(data[reader..writer], data.Length)
    }

    constructor ()
      ensures Valid() && fresh(data) && queue == EMPTY
    {
      reader, writer := 0, 0;
      data := new byte[BUFSIZE];
      queue := EMPTY;
    }

    function ReadBytes(): (n: nat)
      requires Valid()
      reads this, data
      ensures n == |queue.unread|
    {
      writer - reader
    }

    function WriteBytes(): (n: nat)
      requires Valid()
      reads this, data
      ensures n == queue.size - writer
    {
      data.Length - writer
    }

    function Peek(): (bytes: seq<byte>)
      requires Valid()
      reads this, data
      ensures bytes == queue.unread
    {
      data[reader..writer]
    }

    method Append(src: seq<byte>)
      requires Valid()
      modifies this, data
      ensures Valid() && (data == old(data) || fresh(data))
      ensures queue == Apply(old(queue), ByteQueue.Append(src))
      ensures queue.unread == old(queue.unread) + src
      ensures data.Length == Max(old(data.Length), |queue.unread|)
    {
      Arrive(queue, src);
      AbleWrite(|src|);
      FillTail(src);
    }

    method Remove(len: nat) returns (out: seq<byte>)
      requires Valid()
      modifies this
      ensures Valid() && data == old(data)
      ensures out == old(queue.unread)[..Min(len, |old(queue.unread)|)]
      ensures queue == Apply(old(queue), ByteQueue.Remove(len))
      ensures queue.unread == old(queue.unread)[Min(len, |old(queue.unread)|)..]
    {
      Leave(queue, ByteQueue.Remove(len));
      var n := ReadBytes();
      var rbytes := Min(len, n);
      out := data[reader..reader + rbytes];
      Advance(rbytes);
    }

    method RemoveAll() returns (out: seq<byte>)
      requires Valid()
      modifies this
      ensures Valid() && data == old(data)
      ensures out == old(queue.unread) && queue.unread == []
      ensures queue == Apply(old(queue), ByteQueue.Reset)
    {
      var n := ReadBytes();
      Leave(queue, ByteQueue.Remove(n));
      Leave(queue, ByteQueue.Reset);
      ghost var unread := queue.unread;
      out := Remove(n);
      assert unread[..n] == unread;
    }

    method Retrieve(len: nat)
      requires Valid()
      modifies this
      ensures Valid() && data == old(data)
      ensures queue == Apply(old(queue), ByteQueue.Retrieve(len))
      ensures queue.unread == old(queue.unread)[Min(len, |old(queue.unread)|)..]
    {
      Leave(queue, ByteQueue.Retrieve(len));
      var n := ReadBytes();
      Advance(Min(len, n));
    }

    /** Moves the read position; a buffer read to the end starts over at the front. */
    method Advance(rbytes: nat)
      requires Valid() && rbytes <= |queue.unread|
      modifies this
      ensures Valid() && data == old(data)
      ensures queue == Queue(old(queue.unread)[rbytes..], old(queue.size))
    {
      reader := reader + rbytes;
      queue := Queue(old(queue.unread)[rbytes..], old(queue.size));
      assert data[reader..writer] == queue.unread;
      if reader == writer { Reset(); }
    }

    method Reset()
      requires Valid()
      modifies this
      ensures Valid() && data == old(data) && queue.unread == []
      ensures queue == Apply(old(queue), ByteQueue.Reset)
    {
      reader, writer := 0, 0;
      queue := Queue([], old(queue.size));
    }

    /** How much one readv may deliver: the tail space, and the stack buffer if that is small. */
    function Room(): (n: nat)
      requires Valid()
      reads this, data
      ensures n >= IOBUF
    {
      var wbytes := WriteBytes();
      if wbytes < IOBUF then wbytes + IOBUF else wbytes
    }

    /** Tail space first; what does not fit there went to the stack buffer and is appended. */
    method ReadIov(reply: ReadvReply) returns (n: int, errnum: int)
      requires Valid()
      requires reply.Got? ==> |reply.bytes| <= Room()
      modifies this, data
      ensures Valid() && (data == old(data) || fresh(data))
      ensures reply.Got? ==> n == |reply.bytes| && errnum == 0
      ensures reply.Got? ==> queue == Apply(old(queue), ByteQueue.ReadIov(reply.bytes))
      ensures reply.Got? ==> queue.unread == old(queue.unread) + reply.bytes
      ensures reply.Failed? ==> n == -1 && errnum == reply.errno && queue == old(queue)
    {
      errnum := 0;
      if reply.Failed? {
        return -1, reply.errno;
      }
      var wbytes := WriteBytes();
      var bytes := reply.bytes;
      n := |bytes|;
      var first := Min(wbytes, n);
      SplitTail(queue.unread, bytes, first);
      FillTail(bytes[..first]);
      if n > wbytes { Append(bytes[first..]); }
    }

    /** Copies bytes into the tail space and moves the write position behind them. */
    method FillTail(bytes: seq<byte>)
      requires Valid() && writer + |bytes| <= data.Length
      modifies this, data
      ensures Valid() && data == old(data)
      ensures queue == Queue(old(queue.unread) + bytes, old(queue.size))
    {
      forall i | 0 <= i < |bytes| { data[writer + i] := bytes[i]; }
      writer := writer + |bytes|;
      queue := Queue(old(queue.unread) + bytes, old(queue.size));
      assert data[reader..writer] == queue.unread;
    }

    /** Makes room for `len` more bytes: slide the unread bytes to the front if that helps,
        and grow only when they are there and it still does not fit. */
    method AbleWrite(len: nat)
      requires Valid()
      modifies this, data
      ensures Valid() && (data == old(data) || fresh(data))
      ensures writer + len <= data.Length
      ensures queue == Queue(old(queue.unread), Max(old(queue.size), |old(queue.unread)| + len))
    {
      if data.Length - writer < len && reader > 0 {
        var rbytes := ReadBytes();
        forall i | 0 <= i < rbytes { data[i] := data[reader + i]; }
        reader := 0;
        writer := rbytes;
      }
      assert data[reader..writer] == old(queue.unread);
      if data.Length - writer < len {
        var grown := new byte[writer + len];
        forall i | 0 <= i < data.Length { grown[i] := data[i]; }
        forall i | data.Length <= i < grown.Length { grown[i] := 0; }
        data := grown;
        assert data[reader..writer] == old(queue.unread);
      }
      queue := Queue(old(queue.unread), data.Length);
    }
  }

  /** What a read delivers is at most what it has room for; otherwise the operation as it is. */
  function Clipped(op: Op, room: nat): Op {
    match op
    case ReadIov(bytes) => ByteQueue.ReadIov(bytes[..Min(room, |bytes|)])
    case _ => op
  }

  /** A read is cut short only if it brings more than fits into the stack buffer. */
  ghost predicate Carried(op: Op, done: Op) {
    if op.ReadIov?
    then done.ReadIov? && done.data <= op.data && (|op.data| <= IOBUF ==> done == op)
    else done == op
  }

  /** One operation; `out` is what it took out. */
  method Perform(buf: ByteBuffer, op: Op) returns (done: Op, out: seq<byte>)
    requires buf.Valid()
    modifies buf, buf.data
    ensures buf.Valid() && (buf.data == old(buf.data) || fresh(buf.data))
    ensures done == Clipped(op, old(buf.Room())) && Carried(op, done)
    ensures buf.queue == Apply(old(buf.queue), done)
    ensures out == old(buf.queue.unread)[..Drawn(done, |old(buf.queue.unread)|)]
  {
    done, out := op, [];
    match op
    case Append(bytes) => buf.Append(bytes);
    case ReadIov(bytes) =>
      done := Clipped(op, buf.Room());
      var n, errnum := buf.ReadIov(Got(done.data));
    case Remove(len) => out := buf.Remove(len);
    case Retrieve(len) =>
      out := buf.Peek()[..Min(len, buf.ReadBytes())];
      buf.Retrieve(len);
    case Reset =>
      out := buf.Peek();
      buf.Reset();
  }

  /** A whole run on a new buffer: its state is that of the queue after the operations done,
      and what came out, followed by what is still in, is what went in. */
  method PerformAll(ops: seq<Op>) returns (buf: ByteBuffer, done: seq<Op>, out: seq<byte>)
    ensures fresh(buf) && buf.Valid() && |done| == |ops|
    ensures forall i :: 0 <= i < |ops| ==> Carried(ops[i], done[i])
    ensures buf.queue == Run(EMPTY, done) && out == AllDrawn(done)
    ensures out + buf.queue.unread == AllFed(done)
  {
    buf := new ByteBuffer();
    done, out := [], [];
    var k := 0;
    while k < |ops|
      invariant 0 <= k == |done| <= |ops| && fresh(buf) && fresh(buf.data) && buf.Valid()
      invariant forall i :: 0 <= i < k ==> Carried(ops[i], done[i])
      invariant buf.queue == Run(EMPTY, done) && out == AllDrawn(done)
    {
      var one, bytes := Perform(buf, ops[k]);
      RunSnoc(done, one);
      CarriedSnoc(ops, done, one);
      done, out := done + [one], out + bytes;
      k := k + 1;
    }
    FirstInFirstOut(done);
  }

  lemma CarriedSnoc(ops: seq<Op>, done: seq<Op>, one: Op)
    requires |done| < |ops| && Carried(ops[|done|], one)
    requires forall i :: 0 <= i < |done| ==> Carried(ops[i], done[i])
    ensures forall i :: 0 <= i < |done| + 1 ==> Carried(ops[i], (done + [one])[i])
  {
  }

  lemma SplitTail(unread: seq<byte>, bytes: seq<byte>, k: nat)
    requires k <= |bytes|
    ensures unread + bytes[..k] + bytes[k..] == unread + bytes
    ensures k == |bytes| ==> bytes[..k] == bytes
  {
  }
}
