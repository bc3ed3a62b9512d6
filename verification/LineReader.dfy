/**
 The buffered line reader and the exact-count read and write loops, over a descriptor
 whose answers are a script: any finite sequence of what read and write may return.
 */
module ByteStream {
  import opened ByteQueue

  const NEWLINE: byte := 10

  /** What one call of read may do.  A longer `Data` is handed out in several calls. */
  datatype Answer = Data(bytes: seq<byte>) | Eof | Interrupted | Fail

  /** What a reader without a buffer would see, one item for each call. */
  datatype Item = Byte(b: byte) | End | Err

  function AsItems(bytes: seq<byte>): seq<Item> {
    seq(|bytes|, i requires 0 <= i < |bytes| => Byte(bytes[i]))
  }

  function Items(script: seq<Answer>): seq<Item> {
    if script == [] then []
    else
      var rest := Items(script[1..]);
      match script[0]
      case Data(bytes) => (if bytes == [] then [End] else AsItems(bytes)) + rest
      case Eof => [End] + rest
      case Interrupted => rest
      case Fail => [Err] + rest
  }

  /** The bytes of the source, in order. */
  function Bytes(items: seq<Item>): seq<byte> {
    if items == [] then []
    else (if items[0].Byte? then [items[0].b] else []) + Bytes(items[1..])
  }

  // Lines

  datatype Stop = Newline | AtEnd | Full | Failed

  datatype Line = Line(stored: seq<byte>, stop: Stop, rest: seq<Item>)

  /** One line, with room for `room` more bytes behind those already collected. */
  function Collect(got: seq<byte>, items: seq<Item>, room: nat): Line
    decreases room
  {
    if room == 0 then Line(got, Full, items)
    else if items == [] then Line(got, AtEnd, [])
    else
      match items[0]
      case Byte(b) =>
        if b == NEWLINE then Line(got + [b], Newline, items[1..]) else Collect(got + [b], items[1..], room - 1)
      case End => Line(got, AtEnd, items[1..])
      case Err => Line(got, Failed, items[1..])
  }

  /** A line of at most maxlen - 1 bytes; the source treats maxlen 0 like 1. */
  function NextLine(items: seq<Item>, maxlen: nat): Line {
    Collect([], items, if maxlen == 0 then 0 else maxlen - 1)
  }

  function Returned(line: Line): int {
    match line.stop
    case Full => |line.stored| + 1
    case Failed => -1
    case _ => |line.stored|
  }

  ghost predicate NewlineOnlyLast(s: seq<byte>) {
    forall i :: 0 <= i < |s| - 1 ==> s[i] != NEWLINE
  }

  /** Behind `got`, the line took exactly these items: its bytes, and the end or the error at
      which it stopped.  A source that is used up reads as an end. */
  ghost predicate Took(got: seq<byte>, items: seq<Item>, line: Line) {
    && got <= line.stored
    && var bytes := AsItems(line.stored[|got|..]);
       match line.stop
       case Failed => items == bytes + [Err] + line.rest
       case AtEnd => items == bytes + [End] + line.rest || (items == bytes && line.rest == [])
       case _ => items == bytes + line.rest
  }

  lemma TookOneMore(got: seq<byte>, b: byte, items: seq<Item>, line: Line)
    requires items != [] && items[0] == Byte(b) && Took(got + [b], items[1..], line)
    ensures Took(got, items, line)
  {
    var more := line.stored[|got| + 1..];
    assert line.stored[|got|..] == [b] + more;
    assert AsItems([b] + more) == [Byte(b)] + AsItems(more);
    assert items == [Byte(b)] + items[1..];
  }

  lemma {:induction false} CollectTook(got: seq<byte>, items: seq<Item>, room: nat)
    ensures Took(got, items, Collect(got, items, room))
    decreases room
  {
    var line := Collect(got, items, room);
    if room > 0 && items != [] && items[0].Byte? {
      var b := items[0].b;
      if b == NEWLINE {
        assert line.stored[|got| + 1..] == [];
      } else {
        CollectTook(got + [b], items[1..], room - 1);
      }
      TookOneMore(got, b, items, line);
    } else if room > 0 && items != [] {
      assert items == [items[0]] + items[1..];
    }
  }

  /** No item is lost or made up; the line stops at its newline, which can only come last, at
      an end, at an error, or when its room is used up. */
  lemma {:induction false} CollectIsExact(got: seq<byte>, items: seq<Item>, room: nat)
    requires NEWLINE !in got
    ensures var line := Collect(got, items, room);
      && line.stored + Bytes(line.rest) == got + Bytes(items)
      && Took(got, items, line) && NewlineOnlyLast(line.stored)
      && |got| <= |line.stored| <= |got| + room
      && (line.stop == Newline <==> NEWLINE in line.stored)
      && (line.stop == Full ==> |line.stored| == |got| + room)
    decreases room
  {
    CollectTook(got, items, room);
    if room > 0 && items != [] && items[0].Byte? {
      var b := items[0].b;
      assert got + Bytes(items) == (got + [b]) + Bytes(items[1..]);
      if b != NEWLINE {
        CollectIsExact(got + [b], items[1..], room - 1);
      } else {
        assert (got + [b])[|got|] == NEWLINE;
      }
    } else if items != [] && room > 0 {
      assert Bytes(items) == Bytes(items[1..]);
    }
  }

  /** The lines stored by a run of calls, one for each limit, and what is left to read. */
  function Lines(items: seq<Item>, limits: seq<nat>): seq<Line>
    decreases |limits|
  {
    if limits == [] then []
    else
      var line := NextLine(items, limits[0]);
      [line] + Lines(line.rest, limits[1..])
  }

  function Joined(lines: seq<Line>): seq<byte> {
    if lines == [] then [] else lines[0].stored + Joined(lines[1..])
  }

  function Left(items: seq<Item>, limits: seq<nat>): seq<Item>
    decreases |limits|
  {
    if limits == [] then items else Left(NextLine(items, limits[0]).rest, limits[1..])
  }

  /** Over any run of Readline calls, the stored lines joined together are a prefix of the
      source, and what follows it is what is left; each line has its newline, if any, at
      its end, and each return value is the stored count, or one more on truncation. */
  lemma {:induction false} LinesFollowSource(items: seq<Item>, limits: seq<nat>)
    ensures Joined(Lines(items, limits)) + Bytes(Left(items, limits)) == Bytes(items)
    ensures |Lines(items, limits)| == |limits|
    ensures forall i :: 0 <= i < |limits| ==> WellFormed(Lines(items, limits)[i], limits[i])
    decreases |limits|
  {
    if limits != [] {
      var line := NextLine(items, limits[0]);
      NextLineIsWellFormed(items, limits[0]);
      LinesFollowSource(line.rest, limits[1..]);
      var rest := Lines(line.rest, limits[1..]);
      assert Lines(items, limits) == [line] + rest;
      JoinedCons(line, rest);
      assert (line.stored + Joined(rest)) + Bytes(Left(items, limits)) ==
             line.stored + (Joined(rest) + Bytes(Left(items, limits)));
    }
  }

  /** The newline, if any, comes last; the return value is the stored count, or one more if
      the line was cut because it had filled its room. */
  ghost predicate WellFormed(line: Line, limit: nat) {
    && NewlineOnlyLast(line.stored)
    && (if line.stop == Failed then Returned(line) == -1
        else Returned(line) == |line.stored| + (if line.stop == Full then 1 else 0))
    && (line.stop == Full ==> |line.stored| == (if limit == 0 then 0 else limit - 1))
    && (line.stop == Newline ==> line.stored != [] && line.stored[|line.stored| - 1] == NEWLINE)
  }

  lemma NextLineIsWellFormed(items: seq<Item>, limit: nat)
    ensures var line := NextLine(items, limit);
      WellFormed(line, limit) && Took([], items, line) && line.stored + Bytes(line.rest) == Bytes(items)
  {
    var line := NextLine(items, limit);
    CollectIsExact([], items, if limit == 0 then 0 else limit - 1);
    assert [] + Bytes(items) == Bytes(items);
    if line.stop == Newline {
      var i :| 0 <= i < |line.stored| && line.stored[i] == NEWLINE;
      assert i == |line.stored| - 1;
    }
  }

  lemma JoinedCons(line: Line, lines: seq<Line>)
    ensures Joined([line] + lines) == line.stored + Joined(lines)
  {
    assert ([line] + lines)[1..] == lines;
  }

  // Exact-count reads

  /** Up to n bytes, stopping early only at an end or an error. */
  function Take(got: seq<byte>, items: seq<Item>, n: nat): Line
    decreases n
  {
    if n == 0 then Line(got, Full, items)
    else if items == [] then Line(got, AtEnd, [])
    else
      match items[0]
      case Byte(b) => Take(got + [b], items[1..], n - 1)
      case End => Line(got, AtEnd, items[1..])
      case Err => Line(got, Failed, items[1..])
  }

  lemma {:induction false} TakeMany(got: seq<byte>, bytes: seq<byte>, rest: seq<Item>, n: nat)
    requires |bytes| <= n
    ensures Take(got, AsItems(bytes) + rest, n) == Take(got + bytes, rest, n - |bytes|)
    decreases |bytes|
  {
    var items := AsItems(bytes) + rest;
    if bytes == [] {
      assert items == rest && got + bytes == got;
    } else {
      assert items[0] == Byte(bytes[0]) && items[1..] == AsItems(bytes[1..]) + rest;
      assert (got + [bytes[0]]) + bytes[1..] == got + bytes;
      TakeMany(got + [bytes[0]], bytes[1..], rest, n - 1);
    }
  }

  lemma {:induction false} TakeIsExact(got: seq<byte>, items: seq<Item>, n: nat)
    ensures var t := Take(got, items, n);
      && t.stored + Bytes(t.rest) == got + Bytes(items) && Took(got, items, t)
      && (t.stop == Full <==> |t.stored| == |got| + n)
      && |t.stored| <= |got| + n
    decreases n
  {
    if n > 0 && items != [] && items[0].Byte? {
      var b := items[0].b;
      assert got + Bytes(items) == (got + [b]) + Bytes(items[1..]);
      TakeIsExact(got + [b], items[1..], n - 1);
      TookOneMore(got, b, items, Take(got, items, n));
    } else if n > 0 && items != [] {
      assert Bytes(items) == Bytes(items[1..]);
    }
  }

  lemma {:induction false} SplitItems(a: seq<byte>, b: seq<byte>)
    ensures AsItems(a + b) == AsItems(a) + AsItems(b)
  {
  }
}

/**
 The one static buffer of my_read shared by all descriptors.  A byte, an end of input or an
 error is known by the descriptor it comes from and its position there, so that equal bytes
 do not hide a mix-up.
 */
module SharedBuffer {

  datatype Origin = Origin(fd: nat, pos: nat)

  datatype Read =
    | Buffered(fd: nat, ahead: nat) // my_read; a refill brings 1 + ahead items
    | Direct(fd: nat)               // one item of Readn, past the buffer

  /** The buffer holds positions lo up to hi of one descriptor; `pos` is where the kernel is. */
  datatype State = State(owner: nat, lo: nat, hi: nat, pos: nat -> nat)

  predicate Holding(s: State) {
    s.lo < s.hi
  }

  function Advanced(pos: nat -> nat, fd: nat, n: nat): nat -> nat {
    d => if d == fd then pos(d) + n else pos(d)
  }

  function Delivered(s: State, r: Read): Origin {
    if r.Buffered? && Holding(s) then Origin(s.owner, s.lo) else Origin(r.fd, s.pos(r.fd))
  }

  function Next(s: State, r: Read): State {
    match r
    case Buffered(fd, ahead) =>
      if Holding(s) then s.(lo := s.lo + 1)
      else State(fd, s.pos(fd) + 1, s.pos(fd) + 1 + ahead, Advanced(s.pos, fd, 1 + ahead))
    case Direct(fd) => s.(pos := Advanced(s.pos, fd, 1))
  }

  /** What the reader of a descriptor should get next: the first item not yet handed out. */
  function Due(s: State, fd: nat): nat {
    if Holding(s) && s.owner == fd then s.lo else s.pos(fd)
  }

  ghost predicate Sound(s: State) {
    Holding(s) ==> s.hi == s.pos(s.owner)
  }

  /** The read finds nothing buffered that it would mix up: the buffer is empty, or holds the
      items of the descriptor my_read is called with, or of another than Readn is. */
  predicate Apart(s: State, r: Read) {
    Holding(s) ==> (r.Buffered? <==> s.owner == r.fd)
  }

  /** From the counts of items each reader has had, every read gets the next of its own. */
  predicate InOrder(s: State, had: nat -> nat, calls: seq<Read>)
    decreases |calls|
  {
    calls == [] ||
    (Delivered(s, calls[0]) == Origin(calls[0].fd, had(calls[0].fd)) &&
     InOrder(Next(s, calls[0]), Advanced(had, calls[0].fd, 1), calls[1..]))
  }

  predicate AlwaysApart(s: State, calls: seq<Read>)
    decreases |calls|
  {
    calls == [] || (Apart(s, calls[0]) && AlwaysApart(Next(s, calls[0]), calls[1..]))
  }

  lemma ApartStep(s: State, r: Read)
    requires Sound(s)
    ensures Delivered(s, r) == Origin(r.fd, Due(s, r.fd)) <==> Apart(s, r)
    ensures Apart(s, r) ==> Sound(Next(s, r))
    ensures Apart(s, r) ==> forall fd :: Due(Next(s, r), fd) == Due(s, fd) + (if fd == r.fd then 1 else 0)
  {
  }

  /** Over any run on any descriptors, with exact-count reads in between, every reader gets
      the items of its own descriptor, each once and in order, if and only if no read finds
      another descriptor's items in the buffer, or bypasses its own. */
  lemma {:induction false} OwnSourceExactlyIfApart(s: State, had: nat -> nat, calls: seq<Read>)
    requires Sound(s) && forall fd :: had(fd) == Due(s, fd)
    ensures InOrder(s, had, calls) <==> AlwaysApart(s, calls)
    decreases |calls|
  {
    if calls != [] {
      ApartStep(s, calls[0]);
      if Apart(s, calls[0]) {
        OwnSourceExactlyIfApart(Next(s, calls[0]), Advanced(had, calls[0].fd, 1), calls[1..]);
      }
    }
  }
}

module LineReaders {
  import opened Basics
  import opened ByteQueue
  import opened ByteStream

  const EINTR: int := 4
  const EIO: int := 5

  /** An open descriptor; when the script is used up it is at end of file for good. */
  class Descriptor {
    var script: seq<Answer>

    constructor (answers: seq<Answer>)
      ensures script == answers
    {
      script := answers;
    }

    /** read(2): a count and the bytes, or -1 and an error number. */
    method Read(max: nat) returns (n: int, bytes: seq<byte>, errno: int)
      requires max > 0
      modifies this
      ensures |script| <= |old(script)| && (n == -1 ==> bytes == [] && |script| < |old(script)|)
      ensures n == -1 && errno == EINTR ==> Items(script) == Items(old(script))
      ensures n == -1 && errno != EINTR ==> Items(old(script)) == [Err] + Items(script)
      ensures n != -1 ==> n == |bytes| <= max
      ensures n > 0 ==> Items(old(script)) == AsItems(bytes) + Items(script)
      ensures n == 0 ==> Items(old(script)) == [] == Items(script) || Items(old(script)) == [End] + Items(script)
    {
      n, bytes, errno := 0, [], 0;
      if script == [] { return; }
      var answer, later := script[0], script[1..];
      assert script == [answer] + later;
      match answer
      case Eof =>
        script := later;
      case Interrupted =>
        script := later;
        n, errno := -1, EINTR;
      case Fail =>
        script := later;
        n, errno := -1, EIO;
      case Data(all) =>
        var k := Min(|all|, max);
        bytes, n := all[..k], k;
        DataInPart(all, k, later);
        script := if k < |all| then [Data(all[k..])] + later else later;
    }
  }

  /** A read that takes the first k bytes of an answer leaves the others. */
  lemma DataInPart(all: seq<byte>, k: nat, later: seq<Answer>)
    requires k <= |all| && (all != [] ==> k > 0)
    ensures var rest := if k < |all| then [Data(all[k..])] + later else later;
      Items([Data(all)] + later) == (if all == [] then [End] else AsItems(all[..k])) + Items(rest)
  {
    assert ([Data(all)] + later)[1..] == later;
    if k < |all| {
      assert all == all[..k] + all[k..];
      SplitItems(all[..k], all[k..]);
      assert ([Data(all[k..])] + later)[1..] == later;
    } else {
      assert all[..k] == all;
    }
  }

  lemma FirstItem(unread: seq<byte>, rest: seq<Item>)
    requires unread != []
    ensures (AsItems(unread) + rest)[0] == Byte(unread[0])
    ensures (AsItems(unread) + rest)[1..] == AsItems(unread[1..]) + rest
  {
  }

  /** The static state of my_read: a 100-byte buffer, a position and a count. */
  class LineReader {
    ghost var unread: seq<byte>
    var readCnt: int
    var readPtr: nat
    const readBuf: array<byte>

    ghost predicate Valid()
      reads this, readBuf
    {
      readBuf.Length == 100 &&
      if readCnt <= 0 then unread == []
      else readPtr + readCnt <= 100 && unread == readBuf[readPtr..readPtr + readCnt]
    }

    /** What is still to come: the unread part of the buffer, then the descriptor. */
    ghost function Remaining(fd: Descriptor): seq<Item>
      reads this, fd
    {
      AsItems(unread) + Items(fd.script)
    }

    constructor ()
      ensures Valid() && fresh(readBuf) && unread == []
    {
      readCnt, readPtr := 0, 0;
      readBuf := new byte[100];
      unread := [];
    }

    /** Refills the empty buffer, trying again for as long as the call is interrupted. */
    method Refill(fd: Descriptor)
      requires Valid() && readCnt <= 0
      modifies this, readBuf, fd
      ensures Valid()
      ensures readCnt > 0 ==> Remaining(fd) == old(Items(fd.script)) && unread != []
      ensures readCnt == 0 ==>
        (old(Items(fd.script)) == [] == Items(fd.script)) || old(Items(fd.script)) == [End] + Items(fd.script)
      ensures readCnt < 0 ==> old(Items(fd.script)) == [Err] + Items(fd.script)
    {
      ghost var items := Items(fd.script);
      var n, bytes, errno := fd.Read(100);
      while n < 0 && errno == EINTR
        invariant n == -1 && errno == EINTR ==> Items(fd.script) == items
        invariant n == -1 && errno != EINTR ==> items == [Err] + Items(fd.script)
        invariant n != -1 ==> n == |bytes| <= 100
        invariant n > 0 ==> items == AsItems(bytes) + Items(fd.script)
        invariant n == 0 ==> items == [] == Items(fd.script) || items == [End] + Items(fd.script)
        decreases |fd.script|, n < 0
      {
        n, bytes, errno := fd.Read(100);
      }
      readCnt := n;
      unread := [];
      if n > 0 {
        forall i | 0 <= i < n { readBuf[i] := bytes[i]; }
        readPtr := 0;
        unread := bytes;
        assert readBuf[0..n] == bytes;
      }
    }

    /** my_read: behaves like a read of one byte with no buffer in between, as long as what is
        buffered came from this descriptor.  It is handed out whatever the descriptor is. */
    method MyRead(fd: Descriptor) returns (rc: int, b: byte)
      requires Valid()
      modifies this, readBuf, fd
      ensures Valid()
      ensures old(Remaining(fd)) == [] ==> rc == 0 && Remaining(fd) == []
      ensures old(Remaining(fd)) != [] ==> Remaining(fd) == old(Remaining(fd))[1..]
      ensures old(Remaining(fd)) != [] ==>
        match old(Remaining(fd))[0]
        case Byte(x) => rc == 1 && b == x
        case End => rc == 0
        case Err => rc == -1
      ensures old(unread) != [] ==>
        fd.script == old(fd.script) && rc == 1 && b == old(unread)[0] && unread == old(unread)[1..]
    {
      b := 0;
      if readCnt <= 0 {
        assert Remaining(fd) == Items(fd.script);
        Refill(fd);
        if readCnt <= 0 {
          assert Remaining(fd) == Items(fd.script);
          return if readCnt < 0 then -1 else 0, b;
        }
      }
      FirstItem(unread, Items(fd.script));
      b := TakeByte();
      return 1, b;
    }

    method TakeByte() returns (b: byte)
      requires Valid() && readCnt > 0
      modifies this
      ensures Valid() && old(unread) == [b] + unread
    {
      readCnt := readCnt - 1;
      b := readBuf[readPtr];
      readPtr := readPtr + 1;
      unread := unread[1..];
    }

    /** One byte for the line collected so far, stored if there is one. */
    method ReadInto(fd: Descriptor, dest: array<byte>, p: nat, ghost got: seq<byte>, ghost room: nat)
      returns (rc: int, c: byte)
      requires Valid() && room > 0 && dest != readBuf && p < dest.Length && dest[..p] == got
      modifies this, readBuf, fd, dest
      ensures Valid() && -1 <= rc <= 1 && dest[..p] == got && (rc == 1 ==> dest[..p + 1] == got + [c])
      ensures Collect(got, old(Remaining(fd)), room) ==
        if rc != 1 then Line(got, if rc == 0 then AtEnd else Failed, Remaining(fd))
        else if c == NEWLINE then Line(got + [c], Newline, Remaining(fd))
        else Collect(got + [c], Remaining(fd), room - 1)
    {
      rc, c := MyRead(fd);
      if rc == 1 { Put(dest, p, c, got); }
    }

    /** Readline into `dest`, closed with a zero byte unless an error cut it short. */
    method Readline(fd: Descriptor, dest: array<byte>, maxlen: nat) returns (ret: int)
      requires Valid() && dest != readBuf && dest.Length >= Max(maxlen, 1)
      modifies this, readBuf, fd, dest
      ensures Valid()
      ensures var line := NextLine(old(Remaining(fd)), maxlen);
        && ret == Returned(line) && Remaining(fd) == line.rest
        && |line.stored| < dest.Length && dest[..|line.stored|] == line.stored
        && (ret != -1 ==> dest[|line.stored|] == 0)
    {
      ghost var goal := NextLine(Remaining(fd), maxlen);
      ghost var got: seq<byte> := [];
      var n := 1;
      var p := 0;
      while n < maxlen
        invariant Valid() && 1 <= n <= Max(maxlen, 1)
        invariant p == n - 1 == |got| && dest[..p] == got
        invariant goal == Collect(got, Remaining(fd), Max(maxlen, 1) - n)
      {
        var rc, c := ReadInto(fd, dest, p, got, maxlen - n);
        if rc == 1 {
          p := p + 1;
          got := got + [c];
          if c == NEWLINE { break; }
        } else if rc == 0 {
          assert goal == Line(got, AtEnd, Remaining(fd));
          Put(dest, p, 0, got);
          return n - 1;
        } else {
          assert goal == Line(got, Failed, Remaining(fd));
          return -1;
        }
        n := n + 1;
      }
      assert goal.stored == got && goal.rest == Remaining(fd) && Returned(goal) == n;
      Put(dest, p, 0, got);
      return n;
    }
  }

  /** Stores a byte behind the ones already there. */
  method Put(dest: array<byte>, p: nat, c: byte, ghost got: seq<byte>)
    requires p < dest.Length && dest[..p] == got
    modifies dest
    ensures dest[p] == c && dest[..p] == got && dest[..p + 1] == got + [c]
  {
    dest[p] := c;
  }

  /** Readn: reads straight from the descriptor until n bytes are there or the input ends. */
  method Readn(fd: Descriptor, n: nat) returns (ret: int, out: seq<byte>)
    modifies fd
    ensures var t := Take([], old(Items(fd.script)), n);
      out == t.stored && Items(fd.script) == t.rest && ret == if t.stop == Failed then -1 else |out|
  {
    ghost var goal := Take([], Items(fd.script), n);
    out := [];
    var nleft := n;
    while nleft > 0
      invariant 0 <= nleft <= n && |out| == n - nleft
      invariant goal == Take(out, Items(fd.script), nleft)
      decreases nleft + |fd.script|
    {
      ghost var before := Items(fd.script);
      var nread, bytes, errno := fd.Read(nleft);
      if nread < 0 {
        if errno != EINTR { return -1, out; }
      } else if nread == 0 {
        break;
      } else {
        TakeMany(out, bytes, Items(fd.script), nleft);
        out := out + bytes;
        nleft := nleft - nread;
      }
    }
    ret := n - nleft;
  }

  /** What the answers take, all together, before the first one that reports no progress; an
      interruption takes nothing and does not end it. */
  function TakenBefore(counts: seq<int>): nat {
    if counts == [] || counts[0] == 0 then 0 else Max(0, counts[0]) + TakenBefore(counts[1..])
  }

  /** Writen: `counts` are the answers of write, a negative one being an interruption. */
  method Writen(data: seq<byte>, counts: seq<int>) returns (ret: int, wire: seq<byte>)
    ensures wire <= data && |wire| == Min(|data|, TakenBefore(counts))
    ensures ret == if TakenBefore(counts) >= |data| then |data| else -1
  {
    wire := [];
    var nleft, i := |data|, 0;
    while nleft > 0
      invariant 0 <= nleft <= |data| && 0 <= i <= |counts|
      invariant wire == data[..|data| - nleft]
      invariant Min(|data|, TakenBefore(counts)) == |data| - nleft + Min(nleft, TakenBefore(counts[i..]))
      decreases |counts| - i
    {
      if i == |counts| || counts[i] == 0 { return -1, wire; }
      var nwritten := if counts[i] < 0 then 0 else Min(counts[i], nleft);
      i := i + 1;
      wire := wire + data[|data| - nleft..|data| - nleft + nwritten];
      nleft := nleft - nwritten;
    }
    ret := |data|;
  }
}
