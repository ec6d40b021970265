/**
  The robust I/O of csapp.c: unbuffered reads and writes, and the buffered reader,
  over descriptors whose transfers may be short, interrupted or failing.
 */
module Rio {
  import opened Bytes

  const NEWLINE: byte := 10
  const RIO_BUFSIZE := 8192

  // ----- descriptors -----

  /** What the next system call does: transfer at most so many bytes, be interrupted, or fail. */
  datatype Event = Deliver(atMost: nat) | Interrupted | Failing

  datatype Errno = NoError | EINTR | EIO

  function Rest(schedule: seq<Event>): seq<Event> {
    if schedule == [] then [] else schedule[1..]
  }

  /** How many of the calls to come fail. */
  function Failures(schedule: seq<Event>): nat {
    if schedule == [] then 0 else (if schedule[0].Failing? then 1 else 0) + Failures(schedule[1..])
  }

  class Descriptor {
    /** The bytes not yet read, and the events to come; afterwards reads deliver all they can. */
    var stream: seq<byte>
    var schedule: seq<Event>
    var errno: Errno

    constructor (stream: seq<byte>, schedule: seq<Event>)
      ensures this.stream == stream && this.schedule == schedule && errno == NoError
    {
      this.stream, this.schedule, errno := stream, schedule, NoError;
    }

    /** read(2): -1 and errno, 0 at the end of the stream, or some bytes, as the next event says. */
    method Read(n: nat) returns (count: int, bytes: seq<byte>)
      requires n > 0
      modifies this
      ensures schedule == Rest(old(schedule)) && bytes + stream == old(stream)
      ensures -1 <= count <= n && |bytes| == (if count < 0 then 0 else count)
      ensures count == -1 <==> old(schedule) != [] && !old(schedule)[0].Deliver?
      ensures count == 0 ==> old(stream) == []
      ensures errno == if count >= 0 then old(errno) else if old(schedule)[0].Interrupted? then EINTR else EIO
    {
      var limit := n;
      if schedule != [] {
        var event := schedule[0];
        schedule := schedule[1..];
        match event
        case Interrupted =>
          errno := EINTR;
          return -1, [];
        case Failing =>
          errno := EIO;
          return -1, [];
        case Deliver(k) =>
          limit := if k < 1 then 1 else if k < n then k else n;
      }
      count := if limit < |stream| then limit else |stream|;
      bytes, stream := stream[..count], stream[count..];
    }
  }

  /** The first min(n, |s|) bytes of s. */
  function Upto(s: seq<byte>, n: nat): seq<byte> {
    if n <= |s| then s[..n] else s
  }

  /**
    rio_readn: the first min(n, remaining) bytes, whatever interruptions and short
    reads occur; it fails exactly if it meets a failing read.
   */
  method ReadN(fd: Descriptor, n: nat) returns (count: int, bytes: seq<byte>)
    modifies fd
    ensures bytes + fd.stream == old(fd.stream) && |bytes| <= n
    ensures Failures(old(fd.schedule)) == Failures(fd.schedule) + if count == -1 then 1 else 0
    ensures count == -1 || (count == |bytes| && bytes == Upto(old(fd.stream), n))
  {
    ghost var all, failures := fd.stream, Failures(fd.schedule);
    var nleft := n;
    bytes := [];
    while nleft > 0
      invariant 0 <= nleft && |bytes| + nleft == n && bytes + fd.stream == all
      invariant Failures(fd.schedule) == failures
      decreases nleft, |fd.schedule|
    {
      var nread, part := fd.Read(nleft);
      if nread < 0 {
        if fd.errno == EINTR {
          nread := 0;
        } else {
          return -1, bytes;
        }
      } else if nread == 0 {
        break;
      }
      Regroup(bytes, part, fd.stream);
      nleft := nleft - nread;
      bytes := bytes + part;
    }
    count := n - nleft;
    IsUpto(bytes, fd.stream, all, n);
  }

  // ----- writing -----

  /** The smaller number. */
  function Min(m: nat, n: nat): nat {
    if m < n then m else n
  }

  /** What one write(2) of n bytes returns and leaves in errno. */
  predicate Wrote(events: seq<Event>, before: Errno, n: nat, count: int, after: Errno) {
    if events == [] then count == n && after == before
    else
      match events[0]
      case Interrupted => count == -1 && after == EINTR
      case Failing => count == -1 && after == EIO
      case Deliver(k) => count == Min(k, n) && after == before
  }

  class Sink {
    /** The bytes written, and the events to come; afterwards writes take all they get. */
    var written: seq<byte>
    var schedule: seq<Event>
    var errno: Errno

    constructor (schedule: seq<Event>)
      ensures written == [] && this.schedule == schedule && errno == NoError
    {
      written, this.schedule, errno := [], schedule, NoError;
    }

    /** write(2): -1 and errno, or the number of bytes taken, which may be 0. */
    method Write(bytes: seq<byte>) returns (count: int)
      modifies this
      ensures schedule == Rest(old(schedule)) && -1 <= count <= |bytes|
      ensures written == old(written) + bytes[..if count < 0 then 0 else count]
      ensures Wrote(old(schedule), old(errno), |bytes|, count, errno)
    {
      count := |bytes|;
      if schedule != [] {
        var event := schedule[0];
        schedule := schedule[1..];
        match event
        case Interrupted =>
          errno := EINTR;
          count := -1;
        case Failing =>
          errno := EIO;
          count := -1;
        case Deliver(k) =>
          count := Min(k, |bytes|);
      }
      written := written + bytes[..if count < 0 then 0 else count];
    }
  }

  /**
    Event i ends rio_writen with an error: a failing write, or a write of no byte
    while errno does not, from before or from an earlier event, hold EINTR.
   */
  predicate Fatal(events: seq<Event>, i: nat, errno: Errno)
    requires i < |events|
  {
    events[i].Failing? || (events[i] == Deliver(0) && errno != EINTR && Interrupted !in events[..i])
  }

  /** How many of n bytes rio_writen writes when these events are to come. */
  function Taken(events: seq<Event>, errno: Errno, n: nat): (taken: nat)
    ensures taken <= n
    decreases |events|
  {
    if n == 0 || events == [] then n
    else
      match events[0]
      case Interrupted => Taken(events[1..], EINTR, n)
      case Failing => 0
      case Deliver(k) =>
        if k == 0 && errno != EINTR then 0 else Min(k, n) + Taken(events[1..], errno, n - Min(k, n))
  }

  /** The events that rio_writen leaves. */
  function Unused(events: seq<Event>, errno: Errno, n: nat): (rest: seq<Event>)
    decreases |events|
  {
    if n == 0 || events == [] then events
    else
      match events[0]
      case Interrupted => Unused(events[1..], EINTR, n)
      case Failing => events[1..]
      case Deliver(k) =>
        if k == 0 && errno != EINTR then events[1..] else Unused(events[1..], errno, n - Min(k, n))
  }

  /** One turn of the loop: an error, or count bytes (none for -1) and the rest. */
  lemma TakenStep(events: seq<Event>, before: Errno, n: nat, count: int, after: Errno)
    requires n > 0 && Wrote(events, before, n, count, after)
    ensures
      var wrote := if count < 0 then 0 else count;
      && wrote <= n
      && Taken(events, before, n)
         == (if count <= 0 && after != EINTR then 0 else wrote + Taken(Rest(events), after, n - wrote))
      && Unused(events, before, n)
         == if count <= 0 && after != EINTR then Rest(events) else Unused(Rest(events), after, n - wrote)
  {
  }

  /** What the first i events would transfer of an endless buffer. */
  function Transferred(events: seq<Event>, i: nat): nat
    requires i <= |events|
  {
    if i == 0 then 0
    else (match events[0] case Deliver(k) => k case _ => 0) + Transferred(events[1..], i - 1)
  }

  /** An event that is fatal and met before n bytes are written. */
  predicate FatalBefore(events: seq<Event>, errno: Errno, n: nat, i: nat) {
    i < |events| && Fatal(events, i, errno) && Transferred(events, i) < n
  }

  /** What the first event transfers, and errno after it. */
  function FirstTransfer(events: seq<Event>): nat
    requires events != []
  {
    match events[0] case Deliver(k) => k case _ => 0
  }

  function ErrnoAfter(events: seq<Event>, errno: Errno): Errno
    requires events != []
  {
    if events[0].Interrupted? then EINTR else errno
  }

  /** One event back: what is fatal behind a harmless first event is fatal in the whole. */
  lemma FatalShift(events: seq<Event>, errno: Errno, n: nat, i: nat)
    requires events != [] && n > 0 && !Fatal(events, 0, errno)
    ensures
      var m := n - Min(FirstTransfer(events), n);
      FatalBefore(events, errno, n, i + 1) <==> FatalBefore(events[1..], ErrnoAfter(events, errno), m, i)
  {
    if i + 1 < |events| { assert events[..i + 1] == [events[0]] + events[1..][..i]; }
  }

  /**
    Known before the call: rio_writen fails exactly if some fatal event comes before
    the earlier ones have taken all the bytes.
   */
  lemma {:induction false} WriteFailsIff(events: seq<Event>, errno: Errno, n: nat)
    ensures Taken(events, errno, n) < n <==> exists i: nat :: FatalBefore(events, errno, n, i)
    decreases |events|
  {
    if events != [] && n > 0 {
      if Fatal(events, 0, errno) {
        assert FatalBefore(events, errno, n, 0);
      } else {
        var m, later := n - Min(FirstTransfer(events), n), ErrnoAfter(events, errno);
        WriteFailsIff(events[1..], later, m);
        if i: nat :| FatalBefore(events, errno, n, i) { FatalShift(events, errno, n, i - 1); }
        if i: nat :| FatalBefore(events[1..], later, m, i) { FatalShift(events, errno, n, i); }
      }
    }
  }

  /** Short writes and interruptions alone lose nothing. */
  lemma {:induction false} ShortWritesHarmless(events: seq<Event>, errno: Errno, n: nat)
    requires Failing !in events && Deliver(0) !in events
    ensures Taken(events, errno, n) == n
  {
    WriteFailsIff(events, errno, n);
  }

  /** A write of no byte is an error on its own, and none after an interruption: errno is stale. */
  lemma EmptyWriteDependsOnErrno()
    ensures Taken([Deliver(0)], NoError, 1) == 0 && Taken([Interrupted, Deliver(0)], NoError, 1) == 1
  {
  }

  /**
    rio_writen: all the bytes, in order, or -1 and a proper prefix of them. Events and
    errno decide beforehand how many; it fails exactly if a fatal event comes too early.
   */
  method WriteN(sink: Sink, bytes: seq<byte>) returns (result: int)
    modifies sink
    ensures
      var taken := Taken(old(sink.schedule), old(sink.errno), |bytes|);
      && sink.written == old(sink.written) + bytes[..taken]
      && result == if taken == |bytes| then |bytes| else -1
    ensures sink.schedule == Unused(old(sink.schedule), old(sink.errno), |bytes|)
    ensures result == -1 <==> exists i: nat :: FatalBefore(old(sink.schedule), old(sink.errno), |bytes|, i)
  {
    ghost var before, events, errno := sink.written, sink.schedule, sink.errno;
    WriteFailsIff(events, errno, |bytes|);
    var bufp := 0;
    while bufp < |bytes|
      invariant bufp <= |bytes| && sink.written == before + bytes[..bufp]
      invariant Taken(events, errno, |bytes|) == bufp + Taken(sink.schedule, sink.errno, |bytes| - bufp)
      invariant Unused(events, errno, |bytes|) == Unused(sink.schedule, sink.errno, |bytes| - bufp)
      decreases |sink.schedule|, |bytes| - bufp
    {
      ghost var left, errnow := sink.schedule, sink.errno;
      var nwritten := sink.Write(bytes[bufp..]);
      TakenStep(left, errnow, |bytes| - bufp, nwritten, sink.errno);
      if nwritten <= 0 {
        if sink.errno == EINTR {
          nwritten := 0;
        } else {
          return -1;
        }
      }
      assert bytes[..bufp] + bytes[bufp..][..nwritten] == bytes[..bufp + nwritten];
      bufp := bufp + nwritten;
    }
    return |bytes|;
  }

  // ----- what a line reader must store -----

  /** Where the line that continues at i ends: after a newline, at the end of s, or at the limit. */
  function LineEnd(s: seq<byte>, i: nat, limit: nat): (k: nat)
    ensures i <= |s| && i <= limit ==> i <= k <= |s| && k <= limit
    decreases limit - i
  {
    if i >= |s| || i >= limit then i
    else if s[i] == NEWLINE then i + 1
    else LineEnd(s, i + 1, limit)
  }

  /** How many bytes of s a line reader stores when limit bytes fit. */
  function LineLength(s: seq<byte>, limit: nat): (k: nat)
    ensures k <= |s| && k <= limit
  {
    LineEnd(s, 0, limit)
  }

  lemma {:induction false} LineEndShape(s: seq<byte>, i: nat, limit: nat)
    requires i <= |s| && i <= limit
    ensures
      var k := LineEnd(s, i, limit);
      && (forall j :: i <= j < k - 1 ==> s[j] != NEWLINE)
      && (k < |s| && k < limit ==> i < k && s[k - 1] == NEWLINE)
    decreases limit - i
  {
    if i < |s| && i < limit && s[i] != NEWLINE { LineEndShape(s, i + 1, limit); }
  }

  /** The shortest prefix that ends in a newline, or s cut at limit bytes. */
  lemma LineShape(s: seq<byte>, limit: nat)
    ensures
      var k := LineLength(s, limit);
      && (forall j :: 0 <= j < k - 1 ==> s[j] != NEWLINE)
      && (k < |s| && k < limit ==> 0 < k && s[k - 1] == NEWLINE)
  {
    LineEndShape(s, 0, limit);
  }

  predicate EndsLine(s: seq<byte>) {
    s != [] && s[|s| - 1] == NEWLINE
  }

  /** What rio_readlineb returns when it stored these bytes. */
  function LineResult(stored: seq<byte>, atEof: bool): int {
    if EndsLine(stored) then |stored|
    else if atEof && stored == [] then 0
    else |stored| + 1
  }

  // ----- calls and replies on values -----

  /** maxlen counts the NUL, so it is positive. */
  type Positive = n: nat | n >= 1 witness 1

  datatype Call = GetBytes(n: nat) | GetLine(maxlen: Positive)

  /** What a caller gets: the returned number, and the bytes stored in its buffer. */
  datatype Reply = Reply(result: int, stored: seq<byte>)

  predicate FitsBuffer(call: Call, size: nat) {
    match call
    case GetBytes(n) => n <= size
    case GetLine(maxlen) => maxlen <= size
  }

  /** The right reply when s remains to be read. */
  function Answer(s: seq<byte>, call: Call): Reply {
    match call
    case GetBytes(n) => Reply(|Upto(s, n)|, Upto(s, n))
    case GetLine(maxlen) =>
      var stored := s[..LineLength(s, maxlen - 1)];
      Reply(LineResult(stored, |stored| < maxlen - 1), stored)
  }

  /** The right replies to a run of calls. */
  function Answers(s: seq<byte>, calls: seq<Call>): seq<Reply>
    decreases |calls|
  {
    if calls == [] then []
    else
      var r := Answer(s, calls[0]);
      [r] + Answers(s[|r.stored|..], calls[1..])
  }

  /** A reply is the right one, or reports an error after storing part of the right bytes. */
  predicate Fair(s: seq<byte>, call: Call, r: Reply) {
    r == Answer(s, call) || (r.result == -1 && r.stored <= Answer(s, call).stored)
  }

  function Errors(replies: seq<Reply>): nat {
    if replies == [] then 0
    else Errors(replies[..|replies| - 1]) + if replies[|replies| - 1].result == -1 then 1 else 0
  }

  /** The bytes that the calls handed over. */
  function Delivered(replies: seq<Reply>): seq<byte> {
    if replies == [] then [] else Delivered(replies[..|replies| - 1]) + replies[|replies| - 1].stored
  }

  /** Every reply is fair to what remained when its call was made. */
  predicate AllFair(s: seq<byte>, calls: seq<Call>, replies: seq<Reply>)
    requires |replies| <= |calls|
  {
    replies == [] ||
    var before := replies[..|replies| - 1];
    && AllFair(s, calls, before)
    && |Delivered(before)| <= |s|
    && Fair(s[|Delivered(before)|..], calls[|before|], replies[|replies| - 1])
  }

  // ----- the reader -----

  class Reader {
    const fd: Descriptor
    var rioCnt: int
    var rioBufptr: nat
    const rioBuf: array<byte>

    /** rio_readinitb. */
    constructor (fd: Descriptor)
      ensures Valid() && this.fd == fd && fresh(rioBuf)
      ensures Remaining() == fd.stream
    {
      this.fd, rioCnt, rioBufptr := fd, 0, 0;
      rioBuf := new byte[RIO_BUFSIZE](_ => 0);
    }

    ghost function Unread(): seq<byte>
      requires rioCnt > 0 ==> rioBufptr + rioCnt <= rioBuf.Length
      reads this, rioBuf
    {
      if rioCnt > 0 then rioBuf[rioBufptr..rioBufptr + rioCnt] else []
    }

    /** The bytes callers can still get. */
    ghost function Remaining(): seq<byte>
      requires rioCnt > 0 ==> rioBufptr + rioCnt <= rioBuf.Length
      reads this, rioBuf, fd
    {
      Unread() + fd.stream
    }

    ghost predicate Valid()
      reads this, rioBuf
    {
      && rioBuf.Length == RIO_BUFSIZE && rioCnt >= -1
      && (rioCnt > 0 ==> rioBufptr + rioCnt <= rioBuf.Length)
    }

    /**
      The loop of rio_read: refill until there are bytes, the end or an error; the
      error is that of a failing read.
     */
    method Refill() returns (status: int)
      requires Valid()
      modifies this`rioCnt, this`rioBufptr, rioBuf, fd
      ensures Valid() && Remaining() == old(Remaining())
      ensures status == (if rioCnt > 0 then 1 else if rioCnt == 0 then 0 else -1)
      ensures status == 0 ==> Remaining() == []
      ensures Failures(old(fd.schedule)) == Failures(fd.schedule) + if status == -1 then 1 else 0
      ensures status == -1 ==> fd.errno == EIO
    {
      while rioCnt <= 0
        invariant Valid() && Remaining() == old(Remaining())
        invariant Failures(fd.schedule) == Failures(old(fd.schedule))
        decreases if rioCnt > 0 then 0 else 1, |fd.schedule|
      {
        var count, bytes := fd.Read(RIO_BUFSIZE);
        rioCnt := count;
        if rioCnt < 0 {
          if fd.errno != EINTR {
            return -1;
          }
        } else if rioCnt == 0 {
          return 0;
        } else {
          forall i | 0 <= i < |bytes| { rioBuf[i] := bytes[i]; }
          rioBufptr := 0;
          assert rioBuf[0..|bytes|] == bytes;
        }
      }
      status := 1;
    }

    /** The memcpy of rio_read: min(n, rioCnt) bytes leave the buffer. */
    method TakeUnread(n: nat) returns (cnt: nat, bytes: seq<byte>)
      requires Valid() && n > 0 && rioCnt > 0
      modifies this`rioCnt, this`rioBufptr
      ensures Valid() && bytes + Remaining() == old(Remaining())
      ensures 1 <= cnt <= n && |bytes| == cnt
    {
      cnt := n;
      if rioCnt < n {
        cnt := rioCnt;
      }
      SplitSlice(rioBuf[..], rioBufptr, rioCnt, cnt);
      bytes := rioBuf[rioBufptr..rioBufptr + cnt];
      rioBufptr := rioBufptr + cnt;
      rioCnt := rioCnt - cnt;
      assert rioCnt == 0 ==> rioBuf[rioBufptr..rioBufptr + rioCnt] == [];
      Regroup(bytes, Unread(), fd.stream);
    }

    /** rio_read: some bytes, 0 exactly at the end, or -1 exactly if a read failed. */
    method RioRead(n: nat) returns (cnt: int, bytes: seq<byte>)
      requires Valid() && n > 0
      modifies this`rioCnt, this`rioBufptr, rioBuf, fd
      ensures Valid() && bytes + Remaining() == old(Remaining())
      ensures -1 <= cnt <= n && |bytes| == (if cnt < 0 then 0 else cnt)
      ensures cnt == 0 ==> old(Remaining()) == []
      ensures Failures(old(fd.schedule)) == Failures(fd.schedule) + if cnt == -1 then 1 else 0
      ensures cnt == -1 ==> fd.errno == EIO
    {
      var status := Refill();
      if status <= 0 {
        return status, [];
      }
      cnt, bytes := TakeUnread(n);
    }

    /** One rio_read into the user buffer, which holds the first bufp bytes of all. */
    method ReadInto(usrbuf: array<byte>, bufp: nat, n: nat, ghost all: seq<byte>) returns (cnt: int)
      requires Valid() && n > 0 && bufp + n <= usrbuf.Length && usrbuf != rioBuf
      requires usrbuf[..bufp] + Remaining() == all
      modifies this`rioCnt, this`rioBufptr, rioBuf, fd, usrbuf
      ensures Valid() && -1 <= cnt <= n
      ensures usrbuf[..bufp + if cnt < 0 then 0 else cnt] + Remaining() == all
      ensures cnt == 0 ==> Remaining() == []
      ensures Failures(old(fd.schedule)) == Failures(fd.schedule) + if cnt == -1 then 1 else 0
      ensures cnt == -1 ==> fd.errno == EIO
    {
      ghost var stored := usrbuf[..bufp];
      var part;
      cnt, part := RioRead(n);
      Regroup(stored, part, Remaining());
      forall i | 0 <= i < |part| { usrbuf[bufp + i] := part[i]; }
      assert usrbuf[..bufp + |part|] == stored + part;
    }

    /** The loop of rio_readnb: it stores bufp bytes. */
    method FillBuffer(usrbuf: array<byte>, n: nat, ghost all: seq<byte>) returns (failed: bool, bufp: nat)
      requires Valid() && n <= usrbuf.Length && usrbuf != rioBuf && all == Remaining()
      modifies this`rioCnt, this`rioBufptr, rioBuf, fd, usrbuf
      ensures Valid() && bufp <= n && usrbuf[..bufp] + Remaining() == all
      ensures Failures(old(fd.schedule)) == Failures(fd.schedule) + if failed then 1 else 0
      ensures !failed ==> bufp == n || Remaining() == []
    {
      ghost var failures := Failures(fd.schedule);
      var nleft := n;
      bufp := 0;
      assert usrbuf[..0] + all == all;
      while nleft > 0
        invariant Valid() && 0 <= nleft && bufp + nleft == n
        invariant usrbuf[..bufp] + Remaining() == all
        invariant Failures(fd.schedule) == failures
        decreases nleft
      {
        var nread := ReadInto(usrbuf, bufp, nleft, all);
        if nread < 0 {
          if fd.errno != EINTR {
            return true, bufp;
          }
          nread := 0;
        } else if nread == 0 {
          break;
        }
        nleft := nleft - nread;
        bufp := bufp + nread;
      }
      failed := false;
    }

    /**
      rio_readnb: the first min(n, remaining) bytes are stored, whatever
      interruptions and short reads occur; it fails exactly if it meets a failing read.
     */
    method ReadNb(usrbuf: array<byte>, n: nat) returns (result: int, bufp: nat)
      requires Valid() && n <= usrbuf.Length && usrbuf != rioBuf
      modifies this`rioCnt, this`rioBufptr, rioBuf, fd, usrbuf
      ensures Valid() && bufp <= n && usrbuf[..bufp] + Remaining() == old(Remaining())
      ensures Failures(old(fd.schedule)) == Failures(fd.schedule) + if result == -1 then 1 else 0
      ensures Fair(old(Remaining()), GetBytes(n), Reply(result, usrbuf[..bufp]))
    {
      ghost var all := Remaining();
      var failed;
      failed, bufp := FillBuffer(usrbuf, n, all);
      if failed {
        FairError(usrbuf[..bufp], Remaining(), all, n);
        return -1, bufp;
      }
      FairDone(usrbuf[..bufp], Remaining(), all, n);
      result := bufp;
    }

    /** One rio_read of a character and, if there is one, its store in the user buffer. */
    method StoreChar(usrbuf: array<byte>, bufp: nat) returns (rc: int, c: byte)
      requires Valid() && bufp < usrbuf.Length && usrbuf != rioBuf
      modifies this`rioCnt, this`rioBufptr, rioBuf, fd, usrbuf
      ensures Valid() && -1 <= rc <= 1
      ensures rc == 1 ==>
        && [c] + Remaining() == old(Remaining())
        && usrbuf[..bufp + 1] == old(usrbuf[..bufp]) + [c]
      ensures rc != 1 ==>
        && Remaining() == old(Remaining())
        && usrbuf[..bufp] == old(usrbuf[..bufp])
      ensures rc == 0 ==> Remaining() == []
      ensures Failures(old(fd.schedule)) == Failures(fd.schedule) + if rc == -1 then 1 else 0
    {
      var bytes;
      c := 0;
      rc, bytes := RioRead(1);
      if rc == 1 {
        c := bytes[0];
        assert bytes == [c];
        usrbuf[bufp] := c;
      }
    }

    /**
      The loop of rio_readlineb. It ends with the line or the limit (status 1), at
      the end of the stream (0) or on an error (-1); bufp bytes are stored then.
     */
    method CopyLine(usrbuf: array<byte>, maxlen: nat) returns (status: int, n: nat, bufp: nat)
      requires Valid() && 1 <= maxlen <= usrbuf.Length && usrbuf != rioBuf
      modifies this`rioCnt, this`rioBufptr, rioBuf, fd, usrbuf
      ensures Valid() && bufp < maxlen && usrbuf[..bufp] + Remaining() == old(Remaining())
      ensures -1 <= status <= 1
      ensures Failures(old(fd.schedule)) == Failures(fd.schedule) + if status == -1 then 1 else 0
      ensures n == if EndsLine(usrbuf[..bufp]) then bufp else bufp + 1
      ensures bufp <= LineLength(old(Remaining()), maxlen - 1)
      ensures status >= 0 ==> bufp == LineLength(old(Remaining()), maxlen - 1)
      ensures status == 0 ==> bufp < maxlen - 1 && !EndsLine(usrbuf[..bufp])
      ensures status == 1 ==> EndsLine(usrbuf[..bufp]) || bufp == maxlen - 1
    {
      ghost var all, stored := Remaining(), [];
      n, bufp := 1, 0;
      while n < maxlen
        invariant Valid() && 1 <= n <= maxlen && bufp == n - 1 == |stored|
        invariant usrbuf[..bufp] == stored && stored + Remaining() == all
        invariant LineLength(all, maxlen - 1) == LineEnd(all, bufp, maxlen - 1)
        invariant !EndsLine(stored)
        invariant Failures(fd.schedule) == Failures(old(fd.schedule))
        decreases maxlen - n
      {
        var rc, c := StoreChar(usrbuf, bufp);
        if rc != 1 {
          return rc, n, bufp;
        }
        NextByte(stored, c, Remaining(), all);
        stored := stored + [c];
        bufp := bufp + 1;
        if c == NEWLINE {
          return 1, n, bufp;
        }
        n := n + 1;
      }
      status := 1;
    }

    /**
      rio_readlineb. The user buffer gets the line and then a NUL, except when the
      end is met at once; it fails exactly if it meets a failing read. bufp is where
      the pointer into the user buffer stops.
     */
    method ReadLineb(usrbuf: array<byte>, maxlen: nat) returns (result: int, bufp: nat)
      requires Valid() && 1 <= maxlen <= usrbuf.Length && usrbuf != rioBuf
      modifies this`rioCnt, this`rioBufptr, rioBuf, fd, usrbuf
      ensures Valid() && bufp < maxlen && usrbuf[..bufp] + Remaining() == old(Remaining())
      ensures Failures(old(fd.schedule)) == Failures(fd.schedule) + if result == -1 then 1 else 0
      ensures Fair(old(Remaining()), GetLine(maxlen), Reply(result, usrbuf[..bufp]))
      ensures result > 0 ==> usrbuf[bufp] == 0
    {
      ghost var all := Remaining();
      var status, n;
      status, n, bufp := CopyLine(usrbuf, maxlen);
      ghost var stored := usrbuf[..bufp];
      assert stored == all[..bufp];
      if status < 0 {
        assert stored <= Answer(all, GetLine(maxlen)).stored;
        return -1, bufp;
      }
      if status == 0 && n == 1 {
        return 0, bufp;
      }
      usrbuf[bufp] := 0;
      assert usrbuf[..bufp] == stored;
      result := n;
    }
  }

  // ----- any run of calls -----

  method RunCall(reader: Reader, usrbuf: array<byte>, call: Call) returns (r: Reply)
    requires reader.Valid() && usrbuf != reader.rioBuf && FitsBuffer(call, usrbuf.Length)
    modifies reader, reader.rioBuf, reader.fd, usrbuf
    ensures reader.Valid() && r.stored + reader.Remaining() == old(reader.Remaining())
    ensures Fair(old(reader.Remaining()), call, r)
    ensures Failures(old(reader.fd.schedule)) == Failures(reader.fd.schedule) + if r.result == -1 then 1 else 0
  {
    var result, bufp;
    match call {
      case GetBytes(n) =>
        result, bufp := reader.ReadNb(usrbuf, n);
      case GetLine(maxlen) =>
        result, bufp := reader.ReadLineb(usrbuf, maxlen);
    }
    r := Reply(result, usrbuf[..bufp]);
  }

  /** The replies so far are the right ones as long as none reports an error. */
  predicate RightSoFar(s: seq<byte>, calls: seq<Call>, replies: seq<Reply>, rest: seq<byte>) {
    && |replies| <= |calls|
    && Delivered(replies) + rest == s && AllFair(s, calls, replies)
    && (Errors(replies) == 0 ==> Answers(s, calls) == replies + Answers(rest, calls[|replies|..]))
  }

  lemma OneMoreReply(replies: seq<Reply>, r: Reply)
    ensures Delivered(replies + [r]) == Delivered(replies) + r.stored
    ensures Errors(replies + [r]) == Errors(replies) + if r.result == -1 then 1 else 0
  {
    assert (replies + [r])[..|replies|] == replies;
  }

  lemma OneMoreAnswer(replies: seq<Reply>, rest: seq<byte>, left: seq<Call>, r: Reply, rest': seq<byte>)
    requires left != [] && r == Answer(rest, left[0]) && r.stored + rest' == rest
    ensures replies + Answers(rest, left) == (replies + [r]) + Answers(rest', left[1..])
  {
    assert rest[|r.stored|..] == rest';
    var more := Answers(rest', left[1..]);
    assert Answers(rest, left) == [r] + more;
    Regroup(replies, [r], more);
  }

  lemma OneMoreFair(s: seq<byte>, calls: seq<Call>, replies: seq<Reply>, r: Reply, rest: seq<byte>)
    requires |replies| < |calls| && AllFair(s, calls, replies)
    requires Delivered(replies) + rest == s && Fair(rest, calls[|replies|], r)
    ensures AllFair(s, calls, replies + [r])
  {
    assert (replies + [r])[..|replies|] == replies;
    assert s[|Delivered(replies)|..] == rest;
  }

  lemma NextReply(s: seq<byte>, calls: seq<Call>, replies: seq<Reply>, rest: seq<byte>, r: Reply, rest': seq<byte>)
    requires RightSoFar(s, calls, replies, rest) && |replies| < |calls|
    requires r.stored + rest' == rest && Fair(rest, calls[|replies|], r)
    ensures RightSoFar(s, calls, replies + [r], rest')
  {
    OneMoreReply(replies, r);
    Regroup(Delivered(replies), r.stored, rest');
    OneMoreFair(s, calls, replies, r, rest);
    var left := calls[|replies|..];
    if r.result != -1 {
      OneMoreAnswer(replies, rest, left, r, rest');
      assert left[1..] == calls[|replies| + 1..];
    }
  }

  /**
    Any run of calls. What the calls hand over, the unread part of the buffer and the
    bytes left in the descriptor make up the original stream; exactly the failing
    reads are reported; every other reply is the right one for what remained; and as
    long as no error is reported the replies are a function of the stream and the
    calls, however short or interrupted the reads were.
   */
  method RunCalls(reader: Reader, usrbuf: array<byte>, calls: seq<Call>) returns (replies: seq<Reply>)
    requires reader.Valid() && usrbuf != reader.rioBuf
    requires forall i :: 0 <= i < |calls| ==> FitsBuffer(calls[i], usrbuf.Length)
    modifies reader, reader.rioBuf, reader.fd, usrbuf
    ensures reader.Valid() && |replies| == |calls|
    ensures Delivered(replies) + (reader.Unread() + reader.fd.stream) == old(reader.Unread() + reader.fd.stream)
    ensures Failures(old(reader.fd.schedule)) == Failures(reader.fd.schedule) + Errors(replies)
    ensures AllFair(old(reader.Remaining()), calls, replies)
    ensures Errors(replies) == 0 ==> replies == Answers(old(reader.Remaining()), calls)
  {
    ghost var all, failures := reader.Remaining(), Failures(reader.fd.schedule);
    replies := [];
    for i := 0 to |calls|
      invariant reader.Valid() && |replies| == i
      invariant RightSoFar(all, calls, replies, reader.Remaining())
      invariant failures == Failures(reader.fd.schedule) + Errors(replies)
    {
      ghost var rest := reader.Remaining();
      var r := RunCall(reader, usrbuf, calls[i]);
      NextReply(all, calls, replies, rest, r, reader.Remaining());
      OneMoreReply(replies, r);
      replies := replies + [r];
    }
    assert calls[|calls|..] == [];
  }

  // ----- sequences -----

  lemma Regroup<T>(a: seq<T>, b: seq<T>, c: seq<T>)
    ensures (a + b) + c == a + (b + c)
  {
  }

  lemma SplitSlice(c: seq<byte>, p: nat, n: nat, k: nat)
    requires p + n <= |c| && k <= n
    ensures c[p..p + n] == c[p..p + k] + c[p + k..p + n]
  {
  }

  lemma NextByte(stored: seq<byte>, c: byte, rest: seq<byte>, all: seq<byte>)
    requires stored + ([c] + rest) == all
    ensures |stored| < |all| && all[|stored|] == c && (stored + [c]) + rest == all
  {
  }

  lemma FairError(part: seq<byte>, rest: seq<byte>, all: seq<byte>, n: nat)
    requires part + rest == all && |part| <= n
    ensures Fair(all, GetBytes(n), Reply(-1, part))
  {
    assert part <= Upto(all, n);
  }

  lemma FairDone(part: seq<byte>, rest: seq<byte>, all: seq<byte>, n: nat)
    requires part + rest == all && |part| <= n && (|part| == n || rest == [])
    ensures Fair(all, GetBytes(n), Reply(|part|, part))
  {
    IsUpto(part, rest, all, n);
  }

  /** A prefix of n bytes, or all there is. */
  lemma IsUpto(part: seq<byte>, rest: seq<byte>, all: seq<byte>, n: nat)
    requires part + rest == all && |part| <= n && (|part| == n || rest == [])
    ensures part == Upto(all, n)
  {
    assert all[..|part|] == part;
  }
}
