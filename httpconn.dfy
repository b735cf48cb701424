/// Model of one client connection (code/http/httpconn.h, code/http/httpconn.cpp).
///
/// A connection owns a read buffer, a write buffer and a request, and sends its response
/// with a two-slot scatter/gather write: slot 0 is the unread part of the write buffer
/// (the status line and headers), slot 1 the mapped file.  The kernel calls `readv` and
/// `writev` are inputs: the model is given what each call returns.  The response builder
/// is a parameter too (`Renderer`).

module HttpConns {

  import opened Wrappers
  import Buffers
  import HttpRequests

  /** The connection counter shared by all connections (`userCount`). */
  class UserCount {
    var count: int

    constructor ()
      ensures count == 0
    {
      count := 0;
    }
  }

  /** One `iovec`: an offset into the memory it describes and a byte count. */
  datatype IoVec = IoVec(base: nat, len: nat)

  /** The two slots of the write descriptor. */
  datatype Slots = Slots(iov0: IoVec, iov1: IoVec)

  /** `ToWriteBytes`: both slots count, whatever the number of active slots. */
  function ToWrite(s: Slots): nat
  {
    s.iov0.len + s.iov1.len
  }

  /** The bytes a `writev` over the first `iovCnt` slots asks for. */
  function Requested(s: Slots, iovCnt: int): (n: nat)
    ensures n <= ToWrite(s)
  {
    s.iov0.len + (if iovCnt == 2 then s.iov1.len else 0)
  }

  /** One `writev` call as the kernel answered it: the count it reported (negative for an
      error) and `errno` afterwards. */
  datatype Writev = Writev(ret: int, errno: int)

  /** What `writev` returns: -1 on error, otherwise the bytes written, which never exceed the
      bytes asked for. */
  function WritevLen(w: Writev, requested: nat): (len: int)
    ensures len <= requested
    ensures len <= 0 <==> w.ret <= 0 || requested == 0
  {
    if w.ret < 0 then -1 else if w.ret < requested then w.ret else requested
  }

  /** The slot update after `len` bytes went out: past slot 0 the rest is taken from slot 1
      and slot 0 is emptied; otherwise slot 0 advances. */
  function Advance(s: Slots, len: nat): (r: Slots)
    requires 0 < len <= ToWrite(s)
  {
    if len > s.iov0.len then
      Slots(IoVec(s.iov0.base, 0), IoVec(s.iov1.base + (len - s.iov0.len), s.iov1.len - (len - s.iov0.len)))
    else
      Slots(IoVec(s.iov0.base + len, s.iov0.len - len), s.iov1)
  }

  /** Both slots lie inside the memories they describe: the write buffer's storage `head` and
      the mapped file `file`. */
  predicate Fits(s: Slots, head: seq<char>, file: seq<char>)
  {
    s.iov0.base + s.iov0.len <= |head| && s.iov1.base + s.iov1.len <= |file|
  }

  /** The bytes still to be sent: slot 0's bytes, then slot 1's. */
  function Stream(s: Slots, head: seq<char>, file: seq<char>): seq<char>
    requires Fits(s, head, file)
  {
    head[s.iov0.base..s.iov0.base + s.iov0.len] + file[s.iov1.base..s.iov1.base + s.iov1.len]
  }

  /** After a write of `len` bytes the pending count drops by exactly `len`, and the bytes
      still to be sent are the old ones without their first `len`. */
  lemma AdvanceSends(s: Slots, len: nat, head: seq<char>, file: seq<char>)
    requires 0 < len <= ToWrite(s) && Fits(s, head, file)
    ensures ToWrite(Advance(s, len)) == ToWrite(s) - len
    ensures Fits(Advance(s, len), head, file)
    ensures Stream(Advance(s, len), head, file) == Stream(s, head, file)[len..]
  {
    var a := head[s.iov0.base..s.iov0.base + s.iov0.len];
    var b := file[s.iov1.base..s.iov1.base + s.iov1.len];
    var r := Advance(s, len);
    if len > s.iov0.len {
      assert Stream(r, head, file) == [] + b[len - |a|..];
    } else {
      assert Stream(r, head, file) == a[len..] + b;
    }
  }

  /** A positive write leaves bytes pending before the update, so the source's test for an
      empty descriptor right after it (httpconn.cpp line 83) never succeeds. */
  lemma EmptyTestAfterWriteIsDead(s: Slots, iovCnt: int, w: Writev)
    requires WritevLen(w, Requested(s, iovCnt)) > 0
    ensures ToWrite(s) > 0
  {
  }

  /** The end of a run of the write loop: the last value `writev` returned, the slots, and
      the index of the last call. */
  datatype WriteEnd = WriteEnd(len: int, slots: Slots, last: nat)

  /** The calls are answered in order by `outs`, whose last answer ends any run. */
  predicate Answers(outs: seq<Writev>)
  {
    |outs| > 0 && outs[|outs| - 1].ret <= 0
  }

  /** The write loop: call `writev`, stop on a result <= 0, otherwise advance the slots and go
      on in edge-triggered mode or while more than 10240 bytes are pending. */
  function WriteRun(s: Slots, iovCnt: int, outs: seq<Writev>, isET: bool): (r: WriteEnd)
    requires Answers(outs)
    ensures r.last < |outs|
    decreases |outs|
  {
    var len := WritevLen(outs[0], Requested(s, iovCnt));
    if len <= 0 then WriteEnd(len, s, 0)
    else
      var s' := Advance(s, len);
      if isET || ToWrite(s') > 10240 then
        var r := WriteRun(s', iovCnt, outs[1..], isET);
        r.(last := r.last + 1)
      else WriteEnd(len, s', 0)
  }

  /** One turn of the write loop from answer `k` on: a stop, or the run from answer `k + 1`
      on the advanced slots. */
  lemma WriteRunOnce(s: Slots, iovCnt: int, outs: seq<Writev>, k: nat, isET: bool)
    requires k < |outs| && Answers(outs[k..])
    ensures var len := WritevLen(outs[k], Requested(s, iovCnt));
            var r := WriteRun(s, iovCnt, outs[k..], isET);
            && (len <= 0 ==> r == WriteEnd(len, s, 0))
            && (len > 0 && !(isET || ToWrite(Advance(s, len)) > 10240) ==> r == WriteEnd(len, Advance(s, len), 0))
            && (len > 0 && (isET || ToWrite(Advance(s, len)) > 10240) ==>
                  && k + 1 < |outs| && Answers(outs[k + 1..])
                  && var r' := WriteRun(Advance(s, len), iovCnt, outs[k + 1..], isET);
                     r.len == r'.len && r.slots == r'.slots && r.last == r'.last + 1)
  {
    assert outs[k..][0] == outs[k];
    assert outs[k..][1..] == outs[k + 1..];
  }

  /** A run of the write loop sends a prefix of the pending bytes and stops only on a failed
      or empty write, or (outside edge-triggered mode) once at most 10240 bytes are pending. */
  lemma WriteRunSends(s: Slots, iovCnt: int, outs: seq<Writev>, isET: bool, head: seq<char>, file: seq<char>)
    requires Answers(outs) && Fits(s, head, file)
    ensures var r := WriteRun(s, iovCnt, outs, isET);
            && ToWrite(r.slots) <= ToWrite(s) && Fits(r.slots, head, file)
            && Stream(r.slots, head, file) == Stream(s, head, file)[ToWrite(s) - ToWrite(r.slots)..]
            && (r.len <= 0 || (!isET && ToWrite(r.slots) <= 10240))
            && (r.len <= 0 ==> outs[r.last].ret <= 0 || Requested(r.slots, iovCnt) == 0)
            && (r.len > 0 ==> outs[r.last].ret > 0)
            && (forall m :: 0 <= m < r.last ==> outs[m].ret > 0)
  {
    WriteRunPrefix(s, iovCnt, outs, isET, head, file);
    WriteRunStops(s, iovCnt, outs, isET);
  }

  /** What a run of the write loop leaves pending is a suffix of what was pending. */
  lemma {:induction false} WriteRunPrefix(s: Slots, iovCnt: int, outs: seq<Writev>, isET: bool, head: seq<char>, file: seq<char>)
    requires Answers(outs) && Fits(s, head, file)
    ensures var r := WriteRun(s, iovCnt, outs, isET);
            && ToWrite(r.slots) <= ToWrite(s) && Fits(r.slots, head, file)
            && Stream(r.slots, head, file) == Stream(s, head, file)[ToWrite(s) - ToWrite(r.slots)..]
    decreases |outs|
  {
    var len := WritevLen(outs[0], Requested(s, iovCnt));
    var x := Stream(s, head, file);
    assert |x| == ToWrite(s);
    if len <= 0 {
      assert WriteRun(s, iovCnt, outs, isET).slots == s;
      assert x[0..] == x;
    } else {
      var s' := Advance(s, len);
      AdvanceSends(s, len, head, file);
      if isET || ToWrite(s') > 10240 {
        var tail := outs[1..];
        WriteRunPrefix(s', iovCnt, tail, isET, head, file);
        var r := WriteRun(s', iovCnt, tail, isET);
        assert WriteRun(s, iovCnt, outs, isET).slots == r.slots;
        DropDrop(x, len, ToWrite(s') - ToWrite(r.slots));
      } else {
        assert WriteRun(s, iovCnt, outs, isET).slots == s';
      }
    }
  }

  /** Dropping `a` elements and then `b` more drops `a + b`. */
  lemma DropDrop(x: seq<char>, a: nat, b: nat)
    requires a + b <= |x|
    ensures x[a..][b..] == x[a + b..]
  {
  }

  /** A run of the write loop stops at its first failed or empty write, or (outside
      edge-triggered mode) at the first write after which at most 10240 bytes are pending;
      every call before the last one wrote something. */
  lemma {:induction false} WriteRunStops(s: Slots, iovCnt: int, outs: seq<Writev>, isET: bool)
    requires Answers(outs)
    ensures var r := WriteRun(s, iovCnt, outs, isET);
            && (r.len <= 0 || (!isET && ToWrite(r.slots) <= 10240))
            && (r.len <= 0 ==> outs[r.last].ret <= 0 || Requested(r.slots, iovCnt) == 0)
            && (r.len > 0 ==> outs[r.last].ret > 0)
            && (forall m :: 0 <= m < r.last ==> outs[m].ret > 0)
    decreases |outs|
  {
    var len := WritevLen(outs[0], Requested(s, iovCnt));
    if len > 0 {
      var s' := Advance(s, len);
      if isET || ToWrite(s') > 10240 {
        var tail := outs[1..];
        WriteRunStops(s', iovCnt, tail, isET);
        var r := WriteRun(s', iovCnt, tail, isET);
        assert outs[r.last + 1] == tail[r.last];
        forall m | 0 <= m < r.last + 1
          ensures outs[m].ret > 0
        {
          if m > 0 {
            assert outs[m] == tail[m - 1];
          }
        }
      }
    }
  }

  /** The index of the read loop's last call when it has reached call `k`: `k` itself when
      that call returns no bytes or the mode is level-triggered, a later call otherwise. */
  function LastRead(outs: seq<Buffers.ReadOutcome>, k: nat, isET: bool): (n: nat)
    requires k < |outs| && Buffers.ReadLen(outs[|outs| - 1]) <= 0
    ensures k <= n < |outs|
    decreases |outs| - k
  {
    if Buffers.ReadLen(outs[k]) <= 0 || !isET then k else LastRead(outs, k + 1, isET)
  }

  /** The reads of the read loop: one call, or in edge-triggered mode every call up to the
      first one that returns no bytes. */
  function ReadCalls(outs: seq<Buffers.ReadOutcome>, isET: bool): (n: nat)
    requires |outs| > 0 && Buffers.ReadLen(outs[|outs| - 1]) <= 0
    ensures 1 <= n <= |outs|
  {
    LastRead(outs, 0, isET) + 1
  }

  /** The bytes one read delivered: none when it failed. */
  function Got(o: Buffers.ReadOutcome): seq<char>
  {
    match o
    case Delivered(bytes) => bytes
    case ReadFailed(_) => []
  }

  /** The bytes a series of reads delivered, in order. */
  function Received(outs: seq<Buffers.ReadOutcome>): seq<char>
  {
    if |outs| == 0 then [] else Got(outs[0]) + Received(outs[1..])
  }

  /** Outside edge-triggered mode the loop reads once; in it, the loop drains the socket:
      every read but the last delivered bytes, and the last delivered none. */
  lemma ReadCallsDrain(outs: seq<Buffers.ReadOutcome>, isET: bool)
    requires |outs| > 0 && Buffers.ReadLen(outs[|outs| - 1]) <= 0
    ensures var n := ReadCalls(outs, isET);
            && (!isET ==> n == 1)
            && (isET ==> Buffers.ReadLen(outs[n - 1]) <= 0)
            && (forall m :: 0 <= m < n - 1 ==> Buffers.ReadLen(outs[m]) > 0)
  {
    LastReadDrain(outs, 0, isET);
  }

  /** From call `k` on, the loop stops at once in level-triggered mode, and otherwise at the
      first call that returns no bytes. */
  lemma {:induction false} LastReadDrain(outs: seq<Buffers.ReadOutcome>, k: nat, isET: bool)
    requires k < |outs| && Buffers.ReadLen(outs[|outs| - 1]) <= 0
    ensures var n := LastRead(outs, k, isET);
            && (!isET ==> n == k)
            && (isET ==> Buffers.ReadLen(outs[n]) <= 0)
            && (forall m :: k <= m < n ==> Buffers.ReadLen(outs[m]) > 0)
    decreases |outs| - k
  {
    if isET && Buffers.ReadLen(outs[k]) > 0 {
      LastReadDrain(outs, k + 1, isET);
    }
  }

  /** `Received` of a longer prefix adds the next read's bytes. */
  lemma ReceivedSnoc(outs: seq<Buffers.ReadOutcome>, k: nat)
    requires k < |outs|
    ensures Received(outs[..k + 1])
         == Received(outs[..k]) + Got(outs[k])
    decreases k
  {
    if k > 0 {
      ReceivedSnoc(outs[1..], k - 1);
      assert outs[1..][..k] == outs[..k + 1][1..];
      assert outs[1..][..k - 1] == outs[..k][1..];
    }
  }

  /** What the response builder produces for a path, a keep-alive flag and a status code:
      the status line and headers, and the mapped file (its length; `mapped` is false when
      no file is mapped). */
  datatype Rendered = Rendered(head: string, fileLen: int, mapped: bool)

  type Renderer = (string, bool, int) -> Rendered

  class HttpConn {
    var fd: int
    var isClose: bool
    var iovCnt: int
    var iov0: IoVec
    var iov1: IoVec
    /** The status code and keep-alive flag the response was initialised with. */
    var code: int
    var keepAlive: bool
    /** Whether the response holds a file mapping. */
    var mapped: bool
    const readBuff: Buffers.Buffer
    const writeBuff: Buffers.Buffer
    const request: HttpRequests.HttpRequest
    const users: UserCount

    ghost predicate Valid()
      reads this, readBuff, writeBuff
    {
      readBuff.Valid() && writeBuff.Valid() && readBuff != writeBuff
    }

    /** Slot 0 describes exactly the unread part of the write buffer. */
    ghost predicate Synced()
      reads this, writeBuff
      requires writeBuff.Valid()
    {
      iov0.len == writeBuff.ReadableBytes() && (iov0.len > 0 ==> iov0.base == writeBuff.readPos)
    }

    /** The slots as a value. */
    function Pending(): Slots
      reads this
    {
      Slots(iov0, iov1)
    }

    /** `ToWriteBytes`. */
    function ToWriteBytes(): (n: nat)
      reads this
      ensures n == iov0.len + iov1.len
    {
      ToWrite(Pending())
    }

    /** `IsKeepAlive` asks the request. */
    function IsKeepAlive(): (b: bool)
      reads this, request
      ensures b <==> HttpRequests.KeepAlive(request.Value())
    {
      request.IsKeepAlive()
    }

    /** A new connection has no socket and counts as closed.  The source leaves the write
        descriptor uninitialised; the model starts it empty. */
    constructor (users: UserCount)
      ensures Valid() && fd == -1 && isClose && !mapped
      ensures this.users == users && fresh(readBuff) && fresh(writeBuff) && fresh(request)
      ensures readBuff.Unread() == [] && writeBuff.Unread() == []
    {
      fd := -1;
      isClose := true;
      iovCnt := 0;
      iov0, iov1 := IoVec(0, 0), IoVec(0, 0);
      code, keepAlive, mapped := -1, false, false;
      readBuff := new Buffers.Buffer();
      writeBuff := new Buffers.Buffer();
      request := new HttpRequests.HttpRequest();
      this.users := users;
    }

    /** `init`: counts the connection, takes the socket, empties both buffers and opens. */
    method Init(sockFd: int)
      requires Valid() && sockFd > 0
      modifies this, users, readBuff, writeBuff
      ensures Valid()
      ensures users.count == old(users.count) + 1
      ensures fd == sockFd && !isClose
      ensures readBuff.Unread() == [] && writeBuff.Unread() == []
      ensures Pending() == old(Pending()) && iovCnt == old(iovCnt) && mapped == old(mapped)
      ensures code == old(code) && keepAlive == old(keepAlive)
    {
      users.count := users.count + 1;
      fd := sockFd;
      writeBuff.RetrieveAll();
      readBuff.RetrieveAll();
      isClose := false;
    }

    /** `Close`: the file mapping is always released; only an open connection is uncounted
        and closed, so closing twice is closing once. */
    method Close()
      modifies this, users
      ensures !mapped && isClose
      ensures users.count == (if old(isClose) then old(users.count) else old(users.count) - 1)
      ensures fd == old(fd) && Pending() == old(Pending()) && iovCnt == old(iovCnt)
      ensures code == old(code) && keepAlive == old(keepAlive)
    {
      mapped := false;
      if !isClose {
        isClose := true;
        users.count := users.count - 1;
      }
    }

    /** `read`: calls `readv` once, or in edge-triggered mode until it delivers nothing; the
        answers are `outs`.  Returns the last result and the saved error number. */
    method Read(outs: seq<Buffers.ReadOutcome>, isET: bool, savedErrno: int) returns (len: int, errno: int)
      requires Valid() && |outs| > 0 && Buffers.ReadLen(outs[|outs| - 1]) <= 0
      modifies readBuff
      ensures Valid()
      ensures var n := ReadCalls(outs, isET);
              && readBuff.Unread() == old(readBuff.Unread()) + Received(outs[..n])
              && len == Buffers.ReadLen(outs[n - 1])
              && errno == (if outs[n - 1].ReadFailed? then outs[n - 1].errno else savedErrno)
    {
      var k := 0;
      errno := savedErrno;
      while true
        invariant k < |outs| && readBuff.Valid()
        invariant LastRead(outs, k, isET) == LastRead(outs, 0, isET)
        invariant readBuff.Unread() == old(readBuff.Unread()) + Received(outs[..k])
        invariant errno == savedErrno
        decreases |outs| - k
      {
        ReceivedSnoc(outs, k);
        len, errno := ReadOnce(outs[k], errno);
        if len <= 0 || !isET {
          assert ReadCalls(outs, isET) == k + 1;
          return;
        }
        k := k + 1;
      }
    }

    /** One `readv` call of the read loop, answered by `o`. */
    method ReadOnce(o: Buffers.ReadOutcome, savedErrno: int) returns (len: int, errno: int)
      requires Valid()
      modifies readBuff
      ensures Valid()
      ensures readBuff.Unread() == old(readBuff.Unread()) + Got(o)
      ensures len == Buffers.ReadLen(o) && errno == (if o.ReadFailed? then o.errno else savedErrno)
    {
      len, errno := readBuff.ReadFd(o, savedErrno);
    }

    /** The write buffer's unread bytes are the last `iov0.len` bytes of `orig`. */
    ghost predicate TailOf(orig: seq<char>)
      reads this, writeBuff
      requires writeBuff.Valid()
    {
      iov0.len <= |orig| && writeBuff.Unread() == orig[|orig| - iov0.len..]
    }

    /** The slot update in the body of the write loop after `len` bytes went out, with the
        write buffer following slot 0: its first bytes, as many as slot 0 loses, are
        consumed, so that it stays a tail of the bytes `orig` the loop started with. */
    method Sent(len: nat, ghost orig: seq<char>)
      requires Valid() && Synced() && 0 < len <= Requested(Pending(), iovCnt) && TailOf(orig)
      modifies this`iov0, this`iov1, writeBuff
      ensures Valid() && Synced() && TailOf(orig)
      ensures Pending() == Advance(old(Pending()), len)
      ensures writeBuff.Unread() == old(writeBuff.Unread())[old(iov0.len) - iov0.len..]
      ensures iovCnt == old(iovCnt) && fd == old(fd) && isClose == old(isClose)
      ensures code == old(code) && keepAlive == old(keepAlive) && mapped == old(mapped)
    {
      if len > iov0.len {
        iov1 := IoVec(iov1.base + (len - iov0.len), iov1.len - (len - iov0.len));
        if iov0.len > 0 {
          writeBuff.RetrieveAll();
          iov0 := iov0.(len := 0);
        }
      } else {
        iov0 := IoVec(iov0.base + len, iov0.len - len);
        writeBuff.Retrieve(len);
      }
      DropDrop(orig, |orig| - old(iov0.len), old(iov0.len) - iov0.len);
    }

    /** `write`: the write loop over the answers `outs`, keeping slot 0 in step with the write
        buffer.  Returns the last result and the saved error number. */
    method Write(outs: seq<Writev>, isET: bool, savedErrno: int) returns (len: int, errno: int)
      requires Valid() && Synced() && Answers(outs)
      modifies this`iov0, this`iov1, writeBuff
      ensures Valid() && Synced()
      ensures var r := WriteRun(old(Pending()), iovCnt, outs, isET);
              && len == r.len && Pending() == r.slots
              && errno == (if r.len <= 0 then outs[r.last].errno else savedErrno)
      ensures TailOf(old(writeBuff.Unread()))
      ensures iovCnt == old(iovCnt) && fd == old(fd) && isClose == old(isClose)
      ensures code == old(code) && keepAlive == old(keepAlive) && mapped == old(mapped)
    {
      var k := 0;
      errno := savedErrno;
      ghost var r0 := WriteRun(Pending(), iovCnt, outs, isET);
      ghost var orig := writeBuff.Unread();
      assert orig[|orig| - iov0.len..] == orig;
      while true
        invariant k < |outs| && Valid() && Synced()
        invariant Answers(outs[k..])
        invariant var r := WriteRun(Pending(), iovCnt, outs[k..], isET);
                  r.len == r0.len && r.slots == r0.slots && k + r.last == r0.last
        invariant errno == savedErrno
        invariant TailOf(orig)
        decreases |outs| - k
      {
        WriteRunOnce(Pending(), iovCnt, outs, k, isET);
        len := WritevLen(outs[k], Requested(Pending(), iovCnt));
        if len <= 0 {
          errno := outs[k].errno;
          return;
        }
        Sent(len, orig);
        if !(isET || ToWriteBytes() > 10240) {
          return;
        }
        k := k + 1;
      }
    }

    /** The end of `process`: the response's headers go behind the unread bytes of the write
        buffer, slot 0 describes them, and slot 1 the file when one is mapped. */
    method Respond(out: Rendered)
      requires Valid()
      modifies this, writeBuff
      ensures Valid() && Synced()
      ensures writeBuff.Unread() == old(writeBuff.Unread()) + out.head && mapped == out.mapped
      ensures out.fileLen > 0 && out.mapped ==> iovCnt == 2 && iov1 == IoVec(0, out.fileLen)
      ensures !(out.fileLen > 0 && out.mapped) ==> iovCnt == 1 && iov1 == old(iov1)
      ensures fd == old(fd) && isClose == old(isClose) && code == old(code) && keepAlive == old(keepAlive)
    {
      mapped := out.mapped;
      writeBuff.Append(out.head);
      iov0 := IoVec(writeBuff.readPos, writeBuff.ReadableBytes());
      iovCnt := 1;
      if out.fileLen > 0 && out.mapped {
        iov1 := IoVec(0, out.fileLen);
        iovCnt := 2;
      }
    }

    /** `process`: a fresh request parses the read buffer; the response gets status 200 and
        the request's keep-alive when parsing succeeds, 400 and no keep-alive otherwise; its
        headers are appended to the write buffer and the slots are set up for them and for
        the file, if one is mapped. */
    method Process(store: HttpRequests.Verifier, render: Renderer) returns (ok: bool)
      requires Valid()
      modifies this, request, readBuff, writeBuff
      ensures Valid()
      ensures ok <==> old(readBuff.ReadableBytes()) > 0
      ensures !ok ==> request.Value() == HttpRequests.Fresh && Pending() == old(Pending())
                      && iovCnt == old(iovCnt) && writeBuff.Unread() == old(writeBuff.Unread())
                      && readBuff.Unread() == old(readBuff.Unread())
                      && code == old(code) && keepAlive == old(keepAlive) && mapped == old(mapped)
      ensures ok ==>
                var o := HttpRequests.ParseBuffer(HttpRequests.Fresh, old(readBuff.Unread()), store);
                var out := render(o.req.path, keepAlive, code);
                && request.Value() == o.req && readBuff.Unread() == o.rest
                && (o.ok ==> code == 200 && keepAlive == HttpRequests.KeepAlive(o.req))
                && (!o.ok ==> code == 400 && !keepAlive && o.req == HttpRequests.Fresh)
                && writeBuff.Unread() == old(writeBuff.Unread()) + out.head && mapped == out.mapped
                && Synced()
                && (out.fileLen > 0 && out.mapped ==> iovCnt == 2 && iov1 == IoVec(0, out.fileLen))
                && (!(out.fileLen > 0 && out.mapped) ==> iovCnt == 1 && iov1 == old(iov1))
      ensures fd == old(fd) && isClose == old(isClose)
    {
      request.Init();
      if readBuff.ReadableBytes() <= 0 {
        return false;
      }
      HttpRequests.ParseBufferFailureKeeps(HttpRequests.Fresh, readBuff.Unread(), store);
      var parsed := request.Parse(readBuff, store);
      if parsed {
        code, keepAlive := 200, request.IsKeepAlive();
      } else {
        code, keepAlive := 400, false;
      }
      var out := render(request.path, keepAlive, code);
      Respond(out);
      ok := true;
    }
  }
}
