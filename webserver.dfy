/// Model of the decisions of the event loop (code/server/webserver.cpp).
///
/// Event masks are `uint32_t` values of `<sys/epoll.h>`, modelled as `bv32`.  The kernel's
/// answers (ready events, accepted sockets, the clock) are inputs.  The table `users_` of
/// connection objects is not modelled here: admitting a client counts it in the shared
/// `UserCount`, as `HttpConn::init` does, and arms its timer.

module WebServers {

  import opened Wrappers
  import HeapTimers
  import HttpConns

  const EPOLLIN: bv32 := 0x001
  const EPOLLOUT: bv32 := 0x004
  const EPOLLERR: bv32 := 0x008
  const EPOLLHUP: bv32 := 0x010
  const EPOLLRDHUP: bv32 := 0x2000
  const EPOLLONESHOT: bv32 := 0x4000_0000
  const EPOLLET: bv32 := 0x8000_0000

  /** `EAGAIN` on Linux. */
  const EAGAIN: int := 11

  // ---------------------------------------------------------------------------
  // InitEventMode_
  // ---------------------------------------------------------------------------

  /** The event masks of the listening socket and of the connections, and `HttpConn::isET`. */
  datatype EventModes = EventModes(listenEvent: bv32, connEvent: bv32, isET: bool)

  /** `InitEventMode_`: both masks watch for a peer hang-up, connections are one-shot, and
      the trigger mode chooses which of them are edge-triggered. */
  function InitEventMode(trigMode: int): EventModes
  {
    var listen: bv32 := EPOLLRDHUP;
    var conn: bv32 := EPOLLONESHOT | EPOLLRDHUP;
    var m :=
      if trigMode == 0 then EventModes(listen, conn, false)
      else if trigMode == 1 then EventModes(listen, conn | EPOLLET, false)
      else if trigMode == 2 then EventModes(listen | EPOLLET, conn, false)
      else EventModes(listen | EPOLLET, conn | EPOLLET, false);
    m.(isET := m.connEvent & EPOLLET != 0)
  }

  /** The trigger-mode table: mode 0 is level-triggered throughout, 1 edge-triggers the
      connections, 2 the listener, and 3 or any other value both; the connection mask always
      holds ONESHOT and RDHUP, the listener's always RDHUP, and nothing else is set. */
  lemma EventModeTable(trigMode: int)
    ensures var m := InitEventMode(trigMode);
            && m.connEvent & (EPOLLONESHOT | EPOLLRDHUP) == EPOLLONESHOT | EPOLLRDHUP
            && m.listenEvent & EPOLLRDHUP == EPOLLRDHUP
            && m.connEvent & !(EPOLLONESHOT | EPOLLRDHUP | EPOLLET) == 0
            && m.listenEvent & !(EPOLLRDHUP | EPOLLET) == 0
            && (m.connEvent & EPOLLET != 0 <==> trigMode != 0 && trigMode != 2)
            && (m.listenEvent & EPOLLET != 0 <==> trigMode != 0 && trigMode != 1)
            && (m.isET <==> m.connEvent & EPOLLET != 0)
  {
  }

  /** The mask a new client is registered with in `AddClient_`: input plus the connection
      mask. */
  function ClientMask(connEvent: bv32): bv32
  {
    EPOLLIN | connEvent
  }

  /** The mask the listening socket is registered with in `InitSocket_`: the listener mask
      plus input. */
  function ListenMask(listenEvent: bv32): bv32
  {
    listenEvent | EPOLLIN
  }

  /** What the two registrations ask the kernel for: a client waits for input, one-shot, with
      hang-up reports; the listener waits for input with hang-up reports and is not one-shot;
      neither waits for output; each is edge-triggered as its trigger-mode mask says. */
  lemma RegistrationMasks(trigMode: int)
    ensures var m := InitEventMode(trigMode);
            var c := ClientMask(m.connEvent);
            && c & (EPOLLIN | EPOLLONESHOT | EPOLLRDHUP) == EPOLLIN | EPOLLONESHOT | EPOLLRDHUP
            && c & !(EPOLLIN | EPOLLONESHOT | EPOLLRDHUP | EPOLLET) == 0
            && (c & EPOLLET != 0 <==> trigMode != 0 && trigMode != 2)
    ensures var m := InitEventMode(trigMode);
            var l := ListenMask(m.listenEvent);
            && l & (EPOLLIN | EPOLLRDHUP) == EPOLLIN | EPOLLRDHUP
            && l & !(EPOLLIN | EPOLLRDHUP | EPOLLET) == 0
            && (l & EPOLLET != 0 <==> trigMode != 0 && trigMode != 1)
  {
    EventModeTable(trigMode);
  }

  // ---------------------------------------------------------------------------
  // The event loop (Start)
  // ---------------------------------------------------------------------------

  /** What the loop does with one ready event. */
  datatype Action = Accept | CloseConn | ReadTask | WriteTask | Unexpected

  /** The dispatch in `Start`: the first test that holds wins. */
  function Dispatch(fd: int, events: bv32, listenFd: int): Action
  {
    if fd == listenFd then Accept
    else if events & (EPOLLRDHUP | EPOLLHUP | EPOLLERR) != 0 then CloseConn
    else if events & EPOLLIN != 0 then ReadTask
    else if events & EPOLLOUT != 0 then WriteTask
    else Unexpected
  }

  /** The dispatch priority: the listener always accepts, a hang-up or error closes even when
      data is readable, readable data is read before a pending write, and only an event with
      none of the five bits is unexpected. */
  lemma DispatchPriority(fd: int, events: bv32, listenFd: int)
    ensures fd == listenFd ==> Dispatch(fd, events, listenFd) == Accept
    ensures fd != listenFd ==>
              (Dispatch(fd, events, listenFd) == CloseConn <==> events & (EPOLLRDHUP | EPOLLHUP | EPOLLERR) != 0)
    ensures fd != listenFd && events & (EPOLLRDHUP | EPOLLHUP | EPOLLERR) == 0 ==>
              (Dispatch(fd, events, listenFd) == ReadTask <==> events & EPOLLIN != 0)
    ensures Dispatch(fd, events, listenFd) == WriteTask <==>
              fd != listenFd && events & (EPOLLRDHUP | EPOLLHUP | EPOLLERR | EPOLLIN) == 0 && events & EPOLLOUT != 0
    ensures Dispatch(fd, events, listenFd) == Unexpected <==>
              fd != listenFd && events & (EPOLLRDHUP | EPOLLHUP | EPOLLERR | EPOLLIN | EPOLLOUT) == 0
  {
  }

  /** One ready event: the file descriptor and its event mask. */
  datatype Ready = Ready(fd: int, events: bv32)

  /** The `for` loop over the events one `epoll_wait` returned: one action per event, in
      order. */
  method DispatchAll(ready: seq<Ready>, listenFd: int) returns (actions: seq<Action>)
    ensures |actions| == |ready|
    ensures forall i :: 0 <= i < |ready| ==> actions[i] == Dispatch(ready[i].fd, ready[i].events, listenFd)
  {
    actions := [];
    for i := 0 to |ready|
      invariant |actions| == i
      invariant forall k :: 0 <= k < i ==> actions[k] == Dispatch(ready[k].fd, ready[k].events, listenFd)
    {
      actions := actions + [Dispatch(ready[i].fd, ready[i].events, listenFd)];
    }
  }

  /** The `epoll_wait` timeout of one round of `Start`: with timeouts on, the timer's expired
      connections are closed and the wait lasts until the next expiry; otherwise it blocks. */
  method PollTimeout(timer: HeapTimers.HeapTimer, timeoutMS: int, now: int, later: int) returns (timeMS: int)
    requires timer.Valid() && now <= later
    modifies timer
    ensures timer.Valid()
    ensures timeoutMS <= 0 ==>
              timeMS == -1 && timer.heap == old(timer.heap) && timer.ref == old(timer.ref) && timer.fired == old(timer.fired)
    ensures timeoutMS > 0 ==> timer.Timers() == HeapTimers.Unexpired(old(timer.Timers()), now)
    ensures timeoutMS > 0 ==>
              && |timer.fired| >= |old(timer.fired)| && timer.fired[..|old(timer.fired)|] == old(timer.fired)
              && HeapTimers.Ids(timer.fired[|old(timer.fired)|..]) == old(timer.Timers()).Keys - timer.Timers().Keys
              && HeapTimers.DistinctIds(timer.fired[|old(timer.fired)|..])
    ensures timeoutMS > 0 ==> (timeMS == -1 <==> timer.Timers() == map[])
    ensures timeoutMS > 0 && timer.Timers() != map[] ==>
              && (forall id :: id in timer.Timers() ==> timeMS <= HeapTimers.ClampToZero(timer.Timers()[id].expires - later))
              && (exists id :: id in timer.Timers() && timeMS == HeapTimers.ClampToZero(timer.Timers()[id].expires - later))
  {
    timeMS := -1;
    if timeoutMS > 0 {
      timeMS := timer.GetNextTick(now, later);
    }
  }

  /** `ExtentTime_`: with timeouts on, the connection's timer is pushed back to `now +
      timeoutMS`; otherwise the timer is untouched.  The timer's `adjust` requires the
      connection to have a timer, and the model requires the new expiry not to be earlier. */
  method ExtentTime(timer: HeapTimers.HeapTimer, fd: int, timeoutMS: int, now: int)
    requires timer.Valid()
    requires timeoutMS > 0 ==> fd in timer.ref && timer.heap[timer.ref[fd]].expires <= now + timeoutMS
    modifies timer
    ensures timer.Valid() && timer.fired == old(timer.fired)
    ensures timeoutMS <= 0 ==> timer.heap == old(timer.heap) && timer.ref == old(timer.ref)
    ensures timeoutMS > 0 ==>
              timer.Timers() == old(timer.Timers())[fd := old(timer.Timers())[fd].(expires := now + timeoutMS)]
  {
    if timeoutMS > 0 {
      timer.Adjust(fd, timeoutMS, now);
    }
  }

  // ---------------------------------------------------------------------------
  // Accepting clients (DealListen_)
  // ---------------------------------------------------------------------------

  /** The clients one `DealListen_` admits, and the socket it refuses for lack of room. */
  datatype Admission = Admission(admitted: seq<int>, refused: Option<int>)

  /** The calls to `accept` are answered in order by `accepts`, whose last answer (no
      pending client) ends any run. */
  predicate Pending(accepts: seq<int>)
  {
    |accepts| > 0 && accepts[|accepts| - 1] <= 0
  }

  /** The accept loop from the `k`-th answer with `count` clients connected and room for
      `maxFd`: stop when no client is pending, refuse the client and stop when the server is
      full, otherwise admit it and go on only when the listener is edge-triggered. */
  function AcceptRun(accepts: seq<int>, k: nat, count: int, maxFd: int, listenET: bool): Admission
    requires Pending(accepts) && k < |accepts|
    decreases |accepts| - k
  {
    var fd := accepts[k];
    if fd <= 0 then Admission([], None)
    else if count >= maxFd then Admission([], Some(fd))
    else if !listenET then Admission([fd], None)
    else
      var a := AcceptRun(accepts, k + 1, count + 1, maxFd, listenET);
      a.(admitted := [fd] + a.admitted)
  }

  /** Admission never takes the number of clients past `maxFd`; the admitted sockets are the
      answers from the `k`-th on, all valid; a refused socket is the next answer and comes
      only when the server is full; a level-triggered listener admits at most one client per
      event. */
  lemma {:induction false} AdmissionBounds(accepts: seq<int>, k: nat, count: int, maxFd: int, listenET: bool)
    requires Pending(accepts) && k < |accepts|
    ensures var a := AcceptRun(accepts, k, count, maxFd, listenET);
            var n := |a.admitted|;
            && (count <= maxFd ==> count + n <= maxFd)
            && (count > maxFd ==> a.admitted == [])
            && k + n < |accepts| && a.admitted == accepts[k..k + n]
            && (forall x :: 0 <= x < n ==> a.admitted[x] > 0)
            && (a.refused.Some? ==> a.refused.value == accepts[k + n] > 0 && count + n >= maxFd)
            && (a.refused.None? ==> accepts[k + n] <= 0 || (!listenET && n == 1))
            && (!listenET ==> n <= 1)
    decreases |accepts| - k
  {
    if accepts[k] > 0 && count < maxFd && listenET {
      AdmissionBounds(accepts, k + 1, count + 1, maxFd, listenET);
    }
  }

  /** The timers after arming one for each socket of `fds`, each expiring at `expires` with
      the socket as its callback's argument. */
  ghost function ArmAll(timers: map<int, HeapTimers.TimerNode>, fds: seq<int>, expires: int): map<int, HeapTimers.TimerNode>
  {
    if |fds| == 0 then timers
    else ArmAll(timers, fds[..|fds| - 1], expires)[fds[|fds| - 1] := HeapTimers.TimerNode(fds[|fds| - 1], expires, fds[|fds| - 1])]
  }

  /** Every armed socket has a timer at `expires`, and no other timer changes. */
  lemma {:induction false} ArmAllTimers(timers: map<int, HeapTimers.TimerNode>, fds: seq<int>, expires: int)
    ensures forall id :: id in ArmAll(timers, fds, expires) <==> id in timers || id in fds
    ensures forall k :: 0 <= k < |fds| ==>
              fds[k] in ArmAll(timers, fds, expires) && ArmAll(timers, fds, expires)[fds[k]] == HeapTimers.TimerNode(fds[k], expires, fds[k])
    ensures forall id :: id in timers && id !in fds ==> ArmAll(timers, fds, expires)[id] == timers[id]
    decreases |fds|
  {
    if |fds| > 0 {
      var init := fds[..|fds| - 1];
      ArmAllTimers(timers, init, expires);
      assert fds == init + [fds[|fds| - 1]];
    }
  }

  /** `AddClient_`: the client is counted, as `HttpConn::init` does, and, when timeouts are
      on, gets a timer expiring `timeoutMS` after `now` whose callback closes it. */
  method AddClient(fd: int, users: HttpConns.UserCount, timer: HeapTimers.HeapTimer, timeoutMS: int, now: int)
    requires fd > 0 && timer.Valid()
    modifies users, timer
    ensures users.count == old(users.count) + 1 && timer.Valid() && timer.fired == old(timer.fired)
    ensures timeoutMS > 0 ==> timer.Timers() == old(timer.Timers())[fd := HeapTimers.TimerNode(fd, now + timeoutMS, fd)]
    ensures timeoutMS <= 0 ==> timer.heap == old(timer.heap) && timer.ref == old(timer.ref)
  {
    users.count := users.count + 1;
    if timeoutMS > 0 {
      timer.Add(fd, timeoutMS, fd, now);
    }
  }

  /** `DealListen_`: accepts while clients are pending (only once unless the listener is
      edge-triggered); each admitted client is added by `AddClient`; when `maxFd` clients
      are connected the next client is refused and the loop ends. */
  method DealListen(accepts: seq<int>, listenET: bool, maxFd: int, users: HttpConns.UserCount,
                    timer: HeapTimers.HeapTimer, timeoutMS: int, now: int)
    returns (admitted: seq<int>, refused: Option<int>)
    requires Pending(accepts) && timer.Valid()
    modifies users, timer
    ensures Admission(admitted, refused) == AcceptRun(accepts, 0, old(users.count), maxFd, listenET)
    ensures users.count == old(users.count) + |admitted|
    ensures timer.Valid() && timer.fired == old(timer.fired)
    ensures timeoutMS > 0 ==> timer.Timers() == ArmAll(old(timer.Timers()), admitted, now + timeoutMS)
    ensures timeoutMS <= 0 ==> timer.heap == old(timer.heap) && timer.ref == old(timer.ref)
  {
    admitted, refused := [], None;
    ghost var count0, timers0 := users.count, timer.Timers();
    ghost var whole := AcceptRun(accepts, 0, count0, maxFd, listenET);
    AdmissionBounds(accepts, 0, count0, maxFd, listenET);
    ghost var n := |whole.admitted|;
    var k := 0;
    while true
      invariant k <= n && admitted == accepts[..k] && (!listenET ==> k == 0)
      invariant timer.Valid() && timer.fired == old(timer.fired) && users.count == count0 + k
      invariant refused == None
      invariant timeoutMS > 0 ==> timer.Timers() == ArmAll(timers0, admitted, now + timeoutMS)
      invariant timeoutMS <= 0 ==> timer.heap == old(timer.heap) && timer.ref == old(timer.ref)
      decreases n - k
    {
      var fd := accepts[k];
      if fd <= 0 {
        break;
      }
      if users.count >= maxFd {
        refused := Some(fd);
        break;
      }
      AddClient(fd, users, timer, timeoutMS, now);
      assert (admitted + [fd])[..k] == admitted;
      admitted := admitted + [fd];
      assert admitted == accepts[..k + 1];
      if !listenET {
        break;
      }
      k := k + 1;
    }
  }

  // ---------------------------------------------------------------------------
  // What happens after a read, a process and a write
  // ---------------------------------------------------------------------------

  /** The decision of `OnRead_`. */
  datatype AfterRead = CloseAfterRead | ProcessAfterRead

  /** `OnRead_`: a read that returned nothing or failed closes the connection unless the
      error is `EAGAIN`; otherwise the request is processed. */
  function OnRead(ret: int, readErrno: int): AfterRead
  {
    if ret <= 0 && readErrno != EAGAIN then CloseAfterRead else ProcessAfterRead
  }

  /** `OnProcess`: the mask the connection is re-armed with; a request that was processed
      waits to be written, otherwise the connection waits for more input. */
  function OnProcess(processed: bool, connEvent: bv32): bv32
  {
    connEvent | (if processed then EPOLLOUT else EPOLLIN)
  }

  /** The decision of `OnWrite_`. */
  datatype AfterWrite = Reprocess | RearmWrite(mask: bv32) | CloseAfterWrite

  /** `OnWrite_`, after the write loop returned `ret` with `toWrite` bytes still pending; a
      re-arm carries the mask it registers. */
  function OnWrite(toWrite: nat, keepAlive: bool, ret: int, writeErrno: int, connEvent: bv32): AfterWrite
  {
    if toWrite == 0 then (if keepAlive then Reprocess else CloseAfterWrite)
    else if ret < 0 && writeErrno == EAGAIN then RearmWrite(connEvent | EPOLLOUT)
    else CloseAfterWrite
  }

  /** The read table: an `EAGAIN` read never closes; a read that delivered bytes is always
      processed; a read with nothing and another error closes. */
  lemma OnReadTable(ret: int, readErrno: int)
    ensures ret > 0 ==> OnRead(ret, readErrno) == ProcessAfterRead
    ensures readErrno == EAGAIN ==> OnRead(ret, readErrno) == ProcessAfterRead
    ensures OnRead(ret, readErrno) == CloseAfterRead <==> ret <= 0 && readErrno != EAGAIN
  {
  }

  /** The re-arm mask keeps every bit of the connection mask. */
  lemma OnProcessKeepsMask(processed: bool, connEvent: bv32)
    ensures OnProcess(processed, connEvent) & connEvent == connEvent
  {
  }

  /** The re-arm mask asks for output exactly when the request was processed, and for input
      exactly when it was not, given a connection mask that asks for neither. */
  lemma OnProcessDirection(processed: bool, connEvent: bv32)
    requires connEvent & (EPOLLIN | EPOLLOUT) == 0
    ensures OnProcess(processed, connEvent) & EPOLLOUT != 0 <==> processed
    ensures OnProcess(processed, connEvent) & EPOLLIN != 0 <==> !processed
  {
    var r := OnProcess(processed, connEvent);
    assert connEvent & EPOLLIN == 0 && connEvent & EPOLLOUT == 0;
    if processed {
      assert r & EPOLLIN == connEvent & EPOLLIN;
    } else {
      assert r & EPOLLOUT == connEvent & EPOLLOUT;
    }
  }

  /** The write table: a finished keep-alive response is followed by the next request; an
      unfinished one is retried only after `EAGAIN`; every other case, including bytes left
      after a write that did not fail, closes the connection. */
  lemma OnWriteTable(toWrite: nat, keepAlive: bool, ret: int, writeErrno: int, connEvent: bv32)
    ensures OnWrite(toWrite, keepAlive, ret, writeErrno, connEvent) == Reprocess <==> toWrite == 0 && keepAlive
    ensures OnWrite(toWrite, keepAlive, ret, writeErrno, connEvent).RearmWrite? <==>
              toWrite > 0 && ret < 0 && writeErrno == EAGAIN
    ensures toWrite > 0 && ret >= 0 ==> OnWrite(toWrite, keepAlive, ret, writeErrno, connEvent) == CloseAfterWrite
  {
  }

  /** A write re-arm registers the same mask as a processed request: the connection mask
      plus output. */
  lemma OnWriteRearmMask(toWrite: nat, keepAlive: bool, ret: int, writeErrno: int, connEvent: bv32)
    ensures OnWrite(toWrite, keepAlive, ret, writeErrno, connEvent).RearmWrite? ==>
              OnWrite(toWrite, keepAlive, ret, writeErrno, connEvent).mask == OnProcess(true, connEvent)
  {
    assert OnProcess(true, connEvent) == connEvent | EPOLLOUT;
  }

  /** The write loop never leaves a keep-alive connection's response half sent without a
      reason: if `OnWrite_` closes such a connection although bytes are pending, the last
      `writev` failed for a reason other than `EAGAIN` or wrote nothing, or the loop stopped
      early outside edge-triggered mode. */
  lemma WriteThenDecide(s: HttpConns.Slots, iovCnt: int, outs: seq<HttpConns.Writev>, isET: bool,
                        head: seq<char>, file: seq<char>)
    requires HttpConns.Answers(outs) && HttpConns.Fits(s, head, file)
    ensures var r := HttpConns.WriteRun(s, iovCnt, outs, isET);
            var toWrite := HttpConns.ToWrite(r.slots);
            OnWrite(toWrite, true, r.len, if r.len <= 0 then outs[r.last].errno else 0, 0) == CloseAfterWrite ==>
              && toWrite > 0
              && (r.len >= 0 || outs[r.last].errno != EAGAIN)
              && (r.len > 0 ==> !isET && toWrite <= 10240)
  {
    HttpConns.WriteRunSends(s, iovCnt, outs, isET, head, file);
  }

  // ---------------------------------------------------------------------------
  // InitSocket_
  // ---------------------------------------------------------------------------

  /** The port check of `InitSocket_`, made before any socket call. */
  function PortAccepted(port: int): bool
  {
    !(port > 65535 || port < 1024)
  }

  /** Exactly the ports 1024 to 65535 are accepted: the privileged ports and values that do
      not fit in 16 bits are refused. */
  lemma PortRange(port: int)
    ensures PortAccepted(port) ==> 0 <= port < 0x1_0000
    ensures PortAccepted(port) <==> 1024 <= port <= 65535
  {
  }
}
