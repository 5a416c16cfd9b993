/**
 The server thread (aesdsocket.c): receiving messages and handling them one at a time under
 the file mutex, over the life of a connection. A thread's run is a run of the protocol in
 which only this thread takes steps.
 */
module Server {
  import opened Common
  import opened Layout
  import opened Kernel
  import opened CommandLog
  import opened Driver
  import opened Messages
  import opened Protocol
  import opened Promises
  import opened Connections
  import opened FileSection

  function DataOf(ss: seq<Session>): seq<seq<byte>> {
    seq(|ss|, i requires 0 <= i < |ss| => ss[i].msg.data)
  }

  /** The first newline of the string in buf, or its end. data is what lies before the terminator. */
  method Strchrnul(buf: array<byte>, ghost data: seq<byte>) returns (k: nat)
    requires |data| < buf.Length && buf[..|data|] == data && buf[|data|] == NUL
    ensures k == LineLength(data)
  {
    k := 0;
    while buf[k] != NEWLINE && buf[k] != NUL
      invariant k <= |data|
      invariant forall i :: 0 <= i < k ==> data[i] != NEWLINE && data[i] != NUL
      decreases |data| - k
    {
      assert data[k] == buf[k];
      k := k + 1;
    }
    assert k < |data| ==> data[k] == buf[k];
  }

  /** Comparing the terminated string in the buffer with the seek command is comparing the message with it. */
  lemma TerminatedPrefix(s: seq<byte>, data: seq<byte>)
    requires |data| < |s| && s[..|data|] == data && s[|data|] == NUL
    ensures SEEK_COMMAND <= s <==> SEEK_COMMAND <= data
  {
    assert forall i :: 0 <= i < |SEEK_COMMAND| ==> SEEK_COMMAND[i] != NUL;
    assert SEEK_COMMAND <= s ==> forall i :: 0 <= i < |SEEK_COMMAND| ==> s[i] == SEEK_COMMAND[i];
    assert forall i :: 0 <= i < |data| ==> data[i] == s[i];
  }

  /**
   What a thread has handled, from a given device on: its own sessions, the newline always
   after the line, and one exact echo each. Only the last may have ended in an error; none
   was cut short if copies are full.
   */
  ghost predicate Record(log: Log, ss: seq<Session>, echoes: seq<Echo>, self: nat, n: nat, full: bool) {
    && EchoesExact(log, ss, echoes, n)
    && forall k: nat :: k < |ss| ==>
         && ss[k].thread == self && InOrderAt(log, ss, k)
         && echoes[k].ending != Open && (full ==> echoes[k].ending != CutShort)
         && (k < |ss| - 1 ==> echoes[k].ending != Failed)
  }

  /** From s to a thread self has handled these sessions; its client has received just their echoes. */
  ghost predicate Handled(s: State, a: State, ss: seq<Session>, echoes: seq<Echo>, self: nat, n: nat, full: bool) {
    && Record(s.log, ss, echoes, self, n, full)
    && a.log == Replayed(s.log, ss)
    && a.sessions == s.sessions + ss && a.echoes == s.echoes + echoes
    && a.ReceivedBy(self) == s.ReceivedBy(self) + Joined(ss, echoes, self)
  }

  ghost predicate NoneFailed(echoes: seq<Echo>) {
    forall k :: 0 <= k < |echoes| ==> echoes[k].ending != Failed
  }

  /** Between messages: both locks are free, and the device is as the protocol has it. */
  ghost predicate Outside(s: State, dev: AesdDev, fileMutex: Mutex)
    reads dev, dev.heap, dev.circBuf, dev.circBuf.entry, dev.lock, fileMutex
  {
    && dev.Valid() && !dev.lock.held && !fileMutex.held
    && s.holder == None && s.log == dev.State()
  }

  /** Killed in a write: neither lock is ever free again, and no command was added. */
  ghost predicate Stuck(s: State, self: nat, dev: AesdDev, fileMutex: Mutex)
    reads dev, dev.lock, fileMutex
  {
    && dev.lock.held && fileMutex.held
    && s.holder == Some(self) && s.StageOf(self) == Killed && dev.history == s.log.history
  }

  lemma NothingHandled(s: State, a: State, self: nat, n: nat, full: bool)
    requires a.log == s.log && a.sessions == s.sessions && a.echoes == s.echoes
    requires a.ReceivedBy(self) == s.ReceivedBy(self)
    ensures Handled(s, a, [], [], self, n, full)
    ensures a.ReceivedBy(self) == s.ReceivedBy(self) + Joined([], [], self)
  {
    assert s.sessions + [] == s.sessions && s.echoes + [] == s.echoes;
    assert s.ReceivedBy(self) + [] == s.ReceivedBy(self);
  }

  lemma ReplayedSnoc(log: Log, ss: seq<Session>, s: Session)
    ensures Replayed(log, ss + [s]) == SessionEffect(Replayed(log, ss), s)
  {
    assert (ss + [s])[..|ss|] == ss;
  }

  lemma JoinedOne(x: Session, e: Echo, self: nat)
    ensures Joined([x], [e], self) == if x.thread == self then e.bytes else []
  {
    JoinedSnoc([], [], x, e, self);
    assert [] + [x] == [x] && [] + [e] == [e] && [] + e.bytes == e.bytes;
  }

  lemma ReplayedOne(log: Log, x: Session)
    ensures Replayed(log, [x]) == SessionEffect(log, x) && Replayed(log, []) == log
  {
    hide SessionEffect;
    ReplayedSnoc(log, [], x);
    assert [] + [x] == [x];
  }

  lemma RecordOfOne(log: Log, x: Session, e: Echo, self: nat, n: nat, full: bool)
    ensures Record(log, [x], [e], self, n, full) <==>
              && Exact(SessionEffect(log, x), x.msg, e, n) && x.thread == self && x.InOrderOn(log)
              && e.ending != Open && (full ==> e.ending != CutShort)
  {
    hide Exact, SessionEffect, Session.InOrderOn, Replayed;
    ReplayedOne(log, x);
    assert [x][..0] == [] && [x][..0 + 1] == [x] && [x][0] == x && [e][0] == e;
    assert InOrderAt(log, [x], 0) <==> x.InOrderOn(log);
    assert ExactAt(log, [x], [e], 0, n) <==> Exact(SessionEffect(log, x), x.msg, e, n);
  }

  /** Leaving the section puts the session on record. */
  lemma OneHandled(s: State, a: State, self: nat, failed: bool, n: nat, full: bool)
    requires s.holder == None && Leaves(a, self, failed, full, n)
    requires a.sessions == s.sessions && a.echoes == s.echoes && a.session.thread == self
    requires a.session.InOrderOn(s.log) && a.log == SessionEffect(s.log, a.session)
    requires a.ReceivedBy(self) == s.ReceivedBy(self) + a.echo.bytes
    ensures var b := Next(a, Unlock(self), n);
            && Handled(s, b, [a.session], [a.echo], self, n, full)
            && b.holder == None && b.log == a.log && b.StageOf(self) == (if failed then Exited else Receiving)
            && b.ReceivedBy(self) == a.ReceivedBy(self) == s.ReceivedBy(self) + Joined([a.session], [a.echo], self)
    ensures a.echo.ending == Failed <==> failed
  {
    hide Exact, SessionEffect, Session.InOrderOn, Record;
    RecordOfOne(s.log, a.session, a.echo, self, n, full);
    ReplayedOne(s.log, a.session);
    JoinedOne(a.session, a.echo, self);
  }

  /** Handling one more message after those handled so far. */
  lemma HandledOn(s: State, ss: seq<Session>, echoes: seq<Echo>, a: State, more: seq<Session>, fs: seq<Echo>, b: State,
                  self: nat, n: nat, full: bool)
    requires Handled(s, a, ss, echoes, self, n, full) && NoneFailed(echoes)
    requires Handled(a, b, more, fs, self, n, full) && |more| <= 1
    ensures Handled(s, b, ss + more, echoes + fs, self, n, full)
  {
    hide Exact, SessionEffect, Session.InOrderOn, EchoesExact, Joined, Replayed, State.ReceivedBy;
    assert a.sessions + more == s.sessions + (ss + more) && a.echoes + fs == s.echoes + (echoes + fs);
    AsMany(s.log, ss, echoes, self, n, full);
    AsMany(a.log, more, fs, self, n, full);
    if more == [] {
      assert ss + more == ss && echoes + fs == echoes && a.ReceivedBy(self) + [] == a.ReceivedBy(self);
      NothingJoined(a.log, self);
    } else {
      assert more == [more[0]] && fs == [fs[0]];
      OneMoreHandled(s.log, ss, echoes, more[0], fs[0], self, n, full);
      JoinedOn(s.log, ss, echoes, more[0], fs[0], s.ReceivedBy(self), self);
    }
  }

  lemma AsMany(log: Log, ss: seq<Session>, echoes: seq<Echo>, self: nat, n: nat, full: bool)
    requires Record(log, ss, echoes, self, n, full)
    ensures |echoes| == |ss|
  {
  }

  lemma NothingJoined(log: Log, self: nat)
    ensures Joined([], [], self) == [] && Replayed(log, []) == log
  {
  }

  lemma JoinedOn(log: Log, ss: seq<Session>, echoes: seq<Echo>, x: Session, e: Echo, received: seq<byte>, self: nat)
    requires |echoes| == |ss|
    ensures Replayed(log, ss + [x]) == Replayed(Replayed(log, ss), [x])
    ensures received + Joined(ss, echoes, self) + Joined([x], [e], self)
         == received + Joined(ss + [x], echoes + [e], self)
  {
    hide SessionEffect, Replayed, Joined;
    ReplayedSnoc(log, ss, x);
    ReplayedOne(Replayed(log, ss), x);
    JoinedSnoc(ss, echoes, x, e, self);
    JoinedOne(x, e, self);
    var joined, bytes := Joined(ss, echoes, self), Joined([x], [e], self);
    assert joined + [] == joined;
    assert received + joined + bytes == received + (joined + bytes);
  }

  lemma OneMoreHandled(log: Log, ss: seq<Session>, echoes: seq<Echo>, x: Session, e: Echo,
                       self: nat, n: nat, full: bool)
    requires Record(log, ss, echoes, self, n, full) && NoneFailed(echoes)
    requires Record(Replayed(log, ss), [x], [e], self, n, full)
    ensures Record(log, ss + [x], echoes + [e], self, n, full)
  {
    hide Exact, SessionEffect, Session.InOrderOn, Replayed, EchoesExact;
    var tt, fs := ss + [x], echoes + [e];
    AsMany(log, ss, echoes, self, n, full);
    RecordOfOne(Replayed(log, ss), x, e, self, n, full);
    ReplayedSnoc(log, ss, x);
    assert tt[..|ss|] == ss == ss[..|ss|] && fs[..|ss|] == echoes == echoes[..|ss|];
    OneMoreExact(log, ss, echoes, tt, fs, n);
    forall k: nat | k < |tt|
      ensures InOrderAt(log, tt, k)
    {
      assert k < |ss| ==> InOrderAt(log, ss, k);
      assert tt[..k] == ss[..k];
    }
  }

  /** Receiving a message and taking the mutex for it. */
  lemma TakeMutex(s: State, self: nat, msg: Message, n: nat, smooth: bool)
    requires s.holder == None && s.StageOf(self).Receiving?
    ensures var a := Next(Next(s, Receive(self, msg.data, msg.pair), n), Lock(self), n);
            && Leads(s, [Receive(self, msg.data, msg.pair), Lock(self)], a, self, n, smooth)
            && a == s.(stages := a.stages, holder := Some(self),
                       session := Session(self, msg, None, None), echo := UNSENT)
            && if msg.IsSeek() then ToSend(a, self, msg.pair) else ToWrite(a, self)
  {
    hide Message.IsSeek, After;
    var first := Receive(self, msg.data, msg.pair);
    LeadsNowhere(s, self, n, smooth);
    LeadsOneOn(s, [], s, first, n, smooth);
    LeadsOneOn(s, [] + [first], Next(s, first, n), Lock(self), n, smooth);
    assert [] + [first] + [Lock(self)] == [first, Lock(self)];
  }

  lemma LockFailure(s: State, self: nat, msg: Message, n: nat, full: bool, smooth: bool)
    requires s.StageOf(self).Receiving?
    ensures var a := Next(Next(s, Receive(self, msg.data, msg.pair), n), LockFails(self), n);
            && Leads(s, [Receive(self, msg.data, msg.pair), LockFails(self)], a, self, n, smooth)
            && a == s.(stages := a.stages) && a.StageOf(self) == Exited
            && Handled(s, a, [], [], self, n, full)
            && a.ReceivedBy(self) == s.ReceivedBy(self) + Joined([], [], self)
  {
    hide Message.IsSeek, After;
    var first := Receive(self, msg.data, msg.pair);
    LeadsNowhere(s, self, n, smooth);
    LeadsOneOn(s, [], s, first, n, smooth);
    LeadsOneOn(s, [] + [first], Next(s, first, n), LockFails(self), n, smooth);
    assert [] + [first] + [LockFails(self)] == [first, LockFails(self)];
    NothingHandled(s, Next(Next(s, first, n), LockFails(self), n), self, n, full);
  }

  /** What the two writes made of the device is what the session with their outcomes makes of it. */
  lemma SessionWritten(s: State, a: State, b: State)
    requires a.log == s.log && a.session.line == None && a.session.newline == None
    requires b.session == a.session.(line := b.session.line, newline := b.session.newline)
    requires a.session.msg.IsSeek() ==> b.session.line == None
    requires b.log == AfterWrite(AfterWrite(a.log, a.session.msg.Line(), b.session.line), [NEWLINE], b.session.newline)
    requires b.session.newline.Some? ==>
               b.session.line.Some? && WriteCall(s.log, 0, a.session.msg.Line(), b.session.line.value).ret >= 0
    ensures b.log == SessionEffect(s.log, b.session) && b.session.InOrderOn(s.log)
  {
  }

  /**
   What is done under the file mutex: the line is committed unless the message is a seek, and
   the content is sent back.
   */
  method DoFileIo(dev: AesdDev, conn: Connection, buf: array<byte>, size: nat, ghost data: seq<byte>,
                  ghost self: nat, luck: Luck, ghost s: State)
    returns (rc: int, ghost events: seq<Event>, ghost a: State)
    requires dev.Valid() && !dev.lock.held && s.holder == None && s.StageOf(self).Receiving?
    requires s.log == dev.State() && s.ReceivedBy(self) == conn.sent
    requires SOCK_READ_BUF_SIZE <= buf.Length && size == LineLength(data)
    requires |data| < buf.Length && buf[..|data|] == data && buf[|data|] == NUL
    modifies dev, dev.heap, dev.circBuf, dev.circBuf.entry, dev.lock, conn`sent, buf
    ensures Leads(s, events, a, self, dev.Capacity(), luck.Both())
    ensures a.holder == Some(self) && a.sessions == s.sessions && a.echoes == s.echoes
    ensures a.session.thread == self && a.session.msg.data == data && a.session.InOrderOn(s.log)
    ensures a.log == SessionEffect(s.log, a.session)
    ensures a.ReceivedBy(self) == conn.sent == old(conn.sent) + a.echo.bytes
    ensures if rc == NEVER_RETURNS then
              && dev.lock.held && dev.history == a.log.history && a.log == s.log && a.StageOf(self) == Killed
              && !HasLine(Message(data, Place(0, 0))) && s.log.pending == [] && a.echo.bytes == []
            else
              && dev.Valid() && !dev.lock.held && dev.State() == a.log
              && Leaves(a, self, rc != 0, luck.fullCopies, dev.Capacity())
    ensures luck.callsSucceed ==> rc == 0 || rc == NEVER_RETURNS
    ensures luck.Both() && rc == 0 && HasLine(Message(data, Place(0, 0))) ==> AsItShould(a.session)
    ensures rc == 0 || rc == -1 || rc == NEVER_RETURNS
  {
    hide AesdDev.Valid, AesdDev.State, Content, Retained, StartOf, WriteCall, LineLength, Next, After, Leads,
         Leaves, Session.InOrderOn, State.StageOf;
    ghost var n := dev.Capacity();
    TerminatedPrefix(buf[..], data);
    var target := Place(0, 0);
    ghost var more, b;
    rc := 0;
    if SEEK_COMMAND <= buf[..] {
      target := *;
      TakeMutex(s, self, Message(data, target), n, luck.Both());
      events := [Receive(self, data, target), Lock(self)];
      a := Next(Next(s, events[0], n), events[1], n);
      SessionWritten(s, a, a);
    } else {
      TakeMutex(s, self, Message(data, target), n, luck.Both());
      events := [Receive(self, data, target), Lock(self)];
      b := Next(Next(s, events[0], n), events[1], n);
      assert buf[..size] == data[..size];
      ghost var line, newline;
      rc, line, newline, more, a := WriteDataToFile(dev, buf, size, luck, b, self);
      LeadsOn(s, events, b, more, a, self, n, luck.Both());
      SessionWritten(s, b, a);
      events := events + more;
    }
    assert s.ReceivedBy(self) + [] == s.ReceivedBy(self);
    if rc == 0 {
      rc, more, b := SendDataFileToClient(dev, conn, buf, target, luck, a, self);
      LeadsOn(s, events, a, more, b, self, n, luck.Both());
      events, a := events + more, b;
    }
  }

  lemma AloneOnRecord(session: Session, echo: Echo)
    ensures DataOf([session]) == [session.msg.data]
    ensures NoneFailed([echo]) <==> echo.ending != Failed
    ensures AllClean([session]) <==> AsItShould(session)
  {
    hide AsItShould;
    assert [echo][0] == echo && [session][0] == session;
  }

  datatype Verdict = Continue | ClientDone | Exit | NeverReturned

  /**
   Handles one terminated message: takes the file mutex, commits the line unless it is a
   seek, sends the content back and releases the mutex, on every path but one: a line of no
   bytes on an idle device kills the thread in its first write.
   */
  method HandleMessage(dev: AesdDev, conn: Connection, fileMutex: Mutex, buf: array<byte>, ghost data: seq<byte>,
                       ghost self: nat, luck: Luck, ghost s: State)
    returns (verdict: Verdict,
             ghost handled: seq<Session>, ghost echoes: seq<Echo>, ghost events: seq<Event>, ghost a: State)
    requires Outside(s, dev, fileMutex) && s.StageOf(self).Receiving? && dev.lock != fileMutex
    requires s.ReceivedBy(self) == conn.sent
    requires SOCK_READ_BUF_SIZE <= buf.Length
    requires |data| < buf.Length && buf[..|data|] == data && buf[|data|] == NUL
    modifies dev, dev.heap, dev.circBuf, dev.circBuf.entry, dev.lock, fileMutex, conn`sent, buf
    ensures Leads(s, events, a, self, dev.Capacity(), luck.Both())
    ensures Handled(s, a, handled, echoes, self, dev.Capacity(), luck.fullCopies) && a.ReceivedBy(self) == conn.sent
    ensures conn.sent == old(conn.sent) + Joined(handled, echoes, self)
    ensures if verdict == NeverReturned then
              Stuck(a, self, dev, fileMutex) && !HasLine(Message(data, Place(0, 0))) && a.log.pending == []
            else Outside(a, dev, fileMutex) && a.StageOf(self) == if verdict == Continue then Receiving else Exited
    ensures verdict == Continue || verdict == Exit || (verdict == NeverReturned && handled == [])
    ensures handled == [] || DataOf(handled) == [data]
    ensures verdict == Continue ==> handled != [] && NoneFailed(echoes)
    ensures luck.callsSucceed ==> verdict == Continue || verdict == NeverReturned
    ensures luck.Both() && HasLine(Message(data, Place(0, 0))) ==> verdict == Continue && AllClean(handled)
  {
    hide AesdDev.Valid, AesdDev.State, Next, After, Leads, Handled, Leaves, Session.InOrderOn, State.StageOf, HasLine,
         Joined, SessionEffect, AsItShould, LineLength, NoneFailed, AllClean, DataOf;
    ghost var n := dev.Capacity();
    var size := Strchrnul(buf, data);
    var lockOk := luck.Flip();
    if !lockOk {
      LockFailure(s, self, Message(data, Place(0, 0)), n, luck.fullCopies, luck.Both());
      events := [Receive(self, data, Place(0, 0)), LockFails(self)];
      a := Next(Next(s, events[0], n), events[1], n);
      return Exit, [], [], events, a;
    }
    fileMutex.Lock();
    var rc;
    rc, events, a := DoFileIo(dev, conn, buf, size, data, self, luck, s);
    if rc == NEVER_RETURNS {
      NothingHandled(s, a, self, n, luck.fullCopies);
      return NeverReturned, [], [], events, a;
    }
    fileMutex.Unlock();
    OneHandled(s, a, self, rc != 0, n, luck.fullCopies);
    LeadsOneOn(s, events, a, Unlock(self), n, luck.Both());
    AloneOnRecord(a.session, a.echo);
    handled, echoes := [a.session], [a.echo];
    events, a := events + [Unlock(self)], Next(a, Unlock(self), n);
    verdict := if rc == 0 then Continue else Exit;
  }

  predicate AllHaveLines(payloads: seq<seq<byte>>) {
    forall i :: 0 <= i < |payloads| ==> HasLine(Message(payloads[i], Place(0, 0)))
  }

  /**
   Which of the payloads due were handled: those up to where the thread stopped, all of them
   when the client was done. A thread is killed by a message without a line.
   */
  ghost predicate Accounts(due: seq<seq<byte>>, left: seq<seq<byte>>, verdict: Verdict, handled: seq<Session>) {
    match verdict
    case Continue => due == DataOf(handled) + left
    case ClientDone => due == DataOf(handled)
    case Exit => DataOf(handled) <= due
    case NeverReturned =>
      DataOf(handled) <= due && |handled| < |due| && !HasLine(Message(due[|handled|], Place(0, 0)))
  }

  lemma Disconnecting(s: State, self: nat, n: nat, full: bool, smooth: bool)
    requires s.StageOf(self).Receiving?
    ensures var a := Next(s, Disconnect(self), n);
            && Leads(s, [Disconnect(self)], a, self, n, smooth)
            && a == s.(stages := a.stages) && a.StageOf(self) == Exited
            && Handled(s, a, [], [], self, n, full)
            && a.ReceivedBy(self) == s.ReceivedBy(self) + Joined([], [], self)
  {
    hide After;
    LeadsNowhere(s, self, n, smooth);
    LeadsOneOn(s, [], s, Disconnect(self), n, smooth);
    assert [] + [Disconnect(self)] == [Disconnect(self)];
    NothingHandled(s, Next(s, Disconnect(self), n), self, n, full);
  }

  /** Receives and handles one message, and shrinks the buffer again for the next. */
  method ServeMessage(dev: AesdDev, conn: Connection, fileMutex: Mutex, bufStart: array<byte>,
                      ghost self: nat, luck: Luck, ghost s: State)
    returns (verdict: Verdict, buf: array<byte>,
             ghost handled: seq<Session>, ghost echoes: seq<Echo>, ghost events: seq<Event>, ghost a: State)
    requires Outside(s, dev, fileMutex) && s.StageOf(self).Receiving? && dev.lock != fileMutex
    requires s.ReceivedBy(self) == conn.sent && bufStart.Length == SOCK_READ_BUF_SIZE
    modifies dev, dev.heap, dev.circBuf, dev.circBuf.entry, dev.lock, fileMutex, conn, bufStart
    ensures Leads(s, events, a, self, dev.Capacity(), luck.Both())
    ensures Handled(s, a, handled, echoes, self, dev.Capacity(), luck.fullCopies) && a.ReceivedBy(self) == conn.sent
    ensures conn.sent == old(conn.sent) + Joined(handled, echoes, self) && |handled| <= 1
    ensures if verdict == NeverReturned then Stuck(a, self, dev, fileMutex) && a.log.pending == []
            else Outside(a, dev, fileMutex) && a.StageOf(self) == if verdict == Continue then Receiving else Exited
    ensures Accounts(Payloads([], old(conn.incoming)), Payloads([], conn.incoming), verdict, handled)
    ensures verdict == Continue ==> && fresh(buf) && buf.Length == SOCK_READ_BUF_SIZE
                                    && |conn.incoming| < |old(conn.incoming)|
    ensures verdict == Continue || verdict == ClientDone ==> NoneFailed(echoes)
    ensures luck.callsSucceed && NoFailure(old(conn.incoming)) ==> verdict != Exit && NoFailure(conn.incoming)
    ensures luck.Both() && verdict != Exit && AllHaveLines(Payloads([], old(conn.incoming))) ==> AllClean(handled)
  {
    hide AesdDev.Valid, AesdDev.State, Next, After, Leads, Handled, State.StageOf, HasLine, Joined, AsItShould,
         Payloads;
    ghost var n, due := dev.Capacity(), Payloads([], conn.incoming);
    var what;
    ghost var data;
    what, buf, data := ReceiveMessage(conn, bufStart);
    if what != Received {
      Disconnecting(s, self, n, luck.fullCopies, luck.Both());
      verdict := if what == Broken then Exit else ClientDone;
      return verdict, buf, [], [], [Disconnect(self)], Next(s, Disconnect(self), n);
    }
    assert due[0] == data;
    verdict, handled, echoes, events, a := HandleMessage(dev, conn, fileMutex, buf, data, self, luck, s);
    if verdict == Continue {
      buf := Realloc(buf, SOCK_READ_BUF_SIZE);
    }
  }

  lemma DataOfAppend(a: seq<Session>, b: seq<Session>)
    ensures DataOf(a + b) == DataOf(a) + DataOf(b)
    ensures b == [] ==> DataOf(b) == []
  {
  }

  lemma Accounted(a: seq<seq<byte>>, b: seq<seq<byte>>, due: seq<seq<byte>>, rest: seq<seq<byte>>)
    ensures b <= due ==> a + b <= a + due
    ensures due == b + rest ==> a + due == a + b + rest
  {
    if b <= due {
      assert due == b + due[|b|..];
      assert a + due == (a + b) + due[|b|..];
    }
  }

  /** Handling more of what is due. */
  lemma MoreAccounted(ss: seq<Session>, more: seq<Session>, all: seq<seq<byte>>, due: seq<seq<byte>>,
                      left: seq<seq<byte>>, verdict: Verdict)
    requires all == DataOf(ss) + due && Accounts(due, left, verdict, more)
    ensures Accounts(all, if verdict == Continue then left else [], verdict, ss + more)
    ensures AllHaveLines(all) ==> AllHaveLines(due) && verdict != NeverReturned
  {
    hide HasLine;
    DataOfAppend(ss, more);
    Accounted(DataOf(ss), DataOf(more), due, left);
    if verdict == NeverReturned {
      assert all[|ss + more|] == due[|more|];
    }
    forall i | 0 <= i < |due| && AllHaveLines(all)
      ensures HasLine(Message(due[i], Place(0, 0)))
    {
      assert all[|ss| + i] == due[i];
    }
  }

  /**
   A server thread serving one connection to its end, when no other thread is about. The
   messages it handles are the connection's in order, all of them when the client is done, as
   it is when nothing fails and every message has a line; the client receives exactly one
   exact echo for each.
   */
  method ServerThread(dev: AesdDev, conn: Connection, fileMutex: Mutex, ghost self: nat, luck: Luck, ghost s: State)
    returns (verdict: Verdict,
             ghost sessions: seq<Session>, ghost echoes: seq<Echo>, ghost events: seq<Event>, ghost a: State)
    requires Outside(s, dev, fileMutex) && s.StageOf(self).Receiving? && dev.lock != fileMutex
    requires s.ReceivedBy(self) == conn.sent
    modifies dev, dev.heap, dev.circBuf, dev.circBuf.entry, dev.lock, fileMutex, conn
    ensures Leads(s, events, a, self, dev.Capacity(), luck.Both())
    ensures Handled(s, a, sessions, echoes, self, dev.Capacity(), luck.fullCopies) && a.ReceivedBy(self) == conn.sent
    ensures conn.sent == old(conn.sent) + Joined(sessions, echoes, self)
    ensures if verdict == NeverReturned then Stuck(a, self, dev, fileMutex) && a.log.pending == []
            else Outside(a, dev, fileMutex) && a.StageOf(self) == Exited
    ensures verdict != Continue && Accounts(Payloads([], old(conn.incoming)), [], verdict, sessions)
    ensures verdict == ClientDone ==> NoneFailed(echoes)
    ensures luck.callsSucceed && NoFailure(old(conn.incoming)) ==> verdict != Exit
    ensures luck.Both() && NoFailure(old(conn.incoming)) && AllHaveLines(Payloads([], old(conn.incoming))) ==>
              verdict == ClientDone && AllClean(sessions)
  {
    hide AesdDev.Valid, AesdDev.State, Next, After, Leads, Handled, State.StageOf, HasLine, Joined, AsItShould,
         Payloads, Outside, Stuck, DataOf;
    ghost var n, all := dev.Capacity(), Payloads([], conn.incoming);
    ghost var calls := luck.callsSucceed && NoFailure(conn.incoming);
    var bufStart := new byte[SOCK_READ_BUF_SIZE];
    verdict, sessions, echoes, events, a := Continue, [], [], [], s;
    LeadsNowhere(s, self, n, luck.Both());
    NothingHandled(s, s, self, n, luck.fullCopies);
    DataOfNothing(all);
    while verdict == Continue
      invariant dev.Capacity() == n
      invariant Leads(s, events, a, self, n, luck.Both())
      invariant Handled(s, a, sessions, echoes, self, n, luck.fullCopies) && a.ReceivedBy(self) == conn.sent
      invariant if verdict == NeverReturned then Stuck(a, self, dev, fileMutex) && a.log.pending == []
                else Outside(a, dev, fileMutex) && a.StageOf(self) == if verdict == Continue then Receiving else Exited
      invariant Accounts(all, if verdict == Continue then Payloads([], conn.incoming) else [], verdict, sessions)
      invariant verdict == Continue ==> fresh(bufStart) && bufStart.Length == SOCK_READ_BUF_SIZE
      invariant verdict == Continue || verdict == ClientDone ==> NoneFailed(echoes)
      invariant calls ==> verdict != Exit && (verdict == Continue ==> NoFailure(conn.incoming))
      invariant calls && luck.Both() && AllHaveLines(all) ==> AllClean(sessions) && verdict != NeverReturned
      decreases verdict == Continue, |conn.incoming|
    {
      ghost var due, more, fs, turn, b := Payloads([], conn.incoming), [], [], [], a;
      verdict, bufStart, more, fs, turn, b := ServeMessage(dev, conn, fileMutex, bufStart, self, luck, a);
      LeadsOn(s, events, a, turn, b, self, n, luck.Both());
      HandledOn(s, sessions, echoes, a, more, fs, b, self, n, luck.fullCopies);
      MoreAccounted(sessions, more, all, due, Payloads([], conn.incoming), verdict);
      sessions, echoes, events, a := sessions + more, echoes + fs, events + turn, b;
    }
    WhatIsSent(s, a, sessions, echoes, self, n, luck.fullCopies);
  }

  lemma DataOfNothing(all: seq<seq<byte>>)
    ensures all == DataOf([]) + all
  {
    assert [] + all == all;
  }

  lemma WhatIsSent(s: State, a: State, ss: seq<Session>, echoes: seq<Echo>, self: nat, n: nat, full: bool)
    requires Handled(s, a, ss, echoes, self, n, full)
    ensures |echoes| == |ss| && a.ReceivedBy(self) == s.ReceivedBy(self) + Joined(ss, echoes, self)
  {
  }
}
