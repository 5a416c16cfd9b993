/**
 What a server thread does under the file mutex (aesdsocket.c): the two writes of a line and
 the loop that sends the content back. Each method also says which events of the protocol
 it amounts to, so that what is proved of runs there holds of the code here.
 */
module FileSection {
  import opened Common
  import opened Layout
  import opened Kernel
  import opened CommandLog
  import opened Driver
  import opened Messages
  import opened Protocol
  import opened Promises
  import opened Connections

  /** These events, all of thread t, lead from s to a; when nothing can go wrong they are smooth. */
  ghost predicate Leads(s: State, events: seq<Event>, a: State, t: nat, n: nat, smooth: bool) {
    && a == After(s, events, n)
    && forall i :: 0 <= i < |events| ==> events[i].t == t && (smooth ==> Smooth(events[i]) || events[i].Receive?)
  }

  lemma LeadsOn(s: State, first: seq<Event>, a: State, second: seq<Event>, b: State, t: nat, n: nat, smooth: bool)
    requires Leads(s, first, a, t, n, smooth) && Leads(a, second, b, t, n, smooth)
    ensures Leads(s, first + second, b, t, n, smooth)
  {
    hide After, Smooth;
    AfterAppend(s, first, second, n);
  }

  lemma LeadsOneOn(s: State, first: seq<Event>, a: State, e: Event, n: nat, smooth: bool)
    requires Leads(s, first, a, e.t, n, smooth) && (smooth ==> Smooth(e) || e.Receive?)
    ensures Leads(s, first + [e], Next(a, e, n), e.t, n, smooth)
  {
    hide After, Smooth, Next;
    AfterSnoc(s, first, e, n);
  }

  lemma LeadsNowhere(s: State, t: nat, n: nat, smooth: bool)
    ensures Leads(s, [], s, t, n, smooth)
  {
  }

  /** Thread t is in its send loop, its file at pos and its echo exact so far. */
  ghost predicate Reading(s: State, t: nat, pos: nat, n: nat) {
    && s.holder == Some(t) && s.StageOf(t) == AtRead(s.session.msg, pos)
    && s.echo.ending == Open && Exact(s.log, s.session.msg, s.echo, n)
    && pos == StartOf(s.log, n, s.session.msg.Target(), s.echo.interrupted) + |s.echo.bytes|
  }

  /** Thread t is about to unlock, with an exact echo: all of the content if whole and not failed. */
  ghost predicate Leaves(s: State, t: nat, failed: bool, whole: bool, n: nat) {
    && s.holder == Some(t) && s.StageOf(t) == AtUnlock(failed)
    && Exact(s.log, s.session.msg, s.echo, n)
    && (s.echo.ending == Failed <==> failed)
    && (s.echo.ending == Finished || s.echo.ending == Failed || (s.echo.ending == CutShort && !whole))
  }

  lemma NextRead(s: State, t: nat, env: ReadEnv, sent: nat, n: nat)
    requires s.StageOf(t).AtRead?
    ensures Next(s, Event.ReadAndSend(t, env, sent), n)
         == AfterRead(s, t, s.StageOf(t).msg, s.StageOf(t).pos, env, sent, n)
  {
    hide AfterRead;
  }

  /** One turn of the send loop in the protocol. */
  lemma ReadStep(s: State, t: nat, pos: nat, env: ReadEnv, sent: nat, n: nat)
    requires Reading(s, t, pos, n)
    ensures var r := ReadCall(Retained(s.log, n), pos, SOCK_READ_BUF_SIZE, env);
            var a := Next(s, Event.ReadAndSend(t, env, sent), n);
            var out := r.out[..Min(sent, |r.out|)];
            && (if env.interrupted then r.ret < 0 && r.out == [] else r.ret == |r.out| && r.pos == pos + |r.out|)
            && a == s.(stages := a.stages, clients := a.clients, echo := a.echo)
            && a.ReceivedBy(t) == s.ReceivedBy(t) + out
            && a.echo.bytes == s.echo.bytes + out && a.echo.interrupted == s.echo.interrupted
            && (if 0 < r.ret && out == r.out then Reading(a, t, r.pos, n)
                else Leaves(a, t, r.ret != 0, env.uncopied == 0, n))
  {
    hide Next, StartOf, Content, Retained, Exact, ReadCall;
    var r := ReadCall(Retained(s.log, n), pos, SOCK_READ_BUF_SIZE, env);
    var k := Min(sent, |r.out|);
    NextRead(s, t, env, sent, n);
    ReadExtendsEcho(s.log, n, s.session.msg, s.echo, env, k, Open);
    ReadExtendsEcho(s.log, n, s.session.msg, s.echo, env, k, Failed);
    FailedIsExact(s.log, s.session.msg, s.echo, n);
    EndIsExact(s.log, n, s.session.msg, s.echo);
    if env.interrupted {
      InterruptedRead(Retained(s.log, n), pos, env);
    } else {
      ReadReturnsContent(Retained(s.log, n), pos, SOCK_READ_BUF_SIZE, env);
      ContentIsFlattened(s.log, n);
    }
    assert r.out[..|r.out|] == r.out;
    assert k < |r.out| ==> |r.out[..k]| != |r.out|;
    assert s.ReceivedBy(t) + [] == s.ReceivedBy(t) && s.echo.bytes + [] == s.echo.bytes;
  }

  /**
   One turn of the send loop: reads at most 1000 bytes of one command and sends them.
   Nothing read means the loop is over, a negative result that a call failed.
   */
  method ReadAndSend(dev: AesdDev, conn: Connection, file: File, buf: array<byte>, luck: Luck,
                     ghost s: State, ghost t: nat)
    returns (bytesRead: int, ghost e: Event, ghost out: seq<byte>)
    requires dev.Valid() && !dev.lock.held && SOCK_READ_BUF_SIZE <= buf.Length
    requires s.log == dev.State() && s.ReceivedBy(t) == conn.sent && Reading(s, t, file.fPos, dev.Capacity())
    modifies dev.lock, file, conn`sent, buf
    ensures dev.Valid() && !dev.lock.held && dev.State() == old(dev.State())
    ensures conn.sent == old(conn.sent) + out
    ensures e.t == t && (luck.Both() ==> Smooth(e))
    ensures var a := Next(s, e, dev.Capacity());
            && a == s.(stages := a.stages, clients := a.clients, echo := a.echo)
            && a.ReceivedBy(t) == conn.sent
            && a.echo.bytes == s.echo.bytes + out && a.echo.interrupted == s.echo.interrupted
            && (if 0 < bytesRead then Reading(a, t, file.fPos, dev.Capacity())
                else Leaves(a, t, bytesRead < 0, luck.fullCopies, dev.Capacity()))
    ensures 0 < bytesRead ==> file.fPos == old(file.fPos) + bytesRead
    ensures luck.callsSucceed ==> 0 <= bytesRead
  {
    hide AesdDev.Valid, AesdDev.State, Retained, Content, StartOf, ReadCall, Next, Exact;
    ghost var n, pos := dev.Capacity(), file.fPos;
    var env := luck.ForRead();
    ghost var r := ReadCall(Retained(s.log, n), pos, SOCK_READ_BUF_SIZE, env);
    ghost var sent: nat := SOCK_READ_BUF_SIZE;
    ReadStep(s, t, pos, env, sent, n);
    bytesRead := dev.Read(file, buf, SOCK_READ_BUF_SIZE, env);
    if 0 < bytesRead {
      assert buf[..bytesRead] == r.out;
      var accepted := conn.Send(buf, bytesRead, luck);
      ghost var k := if accepted < 0 then 0 else accepted;
      assert buf[..k] == r.out[..k];
      if accepted != bytesRead {
        sent, bytesRead := k, -1;
        ReadStep(s, t, pos, env, sent, n);
      }
    }
    out := r.out[..Min(sent, |r.out|)];
    e := Event.ReadAndSend(t, env, sent);
  }

  /**
   The send loop. It ends when a read returns nothing, which, when copies to the user are
   never short, is at the end of the content.
   */
  method SendToEnd(dev: AesdDev, conn: Connection, file: File, buf: array<byte>, luck: Luck,
                   ghost s: State, ghost t: nat)
    returns (rc: int, ghost events: seq<Event>, ghost a: State)
    requires dev.Valid() && !dev.lock.held && SOCK_READ_BUF_SIZE <= buf.Length
    requires s.log == dev.State() && s.ReceivedBy(t) == conn.sent && Reading(s, t, file.fPos, dev.Capacity())
    modifies dev.lock, file, conn`sent, buf
    ensures dev.Valid() && !dev.lock.held && dev.State() == old(dev.State())
    ensures Leads(s, events, a, t, dev.Capacity(), luck.Both())
    ensures a == s.(stages := a.stages, clients := a.clients, echo := a.echo)
    ensures Leaves(a, t, rc != 0, luck.fullCopies, dev.Capacity()) && a.echo.interrupted == s.echo.interrupted
    ensures a.ReceivedBy(t) == conn.sent && s.echo.bytes <= a.echo.bytes
    ensures conn.sent == old(conn.sent) + a.echo.bytes[|s.echo.bytes|..]
    ensures rc == 0 || rc == -1
    ensures luck.callsSucceed ==> rc == 0
  {
    hide AesdDev.Valid, AesdDev.State, Content, Retained, StartOf, Next, After, Exact, Reading, Leaves, Leads,
         State.ReceivedBy;
    ghost var n := dev.Capacity();
    events, a := [], s;
    LeadsNowhere(s, t, n, luck.Both());
    while true
      invariant dev.Valid() && !dev.lock.held && dev.State() == s.log
      invariant Leads(s, events, a, t, n, luck.Both())
      invariant a == s.(stages := a.stages, clients := a.clients, echo := a.echo)
      invariant Reading(a, t, file.fPos, n) && a.echo.interrupted == s.echo.interrupted
      invariant a.ReceivedBy(t) == conn.sent && s.echo.bytes <= a.echo.bytes
      invariant conn.sent == old(conn.sent) + a.echo.bytes[|s.echo.bytes|..]
      decreases |Content(s.log, n)| - file.fPos
    {
      ReadingWithin(a, t, file.fPos, n);
      ghost var e, out;
      var bytesRead;
      bytesRead, e, out := ReadAndSend(dev, conn, file, buf, luck, a, t);
      LeadsOneOn(s, events, a, e, n, luck.Both());
      assert (a.echo.bytes + out)[|s.echo.bytes|..] == a.echo.bytes[|s.echo.bytes|..] + out;
      events, a := events + [e], Next(a, e, n);
      if bytesRead < 0 {
        return -1, events, a;
      }
      if bytesRead == 0 {
        return 0, events, a;
      }
      ReadingWithin(a, t, file.fPos, n);
    }
  }

  lemma ReadingWithin(s: State, t: nat, pos: nat, n: nat)
    requires Reading(s, t, pos, n)
    ensures pos <= |Content(s.log, n)|
  {
  }

  lemma LeavesExact(s: State, t: nat, n: nat, whole: bool)
    requires Leaves(s, t, false, whole, n)
    ensures s.holder == Some(t) && s.StageOf(t) == AtUnlock(false) && Exact(s.log, s.session.msg, s.echo, n)
  {
  }

  /** A call of thread t that fails in the section. */
  lemma FailStep(s: State, t: nat, whole: bool, n: nat)
    requires s.holder == Some(t) && Exact(s.log, s.session.msg, s.echo, n)
    requires s.StageOf(t).AtLine? || s.StageOf(t).AtSeek? || s.StageOf(t) == AtUnlock(false)
    ensures Next(s, IoFails(t), n) == s.Leaving(t, Failed)
    ensures Leaves(s.Leaving(t, Failed), t, true, whole, n)
  {
    FailedIsExact(s.log, s.session.msg, s.echo, n);
  }

  /** The same for a call before anything is sent, after the events so far. */
  lemma Failing(s: State, events: seq<Event>, a: State, t: nat, smooth: bool, n: nat)
    returns (more: seq<Event>, b: State)
    requires Leads(s, events, a, t, n, smooth) && !smooth
    requires a.holder == Some(t) && (a.StageOf(t).AtLine? || a.StageOf(t).AtSeek?) && a.echo == UNSENT
    ensures Leads(s, more, b, t, n, smooth) && b == a.Leaving(t, Failed)
    ensures forall whole: bool :: Leaves(b, t, true, whole, n)
  {
    hide Leads, After, Next, Exact, Leaves;
    UnsentIsExact(a.log, a.session.msg, false, n);
    FailStep(a, t, true, n);
    FailStep(a, t, false, n);
    LeadsOneOn(s, events, a, IoFails(t), n, smooth);
    more, b := events + [IoFails(t)], a.Leaving(t, Failed);
  }

  /** Thread t has nothing left to write and has sent nothing yet. */
  ghost predicate ToSend(s: State, t: nat, target: Place) {
    && s.holder == Some(t) && s.StageOf(t) == AtSeek(s.session.msg)
    && s.session.msg.Target() == target && s.echo == UNSENT
  }

  lemma IoctlStep(s: State, t: nat, target: Place, interrupted: bool, n: nat)
    requires ToSend(s, t, target)
    ensures var a := Next(s, Ioctl(t, interrupted), n);
            && a == s.(stages := a.stages, echo := UNSENT.(interrupted := interrupted))
            && Reading(a, t, StartOf(s.log, n, target, interrupted), n)
    ensures Exact(s.log, s.session.msg, UNSENT, n)
  {
    hide StartOf, Content, Exact;
    UnsentIsExact(s.log, s.session.msg, interrupted, n);
    UnsentIsExact(s.log, s.session.msg, false, n);
  }

  /**
   Opens the device, moves to the given command and offset if there is such a byte, and
   sends everything from there to the end.
   */
  method SendDataFileToClient(dev: AesdDev, conn: Connection, buf: array<byte>, target: Place, luck: Luck,
                              ghost s: State, ghost t: nat)
    returns (rc: int, ghost events: seq<Event>, ghost a: State)
    requires dev.Valid() && !dev.lock.held && SOCK_READ_BUF_SIZE <= buf.Length
    requires s.log == dev.State() && s.ReceivedBy(t) == conn.sent && ToSend(s, t, target)
    modifies dev.lock, conn`sent, buf
    ensures dev.Valid() && !dev.lock.held && dev.State() == old(dev.State())
    ensures Leads(s, events, a, t, dev.Capacity(), luck.Both())
    ensures a == s.(stages := a.stages, clients := a.clients, echo := a.echo)
    ensures Leaves(a, t, rc != 0, luck.fullCopies, dev.Capacity())
    ensures a.ReceivedBy(t) == conn.sent == old(conn.sent) + a.echo.bytes
    ensures rc == 0 || rc == -1
    ensures luck.callsSucceed ==> rc == 0 && !a.echo.interrupted
  {
    hide AesdDev.Valid, AesdDev.State, Content, Retained, SeekCall, Next, After, Exact, Reading, Leads, Leaves;
    ghost var n := dev.Capacity();
    LeadsNowhere(s, t, n, luck.Both());
    IoctlStep(s, t, target, false, n);
    var openOk := luck.Flip();
    if !openOk {
      events, a := Failing(s, [], s, t, luck.Both(), n);
      return -1, events, a;
    }
    var file := new File();
    var granted := luck.Flip();
    IoctlStep(s, t, target, !granted, n);
    var _ := dev.AdjustFileOffset(file, target.cmd, target.off, !granted);
    LeadsOneOn(s, [], s, Ioctl(t, !granted), n, luck.Both());
    ghost var at := Next(s, Ioctl(t, !granted), n);
    rc, events, a := SendToEnd(dev, conn, file, buf, luck, at, t);
    LeadsOn(s, [] + [Ioctl(t, !granted)], at, events, a, t, n, luck.Both());
    events := [] + [Ioctl(t, !granted)] + events;
    var closeOk := luck.Flip();
    if rc == 0 && !closeOk {
      LeavesExact(a, t, n, luck.fullCopies);
      FailStep(a, t, luck.fullCopies, n);
      LeadsOneOn(s, events, a, IoFails(t), n, luck.Both());
      events, a := events + [IoFails(t)], a.Leaving(t, Failed);
      rc := -1;
    }
  }

  /** Thread t has taken the mutex with an ordinary message. */
  ghost predicate ToWrite(s: State, t: nat) {
    && s.holder == Some(t) && s.StageOf(t) == AtLine(s.session.msg) && !s.session.msg.IsSeek()
    && s.session.line == None && s.session.newline == None && s.echo == UNSENT
  }

  /** Writing the line in the protocol. */
  lemma LineStep(s: State, t: nat, env: WriteEnv, whole: bool, n: nat)
    requires ToWrite(s, t)
    ensures var w := WriteCall(s.log, 0, s.session.msg.Line(), env);
            var a := Next(s, WriteLine(t, env), n);
            && a == s.(log := w.log, stages := a.stages, echo := a.echo, session := s.session.(line := Some(env)))
            && (if w.ret == NEVER_RETURNS then a.StageOf(t) == Killed && a.echo == UNSENT
                else if w.ret < 0 then Leaves(a, t, true, whole, n) && a.echo.bytes == []
                else a.StageOf(t) == AtNewline(s.session.msg) && a.echo == UNSENT)
  {
    hide WriteCall, Exact;
    var w := WriteCall(s.log, 0, s.session.msg.Line(), env);
    UnsentIsExact(w.log, s.session.msg, false, n);
    FailedIsExact(w.log, s.session.msg, UNSENT, n);
  }

  lemma NewlineStep(s: State, t: nat, env: WriteEnv, whole: bool, n: nat)
    requires s.holder == Some(t) && s.StageOf(t) == AtNewline(s.session.msg) && s.echo == UNSENT
    ensures var w := WriteCall(s.log, 0, [NEWLINE], env);
            var a := Next(s, WriteNewline(t, env), n);
            && a == s.(log := w.log, stages := a.stages, echo := a.echo, session := s.session.(newline := Some(env)))
            && (if w.ret < 0 then Leaves(a, t, true, whole, n) && a.echo.bytes == []
                else a.StageOf(t) == AtSeek(s.session.msg) && a.echo == UNSENT)
  {
    hide WriteCall, Exact;
    var w := WriteCall(s.log, 0, [NEWLINE], env);
    UnsentIsExact(w.log, s.session.msg, false, n);
    FailedIsExact(w.log, s.session.msg, UNSENT, n);
  }

  /** When a write fails and when it does not return. */
  lemma WriteOutcome(log: Log, pos: nat, data: seq<byte>, env: WriteEnv)
    ensures WriteCall(log, pos, data, env) == WriteCall(log, 0, data, env).(pos := WriteCall(log, pos, data, env).pos)
    ensures Succeeds(env) ==> WriteCall(log, 0, data, env).ret >= 0 || WriteCall(log, 0, data, env).ret == NEVER_RETURNS
    ensures WriteCall(log, 0, data, env).ret == NEVER_RETURNS <==> !env.interrupted && data == [] && log.pending == []
    ensures WriteCall(log, 0, data, env).ret == NEVER_RETURNS ==> WriteCall(log, 0, data, env).log == log
    ensures WriteCall(log, 0, data, env).ret >= 0 ==> Succeeds(env)
  {
  }

  /** One write to the device and what it met. */
  method WriteOnce(dev: AesdDev, file: File, data: seq<byte>, luck: Luck) returns (written: int, ghost env: WriteEnv)
    requires dev.Valid() && !dev.lock.held
    modifies dev, dev.heap, dev.circBuf, dev.circBuf.entry, dev.lock, file
    ensures var w := WriteCall(old(dev.State()), 0, data, env);
            && written == w.ret
            && (if written == NEVER_RETURNS then
                  dev.lock.held && dev.history == w.log.history && w.log == old(dev.State())
                else dev.Valid() && !dev.lock.held && dev.State() == w.log)
    ensures written == NEVER_RETURNS <==> !env.interrupted && data == [] && old(dev.State()).pending == []
    ensures written >= 0 ==> Succeeds(env)
    ensures luck.callsSucceed ==> Succeeds(env) && (written >= 0 || written == NEVER_RETURNS)
    ensures luck.fullCopies ==> env.uncopied == 0
  {
    hide AesdDev.Valid, AesdDev.PendingBytes, WriteCall;
    var met := luck.ForWrite();
    WriteOutcome(dev.State(), file.fPos, data, met);
    ghost var outside;
    written, outside := dev.Write(file, data, met);
    env := met;
  }

  /**
   Writes the first size bytes of buf and then, over its first byte, a newline. line and
   newline are what the two writes met. A write that kills the caller does not return, and
   then nor does this.
   */
  method WriteDataToFile(dev: AesdDev, buf: array<byte>, size: nat, luck: Luck, ghost s: State, ghost t: nat)
    returns (rc: int, ghost line: Option<WriteEnv>, ghost newline: Option<WriteEnv>,
             ghost events: seq<Event>, ghost a: State)
    requires dev.Valid() && !dev.lock.held && size <= buf.Length && 1 <= buf.Length
    requires s.log == dev.State() && ToWrite(s, t) && s.session.msg.Line() == buf[..size]
    modifies dev, dev.heap, dev.circBuf, dev.circBuf.entry, dev.lock, buf
    ensures if rc == NEVER_RETURNS then dev.lock.held && a.log == s.log && dev.history == s.log.history
            else dev.Valid() && !dev.lock.held && dev.State() == a.log
    ensures a.log == AfterWrite(AfterWrite(s.log, old(buf[..size]), line), [NEWLINE], newline)
    ensures rc == NEVER_RETURNS <==> line.Some? && !line.value.interrupted && size == 0 && s.log.pending == []
    ensures newline.Some? ==> line.Some? && WriteCall(s.log, 0, old(buf[..size]), line.value).ret >= 0
    ensures rc == 0 ==> newline.Some? && Succeeds(line.value) && Succeeds(newline.value)
    ensures rc == 0 || rc == -1 || rc == NEVER_RETURNS
    ensures luck.callsSucceed ==> rc != -1
    ensures luck.fullCopies && line.Some? ==> line.value.uncopied == 0
    ensures luck.fullCopies && newline.Some? ==> newline.value.uncopied == 0
    ensures buf[1..] == old(buf[1..])
    ensures Leads(s, events, a, t, dev.Capacity(), luck.Both())
    ensures a == s.(log := a.log, stages := a.stages, echo := a.echo,
                    session := s.session.(line := line, newline := newline))
    ensures if rc == 0 then ToSend(a, t, Place(0, 0))
            else if rc == NEVER_RETURNS then a.StageOf(t) == Killed && a.echo == UNSENT
            else Leaves(a, t, true, luck.fullCopies, dev.Capacity()) && a.echo.bytes == []
  {
    hide AesdDev.Valid, AesdDev.State, WriteCall, Next, After, Leads, Exact, Leaves;
    ghost var n := dev.Capacity();
    LeadsNowhere(s, t, n, luck.Both());
    line, newline, events, a := None, None, [], s;
    var openOk := luck.Flip();
    if !openOk {
      events, a := Failing(s, events, s, t, luck.Both(), n);
      return -1, line, newline, events, a;
    }
    var file := new File();
    var written;
    ghost var env;
    written, env := WriteOnce(dev, file, buf[..size], luck);
    LineStep(s, t, env, luck.fullCopies, n);
    LeadsOneOn(s, events, a, WriteLine(t, env), n, luck.Both());
    line, events, a := Some(env), events + [WriteLine(t, env)], Next(s, WriteLine(t, env), n);
    if written < 0 {
      rc := if written == NEVER_RETURNS then NEVER_RETURNS else -1;
      return rc, line, newline, events, a;
    }
    buf[0] := NEWLINE;
    assert buf[..1] == [NEWLINE];
    written, env := WriteOnce(dev, file, buf[..1], luck);
    NewlineStep(a, t, env, luck.fullCopies, n);
    LeadsOneOn(s, events, a, WriteNewline(t, env), n, luck.Both());
    newline, events, a := Some(env), events + [WriteNewline(t, env)], Next(a, WriteNewline(t, env), n);
    if written < 0 {
      return -1, line, newline, events, a;
    }
    var closeOk := luck.Flip();
    if !closeOk {
      events, a := Failing(s, events, a, t, luck.Both(), n);
      return -1, line, newline, events, a;
    }
    rc := 0;
  }
}
