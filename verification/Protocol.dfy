/**
 Any number of server threads sharing the device behind the file mutex. Each event is one
 receive, lock, device call or unlock of one thread, with any outcome; a run is any
 sequence of events. An event whose thread is not at the point it belongs to does nothing.
 */
module Protocol {
  import opened Common
  import opened Layout
  import opened CommandLog
  import opened Messages

  /** Where a thread is; the stages from AtLine to Killed form the file section. */
  datatype Stage =
    | Receiving
    | Waiting(msg: Message)
    | AtLine(msg: Message)
    | AtNewline(msg: Message)
    | AtSeek(msg: Message)
    | AtRead(msg: Message, pos: nat)
    | AtUnlock(exiting: bool)
    | Killed
    | Exited
  {
    predicate InSection() {
      AtLine? || AtNewline? || AtSeek? || AtRead? || AtUnlock? || Killed?
    }
  }

  /**
   The device, the mutex, the threads and what their clients have received. session and echo
   are those of the thread in the file section, if there is one; sessions and echoes list
   those of the messages handled before, in the order the mutex was taken.
   */
  datatype State = State(log: Log, holder: Option<nat>, stages: map<nat, Stage>, clients: map<nat, seq<byte>>,
                         session: Session, echo: Echo, sessions: seq<Session>, echoes: seq<Echo>) {
    function StageOf(t: nat): Stage {
      if t in stages then stages[t] else Receiving
    }

    function ReceivedBy(t: nat): seq<byte> {
      if t in clients then clients[t] else []
    }

    /** Every session so far, the current one included. */
    function Sessions(): seq<Session> {
      sessions + if holder.Some? then [session] else []
    }

    function At(t: nat, stage: Stage): State {
      this.(stages := stages[t := stage])
    }

    /** Thread t goes to unlock; it will exit after an error. */
    function Leaving(t: nat, ending: Ending): State {
      At(t, AtUnlock(ending == Failed)).(echo := echo.(ending := ending))
    }

    function Sending(t: nat, data: seq<byte>): State {
      this.(clients := clients[t := ReceivedBy(t) + data], echo := echo.(bytes := echo.bytes + data))
    }
  }

  const NO_SESSION := Session(0, Message([], Place(0, 0)), None, None)
  const INITIAL := State(EMPTY, None, map[], map[], NO_SESSION, UNSENT, [], [])

  /** A thread's next call and what it meets; sent is how many of the bytes offered to it the connection takes. */
  datatype Event =
    | Receive(t: nat, data: seq<byte>, pair: Place)
    | Disconnect(t: nat)
    | LockFails(t: nat)
    | Lock(t: nat)
    | WriteLine(t: nat, wenv: WriteEnv)
    | WriteNewline(t: nat, wenv: WriteEnv)
    | IoFails(t: nat)
    | Ioctl(t: nat, interrupted: bool)
    | ReadAndSend(t: nat, renv: ReadEnv, sent: nat)
    | Unlock(t: nat)

  function Next(s: State, e: Event, n: nat): State {
    var t := e.t;
    var stage := s.StageOf(t);
    match e
    case Receive(_, data, pair) =>
      if stage.Receiving? then s.At(t, Waiting(Message(data, pair))) else s
    case Disconnect(_) =>
      if stage.Receiving? then s.At(t, Exited) else s
    case LockFails(_) =>
      if stage.Waiting? then s.At(t, Exited) else s
    case Lock(_) =>
      if stage.Waiting? && s.holder == None then
        s.At(t, if stage.msg.IsSeek() then AtSeek(stage.msg) else AtLine(stage.msg))
        .(holder := Some(t), session := Session(t, stage.msg, None, None), echo := UNSENT)
      else s
    case WriteLine(_, env) => if stage.AtLine? then AfterLine(s, t, stage.msg, env) else s
    case WriteNewline(_, env) => if stage.AtNewline? then AfterNewline(s, t, stage.msg, env) else s
    case IoFails(_) =>
      if stage.AtLine? || stage.AtSeek? || stage == AtUnlock(false) then s.Leaving(t, Failed) else s
    case Ioctl(_, interrupted) =>
      if stage.AtSeek? then
        s.At(t, AtRead(stage.msg, StartOf(s.log, n, stage.msg.Target(), interrupted)))
        .(echo := s.echo.(interrupted := interrupted))
      else s
    case ReadAndSend(_, env, sent) => if stage.AtRead? then AfterRead(s, t, stage.msg, stage.pos, env, sent, n) else s
    case Unlock(_) =>
      if stage.AtUnlock? then
        s.At(t, if stage.exiting then Exited else Receiving)
        .(holder := None, sessions := s.sessions + [s.session], echoes := s.echoes + [s.echo])
      else s
  }

  /** Writing the line: on to the newline, or out of the section, or never to return. */
  function AfterLine(s: State, t: nat, msg: Message, env: WriteEnv): State {
    var w := WriteCall(s.log, 0, msg.Line(), env);
    var after := s.(log := w.log, session := s.session.(line := Some(env)));
    if w.ret == NEVER_RETURNS then after.At(t, Killed)
    else if w.ret < 0 then after.Leaving(t, Failed)
    else after.At(t, AtNewline(msg))
  }

  function AfterNewline(s: State, t: nat, msg: Message, env: WriteEnv): State {
    var w := WriteCall(s.log, 0, [NEWLINE], env);
    var after := s.(log := w.log, session := s.session.(newline := Some(env)));
    if w.ret < 0 then after.Leaving(t, Failed) else after.At(t, AtSeek(msg))
  }

  /** One turn of the send loop: it goes on only when all that was read was sent. */
  function AfterRead(s: State, t: nat, msg: Message, pos: nat, env: ReadEnv, sent: nat, n: nat): State {
    var r := ReadCall(Retained(s.log, n), pos, SOCK_READ_BUF_SIZE, env);
    var k := Min(sent, |r.out|);
    if r.ret < 0 then s.Leaving(t, Failed)
    else if r.ret == 0 then s.Leaving(t, if |Content(s.log, n)| <= pos then Finished else CutShort)
    else if k < |r.out| then s.Sending(t, r.out[..k]).Leaving(t, Failed)
    else s.Sending(t, r.out).At(t, AtRead(msg, r.pos))
  }

  function After(s: State, events: seq<Event>, n: nat): State
    decreases |events|
  {
    if events == [] then s else After(Next(s, events[0], n), events[1..], n)
  }

  lemma {:induction false} AfterAppend(s: State, a: seq<Event>, b: seq<Event>, n: nat)
    ensures After(s, a + b, n) == After(After(s, a, n), b, n)
    decreases |a|
  {
    hide Next;
    if a == [] {
      assert a + b == b;
    } else {
      AfterAppend(Next(s, a[0], n), a[1..], b, n);
      assert (a + b)[1..] == a[1..] + b;
    }
  }

  lemma AfterSnoc(s: State, events: seq<Event>, e: Event, n: nat)
    ensures After(s, events + [e], n) == Next(After(s, events, n), e, n)
  {
    hide Next;
    AfterAppend(s, events, [e], n);
    assert [e][1..] == [];
    assert After(After(s, events, n), [e], n) == Next(After(s, events, n), e, n);
  }

  lemma AfterThree(s: State, a: Event, b: Event, c: Event, n: nat)
    ensures After(s, [a, b, c], n) == Next(Next(Next(s, a, n), b, n), c, n)
  {
    hide Next, After;
    AfterSnoc(s, [], a, n);
    AfterSnoc(s, [a], b, n);
    AfterSnoc(s, [a, b], c, n);
    assert [] + [a] == [a] && [a] + [b] == [a, b] && [a, b] + [c] == [a, b, c];
    assert After(s, [], n) == s by {
      AfterNothing(s, n);
    }
  }

  lemma AfterNothing(s: State, n: nat)
    ensures After(s, [], n) == s
  {
  }

  /**
   What the holder's stage says about its session and echo, given the device before the
   session and the device now.
   */
  predicate Consistent(stage: Stage, session: Session, echo: Echo, before: Log, log: Log, n: nat) {
    && Exact(log, session.msg, echo, n)
    && match stage
       case AtLine(msg) =>
         session == Session(session.thread, msg, None, None) && !msg.IsSeek() && echo == UNSENT
       case AtNewline(msg) =>
         && session.msg == msg && session.newline == None && !msg.IsSeek() && echo == UNSENT
         && session.line.Some? && WriteCall(before, 0, msg.Line(), session.line.value).ret >= 0
       case AtSeek(msg) => session.msg == msg && echo == UNSENT
       case AtRead(msg, pos) =>
         && session.msg == msg && echo.ending == Open
         && pos == StartOf(log, n, msg.Target(), echo.interrupted) + |echo.bytes|
       case AtUnlock(exiting) => echo.ending != Open && (exiting <==> echo.ending == Failed)
       case Killed => !session.msg.IsSeek() && session.msg.Line() == [] && log.pending == [] && echo == UNSENT
       case _ => false
  }

  /** Exactly the holder of the mutex is in the file section. */
  ghost predicate Exclusive(s: State) {
    forall t: nat :: s.StageOf(t).InSection() <==> s.holder == Some(t)
  }

  ghost predicate HolderConsistent(s: State, n: nat) {
    s.holder.Some? ==>
      && s.session.thread == s.holder.value
      && s.session.InOrderOn(SerialLog(s.sessions))
      && Consistent(s.StageOf(s.holder.value), s.session, s.echo, SerialLog(s.sessions), s.log, n)
  }

  /** Every session wrote its newline only when its line's write had returned. */
  ghost predicate SessionsInOrder(ss: seq<Session>) {
    forall k: nat :: k < |ss| ==> InOrderAt(EMPTY, ss, k)
  }

  /** A session that is over has come to an end; if that was an error its thread is gone and had no later one. */
  ghost predicate EndingsKnown(s: State) {
    |s.echoes| == |s.sessions| && forall k: nat :: k < |s.sessions| ==>
      && s.echoes[k].ending != Open
      && (s.echoes[k].ending == Failed ==>
            && s.StageOf(s.sessions[k].thread) == Exited
            && forall j :: k < j < |s.sessions| ==> s.sessions[j].thread != s.sessions[k].thread)
  }

  /** Each client has what the sessions of its own thread sent, in order, and nothing else. */
  ghost predicate ClientsHaveTheirEchoes(s: State) {
    |s.echoes| == |s.sessions| && forall t: nat ::
      s.ReceivedBy(t) == Joined(s.sessions, s.echoes, t) + if s.holder == Some(t) then s.echo.bytes else []
  }

  ghost predicate Inv(s: State, n: nat) {
    && Exclusive(s)
    && s.log == SerialLog(s.Sessions())
    && HolderConsistent(s, n)
    && SessionsInOrder(s.sessions)
    && EchoesExact(EMPTY, s.sessions, s.echoes, n)
    && EndingsKnown(s)
    && ClientsHaveTheirEchoes(s)
  }

  lemma SerialLogSnoc(ss: seq<Session>, s: Session)
    ensures SerialLog(ss + [s]) == SessionEffect(SerialLog(ss), s)
    ensures ss + [] == ss
  {
    assert (ss + [s])[..|ss|] == ss;
  }

  /** The device is always what the sessions, one at a time, make of it. */
  lemma KeepsSerial(s: State, e: Event, n: nat)
    requires Inv(s, n)
    ensures Next(s, e, n).log == SerialLog(Next(s, e, n).Sessions())
  {
    hide ReadCall, WriteCall, StartOf, Exact, EchoesExact, Joined, SerialLog, Retained, Content;
    var stage := s.StageOf(e.t);
    assert stage.InSection() <==> s.holder == Some(e.t);
    SerialLogSnoc(s.sessions, s.session);
    SerialLogSnoc(s.sessions, Next(s, e, n).session);
    SerialLogSnoc(s.sessions + [s.session], s.session);
  }

  /** An event moves its own thread alone, into the section or out of it only with the mutex. */
  lemma MovesOneThread(s: State, e: Event, n: nat)
    requires s.StageOf(e.t).InSection() <==> s.holder == Some(e.t)
    ensures var after := Next(s, e, n);
            && (forall t: nat :: t != e.t ==> after.StageOf(t) == s.StageOf(t))
            && (after.StageOf(e.t).InSection() <==> after.holder == Some(e.t))
            && (after.holder == s.holder || (s.holder == None && after.holder == Some(e.t))
                || (s.holder == Some(e.t) && after.holder == None))
            && (s.holder == Some(e.t) || (after.log == s.log && after.clients == s.clients))
            && (s.StageOf(e.t) == Exited || s.StageOf(e.t) == Killed ==> after == s)
  {
    hide ReadCall, WriteCall, StartOf, Retained, Content, Message.IsSeek;
  }

  lemma KeepsExclusive(s: State, e: Event, n: nat)
    requires Inv(s, n)
    ensures Exclusive(Next(s, e, n))
  {
    hide Next, SerialLog, Consistent, EchoesExact, Joined;
    var after := Next(s, e, n);
    MovesOneThread(s, e, n);
    forall t: nat
      ensures after.StageOf(t).InSection() <==> after.holder == Some(t)
    {
      assert s.StageOf(t).InSection() <==> s.holder == Some(t);
    }
  }

  lemma LineKeepsHolder(s: State, env: WriteEnv, n: nat)
    requires s.holder.Some? && HolderConsistent(s, n) && s.log == SerialLog(s.Sessions())
    requires s.StageOf(s.holder.value).AtLine?
    ensures HolderConsistent(AfterLine(s, s.holder.value, s.session.msg, env), n)
  {
    hide StartOf, SerialLog, Exact, Content;
    var w := WriteCall(s.log, 0, s.session.msg.Line(), env);
    SerialLogSnoc(s.sessions, s.session);
    UnsentIsExact(w.log, s.session.msg, false, n);
    FailedIsExact(w.log, s.session.msg, UNSENT, n);
  }

  lemma NewlineKeepsHolder(s: State, env: WriteEnv, n: nat)
    requires s.holder.Some? && HolderConsistent(s, n) && s.StageOf(s.holder.value).AtNewline?
    ensures HolderConsistent(AfterNewline(s, s.holder.value, s.session.msg, env), n)
  {
    hide StartOf, SerialLog, Exact, Content;
    var w := WriteCall(s.log, 0, [NEWLINE], env);
    UnsentIsExact(w.log, s.session.msg, false, n);
    FailedIsExact(w.log, s.session.msg, UNSENT, n);
  }

  lemma ReadKeepsHolder(s: State, env: ReadEnv, sent: nat, n: nat)
    requires s.holder.Some? && HolderConsistent(s, n) && s.StageOf(s.holder.value).AtRead?
    ensures var stage := s.StageOf(s.holder.value);
            HolderConsistent(AfterRead(s, s.holder.value, stage.msg, stage.pos, env, sent, n), n)
  {
    hide StartOf, SerialLog, Exact, Content, Retained, ReadCall;
    var msg, pos := s.session.msg, s.StageOf(s.holder.value).pos;
    var r := ReadCall(Retained(s.log, n), pos, SOCK_READ_BUF_SIZE, env);
    var k := Min(sent, |r.out|);
    ReadExtendsEcho(s.log, n, msg, s.echo, env, k, Open);
    FailedIsExact(s.log, msg, s.echo, n);
    EndIsExact(s.log, n, msg, s.echo);
    if k == |r.out| {
      assert r.out[..k] == r.out;
    } else {
      ReadExtendsEcho(s.log, n, msg, s.echo, env, k, Failed);
    }
  }

  /** The thread in the section stays in step with its session, its echo and the device. */
  lemma KeepsHolder(s: State, e: Event, n: nat)
    requires Inv(s, n)
    ensures HolderConsistent(Next(s, e, n), n)
  {
    hide ReadCall, WriteCall, StartOf, SerialLog, Exact, EchoesExact, Joined, Retained, Content;
    var stage := s.StageOf(e.t);
    assert stage.InSection() <==> s.holder == Some(e.t);
    if s.holder != Some(e.t) {
      MovesOneThread(s, e, n);
      UnsentIsExact(s.log, Next(s, e, n).session.msg, false, n);
    } else {
      FailedIsExact(s.log, s.session.msg, s.echo, n);
      match e
      case WriteLine(_, env) =>
        if stage.AtLine? {
          LineKeepsHolder(s, env, n);
        }
      case WriteNewline(_, env) =>
        if stage.AtNewline? {
          NewlineKeepsHolder(s, env, n);
        }
      case Ioctl(_, interrupted) =>
        UnsentIsExact(s.log, s.session.msg, interrupted, n);
      case ReadAndSend(_, env, sent) =>
        if stage.AtRead? {
          ReadKeepsHolder(s, env, sent, n);
        }
      case _ =>
    }
  }

  lemma KeepsInOrder(s: State, e: Event, n: nat)
    requires Inv(s, n)
    ensures SessionsInOrder(Next(s, e, n).sessions)
  {
    hide Next, Replayed, Consistent, EchoesExact, Joined, Session.InOrderOn;
    MovesOneThread(s, e, n);
    var ss, tt := s.sessions, Next(s, e, n).sessions;
    if tt != ss {
      SectionLeft(s, e, n);
      forall k: nat | k < |tt|
        ensures InOrderAt(EMPTY, tt, k)
      {
        assert k < |ss| ==> InOrderAt(EMPTY, ss, k);
        assert tt[..k] == ss[..k];
      }
    }
  }

  /** Unlocking puts the session and the echo on record. */
  lemma SectionLeft(s: State, e: Event, n: nat)
    requires s.StageOf(e.t).InSection() <==> s.holder == Some(e.t)
    ensures var after := Next(s, e, n);
            if e.Unlock? && s.StageOf(e.t).AtUnlock? then
              && after == s.(holder := None, stages := after.stages,
                             sessions := s.sessions + [s.session], echoes := s.echoes + [s.echo])
              && after.StageOf(e.t) == (if s.StageOf(e.t).exiting then Exited else Receiving)
            else && after.sessions == s.sessions && after.echoes == s.echoes
                 && (s.holder.Some? ==> after.holder == s.holder)
  {
    hide ReadCall, WriteCall, StartOf, Retained, Content, Message.IsSeek;
  }

  /** Echoes stay exact: a session is over when its echo goes on record, and later ones do not touch it. */
  lemma KeepsEchoes(s: State, e: Event, n: nat)
    requires Inv(s, n)
    ensures EchoesExact(EMPTY, Next(s, e, n).sessions, Next(s, e, n).echoes, n)
  {
    hide Next, EchoesExact, Exact, Joined, Replayed, SessionEffect;
    MovesOneThread(s, e, n);
    SectionLeft(s, e, n);
    var after := Next(s, e, n);
    if after.sessions != s.sessions || after.echoes != s.echoes {
      assert s.log == SerialLog(s.sessions + [s.session]);
      RecordedAsMany(s.sessions, s.echoes, n);
      assert after.sessions[..|s.sessions|] == s.sessions[..|s.sessions|];
      assert after.echoes[..|s.sessions|] == s.echoes[..|s.sessions|];
      OneMoreExact(EMPTY, s.sessions, s.echoes, after.sessions, after.echoes, n);
    }
  }

  lemma RecordedAsMany(ss: seq<Session>, echoes: seq<Echo>, n: nat)
    requires EchoesExact(EMPTY, ss, echoes, n)
    ensures |echoes| == |ss|
  {
  }

  lemma KeepsEndings(s: State, e: Event, n: nat)
    requires Inv(s, n)
    ensures EndingsKnown(Next(s, e, n))
  {
    hide Next, State.StageOf, EchoesExact, Exact, Joined, SerialLog;
    MovesOneThread(s, e, n);
    SectionLeft(s, e, n);
  }

  /** The holder's event sends its client what it adds to the echo; nobody else sends anything. */
  lemma SendsAlike(s: State, e: Event, n: nat) returns (data: seq<byte>)
    requires s.StageOf(e.t).InSection() <==> s.holder == Some(e.t)
    ensures var after := Next(s, e, n);
            && after.ReceivedBy(e.t) == s.ReceivedBy(e.t) + data
            && (forall t: nat :: t != e.t ==> after.ReceivedBy(t) == s.ReceivedBy(t))
            && (if s.holder == Some(e.t) then after.echo.bytes == s.echo.bytes + data else data == [])
            && (s.holder == None && after.holder == Some(e.t) ==> after.echo.bytes == [])
            && (s.holder.Some? && s.holder != Some(e.t) ==> after.echo == s.echo)
  {
    hide AfterRead, WriteCall, StartOf, Message.IsSeek;
    data := [];
    if e.ReadAndSend? && s.StageOf(e.t).AtRead? {
      data := ReadSends(s, e.t, s.StageOf(e.t).msg, s.StageOf(e.t).pos, e.renv, e.sent, n);
    }
    assert s.ReceivedBy(e.t) + [] == s.ReceivedBy(e.t) && s.echo.bytes + [] == s.echo.bytes;
  }

  lemma ReadSends(s: State, t: nat, msg: Message, pos: nat, env: ReadEnv, sent: nat, n: nat) returns (data: seq<byte>)
    ensures var after := AfterRead(s, t, msg, pos, env, sent, n);
            && after.ReceivedBy(t) == s.ReceivedBy(t) + data && after.echo.bytes == s.echo.bytes + data
            && (forall u: nat :: u != t ==> after.ReceivedBy(u) == s.ReceivedBy(u)) && after.holder == s.holder
  {
    hide ReadCall, Content;
    var r := ReadCall(Retained(s.log, n), pos, SOCK_READ_BUF_SIZE, env);
    data := if r.ret <= 0 then [] else r.out[..Min(sent, |r.out|)];
    assert r.out[..|r.out|] == r.out;
    assert s.ReceivedBy(t) + [] == s.ReceivedBy(t) && s.echo.bytes + [] == s.echo.bytes;
  }

  lemma JoinedSnoc(ss: seq<Session>, echoes: seq<Echo>, s: Session, e: Echo, t: nat)
    requires |echoes| == |ss|
    ensures Joined(ss + [s], echoes + [e], t) == Joined(ss, echoes, t) + if s.thread == t then e.bytes else []
  {
    assert (ss + [s])[..|ss|] == ss && (echoes + [e])[..|ss|] == echoes;
  }

  /** Every byte sent went to the client of the session's own thread. */
  lemma KeepsClients(s: State, e: Event, n: nat)
    requires Inv(s, n)
    ensures ClientsHaveTheirEchoes(Next(s, e, n))
  {
    hide Next, Joined, Consistent, EchoesExact, Exact, SerialLog, State.ReceivedBy, State.StageOf;
    var data := SendsAlike(s, e, n);
    var after := Next(s, e, n);
    MovesOneThread(s, e, n);
    SectionLeft(s, e, n);
    var bytes := s.echo.bytes;
    forall t: nat
      ensures after.ReceivedBy(t)
           == Joined(after.sessions, after.echoes, t) + if after.holder == Some(t) then after.echo.bytes else []
    {
      var joined := Joined(s.sessions, s.echoes, t);
      assert s.ReceivedBy(t) == joined + if s.holder == Some(t) then bytes else [];
      assert joined + (bytes + data) == joined + bytes + data && joined + [] == joined;
      assert s.ReceivedBy(t) + [] == s.ReceivedBy(t);
      if e.Unlock? && s.StageOf(e.t).AtUnlock? {
        JoinedSnoc(s.sessions, s.echoes, s.session, s.echo, t);
        assert bytes + data == bytes ==> data == [];
        assert joined + bytes + [] == joined + bytes;
      }
    }
  }

  /** Every event keeps the invariant. */
  lemma KeepsInv(s: State, e: Event, n: nat)
    requires Inv(s, n)
    ensures Inv(Next(s, e, n), n)
  {
    hide Next, Exclusive, HolderConsistent, SessionsInOrder, EchoesExact, EndingsKnown, ClientsHaveTheirEchoes,
         SerialLog;
    KeepsExclusive(s, e, n);
    KeepsSerial(s, e, n);
    KeepsHolder(s, e, n);
    KeepsInOrder(s, e, n);
    KeepsEchoes(s, e, n);
    KeepsEndings(s, e, n);
    KeepsClients(s, e, n);
  }

  lemma {:induction false} EveryRunKeepsInv(s: State, events: seq<Event>, n: nat)
    requires Inv(s, n)
    ensures Inv(After(s, events, n), n)
    decreases |events|
  {
    hide Inv, Next;
    if events != [] {
      KeepsInv(s, events[0], n);
      EveryRunKeepsInv(Next(s, events[0], n), events[1..], n);
    }
  }

  lemma InitialInv(n: nat)
    ensures Inv(INITIAL, n)
  {
  }

  lemma RunsKeepInv(events: seq<Event>, n: nat)
    ensures Inv(After(INITIAL, events, n), n)
  {
    hide After, Inv;
    InitialInv(n);
    EveryRunKeepsInv(INITIAL, events, n);
  }

  /**
   Sessions handle what their threads received: session k the message of event at[k], which is
   a receive of its own thread, and a thread's sessions in the order of its receives.
   */
  predicate HandlesReceived(events: seq<Event>, ss: seq<Session>, at: seq<nat>) {
    && |at| == |ss|
    && (forall k :: 0 <= k < |ss| ==>
          at[k] < |events| && events[at[k]] == Receive(ss[k].thread, ss[k].msg.data, ss[k].msg.pair))
    && (forall j, k :: 0 <= j < k < |ss| && ss[j].thread == ss[k].thread ==> at[j] < at[k])
  }

  /** Event i is the receive of msg by thread t, after those of t's sessions. */
  predicate ReceivedAt(events: seq<Event>, ss: seq<Session>, at: seq<nat>, t: nat, msg: Message, i: nat)
    requires |at| == |ss|
  {
    && i < |events| && events[i] == Receive(t, msg.data, msg.pair)
    && forall k :: 0 <= k < |ss| && ss[k].thread == t ==> at[k] < i
  }

  /** A message not handled yet is one its thread received after those it handled. */
  ghost predicate WaitingReceived(events: seq<Event>, s: State, at: seq<nat>)
    requires |at| == |s.Sessions()|
  {
    forall t: nat :: s.StageOf(t).Waiting? ==>
      exists i: nat :: ReceivedAt(events, s.Sessions(), at, t, s.StageOf(t).msg, i)
  }

  /** The same threads have handled the same messages. */
  predicate SameMessages(ss: seq<Session>, tt: seq<Session>) {
    |ss| == |tt| && forall k :: 0 <= k < |ss| ==> ss[k].thread == tt[k].thread && ss[k].msg == tt[k].msg
  }

  /**
   Only taking the mutex adds a session, with the message its thread was waiting with; only a
   receive makes a thread wait.
   */
  lemma HowMessagesMove(s: State, e: Event, n: nat)
    requires s.StageOf(e.t).InSection() <==> s.holder == Some(e.t)
    ensures var after, stage := Next(s, e, n), s.StageOf(e.t);
            && (if e.Lock? && stage.Waiting? && s.holder == None then
                  after.Sessions() == s.Sessions() + [Session(e.t, stage.msg, None, None)]
                else SameMessages(s.Sessions(), after.Sessions()))
            && (if e.Receive? && stage.Receiving? then after.StageOf(e.t) == Waiting(Message(e.data, e.pair))
                else after.StageOf(e.t).Waiting? ==> after.StageOf(e.t) == stage && !(e.Lock? && s.holder == None))
  {
    hide ReadCall, WriteCall, StartOf, Retained, Content, Message.IsSeek;
    assert s.sessions + [s.session] + [] == s.sessions + [s.session];
    assert s.sessions + [] == s.sessions;
  }

  /** One more event keeps every message traced to its receive. */
  lemma TracesOn(events: seq<Event>, s: State, at: seq<nat>, e: Event, n: nat) returns (at': seq<nat>)
    requires s.StageOf(e.t).InSection() <==> s.holder == Some(e.t)
    requires HandlesReceived(events, s.Sessions(), at) && WaitingReceived(events, s, at)
    ensures HandlesReceived(events + [e], Next(s, e, n).Sessions(), at')
    ensures WaitingReceived(events + [e], Next(s, e, n), at')
  {
    hide Next;
    var after, stage, more := Next(s, e, n), s.StageOf(e.t), events + [e];
    var ss, tt := s.Sessions(), after.Sessions();
    HowMessagesMove(s, e, n);
    MovesOneThread(s, e, n);
    at' := at;
    if e.Lock? && stage.Waiting? && s.holder == None {
      var i: nat :| ReceivedAt(events, ss, at, e.t, stage.msg, i);
      at' := at + [i];
    }
    forall t: nat | after.StageOf(t).Waiting?
      ensures exists i: nat :: ReceivedAt(more, tt, at', t, after.StageOf(t).msg, i)
    {
      if t == e.t && e.Receive? && stage.Receiving? {
        assert ReceivedAt(more, tt, at', t, after.StageOf(t).msg, |events|);
      } else {
        var i: nat :| ReceivedAt(events, ss, at, t, s.StageOf(t).msg, i);
        assert ReceivedAt(more, tt, at', t, after.StageOf(t).msg, i);
      }
    }
  }

  lemma {:induction false} MessagesTraced(events: seq<Event>, n: nat) returns (at: seq<nat>)
    ensures HandlesReceived(events, After(INITIAL, events, n).Sessions(), at)
    ensures WaitingReceived(events, After(INITIAL, events, n), at)
  {
    hide Next, Inv, HandlesReceived, WaitingReceived;
    if events == [] {
      at := [];
      NothingTraced(n);
    } else {
      var front, e := events[..|events| - 1], events[|events| - 1];
      at := MessagesTraced(front, n);
      RunsKeepInv(front, n);
      SectionIsHolders(After(INITIAL, front, n), e.t, n);
      at := TracesOn(front, After(INITIAL, front, n), at, e, n);
      AfterSnoc(INITIAL, front, e, n);
      assert front + [e] == events;
    }
  }

  lemma NothingTraced(n: nat)
    ensures HandlesReceived([], After(INITIAL, [], n).Sessions(), []) && WaitingReceived([], After(INITIAL, [], n), [])
  {
  }

  lemma SectionIsHolders(s: State, t: nat, n: nat)
    requires Inv(s, n)
    ensures s.StageOf(t).InSection() <==> s.holder == Some(t)
  {
    hide HolderConsistent, SessionsInOrder, EchoesExact, EndingsKnown, ClientsHaveTheirEchoes, SerialLog;
  }

  /**
   Serializability and mutual exclusion. After any run, with any failures, the device is
   exactly as if the sessions had been handled one at a time in the order they took the
   mutex, each writing its newline only when its line's write had returned. Each session,
   the current one included, handles a message its own thread received, a thread's sessions
   in the order of its receives. And exactly the holder of the mutex is in the file section,
   so no thread is there with another and none has exited holding it.
   */
  lemma RunsAreSerial(events: seq<Event>, n: nat)
    ensures var s := After(INITIAL, events, n);
            && s.log == SerialLog(s.Sessions())
            && (exists at: seq<nat> :: HandlesReceived(events, s.Sessions(), at))
            && (forall k: nat :: k < |s.sessions| ==> InOrderAt(EMPTY, s.sessions, k))
            && (forall t: nat :: s.StageOf(t).InSection() <==> s.holder == Some(t))
  {
    hide After, SerialLog, HolderConsistent, EchoesExact, EndingsKnown, ClientsHaveTheirEchoes;
    var at := MessagesTraced(events, n);
    RunsKeepInv(events, n);
  }

  /**
   Exact echo. In any run every session that has left the section has one echo, which is the
   content as that session left it, from where its ioctl put the file on. What a client has
   received is, in order, the echoes of its own thread's sessions and, while its thread is
   in the section, what that has sent so far. An echo is all of the content unless a read
   could copy nothing or an error ended it; then its thread is gone and had no later session.
   */
  lemma ClientsReceiveTheirEchoes(events: seq<Event>, n: nat)
    ensures var s := After(INITIAL, events, n);
            && EchoesExact(EMPTY, s.sessions, s.echoes, n)
            && (s.holder.Some? ==> Exact(s.log, s.session.msg, s.echo, n))
            && (forall t: nat :: s.ReceivedBy(t)
                 == Joined(s.sessions, s.echoes, t) + if s.holder == Some(t) then s.echo.bytes else [])
            && (forall k: nat :: k < |s.sessions| ==>
                 || s.echoes[k].ending == Finished || s.echoes[k].ending == CutShort
                 || (&& s.echoes[k].ending == Failed && s.StageOf(s.sessions[k].thread) == Exited
                     && forall j :: k < j < |s.sessions| ==> s.sessions[j].thread != s.sessions[k].thread))
  {
    hide After, SerialLog, Exact, EchoesExact, Joined;
    RunsKeepInv(events, n);
  }

}
