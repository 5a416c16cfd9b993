/**
 What the server promises its clients, over whole runs: which echoes they get and what the
 device holds, when every session is clean and exactly when it is not.
 */
module Promises {
  import opened Common
  import opened Layout
  import opened CommandLog
  import opened Messages
  import opened Protocol

  /** Copies to the user are never short. */
  predicate FullCopies(e: Event) {
    e.ReadAndSend? ==> e.renv.uncopied == 0
  }

  predicate NoneCutShort(s: State) {
    s.echo.ending != CutShort && forall k :: 0 <= k < |s.echoes| ==> s.echoes[k].ending != CutShort
  }

  lemma KeepsNoneCutShort(s: State, e: Event, n: nat)
    requires FullCopies(e) && NoneCutShort(s)
    ensures NoneCutShort(Next(s, e, n))
  {
    hide Content, Retained, ReadCall, WriteCall, StartOf;
    if e.ReadAndSend? && s.StageOf(e.t).AtRead? && !e.renv.interrupted {
      ReadReturnsContent(Retained(s.log, n), s.StageOf(e.t).pos, SOCK_READ_BUF_SIZE, e.renv);
      ContentIsFlattened(s.log, n);
    } else if e.ReadAndSend? && s.StageOf(e.t).AtRead? {
      InterruptedRead(Retained(s.log, n), s.StageOf(e.t).pos, e.renv);
    }
  }

  lemma {:induction false} RunsKeepNoneCutShort(s: State, events: seq<Event>, n: nat)
    requires NoneCutShort(s) && forall i :: 0 <= i < |events| ==> FullCopies(events[i])
    ensures NoneCutShort(After(s, events, n))
    decreases |events|
  {
    hide Next, FullCopies, NoneCutShort;
    if events != [] {
      KeepsNoneCutShort(s, events[0], n);
      RunsKeepNoneCutShort(Next(s, events[0], n), events[1..], n);
    }
  }

  /**
   In a run in which copies to the user are never short, every session that has left the
   section has sent the whole of its echo, except one per thread that an error ended.
   */
  lemma FullCopiesFinish(events: seq<Event>, n: nat)
    requires forall i :: 0 <= i < |events| ==> FullCopies(events[i])
    ensures var s := After(INITIAL, events, n);
            |s.echoes| == |s.sessions| && forall k: nat :: k < |s.sessions| ==>
              || s.echoes[k].ending == Finished
              || (&& s.echoes[k].ending == Failed && s.StageOf(s.sessions[k].thread) == Exited
                  && forall j :: k < j < |s.sessions| ==> s.sessions[j].thread != s.sessions[k].thread)
  {
    hide After, Exact, Replayed, Joined;
    RunsKeepNoneCutShort(INITIAL, events, n);
    ClientsReceiveTheirEchoes(events, n);
  }

  /**
   The idle device. Whenever the mutex is free and the sessions so far were clean, the
   history is the lines in mutex order and nothing is pending.
   */
  lemma IdleDevice(events: seq<Event>, n: nat)
    ensures var s := After(INITIAL, events, n);
            s.holder == None && AllClean(s.sessions) ==> s.log == Log(Lines(s.sessions), [])
  {
    hide After, SerialLog, AllClean;
    var s := After(INITIAL, events, n);
    RunsAreSerial(events, n);
    SerialLogSnoc(s.sessions, s.session);
    if AllClean(s.sessions) {
      CleanSessionsCommitTheirLines(s.sessions);
    }
  }

  /**
   What the server is for. In any run of any threads, the client of an ordinary message that
   was sent everything has received the whole content as of its own commit; if the sessions
   up to its own were clean that is the newest n lines, its own the last of them.
   */
  lemma ClientsSeeTheNewestLines(events: seq<Event>, n: nat, k: nat)
    requires 1 <= n
    ensures var s := After(INITIAL, events, n);
            k < |s.sessions| ==>
              && k < |s.echoes|
              && var ss, lines := s.sessions[..k + 1], LastN(Lines(s.sessions[..k + 1]), n);
              (!s.sessions[k].msg.IsSeek() && s.echoes[k].ending == Finished ==>
                 && s.echoes[k].bytes == Content(SerialLog(ss), n)
                 && (AllClean(ss) ==>
                       && s.echoes[k].bytes == Flatten(lines)
                       && lines != [] && lines[|lines| - 1] == s.sessions[k].msg.Line() + [NEWLINE]))
  {
    hide After, AllClean, Replayed, Content, StartOf, Joined;
    ClientsReceiveTheirEchoes(events, n);
    var s := After(INITIAL, events, n);
    if k < |s.sessions| {
      assert ExactAt(EMPTY, s.sessions, s.echoes, k, n);
      if !s.sessions[k].msg.IsSeek() && s.echoes[k].ending == Finished {
        NewestLines(s.sessions[..k + 1], s.echoes[k], n);
      }
    }
  }

  lemma NewestLines(ss: seq<Session>, echo: Echo, n: nat)
    requires 1 <= n && ss != [] && echo.ending == Finished && !ss[|ss| - 1].msg.IsSeek()
    requires Exact(SerialLog(ss), ss[|ss| - 1].msg, echo, n)
    ensures echo.bytes == Content(SerialLog(ss), n)
    ensures AllClean(ss) ==>
              var lines := LastN(Lines(ss), n);
              && echo.bytes == Flatten(lines)
              && lines != [] && lines[|lines| - 1] == ss[|ss| - 1].msg.Line() + [NEWLINE]
  {
    StartInContent(SerialLog(ss), n, Place(0, 0), echo.interrupted);
    if AllClean(ss) {
      CleanSessionsCommitTheirLines(ss);
    }
  }

  /** Where the ioctl of a seek message puts a fresh file. */
  lemma SeekStart(log: Log, n: nat, pair: Place, interrupted: bool)
    ensures var at := SeekPos(Sizes(Retained(log, n)), pair);
            StartOf(log, n, pair, interrupted) == if at.Some? && !interrupted then at.value else 0
    ensures StartOf(log, n, pair, interrupted) <= |Content(log, n)|
    ensures Content(log, n) == Flatten(Retained(log, n))
  {
    StartInContent(log, n, pair, interrupted);
    assert pair.cmd < |Retained(log, n)| ==> pair.cmd < n;
  }

  lemma SeeksWriteNothing(log: Log, session: Session)
    requires session.msg.IsSeek() && session.InOrderOn(log)
    ensures SessionEffect(log, session) == log
  {
  }

  lemma SeekEchoOf(log: Log, msg: Message, echo: Echo, n: nat)
    requires msg.IsSeek() && Exact(log, msg, echo, n)
    ensures var cmds := Retained(log, n);
            var at := SeekPos(Sizes(cmds), msg.pair);
            var start := if at.Some? && !echo.interrupted then at.value else 0;
            start <= |Flatten(cmds)| && (echo.ending == Finished ==> echo.bytes == Flatten(cmds)[start..])
  {
    hide SeekPos, StartOf, Content, Retained;
    SeekStart(log, n, msg.pair, echo.interrupted);
  }

  /**
   In any run, a seek message leaves the device as it was, and a client that was sent
   everything gets the content from the given command and offset on, or all of it when there
   is no such byte or the ioctl was interrupted.
   */
  lemma SeekEcho(events: seq<Event>, n: nat, k: nat)
    ensures var s := After(INITIAL, events, n);
            k < |s.sessions| && s.sessions[k].msg.IsSeek() ==>
              && k < |s.echoes|
              && SerialLog(s.sessions[..k + 1]) == SerialLog(s.sessions[..k])
              && var cmds, pair := Retained(SerialLog(s.sessions[..k]), n), s.sessions[k].msg.pair;
              var start := if SeekPos(Sizes(cmds), pair).Some? && !s.echoes[k].interrupted
                           then SeekPos(Sizes(cmds), pair).value else 0;
              && start <= |Flatten(cmds)|
              && (s.echoes[k].ending == Finished ==> s.echoes[k].bytes == Flatten(cmds)[start..])
  {
    hide After, Replayed, Joined, SeekPos, Exact, StartOf, SessionEffect, Message.IsSeek;
    ClientsReceiveTheirEchoes(events, n);
    RunsAreSerial(events, n);
    var s := After(INITIAL, events, n);
    if k < |s.sessions| && s.sessions[k].msg.IsSeek() {
      var session, before := s.sessions[k], SerialLog(s.sessions[..k]);
      assert s.sessions[..k + 1] == s.sessions[..k] + [session];
      SerialLogSnoc(s.sessions[..k], session);
      assert InOrderAt(EMPTY, s.sessions, k) && ExactAt(EMPTY, s.sessions, s.echoes, k, n);
      SeeksWriteNothing(before, session);
      assert Exact(before, session.msg, s.echoes[k], n);
      SeekEchoOf(before, session.msg, s.echoes[k], n);
    }
  }

  /**
   In any run, the device was one command per ordinary message, in mutex order, with nothing
   pending, at every point between sessions, if and only if every session was clean.
   */
  lemma SerializedIffClean(events: seq<Event>, n: nat)
    ensures var ss := After(INITIAL, events, n).sessions;
            AllClean(ss) <==> forall k: nat :: k <= |ss| ==> SerialLog(ss[..k]) == Log(Lines(ss[..k]), [])
  {
    hide After, Replayed, Lines, AsItShould;
    var ss := After(INITIAL, events, n).sessions;
    RunsAreSerial(events, n);
    if AllClean(ss) {
      forall k: nat | k <= |ss|
        ensures SerialLog(ss[..k]) == Log(Lines(ss[..k]), [])
      {
        CleanSessionsCommitTheirLines(ss[..k]);
      }
    } else {
      var i :| 0 <= i < |ss| && !AsItShould(ss[i]);
      assert InOrderAt(EMPTY, ss, i);
      UncleanSessionShows(ss[..i], ss[i]);
      assert ss[..i + 1] == ss[..i] + [ss[i]];
    }
  }

  /** Before or after a session that is not clean, the device is not what clean sessions leave. */
  lemma UncleanSessionShows(ss: seq<Session>, s: Session)
    requires s.InOrderOn(SerialLog(ss)) && !AsItShould(s)
    ensures SerialLog(ss) != Log(Lines(ss), []) || SerialLog(ss + [s]) != Log(Lines(ss + [s]), [])
  {
    hide Clean;
    SerialLogSnoc(ss, s);
    assert (ss + [s])[..|ss|] == ss;
    if SerialLog(ss) == Log(Lines(ss), []) {
      CommitsExactlyItsLine(SerialLog(ss), s);
    }
  }

  /**
   Events in which nothing fails, nothing is short and no line is empty. Giving up on a lock
   or a connection is allowed.
   */
  predicate Smooth(e: Event) {
    match e
    case Receive(_, data, pair) => HasLine(Message(data, pair))
    case WriteLine(_, env) => WrittenInFull(env)
    case WriteNewline(_, env) => WrittenInFull(env)
    case IoFails(_) => false
    case Ioctl(_, interrupted) => !interrupted
    case ReadAndSend(_, env, sent) => !env.interrupted && env.uncopied == 0 && SOCK_READ_BUF_SIZE <= sent
    case _ => true
  }

  predicate HasLine(msg: Message) {
    msg.IsSeek() || msg.Line() != []
  }

  predicate WrittenInFull(env: WriteEnv) {
    Succeeds(env) && env.uncopied == 0
  }

  predicate CalmStage(stage: Stage) {
    match stage
    case Waiting(msg) => HasLine(msg)
    case AtLine(msg) => HasLine(msg)
    case AtNewline(msg) => HasLine(msg)
    case AtUnlock(exiting) => !exiting
    case Killed => false
    case _ => true
  }

  /** The current session has been clean so far. */
  predicate CleanSoFar(stage: Stage, session: Session, echo: Echo) {
    && !echo.interrupted
    && match stage
       case AtLine(_) => true
       case AtNewline(_) => session.line.Some? && WrittenInFull(session.line.value)
       case AtUnlock(_) => AsItShould(session) && echo.ending == Finished
       case _ => AsItShould(session)
  }

  /** What runs of smooth events keep. */
  ghost predicate Calm(s: State) {
    && (forall t: nat :: CalmStage(s.StageOf(t)))
    && AllClean(s.sessions)
    && (forall k :: 0 <= k < |s.echoes| ==> s.echoes[k].ending == Finished && !s.echoes[k].interrupted)
    && (s.holder.Some? ==> CleanSoFar(s.StageOf(s.holder.value), s.session, s.echo))
  }

  lemma CalmHolder(s: State, e: Event, n: nat)
    requires Inv(s, n) && Calm(s) && Smooth(e) && s.holder == Some(e.t) && !e.Unlock?
    ensures var after := Next(s, e, n);
            CalmStage(after.StageOf(e.t)) && CleanSoFar(after.StageOf(e.t), after.session, after.echo)
  {
    hide Exclusive, SerialLog, EchoesExact, EndingsKnown, ClientsHaveTheirEchoes, Exact, Content, Retained, StartOf,
         ReadCall;
    assert s.StageOf(e.t).InSection() by {
      HolderInSection(s);
    }
    if e.ReadAndSend? && s.StageOf(e.t).AtRead? {
      var pos := s.StageOf(e.t).pos;
      ReadReturnsContent(Retained(s.log, n), pos, SOCK_READ_BUF_SIZE, e.renv);
      ContentIsFlattened(s.log, n);
    }
  }

  lemma HolderInSection(s: State)
    requires Exclusive(s) && s.holder.Some?
    ensures s.StageOf(s.holder.value).InSection()
  {
  }

  lemma KeepsCalm(s: State, e: Event, n: nat)
    requires Inv(s, n) && Calm(s) && Smooth(e)
    ensures Calm(Next(s, e, n))
  {
    hide Next, SerialLog, EchoesExact, EndingsKnown, ClientsHaveTheirEchoes, Exact, AsItShould;
    MovesOneThread(s, e, n);
    SectionLeft(s, e, n);
    var after := Next(s, e, n);
    if s.holder == Some(e.t) {
      HolderInSection(s);
      if !e.Unlock? {
        CalmHolder(s, e, n);
      } else if !s.StageOf(e.t).AtUnlock? {
        UnlockStays(s, e, n);
      }
    } else {
      CalmOthers(s, e, n);
    }
  }

  lemma UnlockStays(s: State, e: Event, n: nat)
    requires e.Unlock? && !s.StageOf(e.t).AtUnlock?
    ensures Next(s, e, n) == s
  {
  }

  lemma CalmOthers(s: State, e: Event, n: nat)
    requires Smooth(e) && CalmStage(s.StageOf(e.t)) && !s.StageOf(e.t).InSection()
    ensures var after := Next(s, e, n);
            && CalmStage(after.StageOf(e.t))
            && (if after.holder == s.holder then after.session == s.session && after.echo == s.echo
                else after.holder == Some(e.t) && CleanSoFar(after.StageOf(e.t), after.session, after.echo))
  {
  }

  lemma {:induction false} SmoothRunsStayCalm(s: State, events: seq<Event>, n: nat)
    requires Inv(s, n) && Calm(s)
    requires forall i :: 0 <= i < |events| ==> Smooth(events[i])
    ensures Calm(After(s, events, n))
    decreases |events|
  {
    hide Inv, Calm, Next, Smooth;
    if events != [] {
      KeepsInv(s, events[0], n);
      KeepsCalm(s, events[0], n);
      SmoothRunsStayCalm(Next(s, events[0], n), events[1..], n);
    }
  }

  /**
   What the client of the last of the sessions is due: the newest n lines, for a seek from
   the place it names if there is one.
   */
  function Due(ss: seq<Session>, n: nat): seq<byte>
    requires ss != []
  {
    var lines, msg := LastN(Lines(ss), n), ss[|ss| - 1].msg;
    var at := SeekPos(Sizes(lines), msg.pair);
    if msg.IsSeek() && at.Some? then Flatten(lines)[Min(at.value, |Flatten(lines)|)..] else Flatten(lines)
  }

  /** What the client of thread t is due for all of its messages. */
  function AllDue(ss: seq<Session>, t: nat, n: nat): seq<byte> {
    if ss == [] then []
    else AllDue(ss[..|ss| - 1], t, n) + if ss[|ss| - 1].thread == t then Due(ss, n) else []
  }

  lemma FinishedIsDue(ss: seq<Session>, echo: Echo, n: nat)
    requires 1 <= n && ss != [] && AllClean(ss) && echo.ending == Finished && !echo.interrupted
    requires Exact(SerialLog(ss), ss[|ss| - 1].msg, echo, n)
    ensures echo.bytes == Due(ss, n)
  {
    hide AllClean, SerialLog, SeekPos;
    CleanSessionsCommitTheirLines(ss);
    var msg := ss[|ss| - 1].msg;
    SeekStart(SerialLog(ss), n, msg.pair, false);
    StartInContent(SerialLog(ss), n, msg.Target(), false);
  }

  lemma {:induction false} JoinedIsDue(ss: seq<Session>, echoes: seq<Echo>, t: nat, n: nat)
    requires 1 <= n && AllClean(ss) && EchoesExact(EMPTY, ss, echoes, n)
    requires forall k :: 0 <= k < |echoes| ==> echoes[k].ending == Finished && !echoes[k].interrupted
    ensures Joined(ss, echoes, t) == AllDue(ss, t, n)
  {
    hide Exact, Replayed, Due, AsItShould;
    if ss != [] {
      var k := |ss| - 1;
      assert ExactAt(EMPTY, ss, echoes, k, n);
      FewerExact(EMPTY, ss, echoes, n);
      JoinedIsDue(ss[..k], echoes[..k], t, n);
      assert ss[..k + 1] == ss;
      FinishedIsDue(ss, echoes[k], n);
    }
  }

  lemma InitialCalm(n: nat)
    ensures Inv(INITIAL, n) && Calm(INITIAL)
  {
    InitialInv(n);
  }

  /**
   What clients can count on. In any run of any threads in which nothing fails or falls short
   and no line is empty, every session handles a message its own thread received, in the order
   of the receives; every session that has left the section was clean and has a finished echo,
   and each client has received exactly what it is due for each of its messages in order.
   Whenever the mutex is free the device holds exactly the lines in mutex order.
   */
  lemma SmoothRuns(events: seq<Event>, n: nat)
    requires 1 <= n && forall i :: 0 <= i < |events| ==> Smooth(events[i])
    ensures var s := After(INITIAL, events, n);
            && AllClean(s.sessions)
            && (exists at: seq<nat> :: HandlesReceived(events, s.Sessions(), at))
            && |s.echoes| == |s.sessions|
            && (forall k: nat :: k < |s.sessions| ==>
                  s.echoes[k].ending == Finished && s.echoes[k].bytes == Due(s.sessions[..k + 1], n))
            && (s.holder == None ==> s.log == Log(Lines(s.sessions), []))
            && (forall t: nat :: s.holder != Some(t) ==> s.ReceivedBy(t) == AllDue(s.sessions, t, n))
            && (forall t: nat :: !s.StageOf(t).Killed?)
  {
    hide Next, Exact, Replayed, Due, AsItShould, Smooth, After, HandlesReceived;
    InitialCalm(n);
    SmoothRunsStayCalm(INITIAL, events, n);
    var s := After(INITIAL, events, n);
    RunsAreSerial(events, n);
    ClientsReceiveTheirEchoes(events, n);
    IdleDevice(events, n);
    forall k: nat | k < |s.sessions|
      ensures s.echoes[k].bytes == Due(s.sessions[..k + 1], n)
    {
      assert ExactAt(EMPTY, s.sessions, s.echoes, k, n);
      FinishedIsDue(s.sessions[..k + 1], s.echoes[k], n);
    }
    forall t: nat | s.holder != Some(t)
      ensures s.ReceivedBy(t) == AllDue(s.sessions, t, n)
    {
      JoinedIsDue(s.sessions, s.echoes, t, n);
    }
    forall t: nat
      ensures !s.StageOf(t).Killed?
    {
      assert CalmStage(s.StageOf(t));
    }
  }

  /** An ordinary message from its receive to its newline. */
  function Committing(t: nat, msg: Message, line: WriteEnv, newline: WriteEnv): seq<Event> {
    [Receive(t, msg.data, msg.pair), Lock(t), WriteLine(t, line), WriteNewline(t, newline)]
  }

  lemma NewlineAccepted(log: Log, env: WriteEnv)
    ensures WriteCall(log, 0, [NEWLINE], env).ret >= 0 <==> Succeeds(env)
  {
  }

  lemma CommittingWrites(s: State, t: nat, msg: Message, line: WriteEnv, newline: WriteEnv, n: nat)
    requires s.StageOf(t).Receiving? && s.holder == None && !msg.IsSeek()
    requires WriteCall(s.log, 0, msg.Line(), line).ret >= 0
    ensures var after := After(s, Committing(t, msg, line, newline), n);
            && after.log == AfterWrite(AfterWrite(s.log, msg.Line(), Some(line)), [NEWLINE], Some(newline))
            && after.holder == Some(t)
            && after.StageOf(t) == (if Succeeds(newline) then AtSeek(msg) else AtUnlock(true))
            && forall u: nat :: u != t ==> after.StageOf(u) == s.StageOf(u)
  {
    hide After, WriteCall, Message.IsSeek, Message.Line;
    AfterThree(s, Receive(t, msg.data, msg.pair), Lock(t), WriteLine(t, line), n);
    var three := [Receive(t, msg.data, msg.pair), Lock(t), WriteLine(t, line)];
    AfterSnoc(s, three, WriteNewline(t, newline), n);
    assert three + [WriteNewline(t, newline)] == Committing(t, msg, line, newline);
    var locked := Next(Next(s, Receive(t, msg.data, msg.pair), n), Lock(t), n);
    assert locked.StageOf(t) == AtLine(msg) && locked.log == s.log;
    var written := Next(locked, WriteLine(t, line), n);
    assert written.StageOf(t) == AtNewline(msg);
    NewlineAccepted(written.log, newline);
  }

  lemma Unlocking(s: State, t: nat, n: nat)
    requires s.StageOf(t).AtUnlock?
    ensures var after := Next(s, Unlock(t), n);
            after.log == s.log && after.holder == None && forall u: nat :: u != t ==> after.StageOf(u) == s.StageOf(u)
  {
  }

  const ACCEPTED := WriteEnv(false, true, 0, 0)
  const REFUSED := WriteEnv(false, false, 0, 0)

  /** The messages "a" and "b", each with its newline. */
  const A := Message([97, NEWLINE], Place(0, 0))
  const B := Message([98, NEWLINE], Place(0, 0))

  /** Thread 1 handles A, but its newline is refused and it leaves; then thread 2 commits B. */
  const REFUSED_NEWLINE: seq<Event> :=
    Committing(1, A, ACCEPTED, REFUSED) + [Unlock(1)] + Committing(2, B, ACCEPTED, ACCEPTED)

  lemma LineOfOne(msg: Message, b: byte)
    requires msg.data == [b, NEWLINE] && b != NEWLINE && b != NUL
    ensures msg.Line() == [b] && !msg.IsSeek()
  {
    hide Message.Line, LineLength;
    var line := msg.Line();
    assert msg.data[1] == NEWLINE;
    assert |line| == 2 ==> line == msg.data;
    assert |line| != 0;
    assert line == msg.data[..1] == [b];
    assert |SEEK_COMMAND| > 2;
  }

  /** A write of one byte that is neither refused nor a newline. */
  lemma OneByteWritten(log: Log, b: byte)
    requires b != NEWLINE
    ensures WriteCall(log, 0, [b], ACCEPTED).ret == 1
    ensures AfterWrite(log, [b], Some(ACCEPTED)) == Log(log.history, log.pending + [b])
  {
    assert [b][..1] == [b];
  }

  lemma JoinedLog()
    ensures AfterWrite(AfterWrite(EMPTY, [97], Some(ACCEPTED)), [NEWLINE], Some(REFUSED)) == Log([], [97])
    ensures AfterWrite(AfterWrite(Log([], [97]), [98], Some(ACCEPTED)), [NEWLINE], Some(ACCEPTED))
         == Log([[97, 98, NEWLINE]], [])
  {
    hide Accept;
    OneByteWritten(EMPTY, 97);
    OneByteWritten(Log([], [97]), 98);
    assert [] + [97] == [97] && [97] + [98] == [97, 98] && [97, 98] + [NEWLINE] == [97, 98, NEWLINE];
    NewlineWrite(Log([], [97, 98]), ACCEPTED);
  }

  /** A newline that could not be written leaves its line to be joined to the next thread's. */
  lemma FailedNewlineJoinsLines(n: nat)
    ensures After(INITIAL, REFUSED_NEWLINE, n).log == Log([[97, 98, NEWLINE]], [])
  {
    hide Next, WriteCall, AfterWrite, After, Message.Line, Message.IsSeek, Committing;
    LineOfOne(A, 97);
    LineOfOne(B, 98);
    OneByteWritten(EMPTY, 97);
    OneByteWritten(Log([], [97]), 98);
    JoinedLog();
    var first := Committing(1, A, ACCEPTED, REFUSED);
    CommittingWrites(INITIAL, 1, A, ACCEPTED, REFUSED, n);
    AfterSnoc(INITIAL, first, Unlock(1), n);
    Unlocking(After(INITIAL, first, n), 1, n);
    CommittingWrites(After(INITIAL, first + [Unlock(1)], n), 2, B, ACCEPTED, ACCEPTED, n);
    AfterAppend(INITIAL, first + [Unlock(1)], Committing(2, B, ACCEPTED, ACCEPTED), n);
  }
}
