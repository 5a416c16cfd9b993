/**
 Whether the server goes on: what a thread in the file section still needs to leave it, and
 what happens when one is killed there.
 */
module Progress {
  import opened Common
  import opened Layout
  import opened Kernel
  import opened CommandLog
  import opened Messages
  import opened Protocol

  /** A killed thread keeps the mutex: nothing is handled, written or sent any more. */
  lemma {:induction false} KilledForGood(s: State, events: seq<Event>, t: nat, n: nat)
    requires Inv(s, n) && s.StageOf(t).Killed?
    ensures var after := After(s, events, n);
            && after.holder == Some(t) && after.StageOf(t).Killed?
            && after.log == s.log && after.clients == s.clients && after.sessions == s.sessions
    decreases |events|
  {
    hide Next, Inv;
    KilledHolds(s, t, n);
    if events != [] {
      var e := events[0];
      StillKilled(s, e, t, n);
      KeepsInv(s, e, n);
      KilledForGood(Next(s, e, n), events[1..], t, n);
    }
  }

  lemma KilledHolds(s: State, t: nat, n: nat)
    requires Inv(s, n) && s.StageOf(t).Killed?
    ensures s.holder == Some(t)
  {
    hide EchoesExact, EndingsKnown, ClientsHaveTheirEchoes, SessionsInOrder, HolderConsistent;
    assert s.StageOf(t).InSection();
  }

  lemma StillKilled(s: State, e: Event, t: nat, n: nat)
    requires Inv(s, n) && s.StageOf(t).Killed?
    ensures var after := Next(s, e, n);
            && after.StageOf(t).Killed? && after.log == s.log
            && after.clients == s.clients && after.sessions == s.sessions
  {
    hide Next, EchoesExact, EndingsKnown, ClientsHaveTheirEchoes, SessionsInOrder, HolderConsistent;
    assert s.StageOf(t).InSection();
    assert s.StageOf(e.t).InSection() <==> s.holder == Some(e.t);
    MovesOneThread(s, e, n);
    SectionLeft(s, e, n);
  }

  /**
   Who is killed. In any run a thread writing its line is killed exactly when the line is
   empty, nothing is pending and no signal came first; until then nobody is.
   */
  lemma WhoIsKilled(events: seq<Event>, e: Event, n: nat)
    ensures var s := After(INITIAL, events, n);
            var after := After(INITIAL, events + [e], n);
            (after.StageOf(e.t).Killed? && !s.StageOf(e.t).Killed?) <==>
              (e.WriteLine? && s.StageOf(e.t).AtLine? && s.session.msg.Line() == [] && s.log.pending == []
               && !e.wenv.interrupted)
  {
    hide After, ReadCall, StartOf, Exact, EchoesExact, EndingsKnown, ClientsHaveTheirEchoes, Replayed;
    RunsKeepInv(events, n);
    AfterSnoc(INITIAL, events, e, n);
    var s := After(INITIAL, events, n);
    assert s.StageOf(e.t).InSection() <==> s.holder == Some(e.t);
  }

  lemma KilledAtOnce(env: WriteEnv, n: nat)
    requires !env.interrupted
    ensures var s := Next(Next(Next(INITIAL, Receive(1, [NEWLINE], Place(0, 0)), n), Lock(1), n), WriteLine(1, env), n);
            s.StageOf(1) == Killed && s.log == EMPTY && s.sessions == [] && s.clients == map[]
  {
    hide Accept, Message.Line, Message.IsSeek, SEEK_COMMAND;
    var msg := Message([NEWLINE], Place(0, 0));
    EmptyLine(msg);
    var locked := Next(Next(INITIAL, Receive(1, [NEWLINE], Place(0, 0)), n), Lock(1), n);
    assert locked.StageOf(1) == AtLine(msg) && locked.log == EMPTY;
  }

  lemma EmptyLine(msg: Message)
    requires msg.data == [NEWLINE]
    ensures msg.Line() == [] && !msg.IsSeek()
  {
  }

  /** One message of an empty line on a new device stops the server, whatever comes later. */
  lemma EmptyLineStopsTheServer(later: seq<Event>, env: WriteEnv, n: nat)
    requires !env.interrupted
    ensures var first := [Receive(1, [NEWLINE], Place(0, 0)), Lock(1), WriteLine(1, env)];
            var s := After(INITIAL, first + later, n);
            s.holder == Some(1) && s.sessions == [] && s.log == EMPTY && forall t: nat :: s.ReceivedBy(t) == []
  {
    hide After, Inv, Next, INITIAL;
    var receive, write := Receive(1, [NEWLINE], Place(0, 0)), WriteLine(1, env);
    var first := [receive, Lock(1), write];
    RunsKeepInv(first, n);
    AfterThree(INITIAL, receive, Lock(1), write, n);
    KilledAtOnce(env, n);
    KilledForGood(After(INITIAL, first, n), later, 1, n);
    AfterAppend(INITIAL, first, later, n);
  }

  /** A bound on the events thread t still needs to leave the file section, if it is not killed. */
  function Remaining(s: State, t: nat): nat {
    var all := |Stream(s.log)|;
    match s.StageOf(t)
    case AtLine(msg) => 6 + all + |msg.Line()|
    case AtNewline(_) => 5 + all
    case AtSeek(_) => 3 + all
    case AtRead(_, pos) => 2 + (if pos <= all then all - pos else 0)
    case AtUnlock(_) => 1
    case _ => 0
  }

  /** The event with which the holder goes on, whatever its calls meet. */
  predicate GoesOn(s: State, e: Event) {
    match s.StageOf(e.t)
    case AtLine(_) => e.WriteLine?
    case AtNewline(_) => e.WriteNewline?
    case AtSeek(_) => e.Ioctl?
    case AtRead(_, _) => e.ReadAndSend?
    case AtUnlock(_) => e.Unlock?
    case _ => false
  }

  lemma WriteGrowsStream(log: Log, data: seq<byte>, env: WriteEnv)
    ensures |Stream(log)| <= |Stream(WriteCall(log, 0, data, env).log)| <= |Stream(log)| + |data|
  {
    hide Accept, Stream;
    WriteAddsOneChunk(log, data, env);
    var c := Chunk(data[..Copied(|data|, env.uncopied)], env.adjacent);
    StreamGrowsByGathered(log, [c]);
    AcceptOne(log, c);
    assert Gathered([c]) == c.bytes by {
      assert [c][1..] == [];
    }
  }

  lemma WriteAddsOneChunk(log: Log, data: seq<byte>, env: WriteEnv)
    ensures var after := WriteCall(log, 0, data, env).log;
            after == log || after == Accept(log, data[..Copied(|data|, env.uncopied)], env.adjacent)
  {
  }

  lemma ReadMoves(log: Log, n: nat, pos: nat, env: ReadEnv)
    ensures var r := ReadCall(Retained(log, n), pos, SOCK_READ_BUF_SIZE, env);
            r.ret > 0 ==> pos < r.pos <= |Stream(log)|
  {
    if !env.interrupted {
      ReadReturnsContent(Retained(log, n), pos, SOCK_READ_BUF_SIZE, env);
      StreamParts(log, n);
    }
  }

  lemma LineGoesOn(s: State, t: nat, env: WriteEnv)
    requires s.StageOf(t).AtLine?
    ensures var after := AfterLine(s, t, s.StageOf(t).msg, env);
            after != s && Remaining(after, t) < Remaining(s, t) && after.holder == s.holder
  {
    hide Stream, WriteCall;
    WriteGrowsStream(s.log, s.StageOf(t).msg.Line(), env);
  }

  lemma NewlineGoesOn(s: State, t: nat, env: WriteEnv)
    requires s.StageOf(t).AtNewline?
    ensures var after := AfterNewline(s, t, s.StageOf(t).msg, env);
            after != s && Remaining(after, t) < Remaining(s, t) && after.holder == s.holder
  {
    hide Stream, WriteCall;
    WriteGrowsStream(s.log, [NEWLINE], env);
  }

  lemma ReadGoesOn(s: State, t: nat, env: ReadEnv, sent: nat, n: nat)
    requires s.StageOf(t).AtRead?
    ensures var after := AfterRead(s, t, s.StageOf(t).msg, s.StageOf(t).pos, env, sent, n);
            after != s && Remaining(after, t) < Remaining(s, t) && after.holder == s.holder
  {
    hide Stream, ReadCall, Content, Retained;
    ReadMoves(s.log, n, s.StageOf(t).pos, env);
  }

  /**
   The holder is never stuck: its next event changes the state, whatever the calls in it
   meet, and brings it closer to leaving the section.
   */
  lemma HolderGoesOn(s: State, e: Event, n: nat)
    requires Inv(s, n) && s.holder == Some(e.t) && GoesOn(s, e)
    ensures Next(s, e, n) != s
    ensures Remaining(Next(s, e, n), e.t) < Remaining(s, e.t)
    ensures Next(s, e, n).holder == None <==> s.StageOf(e.t).AtUnlock?
  {
    hide AfterLine, AfterNewline, AfterRead, StartOf, SerialLog, Consistent, EchoesExact, EndingsKnown, Stream;
    match e
    case WriteLine(_, env) => LineGoesOn(s, e.t, env);
    case WriteNewline(_, env) => NewlineGoesOn(s, e.t, env);
    case ReadAndSend(_, env, sent) => ReadGoesOn(s, e.t, env, sent, n);
    case _ =>
  }

  /**
   Someone can always go on. In any run the holder, unless it is killed, has an event that
   brings it closer to leaving; and when the mutex is free a thread that waits for it can take it.
   */
  lemma NobodyIsStuck(events: seq<Event>, t: nat, n: nat)
    ensures var s := After(INITIAL, events, n);
            && (s.holder == Some(t) && !s.StageOf(t).Killed? ==>
                  exists e: Event :: e.t == t && GoesOn(s, e) && Remaining(Next(s, e, n), t) < Remaining(s, t))
            && (s.holder == None && s.StageOf(t).Waiting? ==> Next(s, Lock(t), n).holder == Some(t))
  {
    hide After, Remaining, SerialLog, HolderConsistent, EchoesExact, EndingsKnown, ClientsHaveTheirEchoes;
    RunsKeepInv(events, n);
    var s := After(INITIAL, events, n);
    if s.holder == Some(t) && !s.StageOf(t).Killed? {
      assert s.StageOf(t).InSection();
      var write, read := WriteEnv(false, true, 0, 0), ReadEnv(false, 0);
      var e := match s.StageOf(t)
               case AtLine(_) => WriteLine(t, write)
               case AtNewline(_) => WriteNewline(t, write)
               case AtSeek(_) => Ioctl(t, false)
               case AtRead(_, _) => ReadAndSend(t, read, 0)
               case _ => Unlock(t);
      HolderGoesOn(s, e, n);
    }
  }

  /** While a thread holds the mutex the others can neither take it nor delay the holder. */
  lemma OthersDoNotDelay(s: State, e: Event, n: nat)
    requires Inv(s, n) && s.holder.Some? && s.holder != Some(e.t)
    ensures Next(s, e, n).holder == s.holder
    ensures Next(s, e, n).log == s.log
    ensures Remaining(Next(s, e, n), s.holder.value) == Remaining(s, s.holder.value)
  {
    hide Next, State.StageOf, Stream, SerialLog, HolderConsistent, EchoesExact, EndingsKnown, ClientsHaveTheirEchoes;
    assert !s.StageOf(e.t).InSection();
    MovesOneThread(s, e, n);
  }

  /** The events of a run with which thread t went on, up to the point where the mutex is given back. */
  function OwnSteps(s: State, events: seq<Event>, t: nat, n: nat): nat
    decreases |events|
  {
    if events == [] || s.holder != Some(t) then 0
    else (if events[0].t == t && GoesOn(s, events[0]) then 1 else 0)
         + OwnSteps(Next(s, events[0], n), events[1..], t, n)
  }

  /** An I/O error takes the holder straight to its unlock, so no nearer than one step and no further than before. */
  lemma ErrorsDoNotDelay(s: State, e: Event, n: nat)
    requires Inv(s, n) && s.holder == Some(e.t) && !GoesOn(s, e)
    ensures Remaining(Next(s, e, n), e.t) <= Remaining(s, e.t)
  {
    hide AfterLine, AfterNewline, AfterRead, StartOf, SerialLog, Consistent, EchoesExact, EndingsKnown, Stream;
  }

  /** In any run, a thread that holds the mutex takes at most as many steps as Remaining before it gives it back. */
  lemma {:induction false} SectionIsBounded(s: State, events: seq<Event>, t: nat, n: nat)
    requires Inv(s, n)
    ensures s.holder == Some(t) ==> OwnSteps(s, events, t, n) <= Remaining(s, t)
    decreases |events|
  {
    hide Next, Inv, Remaining, GoesOn;
    if events != [] && s.holder == Some(t) {
      var e := events[0];
      var next := Next(s, e, n);
      KeepsInv(s, e, n);
      SectionIsBounded(next, events[1..], t, n);
      if e.t == t && GoesOn(s, e) {
        HolderGoesOn(s, e, n);
      } else if e.t == t {
        ErrorsDoNotDelay(s, e, n);
      } else {
        OthersDoNotDelay(s, e, n);
      }
    }
  }
}
