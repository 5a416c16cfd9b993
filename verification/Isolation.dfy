/**
 How little threads have to do with one another: a thread's step does what it would do with
 no other thread about, and no message a thread has received goes missing.
 */
module Isolation {
  import opened Common
  import opened CommandLog
  import opened Messages
  import opened Protocol

  /** What a thread sees of a state: the device, itself, its client, and its session if it holds the mutex. */
  function View(s: State, t: nat): State {
    var mine := s.holder == Some(t);
    State(s.log, if mine then Some(t) else None, map[t := s.StageOf(t)], map[t := s.ReceivedBy(t)],
          if mine then s.session else NO_SESSION, if mine then s.echo else UNSENT, [], [])
  }

  /** Two states in which thread t sees the same. */
  predicate Alike(a: State, b: State, t: nat) {
    && a.log == b.log && a.StageOf(t) == b.StageOf(t) && a.ReceivedBy(t) == b.ReceivedBy(t)
    && (a.holder == Some(t) <==> b.holder == Some(t))
    && (a.holder == Some(t) ==> a.session == b.session && a.echo == b.echo)
  }

  lemma AlikeIsSameView(a: State, b: State, t: nat)
    ensures Alike(a, b, t) <==> View(a, t) == View(b, t)
    ensures Alike(a, View(a, t), t)
  {
    assert View(a, t).stages[t] == a.StageOf(t) && View(b, t).stages[t] == b.StageOf(t);
    assert View(a, t).clients[t] == a.ReceivedBy(t) && View(b, t).clients[t] == b.ReceivedBy(t);
  }

  lemma MovesAlike(a: State, b: State, t: nat, stage: Stage, ending: Ending, data: seq<byte>)
    requires Alike(a, b, t) && a.holder == Some(t)
    ensures Alike(a.At(t, stage), b.At(t, stage), t)
    ensures Alike(a.Leaving(t, ending), b.Leaving(t, ending), t)
    ensures Alike(a.Sending(t, data), b.Sending(t, data), t) && a.Sending(t, data).holder == Some(t)
  {
  }

  lemma LineAlike(a: State, b: State, t: nat, msg: Message, env: WriteEnv)
    requires Alike(a, b, t) && a.holder == Some(t)
    ensures Alike(AfterLine(a, t, msg, env), AfterLine(b, t, msg, env), t)
  {
    hide WriteCall, State.At, State.Leaving;
    var w := WriteCall(a.log, 0, msg.Line(), env);
    var c := a.(log := w.log, session := a.session.(line := Some(env)));
    var d := b.(log := w.log, session := b.session.(line := Some(env)));
    MovesAlike(c, d, t, Killed, Failed, []);
    MovesAlike(c, d, t, AtNewline(msg), Failed, []);
  }

  lemma NewlineAlike(a: State, b: State, t: nat, msg: Message, env: WriteEnv)
    requires Alike(a, b, t) && a.holder == Some(t)
    ensures Alike(AfterNewline(a, t, msg, env), AfterNewline(b, t, msg, env), t)
  {
    hide WriteCall, State.At, State.Leaving;
    var w := WriteCall(a.log, 0, [NEWLINE], env);
    var c := a.(log := w.log, session := a.session.(newline := Some(env)));
    var d := b.(log := w.log, session := b.session.(newline := Some(env)));
    MovesAlike(c, d, t, AtSeek(msg), Failed, []);
  }

  lemma ReadAlike(a: State, b: State, t: nat, msg: Message, pos: nat, env: ReadEnv, sent: nat, n: nat)
    requires Alike(a, b, t) && a.holder == Some(t)
    ensures Alike(AfterRead(a, t, msg, pos, env, sent, n), AfterRead(b, t, msg, pos, env, sent, n), t)
  {
    hide ReadCall, Retained, Content, State.At, State.Leaving, State.Sending;
    var r := ReadCall(Retained(a.log, n), pos, SOCK_READ_BUF_SIZE, env);
    var part, ending := r.out[..Min(sent, |r.out|)], if |Content(a.log, n)| <= pos then Finished else CutShort;
    assert a.log == b.log;
    MovesAlike(a, b, t, Exited, Failed, part);
    MovesAlike(a, b, t, Exited, ending, r.out);
    MovesAlike(a.Sending(t, part), b.Sending(t, part), t, Exited, Failed, []);
    MovesAlike(a.Sending(t, r.out), b.Sending(t, r.out), t, AtRead(msg, r.pos), Failed, []);
    hide Alike;
  }

  /** An event does the same for its thread in states that are alike for it, unless one of them makes it wait. */
  lemma StepsAlike(a: State, b: State, e: Event, n: nat)
    requires Alike(a, b, e.t) && (a.StageOf(e.t).InSection() <==> a.holder == Some(e.t))
    requires e.Lock? && a.StageOf(e.t).Waiting? ==> a.holder == None && b.holder == None
    ensures Alike(Next(a, e, n), Next(b, e, n), e.t)
  {
    hide AfterLine, AfterNewline, AfterRead, StartOf, Message.IsSeek;
    var stage := a.StageOf(e.t);
    match e
    case WriteLine(t, env) =>
      if stage.AtLine? {
        LineAlike(a, b, t, stage.msg, env);
      }
    case WriteNewline(t, env) =>
      if stage.AtNewline? {
        NewlineAlike(a, b, t, stage.msg, env);
      }
    case ReadAndSend(t, env, sent) =>
      if stage.AtRead? {
        ReadAlike(a, b, t, stage.msg, stage.pos, env, sent, n);
      }
    case _ =>
  }

  /**
   Every event of a run, except a lock that has to wait for another thread, does for its
   thread what it would do if there were no other thread and never had been.
   */
  lemma StepsAsIfAlone(events: seq<Event>, e: Event, n: nat)
    ensures var s := After(INITIAL, events, n);
            !(e.Lock? && s.holder.Some?) ==>
              View(Next(s, e, n), e.t) == View(Next(View(s, e.t), e, n), e.t)
  {
    hide Next, Inv, View, Alike, After;
    var s := After(INITIAL, events, n);
    RunsKeepInv(events, n);
    SectionIsHolders(s, e.t, n);
    AlikeIsSameView(s, s, e.t);
    if !(e.Lock? && s.holder.Some?) {
      FreeInView(s, e.t);
      StepsAlike(s, View(s, e.t), e, n);
      AlikeIsSameView(Next(s, e, n), Next(View(s, e.t), e, n), e.t);
    }
  }

  lemma FreeInView(s: State, t: nat)
    ensures s.holder == None ==> View(s, t).holder == None
  {
  }

  /** A lock that another thread holds has to wait. */
  lemma LockWaits(s: State, t: nat, n: nat)
    requires s.holder.Some?
    ensures Next(s, Lock(t), n) == s
  {
  }

  /** The messages of thread t's receives, in order. */
  function ReceivedMessages(events: seq<Event>, t: nat): seq<Message> {
    if events == [] then []
    else
      var e := events[|events| - 1];
      ReceivedMessages(events[..|events| - 1], t)
      + if e.Receive? && e.t == t then [Message(e.data, e.pair)] else []
  }

  /** The messages of thread t's sessions, in order. */
  function HandledMessages(ss: seq<Session>, t: nat): seq<Message> {
    if ss == [] then []
    else
      var s := ss[|ss| - 1];
      HandledMessages(ss[..|ss| - 1], t) + if s.thread == t then [s.msg] else []
  }

  function InHand(stage: Stage): seq<Message> {
    if stage.Waiting? then [stage.msg] else []
  }

  /** A thread receives only when it is back at its receive, and does not give up on the mutex. */
  predicate Patient(events: seq<Event>, t: nat, n: nat) {
    forall i :: 0 <= i < |events| && events[i].t == t ==> TakesTurns(events, i, n)
  }

  predicate TakesTurns(events: seq<Event>, i: nat, n: nat)
    requires i < |events|
  {
    && (events[i].Receive? ==> After(INITIAL, events[..i], n).StageOf(events[i].t).Receiving?)
    && !events[i].LockFails?
  }

  lemma {:induction false} SameHandled(ss: seq<Session>, tt: seq<Session>, t: nat)
    requires SameMessages(ss, tt)
    ensures HandledMessages(ss, t) == HandledMessages(tt, t)
  {
    if ss != [] {
      SameHandled(ss[..|ss| - 1], tt[..|tt| - 1], t);
    }
  }

  lemma OneMoreHandled(ss: seq<Session>, s: Session, t: nat)
    ensures HandledMessages(ss + [s], t) == HandledMessages(ss, t) + if s.thread == t then [s.msg] else []
  {
    assert (ss + [s])[..|ss|] == ss;
  }

  /** One event of a patient run keeps the account of thread t's messages. */
  lemma AccountsOn(s: State, e: Event, t: nat, n: nat)
    requires s.StageOf(e.t).InSection() <==> s.holder == Some(e.t)
    requires e.t == t ==> !e.LockFails? && (e.Receive? ==> s.StageOf(t).Receiving?)
    ensures var after := Next(s, e, n);
            HandledMessages(after.Sessions(), t) + InHand(after.StageOf(t))
            == HandledMessages(s.Sessions(), t) + InHand(s.StageOf(t))
               + if e.Receive? && e.t == t then [Message(e.data, e.pair)] else []
  {
    hide Next, HandledMessages;
    HowMessagesMove(s, e, n);
    MovesOneThread(s, e, n);
    WaitersStay(s, e, n);
    var stage := s.StageOf(e.t);
    if e.Lock? && stage.Waiting? && s.holder == None {
      OneMoreHandled(s.Sessions(), Session(e.t, stage.msg, None, None), t);
    } else {
      SameHandled(s.Sessions(), Next(s, e, n).Sessions(), t);
    }
    assert HandledMessages(s.Sessions(), t) + [] == HandledMessages(s.Sessions(), t);
  }

  /** A thread that waits for the mutex waits until it takes it or gives up. */
  lemma WaitersStay(s: State, e: Event, n: nat)
    ensures s.StageOf(e.t).Waiting? && !e.LockFails? && !(e.Lock? && s.holder == None) ==> Next(s, e, n) == s
  {
  }

  /**
   No message goes missing. In any run in which thread t receives only when it is back at its
   receive and does not give up on the mutex, the messages it has received are those of its
   sessions, in order, and then the one it waits with, if it does.
   */
  lemma {:induction false} NothingReceivedIsLost(events: seq<Event>, t: nat, n: nat)
    requires Patient(events, t, n)
    ensures var s := After(INITIAL, events, n);
            ReceivedMessages(events, t) == HandledMessages(s.Sessions(), t) + InHand(s.StageOf(t))
  {
    hide Next, Inv, HandledMessages;
    if events == [] {
      NothingHandledYet(t, n);
    } else {
      var front, e := events[..|events| - 1], events[|events| - 1];
      PatientSoFar(events, t, n);
      NothingReceivedIsLost(front, t, n);
      RunsKeepInv(front, n);
      var s := After(INITIAL, front, n);
      SectionIsHolders(s, e.t, n);
      AccountsOn(s, e, t, n);
      AfterSnoc(INITIAL, front, e, n);
      assert front + [e] == events;
    }
  }

  lemma NothingHandledYet(t: nat, n: nat)
    ensures var s := After(INITIAL, [], n);
            HandledMessages(s.Sessions(), t) + InHand(s.StageOf(t)) == []
  {
  }

  lemma PatientSoFar(events: seq<Event>, t: nat, n: nat)
    requires Patient(events, t, n) && events != []
    ensures var front, e := events[..|events| - 1], events[|events| - 1];
            && Patient(front, t, n)
            && (e.t == t ==> !e.LockFails? && (e.Receive? ==> After(INITIAL, front, n).StageOf(t).Receiving?))
  {
    hide After;
    var front := events[..|events| - 1];
    forall i | 0 <= i < |front| && front[i].t == t
      ensures TakesTurns(front, i, n)
    {
      assert front[..i] == events[..i];
      assert TakesTurns(events, i, n);
    }
  }
}
