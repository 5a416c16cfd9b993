/** What a client's message asks for, and what handling it does to the device (aesdsocket.c). */
module Messages {
  import opened Common
  import opened Layout
  import opened Kernel
  import opened CommandLog

  const SOCK_READ_BUF_SIZE: nat := 1000

  /** The letters of AESDCHAR_IOCSEEKTO, the part of the seek format before its colon. */
  const SEEK_COMMAND: seq<byte> := [65, 69, 83, 68, 67, 72, 65, 82, 95, 73, 79, 67, 83, 69, 69, 75, 84, 79]

  /** Where strchrnul stops: at the first newline, or at the end of the string. */
  function LineLength(data: seq<byte>): (k: nat)
    ensures k <= |data|
    ensures forall i :: 0 <= i < k ==> data[i] != NEWLINE && data[i] != NUL
    ensures k < |data| ==> data[k] == NEWLINE || data[k] == NUL
  {
    if data == [] || data[0] == NEWLINE || data[0] == NUL then 0 else 1 + LineLength(data[1..])
  }

  /** The bytes received for a message, and the pair sscanf leaves for it if it is a seek. */
  datatype Message = Message(data: seq<byte>, pair: Place) {
    predicate IsSeek() {
      SEEK_COMMAND <= data
    }

    /** What comes before the first newline or NUL: a beginning of the message without either, as long as can be. */
    function Line(): (line: seq<byte>)
      ensures line <= data && NEWLINE !in line && NUL !in line
      ensures |line| < |data| ==> data[|line|] == NEWLINE || data[|line|] == NUL
    {
      data[..LineLength(data)]
    }

    /** The pair handed to the seek ioctl before the content is read back. */
    function Target(): Place {
      if IsSeek() then pair else Place(0, 0)
    }
  }

  /** One message handled under the mutex, with what its two device writes met; None is a write not reached. */
  datatype Session = Session(thread: nat, msg: Message, line: Option<WriteEnv>, newline: Option<WriteEnv>) {
    /** On the log it finds, the newline is reached only when the line's write has returned without an error. */
    predicate InOrderOn(log: Log) {
      && (line.Some? ==> !msg.IsSeek())
      && (newline.Some? ==> line.Some? && WriteCall(log, 0, msg.Line(), line.value).ret >= 0)
    }
  }

  predicate Succeeds(env: WriteEnv) {
    !env.interrupted && env.granted
  }

  /** How many bytes of data a write adds to the device. */
  function Added(data: seq<byte>, env: Option<WriteEnv>): (k: nat)
    ensures k <= |data|
  {
    if env.Some? && Succeeds(env.value) then Copied(|data|, env.value.uncopied) else 0
  }

  function AfterWrite(log: Log, data: seq<byte>, env: Option<WriteEnv>): Log {
    if env.None? then log else WriteCall(log, 0, data, env.value).log
  }

  /** The device after a session, the session having had it to itself. */
  function SessionEffect(log: Log, s: Session): Log {
    AfterWrite(AfterWrite(log, s.msg.Line(), s.line), [NEWLINE], s.newline)
  }

  /** A device after the sessions one at a time. */
  function Replayed(log: Log, ss: seq<Session>): Log {
    if ss == [] then log else SessionEffect(Replayed(log, ss[..|ss| - 1]), ss[|ss| - 1])
  }

  /** A new device after the sessions one at a time. */
  function SerialLog(ss: seq<Session>): Log {
    Replayed(EMPTY, ss)
  }

  /** sent is what lies between start and pos in content. */
  predicate Sent(content: seq<byte>, start: nat, pos: nat, sent: seq<byte>) {
    start <= pos <= |content| && sent == content[start..pos]
  }

  /** The position of a freshly opened file after the seek ioctl, whose errors the server ignores. */
  function StartOf(log: Log, n: nat, target: Place, interrupted: bool): nat {
    SeekCall(Retained(log, n), n, 0, target, interrupted).pos
  }

  lemma StartInContent(log: Log, n: nat, target: Place, interrupted: bool)
    ensures StartOf(log, n, target, interrupted) <= |Content(log, n)|
    ensures target == Place(0, 0) ==> StartOf(log, n, target, interrupted) == 0
  {
    var cmds := Retained(log, n);
    FlattenedTotal(cmds);
    if ValidPlace(Sizes(cmds), target) {
      StartsIncrease(Sizes(cmds), target.cmd, |cmds|);
    }
  }

  /** Reading on, from a place within the content, stays within it; any part of what is read extends what is sent. */
  lemma ReadExtendsSent(log: Log, n: nat, start: nat, pos: nat, sent: seq<byte>, env: ReadEnv, k: nat)
    requires Sent(Content(log, n), start, pos, sent)
    ensures var r := ReadCall(Retained(log, n), pos, SOCK_READ_BUF_SIZE, env);
            && (0 <= r.ret ==> r.ret == |r.out| && r.pos == pos + |r.out|)
            && (k <= |r.out| ==> Sent(Content(log, n), start, pos + k, sent + r.out[..k]))
  {
    hide Retained, Content, Locate;
    var r := ReadCall(Retained(log, n), pos, SOCK_READ_BUF_SIZE, env);
    if env.interrupted {
      assert sent + [] == sent;
    } else {
      ReadReturnsContent(Retained(log, n), pos, SOCK_READ_BUF_SIZE, env);
      assert Content(log, n) == Flatten(Retained(log, n)) by {
        ContentIsFlattened(log, n);
      }
      if k <= |r.out| {
        SentMore(Content(log, n), start, pos, sent, r.out, k);
      }
    }
  }

  lemma ContentIsFlattened(log: Log, n: nat)
    ensures Content(log, n) == Flatten(Retained(log, n))
  {
  }

  lemma InterruptedRead(cmds: seq<seq<byte>>, pos: nat, env: ReadEnv)
    requires env.interrupted
    ensures ReadCall(cmds, pos, SOCK_READ_BUF_SIZE, env) == ReadResult(pos, -EINTR, [])
  {
  }

  lemma SentMore(content: seq<byte>, start: nat, pos: nat, sent: seq<byte>, out: seq<byte>, k: nat)
    requires Sent(content, start, pos, sent) && k <= |out|
    requires out != [] ==> pos + |out| <= |content| && out == content[pos..pos + |out|]
    ensures Sent(content, start, pos + k, sent + out[..k])
  {
    if k == 0 {
      assert sent + out[..0] == sent;
    } else {
      assert out[..k] == content[pos..pos + k];
    }
  }

  /**
   How a session's sending ended: not yet, at the end of the content, at a read that could
   copy nothing although there was more, or on an error.
   */
  datatype Ending = Open | Finished | CutShort | Failed

  /** What one session sent its client, and whether its ioctl was interrupted. */
  datatype Echo = Echo(interrupted: bool, bytes: seq<byte>, ending: Ending)

  const UNSENT := Echo(false, [], Open)

  /**
   An echo is the content as its session left it, from where its ioctl put the file on: all
   of it when finished, less when cut short, a beginning of it in any case.
   */
  predicate Exact(log: Log, msg: Message, echo: Echo, n: nat) {
    var content, start := Content(log, n), StartOf(log, n, msg.Target(), echo.interrupted);
    && Sent(content, start, start + |echo.bytes|, echo.bytes)
    && (echo.ending == Finished ==> start + |echo.bytes| == |content|)
    && (echo.ending == CutShort ==> start + |echo.bytes| < |content|)
  }

  /** The echo of session k is exact, the sessions having begun on the given log. */
  predicate ExactAt(log: Log, ss: seq<Session>, echoes: seq<Echo>, k: nat, n: nat)
    requires k < |ss| == |echoes|
  {
    Exact(Replayed(log, ss[..k + 1]), ss[k].msg, echoes[k], n)
  }

  /** Session k wrote in order, the sessions having begun on the given log. */
  predicate InOrderAt(log: Log, ss: seq<Session>, k: nat)
    requires k < |ss|
  {
    ss[k].InOrderOn(Replayed(log, ss[..k]))
  }

  /** One exact echo for every session. */
  predicate EchoesExact(log: Log, ss: seq<Session>, echoes: seq<Echo>, n: nat) {
    && |echoes| == |ss|
    && forall k: nat :: k < |ss| ==> ExactAt(log, ss, echoes, k, n)
  }

  /** What the sessions of thread t sent, one after the other. */
  function Joined(ss: seq<Session>, echoes: seq<Echo>, t: nat): seq<byte>
    requires |echoes| == |ss|
  {
    if ss == [] then []
    else
      var k := |ss| - 1;
      Joined(ss[..k], echoes[..k], t) + (if ss[k].thread == t then echoes[k].bytes else [])
  }

  /** Nothing sent yet is a beginning. */
  lemma UnsentIsExact(log: Log, msg: Message, interrupted: bool, n: nat)
    ensures Exact(log, msg, UNSENT.(interrupted := interrupted), n)
  {
    StartInContent(log, n, msg.Target(), interrupted);
  }

  /** An error leaves the beginning that was sent. */
  lemma FailedIsExact(log: Log, msg: Message, echo: Echo, n: nat)
    requires Exact(log, msg, echo, n)
    ensures Exact(log, msg, echo.(ending := Failed), n)
  {
  }

  /** One turn of the send loop keeps the echo exact, whether a part or all of what was read is sent. */
  lemma ReadExtendsEcho(log: Log, n: nat, msg: Message, echo: Echo, env: ReadEnv, k: nat, ending: Ending)
    requires Exact(log, msg, echo, n) && (ending == Open || ending == Failed)
    ensures var pos := StartOf(log, n, msg.Target(), echo.interrupted) + |echo.bytes|;
            var r := ReadCall(Retained(log, n), pos, SOCK_READ_BUF_SIZE, env);
            && (0 <= r.ret ==> r.ret == |r.out| && r.pos == pos + |r.out|)
            && (k <= |r.out| ==> Exact(log, msg, Echo(echo.interrupted, echo.bytes + r.out[..k], ending), n))
  {
    hide StartOf, Content, Retained, ReadCall;
    var start := StartOf(log, n, msg.Target(), echo.interrupted);
    ReadExtendsSent(log, n, start, start + |echo.bytes|, echo.bytes, env, k);
  }

  /** A read that returns nothing ends the sending, at the end of the content or before. */
  lemma EndIsExact(log: Log, n: nat, msg: Message, echo: Echo)
    requires Exact(log, msg, echo, n)
    ensures var pos := StartOf(log, n, msg.Target(), echo.interrupted) + |echo.bytes|;
            Exact(log, msg, echo.(ending := if |Content(log, n)| <= pos then Finished else CutShort), n)
  {
  }

  /** Going on from a number of sessions that are over with one more of which the echo is exact. */
  lemma OneMoreExact(log: Log, ss: seq<Session>, echoes: seq<Echo>, tt: seq<Session>, fs: seq<Echo>, n: nat)
    requires EchoesExact(log, ss, echoes, n)
    requires tt != [] && |fs| == |tt| <= |ss| + 1
    requires tt[..|tt| - 1] == ss[..|tt| - 1] && fs[..|tt| - 1] == echoes[..|tt| - 1]
    requires Exact(Replayed(log, tt), tt[|tt| - 1].msg, fs[|tt| - 1], n)
    ensures EchoesExact(log, tt, fs, n)
  {
    hide Exact, Replayed;
    forall k: nat | k < |tt|
      ensures ExactAt(log, tt, fs, k, n)
    {
      if k < |tt| - 1 {
        assert ExactAt(log, ss, echoes, k, n);
        assert tt[..|tt| - 1][..k + 1] == ss[..|tt| - 1][..k + 1];
        assert tt[..k + 1] == ss[..k + 1];
        assert tt[k] == tt[..|tt| - 1][k] && fs[k] == fs[..|tt| - 1][k];
      } else {
        assert tt[..k + 1] == tt;
      }
    }
  }

  lemma FewerExact(log: Log, ss: seq<Session>, echoes: seq<Echo>, n: nat)
    requires EchoesExact(log, ss, echoes, n) && ss != []
    ensures EchoesExact(log, ss[..|ss| - 1], echoes[..|ss| - 1], n)
  {
    hide Exact, Replayed;
    var front, fs := ss[..|ss| - 1], echoes[..|ss| - 1];
    forall k: nat | k < |front|
      ensures ExactAt(log, front, fs, k, n)
    {
      assert ExactAt(log, ss, echoes, k, n);
      assert front[..k + 1] == ss[..k + 1];
    }
  }

  /** Both writes went through in full, and the line was not empty. */
  predicate Clean(s: Session) {
    && s.line.Some? && s.newline.Some? && Succeeds(s.line.value) && Succeeds(s.newline.value)
    && Added(s.msg.Line(), s.line) == |s.msg.Line()|
    && Added([NEWLINE], s.newline) == 1
    && s.msg.Line() != []
  }

  /** A message's session adds exactly its line and a newline, as one command, if and only if it is clean. */
  lemma CommitsExactlyItsLine(log: Log, s: Session)
    requires log.pending == [] && s.InOrderOn(log) && !s.msg.IsSeek()
    ensures SessionEffect(log, s) == Log(log.history + [s.msg.Line() + [NEWLINE]], []) <==> Clean(s)
  {
    var h, line := log.history, s.msg.Line();
    var k := Added(line, s.line);
    SnocInjective(h, [], line + [NEWLINE]);
    if s.line.Some? && Succeeds(s.line.value) && line != [] {
      var mid := AfterWrite(log, line, s.line);
      var closed := k == 0 && s.line.value.adjacent == NEWLINE;
      assert mid == if closed then Log(h + [[]], []) else Log(h, line[..k]) by {
        assert [] + line[..k] == line[..k];
      }
      if s.newline.Some? && Succeeds(s.newline.value) {
        NewlineWrite(mid, s.newline.value);
        if Added([NEWLINE], s.newline) == 1 && !closed {
          SnocInjective(h, line[..k] + [NEWLINE], line + [NEWLINE]);
          assert |line[..k] + [NEWLINE]| == k + 1;
          assert k == |line| ==> line[..k] == line;
        } else if Added([NEWLINE], s.newline) == 1 {
          assert |h + [[]] + [[NEWLINE]]| != |h + [line + [NEWLINE]]|;
        } else if closed {
          assert |h + [[]] + [[]]| != |h + [line + [NEWLINE]]|;
        }
      }
    }
  }

  lemma SnocInjective(h: seq<seq<byte>>, a: seq<byte>, b: seq<byte>)
    ensures h + [a] == h + [b] <==> a == b
    ensures h != h + [b]
  {
    assert (h + [a])[|h|] == a && (h + [b])[|h|] == b;
    assert |h| != |h + [b]|;
  }

  lemma NewlineWrite(log: Log, env: WriteEnv)
    requires Succeeds(env)
    ensures Added([NEWLINE], Some(env)) == 1 ==>
              AfterWrite(log, [NEWLINE], Some(env)) == Log(log.history + [log.pending + [NEWLINE]], [])
    ensures Added([NEWLINE], Some(env)) == 0 ==>
              AfterWrite(log, [NEWLINE], Some(env)) == Accept(log, [], env.adjacent)
  {
    assert [NEWLINE][..1] == [NEWLINE] && [NEWLINE][..0] == [];
  }

  /**
   A session on an idle device leaves bytes pending exactly when some of its line was
   copied and its newline was not.
   */
  lemma LeavesPending(log: Log, s: Session)
    requires log.pending == [] && s.InOrderOn(log)
    ensures SessionEffect(log, s).pending != [] <==>
            Added(s.msg.Line(), s.line) > 0 && Added([NEWLINE], s.newline) == 0
  {
    hide Message.Line, Message.IsSeek;
    var line := s.msg.Line();
    var k := Added(line, s.line);
    assert [] + line[..k] == line[..k];
    if s.newline.Some? && Succeeds(s.newline.value) {
      NewlineWrite(AfterWrite(log, line, s.line), s.newline.value);
    }
  }

  /** The lines of the messages that are not seeks, each with its newline. */
  function Lines(ss: seq<Session>): seq<seq<byte>> {
    if ss == [] then []
    else
      var s := ss[|ss| - 1];
      Lines(ss[..|ss| - 1]) + (if s.msg.IsSeek() then [] else [s.msg.Line() + [NEWLINE]])
  }

  predicate AllClean(ss: seq<Session>) {
    forall i :: 0 <= i < |ss| ==> AsItShould(ss[i])
  }

  /** A seek that wrote nothing, or a clean session. */
  predicate AsItShould(s: Session) {
    if s.msg.IsSeek() then s.line == None && s.newline == None else Clean(s)
  }

  /** Clean sessions commit one command per ordinary message, in order, and leave nothing pending. */
  lemma {:induction false} CleanSessionsCommitTheirLines(ss: seq<Session>)
    requires AllClean(ss)
    ensures SerialLog(ss) == Log(Lines(ss), [])
  {
    if ss != [] {
      var before, s := ss[..|ss| - 1], ss[|ss| - 1];
      CleanSessionsCommitTheirLines(before);
      if !s.msg.IsSeek() {
        CommitsExactlyItsLine(SerialLog(before), s);
      }
    }
  }
}
