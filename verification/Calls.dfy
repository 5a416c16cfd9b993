/**
 What one call on an open file does for its caller, from any state of the device and from
 wherever the file stands, and how a file's position follows from the results of its calls.
 */
module Calls {
  import opened Common
  import opened Layout
  import opened Kernel
  import opened CommandLog
  import opened Runs

  /** Whether a signal would end the call's wait for the device lock. */
  predicate Interrupted(op: Op) {
    match op
    case Write(_, _, env) => env.interrupted
    case Read(_, _, env) => env.interrupted
    case SeekTo(_, _, interrupted) => interrupted
    case Llseek(_, _, _, interrupted) => interrupted
  }

  /** What each error means: the file is not open, a signal came first, there was no memory. */
  lemma WhyCallsFail(m: Machine, op: Op, n: nat)
    requires !m.dead
    ensures var ret := Step(m, op, n).ret;
            && (ret == -EBADF <==> |m.pos| <= op.fd)
            && (ret == -EINTR <==> op.fd < |m.pos| && Interrupted(op) && !(op.SeekTo? && n <= op.target.cmd))
            && (ret == -ENOMEM <==> && op.fd < |m.pos| && op.Write? && !Interrupted(op) && !op.wenv.granted
                                    && (op.data != [] || m.log.pending != []))
            && (ret == -EINVAL ==> op.SeekTo? || op.Llseek?)
  {
    hide Accept, Locate, SeekPos, Retained, Content;
  }

  /** On a dead device every call fails. */
  lemma DeadCallsFail(m: Machine, op: Op, n: nat)
    requires m.dead
    ensures Step(m, op, n).ret < 0 && Step(m, op, n).ret != NEVER_RETURNS && Step(m, op, n).m == m
  {
    hide Accept, Locate, SeekPos, Retained, Content;
    FailureChangesNothing(m, op, n);
  }

  /**
   A read that gets the lock hands back the content from where the file stands: as many bytes
   as asked for, or up to the end of the command it stands in, less what could not be copied.
   At the end it hands back nothing.
   */
  lemma ReadAnswers(m: Machine, fd: nat, count: nat, env: ReadEnv, n: nat)
    requires !m.dead && fd < |m.pos| && !env.interrupted
    ensures var r := Step(m, Read(fd, count, env), n);
            var content, pos, sizes := Content(m.log, n), m.pos[fd], Sizes(Retained(m.log, n));
            && r.ret == |r.out| && r.m == m.(pos := m.pos[fd := pos + |r.out|])
            && (|content| <= pos ==> r.out == [])
            && (pos < |content| ==>
                  && pos + |r.out| <= |content| && r.out == content[pos..pos + |r.out|]
                  && exists j: nat :: j < |sizes| && Start(sizes, j) <= pos < Start(sizes, j + 1)
                       && |r.out| == Copied(Min(pos + count, Start(sizes, j + 1)) - pos, env.uncopied))
  {
    hide Locate, Flatten, Start, Retained, ReadCall;
    var cmds, pos := Retained(m.log, n), m.pos[fd];
    ReadReturnsContent(cmds, pos, count, env);
    if pos < |Flatten(cmds)| {
      ReadStopsAtCommandEnd(cmds, pos, count, env);
    }
  }

  /**
   Seek, then read. The seek succeeds exactly when there is such a byte; then the file hands
   back that command's bytes from the offset on. Otherwise nothing has changed.
   */
  lemma SeekThenRead(m: Machine, fd: nat, target: Place, count: nat, env: ReadEnv, n: nat)
    requires !m.dead && fd < |m.pos| && !env.interrupted && env.uncopied == 0
    ensures var cmds := Retained(m.log, n);
            var seek := Step(m, SeekTo(fd, target, false), n);
            && (seek.ret == 0 <==> target.cmd < |cmds| && target.off < |cmds[target.cmd]|)
            && (seek.ret == 0 ==>
                  Step(seek.m, Read(fd, count, env), n).out
                  == cmds[target.cmd][target.off..Min(target.off + count, |cmds[target.cmd]|)])
            && (seek.ret != 0 ==> seek.ret == -EINVAL && seek.m == m)
  {
    hide Locate, Flatten, Start, Retained, SeekCall;
    var cmds := Retained(m.log, n);
    RetainedAtMost(m.log, n);
    SeekFindsTheByte(cmds, n, m.pos[fd], target);
    assert m.pos[fd := m.pos[fd]] == m.pos;
  }

  lemma RetainedAtMost(log: Log, n: nat)
    ensures |Retained(log, n)| <= n
  {
  }

  /**
   Llseek, then read. The file goes to the offset counted from its start, from where it stands
   or from the end of the content, and hands back the content from there on.
   */
  lemma LlseekThenRead(m: Machine, fd: nat, offset: int, whence: Whence, count: nat, env: ReadEnv, n: nat)
    requires !m.dead && fd < |m.pos| && !env.interrupted && env.uncopied == 0 && count != 0
    requires whence != OtherWhence
    ensures var content := Content(m.log, n);
            var to := offset + match whence case SeekCur => m.pos[fd] case SeekEnd => |content| case _ => 0;
            var seek := Step(m, Llseek(fd, offset, whence, false), n);
            && (seek.ret >= 0 <==> 0 <= to <= |content| || (whence == SeekCur && offset == 0))
            && (seek.ret < 0 ==> seek.ret == -EINVAL && seek.m == m)
            && (seek.ret >= 0 ==>
                  && seek.ret == to && seek.m == m.(pos := m.pos[fd := to])
                  && var out := Step(seek.m, Read(fd, count, env), n).out;
                  && (out == [] <==> |content| <= to)
                  && (out != [] ==> to + |out| <= |content| && out == content[to..to + |out|]))
  {
    hide Locate, Flatten, Start, Retained, ReadCall;
    var seek := Step(m, Llseek(fd, offset, whence, false), n);
    LlseekGoesThere(|Content(m.log, n)|, m.pos[fd], offset);
    assert m.pos[fd := m.pos[fd]] == m.pos;
    if seek.ret >= 0 {
      ReadReturnsContent(Retained(m.log, n), seek.m.pos[fd], count, env);
    }
  }

  /** A run during which the file fd is only read from and written to, if used at all. */
  predicate OnlyReadOrWritten(ops: seq<Op>, fd: nat) {
    forall i :: 0 <= i < |ops| ==> ops[i].fd == fd ==> ops[i].Read? || ops[i].Write?
  }

  /** The sum of what the calls on fd returned during a run, errors left out. */
  function ResultTotal(m: Machine, ops: seq<Op>, fd: nat, n: nat): nat
    decreases |ops|
  {
    if ops == [] then 0
    else
      var r := Step(m, ops[0], n);
      (if ops[0].fd == fd && 0 <= r.ret then r.ret else 0) + ResultTotal(r.m, ops[1..], fd, n)
  }

  lemma StepAdvances(m: Machine, op: Op, fd: nat, n: nat)
    requires fd < |m.pos| && (op.fd == fd ==> op.Read? || op.Write?)
    ensures var r := Step(m, op, n);
            && |r.m.pos| == |m.pos|
            && r.m.pos[fd] == m.pos[fd] + if op.fd == fd && 0 <= r.ret then r.ret else 0
  {
    hide Accept, Locate, SeekPos, Retained, Content;
  }

  /**
   However the calls on other files come in between, a file that is only read and written
   stands where it stood plus what its own calls returned.
   */
  lemma {:induction false} PositionIsResultTotal(m: Machine, ops: seq<Op>, fd: nat, n: nat)
    requires fd < |m.pos| && OnlyReadOrWritten(ops, fd)
    ensures var after := Run(m, ops, n);
            fd < |after.pos| && after.pos[fd] == m.pos[fd] + ResultTotal(m, ops, fd, n)
    decreases |ops|
  {
    hide Step;
    if ops != [] {
      StepAdvances(m, ops[0], fd, n);
      PositionIsResultTotal(Step(m, ops[0], n).m, ops[1..], fd, n);
    }
  }
}
