/**
 Runs: any number of open files, any calls on them in any order, with any failures. The
 theorems here hold of every run, so of every interleaving of the callers.
 */
module Runs {
  import opened Common
  import opened Layout
  import opened Kernel
  import opened CommandLog

  const EBADF := 9

  datatype Op =
    | Write(fd: nat, data: seq<byte>, wenv: WriteEnv)
    | Read(fd: nat, count: nat, renv: ReadEnv)
    | SeekTo(fd: nat, target: Place, interrupted: bool)
    | Llseek(fd: nat, offset: int, whence: Whence, interrupted: bool)

  /**
   The device and the position of every open file. It is dead once a caller was killed in a
   write: the device lock is never released again.
   */
  datatype Machine = Machine(log: Log, pos: seq<nat>, dead: bool)

  datatype StepResult = StepResult(m: Machine, ret: int, out: seq<byte>)

  /** A device just loaded, with a number of files just opened. */
  function Loaded(nfiles: nat): Machine {
    Machine(EMPTY, seq(nfiles, _ => 0), false)
  }

  /** What a call can still return when the lock is never free: the signal that ends its wait. */
  function Waiting(op: Op): Op {
    match op
    case Write(fd, data, env) => Write(fd, data, env.(interrupted := true))
    case Read(fd, count, env) => Read(fd, count, env.(interrupted := true))
    case SeekTo(fd, target, _) => SeekTo(fd, target, true)
    case Llseek(fd, offset, whence, _) => Llseek(fd, offset, whence, true)
  }

  function Step(m: Machine, op: Op, n: nat): StepResult {
    if |m.pos| <= op.fd then StepResult(m, -EBADF, [])
    else
      var pos := m.pos[op.fd];
      match if m.dead then Waiting(op) else op
      case Write(fd, data, env) =>
        var r := WriteCall(m.log, pos, data, env);
        StepResult(Machine(r.log, m.pos[fd := r.pos], m.dead || r.ret == NEVER_RETURNS), r.ret, [])
      case Read(fd, count, env) =>
        var r := ReadCall(Retained(m.log, n), pos, count, env);
        StepResult(m.(pos := m.pos[fd := r.pos]), r.ret, r.out)
      case SeekTo(fd, target, interrupted) =>
        var r := SeekCall(Retained(m.log, n), n, pos, target, interrupted);
        StepResult(m.(pos := m.pos[fd := r.pos]), r.ret, [])
      case Llseek(fd, offset, whence, interrupted) =>
        var r := LlseekCall(|Content(m.log, n)|, pos, offset, whence, interrupted);
        StepResult(m.(pos := m.pos[fd := r.pos]), r.ret, [])
  }

  function Run(m: Machine, ops: seq<Op>, n: nat): Machine
    decreases |ops|
  {
    if ops == [] then m else Run(Step(m, ops[0], n).m, ops[1..], n)
  }

  /** A call that reports an error, or never returns, has changed neither the log nor any position. */
  lemma FailureChangesNothing(m: Machine, op: Op, n: nat)
    ensures var r := Step(m, op, n);
            r.ret < 0 ==> r.m.log == m.log && r.m.pos == m.pos && r.out == []
    ensures Step(m, op, n).ret < 0 && Step(m, op, n).ret != NEVER_RETURNS ==> Step(m, op, n).m == m
  {
    if op.fd < |m.pos| {
      assert m.pos[op.fd := m.pos[op.fd]] == m.pos;
    }
  }

  /** The call that does not return is a write of no bytes while none are pending; the device is dead afterwards. */
  lemma WhatKills(m: Machine, op: Op, n: nat)
    requires !m.dead && op.fd < |m.pos|
    ensures Step(m, op, n).ret == NEVER_RETURNS <==> Step(m, op, n).m.dead
    ensures Step(m, op, n).m.dead <==>
            op.Write? && !op.wenv.interrupted && op.data == [] && m.log.pending == []
  {
  }

  /** On a dead device no call succeeds any more, and nothing changes. */
  lemma {:induction false} DeadForGood(m: Machine, ops: seq<Op>, n: nat)
    requires m.dead
    ensures Run(m, ops, n) == m
    decreases |ops|
  {
    if ops != [] {
      FailureChangesNothing(m, ops[0], n);
      DeadForGood(m, ops[1..], n);
    }
  }

  /** The writes of a run that got past the lock and the allocation, with the bytes that were copied. */
  function Chunks(m: Machine, ops: seq<Op>, n: nat): seq<Chunk>
    decreases |ops|
  {
    if ops == [] then []
    else ChunkOf(m, ops[0]) + Chunks(Step(m, ops[0], n).m, ops[1..], n)
  }

  function ChunkOf(m: Machine, op: Op): seq<Chunk> {
    if op.Write? && op.fd < |m.pos| && !m.dead && WriteCall(m.log, 0, op.data, op.wenv).ret >= 0
    then [Chunk(op.data[..Copied(|op.data|, op.wenv.uncopied)], op.wenv.adjacent)]
    else []
  }

  /** The log after a run is the log after its accepted writes, whatever else happened in between. */
  lemma {:induction false} RunIsAcceptAll(m: Machine, ops: seq<Op>, n: nat)
    ensures Run(m, ops, n).log == AcceptAll(m.log, Chunks(m, ops, n))
    ensures |Run(m, ops, n).pos| == |m.pos|
    decreases |ops|
  {
    if ops != [] {
      var next := Step(m, ops[0], n).m;
      var first := ChunkOf(m, ops[0]);
      RunIsAcceptAll(next, ops[1..], n);
      AcceptAllAppend(m.log, first, Chunks(next, ops[1..], n));
      StepAccepts(m, ops[0], n);
    }
  }

  lemma StepAccepts(m: Machine, op: Op, n: nat)
    ensures Step(m, op, n).m.log == AcceptAll(m.log, ChunkOf(m, op))
    ensures |Step(m, op, n).m.pos| == |m.pos|
  {
    hide Accept, WriteCall, ReadCall, SeekCall, LlseekCall, Retained, Content;
    if op.Write? && op.fd < |m.pos| {
      var env := op.wenv;
      WriteAccepts(m.log, m.pos[op.fd], op.data, if m.dead then env.(interrupted := true) else env);
      AcceptOne(m.log, Chunk(op.data[..Copied(|op.data|, env.uncopied)], env.adjacent));
    }
  }

  /** A write adds what it accepted, from wherever its file stands, and nothing when it fails. */
  lemma WriteAccepts(s: Log, pos: nat, data: seq<byte>, env: WriteEnv)
    ensures WriteCall(s, pos, data, env).ret == WriteCall(s, 0, data, env).ret
    ensures WriteCall(s, pos, data, env).log ==
            if WriteCall(s, 0, data, env).ret < 0 then s
            else Accept(s, data[..Copied(|data|, env.uncopied)], env.adjacent)
    ensures env.interrupted ==> WriteCall(s, 0, data, env).ret < 0
  {
  }

  /**
   History. After any run the commands are the accepted bytes grouped up to each write that
   ends in a newline, the ring shows the newest n of them, and the ungrouped tail is pending
   and does not end in a newline.
   */
  lemma HistoryOfRun(nfiles: nat, ops: seq<Op>, n: nat)
    ensures var log := Run(Loaded(nfiles), ops, n).log;
            var groups := Group(Chunks(Loaded(nfiles), ops, n));
            && log == groups
            && Retained(log, n) == LastN(groups.history, n)
            && LastOr(log.pending, NUL) != NEWLINE
  {
    var chunks := Chunks(Loaded(nfiles), ops, n);
    RunIsAcceptAll(Loaded(nfiles), ops, n);
    AcceptAllIsGroup([], chunks);
    assert [] + Group(chunks).history == Group(chunks).history;
    PendingNeverEndsInNewline(EMPTY, chunks);
  }

  /** The sum of what the writes of a run returned, errors left out. */
  function WriteTotal(m: Machine, ops: seq<Op>, n: nat): nat
    decreases |ops|
  {
    if ops == [] then 0
    else
      var r := Step(m, ops[0], n);
      (if ops[0].Write? && 0 <= r.ret then r.ret else 0) + WriteTotal(r.m, ops[1..], n)
  }

  lemma {:induction false} WriteTotalIsGathered(m: Machine, ops: seq<Op>, n: nat)
    ensures WriteTotal(m, ops, n) == |Gathered(Chunks(m, ops, n))|
    decreases |ops|
  {
    if ops != [] {
      var next, first := Step(m, ops[0], n).m, ChunkOf(m, ops[0]);
      WriteTotalIsGathered(next, ops[1..], n);
      GatheredAppend(first, Chunks(next, ops[1..], n));
      assert first != [] ==> first[1..] == [];
    }
  }

  /**
   Conservation. No byte is lost, duplicated or reordered: what was evicted, what is
   readable and what is pending together are the accepted bytes, and as many as the writes
   reported.
   */
  lemma BytesAreConserved(nfiles: nat, ops: seq<Op>, n: nat)
    ensures var m0 := Loaded(nfiles);
            var log := Run(m0, ops, n).log;
            && Evicted(log, n) + Content(log, n) + log.pending == Gathered(Chunks(m0, ops, n))
            && |Evicted(log, n)| + |Content(log, n)| + |log.pending| == WriteTotal(m0, ops, n)
  {
    hide Chunks, Run, AcceptAll, WriteTotal, Gathered, AllButLastN, LastN;
    var m0 := Loaded(nfiles);
    var gathered := Gathered(Chunks(m0, ops, n));
    RunIsAcceptAll(m0, ops, n);
    StreamGrowsByGathered(EMPTY, Chunks(m0, ops, n));
    StreamParts(Run(m0, ops, n).log, n);
    WriteTotalIsGathered(m0, ops, n);
    assert Stream(EMPTY) + gathered == gathered;
  }

  /** A file's position counted from the first byte ever accepted. */
  function AbsPos(m: Machine, fd: nat, n: nat): nat
    requires fd < |m.pos|
  {
    |Evicted(m.log, n)| + m.pos[fd]
  }

  /** Everything the reads on fd returned during a run, in order. */
  function ReadBytes(m: Machine, ops: seq<Op>, fd: nat, n: nat): seq<byte>
    decreases |ops|
  {
    if ops == [] then []
    else
      var r := Step(m, ops[0], n);
      (if ops[0].fd == fd then r.out else []) + ReadBytes(r.m, ops[1..], fd, n)
  }

  /** What has been accepted so far stays the beginning of the stream. */
  lemma StreamOnlyGrows(m: Machine, ops: seq<Op>, n: nat)
    ensures Stream(m.log) <= Stream(Run(m, ops, n).log)
  {
    RunIsAcceptAll(m, ops, n);
    StreamGrowsByGathered(m.log, Chunks(m, ops, n));
  }

  /** Only a read that was not interrupted, on a device that is not dead, returns bytes. */
  lemma WhatReturnsBytes(m: Machine, op: Op, n: nat)
    ensures var r := Step(m, op, n);
            r.out != [] ==>
              && op.fd < |m.pos| && op.Read? && !m.dead && !op.renv.interrupted
              && r.out == ReadCall(Retained(m.log, n), m.pos[op.fd], op.count, op.renv).out
    ensures op.Read? && op.fd < |m.pos| ==>
              Step(m, op, n).m.pos == m.pos[op.fd := m.pos[op.fd] + |Step(m, op, n).out|]
  {
    hide WriteCall, SeekCall, LlseekCall, Retained, Locate;
  }

  /** A read returns the bytes of the stream at the file's position in it. */
  lemma ReadIsSliceOfStream(m: Machine, op: Op, n: nat)
    ensures var r := Step(m, op, n);
            r.out != [] ==>
              op.fd < |m.pos| && var at := AbsPos(m, op.fd, n);
              at + |r.out| <= |Stream(m.log)| && Stream(m.log)[at..at + |r.out|] == r.out
  {
    hide Step, ReadCall, Stream;
    var out := Step(m, op, n).out;
    WhatReturnsBytes(m, op, n);
    if out != [] {
      var pos := m.pos[op.fd];
      ReadReturnsContent(Retained(m.log, n), pos, op.count, op.renv);
      StreamParts(m.log, n);
      InnerSlice(Evicted(m.log, n), Content(m.log, n), m.log.pending, pos, pos + |out|);
    }
  }

  lemma InnerSlice(a: seq<byte>, b: seq<byte>, c: seq<byte>, i: nat, j: nat)
    requires i <= j <= |b|
    ensures (a + b + c)[|a| + i..|a| + j] == b[i..j]
  {
  }

  /** A run during which the file fd is only read from, if used at all. */
  predicate OnlyRead(ops: seq<Op>, fd: nat) {
    forall i :: 0 <= i < |ops| ==> ops[i].fd == fd ==> ops[i].Read?
  }

  lemma {:induction false} EvictedOnlyGrows(s: Log, chunks: seq<Chunk>, n: nat)
    ensures |Evicted(s, n)| <= |Evicted(AcceptAll(s, chunks), n)|
    decreases |chunks|
  {
    if chunks != [] {
      var next := Accept(s, chunks[0].bytes, chunks[0].adjacent);
      EvictedStep(s, next, n);
      EvictedOnlyGrows(next, chunks[1..], n);
    }
  }

  lemma EvictedStep(s: Log, next: Log, n: nat)
    requires s.history <= next.history
    ensures |Evicted(s, n)| <= |Evicted(next, n)|
  {
    hide Flatten;
    var a, b := AllButLastN(s.history, n), AllButLastN(next.history, n);
    assert a == s.history[..|a|] && b == next.history[..|b|] && |a| <= |b|;
    assert b == a + b[|a|..];
    FlattenAppend(a, b[|a|..]);
  }

  /** One call moves a file that is only read by what it returned to it plus what it evicted. */
  lemma StepMoves(m: Machine, op: Op, fd: nat, n: nat)
    requires fd < |m.pos| && (op.fd == fd ==> op.Read?)
    ensures var r := Step(m, op, n);
            && |r.m.pos| == |m.pos|
            && AbsPos(r.m, fd, n) == AbsPos(m, fd, n) + (if op.fd == fd then |r.out| else 0)
                                     + |Evicted(r.m.log, n)| - |Evicted(m.log, n)|
    ensures Stream(m.log) <= Stream(Step(m, op, n).m.log)
    ensures |Evicted(m.log, n)| <= |Evicted(Step(m, op, n).m.log, n)|
  {
    assert Run(m, [op], n) == Run(Step(m, op, n).m, [], n);
    StreamOnlyGrows(m, [op], n);
    RunIsAcceptAll(m, [op], n);
    EvictedOnlyGrows(m.log, Chunks(m, [op], n), n);
    WhatReturnsBytes(m, op, n);
  }

  /**
   While a file is only read, its place in the stream moves by what its reads returned plus
   what the other files' commits evicted meanwhile.
   */
  lemma {:induction false} GapIsEviction(m: Machine, ops: seq<Op>, fd: nat, n: nat)
    requires fd < |m.pos| && OnlyRead(ops, fd)
    ensures var after := Run(m, ops, n);
            && fd < |after.pos|
            && |Evicted(m.log, n)| <= |Evicted(after.log, n)|
            && AbsPos(after, fd, n) == AbsPos(m, fd, n) + |ReadBytes(m, ops, fd, n)|
                                       + |Evicted(after.log, n)| - |Evicted(m.log, n)|
    decreases |ops|
  {
    hide Step, Evicted, AbsPos, Stream;
    if ops != [] {
      StepMoves(m, ops[0], fd, n);
      GapIsEviction(Step(m, ops[0], n).m, ops[1..], fd, n);
    }
  }

  /**
   Continuity. With nothing evicted meanwhile, the reads of a file that is only read join
   into one gap-free slice of the stream, however the other files' calls come in between.
   */
  lemma {:induction false} ReadsJoin(m: Machine, ops: seq<Op>, fd: nat, n: nat)
    requires fd < |m.pos| && OnlyRead(ops, fd)
    requires |Evicted(Run(m, ops, n).log, n)| == |Evicted(m.log, n)|
    ensures var read := ReadBytes(m, ops, fd, n);
            var stream := Stream(Run(m, ops, n).log);
            var at := AbsPos(m, fd, n);
            read != [] ==> at + |read| <= |stream| && stream[at..at + |read|] == read
    decreases |ops|
  {
    hide Step, Evicted, AbsPos, Stream;
    if ops != [] {
      var op, rest := ops[0], ops[1..];
      var next := Step(m, op, n).m;
      StepMoves(m, op, fd, n);
      GapIsEviction(next, rest, fd, n);
      ReadsJoin(next, rest, fd, n);
      StreamOnlyGrows(next, rest, n);
      ReadIsSliceOfStream(m, op, n);
      JoinSlices(Stream(m.log), Stream(Run(next, rest, n).log), AbsPos(m, fd, n),
                 if op.fd == fd then Step(m, op, n).out else [], ReadBytes(next, rest, fd, n));
    }
  }

  lemma JoinSlices(s: seq<byte>, t: seq<byte>, at: nat, a: seq<byte>, b: seq<byte>)
    requires s <= t
    requires a != [] ==> at + |a| <= |s| && s[at..at + |a|] == a
    requires b != [] ==> at + |a| + |b| <= |t| && t[at + |a|..at + |a| + |b|] == b
    ensures a + b != [] ==> at + |a + b| <= |t| && t[at..at + |a + b|] == a + b
  {
    if a != [] {
      assert t[at..at + |a|] == s[at..at + |a|];
    }
    if a + b != [] {
      assert t[at..at + |a + b|] == t[at..at + |a|] + t[at + |a|..at + |a| + |b|];
    }
  }
}
