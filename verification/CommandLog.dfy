/**
 The device as its users see it: a history of commands, of which the newest n are
 readable, and the pending bytes of a command no newline has ended yet. Each operation
 is a function of this state and of what the environment decides.
 */
module CommandLog {
  import opened Common
  import opened Layout
  import opened Kernel

  datatype Log = Log(history: seq<seq<byte>>, pending: seq<byte>)

  const EMPTY := Log([], [])

  /** What the environment decides during a write. adjacent is the byte just below the buffer. */
  datatype WriteEnv = WriteEnv(interrupted: bool, granted: bool, uncopied: nat, adjacent: byte)

  datatype ReadEnv = ReadEnv(interrupted: bool, uncopied: nat)

  datatype WriteResult = WriteResult(log: Log, pos: nat, ret: int)
  datatype ReadResult = ReadResult(pos: nat, ret: int, out: seq<byte>)
  datatype SeekResult = SeekResult(pos: nat, ret: int)

  function Retained(s: Log, n: nat): seq<seq<byte>> {
    LastN(s.history, n)
  }

  /** What reading from position 0 to the end yields. */
  function Content(s: Log, n: nat): seq<byte> {
    Flatten(Retained(s, n))
  }

  function Evicted(s: Log, n: nat): seq<byte> {
    Flatten(AllButLastN(s.history, n))
  }

  /** Every byte ever accepted, in order. */
  function Stream(s: Log): seq<byte> {
    Flatten(s.history) + s.pending
  }

  lemma StreamParts(s: Log, n: nat)
    ensures Stream(s) == Evicted(s, n) + Content(s, n) + s.pending
  {
    FlattenAppend(AllButLastN(s.history, n), Retained(s, n));
  }

  /** What a call that never returns is said to return; no error code is as small. */
  const NEVER_RETURNS: int := -4096

  /**
   The bytes one write adds. The newline test looks at the last byte gathered so far, or,
   when there is none, at the byte below the buffer.
   */
  function Accept(s: Log, data: seq<byte>, adjacent: byte): Log {
    var gathered := s.pending + data;
    if LastOr(gathered, adjacent) == NEWLINE
    then Log(s.history + [gathered], [])
    else Log(s.history, gathered)
  }

  /**
   A write. One of no bytes while none are pending allocates no block, so that its newline
   test loads from below ZERO_SIZE_PTR: the caller is killed there, holding the device lock.
   */
  function WriteCall(s: Log, pos: nat, data: seq<byte>, env: WriteEnv): WriteResult {
    if env.interrupted then WriteResult(s, pos, -EINTR)
    else if s.pending == [] && data == [] then WriteResult(s, pos, NEVER_RETURNS)
    else if !env.granted then WriteResult(s, pos, -ENOMEM)
    else
      var k := Copied(|data|, env.uncopied);
      WriteResult(Accept(s, data[..k], env.adjacent), pos + k, k)
  }

  /** One read: it stops at the end of the command the position lies in. */
  function ReadCall(cmds: seq<seq<byte>>, pos: nat, count: nat, env: ReadEnv): ReadResult {
    if env.interrupted then ReadResult(pos, -EINTR, [])
    else match Locate(Sizes(cmds), pos)
      case None => ReadResult(pos, 0, [])
      case Some(p) =>
        var k := Copied(Min(|cmds[p.cmd]| - p.off, count), env.uncopied);
        ReadResult(pos + k, k, cmds[p.cmd][p.off..p.off + k])
  }

  function SeekCall(cmds: seq<seq<byte>>, n: nat, pos: nat, target: Place, interrupted: bool): SeekResult {
    if n <= target.cmd then SeekResult(pos, -EINVAL)
    else if interrupted then SeekResult(pos, -EINTR)
    else match SeekPos(Sizes(cmds), target)
      case None => SeekResult(pos, -EINVAL)
      case Some(to) => SeekResult(to, 0)
  }

  function LlseekCall(size: nat, pos: nat, offset: int, whence: Whence, interrupted: bool): SeekResult {
    if interrupted then SeekResult(pos, -EINTR)
    else match FixedSizeLlseek(pos, offset, whence, size)
      case None => SeekResult(pos, -EINVAL)
      case Some(to) => SeekResult(to, to)
  }

  lemma SliceOfSlice(s: seq<byte>, at: nat, t: seq<byte>, i: nat, j: nat)
    requires i <= j <= |t| && at + |t| <= |s| && s[at..at + |t|] == t
    ensures s[at + i..at + j] == t[i..j]
  {
    forall m | 0 <= m < j - i
      ensures s[at + i..at + j][m] == t[i..j][m]
    {
      assert t[i + m] == s[at..at + |t|][i + m];
    }
  }

  /**
   A read that is not interrupted returns the bytes of the content at its position, moves
   by as many, and returns 0 only at the end, on a zero count or when no byte could be copied.
   */
  lemma ReadReturnsContent(cmds: seq<seq<byte>>, pos: nat, count: nat, env: ReadEnv)
    requires !env.interrupted
    ensures var r := ReadCall(cmds, pos, count, env);
            && r.ret == |r.out| <= count
            && r.pos == pos + |r.out|
            && (r.out != [] ==> r.pos <= |Flatten(cmds)| && r.out == Flatten(cmds)[pos..r.pos])
            && (count != 0 && env.uncopied == 0 ==> (r.ret == 0 <==> |Flatten(cmds)| <= pos))
  {
    hide Locate, Start, Flatten, Total;
    FlattenedTotal(cmds);
    LocateFinds(Sizes(cmds), pos);
    match Locate(Sizes(cmds), pos)
    case None =>
    case Some(p) =>
      CommandIsSlice(cmds, p.cmd);
      var at, k := Start(Sizes(cmds), p.cmd), |ReadCall(cmds, pos, count, env).out|;
      SliceOfSlice(Flatten(cmds), at, cmds[p.cmd], p.off, p.off + k);
  }

  /**
   How far a read gets: an uninterrupted one inside the content asks the copy for count bytes
   or for what is left of the command its position lies in, whichever is less. So with a full
   copy it falls short of count only at the end of a command.
   */
  lemma ReadStopsAtCommandEnd(cmds: seq<seq<byte>>, pos: nat, count: nat, env: ReadEnv)
    requires !env.interrupted && pos < |Flatten(cmds)|
    ensures var r := ReadCall(cmds, pos, count, env);
            exists j: nat :: j < |cmds| && Start(Sizes(cmds), j) <= pos < Start(Sizes(cmds), j + 1)
              && r.ret == Copied(Min(pos + count, Start(Sizes(cmds), j + 1)) - pos, env.uncopied)
              && (env.uncopied == 0 ==> r.pos == Min(pos + count, Start(Sizes(cmds), j + 1)))
  {
    hide Locate, Flatten;
    FlattenedTotal(cmds);
    LocateFinds(Sizes(cmds), pos);
    var j := Locate(Sizes(cmds), pos).value.cmd;
    assert Start(Sizes(cmds), j + 1) == Start(Sizes(cmds), j) + |cmds[j]|;
  }

  /**
   From wherever the file stands, a seek succeeds exactly when the pair names a byte, and then
   the file stands at that byte. Otherwise it stays where it was.
   */
  lemma SeekFindsTheByte(cmds: seq<seq<byte>>, n: nat, pos: nat, target: Place)
    requires |cmds| <= n
    ensures var r := SeekCall(cmds, n, pos, target, false);
            && (r.ret == 0 <==> target.cmd < |cmds| && target.off < |cmds[target.cmd]|)
            && (r.ret == 0 ==>
                  && Locate(Sizes(cmds), r.pos) == Some(target)
                  && r.pos < |Flatten(cmds)| && Flatten(cmds)[r.pos] == cmds[target.cmd][target.off])
            && (r.ret != 0 ==> r == SeekResult(pos, -EINVAL))
    ensures SeekCall(cmds, n, pos, target, true) == SeekResult(pos, if n <= target.cmd then -EINVAL else -EINTR)
  {
    hide Locate, Flatten, Start;
    var r := SeekCall(cmds, n, pos, target, false);
    if r.ret == 0 {
      SeekAndLocateAreInverse(Sizes(cmds), target, r.pos);
      LocateNamesTheByte(cmds, r.pos);
    }
  }

  /**
   Positions relative to the start, to where the file stands and to the end. A success returns
   the new position, which is the one asked for; a failure leaves the old one.
   */
  lemma LlseekGoesThere(size: nat, pos: nat, offset: int)
    ensures var r := LlseekCall(size, pos, offset, SeekSet, false);
            if 0 <= offset <= size then r.pos == r.ret == offset else r.pos == pos && r.ret < 0
    ensures var r := LlseekCall(size, pos, offset, SeekCur, false);
            if offset == 0 || 0 <= pos + offset <= size then r.pos == r.ret == pos + offset
            else r.pos == pos && r.ret < 0
    ensures var r := LlseekCall(size, pos, offset, SeekEnd, false);
            if 0 <= size + offset <= size then r.pos == r.ret == size + offset else r.pos == pos && r.ret < 0
    ensures LlseekCall(size, pos, offset, OtherWhence, false) == SeekResult(pos, -EINVAL)
    ensures forall whence :: LlseekCall(size, pos, offset, whence, true) == SeekResult(pos, -EINTR)
  {
  }

  /** Going somewhere relative to the position, and as far back, ends where it began. */
  lemma ThereAndBack(size: nat, pos: nat, offset: int)
    requires pos <= size
    ensures var there := LlseekCall(size, pos, offset, SeekCur, false);
            there.ret >= 0 ==> LlseekCall(size, there.pos, -offset, SeekCur, false) == SeekResult(pos, pos)
  {
  }

  /** Seeking to the end with offset 0 lands on the first position at which a read finds nothing. */
  lemma SeekEndIsFirstEof(cmds: seq<seq<byte>>, pos: nat, at: nat)
    ensures LlseekCall(|Flatten(cmds)|, pos, 0, SeekEnd, false).pos <= at <==> Locate(Sizes(cmds), at).None?
  {
    FlattenedTotal(cmds);
    LocateFinds(Sizes(cmds), at);
  }

  /** One accepted write: the bytes it added and the byte below its buffer. */
  datatype Chunk = Chunk(bytes: seq<byte>, adjacent: byte)

  /** The log after a number of accepted writes, one at a time. */
  function AcceptAll(s: Log, chunks: seq<Chunk>): Log
    decreases |chunks|
  {
    if chunks == [] then s
    else AcceptAll(Accept(s, chunks[0].bytes, chunks[0].adjacent), chunks[1..])
  }

  lemma AcceptOne(s: Log, c: Chunk)
    ensures AcceptAll(s, [c]) == Accept(s, c.bytes, c.adjacent)
  {
    assert [c][1..] == [];
  }

  function Gathered(chunks: seq<Chunk>): seq<byte> {
    if chunks == [] then [] else chunks[0].bytes + Gathered(chunks[1..])
  }

  lemma Associative(a: seq<byte>, b: seq<byte>, c: seq<byte>)
    ensures a + (b + c) == a + b + c
  {
  }

  lemma {:induction false} GatheredAppend(a: seq<Chunk>, b: seq<Chunk>)
    ensures Gathered(a + b) == Gathered(a) + Gathered(b)
  {
    if a == [] {
      assert a + b == b;
    } else {
      GatheredAppend(a[1..], b);
      assert (a + b)[1..] == a[1..] + b;
      Associative(a[0].bytes, Gathered(a[1..]), Gathered(b));
    }
  }

  lemma {:induction false} AcceptAllAppend(s: Log, a: seq<Chunk>, b: seq<Chunk>)
    ensures AcceptAll(s, a + b) == AcceptAll(AcceptAll(s, a), b)
    decreases |a|
  {
    if a == [] {
      assert a + b == b;
    } else {
      AcceptAllAppend(Accept(s, a[0].bytes, a[0].adjacent), a[1..], b);
      assert (a + b)[1..] == a[1..] + b;
    }
  }

  /** Every accepted byte ends up in the stream, in order, whatever was committed. */
  lemma {:induction false} StreamGrowsByGathered(s: Log, chunks: seq<Chunk>)
    ensures Stream(AcceptAll(s, chunks)) == Stream(s) + Gathered(chunks)
    decreases |chunks|
  {
    if chunks != [] {
      var c := chunks[0];
      var next := Accept(s, c.bytes, c.adjacent);
      FlattenSnoc(s.history, s.pending + c.bytes);
      assert Stream(next) == Stream(s) + c.bytes;
      StreamGrowsByGathered(next, chunks[1..]);
      assert Stream(s) + c.bytes + Gathered(chunks[1..]) == Stream(s) + Gathered(chunks);
    }
  }

  /** A log that has pending bytes never has them end in a newline. */
  predicate WellFormed(s: Log) {
    LastOr(s.pending, NUL) != NEWLINE
  }

  lemma {:induction false} PendingNeverEndsInNewline(s: Log, chunks: seq<Chunk>)
    requires WellFormed(s)
    ensures WellFormed(AcceptAll(s, chunks))
    decreases |chunks|
  {
    if chunks != [] {
      PendingNeverEndsInNewline(Accept(s, chunks[0].bytes, chunks[0].adjacent), chunks[1..]);
    }
  }

  /**
   A write commits a command that does not end in a newline exactly when it adds nothing to
   nothing and the byte below its buffer happens to be a newline; that command is empty.
   */
  lemma CommitsWithoutNewline(s: Log, data: seq<byte>, adjacent: byte)
    ensures var after := Accept(s, data, adjacent);
            (after.history != s.history && LastOr(after.history[|s.history|], NUL) != NEWLINE)
            <==> (s.pending == [] && data == [] && adjacent == NEWLINE)
  {
  }

  /** Whether write i ends the command that begins with write 0, no earlier one having ended it. */
  predicate Closes(chunks: seq<Chunk>, i: nat)
    requires i < |chunks|
  {
    if chunks[i].bytes != [] then LastOr(chunks[i].bytes, NUL) == NEWLINE
    else Gathered(chunks[..i]) == [] && chunks[i].adjacent == NEWLINE
  }

  function FirstClose(chunks: seq<Chunk>, from: nat): (i: nat)
    requires from <= |chunks|
    ensures from <= i <= |chunks|
    ensures forall j :: from <= j < i ==> !Closes(chunks, j)
    ensures i < |chunks| ==> Closes(chunks, i)
    decreases |chunks| - from
  {
    if from == |chunks| || Closes(chunks, from) then from else FirstClose(chunks, from + 1)
  }

  /**
   The same grouping read off the whole list of writes: a command runs up to the first
   write that closes it, and the rest is grouped alike.
   */
  function Group(chunks: seq<Chunk>): Log
    decreases |chunks|
  {
    var i := FirstClose(chunks, 0);
    if i == |chunks| then Log([], Gathered(chunks))
    else
      var rest := Group(chunks[i + 1..]);
      Log([Gathered(chunks[..i + 1])] + rest.history, rest.pending)
  }

  /**
   The newline test loads from outside the pending bytes' block exactly when nothing was
   pending and nothing was copied: the write returns 0 or does not return.
   */
  lemma TestsOutside(s: Log, pos: nat, data: seq<byte>, env: WriteEnv)
    ensures var r := WriteCall(s, pos, data, env);
            (r.ret >= 0 || r.ret == NEVER_RETURNS) && InspectedOffset(s, data, env) < 0
            <==> s.pending == [] && (r.ret == 0 || r.ret == NEVER_RETURNS)
    ensures WriteCall(s, pos, data, env).ret >= 0 ==> InspectedOffset(s, data, env) < |s.pending| + |data|
  {
  }

  /** Where the newline test loads from, counted from the start of the block. */
  function InspectedOffset(s: Log, data: seq<byte>, env: WriteEnv): int {
    |s.pending| + Copied(|data|, env.uncopied) - 1
  }

  /** Until the first write that closes, writes only gather. */
  lemma {:induction false} GathersUntilClose(h: seq<seq<byte>>, chunks: seq<Chunk>, i: nat)
    requires i <= FirstClose(chunks, 0)
    ensures AcceptAll(Log(h, []), chunks[..i]) == Log(h, Gathered(chunks[..i]))
    ensures LastOr(Gathered(chunks[..i]), NUL) != NEWLINE
  {
    if i != 0 {
      GathersUntilClose(h, chunks, i - 1);
      assert !Closes(chunks, i - 1);
      OneMoreChunk(h, chunks, i - 1);
    }
  }

  lemma OneMoreChunk(h: seq<seq<byte>>, chunks: seq<Chunk>, i: nat)
    requires i < |chunks|
    requires AcceptAll(Log(h, []), chunks[..i]) == Log(h, Gathered(chunks[..i]))
    ensures Gathered(chunks[..i + 1]) == Gathered(chunks[..i]) + chunks[i].bytes
    ensures AcceptAll(Log(h, []), chunks[..i + 1])
         == Accept(Log(h, Gathered(chunks[..i])), chunks[i].bytes, chunks[i].adjacent)
  {
    var c := chunks[i];
    assert chunks[..i + 1] == chunks[..i] + [c];
    GatheredAppend(chunks[..i], [c]);
    AcceptAllAppend(Log(h, []), chunks[..i], [c]);
    assert [c][1..] == [];
    assert AcceptAll(Log(h, Gathered(chunks[..i])), [c]) == Accept(Log(h, Gathered(chunks[..i])), c.bytes, c.adjacent);
  }

  /** The first write that closes commits everything up to and including its own bytes. */
  lemma CloseCommits(h: seq<seq<byte>>, chunks: seq<Chunk>)
    requires FirstClose(chunks, 0) < |chunks|
    ensures var i := FirstClose(chunks, 0);
            AcceptAll(Log(h, []), chunks[..i + 1]) == Log(h + [Gathered(chunks[..i + 1])], [])
  {
    hide Gathered, FirstClose, AcceptAll;
    var i := FirstClose(chunks, 0);
    var g, c := Gathered(chunks[..i]), chunks[i];
    GathersUntilClose(h, chunks, i);
    OneMoreChunk(h, chunks, i);
    assert Closes(chunks, i);
    assert LastOr(g + c.bytes, c.adjacent) == NEWLINE;
  }

  /** Writing one at a time commits exactly the groups. */
  lemma {:induction false} AcceptAllIsGroup(h: seq<seq<byte>>, chunks: seq<Chunk>)
    ensures AcceptAll(Log(h, []), chunks) == Log(h + Group(chunks).history, Group(chunks).pending)
    decreases |chunks|
  {
    hide Accept, Gathered, FirstClose, Closes;
    var i := FirstClose(chunks, 0);
    if i == |chunks| {
      GathersUntilClose(h, chunks, i);
      assert chunks[..i] == chunks;
    } else {
      CloseCommits(h, chunks);
      var done, rest := chunks[..i + 1], chunks[i + 1..];
      AcceptAllAppend(Log(h, []), done, rest);
      assert chunks == done + rest;
      AcceptAllIsGroup(h + [Gathered(done)], rest);
      assert h + [Gathered(done)] + Group(rest).history == h + ([Gathered(done)] + Group(rest).history);
    }
  }

  /**
   Cutting a write into pieces makes no difference when every piece has a byte and only
   the last may end in a newline.
   */
  lemma {:induction false} SplitsAlike(s: Log, pieces: seq<Chunk>, adjacent: byte)
    requires pieces != []
    requires forall i :: 0 <= i < |pieces| ==> pieces[i].bytes != []
    requires forall i :: 0 <= i < |pieces| - 1 ==> LastOr(pieces[i].bytes, NUL) != NEWLINE
    ensures AcceptAll(s, pieces) == Accept(s, Gathered(pieces), adjacent)
    decreases |pieces|
  {
    var c, rest := pieces[0], pieces[1..];
    if rest == [] {
      assert Gathered(pieces) == c.bytes;
    } else {
      var next := Accept(s, c.bytes, c.adjacent);
      assert next == Log(s.history, s.pending + c.bytes);
      SplitsAlike(next, rest, adjacent);
      assert s.pending + c.bytes + Gathered(rest) == s.pending + Gathered(pieces);
    }
  }
}
