/**
 The device behind its table of file operations: performing any calls on any open files
 acts on the concrete device exactly as a run acts on the abstract machine.
 */
module FileOperations {
  import opened Common
  import opened Kernel
  import opened CommandLog
  import opened Driver
  import opened Runs

  ghost predicate AllDifferent(files: seq<File>) {
    forall i, j :: 0 <= i < j < |files| ==> files[i] != files[j]
  }

  ghost function Positions(files: seq<File>): (ps: seq<nat>)
    reads files
    ensures |ps| == |files|
  {
    seq(|files|, i requires 0 <= i < |files| reads files => files[i].fPos)
  }

  /** The machine a device that is not dead stands for. */
  ghost function View(dev: AesdDev, files: seq<File>): Machine
    requires dev.Valid()
    reads dev, dev.heap, dev.circBuf, dev.circBuf.entry, files
  {
    Machine(dev.State(), Positions(files), false)
  }

  /**
   One call through the table; the bytes a read returns are handed back. A caller that is
   killed leaves the device locked for good.
   */
  method Perform(dev: AesdDev, files: seq<File>, op: Op) returns (ret: int, out: seq<byte>)
    requires dev.Valid() && !dev.lock.held && AllDifferent(files)
    modifies dev, dev.heap, dev.circBuf, dev.circBuf.entry, dev.lock, files
    ensures var r := Step(old(View(dev, files)), op, dev.Capacity());
            && ret == r.ret && out == r.out && Positions(files) == r.m.pos
            && (ret == NEVER_RETURNS <==> r.m.dead)
            && (ret != NEVER_RETURNS ==> dev.Valid() && !dev.lock.held && View(dev, files) == r.m)
            && (ret == NEVER_RETURNS ==> dev.lock.held && dev.history == r.m.log.history)
  {
    hide AesdDev.Valid, ReadCall, SeekCall, LlseekCall, Retained, Content;
    out := [];
    if |files| <= op.fd {
      return -EBADF, out;
    }
    var f := files[op.fd];
    ghost var was := Positions(files);
    WhatKills(View(dev, files), op, dev.Capacity());
    match op {
      case Write(_, data, env) =>
        ghost var outside;
        ret, outside := dev.Write(f, data, env);
      case Read(_, count, env) =>
        ret, out := PerformRead(dev, f, count, env);
      case SeekTo(_, target, interrupted) =>
        ret := dev.AdjustFileOffset(f, target.cmd, target.off, interrupted);
      case Llseek(_, offset, whence, interrupted) =>
        ret := dev.Llseek(f, offset, whence, interrupted);
    }
    assert Positions(files) == was[op.fd := f.fPos];
  }

  method PerformRead(dev: AesdDev, f: File, count: nat, env: ReadEnv) returns (ret: int, out: seq<byte>)
    requires dev.Valid() && !dev.lock.held
    modifies dev.lock, f
    ensures dev.Valid() && !dev.lock.held && dev.State() == old(dev.State())
    ensures ReadResult(f.fPos, ret, out) == ReadCall(Retained(dev.State(), dev.Capacity()), old(f.fPos), count, env)
  {
    hide AesdDev.Valid, AesdDev.State, Retained;
    var ubuf := new byte[count];
    ret := dev.Read(f, ubuf, count, env);
    out := if ret < 0 then [] else ubuf[..ret];
  }

  /** Any number of calls, one after the other, up to the first that never returns. */
  method PerformAll(dev: AesdDev, files: seq<File>, ops: seq<Op>) returns (killed: bool)
    requires dev.Valid() && !dev.lock.held && AllDifferent(files)
    modifies dev, dev.heap, dev.circBuf, dev.circBuf.entry, dev.lock, files
    ensures var m := Run(old(View(dev, files)), ops, dev.Capacity());
            && killed == m.dead && dev.history == m.log.history && Positions(files) == m.pos
            && dev.lock.held == killed
            && (!killed ==> dev.Valid() && View(dev, files) == m)
    decreases |ops|
  {
    hide AesdDev.Valid, Step, Positions;
    killed := false;
    if ops != [] {
      ghost var m := View(dev, files);
      var ret, _ := Perform(dev, files, ops[0]);
      if ret == NEVER_RETURNS {
        DeadForGood(Step(m, ops[0], dev.Capacity()).m, ops[1..], dev.Capacity());
        return true;
      }
      killed := PerformAll(dev, files, ops[1..]);
    }
  }

  /**
   From loading the driver to unloading it: whatever was called in between and however it
   failed, no allocation is left when the cleanup obtains the lock.
   */
  method LoadRunUnload(n: nat, files: seq<File>, ops: seq<Op>, interrupted: bool)
    returns (heap: Heap, killed: bool, ghost m: Machine)
    requires 1 <= n <= 255 && AllDifferent(files)
    requires forall f :: f in files ==> f.fPos == 0
    modifies files
    ensures m == Run(Loaded(|files|), ops, n) && killed == m.dead
    ensures !killed && !interrupted ==> heap.blocks == map[]
  {
    var dev := new AesdDev(n);
    assert Positions(files) == seq(|files|, _ => 0);
    m := Run(View(dev, files), ops, n);
    killed := PerformAll(dev, files, ops);
    if !killed {
      dev.Cleanup(interrupted);
    }
    heap := dev.heap;
  }
}
