/**
 The aesdchar device (main.c): the ring of committed commands, the partial write being
 gathered, the lock around both, and the heap blocks they own. Every operation is proved
 to act on the device's State() as the matching function of CommandLog says.
 */
module Driver {
  import opened Common
  import opened Layout
  import opened BoundedQueue
  import opened CircularBuffers
  import opened Kernel
  import opened Ownership
  import opened CommandLog

  class AesdDev {
    const heap: Heap
    const circBuf: CircularBuffer
    const lock: Mutex
    var partialWrite: Entry

    /** Every command ever committed. */
    ghost var history: seq<seq<byte>>

    ghost function Capacity(): nat {
      circBuf.entry.Length
    }

    /** The device owns exactly the live blocks, and the ring holds the newest commands of the history. */
    ghost predicate Valid()
      reads this, heap, circBuf, circBuf.entry
    {
      && circBuf.Valid()
      && Represents(heap.blocks, circBuf.Queue(), partialWrite, LastN(history, Capacity()))
    }

    ghost function PendingBytes(): seq<byte>
      requires Valid()
      reads this, heap, circBuf, circBuf.entry
    {
      PendingOf(heap.blocks, circBuf.Queue(), partialWrite)
    }

    ghost function State(): Log
      requires Valid()
      reads this, heap, circBuf, circBuf.entry
    {
      Log(history, PendingBytes())
    }

    /** An empty device that keeps n commands. */
    constructor (n: nat)
      requires 1 <= n <= 255
      ensures Valid() && Capacity() == n && State() == EMPTY
      ensures fresh(heap) && fresh(circBuf) && fresh(circBuf.entry) && fresh(lock) && !lock.held
      ensures heap.blocks == map[]
    {
      heap := new Heap();
      circBuf := new CircularBuffer(n);
      lock := new Mutex();
      partialWrite := NULL_ENTRY;
      history := [];
    }

    /**
     A partial write is in progress: a larger block takes its bytes and the old block is
     freed. Nothing changes when memory is refused.
     */
    method ExpandPartial(count: nat, granted: bool) returns (ok: bool)
      requires Valid() && partialWrite.buffptr != NULL && count + partialWrite.size != 0
      modifies `partialWrite, heap
      ensures Valid() && State() == old(State())
      ensures ok == granted
      ensures !ok ==> partialWrite == old(partialWrite) && heap.blocks == old(heap.blocks)
      ensures ok ==> partialWrite.buffptr != NULL && RoomFor(count)
    {
      hide OwnedBy, AllHold, Distinct, Owns, Commands, LastN;
      ghost var was, q := heap.blocks, circBuf.Queue();
      PartialHeld(was, q, partialWrite);
      var kmemBuf := heap.Kmalloc(count + partialWrite.size, granted);
      if kmemBuf == NULL {
        return false;
      }
      heap.Store(kmemBuf, 0, heap.blocks[partialWrite.buffptr][..partialWrite.size]);
      ghost var data := heap.blocks[kmemBuf];
      assert data[..partialWrite.size] == was[partialWrite.buffptr][..partialWrite.size];
      heap.Kfree(partialWrite.buffptr);
      OwnLastMoved(was, q, partialWrite, Entry(kmemBuf, partialWrite.size), data);
      assert heap.blocks == was[kmemBuf := data] - {partialWrite.buffptr};
      partialWrite := Entry(kmemBuf, partialWrite.size);
      PartialHeld(heap.blocks, q, partialWrite);
      ok := true;
    }

    /** No partial write is in progress: a first block, with nothing gathered in it yet. */
    method StartPartial(count: nat, granted: bool) returns (ok: bool)
      requires Valid() && partialWrite.buffptr == NULL && count != 0
      modifies `partialWrite, heap
      ensures Valid() && State() == old(State())
      ensures ok == granted
      ensures !ok ==> partialWrite == old(partialWrite) && heap.blocks == old(heap.blocks)
      ensures ok ==> partialWrite.buffptr != NULL && RoomFor(count)
    {
      hide OwnedBy, AllHold, Distinct, Owns, Commands, LastN;
      ghost var was, q := heap.blocks, circBuf.Queue();
      assert q + [] == q;
      var kmemBuf := heap.Kmalloc(count, granted);
      if kmemBuf == NULL {
        return false;
      }
      OwnMore(was, q, Entry(kmemBuf, 0), heap.blocks[kmemBuf]);
      partialWrite := Entry(kmemBuf, 0);
      PartialHeld(heap.blocks, q, partialWrite);
      ok := true;
    }

    /** The partial write's block has space for count more bytes. */
    ghost predicate RoomFor(count: nat)
      reads this, heap
    {
      && partialWrite.buffptr in heap.blocks
      && partialWrite.size + count <= |heap.blocks[partialWrite.buffptr]|
    }

    /**
     The same when nothing is asked for and nothing is pending: the partial write points at
     ZERO_SIZE_PTR, which is no block.
     */
    method PointNowhere(granted: bool)
      requires Valid() && partialWrite.size == 0
      modifies `partialWrite, heap
      ensures partialWrite == Entry(ZERO_SIZE_PTR, 0)
      ensures OwnedBy(heap.blocks, circBuf.Queue())
    {
      hide OwnedBy, AllHold, Distinct, Owns, Commands, LastN;
      ghost var was, q := heap.blocks, circBuf.Queue();
      var kmemBuf := heap.Kmalloc(0, granted);
      if partialWrite.buffptr != NULL {
        PartialHeld(was, q, partialWrite);
        OwnLess(was, q + [partialWrite], |q|);
        assert (q + [partialWrite])[..|q|] + (q + [partialWrite])[|q| + 1..] == q;
        heap.Kfree(partialWrite.buffptr);
      } else {
        assert q + [] == q;
      }
      partialWrite := Entry(kmemBuf, 0);
    }

    /** Copies data in after the bytes already gathered. */
    method Gather(data: seq<byte>)
      requires Valid() && partialWrite.buffptr != NULL && RoomFor(|data|)
      modifies `partialWrite, heap
      ensures Valid()
      ensures State() == Log(old(history), old(PendingBytes()) + data)
      ensures partialWrite.buffptr == old(partialWrite.buffptr)
    {
      hide OwnedBy, AllHold, Distinct, Owns, Commands, LastN;
      ghost var was, q := heap.blocks, circBuf.Queue();
      PartialHeld(was, q, partialWrite);
      heap.Store(partialWrite.buffptr, partialWrite.size, data);
      OwnLastChanged(was, q, partialWrite, partialWrite.size + |data|, heap.blocks[partialWrite.buffptr]);
      partialWrite := Entry(partialWrite.buffptr, partialWrite.size + |data|);
      PartialHeld(heap.blocks, q, partialWrite);
      assert heap.blocks[partialWrite.buffptr][..partialWrite.size] == old(PendingBytes()) + data;
    }

    /**
     Hands the gathered command to the ring and frees the one the ring drops for it, if any.
     */
    method Commit()
      requires Valid() && partialWrite.buffptr != NULL
      modifies this, heap, circBuf, circBuf.entry
      ensures Valid()
      ensures State() == Log(old(history) + [old(PendingBytes())], [])
    {
      ghost var q, bytes := circBuf.Queue(), PendingBytes();
      OwnPushed(heap.blocks, q, partialWrite, Capacity());
      PushKeepsNewest(history, bytes, Capacity());
      history := history + [bytes];
      var evicted := circBuf.AddEntry(partialWrite);
      if evicted != NULL {
        heap.Kfree(evicted);
      }
      partialWrite := NULL_ENTRY;
      assert circBuf.Queue() + [] == circBuf.Queue();
    }

    /**
     The byte the newline test looks at: the last one gathered. When nothing has been gathered
     that is outside the block, and what lies there is arbitrary.
     */
    method InspectedByte(adjacent: byte) returns (b: byte, ghost outside: bool)
      requires Valid() && partialWrite.buffptr != NULL
      ensures b == LastOr(PendingBytes(), adjacent)
      ensures partialWrite.buffptr in heap.blocks
      ensures outside <==> !(0 <= partialWrite.size - 1 < |heap.blocks[partialWrite.buffptr]|)
      ensures outside <==> PendingBytes() == []
    {
      hide OwnedBy, AllHold, Distinct, Owns, Commands, LastN;
      PartialHeld(heap.blocks, circBuf.Queue(), partialWrite);
      var at: int := partialWrite.size - 1;
      outside := !(0 <= at < |heap.blocks[partialWrite.buffptr]|);
      b := if at < 0 then adjacent else heap.Load(partialWrite.buffptr, at);
    }

    /**
     Writes buf through an open file: gathers what could be copied and commits on a trailing
     newline. outside tells whether the newline test loaded from outside the block.
     */
    method Write(filp: File, buf: seq<byte>, env: WriteEnv) returns (retval: int, ghost outside: bool)
      requires Valid() && !lock.held
      modifies this, heap, circBuf, circBuf.entry, lock, filp
      ensures var r := WriteCall(old(State()), old(filp.fPos), buf, env);
              && retval == r.ret && filp.fPos == r.pos
              && (retval != NEVER_RETURNS ==> Valid() && !lock.held && State() == r.log)
      ensures retval == NEVER_RETURNS ==>
                && lock.held && history == old(history) && circBuf.Valid()
                && circBuf.Queue() == old(circBuf.Queue()) && OwnedBy(heap.blocks, circBuf.Queue())
      ensures retval < 0 && retval != NEVER_RETURNS ==>
                && heap.blocks == old(heap.blocks) && partialWrite == old(partialWrite)
                && circBuf.Queue() == old(circBuf.Queue())
      ensures outside <==> old(PendingBytes()) == [] && (retval == 0 || retval == NEVER_RETURNS)
    {
      hide OwnedBy, AllHold, Distinct, Owns, Commands, LastN, Represents;
      outside := false;
      var rc := lock.LockInterruptible(env.interrupted);
      if rc != 0 {
        return -EINTR, outside;
      }
      PartialIsPending();
      if |buf| + partialWrite.size == 0 {
        PointNowhere(env.granted);
        return NEVER_RETURNS, true;
      }
      var ok;
      if partialWrite.buffptr != NULL {
        ok := ExpandPartial(|buf|, env.granted);
      } else {
        ok := StartPartial(|buf|, env.granted);
      }
      if !ok {
        lock.Unlock();
        return -ENOMEM, outside;
      }
      var k := Copied(|buf|, env.uncopied);
      Gather(buf[..k]);
      filp.fPos := filp.fPos + k;
      var last;
      last, outside := InspectedByte(env.adjacent);
      if last == NEWLINE {
        Commit();
      }
      lock.Unlock();
      retval := k;
    }

    lemma PartialIsPending()
      requires Valid()
      ensures |PendingBytes()| == partialWrite.size
    {
      if partialWrite.buffptr != NULL {
        PartialHeld(heap.blocks, circBuf.Queue(), partialWrite);
      }
    }

    /** Copies k bytes of an entry, from offset on, to the front of the user's buffer. */
    method CopyToUser(e: Entry, offset: nat, k: nat, ubuf: array<byte>)
      requires Holds(heap.blocks, e) && offset + k <= e.size && k <= ubuf.Length
      modifies ubuf
      ensures ubuf[..] == BytesOf(heap.blocks, e)[offset..offset + k] + old(ubuf[k..])
    {
      forall i | 0 <= i < k {
        ubuf[i] := heap.Load(e.buffptr, offset + i);
      }
    }

    /** The entry that position pos lies in, and the offset of the position in it. */
    method FindBytes(pos: nat) returns (found: Option<Entry>, offset: nat)
      requires Valid()
      ensures match Locate(Sizes(Retained(State(), Capacity())), pos)
              case None => found == None
              case Some(p) => && found.Some? && Holds(heap.blocks, found.value) && offset == p.off
                              && BytesOf(heap.blocks, found.value) == Retained(State(), Capacity())[p.cmd]
    {
      ghost var q := circBuf.Queue();
      assert EntrySizes(q) == Sizes(Retained(State(), Capacity()));
      var slot;
      ghost var steps;
      slot, offset, steps := circBuf.FindEntryOffsetForFpos(pos);
      if slot == None {
        return None, offset;
      }
      found := Some(circBuf.entry[slot.value]);
      ghost var p := Locate(EntrySizes(q), pos).value;
      circBuf.SlotAt(p.cmd);
      assert q[p.cmd] == found.value;
      assert Commands(heap.blocks, q)[p.cmd] == BytesOf(heap.blocks, found.value);
    }

    /** Reads up to count bytes of one command into ubuf. */
    method Read(filp: File, ubuf: array<byte>, count: nat, env: ReadEnv) returns (retval: int)
      requires Valid() && !lock.held && count <= ubuf.Length
      modifies lock, filp, ubuf
      ensures Valid() && !lock.held && State() == old(State())
      ensures var r := ReadCall(Retained(State(), Capacity()), old(filp.fPos), count, env);
              && retval == r.ret && filp.fPos == r.pos
              && |r.out| <= count && ubuf[..] == r.out + old(ubuf[|r.out|..])
    {
      hide Represents, OwnedBy, AllHold, Distinct, Owns, Commands, PendingOf, LastN, Locate;
      var rc := lock.LockInterruptible(env.interrupted);
      if rc != 0 {
        assert ubuf[..] == ubuf[0..];
        return -EINTR;
      }
      var found, offset := FindBytes(filp.fPos);
      if found == None {
        lock.Unlock();
        return 0;
      }
      var e := found.value;
      var bytesToCopy := Min(e.size - offset, count);
      var k := Copied(bytesToCopy, env.uncopied);
      CopyToUser(e, offset, k, ubuf);
      filp.fPos := filp.fPos + k;
      lock.Unlock();
      retval := k;
    }

    /** The recorded sizes of the ring's entries are the sizes of the retained commands. */
    lemma RecordedIsRetained(k: nat)
      requires Valid() && k <= |circBuf.Queue()|
      ensures |circBuf.Queue()| == |Retained(State(), Capacity())|
      ensures RecordedBytes(circBuf.Queue(), k) == Start(Sizes(Retained(State(), Capacity())), k)
      ensures forall i :: 0 <= i < |circBuf.Queue()| ==>
                circBuf.Queue()[i].buffptr != NULL
                && circBuf.Queue()[i].size == |Retained(State(), Capacity())[i]|
    {
      var q := circBuf.Queue();
      assert EntrySizes(q) == Sizes(Commands(heap.blocks, q));
      assert forall i :: 0 <= i < |q| ==> q[i].size == EntrySizes(q)[i] && Holds(heap.blocks, q[i]);
      RecordedBytesIsTotal(q, k);
    }

    /** Moves an open file relative to its start, its position or the end of the content. */
    method Llseek(filp: File, offset: int, whence: Whence, interrupted: bool) returns (retval: int)
      requires Valid() && !lock.held
      modifies lock, filp
      ensures Valid() && !lock.held && State() == old(State())
      ensures SeekResult(filp.fPos, retval)
           == LlseekCall(|Content(State(), Capacity())|, old(filp.fPos), offset, whence, interrupted)
    {
      hide Represents, OwnedBy, AllHold, Distinct, Owns, Commands, PendingOf, LastN;
      var rc := lock.LockInterruptible(interrupted);
      if rc != 0 {
        return -EINTR;
      }
      var size := circBuf.Size();
      RecordedIsRetained(|circBuf.Queue()|);
      FlattenedTotal(Retained(State(), Capacity()));
      match FixedSizeLlseek(filp.fPos, offset, whence, size) {
        case None =>
          retval := -EINVAL;
        case Some(to) =>
          filp.fPos := to;
          retval := to;
      }
      lock.Unlock();
    }

    /** The slot cmd places from the oldest is unused, or holds that retained command and starts where it starts. */
    lemma SlotOfCommand(cmd: nat)
      requires Valid() && cmd < Capacity()
      ensures var e := circBuf.entry[SlotIndex(circBuf.outOffs, cmd, Capacity())];
              var cmds := Retained(State(), Capacity());
              if |cmds| <= cmd then e.buffptr == NULL
              else e.buffptr != NULL && e.size == |cmds[cmd]|
                   && RecordedBytes(circBuf.Slots(), cmd) == Start(Sizes(cmds), cmd)
    {
      hide Represents, PendingOf, LastN;
      circBuf.SlotInQueue(cmd);
      RecordedIsRetained(Min(cmd, |circBuf.Queue()|));
    }

    /** The slot of a command number and the bytes recorded before it. */
    method FindCommand(writeCmd: nat) returns (slot: nat, byteCount: nat)
      requires Valid() && writeCmd < Capacity()
      ensures slot == SlotIndex(circBuf.outOffs, writeCmd, Capacity())
      ensures byteCount == RecordedBytes(circBuf.Slots(), writeCmd)
    {
      hide Represents;
      var n := circBuf.entry.Length;
      var index := 0;
      slot, byteCount := SlotIndex(circBuf.outOffs, index, n), 0;
      while index < n
        invariant index <= writeCmd
        invariant slot == SlotIndex(circBuf.outOffs, index, n)
        invariant byteCount == RecordedBytes(circBuf.Slots(), index)
      {
        circBuf.SlotAt(index);
        if index == writeCmd {
          break;
        } else if circBuf.entry[slot].buffptr != NULL {
          byteCount := byteCount + circBuf.entry[slot].size;
        }
        index := index + 1;
        slot := SlotIndex(circBuf.outOffs, index, n);
      }
    }

    /** Moves an open file to an offset within one of the retained commands. */
    method AdjustFileOffset(filp: File, writeCmd: nat, writeCmdOffset: nat, interrupted: bool) returns (retval: int)
      requires Valid() && !lock.held
      modifies lock, filp
      ensures Valid() && !lock.held && State() == old(State())
      ensures SeekResult(filp.fPos, retval)
           == SeekCall(Retained(State(), Capacity()), Capacity(), old(filp.fPos),
                       Place(writeCmd, writeCmdOffset), interrupted)
    {
      hide Represents, PendingOf, LastN;
      if circBuf.entry.Length <= writeCmd {
        return -EINVAL;
      }
      var rc := lock.LockInterruptible(interrupted);
      if rc != 0 {
        return -EINTR;
      }
      var slot, byteCount := FindCommand(writeCmd);
      SlotOfCommand(writeCmd);
      if circBuf.entry[slot].buffptr == NULL || circBuf.entry[slot].size <= writeCmdOffset {
        retval := -EINVAL;
      } else {
        filp.fPos := byteCount + writeCmdOffset;
        retval := 0;
      }
      lock.Unlock();
    }

    /** Frees the block of every slot that has one. */
    method FreeRing()
      requires Valid()
      modifies heap
      ensures OwnedBy(heap.blocks, Partials(partialWrite))
    {
      hide OwnedBy, AllHold, Distinct, Owns, Commands, LastN;
      var n := circBuf.entry.Length;
      ghost var q, owned := circBuf.Queue(), circBuf.Queue() + Partials(partialWrite);
      var index := 0;
      var slot := SlotIndex(circBuf.outOffs, index, n);
      assert owned[0..] == owned;
      while index < n
        invariant index <= n
        invariant slot == SlotIndex(circBuf.outOffs, index, n)
        invariant circBuf.Valid() && circBuf.Queue() == q
        invariant OwnedBy(heap.blocks, owned[Min(index, |q|)..])
      {
        circBuf.SlotInQueue(index);
        if index < |q| {
          FreeFirst(owned[index..]);
        }
        if circBuf.entry[slot].buffptr != NULL {
          heap.Kfree(circBuf.entry[slot].buffptr);
        }
        index := index + 1;
        slot := SlotIndex(circBuf.outOffs, index, n);
      }
      assert owned[|q|..] == Partials(partialWrite);
    }

    /** Frees everything the device owns, unless a signal came before the lock. The device is unusable afterwards. */
    method Cleanup(interrupted: bool)
      requires Valid() && !lock.held
      modifies lock, heap
      ensures !lock.held
      ensures heap.blocks == if interrupted then old(heap.blocks) else map[]
    {
      hide OwnedBy, Represents;
      var rc := lock.LockInterruptible(interrupted);
      if rc != 0 {
        return;
      }
      FreeRing();
      if partialWrite.buffptr != NULL {
        FreeFirst(Partials(partialWrite));
        heap.Kfree(partialWrite.buffptr);
      }
      assert Partials(partialWrite)[if partialWrite.buffptr == NULL then 0 else 1..] == [];
      OwnNothing(heap.blocks);
      lock.Unlock();
    }

    /** The first owned entry can be freed, leaving the rest owned. */
    lemma FreeFirst(left: seq<Entry>)
      requires OwnedBy(heap.blocks, left) && left != []
      ensures left[0].buffptr != NULL && left[0].buffptr in heap.blocks
      ensures OwnedBy(heap.blocks - {left[0].buffptr}, left[1..])
    {
      OwnLess(heap.blocks, left, 0);
      assert left[..0] + left[1..] == left[1..];
    }
  }

  /** Loading the driver: an empty device of the capacity it is built with. */
  method AesdInitModule() returns (dev: AesdDev)
    ensures fresh(dev) && fresh(dev.heap) && fresh(dev.circBuf) && fresh(dev.circBuf.entry) && fresh(dev.lock)
    ensures dev.Valid() && !dev.lock.held
    ensures dev.Capacity() == AESDCHAR_MAX_WRITE_OPERATIONS_SUPPORTED && dev.State() == EMPTY
  {
    dev := new AesdDev(AESDCHAR_MAX_WRITE_OPERATIONS_SUPPORTED);
  }

  /**
   A first write of no bytes, as the server makes it for a line that is empty: the newline
   test loads from outside any block and the call does not return.
   */
  method WriteNothingFirst(env: WriteEnv) returns (retval: int, ghost outside: bool)
    requires !env.interrupted
    ensures retval == NEVER_RETURNS && outside
  {
    var dev := AesdInitModule();
    var file := new File();
    retval, outside := dev.Write(file, [], env);
  }
}
