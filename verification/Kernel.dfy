/**
 What the driver asks of the kernel, as small contracts: allocation, the device lock,
 the copies across the user boundary, the open file and fixed_size_llseek.
 */
module Kernel {
  import opened Common
  import opened CircularBuffers

  const EINTR := 4
  const ENOMEM := 12
  const EINVAL := 22

  /** What kmalloc hands out for no bytes at all: not NULL, but nothing can be loaded at it or just below it. */
  const ZERO_SIZE_PTR: Addr := 16

  /** A finite set of addresses never covers all of them. */
  lemma {:induction false} UnusedAddress(used: set<Addr>) returns (p: Addr)
    ensures p != NULL && forall q :: q in used ==> q < p
    decreases used
  {
    if used == {} {
      p := 1;
    } else {
      var q :| q in used;
      p := UnusedAddress(used - {q});
      if p <= q {
        p := q + 1;
      }
      assert used == (used - {q}) + {q};
    }
  }

  /**
   The kernel heap: every live allocation with its bytes. Freeing, loading and storing
   require a live block, so a double free, a use after free or an access outside the
   block cannot be verified.
   */
  class Heap {
    var blocks: map<Addr, seq<byte>>

    constructor ()
      ensures blocks == map[]
    {
      blocks := map[];
    }

    /**
     Nothing asked for gives ZERO_SIZE_PTR and no block. Otherwise NULL when memory is not
     granted, and an address no live block has when it is; the new bytes are arbitrary.
     */
    method Kmalloc(size: nat, granted: bool) returns (p: Addr)
      modifies this
      ensures size == 0 ==> p == ZERO_SIZE_PTR && blocks == old(blocks)
      ensures size != 0 && !granted ==> p == NULL && blocks == old(blocks)
      ensures size != 0 && granted ==> && p != NULL && p != ZERO_SIZE_PTR && p !in old(blocks) && p in blocks
                                       && |blocks[p]| == size && blocks == old(blocks)[p := blocks[p]]
    {
      if size == 0 {
        return ZERO_SIZE_PTR;
      }
      if !granted {
        return NULL;
      }
      ghost var bound := UnusedAddress(blocks.Keys + {ZERO_SIZE_PTR});
      assert bound != NULL && bound !in blocks && bound != ZERO_SIZE_PTR;
      p :| p != NULL && p != ZERO_SIZE_PTR && p !in blocks;
      blocks := blocks[p := seq(size, _ => 0)];
    }

    method Kfree(p: Addr)
      requires p in blocks
      modifies this
      ensures blocks == old(blocks) - {p}
    {
      blocks := blocks - {p};
    }

    function Load(p: Addr, at: nat): byte
      requires p in blocks && at < |blocks[p]|
      reads this
    {
      blocks[p][at]
    }

    method Store(p: Addr, at: nat, data: seq<byte>)
      requires p in blocks && at + |data| <= |blocks[p]|
      modifies this
      ensures blocks == old(blocks)[p := old(blocks)[p][..at] + data + old(blocks)[p][at + |data|..]]
    {
      blocks := blocks[p := blocks[p][..at] + data + blocks[p][at + |data|..]];
    }
  }

  class Mutex {
    var held: bool

    constructor ()
      ensures !held
    {
      held := false;
    }

    /** Zero with the lock taken, or non-zero without it when a signal came first. */
    method LockInterruptible(interrupted: bool) returns (rc: int)
      requires !held
      modifies this
      ensures held == !interrupted
      ensures rc == 0 <==> held
    {
      held := !interrupted;
      rc := if interrupted then -EINTR else 0;
    }

    method Lock()
      requires !held
      modifies this
      ensures held
    {
      held := true;
    }

    method Unlock()
      requires held
      modifies this
      ensures !held
    {
      held := false;
    }
  }

  /** An open file description; a fresh one is at position 0. */
  class File {
    var fPos: nat

    constructor ()
      ensures fPos == 0
    {
      fPos := 0;
    }
  }

  /** How many of count bytes a user copy moves when it reports uncopied of them left over. */
  function Copied(count: nat, uncopied: nat): (k: nat)
    ensures k <= count
    ensures uncopied <= count ==> k + uncopied == count
  {
    count - Min(uncopied, count)
  }

  datatype Whence = SeekSet | SeekCur | SeekEnd | OtherWhence

  /** The position fixed_size_llseek settles on for a file of the given size, None for -EINVAL. */
  function FixedSizeLlseek(pos: nat, offset: int, whence: Whence, size: nat): Option<nat> {
    if whence == OtherWhence then None
    else if whence == SeekCur && offset == 0 then Some(pos)
    else
      var to := match whence
                case SeekCur => pos + offset
                case SeekEnd => size + offset
                case _ => offset;
      if 0 <= to <= size then Some(to) else None
  }

  /** It refuses exactly what would leave 0..size, except that asking for the position always answers. */
  lemma LlseekStaysInFile(pos: nat, offset: int, whence: Whence, size: nat)
    ensures var to := FixedSizeLlseek(pos, offset, whence, size);
            && (to.Some? ==> to.value <= size || (whence == SeekCur && offset == 0 && to.value == pos))
            && (whence == SeekSet ==> (to.Some? <==> 0 <= offset <= size) && (to.Some? ==> to.value == offset))
            && (whence == SeekEnd ==>
                  (to.Some? <==> 0 <= size + offset <= size) && (to.Some? ==> to.value == size + offset))
  {
  }
}
