/**
 The ring of entries (aesd-circular-buffer.c). The ring refines a bounded queue of
 entries: Queue() lists the stored entries, oldest first.
 */
module CircularBuffers {
  import opened Common
  import opened Layout
  import opened BoundedQueue

  /** A kernel address; NULL is 0. */
  type Addr = nat
  const NULL: Addr := 0

  datatype Entry = Entry(buffptr: Addr, size: nat)
  const NULL_ENTRY := Entry(NULL, 0)

  const AESDCHAR_MAX_WRITE_OPERATIONS_SUPPORTED: nat := 10

  function EntrySizes(es: seq<Entry>): (ns: seq<nat>)
    ensures |ns| == |es|
  {
    seq(|es|, i requires 0 <= i < |es| => es[i].size)
  }

  /** The bytes recorded by those of the first k entries that have a buffer. */
  function RecordedBytes(es: seq<Entry>, k: nat): nat
    requires k <= |es|
  {
    if k == 0 then 0
    else RecordedBytes(es, k - 1) + (if es[k - 1].buffptr != NULL then es[k - 1].size else 0)
  }

  lemma {:induction false} RecordedBytesOfPrefix(es: seq<Entry>, m: nat, k: nat)
    requires k <= m <= |es|
    ensures RecordedBytes(es[..m], k) == RecordedBytes(es, k)
  {
    if k != 0 {
      RecordedBytesOfPrefix(es, m, k - 1);
    }
  }

  lemma {:induction false} UnusedRecordNothing(es: seq<Entry>, m: nat, k: nat)
    requires m <= k <= |es|
    requires forall i :: m <= i < |es| ==> es[i] == NULL_ENTRY
    ensures RecordedBytes(es, k) == RecordedBytes(es, m)
    ensures Start(EntrySizes(es), k) == Start(EntrySizes(es), m)
  {
    if m < k {
      UnusedRecordNothing(es, m, k - 1);
    }
  }

  /** When every entry has a buffer, the recorded bytes are the total of the sizes. */
  lemma {:induction false} RecordedBytesIsTotal(es: seq<Entry>, k: nat)
    requires k <= |es| && forall i :: 0 <= i < |es| ==> es[i].buffptr != NULL
    ensures RecordedBytes(es, k) == Start(EntrySizes(es), k)
  {
    if k != 0 {
      RecordedBytesIsTotal(es, k - 1);
    }
  }

  lemma TwiceAtMost(q: nat, n: nat)
    ensures 2 <= q ==> 2 * n <= q * n
  {
  }

  lemma ModBelowTwice(x: nat, n: nat)
    requires x < 2 * n
    ensures x % n == if x < n then x else x - n
  {
    TwiceAtMost(x / n, n);
  }

  /** The slot k places after offs, the ring having n slots. */
  function SlotIndex(offs: nat, k: nat, n: nat): (i: nat)
    requires offs < n && k <= n
    ensures i == if offs + k < n then offs + k else offs + k - n
  {
    ModBelowTwice(offs + k, n);
    (offs + k) % n
  }

  /** Going round the ring once, from any slot, meets every slot exactly once. */
  lemma MeetsEverySlotOnce(offs: nat, n: nat, slot: nat)
    requires offs < n && slot < n
    ensures exists k: nat :: k < n && SlotIndex(offs, k, n) == slot
                             && forall j: nat :: j < n && SlotIndex(offs, j, n) == slot ==> j == k
    ensures SlotIndex(offs, n, n) == offs
  {
    var k := if offs <= slot then slot - offs else slot + n - offs;
    assert SlotIndex(offs, k, n) == slot;
  }

  function Rotated<T>(s: seq<T>, k: nat): seq<T>
    requires k <= |s|
  {
    s[k..] + s[..k]
  }

  /** Overwriting the oldest element and starting one later drops it and appends the new one. */
  lemma OverwriteOldest<T>(s: seq<T>, k: nat, e: T)
    requires k < |s|
    ensures Rotated(s[k := e], SlotIndex(k, 1, |s|)) == Rotated(s, k)[1..] + [e]
  {
    if k + 1 < |s| {
      assert s[k := e][..k + 1] == s[..k] + [e];
      assert Rotated(s, k)[1..] == s[k + 1..] + s[..k];
    } else {
      assert Rotated(s, k)[1..] == s[..k];
    }
  }

  class CircularBuffer {
    const entry: array<Entry>
    var inOffs: nat
    var outOffs: nat
    var full: bool

    /** The offsets fit the eight bits the driver stores them in. */
    ghost predicate Valid()
      reads this, entry
    {
      && 1 <= entry.Length <= 255
      && inOffs < entry.Length
      && outOffs < entry.Length
      && (full ==> inOffs == outOffs)
      && (!full ==> outOffs == 0 && forall i :: inOffs <= i < entry.Length ==> entry[i] == NULL_ENTRY)
    }

    /** All slots in traversal order, starting at outOffs. */
    ghost function Slots(): (s: seq<Entry>)
      requires outOffs < entry.Length
      reads this, entry
      ensures |s| == entry.Length
    {
      Rotated(entry[..], outOffs)
    }

    ghost function Count(): nat
      reads this
    {
      if full then entry.Length else inOffs
    }

    /** The stored entries, oldest first. */
    ghost function Queue(): (q: seq<Entry>)
      requires Valid()
      reads this, entry
      ensures |q| == Count() <= entry.Length
    {
      Slots()[..Count()]
    }

    lemma SlotAt(k: nat)
      requires outOffs < entry.Length && k < entry.Length
      ensures Slots()[k] == entry[SlotIndex(outOffs, k, entry.Length)]
    {
    }

    /** The slot k places from outOffs holds the queue's element k, or nothing when the queue is shorter. */
    lemma SlotInQueue(k: nat)
      requires Valid() && k < entry.Length
      ensures entry[SlotIndex(outOffs, k, entry.Length)] == if k < Count() then Queue()[k] else NULL_ENTRY
      ensures k <= Count() ==> RecordedBytes(Slots(), k) == RecordedBytes(Queue(), k)
    {
      SlotAt(k);
      if k <= Count() {
        RecordedBytesOfPrefix(Slots(), Count(), k);
      }
    }

    /** How many slots a walk from outOffs meets before it comes round to inOffs. */
    ghost function Reach(): nat
      reads this
    {
      if inOffs == outOffs then entry.Length else inOffs
    }

    /** Only the slots the walk can meet hold bytes, so it finds what Locate finds in the queue. */
    lemma WalkSeesTheQueue(pos: nat)
      requires Valid()
      ensures Start(EntrySizes(Slots()), Reach()) == Total(EntrySizes(Slots()))
      ensures Locate(EntrySizes(Slots()), pos) == Locate(EntrySizes(Queue()), pos)
    {
      UnusedRecordNothing(Slots(), Count(), |Slots()|);
      assert EntrySizes(Queue()) == EntrySizes(Slots())[..Count()];
      LocateIgnoresEmptyTail(EntrySizes(Slots()), Count(), pos);
    }

    constructor (n: nat)
      requires 1 <= n <= 255
      ensures Valid() && fresh(entry) && entry.Length == n
      ensures Queue() == []
    {
      entry := new Entry[n](_ => NULL_ENTRY);
      inOffs, outOffs, full := 0, 0, false;
    }

    /** Back to the empty ring, whatever was there. */
    method Init()
      requires 1 <= entry.Length <= 255
      modifies this, entry
      ensures Valid() && Queue() == []
    {
      forall i | 0 <= i < entry.Length {
        entry[i] := NULL_ENTRY;
      }
      inOffs, outOffs, full := 0, 0, false;
    }

    /**
     Stores an entry; a full ring drops its oldest one first and hands back that
     entry's buffer for the caller to free.
     */
    method AddEntry(addEntry: Entry) returns (retVal: Addr)
      requires Valid()
      modifies this, entry
      ensures Valid()
      ensures Queue() == Push(old(Queue()), addEntry, entry.Length)
      ensures retVal == if old(Count()) == entry.Length then old(Queue())[0].buffptr else NULL
    {
      var n := entry.Length;
      ghost var was := entry[..];
      OverwriteOldest(was, inOffs, addEntry);
      retVal := NULL;
      if inOffs == outOffs && full {
        retVal := entry[outOffs].buffptr;
        outOffs := SlotIndex(outOffs, 1, n);
      }
      entry[inOffs] := addEntry;
      assert entry[..] == was[inOffs := addEntry];
      inOffs := SlotIndex(inOffs, 1, n);
      if inOffs == outOffs {
        full := true;
      }
    }

    /**
     Walks the ring from outOffs, skipping whole entries, to the one that holds
     character charOffset. No slot means the position is past the end; offset is then
     meaningless. The walk looks at no slot twice.
     */
    method FindEntryOffsetForFpos(charOffset: nat) returns (slot: Option<nat>, offset: nat, ghost steps: nat)
      requires Valid()
      ensures match Locate(EntrySizes(Queue()), charOffset)
              case None => slot == None
              case Some(p) => slot == Some(SlotIndex(outOffs, p.cmd, entry.Length)) && offset == p.off
      ensures slot.Some? ==> slot.value < entry.Length && offset < entry[slot.value].size
      ensures steps <= entry.Length
    {
      hide Total;
      var n := entry.Length;
      var out: nat, rest: nat := outOffs, charOffset;
      ghost var sizes := EntrySizes(Slots());
      WalkSeesTheQueue(charOffset);
      steps := 0;
      while entry[out].size <= rest
        invariant steps < Reach() <= n
        invariant out == SlotIndex(outOffs, steps, n)
        invariant LocateFrom(sizes, steps, rest) == Locate(sizes, charOffset)
        invariant charOffset == Start(sizes, steps) + rest
        decreases Reach() - steps
      {
        rest := rest - entry[out].size;
        out := SlotIndex(out, 1, n);
        steps := steps + 1;
        if out == inOffs {
          LocateFinds(sizes, charOffset);
          return None, 0, steps;
        }
      }
      slot, offset := Some(out), rest;
    }

    /** The bytes held, counting every slot that has a buffer. */
    method Size() returns (retval: nat)
      requires Valid()
      ensures retval == RecordedBytes(Queue(), |Queue()|)
    {
      var n := entry.Length;
      retval := 0;
      var index := 0;
      var slot := SlotIndex(outOffs, index, n);
      while index < n
        invariant index <= n
        invariant slot == SlotIndex(outOffs, index, n)
        invariant retval == RecordedBytes(Slots(), index)
      {
        SlotAt(index);
        if entry[slot].buffptr != NULL {
          retval := retval + entry[slot].size;
        }
        index := index + 1;
        slot := SlotIndex(outOffs, index, n);
      }
      UnusedRecordNothing(Slots(), Count(), n);
      RecordedBytesOfPrefix(Slots(), Count(), Count());
    }
  }
}
