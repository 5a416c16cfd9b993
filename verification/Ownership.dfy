/** Which heap blocks the device owns, and what changing one block at a time does to the rest. */
module Ownership {
  import opened Common
  import opened BoundedQueue
  import opened CircularBuffers

  type Blocks = map<Addr, seq<byte>>

  /** The recorded bytes lie inside a live block. */
  predicate Holds(blocks: Blocks, e: Entry) {
    e.buffptr in blocks && e.size <= |blocks[e.buffptr]|
  }

  ghost predicate AllHold(blocks: Blocks, es: seq<Entry>) {
    forall i :: 0 <= i < |es| ==> Holds(blocks, es[i])
  }

  ghost predicate Distinct(es: seq<Entry>) {
    forall i, j :: 0 <= i < j < |es| ==> es[i].buffptr != es[j].buffptr
  }

  ghost predicate Owns(es: seq<Entry>, p: Addr) {
    exists i :: 0 <= i < |es| && es[i].buffptr == p
  }

  /** The live blocks are exactly the blocks of es, one each; none is at NULL. */
  ghost predicate OwnedBy(blocks: Blocks, es: seq<Entry>) {
    && NULL !in blocks
    && AllHold(blocks, es)
    && Distinct(es)
    && forall p :: p in blocks ==> Owns(es, p)
  }

  function BytesOf(blocks: Blocks, e: Entry): seq<byte>
    requires Holds(blocks, e)
  {
    blocks[e.buffptr][..e.size]
  }

  ghost function Commands(blocks: Blocks, es: seq<Entry>): (cs: seq<seq<byte>>)
    requires AllHold(blocks, es)
    ensures |cs| == |es| && Sizes(cs) == EntrySizes(es)
  {
    seq(|es|, i requires 0 <= i < |es| => BytesOf(blocks, es[i]))
  }

  lemma OwnNothing(blocks: Blocks)
    requires OwnedBy(blocks, [])
    ensures blocks == map[]
  {
    assert forall p :: p in blocks ==> Owns([], p);
  }

  /** Allocating for one more entry. */
  lemma OwnMore(blocks: Blocks, es: seq<Entry>, e: Entry, data: seq<byte>)
    requires OwnedBy(blocks, es)
    requires e.buffptr != NULL && e.buffptr !in blocks && e.size <= |data|
    ensures OwnedBy(blocks[e.buffptr := data], es + [e])
    ensures AllHold(blocks[e.buffptr := data], es)
    ensures Commands(blocks[e.buffptr := data], es) == Commands(blocks, es)
  {
    var now, all := blocks[e.buffptr := data], es + [e];
    forall p | p in now
      ensures Owns(all, p)
    {
      if p == e.buffptr {
        assert all[|es|].buffptr == p;
      } else {
        var i :| 0 <= i < |es| && es[i].buffptr == p;
        assert all[i].buffptr == p;
      }
    }
  }

  /** Freeing the block of entry k. */
  lemma OwnLess(blocks: Blocks, es: seq<Entry>, k: nat)
    requires OwnedBy(blocks, es) && k < |es|
    ensures var rest := es[..k] + es[k + 1..];
            && OwnedBy(blocks - {es[k].buffptr}, rest)
            && Commands(blocks - {es[k].buffptr}, rest) == Commands(blocks, rest)
  {
    var now, rest := blocks - {es[k].buffptr}, es[..k] + es[k + 1..];
    forall i | 0 <= i < |rest|
      ensures Holds(now, rest[i])
    {
      assert rest[i] == es[if i < k then i else i + 1];
    }
    forall p | p in now
      ensures Owns(rest, p)
    {
      var i :| 0 <= i < |es| && es[i].buffptr == p;
      assert rest[if i < k then i else i - 1].buffptr == p;
    }
  }

  /** Changing the last entry's block and recorded size touches no other command. */
  lemma OwnLastChanged(blocks: Blocks, es: seq<Entry>, e: Entry, size: nat, data: seq<byte>)
    requires OwnedBy(blocks, es + [e]) && size <= |data|
    ensures OwnedBy(blocks[e.buffptr := data], es + [Entry(e.buffptr, size)])
    ensures AllHold(blocks, es) && AllHold(blocks[e.buffptr := data], es)
    ensures Commands(blocks[e.buffptr := data], es) == Commands(blocks, es)
  {
    var all, now := es + [e], es + [Entry(e.buffptr, size)];
    assert all[|es|] == e;
    forall i | 0 <= i < |es|
      ensures Holds(blocks, es[i]) && es[i].buffptr != e.buffptr
    {
      assert all[i] == es[i];
    }
    assert forall i :: 0 <= i < |now| ==> now[i].buffptr == all[i].buffptr;
    forall p | p in blocks[e.buffptr := data]
      ensures Owns(now, p)
    {
      assert Owns(all, p);
      var i :| 0 <= i < |all| && all[i].buffptr == p;
      assert now[i].buffptr == p;
    }
  }

  /** Moving the last entry's bytes to a new block and freeing the old one. */
  lemma OwnLastMoved(blocks: Blocks, es: seq<Entry>, from: Entry, to: Entry, data: seq<byte>)
    requires OwnedBy(blocks, es + [from])
    requires to.buffptr != NULL && to.buffptr !in blocks && to.size <= |data|
    ensures var now := blocks[to.buffptr := data] - {from.buffptr};
            && OwnedBy(now, es + [to])
            && AllHold(blocks, es) && AllHold(now, es)
            && Commands(now, es) == Commands(blocks, es)
  {
    var all, both := es + [from] + [to], blocks[to.buffptr := data];
    OwnMore(blocks, es + [from], to, data);
    OwnLess(both, all, |es|);
    assert all[|es|] == from;
    assert all[..|es|] + all[|es| + 1..] == es + [to];
    forall i | 0 <= i < |es|
      ensures Holds(blocks, es[i]) && es[i].buffptr != from.buffptr
    {
      assert (es + [from])[i] == es[i] && (es + [from])[|es|] == from;
    }
  }

  /** The ring's commands are unaffected by what follows them among the owned entries. */
  lemma PrefixHeld(blocks: Blocks, es: seq<Entry>, more: seq<Entry>)
    requires AllHold(blocks, es + more)
    ensures AllHold(blocks, es) && AllHold(blocks, more)
    ensures Commands(blocks, es + more) == Commands(blocks, es) + Commands(blocks, more)
  {
    forall i | 0 <= i < |es|
      ensures Holds(blocks, es[i])
    {
      assert (es + more)[i] == es[i];
    }
    forall i | 0 <= i < |more|
      ensures Holds(blocks, more[i])
    {
      assert (es + more)[|es| + i] == more[i];
    }
  }

  /** Pushing the owned entry e and freeing the entry the queue drops for it, if it drops one. */
  lemma OwnPushed(blocks: Blocks, q: seq<Entry>, e: Entry, n: nat)
    requires OwnedBy(blocks, q + [e]) && 1 <= n && |q| <= n
    ensures Holds(blocks, e) && AllHold(blocks, q) && (q != [] ==> q[0].buffptr != NULL)
    ensures var now := if |q| == n then blocks - {q[0].buffptr} else blocks;
            && OwnedBy(now, Push(q, e, n))
            && Commands(now, Push(q, e, n)) == Push(Commands(blocks, q), BytesOf(blocks, e), n)
  {
    var owned := q + [e];
    PrefixHeld(blocks, q, [e]);
    assert owned[|q|] == e;
    if |q| == n {
      assert owned[0] == q[0];
      OwnLess(blocks, owned, 0);
      assert owned[..0] + owned[1..] == Push(q, e, n);
      PrefixHeld(blocks, q[1..], [e]);
      assert Commands(blocks, q)[1..] == Commands(blocks, q[1..]);
    }
  }

  function Partials(partial: Entry): seq<Entry> {
    if partial.buffptr == NULL then [] else [partial]
  }

  /**
   The live blocks are those of the ring's entries and of the partial write, and the
   ring's entries hold the commands cmds.
   */
  ghost predicate Represents(blocks: Blocks, q: seq<Entry>, partial: Entry, cmds: seq<seq<byte>>) {
    && OwnedBy(blocks, q + Partials(partial))
    && (partial.buffptr == NULL ==> partial.size == 0)
    && AllHold(blocks, q)
    && Commands(blocks, q) == cmds
  }

  lemma PartialHeld(blocks: Blocks, q: seq<Entry>, partial: Entry)
    requires OwnedBy(blocks, q + Partials(partial)) && partial.buffptr != NULL
    ensures Holds(blocks, partial)
    ensures q + Partials(partial) == q + [partial]
  {
    assert (q + Partials(partial))[|q|] == partial;
  }

  ghost function PendingOf(blocks: Blocks, q: seq<Entry>, partial: Entry): seq<byte>
    requires OwnedBy(blocks, q + Partials(partial))
  {
    if partial.buffptr == NULL then []
    else
      PartialHeld(blocks, q, partial);
      BytesOf(blocks, partial)
  }
}
