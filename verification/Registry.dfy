/**
 The main thread's list of server threads (aesdsocket.c). A record is named by the number
 of the accept that made it. The server threads set their done flags and end at any moment,
 so between any two steps of the main thread more of them may have done so.
 */
module Registry {
  import opened Common

  ghost predicate NoDuplicates(s: seq<nat>) {
    forall i, j :: 0 <= i < j < |s| ==> s[i] != s[j]
  }

  class ThreadRegistry {
    /** The thread list, head first. */
    var list: seq<nat>
    /** How many records have been made. */
    var created: nat
    /** The records whose threads have set client_done, and those whose threads have ended. */
    var clientDone: set<nat>
    var ended: set<nat>
    /** The records whose connections were closed, and those freed, in that order. */
    var closed: seq<nat>
    var freed: seq<nat>

    /**
     Every record is listed or freed, never both and never twice; only records whose
     threads said they were done and have ended are freed; connections are closed exactly
     when their records are freed.
     */
    ghost predicate Valid()
      reads this
    {
      && NoDuplicates(list) && NoDuplicates(freed)
      && (forall id: nat :: id < created ==> id in list || id in freed)
      && (forall id :: id in list ==> id < created && id !in freed)
      && (forall id :: id in freed ==> id < created && id in clientDone && id in ended)
      && (forall id :: id in clientDone ==> id < created)
      && (forall id :: id in ended ==> id < created)
      && closed == freed
      && |list| + |freed| == created
    }

    /** A listed record whose thread ended without saying that it was done, as it does on an error. */
    ghost predicate Lost(id: nat)
      reads this
    {
      id in list && id in ended && id !in clientDone
    }

    /** The listed records whose threads have said that they were done. */
    ghost function Backlog(): set<nat>
      reads this
    {
      set id | id in list && id in clientDone
    }

    constructor ()
      ensures Valid() && list == [] && created == 0
    {
      list, created, clientDone, ended, closed, freed := [], 0, {}, {}, [], [];
    }

    /**
     What server threads may have done meanwhile: any of them that were still running may
     have set their flag, ended, or both.
     */
    method Interfere()
      modifies `clientDone, `ended
      ensures old(clientDone) <= clientDone && old(ended) <= ended
      ensures forall id :: id in clientDone && id !in old(clientDone) ==> id < created && id !in old(ended)
      ensures forall id :: id in ended && id !in old(ended) ==> id < created
    {
      var moreDone: set<nat>, moreEnded: set<nat> := *, *;
      clientDone := clientDone + set id | id in moreDone && id < created && id !in ended;
      ended := ended + set id | id in moreEnded && id < created;
    }

    /** Reads a record's flag; a freed record must not be looked at. */
    method IsDone(id: nat) returns (b: bool)
      requires id !in freed
      ensures b == (id in clientDone)
    {
      b := id in clientDone;
    }

    /** Waits for a thread that said it was done: it ends if it has not. */
    method Join(id: nat)
      requires id in clientDone && id !in freed && id < created
      modifies `clientDone, `ended
      ensures id in ended
      ensures old(clientDone) <= clientDone && old(ended) <= ended
      ensures forall i :: i in clientDone && i !in old(clientDone) ==> i < created && i !in old(ended)
      ensures forall i :: i in ended && i !in old(ended) ==> i < created
    {
      Interfere();
      ended := ended + {id};
    }

    /** Closes a connection once its thread has ended; its descriptor is in the record. */
    method CloseConnection(id: nat)
      requires id in ended && id !in closed && id !in freed
      modifies `closed
      ensures closed == old(closed) + [id]
    {
      closed := closed + [id];
    }

    /** Frees a record once its thread has ended and its connection is closed. */
    method Free(id: nat)
      requires id in ended && id in closed && id !in freed
      modifies `freed
      ensures freed == old(freed) + [id]
    {
      freed := freed + [id];
    }

    /** The place in the list of the first record found done, or the list's length. */
    method FindDone() returns (i: nat)
      requires Valid()
      modifies `clientDone, `ended
      ensures Valid() && old(clientDone) <= clientDone && old(ended) <= ended
      ensures forall id :: id in clientDone && id !in old(clientDone) ==> id !in old(ended)
      ensures i <= |list|
      ensures i < |list| ==> list[i] in clientDone
      ensures forall k :: 0 <= k < i ==> list[k] !in old(clientDone)
    {
      i := 0;
      while i < |list|
        invariant Valid() && list == old(list) && created == old(created)
        invariant freed == old(freed) && closed == old(closed)
        invariant i <= |list| && old(clientDone) <= clientDone && old(ended) <= ended
        invariant forall id :: id in clientDone && id !in old(clientDone) ==> id !in old(ended)
        invariant forall k :: 0 <= k < i ==> list[k] !in old(clientDone)
      {
        Interfere();
        var done := IsDone(list[i]);
        if done {
          break;
        }
        i := i + 1;
      }
    }

    /**
     One turn of the main loop: a new connection gets a record at the head of the list and a
     thread; then the first record found done, if any, is removed, joined, closed and freed.
     A thread that was done when the turn began guarantees that one is reaped.
     */
    method AcceptAndReap() returns (reaped: Option<nat>)
      requires Valid()
      modifies this
      ensures Valid() && created == old(created) + 1 && old(clientDone) <= clientDone && old(ended) <= ended
      ensures forall id :: id in clientDone && id !in old(clientDone) ==> id !in old(ended)
      ensures (exists id :: id in old(list) && id in old(clientDone)) ==> reaped.Some?
      ensures match reaped
              case None => list == [old(created)] + old(list) && freed == old(freed)
              case Some(id) =>
                && id in clientDone && freed == old(freed) + [id]
                && exists i :: 0 <= i <= |old(list)| && ([old(created)] + old(list))[i] == id
                    && list == ([old(created)] + old(list))[..i] + ([old(created)] + old(list))[i + 1..]
    {
      var p := created;
      created := created + 1;
      Prepended(list, p);
      list := [p] + list;
      ghost var whole := list;
      Interfere();
      var i := FindDone();
      if i == |list| {
        assert forall id :: id in old(list) ==> exists k :: 0 <= k < |whole| && whole[k] == id;
        return None;
      }
      p := list[i];
      list := list[..i] + list[i + 1..];
      Join(p);
      CloseConnection(p);
      Free(p);
      Removed(whole, i);
      reaped := Some(p);
    }

    /**
     The loop over a number of accepts. Each record made is still listed or was freed once.
     Reaping keeps up with the accepts as long as any of the threads done at the start is
     left. But the list never gets shorter, and a record whose thread ended without saying
     that it was done stays listed, its connection open.
     */
    method Serve(accepts: nat)
      requires Valid()
      modifies this
      ensures Valid() && created == old(created) + accepts
      ensures old(freed) <= freed
      ensures |freed| - |old(freed)| >= Min(accepts, |old(Backlog())|)
      ensures |old(list)| <= |list| <= |old(list)| + accepts
      ensures forall id :: old(Lost(id)) ==> Lost(id) && id !in closed
    {
      ghost var due := Backlog();
      var k := 0;
      while k < accepts
        invariant k <= accepts
        invariant Valid() && created == old(created) + k
        invariant old(freed) <= freed && |freed| - |old(freed)| >= Min(k, |due|)
        invariant |freed| - |old(freed)| <= k
        invariant due <= clientDone && forall id :: id in due ==> id !in old(freed)
        invariant forall id :: old(Lost(id)) ==> Lost(id)
      {
        ghost var reaped := freed[|old(freed)|..];
        Interfere();
        if forall id :: id in due ==> id in freed {
          AtMostAsMany(due, reaped);
        }
        var _ := AcceptAndReap();
        k := k + 1;
      }
    }
  }

  /** A sequence has room for no more different elements than it is long. */
  lemma {:induction false} AtMostAsMany(a: set<nat>, s: seq<nat>)
    requires forall x :: x in a ==> x in s
    ensures |a| <= |s|
    decreases |s|
  {
    if s == [] {
      assert a == {};
    } else {
      AtMostAsMany(a - {s[0]}, s[1..]);
    }
  }

  lemma Prepended(s: seq<nat>, p: nat)
    requires NoDuplicates(s) && p !in s
    ensures NoDuplicates([p] + s) && forall id :: id in [p] + s <==> id == p || id in s
  {
  }

  lemma Removed(s: seq<nat>, i: nat)
    requires NoDuplicates(s) && i < |s|
    ensures var rest := s[..i] + s[i + 1..];
            NoDuplicates(rest) && forall id :: id in rest <==> id in s && id != s[i]
  {
    var rest := s[..i] + s[i + 1..];
    forall id | id in s && id != s[i]
      ensures id in rest
    {
      var k :| 0 <= k < |s| && s[k] == id;
      assert rest[if k < i then k else k - 1] == id;
    }
  }
}
