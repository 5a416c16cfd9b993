/** A queue that drops its oldest element when one more would exceed its capacity. */
module BoundedQueue {
  import opened Common

  function Push<T>(q: seq<T>, e: T, n: nat): seq<T>
    requires |q| <= n && 1 <= n
  {
    (if |q| == n then q[1..] else q) + [e]
  }

  /** Pushing every element of es in order. */
  function PushAll<T>(q: seq<T>, es: seq<T>, n: nat): seq<T>
    requires 1 <= n && |q| <= n
    decreases es
  {
    if es == [] then q else PushAll(Push(q, es[0], n), es[1..], n)
  }

  lemma PushKeepsNewest<T>(h: seq<T>, e: T, n: nat)
    requires 1 <= n
    ensures Push(LastN(h, n), e, n) == LastN(h + [e], n)
  {
  }

  /** A queue filled from empty holds exactly the newest n of everything ever pushed. */
  lemma {:induction false} PushAllKeepsNewest<T>(h: seq<T>, es: seq<T>, n: nat)
    requires 1 <= n
    ensures PushAll(LastN(h, n), es, n) == LastN(h + es, n)
    decreases es
  {
    if es == [] {
      assert h + es == h;
    } else {
      PushKeepsNewest(h, es[0], n);
      PushAllKeepsNewest(h + [es[0]], es[1..], n);
      assert h + [es[0]] + es[1..] == h + es;
    }
  }
}
