/** Bytes, byte strings and the few sequence operations the whole model shares. */
module Common {
  datatype Option<+T> = None | Some(value: T)

  type byte = b: int | 0 <= b < 256

  const NEWLINE: byte := 10
  const NUL: byte := 0

  function Min(a: nat, b: nat): nat {
    if a <= b then a else b
  }

  /** The last element of s, or dflt when s is empty. */
  function LastOr<T>(s: seq<T>, dflt: T): T {
    if s == [] then dflt else s[|s| - 1]
  }

  function Flatten(cs: seq<seq<byte>>): seq<byte> {
    if cs == [] then [] else cs[0] + Flatten(cs[1..])
  }

  lemma {:induction false} FlattenAppend(a: seq<seq<byte>>, b: seq<seq<byte>>)
    ensures Flatten(a + b) == Flatten(a) + Flatten(b)
  {
    if a == [] {
      assert a + b == b;
    } else {
      FlattenAppend(a[1..], b);
      assert (a + b)[1..] == a[1..] + b;
      assert a[0] + (Flatten(a[1..]) + Flatten(b)) == Flatten(a) + Flatten(b);
    }
  }

  lemma FlattenSnoc(a: seq<seq<byte>>, c: seq<byte>)
    ensures Flatten(a + [c]) == Flatten(a) + c
  {
    FlattenAppend(a, [c]);
    assert [c][1..] == [];
  }

  /** The length of every string of cs, in order. */
  function Sizes(cs: seq<seq<byte>>): (ns: seq<nat>)
    ensures |ns| == |cs|
  {
    seq(|cs|, i requires 0 <= i < |cs| => |cs[i]|)
  }

  /** The newest n elements of s, all of s when it has no more than n. */
  function LastN<T>(s: seq<T>, n: nat): (r: seq<T>)
    ensures |r| == Min(|s|, n)
  {
    if |s| <= n then s else s[|s| - n..]
  }

  /** The elements of s that LastN leaves out. */
  function AllButLastN<T>(s: seq<T>, n: nat): (r: seq<T>)
    ensures r + LastN(s, n) == s
  {
    if |s| <= n then [] else s[..|s| - n]
  }
}
