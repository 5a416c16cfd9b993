/**
 Positions in a run of commands. A byte position of the concatenation and a
 (command, offset) pair name the same byte; Locate goes one way, SeekPos the other.
 Both work on the command sizes alone, as the driver does.
 */
module Layout {
  import opened Common

  datatype Place = Place(cmd: nat, off: nat)

  /** Where command k starts: the sizes of the commands before it, added up. */
  function Start(sizes: seq<nat>, k: nat): nat
    requires k <= |sizes|
  {
    if k == 0 then 0 else Start(sizes, k - 1) + sizes[k - 1]
  }

  function Total(sizes: seq<nat>): nat {
    Start(sizes, |sizes|)
  }

  /** A pair that names a byte. */
  predicate ValidPlace(sizes: seq<nat>, p: Place) {
    p.cmd < |sizes| && p.off < sizes[p.cmd]
  }

  predicate Before(p: Place, q: Place) {
    p.cmd < q.cmd || (p.cmd == q.cmd && p.off < q.off)
  }

  /** The byte position of a pair: the start of the command, plus the offset. */
  function SeekPos(sizes: seq<nat>, p: Place): Option<nat> {
    if ValidPlace(sizes, p) then Some(Start(sizes, p.cmd) + p.off) else None
  }

  /** Where byte position pos lies: skip the commands it is past, one at a time. */
  function Locate(sizes: seq<nat>, pos: nat): (r: Option<Place>)
    ensures r.Some? ==> ValidPlace(sizes, r.value)
  {
    LocateFrom(sizes, 0, pos)
  }

  function LocateFrom(sizes: seq<nat>, k: nat, rest: nat): (r: Option<Place>)
    requires k <= |sizes|
    ensures r.Some? ==> ValidPlace(sizes, r.value)
    decreases |sizes| - k
  {
    if k == |sizes| then None
    else if rest < sizes[k] then Some(Place(k, rest))
    else LocateFrom(sizes, k + 1, rest - sizes[k])
  }

  lemma {:induction false} LocateFromFinds(sizes: seq<nat>, k: nat, rest: nat)
    requires k <= |sizes|
    ensures match LocateFrom(sizes, k, rest)
            case None => Total(sizes) <= Start(sizes, k) + rest
            case Some(p) => ValidPlace(sizes, p) && Start(sizes, p.cmd) + p.off == Start(sizes, k) + rest
    decreases |sizes| - k
  {
    if k < |sizes| && sizes[k] <= rest {
      LocateFromFinds(sizes, k + 1, rest - sizes[k]);
    }
  }

  /** Locate answers with a pair that names the position, or with none when the position is at or past the total. */
  lemma LocateFinds(sizes: seq<nat>, pos: nat)
    ensures match Locate(sizes, pos)
            case None => Total(sizes) <= pos
            case Some(p) => SeekPos(sizes, p) == Some(pos) && pos < Total(sizes)
  {
    LocateFromFinds(sizes, 0, pos);
    match Locate(sizes, pos)
    case None =>
    case Some(p) => StartsIncrease(sizes, p.cmd, |sizes|);
  }

  lemma {:induction false} StartsIncrease(sizes: seq<nat>, i: nat, j: nat)
    requires i <= j <= |sizes|
    ensures Start(sizes, i) <= Start(sizes, j)
    ensures i < j ==> Start(sizes, i) + sizes[i] <= Start(sizes, j)
  {
    if i < j {
      StartsIncrease(sizes, i, j - 1);
    }
  }

  /** Lexicographic order on pairs is exactly the order of their byte positions. */
  lemma SeekPreservesOrder(sizes: seq<nat>, p: Place, q: Place)
    requires ValidPlace(sizes, p) && ValidPlace(sizes, q)
    ensures Before(p, q) <==> SeekPos(sizes, p).value < SeekPos(sizes, q).value
  {
    if p.cmd < q.cmd {
      StartsIncrease(sizes, p.cmd, q.cmd);
    } else if q.cmd < p.cmd {
      StartsIncrease(sizes, q.cmd, p.cmd);
    }
  }

  /** Seeking a pair gives a position exactly when looking that position up gives the pair. */
  lemma SeekAndLocateAreInverse(sizes: seq<nat>, p: Place, pos: nat)
    ensures SeekPos(sizes, p) == Some(pos) <==> Locate(sizes, pos) == Some(p)
  {
    LocateFinds(sizes, pos);
    if SeekPos(sizes, p) == Some(pos) {
      StartsIncrease(sizes, p.cmd, |sizes|);
      var q := Locate(sizes, pos).value;
      SeekPreservesOrder(sizes, p, q);
      SeekPreservesOrder(sizes, q, p);
    }
  }

  lemma {:induction false} StartOfPrefix(sizes: seq<nat>, m: nat, k: nat)
    requires k <= m <= |sizes|
    ensures Start(sizes[..m], k) == Start(sizes, k)
  {
    if k != 0 {
      StartOfPrefix(sizes, m, k - 1);
    }
  }

  /** Leaving out trailing commands without bytes does not change where a position lies. */
  lemma LocateIgnoresEmptyTail(sizes: seq<nat>, m: nat, pos: nat)
    requires m <= |sizes| && Start(sizes, m) == Total(sizes)
    ensures Locate(sizes[..m], pos) == Locate(sizes, pos)
  {
    LocateFinds(sizes, pos);
    LocateFinds(sizes[..m], pos);
    StartOfPrefix(sizes, m, m);
    if pos < Start(sizes, m) {
      var p := Locate(sizes[..m], pos).value;
      StartOfPrefix(sizes, m, p.cmd);
      SeekAndLocateAreInverse(sizes, p, pos);
    }
  }

  lemma {:induction false} FlattenedStart(cs: seq<seq<byte>>, k: nat)
    requires k <= |cs|
    ensures |Flatten(cs[..k])| == Start(Sizes(cs), k)
  {
    if k != 0 {
      FlattenedStart(cs, k - 1);
      assert cs[..k] == cs[..k - 1] + [cs[k - 1]];
      FlattenSnoc(cs[..k - 1], cs[k - 1]);
    }
  }

  lemma FlattenedTotal(cs: seq<seq<byte>>)
    ensures |Flatten(cs)| == Total(Sizes(cs))
  {
    FlattenedStart(cs, |cs|);
    assert cs[..|cs|] == cs;
  }

  lemma Reassociate(a: seq<byte>, b: seq<byte>, c: seq<byte>)
    ensures a + (b + c) == a + b + c
  {
  }

  lemma FlattenedCut(cs: seq<seq<byte>>, k: nat)
    requires k <= |cs|
    ensures Flatten(cs) == Flatten(cs[..k]) + Flatten(cs[k..])
  {
    hide Flatten;
    FlattenAppend(cs[..k], cs[k..]);
    assert cs == cs[..k] + cs[k..];
  }

  lemma FlattenedFirst(cs: seq<seq<byte>>, k: nat)
    requires k < |cs|
    ensures Flatten(cs[k..]) == cs[k] + Flatten(cs[k + 1..])
  {
    assert cs[k..][1..] == cs[k + 1..];
  }

  lemma FlattenedAround(cs: seq<seq<byte>>, k: nat)
    requires k < |cs|
    ensures Flatten(cs) == Flatten(cs[..k]) + cs[k] + Flatten(cs[k + 1..])
  {
    hide Flatten;
    FlattenedCut(cs, k);
    FlattenedFirst(cs, k);
    Reassociate(Flatten(cs[..k]), cs[k], Flatten(cs[k + 1..]));
  }

  /** A command occupies its own stretch of the concatenation. */
  lemma CommandIsSlice(cs: seq<seq<byte>>, k: nat)
    requires k < |cs|
    ensures var at := Start(Sizes(cs), k);
            at + |cs[k]| <= |Flatten(cs)| && Flatten(cs)[at..at + |cs[k]|] == cs[k]
  {
    hide Flatten, Start, Sizes;
    FlattenedStart(cs, k);
    FlattenedAround(cs, k);
  }

  /** The pair Locate gives names the byte at that position of the concatenated commands. */
  lemma LocateNamesTheByte(cs: seq<seq<byte>>, pos: nat)
    ensures match Locate(Sizes(cs), pos)
            case None => |Flatten(cs)| <= pos
            case Some(p) => p.cmd < |cs| && p.off < |cs[p.cmd]|
                            && pos < |Flatten(cs)| && Flatten(cs)[pos] == cs[p.cmd][p.off]
  {
    FlattenedTotal(cs);
    LocateFinds(Sizes(cs), pos);
    match Locate(Sizes(cs), pos)
    case None =>
    case Some(p) =>
      CommandIsSlice(cs, p.cmd);
      assert cs[p.cmd][p.off] == Flatten(cs)[Start(Sizes(cs), p.cmd)..][p.off];
  }
}
