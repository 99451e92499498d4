/** Circular doubly linked lists of chunks, linked through the fd and bk words. */
module Rings {
  import opened Sequences
  import opened Words

  function Next(r: seq<int>, k: int): int
    requires 0 <= k < |r|
  {
    if k + 1 < |r| then r[k + 1] else r[0]
  }

  function Prev(r: seq<int>, k: int): int
    requires 0 <= k < |r|
  {
    if k == 0 then r[|r| - 1] else r[k - 1]
  }

  ghost predicate Aligned(r: seq<int>) {
    forall k | 0 <= k < |r| :: r[k] % 8 == 0
  }

  /** Node r[k] points forward and backward at its neighbours in the circle r. */
  ghost predicate Linked(m: Mem, r: seq<int>, k: int)
    requires 0 <= k < |r|
  {
    Fd(m, r[k]) == Next(r, k) && Bk(m, r[k]) == Prev(r, k)
  }

  /** Following fd from r[0] visits r in order and returns to r[0]; bk goes the other way. */
  ghost predicate Ring(m: Mem, r: seq<int>) {
    && |r| > 0
    && Aligned(r)
    && Distinct(r)
    && forall k | 0 <= k < |r| :: Linked(m, r, k)
  }

  /** Memory after linking p between b and f. */
  function LinkBetween(m: Mem, b: int, p: int, f: int): Mem {
    m[b + 8 := p][f + 12 := p][p + 8 := f][p + 12 := b]
  }

  /** Memory after joining f and b around an unlinked node. */
  function Join(m: Mem, f: int, b: int): Mem {
    m[f + 12 := b][b + 8 := f]
  }

  lemma LinkBetweenFields(m: Mem, b: int, p: int, f: int, x: int)
    requires b % 8 == 0 && p % 8 == 0 && f % 8 == 0 && x % 8 == 0
    requires p != b && p != f
    ensures var m' := LinkBetween(m, b, p, f);
            && Fd(m', x) == (if x == p then f else if x == b then p else Fd(m, x))
            && Bk(m', x) == (if x == p then b else if x == f then p else Bk(m, x))
  {
  }

  lemma JoinFields(m: Mem, f: int, b: int, x: int)
    requires b % 8 == 0 && f % 8 == 0 && x % 8 == 0
    ensures var m' := Join(m, f, b);
            && Fd(m', x) == (if x == b then f else Fd(m, x))
            && Bk(m', x) == (if x == f then b else Bk(m, x))
  {
  }

  /** insert_small_chunk on a marked bin, and the chaining case of insert_large_chunk:
      p becomes the second node of the ring. */
  lemma LinkRing(m: Mem, r: seq<int>, p: int)
    requires Ring(m, r)
    requires p % 8 == 0 && p !in r
    ensures Ring(LinkBetween(m, r[0], p, Fd(m, r[0])), [r[0], p] + r[1..])
  {
    var m', r' := LinkBetween(m, r[0], p, Fd(m, r[0])), [r[0], p] + r[1..];
    forall k | 0 <= k < |r'| ensures r'[k] % 8 == 0 && Linked(m', r', k) {
      LinkedAfter(m, r, p, k);
    }
    DistinctAfter(r, p);
    hide Linked, Distinct, LinkBetween, Fd;
  }

  lemma LinkedAfter(m: Mem, r: seq<int>, p: int, k: nat)
    requires Ring(m, r) && p % 8 == 0 && p !in r && k <= |r|
    ensures var m', r' := LinkBetween(m, r[0], p, Fd(m, r[0])), [r[0], p] + r[1..];
            r'[k] % 8 == 0 && Linked(m', r', k)
  {
    var b, f := r[0], Fd(m, r[0]);
    var r' := [b, p] + r[1..];
    assert Linked(m, r, 0) && r[0] % 8 == 0 && Next(r, 0) % 8 == 0;
    var j := if k < 2 then 0 else k - 1;
    assert k != 1 ==> r'[k] == r[j];
    assert r[j] % 8 == 0 && Linked(m, r, j);
    LinkBetweenFields(m, b, p, f, r'[k]);
    hide Fd, Bk, LinkBetween;
  }

  lemma DistinctAfter(r: seq<int>, p: int)
    requires Distinct(r) && |r| > 0 && p !in r
    ensures Distinct([r[0], p] + r[1..])
  {
    var r' := [r[0], p] + r[1..];
    forall j, k | 0 <= j < k < |r'| ensures r'[j] != r'[k] {
      if k >= 2 { assert r'[k] == r[k - 1]; }
    }
  }

  /** insert_small_chunk on an unmarked bin: whatever stale links the header held. */
  lemma LinkFirst(m: Mem, b: int, p: int)
    requires b % 8 == 0 && p % 8 == 0 && b != p
    ensures Ring(LinkBetween(m, b, p, b), [b, p])
  {
  }

  /** Unlinking any node but the first leaves the ring without it. */
  lemma UnlinkRing(m: Mem, r: seq<int>, i: int)
    requires Ring(m, r)
    requires 0 < i < |r|
    ensures Ring(Join(m, Fd(m, r[i]), Bk(m, r[i])), r[..i] + r[i + 1..])
  {
    assert Linked(m, r, i);
    var f, b := Next(r, i), Prev(r, i);
    assert f % 8 == 0 && b % 8 == 0;
    var m' := Join(m, f, b);
    var r' := r[..i] + r[i + 1..];
    forall k | 0 <= k < |r'|
      ensures r'[k] % 8 == 0 && Linked(m', r', k)
    {
      var j := if k < i then k else k + 1;
      assert r'[k] == r[j];
      assert r[j] % 8 == 0 && Linked(m, r, j);
      hide Fd, Bk, Join;
      JoinFields(m, f, b, r'[k]);
    }
    assert Distinct(r');
  }

  /** The ring seen from its last node, which is chosen when a tree node is unlinked. */
  function Rotated(r: seq<int>): seq<int>
    requires |r| > 0
  {
    [r[|r| - 1]] + r[..|r| - 1]
  }

  lemma RotateRing(m: Mem, r: seq<int>)
    requires Ring(m, r)
    ensures Ring(m, Rotated(r))
  {
    var n := |r|;
    var r' := Rotated(r);
    forall k | 0 <= k < n
      ensures r'[k] % 8 == 0 && Linked(m, r', k)
    {
      var j := if k == 0 then n - 1 else k - 1;
      assert r'[k] == r[j];
      assert r[j] % 8 == 0 && Linked(m, r, j);
    }
    assert Distinct(r');
  }

  /** A ring depends only on the fd and bk words of its nodes. */
  lemma RingFrame(m: Mem, m': Mem, r: seq<int>)
    requires Ring(m, r)
    requires forall x | x in r :: Fd(m', x) == Fd(m, x) && Bk(m', x) == Bk(m, x)
    ensures Ring(m', r)
  {
    forall k | 0 <= k < |r| ensures Linked(m', r, k) {
      assert Linked(m, r, k) && r[k] in r;
    }
  }
}
