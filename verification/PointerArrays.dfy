/** Arrays of pointers to chunks in use, as bulk free takes them. */
module PointerArrays {
  import opened Words
  import opened Bins
  import opened Tiling
  import opened HeapState
  import opened Segment

  /** A chunk in use is there only once the heap is, and its head word tells its size. */
  lemma ChunkInUse(h: Heap, p: int)
    requires (Fresh(h) || HeapInv(h)) && p in h.cs
    ensures HeapInv(h) && SizeOf(Head(h.mem, p)) == h.cs[p].size && 0 < p && 16 <= h.cs[p].size && h.top != 0
  {
    BelowTop(h.cs, HEAP_BASE, h.top, p);
    assert TagOK(h.mem, h.cs, p);
    HeadTells(h.mem, h.cs, p);
    TopAboveBase(h.cs, h.top);
  }

  /** The chunks that an array of pointers names. */
  ghost function Ptrs(s: seq<int>): set<int> {
    set i | 0 <= i < |s| && s[i] != 0 :: s[i] - 8
  }

  ghost predicate DistinctPtrs(s: seq<int>) {
    forall i, j | 0 <= i < j < |s| && s[i] != 0 :: s[i] != s[j]
  }

  ghost predicate AllInUse(cs: Chunks, s: seq<int>) {
    forall i | 0 <= i < |s| && s[i] != 0 :: s[i] - 8 in cs && cs[s[i] - 8].live
  }

  /** The first pointer of rest was dealt with: freed, or handed on to the next one. */
  ghost predicate BulkStepped(rest: seq<int>, rest': seq<int>, cs: Chunks, cs': Chunks) {
    && DistinctPtrs(rest') && AllInUse(cs', rest') && Ptrs(rest') <= Ptrs(rest)
    && Lives(cs') - Ptrs(rest') == Lives(cs) - Ptrs(rest)
  }

  lemma EmptyPtrs(s: seq<int>)
    requires |s| == 0
    ensures Ptrs(s) == {}
  {
  }

  lemma SkipNull(rest: seq<int>, rest': seq<int>, cs: Chunks)
    requires |rest| > 0 && rest' == rest[1..] && DistinctPtrs(rest) && AllInUse(cs, rest)
    ensures rest[0] == 0 ==> BulkStepped(rest, rest', cs, cs)
  {
    PtrsTail(rest);
  }

  /** The tail of an array names all its chunks but the first. */
  lemma PtrsTail(rest: seq<int>)
    requires |rest| > 0 && DistinctPtrs(rest)
    ensures DistinctPtrs(rest[1..])
    ensures Ptrs(rest[1..]) == if rest[0] == 0 then Ptrs(rest) else Ptrs(rest) - {rest[0] - 8}
    ensures rest[0] != 0 ==> rest[0] - 8 in Ptrs(rest)
  {
    var t := rest[1..];
    forall x | x in Ptrs(t) ensures x in Ptrs(rest) && (rest[0] != 0 ==> x != rest[0] - 8) {
      var i :| 0 <= i < |t| && t[i] != 0 && t[i] - 8 == x;
      assert rest[i + 1] == t[i];
    }
    forall x | x in Ptrs(rest) && !(rest[0] != 0 && x == rest[0] - 8) ensures x in Ptrs(t) {
      var i :| 0 <= i < |rest| && rest[i] != 0 && rest[i] - 8 == x;
      assert t[i - 1] == rest[i];
    }
  }

  lemma FirstInUse(rest: seq<int>, cs: Chunks)
    requires |rest| > 0 && rest[0] != 0 && AllInUse(cs, rest)
    ensures rest[0] - 8 in cs && cs[rest[0] - 8].live && rest[0] - 8 in Ptrs(rest)
  {
  }

  lemma NextInUse(rest: seq<int>, cs: Chunks, h: Heap, p: int, next: int)
    requires |rest| > 1 && rest[1] == next + 8 && AllInUse(cs, rest) && h.cs == cs && HeapInv(h)
    requires p in cs && next == p + cs[p].size
    requires 0 < p && 0 < cs[p].size
    ensures next in cs && cs[next].live && next == End(cs, p) && SizeOf(Head(h.mem, next)) == cs[next].size
  {
    assert next + 8 != 0;
    ChunkInUse(h, next);
  }

  lemma SteppedFree(rest: seq<int>, rest': seq<int>, cs: Chunks, cs': Chunks, p: int)
    requires |rest| > 0 && rest' == rest[1..] && rest[0] == p + 8 != 0 && DistinctPtrs(rest) && AllInUse(cs, rest)
    requires Lives(cs') == Lives(cs) - {p}
    ensures BulkStepped(rest, rest', cs, cs')
  {
    PtrsTail(rest);
    forall i | 0 <= i < |rest'| && rest'[i] != 0 ensures rest'[i] - 8 in cs' && cs'[rest'[i] - 8].live {
      assert rest[i + 1] == rest'[i];
      StillLive(cs, cs', rest'[i] - 8);
    }
  }

  lemma StillLive(cs: Chunks, cs': Chunks, q: int)
    requires q in cs && cs[q].live && q in Lives(cs) ==> q in Lives(cs')
    requires q in cs && cs[q].live
    ensures q in cs' && cs'[q].live
  {
  }

  lemma SteppedJoin(rest: seq<int>, rest': seq<int>, cs: Chunks, cs': Chunks, p: int, next: int, s: int)
    requires |rest| > 1 && rest' == [p + 8] + rest[2..] && rest[0] == p + 8 != 0 && rest[1] == next + 8 != 0
    requires DistinctPtrs(rest) && AllInUse(cs, rest) && p != next
    requires Lives(cs') == (Lives(cs) - {next})[p := s]
    requires p in cs' && cs'[p].live
    ensures BulkStepped(rest, rest', cs, cs')
  {
    JoinedPtrs(rest, rest', p, next);
    hide Ptrs, Lives, DistinctPtrs;
    forall i | 0 <= i < |rest'| && rest'[i] != 0 ensures rest'[i] - 8 in cs' && cs'[rest'[i] - 8].live {
      if i > 0 { JoinLeavesLive(rest, cs, cs', p, next, s, i); }
    }
    assert Lives(cs') - Ptrs(rest') == Lives(cs) - Ptrs(rest);
  }

  /** The array with the first chunk joined into the second names one chunk less. */
  lemma JoinedPtrs(rest: seq<int>, rest': seq<int>, p: int, next: int)
    requires |rest| > 1 && rest' == [p + 8] + rest[2..] && rest[0] == p + 8 != 0 && rest[1] == next + 8 != 0
    requires DistinctPtrs(rest) && p != next
    ensures DistinctPtrs(rest') && Ptrs(rest') == Ptrs(rest) - {next} && p in Ptrs(rest') && next in Ptrs(rest)
  {
    var tail := rest[1..];
    PtrsTail(rest);
    PtrsTail(tail);
    assert tail[1..] == rest[2..] && rest'[1..] == rest[2..];
    assert DistinctPtrs(rest') by {
      assert forall i | 1 <= i < |rest'| :: rest'[i] == rest[i + 1];
    }
    PtrsTail(rest');
    hide Ptrs, DistinctPtrs;
    assert Ptrs(rest') == Ptrs(rest') - {p} + {p};
    assert Ptrs(rest) == (Ptrs(rest) - {p} - {next}) + {next} + {p};
  }

  lemma JoinLeavesLive(rest: seq<int>, cs: Chunks, cs': Chunks, p: int, next: int, s: int, i: nat)
    requires 1 <= i && i + 1 < |rest| && rest[i + 1] != 0 && DistinctPtrs(rest) && AllInUse(cs, rest)
    requires rest[0] == p + 8 != 0 && rest[1] == next + 8 != 0
    requires Lives(cs') == (Lives(cs) - {next})[p := s]
    ensures rest[i + 1] - 8 in cs' && cs'[rest[i + 1] - 8].live
  {
    var q := rest[i + 1] - 8;
    assert q in Lives(cs) && q != next && q != p;
    assert q in Lives(cs');
  }

  lemma KeptFewer(m: Mem, m': Mem, more: Sizes, lives: Sizes)
    requires PayloadKept(m, m', more)
    requires forall q | q in lives :: q in more && more[q] == lives[q]
    ensures PayloadKept(m, m', lives)
  {
  }

  /** The loop invariant of bulk free after one more pointer. */
  lemma BulkStep(rest: seq<int>, rest': seq<int>, cs: Chunks, cs': Chunks, m: Mem, m0: Mem, m1: Mem)
    requires BulkStepped(rest, rest', cs, cs')
    requires PayloadKept(m, m0, Lives(cs) - Ptrs(rest)) && PayloadKept(m0, m1, Lives(cs') - Ptrs(rest))
    ensures DistinctPtrs(rest') && AllInUse(cs', rest')
    ensures Lives(cs') - Ptrs(rest') == Lives(cs) - Ptrs(rest)
    ensures PayloadKept(m, m1, Lives(cs') - Ptrs(rest'))
  {
    hide PayloadKept, DistinctPtrs, AllInUse, Ptrs, Lives;
    var lives := Lives(cs) - Ptrs(rest);
    forall q | q in lives ensures q in Lives(cs') - Ptrs(rest) && (Lives(cs') - Ptrs(rest))[q] == lives[q] {
      assert q in Lives(cs') - Ptrs(rest');
    }
    KeptFewer(m0, m1, Lives(cs') - Ptrs(rest), lives);
    KeptTransitive(m, m0, m1, lives, lives);
  }
}
