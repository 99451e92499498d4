/** Who owns which page frame. Directories, page tables, mapped pages and the stack of free frames
    never overlap, and no operation of the memory manager changes that. */
module FrameOwnership {
  import opened Options
  import opened Paging
  import opened Sequences

  /** The directory entries that mapKernel copies: entry 0, and those of 32 MB from 0x20000000 on. */
  predicate IsKernelPart(i: int) { i == 0 || 128 <= i < 136 }

  /** What processes share with the kernel: the bottom 4 MB and the first 32 MB of the kernel heap. */
  lemma KernelRange(a: int)
    ensures IsKernelPart(a / 0x40_0000) <==> 0 <= a < 0x40_0000 || 0x2000_0000 <= a < 0x2000_0000 + 32 * 0x10_0000
  {
  }

  /** Pages whose frames are handed out and taken back: of the kernel heap, in every directory, and from
      1 GB on, in the directories of processes. The identity map of the
      bottom 4 MB and the temporary windows own nothing, and the kernel's own directory keeps a
      borrowed page of the first process. */
  ghost predicate Owns(kernelDir: int, d: int, p: Page) {
    0 <= p.pte < 1024 && (128 <= p.pde < 256 || (256 <= p.pde < SELF && d != kernelDir))
  }

  ghost predicate Owned(m: Phys, dirs: set<int>, kernelDir: int, free: seq<int>) {
    // mapped frames are neither free nor tables nor directories
    && (forall d, p | d in dirs && Owns(kernelDir, d, p) && Walk(m, d, p).Some? ::
          InUse(m, dirs, free, Walk(m, d, p).value))
    // a frame is mapped at one page only, in every directory with that page table
    && (forall d, e, p, q | d in dirs && e in dirs && Owns(kernelDir, d, p) && Owns(kernelDir, e, q)
          && Walk(m, d, p).Some? && Walk(m, d, p) == Walk(m, e, q) ::
            p == q && TableOf(m, d, p.pde) == TableOf(m, e, p.pde))
    // from 1 GB on nobody shares page tables
    && (forall d, e, i | d in dirs && e in dirs && 256 <= i < SELF && TableOf(m, d, i).Some?
          && TableOf(m, d, i) == TableOf(m, e, i) :: d == e)
    && (forall d, i | d in dirs && 256 <= i < SELF && TableOf(m, d, i).Some? :: TableOf(m, d, i).value > 0)
    && (forall d | d in dirs :: d > 0)
  }

  ghost predicate InUse(m: Phys, dirs: set<int>, free: seq<int>, f: int) {
    f > 0 && Aligned(f) && f !in free && f !in dirs && !IsTable(m, dirs, f)
  }

  /** A frame nobody has, such as one that was just taken from the stack. */
  ghost predicate Unused(m: Phys, dirs: set<int>, kernelDir: int, free: seq<int>, f: int) {
    && InUse(m, dirs, free, f)
    && (forall d, p | d in dirs && Owns(kernelDir, d, p) :: Walk(m, d, p) != Some(f))
  }

  lemma PoppedIsUnused(m: Phys, dirs: set<int>, k: int, free: seq<int>)
    requires FreeOK(m, dirs, free) && Owned(m, dirs, k, free) && free != []
    ensures Unused(m, dirs, k, free[..|free| - 1], free[|free| - 1])
    ensures Owned(m, dirs, k, free[..|free| - 1])
  {
    PopFree(m, dirs, free);
    var rest := free[..|free| - 1];
    forall d, p | d in dirs && Owns(k, d, p) && Walk(m, d, p).Some?
      ensures InUse(m, dirs, rest, Walk(m, d, p).value)
    {
      assert InUse(m, dirs, free, Walk(m, d, p).value);
    }
    forall d, p | d in dirs && Owns(k, d, p) ensures Walk(m, d, p) != Some(free[|free| - 1]) {
      if Walk(m, d, p).Some? { assert InUse(m, dirs, free, Walk(m, d, p).value); }
    }
  }

  /** Page tables stay; new ones were free and are not shared from 1 GB on. */
  ghost predicate Grown(m: Phys, m': Phys, dirs: set<int>, free: seq<int>, free': seq<int>) {
    && (forall x, j | x in dirs && TableOf(m, x, j).Some? :: TableOf(m', x, j) == TableOf(m, x, j))
    && (forall x, j | x in dirs && TableOf(m, x, j).None? && TableOf(m', x, j).Some? ::
          TableOf(m', x, j).value > 0 && TableOf(m', x, j).value in free && TableOf(m', x, j).value !in free')
    && (forall x, y, i | x in dirs && y in dirs && 256 <= i < SELF && TableOf(m, x, i).None? && TableOf(m', x, i).Some?
          && TableOf(m', y, i) == TableOf(m', x, i) :: x == y)
    && (forall f | f in free' :: f in free)
  }

  /** Whatever grows tables out of free frames and at most maps a page to an unused frame, or unmaps
      it, keeps the ownership of frames; a frame that lost its page may have been freed before. */
  lemma OwnedKept(m: Phys, m': Phys, dirs: set<int>, k: int, free: seq<int>, gone: seq<int>, free': seq<int>, d: int,
        p: Page,
        to: Option<int>)
    requires Owned(m, dirs, k, free) && Grown(m, m', dirs, free + gone, free') && d in dirs
    requires Wf(m, dirs) && Wf(m', dirs)
    requires forall x, q | x in dirs && Owns(k, x, q) ::
               Walk(m', x, q) == if q == p && TableOf(m', x, p.pde) == TableOf(m', d, p.pde) then to else Walk(m, x, q)
    requires to.Some? ==> Unused(m, dirs, k, free, to.value)
    requires forall x, q | x in dirs && Owns(k, x, q) && Walk(m', x, q).Some? :: Walk(m', x, q).value !in gone
    ensures Owned(m', dirs, k, free')
  {
    forall x, q | x in dirs && Owns(k, x, q) && Walk(m', x, q).Some?
      ensures InUse(m', dirs, free', Walk(m', x, q).value)
    {
      var f := Walk(m', x, q).value;
      assert InUse(m, dirs, free, f);
      NoNewTable(m, m', dirs, free + gone, free', f);
    }
    forall x, y, i | x in dirs && y in dirs && 256 <= i < SELF && TableOf(m', x, i).Some? &&
      TableOf(m', x, i) == TableOf(m', y, i)
      ensures x == y && TableOf(m', x, i).value > 0
    {
      hide Walk, TableOf;
    }
    forall x, y, q, r | x in dirs && y in dirs && Owns(k, x, q) && Owns(k, y, r)
      && Walk(m', x, q).Some? && Walk(m', x, q) == Walk(m', y, r)
      ensures q == r && TableOf(m', x, q.pde) == TableOf(m', y, q.pde)
    {
      TableOfWalk(m, x, q);
      TableOfWalk(m, y, r);
      hide Walk, TableOf;
    }
  }

  lemma TableOfWalk(m: Phys, x: int, q: Page)
    ensures Walk(m, x, q).Some? ==> TableOf(m, x, q.pde).Some?
  {
  }

  lemma NoNewTable(m: Phys, m': Phys, dirs: set<int>, free: seq<int>, free': seq<int>, f: int)
    requires Grown(m, m', dirs, free, free') && f !in free && !IsTable(m, dirs, f)
    ensures !IsTable(m', dirs, f)
  {
    forall x, j | x in dirs && 0 <= j < SELF ensures TableOf(m', x, j) != Some(f) {
      NotATable(m, dirs, f, x, j);
      hide TableOf;
    }
  }

  // ------------------------------------------------------------------ a directory destroyed

  lemma {:induction false} LeavesDistinct(m: Phys, dirs: set<int>, k: int, free: seq<int>, d: int, i: int, n: nat)
    requires Owned(m, dirs, k, free) && d in dirs && d != k && 256 <= i < SELF && TableOf(m, d, i).Some? && n <= 1024
    ensures Distinct(Leaves(m, TableOf(m, d, i).value, n))
  {
    var t := TableOf(m, d, i).value;
    if n > 0 {
      LeavesDistinct(m, dirs, k, free, d, i, n - 1);
      if Get(m, t, n - 1).present {
        var f := Get(m, t, n - 1).frame;
        if f in Leaves(m, t, n - 1) {
          var y := LeafIndex(m, t, n - 1, f);
          assert Walk(m, d, Page(i, y)) == Some(f) == Walk(m, d, Page(i, n - 1));
          assert Owns(k, d, Page(i, y)) && Owns(k, d, Page(i, n - 1));
          assert false;
        }
        DistinctJoin(Leaves(m, t, n - 1), [f]);
      }
    }
  }

  /** What one page table gives back: its leaves and itself, each once, and nothing anybody else has. */
  lemma ReleasedAtOwned(m: Phys, dirs: set<int>, k: int, free: seq<int>, d: int, i: int)
    requires Owned(m, dirs, k, free) && Wf(m, dirs) && FreeOK(m, dirs, free) && d in dirs && d != k && 256 <= i < SELF
    ensures Distinct(ReleasedAt(m, d, i))
    ensures forall f | f in ReleasedAt(m, d, i) ::
              f > 0 && Aligned(f) && f !in free && f !in dirs && !IsTable(m, dirs - {d}, f)
  {
    if TableOf(m, d, i).Some? {
      var t := TableOf(m, d, i).value;
      LeavesDistinct(m, dirs, k, free, d, i, 1024);
      forall f | f in Leaves(m, t, 1024) ensures InUse(m, dirs, free, f) {
        var y := LeafIndex(m, t, 1024, f);
        assert Walk(m, d, Page(i, y)) == Some(f) && Owns(k, d, Page(i, y));
      }
      assert IsTable(m, dirs, t);
      DistinctJoin(Leaves(m, t, 1024), [t]);
      PrivateTable(m, dirs, k, free, d, i);
      forall f | f in Leaves(m, t, 1024) ensures !IsTable(m, dirs - {d}, f) {
        FewerTables(m, dirs, d, f);
      }
    }
  }

  lemma PrivateTable(m: Phys, dirs: set<int>, k: int, free: seq<int>, d: int, i: int)
    requires Owned(m, dirs, k, free) && Wf(m, dirs) && d in dirs && 256 <= i < SELF && TableOf(m, d, i).Some?
    ensures !IsTable(m, dirs - {d}, TableOf(m, d, i).value)
  {
    forall x, j | x in dirs - {d} && 0 <= j < SELF ensures TableOf(m, x, j) != TableOf(m, d, i) {
    }
  }

  lemma FewerTables(m: Phys, dirs: set<int>, d: int, f: int)
    requires !IsTable(m, dirs, f)
    ensures !IsTable(m, dirs - {d}, f)
  {
    forall x, j | x in dirs - {d} && 0 <= j < SELF ensures TableOf(m, x, j) != Some(f) {
      NotATable(m, dirs, f, x, j);
    }
  }

  /** A frame is not reached through two entries of a process directory. */
  lemma GivenOnce(m: Phys, dirs: set<int>, k: int, free: seq<int>, d: int, i: int, j: int, f: int)
    requires Owned(m, dirs, k, free) && Wf(m, dirs) && d in dirs && d != k && 256 <= i < j < SELF
    ensures Gives(m, d, i, f) ==> !Gives(m, d, j, f)
  {
    if TableOf(m, d, i) == Some(f) {
      TableNotMapped(m, dirs, k, free, d, i, j, f);
    } else if TableOf(m, d, j) == Some(f) {
      TableNotMapped(m, dirs, k, free, d, j, i, f);
    } else {
      forall y, z | 0 <= y < 1024 && 0 <= z < 1024 && Walk(m, d, Page(i, y)) == Some(f)
        ensures Walk(m, d, Page(j, z)) != Some(f)
      {
        assert Owns(k, d, Page(i, y)) && Owns(k, d, Page(j, z));
      }
    }
  }

  lemma TableNotMapped(m: Phys, dirs: set<int>, k: int, free: seq<int>, d: int, i: int, j: int, f: int)
    requires Owned(m, dirs, k, free) && d in dirs && d != k && 256 <= i < SELF && 256 <= j < SELF
    requires TableOf(m, d, i) == Some(f)
    ensures forall y | 0 <= y < 1024 :: Walk(m, d, Page(j, y)) != Some(f)
  {
    assert IsTable(m, dirs, f);
    forall y | 0 <= y < 1024 ensures Walk(m, d, Page(j, y)) != Some(f) {
      assert Owns(k, d, Page(j, y));
    }
  }

  lemma ReleasedApart(m: Phys, dirs: set<int>, k: int, free: seq<int>, d: int, hi: int)
    requires Owned(m, dirs, k, free) && Wf(m, dirs) && d in dirs && d != k && 256 <= hi < SELF
    ensures forall f :: f in Released(m, d, 256, hi) ==> f !in ReleasedAt(m, d, hi)
  {
    forall f: int ensures f in Released(m, d, 256, hi) ==> f !in ReleasedAt(m, d, hi) {
      ReleasedIs(m, d, 256, hi, f);
      GivesReleased(m, d, hi, f);
      forall i | 256 <= i < hi ensures Gives(m, d, i, f) ==> !Gives(m, d, hi, f) {
        GivenOnce(m, dirs, k, free, d, i, hi, f);
      }
    }
  }

  /** Everything destroyPageDirectory pushes: no frame twice, none that is free already, and none
      that another directory needs. */
  lemma {:induction false} ReleasedOwned(m: Phys, dirs: set<int>, k: int, free: seq<int>, d: int, hi: int)
    requires Owned(m, dirs, k, free) && Wf(m, dirs) && FreeOK(m, dirs, free) && d in dirs && d != k && 256 <= hi <= SELF
    ensures Distinct(Released(m, d, 256, hi))
    ensures forall f | f in Released(m, d, 256, hi) ::
              f > 0 && Aligned(f) && f !in free && f !in dirs && !IsTable(m, dirs - {d}, f)
    decreases hi
  {
    if hi > 256 {
      ReleasedOwned(m, dirs, k, free, d, hi - 1);
      ReleasedAtOwned(m, dirs, k, free, d, hi - 1);
      ReleasedApart(m, dirs, k, free, d, hi - 1);
      DistinctJoin(Released(m, d, 256, hi - 1), ReleasedAt(m, d, hi - 1));
    }
  }

  /** The frames still mapped elsewhere are not among those given back. */
  lemma MappedStays(m: Phys, dirs: set<int>, k: int, free: seq<int>, d: int, e: int, q: Page)
    requires Owned(m, dirs, k, free) && d in dirs && d != k && e in dirs - {d} && Owns(k, e, q) && Walk(m, e, q).Some?
    ensures Walk(m, e, q).value !in Released(m, d, 256, SELF)
  {
    var f := Walk(m, e, q).value;
    assert InUse(m, dirs, free, f);
    ReleasedIs(m, d, 256, SELF, f);
    forall i | 256 <= i < SELF ensures !Gives(m, d, i, f) {
      NotATable(m, dirs, f, d, i);
      forall y | 0 <= y < 1024 ensures Walk(m, d, Page(i, y)) != Some(f) {
        assert Owns(k, d, Page(i, y));
      }
    }
  }

  /** With a process directory gone and its frames back on the stack, ownership holds again. */
  lemma DestroyKeepsOwned(m: Phys, dirs: set<int>, k: int, free: seq<int>, d: int)
    requires Owned(m, dirs, k, free) && Wf(m, dirs) && FreeOK(m, dirs, free) && d in dirs && d != k
    ensures var free' := free + Released(m, d, 256, SELF) + [d];
            Owned(m, dirs - {d}, k, free') && Wf(m, dirs - {d}) && FreeOK(m, dirs - {d}, free')
  {
    var gone := Released(m, d, 256, SELF);
    var free' := free + gone + [d];
    ReleasedOwned(m, dirs, k, free, d, SELF);
    DistinctJoin(free, gone);
    DistinctJoin(free + gone, [d]);
    NotOthersTable(m, dirs, d);
    forall f | f in free' ensures f > 0 && Aligned(f) && f !in dirs - {d} && !IsTable(m, dirs - {d}, f) {
      if f in free { FewerTables(m, dirs, d, f); }
    }
    forall e, q | e in dirs - {d} && Owns(k, e, q) && Walk(m, e, q).Some?
      ensures InUse(m, dirs - {d}, free', Walk(m, e, q).value)
    {
      assert InUse(m, dirs, free, Walk(m, e, q).value);
      MappedStays(m, dirs, k, free, d, e, q);
      FewerTables(m, dirs, d, Walk(m, e, q).value);
    }
  }

  lemma NotOthersTable(m: Phys, dirs: set<int>, d: int)
    requires Wf(m, dirs) && d in dirs
    ensures !IsTable(m, dirs - {d}, d)
  {
  }

  // -------------------------------------------------------------------- a directory created

  /** A fresh directory without page tables owns nothing yet. */
  lemma NewOwnsNothing(m: Phys, m': Phys, dirs: set<int>, k: int, free: seq<int>, free': seq<int>, d: int)
    requires Owned(m, dirs, k, free) && Unused(m, dirs, k, free, d) && Wf(m, dirs) && Wf(m', dirs + {d})
    requires Grown(m, m', dirs, free, free')
    requires forall x, q | x in dirs && Owns(k, x, q) :: Walk(m', x, q) == Walk(m, x, q)
    requires forall j | 0 <= j < SELF :: TableOf(m', d, j) == None
    ensures Owned(m', dirs + {d}, k, free')
  {
    assert dirs + {d} - {d} == dirs;
    forall q | Owns(k, d, q) ensures Walk(m', d, q) == None {
    }
    forall x, q | x in dirs + {d} && Owns(k, x, q) && Walk(m', x, q).Some?
      ensures x in dirs && InUse(m', dirs + {d}, free', Walk(m', x, q).value)
    {
      var f := Walk(m', x, q).value;
      assert InUse(m, dirs, free, f);
      NoNewTable(m, m', dirs, free, free', f);
      StillNoTable(m', m', dirs, d, f);
    }
    forall x, y, q, r | x in dirs + {d} && y in dirs + {d} && Owns(k, x, q) && Owns(k, y, r)
      && Walk(m', x, q).Some? && Walk(m', x, q) == Walk(m', y, r)
      ensures q == r && TableOf(m', x, q.pde) == TableOf(m', y, q.pde)
    {
      TableOfWalk(m, x, q);
      TableOfWalk(m, y, r);
      hide Walk, TableOf;
    }
    forall x, y, i | x in dirs + {d} && y in dirs + {d} && 256 <= i < SELF && TableOf(m', x, i).Some?
      && TableOf(m', x, i) == TableOf(m', y, i)
      ensures x == y && TableOf(m', x, i).value > 0
    {
      hide Walk, TableOf;
    }
    hide Walk, TableOf, InUse, Unused, Grown, Wf;
  }

  /** Sharing the kernel's page tables keeps the ownership: the shared pages keep their frames. */
  lemma SharedKeepsOwned(m: Phys, m': Phys, dirs: set<int>, k: int, free: seq<int>, free': seq<int>, d: int)
    requires Owned(m, dirs, k, free) && Wf(m, dirs) && d in dirs && k in dirs
    requires forall f | f in free' :: f in free
    requires forall x, j | x in dirs && !(x == d && IsKernelPart(j)) && TableOf(m, x, j).Some? ::
              TableOf(m', x, j) == TableOf(m, x, j)
    requires forall x, j | x in dirs && !(x == d && IsKernelPart(j)) && TableOf(m, x, j).None? &&
              TableOf(m', x, j).Some? ::
               j < 128 && TableOf(m', x, j).value in free
    requires forall j | IsKernelPart(j) :: TableOf(m', d, j) == TableOf(m', k, j)
    requires d != k
    requires forall x, q | x in dirs && Owns(k, x, q) ::
               Walk(m', x, q) == if x == d && IsKernelPart(q.pde) then Walk(m, k, q) else Walk(m, x, q)
    ensures Owned(m', dirs, k, free')
  {
    forall x, q | x in dirs && Owns(k, x, q) && Walk(m', x, q).Some?
      ensures InUse(m', dirs, free', Walk(m', x, q).value)
    {
      var f := Walk(m', x, q).value;
      var x' := if x == d && IsKernelPart(q.pde) then k else x;
      assert Owns(k, x', q) && InUse(m, dirs, free, f);
      forall y, j | y in dirs && 0 <= j < SELF ensures TableOf(m', y, j) != Some(f) {
        NotATable(m, dirs, f, y, j);
        NotATable(m, dirs, f, k, j);
        hide Walk, TableOf;
      }
    }
    forall x, y, q, r | x in dirs && y in dirs && Owns(k, x, q) && Owns(k, y, r)
      && Walk(m', x, q).Some? && Walk(m', x, q) == Walk(m', y, r)
      ensures q == r && TableOf(m', x, q.pde) == TableOf(m', y, q.pde)
    {
      var x' := if x == d && IsKernelPart(q.pde) then k else x;
      var y' := if y == d && IsKernelPart(r.pde) then k else y;
      TableOfWalk(m, x', q);
      TableOfWalk(m, y', r);
      hide Walk, TableOf;
      assert Owns(k, x', q) && Owns(k, y', r);
    }
    forall x, y, i | x in dirs && y in dirs && 256 <= i < SELF && TableOf(m', x, i).Some? &&
      TableOf(m', x, i) == TableOf(m', y, i)
      ensures x == y && TableOf(m', x, i).value > 0
    {
      hide Walk, TableOf;
    }
    hide Walk, TableOf, InUse, Wf;
  }
}
