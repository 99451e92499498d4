/** The mode bits of directory and page table entries: the hardware lets a program touch a page when both
    entries on the way to it have the user bit (section 4.6.1). */
module AccessModes {
  import opened Options
  import opened Paging

  /** The page table entry of a page, with its mode bit. */
  function EntryOf(m: Phys, d: int, p: Page): Option<Entry> {
    match TableOf(m, d, p.pde)
    case None => None
    case Some(t) => Some(Get(m, t, p.pte))
  }

  /** A page that programs can touch. */
  ghost predicate UserPage(m: Phys, d: int, p: Page) {
    && Get(m, d, p.pde).present && Get(m, d, p.pde).user
    && EntryOf(m, d, p).Some? && EntryOf(m, d, p).value.present && EntryOf(m, d, p).value.user
  }

  /** Directory entries that were present stay as they are, and so do the page table entries of all mapped
      pages but some. */
  ghost predicate ModesKept(m: Phys, m': Phys, dirs: set<int>, but: set<Page>) {
    && (forall x, j | x in dirs && Get(m, x, j).present :: Get(m', x, j) == Get(m, x, j))
    && (forall x, q | x in dirs && Normal(q) && q !in but && Walk(m, x, q).Some? ::
          EntryOf(m', x, q) == EntryOf(m, x, q))
  }

  lemma WalkEntry(m: Phys, x: int, q: Page)
    ensures Walk(m, x, q).Some? <==> EntryOf(m, x, q).Some? && EntryOf(m, x, q).value.present
    ensures Walk(m, x, q).Some? ==> EntryOf(m, x, q).value.frame == Walk(m, x, q).value
  {
  }

  lemma NothingChanged(m: Phys, dirs: set<int>)
    ensures ModesKept(m, m, dirs, {})
  {
  }

  lemma ModesTwice(m: Phys, m1: Phys, m2: Phys, dirs: set<int>, a: set<Page>, b: set<Page>)
    requires ModesKept(m, m1, dirs, a) && ModesKept(m1, m2, dirs, b)
    ensures ModesKept(m, m2, dirs, a + b)
  {
    forall x, q | x in dirs && Normal(q) && q !in a + b && Walk(m, x, q).Some?
      ensures EntryOf(m2, x, q) == EntryOf(m, x, q)
    {
      WalkEntry(m, x, q);
      WalkEntry(m1, x, q);
      hide Walk, EntryOf;
    }
    hide Walk, EntryOf;
  }

  lemma ModesMore(m: Phys, m': Phys, dirs: set<int>, a: set<Page>, b: set<Page>)
    requires ModesKept(m, m', dirs, a) && a <= b
    ensures ModesKept(m, m', dirs, b)
  {
    hide Walk, EntryOf;
  }

  lemma StoreKeepsModes(m: Phys, dirs: set<int>, d: int, p: Page, e: Entry)
    requires Wf(m, dirs) && d in dirs && Normal(p) && TableOf(m, d, p.pde).Some?
    ensures ModesKept(m, Set(m, TableOf(m, d, p.pde).value, p.pte, e), dirs, {p})
  {
    var t := TableOf(m, d, p.pde).value;
    assert t !in dirs;
    forall x, q | x in dirs && Normal(q) && q != p && Walk(m, x, q).Some?
      ensures EntryOf(Set(m, t, p.pte, e), x, q) == EntryOf(m, x, q)
    {
      assert TableOf(m, x, q.pde) == TableOf(m, d, p.pde) ==> q.pde == p.pde;
    }
  }

  lemma ClearKeepsModes(m: Phys, dirs: set<int>, f: int)
    requires f !in dirs && forall x, q | x in dirs && Normal(q) :: TableOf(m, x, q.pde) != Some(f)
    ensures ModesKept(m, Clear(m, f), dirs, {})
  {
    forall x, q | x in dirs && Normal(q) && Walk(m, x, q).Some? ensures EntryOf(Clear(m, f), x, q) == EntryOf(m, x, q) {
      assert TableOf(m, x, q.pde) != Some(f);
    }
  }

  /** A page table hung in and cleared later: what was mapped before went through other tables. */
  lemma HangKeepsModes(m: Phys, m2: Phys, dirs: set<int>, d: int, i: int, t: int, user: bool, but: set<Page>)
    requires d in dirs && 0 <= i < SELF && TableOf(m, d, i) == None && t !in dirs && !IsTable(m, dirs, t)
    requires ModesKept(Set(m, d, i, Entry(true, user, t)), m2, dirs, but)
    ensures ModesKept(m, Clear(m2, t), dirs, but) && Get(Clear(m2, t), d, i) == Entry(true, user, t)
  {
    var m1, m3 := Set(m, d, i, Entry(true, user, t)), Clear(m2, t);
    assert Get(m1, d, i) == Entry(true, user, t);
    forall x, j | x in dirs && Get(m, x, j).present ensures Get(m3, x, j) == Get(m, x, j) {
      assert Get(m1, x, j) == Get(m, x, j);
    }
    forall x, q | x in dirs && Normal(q) && q !in but && Walk(m, x, q).Some?
      ensures EntryOf(m3, x, q) == EntryOf(m, x, q)
    {
      NotATable(m, dirs, t, x, q.pde);
      assert Get(m1, x, q.pde) == Get(m, x, q.pde);
      assert EntryOf(m1, x, q) == EntryOf(m, x, q) && Walk(m1, x, q).Some?;
      assert EntryOf(m2, x, q) == EntryOf(m1, x, q);
    }
  }
}
