/** The stack of free page frames as it is filled at boot from the memory map of the boot loader. */
module StackPMM {
  import opened Options
  import opened Sequences

  const FRAME_SIZE := 4096

  /** An entry of the memory map. */
  datatype Region = Region(addr: nat, len: nat, available: bool)

  ghost predicate BelowFourGB(rs: seq<Region>) {
    forall i | 0 <= i < |rs| :: rs[i].addr + rs[i].len <= 0x1_0000_0000
  }

  ghost predicate Apart(rs: seq<Region>) {
    forall i, j | 0 <= i < j < |rs| :: rs[i].addr + rs[i].len <= rs[j].addr || rs[j].addr + rs[j].len <= rs[i].addr
  }

  /** Neither the null frame, nor inside the kernel and the stack behind it. */
  predicate Kept(f: int, lo: int, hi: int) { f != 0 && (f < lo || f > hi) }

  function TotalLength(rs: seq<Region>): nat {
    if rs == [] then 0 else TotalLength(rs[..|rs| - 1]) + rs[|rs| - 1].len
  }

  /** The lengths of all regions, available or not, count once each. */
  lemma TotalOfOne(r: Region)
    ensures TotalLength([]) == 0 && TotalLength([r]) == r.len
  {
    assert [r][..0] == [];
  }

  lemma {:induction false} TotalJoin(rs: seq<Region>, ts: seq<Region>)
    ensures TotalLength(rs + ts) == TotalLength(rs) + TotalLength(ts)
  {
    if ts == [] {
      assert rs + ts == rs;
    } else {
      var before := ts[..|ts| - 1];
      TotalJoin(rs, before);
      assert (rs + ts)[..|rs + ts| - 1] == rs + before;
    }
  }

  /** Regions one behind the other, from address x to address y. */
  ghost predicate Behind(rs: seq<Region>, x: int, y: int) {
    && (if rs == [] then x == y else rs[0].addr == x && rs[|rs| - 1].addr + rs[|rs| - 1].len == y)
    && forall i | 0 < i < |rs| :: rs[i].addr == rs[i - 1].addr + rs[i - 1].len
  }

  /** Of a map without holes the total length is what it spans, so that the stack has a place for each frame
      of it. */
  lemma {:induction false} TotalSpan(rs: seq<Region>, x: int, y: int)
    requires Behind(rs, x, y)
    ensures TotalLength(rs) == y - x
    ensures y - x < 0x1_0000_0000 ==> TotalFrames(rs) == (y - x) / 4096
  {
    if rs != [] {
      var before, r := rs[..|rs| - 1], rs[|rs| - 1];
      assert Behind(before, x, r.addr);
      TotalSpan(before, x, r.addr);
    }
  }

  function TotalFrames(rs: seq<Region>): nat { TotalLength(rs) % 0x1_0000_0000 / FRAME_SIZE }

  /** The loop counts in 32 bits, and addresses are cut to 32 bits. */
  function FrameCount(r: Region): nat { r.len / FRAME_SIZE % 0x1_0000_0000 }

  function FrameAt(r: Region, i: nat): nat { (r.addr + i * FRAME_SIZE) % 0x1_0000_0000 }

  /** The frames to push for the first n frames of a region, and for a whole map. */
  function FramesOf(r: Region, n: nat, lo: int, hi: int): (s: seq<int>)
    ensures |s| <= n
  {
    if n == 0 then []
    else
      var f := FrameAt(r, n - 1);
      FramesOf(r, n - 1, lo, hi) + (if Kept(f, lo, hi) then [f] else [])
  }

  function Usable(rs: seq<Region>, lo: int, hi: int): seq<int> {
    if rs == [] then []
    else
      var r := rs[|rs| - 1];
      Usable(rs[..|rs| - 1], lo, hi) + (if r.available then FramesOf(r, FrameCount(r), lo, hi) else [])
  }

  lemma {:induction false} FramesOfMembers(r: Region, n: nat, lo: int, hi: int, f: int)
    ensures f in FramesOf(r, n, lo, hi) <==> Kept(f, lo, hi) && exists i: nat | i < n :: FrameAt(r, i) == f
  {
    if n > 0 { FramesOfMembers(r, n - 1, lo, hi, f); }
  }

  lemma CountBelow(r: Region)
    requires r.addr + r.len <= 0x1_0000_0000
    ensures FrameCount(r) == r.len / FRAME_SIZE && r.addr + FrameCount(r) * FRAME_SIZE <= r.addr + r.len
  {
  }

  /** Frame i of region k is pushed. */
  ghost predicate Pushed(rs: seq<Region>, lo: int, hi: int, k: nat, i: nat) {
    k < |rs| && rs[k].available && i < FrameCount(rs[k]) && Kept(FrameAt(rs[k], i), lo, hi)
  }

  /** The frames of the last region of a map. */
  function LastFrames(rs: seq<Region>, lo: int, hi: int): seq<int>
    requires rs != []
  {
    var r := rs[|rs| - 1];
    if r.available then FramesOf(r, FrameCount(r), lo, hi) else []
  }

  lemma LastSources(rs: seq<Region>, lo: int, hi: int, l: nat, f: int)
    requires l == |rs| - 1
    ensures f in LastFrames(rs, lo, hi) <==> exists j: nat | Pushed(rs, lo, hi, l, j) :: FrameAt(rs[l], j) == f
  {
    var r := rs[l];
    FramesOfMembers(r, FrameCount(r), lo, hi, f);
    hide FrameAt, FrameCount, FramesOf;
    if r.available && f in FramesOf(r, FrameCount(r), lo, hi) {
      var j: nat :| j < FrameCount(r) && FrameAt(r, j) == f;
      assert Pushed(rs, lo, hi, l, j);
    }
  }

  lemma {:induction false} UsableSources(rs: seq<Region>, lo: int, hi: int, f: int)
    ensures f in Usable(rs, lo, hi) <==> exists k: nat, i: nat | Pushed(rs, lo, hi, k, i) :: FrameAt(rs[k], i) == f
  {
    if rs == [] {
    } else {
      var before, l := rs[..|rs| - 1], |rs| - 1;
      UsableSources(before, lo, hi, f);
      LastSources(rs, lo, hi, l, f);
      UsableParts(rs, lo, hi, f);
      hide FrameAt, FrameCount, FramesOf, Usable, LastFrames, Kept;
      if f in Usable(before, lo, hi) {
        var k: nat, i: nat :| Pushed(before, lo, hi, k, i) && FrameAt(before[k], i) == f;
        assert Pushed(rs, lo, hi, k, i);
      }
      forall k: nat, i: nat | Pushed(rs, lo, hi, k, i) && FrameAt(rs[k], i) == f ensures f in Usable(rs, lo, hi) {
        if k < l { assert Pushed(before, lo, hi, k, i); }
      }
    }
  }

  lemma UsableParts(rs: seq<Region>, lo: int, hi: int, f: int)
    requires rs != []
    ensures f in Usable(rs, lo, hi) <==> f in Usable(rs[..|rs| - 1], lo, hi) || f in LastFrames(rs, lo, hi)
  {
    hide FramesOf;
  }

  /** Every usable frame lies whole in an available region. */
  lemma UsableMembers(rs: seq<Region>, lo: int, hi: int, f: int) returns (k: nat)
    requires f in Usable(rs, lo, hi) && BelowFourGB(rs)
    ensures k < |rs| && rs[k].available && rs[k].addr <= f && f + FRAME_SIZE <= rs[k].addr + rs[k].len
    ensures Kept(f, lo, hi) && (f - rs[k].addr) % FRAME_SIZE == 0
  {
    UsableSources(rs, lo, hi, f);
    var l: nat, i: nat :| Pushed(rs, lo, hi, l, i) && FrameAt(rs[l], i) == f;
    FrameBelow(rs[l], i);
    k := l;
  }

  /** A region below 4 GB has its frames where they are. */
  lemma FrameBelow(r: Region, i: nat)
    requires r.addr + r.len <= 0x1_0000_0000 && i < FrameCount(r)
    ensures FrameAt(r, i) == r.addr + i * FRAME_SIZE && FrameAt(r, i) + FRAME_SIZE <= r.addr + r.len
    ensures (FrameAt(r, i) - r.addr) % FRAME_SIZE == 0
  {
    CountBelow(r);
  }

  /** And every such frame outside the kernel is usable. */
  lemma {:induction false} UsableAll(rs: seq<Region>, lo: int, hi: int, k: nat, i: nat)
    requires k < |rs| && rs[k].available && i < FrameCount(rs[k])
    requires var f := FrameAt(rs[k], i); f != 0 && (f < lo || hi < f)
    ensures FrameAt(rs[k], i) in Usable(rs, lo, hi)
  {
    var f := FrameAt(rs[k], i);
    if k < |rs| - 1 {
      UsableAll(rs[..|rs| - 1], lo, hi, k, i);
    } else {
      var s := FramesOf(rs[k], i + 1, lo, hi);
      assert f == s[|s| - 1];
      FramesOfGrow(rs[k], i + 1, FrameCount(rs[k]), lo, hi);
      assert FramesOf(rs[k], FrameCount(rs[k]), lo, hi)[|s| - 1] == f;
    }
  }

  /** Frame i of region k and frame j of region l have one address in 32 bits. */
  ghost predicate Meet(rs: seq<Region>, lo: int, hi: int, k: nat, i: nat, l: nat, j: nat) {
    Pushed(rs, lo, hi, k, i) && Pushed(rs, lo, hi, l, j) && FrameAt(rs[k], i) == FrameAt(rs[l], j)
  }

  /** Two frames of the map that are pushed, the one before the other, have one address. */
  ghost predicate Clash(rs: seq<Region>, lo: int, hi: int) {
    exists k: nat, i: nat, l: nat, j: nat | k < l || (k == l && i < j) :: Meet(rs, lo, hi, k, i, l, j)
  }

  /** A frame of region l clashes with one of a region before it, or with another of its own. */
  ghost predicate LastClash(rs: seq<Region>, lo: int, hi: int, l: nat) {
    exists k: nat, i: nat, j: nat | k < l :: Meet(rs, lo, hi, k, i, l, j)
  }

  ghost predicate SelfClash(rs: seq<Region>, lo: int, hi: int, l: nat) {
    exists i: nat, j: nat | i < j :: Meet(rs, lo, hi, l, i, l, j)
  }

  lemma ClashParts(rs: seq<Region>, lo: int, hi: int)
    requires rs != []
    ensures var l := |rs| - 1;
            Clash(rs, lo, hi) <==> Clash(rs[..l], lo, hi) || LastClash(rs, lo, hi, l) || SelfClash(rs, lo, hi, l)
  {
    var before := rs[..|rs| - 1];
    assert forall k: nat, i: nat, l: nat, j: nat | k < |before| && l < |before| ::
        Meet(before, lo, hi, k, i, l, j) <==> Meet(rs, lo, hi, k, i, l, j);
    if Clash(before, lo, hi) {
      var k: nat, i: nat, l: nat, j: nat :| (k < l || (k == l && i < j)) && Meet(before, lo, hi, k, i, l, j);
      assert Meet(rs, lo, hi, k, i, l, j);
    }
    if Clash(rs, lo, hi) {
      var k: nat, i: nat, l: nat, j: nat :| (k < l || (k == l && i < j)) && Meet(rs, lo, hi, k, i, l, j);
      if l < |before| { assert Meet(before, lo, hi, k, i, l, j); }
    }
  }

  /** The frames of one region are distinct unless two of them have one address in 32 bits. */
  lemma {:induction false} FramesOfDistinct(r: Region, n: nat, lo: int, hi: int)
    ensures Distinct(FramesOf(r, n, lo, hi)) <==>
              forall i: nat, j: nat | i < j < n && FrameAt(r, i) == FrameAt(r, j) :: !Kept(FrameAt(r, i), lo, hi)
  {
    if n > 0 {
      var f := FrameAt(r, n - 1);
      FramesOfDistinct(r, n - 1, lo, hi);
      FramesOfMembers(r, n - 1, lo, hi, f);
      DistinctJoin(FramesOf(r, n - 1, lo, hi), if Kept(f, lo, hi) then [f] else []);
      hide FrameAt;
    }
  }

  lemma LastDistinct(rs: seq<Region>, lo: int, hi: int)
    requires rs != []
    ensures Distinct(LastFrames(rs, lo, hi)) <==> !SelfClash(rs, lo, hi, |rs| - 1)
  {
    var l, r := |rs| - 1, rs[|rs| - 1];
    if r.available {
      FramesOfDistinct(r, FrameCount(r), lo, hi);
      hide FrameAt, FrameCount, FramesOf, Distinct;
      assert forall i: nat, j: nat | i < j < FrameCount(r) ::
          Meet(rs, lo, hi, l, i, l, j) <==> FrameAt(r, i) == FrameAt(r, j) && Kept(FrameAt(r, i), lo, hi);
    }
  }

  /** A frame is pushed for the last region as well as for one before. */
  lemma LastApart(rs: seq<Region>, lo: int, hi: int)
    requires rs != []
    ensures (forall f | f in Usable(rs[..|rs| - 1], lo, hi) :: f !in LastFrames(rs, lo, hi)) <==>
              !LastClash(rs, lo, hi, |rs| - 1)
  {
    var before, l := rs[..|rs| - 1], |rs| - 1;
    forall k: nat, i: nat, j: nat | k < l && Meet(rs, lo, hi, k, i, l, j)
      ensures FrameAt(rs[k], i) in Usable(before, lo, hi) && FrameAt(rs[k], i) in LastFrames(rs, lo, hi)
    {
      UsableSources(before, lo, hi, FrameAt(rs[k], i));
      LastSources(rs, lo, hi, l, FrameAt(rs[k], i));
      assert Pushed(before, lo, hi, k, i);
      hide FrameAt, FrameCount, FramesOf, Usable, LastFrames;
    }
    forall f | f in Usable(before, lo, hi) && f in LastFrames(rs, lo, hi) ensures LastClash(rs, lo, hi, l) {
      UsableSources(before, lo, hi, f);
      LastSources(rs, lo, hi, l, f);
      hide FrameAt, FrameCount, FramesOf, Usable, LastFrames;
      var k: nat, i: nat :| Pushed(before, lo, hi, k, i) && FrameAt(before[k], i) == f;
      var j: nat :| Pushed(rs, lo, hi, l, j) && FrameAt(rs[l], j) == f;
      assert Meet(rs, lo, hi, k, i, l, j);
    }
    hide Usable, LastFrames, Meet;
  }

  /** No frame is pushed twice, exactly when no two frames of the map that are pushed have one address in
      32 bits. */
  lemma {:induction false} DistinctUnlessClash(rs: seq<Region>, lo: int, hi: int)
    ensures Distinct(Usable(rs, lo, hi)) <==> !Clash(rs, lo, hi)
  {
    if rs == [] {
    } else {
      var before := rs[..|rs| - 1];
      DistinctUnlessClash(before, lo, hi);
      DistinctJoin(Usable(before, lo, hi), LastFrames(rs, lo, hi));
      LastDistinct(rs, lo, hi);
      LastApart(rs, lo, hi);
      ClashParts(rs, lo, hi);
      hide Distinct, Clash, SelfClash, LastClash;
    }
  }

  /** Of regions below 4 GB that are apart no two frames have one address. */
  lemma UsableDistinct(rs: seq<Region>, lo: int, hi: int)
    requires Apart(rs) && BelowFourGB(rs)
    ensures !Clash(rs, lo, hi) && Distinct(Usable(rs, lo, hi))
  {
    forall k: nat, i: nat, l: nat, j: nat | k < l || (k == l && i < j) ensures !Meet(rs, lo, hi, k, i, l, j) {
      if Meet(rs, lo, hi, k, i, l, j) {
        FrameBelow(rs[k], i);
        FrameBelow(rs[l], j);
      }
    }
    DistinctUnlessClash(rs, lo, hi);
  }

  /** None of the free frames is null or begins inside the kernel. */
  lemma UsableKept(rs: seq<Region>, lo: int, hi: int)
    ensures forall f | f in Usable(rs, lo, hi) :: f > 0 && (f < lo || hi < f)
  {
    forall f | f in Usable(rs, lo, hi) ensures f > 0 && (f < lo || hi < f) {
      UsableSources(rs, lo, hi, f);
    }
  }

  /** A region above 4 GB gives the frames below 4 GB whose addresses agree in 32 bits, so they are
      pushed twice though the regions are apart. */
  lemma AboveFourGBTwice(addr: nat, lo: int, hi: int)
    requires addr + FRAME_SIZE <= 0x1_0000_0000 && Kept(addr, lo, hi)
    ensures var rs := [Region(addr, FRAME_SIZE, true), Region(addr + 0x1_0000_0000, FRAME_SIZE, true)];
            Apart(rs) && !BelowFourGB(rs) && Usable(rs, lo, hi) == [addr, addr]
  {
    var r, r' := Region(addr, FRAME_SIZE, true), Region(addr + 0x1_0000_0000, FRAME_SIZE, true);
    var rs := [r, r'];
    assert !BelowFourGB(rs) by { assert rs[1].addr + rs[1].len > 0x1_0000_0000; }
    assert FrameCount(r) == 1 && FrameAt(r, 0) == addr && FrameCount(r') == 1 && FrameAt(r', 0) == addr;
    assert FramesOf(r, 0, lo, hi) == [] && FramesOf(r', 0, lo, hi) == [];
    assert FramesOf(r, 1, lo, hi) == [addr] && FramesOf(r', 1, lo, hi) == [addr];
    assert rs[..1] == [r] && [r][..0] == [];
    assert Usable([r], lo, hi) == [addr];
  }

  lemma {:induction false} FramesAscend(r: Region, n: nat, lo: int, hi: int)
    requires r.addr + r.len <= 0x1_0000_0000 && n <= FrameCount(r)
    ensures Ascending(FramesOf(r, n, lo, hi))
    ensures forall f | f in FramesOf(r, n, lo, hi) :: r.addr <= f < r.addr + n * FRAME_SIZE
  {
    if n > 0 {
      FramesAscend(r, n - 1, lo, hi);
      FrameBelow(r, n - 1);
      var s, f := FramesOf(r, n - 1, lo, hi), FrameAt(r, n - 1);
      var t := if Kept(f, lo, hi) then [f] else [];
      hide FrameAt, FrameCount;
      AscendingJoin(s, t);
    }
  }

  /** Of a map in order the lowest frames are pushed first, so processes get the highest. */
  lemma {:induction false} UsableAscend(rs: seq<Region>, lo: int, hi: int)
    requires BelowFourGB(rs) && forall i, j | 0 <= i < j < |rs| :: rs[i].addr + rs[i].len <= rs[j].addr
    ensures Ascending(Usable(rs, lo, hi))
  {
    if rs == [] {
    } else {
      var before, r := rs[..|rs| - 1], rs[|rs| - 1];
      UsableAscend(before, lo, hi);
      FramesAscend(r, FrameCount(r), lo, hi);
      CountBelow(r);
      forall f, g | f in Usable(before, lo, hi) && g in LastFrames(rs, lo, hi) ensures f < g {
        var k := UsableMembers(before, lo, hi, f);
        assert before[k] == rs[k];
      }
      hide FrameAt, FrameCount, FramesOf;
      AscendingJoin(Usable(before, lo, hi), LastFrames(rs, lo, hi));
    }
  }

  /** The kernel and the stack behind it from lo to hi are free of usable frames exactly when the load
      address is aligned or its frame is not usable: only where a frame begins is looked at. */
  lemma WholeFrames(rs: seq<Region>, lo: int, hi: int)
    requires forall f | f in Usable(rs, lo, hi) :: f % FRAME_SIZE == 0
    requires forall f | f in Usable(rs, lo, hi) :: Kept(f, lo, hi)
    requires lo <= hi
    ensures (forall f | f in Usable(rs, lo, hi) :: f + FRAME_SIZE <= lo || hi < f) <==>
            (lo % FRAME_SIZE == 0 || lo - lo % FRAME_SIZE !in Usable(rs, lo, hi))
  {
    hide Usable;
    forall f | f in Usable(rs, lo, hi) && !(f + FRAME_SIZE <= lo || hi < f) ensures f == lo - lo % FRAME_SIZE &&
      lo % FRAME_SIZE != 0 {
      assert f < lo < f + FRAME_SIZE;
    }
  }

  /** The stack has room for them all, as long as the memory is less than 4 GB. */
  lemma {:induction false} UsableFits(rs: seq<Region>, lo: int, hi: int)
    ensures |Usable(rs, lo, hi)| * FRAME_SIZE <= TotalLength(rs)
    ensures TotalLength(rs) < 0x1_0000_0000 ==> |Usable(rs, lo, hi)| <= TotalFrames(rs)
  {
    if rs != [] {
      UsableFits(rs[..|rs| - 1], lo, hi);
      CountFits(rs[|rs| - 1]);
      hide FrameCount, FramesOf;
    }
    WholePages(|Usable(rs, lo, hi)|, TotalLength(rs));
    hide FrameCount, FramesOf, Usable, TotalLength;
  }

  lemma CountFits(r: Region)
    ensures FrameCount(r) * FRAME_SIZE <= r.len
  {
    assert FrameCount(r) <= r.len / FRAME_SIZE;
  }

  lemma WholePages(n: nat, length: nat)
    requires n * FRAME_SIZE <= length
    ensures n <= length / FRAME_SIZE
  {
  }

  /** Frames pushed one after another: the assertion of freeFrame fails on a misaligned frame, that of
      Stack_push on a full stack. */
  ghost function PushAll(stack: seq<int>, s: seq<int>, capacity: int): Option<seq<int>> {
    if (forall f | f in s :: f % FRAME_SIZE == 0) && |stack| + |s| <= capacity then Some(stack + s) else None
  }

  lemma PushJoin(stack: seq<int>, s: seq<int>, t: seq<int>, capacity: int)
    ensures PushAll(stack, s + t, capacity) ==
              match PushAll(stack, s, capacity) case Some(u) => PushAll(u, t, capacity) case None => None
  {
    assert (stack + s) + t == stack + (s + t);
    assert forall f :: f in s + t <==> f in s || f in t;
  }

  lemma PushNothing(stack: seq<int>, capacity: int)
    requires |stack| <= capacity
    ensures PushAll(stack, [], capacity) == Some(stack)
  {
    assert stack + [] == stack;
  }

  lemma PushOne(stack: seq<int>, f: int, capacity: int)
    ensures PushAll(stack, [f], capacity) == if f % FRAME_SIZE == 0 &&
              |stack| < capacity then Some(stack + [f]) else None
  {
    assert f in [f];
  }

  method AddUp(rs: seq<Region>) returns (total: nat)
    ensures total == TotalLength(rs) % 0x1_0000_0000
  {
    total := 0;
    var k := 0;
    while k < |rs|
      invariant 0 <= k <= |rs| && total == TotalLength(rs[..k]) % 0x1_0000_0000
    {
      assert rs[..k + 1][..k] == rs[..k];
      total := (total + rs[k].len) % 0x1_0000_0000;
      k := k + 1;
    }
    assert rs[..|rs|] == rs;
  }

  /** The frames of one region pushed. */
  method PushRegion(r: Region, stack: seq<int>, capacity: int, lo: int, hi: int) returns (u: Option<seq<int>>)
    requires |stack| <= capacity
    ensures u == PushAll(stack, FramesOf(r, FrameCount(r), lo, hi), capacity)
  {
    hide *;
    FramesNext(r, 0, lo, hi);
    PushNothing(stack, capacity);
    var numberOfFrames := r.len / 4096 % 0x1_0000_0000;
    SameSize(r);
    u := Some(stack);
    var i := 0;
    while i < numberOfFrames
      invariant 0 <= i <= numberOfFrames && u.Some? && u == PushAll(stack, FramesOf(r, i, lo, hi), capacity)
    {
      var frameAddr := (r.addr + i * 4096) % 0x1_0000_0000;
      FramesNext(r, i, lo, hi);
      PushOne(u.value, frameAddr, capacity);
      SizeIs(frameAddr);
      PushJoin(stack, FramesOf(r, i, lo, hi), [frameAddr], capacity);
      if frameAddr != 0 && (frameAddr < lo || frameAddr > hi) {
        if frameAddr % 4096 != 0 || |u.value| >= capacity {
          NeverAgain(r, stack, capacity, i + 1, numberOfFrames, lo, hi);
          return None;
        }
        u := Some(u.value + [frameAddr]);
      }
      i := i + 1;
    }
  }

  lemma SameSize(r: Region)
    ensures FrameCount(r) == r.len / 4096 % 0x1_0000_0000
  {
  }

  lemma SizeIs(f: int)
    ensures f % FRAME_SIZE == f % 4096
  {
  }

  lemma FramesNext(r: Region, i: nat, lo: int, hi: int)
    ensures FramesOf(r, 0, lo, hi) == []
    ensures var f := (r.addr + i * 4096) % 0x1_0000_0000;
            FramesOf(r, i + 1, lo, hi) ==
              if f != 0 && (f < lo || f > hi) then FramesOf(r, i, lo, hi) + [f] else FramesOf(r, i, lo, hi)
  {
  }

  /** What could not be pushed so far cannot be pushed with more behind it. */
  lemma NeverAgain(r: Region, stack: seq<int>, capacity: int, i: nat, n: nat, lo: int, hi: int)
    requires i <= n && PushAll(stack, FramesOf(r, i, lo, hi), capacity) == None
    ensures PushAll(stack, FramesOf(r, n, lo, hi), capacity) == None
  {
    FramesOfGrow(r, i, n, lo, hi);
    var s, t := FramesOf(r, i, lo, hi), FramesOf(r, n, lo, hi);
    assert t == s + t[|s|..];
    PushJoin(stack, s, t[|s|..], capacity);
  }

  /** StackPMM_init. */
  method Init(rs: seq<Region>, loadAddr: nat, kernelEnd: nat) returns (r: Option<seq<int>>)
    ensures r == PushAll([], Usable(rs, loadAddr, (kernelEnd + TotalFrames(rs) * 4) % 0x1_0000_0000), TotalFrames(rs))
    ensures forall x, y | Behind(rs, x, y) && y - x < 0x1_0000_0000 ::
              var n := (y - x) / 4096; r == PushAll([], Usable(rs, loadAddr, (kernelEnd + n * 4) % 0x1_0000_0000), n)
  {
    hide *;
    forall x, y | Behind(rs, x, y) && y - x < 0x1_0000_0000 ensures TotalFrames(rs) == (y - x) / 4096 {
      TotalSpan(rs, x, y);
    }
    TotalIs(rs);
    var total := AddUp(rs);
    var totalFrames := total / 4096;
    var lo, hi := loadAddr, (kernelEnd + totalFrames * 4) % 0x1_0000_0000;
    UsableNone(lo, hi);
    assert rs[..0] == [];
    PushNothing([], totalFrames);
    r := Some([]);
    var k := 0;
    while k < |rs|
      invariant 0 <= k <= |rs| && r.Some? && |r.value| <= totalFrames
      invariant r == PushAll([], Usable(rs[..k], lo, hi), totalFrames)
    {
      UsableNext(rs, k, lo, hi);
      if rs[k].available {
        ghost var frames := FramesOf(rs[k], FrameCount(rs[k]), lo, hi);
        SameSize(rs[k]);
        PushJoin([], Usable(rs[..k], lo, hi), frames, totalFrames);
        PushBound(r.value, frames, totalFrames);
        r := PushRegion(rs[k], r.value, totalFrames, lo, hi);
        if r == None {
          UsableGrows(rs, k + 1, lo, hi);
          NeverFits(Usable(rs[..k + 1], lo, hi), Usable(rs, lo, hi), totalFrames);
          return;
        }
      }
      k := k + 1;
    }
    assert rs[..|rs|] == rs;
  }

  lemma UsableNext(rs: seq<Region>, k: nat, lo: int, hi: int)
    requires k < |rs|
    ensures Usable(rs[..k + 1], lo, hi) ==
              if rs[k].available then Usable(rs[..k], lo, hi) + FramesOf(rs[k], FrameCount(rs[k]), lo, hi)
              else Usable(rs[..k], lo, hi)
  {
    assert rs[..k + 1][..k] == rs[..k];
  }

  lemma TotalIs(rs: seq<Region>)
    ensures TotalFrames(rs) == TotalLength(rs) % 0x1_0000_0000 / 4096
  {
  }

  lemma UsableNone(lo: int, hi: int)
    ensures Usable([], lo, hi) == []
  {
  }

  lemma PushBound(stack: seq<int>, s: seq<int>, capacity: int)
    ensures PushAll(stack, s, capacity).Some? ==> |PushAll(stack, s, capacity).value| <= capacity
  {
  }

  lemma NeverFits(s: seq<int>, t: seq<int>, capacity: int)
    requires s <= t && PushAll([], s, capacity) == None
    ensures PushAll([], t, capacity) == None
  {
    assert t == s + t[|s|..];
    PushJoin([], s, t[|s|..], capacity);
  }

  lemma {:induction false} FramesOfGrow(r: Region, i: nat, n: nat, lo: int, hi: int)
    requires i <= n
    ensures FramesOf(r, i, lo, hi) <= FramesOf(r, n, lo, hi)
    decreases n - i
  {
    if i < n { FramesOfGrow(r, i, n - 1, lo, hi); }
  }

  lemma {:induction false} UsableGrows(rs: seq<Region>, k: nat, lo: int, hi: int)
    requires k <= |rs|
    ensures Usable(rs[..k], lo, hi) <= Usable(rs, lo, hi)
    decreases |rs|
  {
    if k < |rs| {
      UsableGrows(rs[..|rs| - 1], k, lo, hi);
      assert rs[..|rs| - 1][..k] == rs[..k];
    } else {
      assert rs[..k] == rs;
    }
  }
}
