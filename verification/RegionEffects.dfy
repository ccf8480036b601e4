/** The effect of mapping a contiguous region, whatever page sizes it is made of. */
module RegionEffects {
  import opened Memory
  import opened Paging
  import opened PagingSteps
  import opened PagerEffects
  import opened Rights

  const SPACE_PAGES: nat := 0x10_0000_0000

  /** The number of the virtual page, below 2^36. */
  function PageNo(a: Address): nat { a.page + 512 * (a.pt + 512 * (a.pd + 512 * a.pdp)) }

  type PageNumber = v: nat | v < 0x10_0000_0000

  function VirtualPage(virt: nat): PageNumber {
    virt / PAGE % SPACE_PAGES
  }

  lemma PageNoOfTranslate(virt: nat)
    ensures PageNo(Translate(virt)) == VirtualPage(virt)
  {
    IntoTranslate(virt);
    var a := Translate(virt);
    assert IntoAddress(a) == PageNo(a) * PAGE;
    WrapPages(virt / PAGE);
  }

  lemma WrapPages(v: nat)
    ensures v * PAGE % SPACE == v % SPACE_PAGES * PAGE
  {
    assert v * PAGE == v / SPACE_PAGES * SPACE + v % SPACE_PAGES * PAGE;
    Reduce(v % SPACE_PAGES * PAGE, v / SPACE_PAGES);
  }

  lemma DigitsUnique(p: nat, x: nat, q: nat, y: nat)
    requires p < 512 && q < 512 && p + 512 * x == q + 512 * y
    ensures p == q && x == y
  {
  }

  lemma PageNoInjective(a: Address, b: Address)
    requires PageNo(a) == PageNo(b)
    ensures a == b
  {
    DigitsUnique(a.page, a.pt + 512 * (a.pd + 512 * a.pdp), b.page, b.pt + 512 * (b.pd + 512 * b.pdp));
    DigitsUnique(a.pt, a.pd + 512 * a.pdp, b.pt, b.pd + 512 * b.pdp);
    DigitsUnique(a.pd, a.pdp, b.pd, b.pdp);
  }

  function FromPageNo(n: PageNumber): (a: Address)
    ensures PageNo(a) == n
  {
    Address(n / 512 / 512 / 512, n / 512 / 512 % 512, n / 512 % 512, n % 512)
  }

  /** How far `a` lies behind virtual page `v`; the address space wraps around at 2^48 bytes. */
  function Offset(a: Address, v: PageNumber): PageNumber {
    PageNoBound(a);
    if PageNo(a) >= v then PageNo(a) - v else PageNo(a) + SPACE_PAGES - v
  }

  lemma PageNoBound(a: Address)
    ensures PageNo(a) < SPACE_PAGES
  {
  }

  lemma OffsetOfTranslate(virt: nat, k: nat)
    requires k < SPACE_PAGES
    ensures Offset(Translate(virt + k * 0x1000), VirtualPage(virt)) == k
  {
    hide PageNo, Translate;
    PageNoOfTranslate(virt + k * 0x1000);
    VirtualPageStep(virt, k);
  }

  lemma VirtualPageStep(virt: nat, k: nat)
    ensures VirtualPage(virt + k * 0x1000) == (VirtualPage(virt) + k) % SPACE_PAGES
  {
    assert (virt + k * 0x1000) / PAGE == virt / PAGE + k;
  }

  lemma OffsetInjective(a: Address, b: Address, v: PageNumber)
    requires Offset(a, v) == Offset(b, v)
    ensures a == b
  {
    hide PageNo;
    PageNoBound(a);
    PageNoBound(b);
    PageNoInjective(a, b);
  }

  lemma SameSlotPages(at: Address, a: Address, v: PageNumber, n: nat)
    requires at.page == 0 && Offset(at, v) == n && n + 512 <= SPACE_PAGES
    ensures InSlot(at, a) <==> n <= Offset(a, v) < n + 512
    ensures InSlot(at, a) ==> Offset(a, v) == n + a.page
  {
    if n <= Offset(a, v) < n + 512 {
      PageNoInjective(a, at.(page := Offset(a, v) - n));
    }
  }

  /** `pages` pages from virtual page `first` on are mapped to the frames from `frame` on. Those with offsets from
      `lo` up to `hi` are mapped by 2 MiB pages, the rest by small ones. */
  datatype Region = Region(first: PageNumber, pages: nat, frame: nat, present: bool, lo: nat, hi: nat) {
    predicate Inside(a: Address) { Offset(a, first) < pages }
    predicate Middle(a: Address) { lo <= Offset(a, first) < hi }
  }

  /** The entries that must be present above a page for it to be reached, as far as they exist. */
  ghost predicate Opens(m: Frames, root: nat, r: Region, a: Address) {
    if r.Middle(a) then UpperOpen(m, root, a) else PathOpen(m, root, a)
  }

  /** How `a` translates once the region is mapped. */
  ghost function RegionWalk(m: Frames, root: nat, r: Region, a: Address): Option<nat> {
    if !r.Inside(a) then Walk(m, root, a)
    else if r.present && Opens(m, root, r, a) then Some(r.frame + Offset(a, r.first))
    else None
  }

  ghost predicate SameOpenAt(m0: Frames, m1: Frames, root: nat, r: Region, a: Address) {
    && (UpperOpen(m1, root, a) <==> UpperOpen(m0, root, a))
    && (!r.Middle(a) ==> (PathOpen(m1, root, a) <==> PathOpen(m0, root, a)))
  }

  /** Outside the middle there are no 2 MiB pages but those that were there before, marked as they were. */
  ghost predicate SameHugeAt(s0: Space, s1: Space, r: Region, a: Address) {
    HugeAt(s1.mem, s1.tables, a) && !r.Middle(a) ==>
      HugeAt(s0.mem, s0.tables, a) && MarkedAt(s1.mem, s1.tables, a) == MarkedAt(s0.mem, s0.tables, a)
  }

  /** The effect of mapping a region, on every address and whatever was mapped before. */
  ghost predicate RegionEffect(s0: Space, s1: Space, root: nat, r: Region) {
    && Kept(s0, s1)
    && (forall a :: Walk(s1.mem, root, a) == RegionWalk(s0.mem, root, r, a))
    && (r.present ==> forall a :: SameOpenAt(s0.mem, s1.mem, root, r, a))
    && (forall a :: SameHugeAt(s0, s1, r, a))
  }

  ghost predicate NoHugeIn(m: Frames, t: Tables, v: PageNumber, n: nat) {
    forall a :: Offset(a, v) < n ==> !HugeAt(m, t, a)
  }

  lemma RegionEmpty(s: Space, root: nat, r: Region)
    requires Tree(s.mem, s.tables) && s.tables.Values <= s.used <= s.range && r.pages == r.lo == r.hi == 0
    ensures RegionEffect(s, s, root, r)
  {
    hide Tree, Walk, HugeAt, Offset, UpperOpen, PathOpen, MarkedAt;
    TreeParts(s.mem, s.tables);
  }

  /** One more small page. */
  lemma RegionPage(s0: Space, s1: Space, s2: Space, root: nat, r: Region, at: Address)
    requires RegionEffect(s0, s1, root, r) && r.lo <= r.hi <= r.pages && Offset(at, r.first) == r.pages
    requires Mapped(s1, s2, root, at, r.frame + r.pages, r.present)
    ensures RegionEffect(s0, s2, root, r.(pages := r.pages + 1))
  {
    hide Kept, Extends, Walk, PathOpen, UpperOpen, HugeAt, MarkedAt, Offset;
    var r1 := r.(pages := r.pages + 1);
    KeptTransitive(s0, s1, s2);
    forall a
      ensures Walk(s2.mem, root, a) == RegionWalk(s0.mem, root, r1, a)
      ensures SameHugeAt(s0, s2, r1, a) && (r.present ==> SameOpenAt(s0.mem, s2.mem, root, r1, a))
    {
      if Offset(a, r.first) == r.pages { OffsetInjective(a, at, r.first); }
      assert Walk(s1.mem, root, a) == RegionWalk(s0.mem, root, r, a);
      assert SameHugeAt(s0, s1, r, a);
      assert r.present ==> SameOpenAt(s0.mem, s1.mem, root, r, a);
    }
  }

  /** One more 2 MiB page. */
  lemma RegionHuge(s0: Space, s1: Space, s2: Space, root: nat, r: Region, at: Address, marked: bool)
    requires RegionEffect(s0, s1, root, r) && r.lo <= r.hi == r.pages && r.pages + 512 <= SPACE_PAGES
    requires Offset(at, r.first) == r.pages && at.page == 0
    requires MappedHuge(s1, s2, root, at, r.frame + r.pages, r.present, marked)
    ensures RegionEffect(s0, s2, root, r.(pages := r.pages + 512, hi := r.pages + 512))
  {
    hide Kept, Extends, Walk, PathOpen, UpperOpen, HugeAt, MarkedAt, Offset, InSlot;
    var r1 := r.(pages := r.pages + 512, hi := r.pages + 512);
    KeptTransitive(s0, s1, s2);
    forall a
      ensures Walk(s2.mem, root, a) == RegionWalk(s0.mem, root, r1, a)
      ensures SameHugeAt(s0, s2, r1, a) && (r.present ==> SameOpenAt(s0.mem, s2.mem, root, r1, a))
    {
      SameSlotPages(at, a, r.first, r.pages);
      if InSlot(at, a) { SameUpperOpen(s1.mem, root, at, a); }
      assert Walk(s1.mem, root, a) == RegionWalk(s0.mem, root, r, a);
      assert SameHugeAt(s0, s1, r, a) && HugeAfter(s1, s2, at, marked, a);
      assert r.present ==> SameOpenAt(s0.mem, s1.mem, root, r, a);
    }
  }

  /** An attempt that failed half-way changed nothing about the walk. */
  lemma RegionAttempt(s0: Space, s1: Space, s2: Space, root: nat, r: Region)
    requires RegionEffect(s0, s1, root, r) && Prepared(s1, s2, root, r.present)
    ensures RegionEffect(s0, s2, root, r)
  {
    hide Kept, Extends, Walk, PathOpen, UpperOpen, HugeAt, MarkedAt, Offset;
    KeptTransitive(s0, s1, s2);
    forall a
      ensures Walk(s2.mem, root, a) == RegionWalk(s0.mem, root, r, a)
      ensures SameHugeAt(s0, s2, r, a) && (r.present ==> SameOpenAt(s0.mem, s2.mem, root, r, a))
    {
      assert Walk(s1.mem, root, a) == RegionWalk(s0.mem, root, r, a);
      assert SameHugeAt(s0, s1, r, a);
      assert r.present ==> SameOpenAt(s0.mem, s1.mem, root, r, a);
    }
  }

  /** Without a middle it does not matter where the middle would be. */
  lemma RegionUnsplit(s0: Space, s1: Space, root: nat, r: Region, at: nat)
    requires RegionEffect(s0, s1, root, r) && r.lo >= r.hi
    ensures RegionEffect(s0, s1, root, r.(lo := at, hi := at))
  {
    hide Kept, Walk, PathOpen, UpperOpen, HugeAt, MarkedAt, Offset;
    var r1 := r.(lo := at, hi := at);
    forall a
      ensures RegionWalk(s0.mem, root, r1, a) == RegionWalk(s0.mem, root, r, a)
      ensures SameHugeAt(s0, s1, r1, a) && (r.present ==> SameOpenAt(s0.mem, s1.mem, root, r1, a))
    {
      assert SameHugeAt(s0, s1, r, a);
      assert r.present ==> SameOpenAt(s0.mem, s1.mem, root, r, a);
    }
  }

  lemma OffsetsJoin(a: Address, v: PageNumber, n: nat, k: nat)
    requires n + k <= SPACE_PAGES
    ensures var v' := (v + n) % SPACE_PAGES;
            && (Offset(a, v) >= n ==> Offset(a, v') == Offset(a, v) - n)
            && (Offset(a, v) < n ==> Offset(a, v') >= k)
  {
    hide PageNo;
  }

  /** `r` is `r1` with `r2` behind it. */
  ghost predicate Joined(r1: Region, r2: Region, r: Region) {
    && r1.pages + r2.pages == r.pages <= SPACE_PAGES && r1.hi <= r1.pages && r2.hi <= r2.pages && r.hi <= r.pages
    && r2.first == (r1.first + r1.pages) % SPACE_PAGES && r2.frame == r1.frame + r1.pages
    && r.first == r1.first && r.frame == r1.frame && r.present == r1.present == r2.present
    && (if r2.lo >= r2.hi then r.lo == r1.lo && r.hi == r1.hi
        else r1.lo >= r1.hi && r.lo == r1.pages + r2.lo && r.hi == r1.pages + r2.hi)
  }

  /** Two regions side by side are one region. */
  lemma RegionJoin(s0: Space, s1: Space, s2: Space, root: nat, r1: Region, r2: Region, r: Region)
    requires RegionEffect(s0, s1, root, r1) && RegionEffect(s1, s2, root, r2) && Joined(r1, r2, r)
    ensures RegionEffect(s0, s2, root, r)
  {
    hide Kept, Walk, PathOpen, UpperOpen, HugeAt, MarkedAt, Offset;
    KeptTransitive(s0, s1, s2);
    forall a
      ensures Walk(s2.mem, root, a) == RegionWalk(s0.mem, root, r, a)
      ensures SameHugeAt(s0, s2, r, a) && (r.present ==> SameOpenAt(s0.mem, s2.mem, root, r, a))
    {
      OffsetsJoin(a, r.first, r1.pages, r2.pages);
      assert Walk(s1.mem, root, a) == RegionWalk(s0.mem, root, r1, a);
      assert Walk(s2.mem, root, a) == RegionWalk(s1.mem, root, r2, a);
      assert SameHugeAt(s0, s1, r1, a) && SameHugeAt(s1, s2, r2, a);
      assert r.present ==> SameOpenAt(s0.mem, s1.mem, root, r1, a) && SameOpenAt(s1.mem, s2.mem, root, r2, a);
    }
  }

  // ----- the entries of the pages

  /** A page of the region has an entry with its frame and the flags that were asked for: a small one with the PAT bit
      in its place for pages, one from a 2 MiB page whatever the "table allocated" bit. All other pages keep theirs. */
  ghost predicate LeafInRegion(s0: Space, s1: Space, r: Region, flags: Flags, a: Address) {
    var e := Leaf(s1, a);
    if !r.Inside(a) then e == Leaf(s0, a)
    else
      && e.frame == r.frame + Offset(a, r.first)
      && e.flags == if r.Middle(a) then flags.(size := false, stab := e.flags.stab)
                    else flags.(pat := false, size := flags.pat)
  }

  /** And the entries of the upper tables keep what they allow; for a request with RW those above the region allow
      writing. */
  ghost predicate RegionLeaves(s0: Space, s1: Space, r: Region, flags: Flags) {
    && (forall a :: LeafInRegion(s0, s1, r, flags, a))
    && RightsKept(s0, s1, flags.rw) && (flags.rw ==> forall a :: r.Inside(a) ==> UpperAllows(s1, a))
  }

  lemma LeavesEmpty(s: Space, r: Region, flags: Flags)
    requires r.pages == 0
    ensures RegionLeaves(s, s, r, flags)
  {
    hide Leaf, Offset, UpperAllows, RightsKept;
    RightsUnchanged(s, flags.rw);
  }

  lemma NoLeavesTouched(s0: Space, s1: Space, r: Region, flags: Flags)
    requires RegionLeaves(s0, s1, r, flags) && r.pages == 0
    ensures SameLeaves(s0, s1)
  {
    hide Leaf, Offset, UpperAllows, RightsKept;
    forall a ensures Leaf(s1, a) == Leaf(s0, a) { assert LeafInRegion(s0, s1, r, flags, a); }
  }

  lemma LeavesPage(s0: Space, s1: Space, s2: Space, r: Region, at: Address, flags: Flags)
    requires RegionLeaves(s0, s1, r, flags) && r.lo <= r.hi <= r.pages && Offset(at, r.first) == r.pages
    requires Leaves4Kb(s1, s2, at, r.frame + r.pages, flags)
    ensures RegionLeaves(s0, s2, r.(pages := r.pages + 1), flags)
  {
    hide Leaf, Offset, Granted, UpperAllows, RightsKept;
    RightsKeptOn(s0, s1, s2, flags.rw);
    var r1 := r.(pages := r.pages + 1);
    forall a ensures LeafInRegion(s0, s2, r1, flags, a) && (flags.rw && r1.Inside(a) ==> UpperAllows(s2, a)) {
      if Offset(a, r.first) == r.pages { OffsetInjective(a, at, r.first); }
      assert LeafInRegion(s0, s1, r, flags, a);
    }
  }

  lemma LeavesHuge(s0: Space, s1: Space, s2: Space, r: Region, at: Address, e: Entry, flags: Flags)
    requires RegionLeaves(s0, s1, r, flags) && r.lo <= r.hi == r.pages && r.pages + 512 <= SPACE_PAGES
    requires Offset(at, r.first) == r.pages && at.page == 0 && e.frame == r.frame + r.pages
    requires LeavesSet(s1, s2, at, e) && e.flags == flags.(size := true, stab := e.flags.stab)
    requires UpperKept(s1, s2, at, flags.rw)
    ensures RegionLeaves(s0, s2, r.(pages := r.pages + 512, hi := r.pages + 512), flags)
  {
    hide Leaf, Offset, InSlot, UpperAllows, RightsKept;
    RightsKeptOn(s0, s1, s2, flags.rw);
    var r1 := r.(pages := r.pages + 512, hi := r.pages + 512);
    forall a ensures LeafInRegion(s0, s2, r1, flags, a) && (flags.rw && r1.Inside(a) ==> UpperAllows(s2, a)) {
      SameSlotPages(at, a, r.first, r.pages);
      if InSlot(at, a) { SameUpper(s2, at, a); }
      assert LeafInRegion(s0, s1, r, flags, a);
    }
  }

  lemma LeavesAttempt(s0: Space, s1: Space, s2: Space, r: Region, flags: Flags)
    requires RegionLeaves(s0, s1, r, flags) && Untouched(s1, s2, flags.rw)
    ensures RegionLeaves(s0, s2, r, flags)
  {
    hide Leaf, Offset, UpperAllows, RightsKept;
    RightsKeptOn(s0, s1, s2, flags.rw);
    forall a ensures LeafInRegion(s0, s2, r, flags, a) { assert LeafInRegion(s0, s1, r, flags, a); }
  }

  lemma LeavesUnsplit(s0: Space, s1: Space, r: Region, flags: Flags, at: nat)
    requires RegionLeaves(s0, s1, r, flags) && r.lo >= r.hi
    ensures RegionLeaves(s0, s1, r.(lo := at, hi := at), flags)
  {
    hide Leaf, Offset, UpperAllows, RightsKept;
    var r1 := r.(lo := at, hi := at);
    forall a ensures LeafInRegion(s0, s1, r1, flags, a) {
      assert LeafInRegion(s0, s1, r, flags, a);
    }
  }

  lemma LeavesJoin(s0: Space, s1: Space, s2: Space, r1: Region, r2: Region, r: Region, flags: Flags)
    requires RegionLeaves(s0, s1, r1, flags) && RegionLeaves(s1, s2, r2, flags) && Joined(r1, r2, r)
    ensures RegionLeaves(s0, s2, r, flags)
  {
    hide Leaf, Offset, UpperAllows, RightsKept;
    RightsKeptOn(s0, s1, s2, flags.rw);
    forall a ensures LeafInRegion(s0, s2, r, flags, a) && (flags.rw && r.Inside(a) ==> UpperAllows(s2, a)) {
      OffsetsJoin(a, r.first, r1.pages, r2.pages);
      assert LeafInRegion(s0, s1, r1, flags, a) && LeafInRegion(s1, s2, r2, flags, a);
    }
  }

  lemma SameUpper(s: Space, at: Address, a: Address)
    requires InSlot(at, a)
    ensures UpperAllows(s, a) <==> UpperAllows(s, at)
  {
    hide Above;
    SlotPath(at, a);
  }

  // ----- small and large pages agree

  lemma PathOpenUpperOpen(m: Frames, root: nat, a: Address)
    requires PathOpen(m, root, a)
    ensures UpperOpen(m, root, a)
  {
    PathOpenIsOpen(m, root, a);
    OpenFurther(m, root, 0, a);
  }

  lemma {:induction false} OpenFurther(m: Frames, f: nat, level: nat, a: Address)
    requires level <= 2 && Open(m, f, level, 2, a)
    ensures Open(m, f, level, 1, a)
    decreases 2 - level
  {
    hide Slot;
    if level < 2 {
      var e := Slot(m, f, IndexAt(a, level));
      if e != ZERO { OpenFurther(m, e.frame, level + 1, a); }
    }
  }

  /** Mapping a region by small pages, and mapping it with 2 MiB pages in the middle, give the same translation of
      every address exactly when no page of the middle lies below a directory entry that is there but not present. */
  lemma SameRegionSameWalk(s0: Space, s1: Space, s2: Space, root: nat, r: Region, r': Region)
    requires r' == r.(lo := r'.lo, hi := r'.hi) && r.lo >= r.hi && r'.hi <= r.pages
    requires RegionEffect(s0, s1, root, r) && RegionEffect(s0, s2, root, r')
    ensures SameWalk(s1.mem, s2.mem, root) <==>
              (r.present ==> forall a :: r'.Middle(a) && UpperOpen(s0.mem, root, a) ==> PathOpen(s0.mem, root, a))
  {
    hide Walk, Kept, HugeAt, MarkedAt, Offset, UpperOpen, PathOpen, SameHugeAt, SameOpenAt;
    forall a
      ensures Walk(s2.mem, root, a) == Walk(s1.mem, root, a) <==>
                (r.present && r'.Middle(a) && UpperOpen(s0.mem, root, a) ==> PathOpen(s0.mem, root, a))
    {
      if PathOpen(s0.mem, root, a) { PathOpenUpperOpen(s0.mem, root, a); }
      assert Walk(s1.mem, root, a) == RegionWalk(s0.mem, root, r, a);
      assert Walk(s2.mem, root, a) == RegionWalk(s0.mem, root, r', a);
    }
  }

  /** The upper entries are open and the whole path is not: the directory entry is there and not present. */
  lemma ClosedByDirectoryEntry(m: Frames, root: nat, a: Address)
    ensures var e4 := Slot(m, root, a.pdp); var e3 := Slot(m, e4.frame, a.pd); var e2 := Slot(m, e3.frame, a.pt);
            UpperOpen(m, root, a) && !PathOpen(m, root, a) <==>
              e4.flags.present && e3.flags.present && e2 != ZERO && !e2.flags.present
  {
    hide Slot;
    var e4 := Slot(m, root, a.pdp); var e3 := Slot(m, e4.frame, a.pd); var e2 := Slot(m, e3.frame, a.pt);
    UpperOpenUnfolded(m, root, a);
    assert Open(m, e3.frame, 2, 2, a) <==> e2 == ZERO || e2.flags.present;
    assert Open(m, e4.frame, 1, 2, a) <==> e3 == ZERO || (e3.flags.present && Open(m, e3.frame, 2, 2, a));
  }
}
