/** Merging address spaces (pager.rs, `occupation_check` and `bind_other`). */
module Merging {
  import opened Memory
  import opened Allocators
  import opened Paging
  import opened PagingSteps
  import opened PagerEffects
  import opened Rights
  import opened Plans
  import opened RegionEffects
  import opened Pagers
  import opened Mapping

  // ----- occupation_check

  /** The two upper entries of `a` are present: something in the same 1 GiB may be mapped. */
  predicate UpperPresent(m: Frames, root: nat, a: Address) {
    && Slot(m, root, a.pdp).flags.present
    && Slot(m, Slot(m, root, a.pdp).frame, a.pd).flags.present
  }

  /** What makes `occupation_check` answer true. */
  predicate Alarm(m: Frames, root: nat, otherRoot: nat, a: Address) {
    Walk(m, root, a).Some? && UpperPresent(m, otherRoot, a)
  }

  method OccupationCheck(pager: Pager, other: Pager) returns (r: bool)
    requires pager.Valid() && other.Valid() && pager.memory == other.memory
    ensures r <==> exists a :: Alarm(pager.memory.frames, pager.cr3, other.cr3, a)
  {
    hide Slot, Walk, Tree;
    ghost var m := pager.memory.frames;
    for pdpi := 0 to 512
      invariant forall a: Address :: a.pdp < pdpi ==> !Alarm(m, pager.cr3, other.cr3, a)
    {
      forall a: Address ensures WalkFacts(m, pager.cr3, a) && WalkFacts(m, other.cr3, a) {
        WalkUnfolded(m, pager.tables, a);
        WalkUnfolded(m, other.tables, a);
      }
      var selfPdpt := pager.Top(pdpi, NO_FLAGS);
      var otherPdpt := other.Top(pdpi, NO_FLAGS);
      if !other.Read(otherPdpt).flags.present || !pager.Read(selfPdpt).flags.present {
        forall a: Address | a.pdp == pdpi
          ensures !Alarm(m, pager.cr3, other.cr3, a) { assert WalkFacts(m, pager.cr3, a); }
        continue;
      }
      for pdi := 0 to 512
        invariant forall a: Address :: a.pdp == pdpi && a.pd < pdi ==> !Alarm(m, pager.cr3, other.cr3, a)
      {
        assert WalkFacts(m, pager.cr3, Address(pdpi, pdi, 0, 0)) && WalkFacts(m, other.cr3, Address(pdpi, pdi, 0, 0));
        var selfPdt := pager.Instantiate(selfPdpt, pdi).value;
        var otherPdt := other.Instantiate(otherPdpt, pdi).value;
        if !other.Read(otherPdt).flags.present || !pager.Read(selfPdt).flags.present {
          forall a: Address | a.pdp == pdpi && a.pd == pdi
            ensures !Alarm(m, pager.cr3, other.cr3, a) { assert WalkFacts(m, pager.cr3, a); }
          continue;
        }
        for pti := 0 to 512
          invariant forall a: Address ::
              a.pdp == pdpi && a.pd == pdi && a.pt < pti ==> !Alarm(m, pager.cr3, other.cr3, a)
        {
          var selfPt := pager.Instantiate(selfPdt, pti).value;
          // both cursors are taken from the first pager
          var otherPt := pager.Instantiate(selfPdt, pti).value;
          if !pager.Read(otherPt).flags.present || !pager.Read(selfPt).flags.present {
            forall a: Address | a.pdp == pdpi && a.pd == pdi && a.pt == pti ensures !Alarm(m, pager.cr3, other.cr3, a) {
              assert WalkFacts(m, pager.cr3, a);
            }
            continue;
          }
          var otherFlags, selfFlags := pager.Read(otherPt).flags, pager.Read(selfPt).flags;
          if (otherFlags.size || selfFlags.size) && (otherFlags.present || selfFlags.present) {
            ghost var a := Address(pdpi, pdi, pti, 0);
            assert WalkFacts(m, pager.cr3, a);
            assert Alarm(m, pager.cr3, other.cr3, a);
            return true;
          }
          for pi := 0 to 512
            invariant forall a: Address ::
                a.pdp == pdpi && a.pd == pdi && a.pt == pti && a.page < pi ==> !Alarm(m, pager.cr3, other.cr3, a)
          {
            var selfPage := Slot(pager.memory.frames, selfPt.address, pi);
            var otherPage := Slot(pager.memory.frames, otherPt.address, pi);
            ghost var a := Address(pdpi, pdi, pti, pi);
            assert WalkFacts(m, pager.cr3, a);
            if selfPage.flags.present && otherPage.flags.present {
              assert Alarm(m, pager.cr3, other.cr3, a);
              return true;
            }
          }
        }
      }
    }
    return false;
  }

  /** The unfolded walk as one fact. */
  ghost predicate WalkFacts(m: Frames, root: nat, a: Address) {
    var e4 := Slot(m, root, a.pdp);
    var e3 := Slot(m, e4.frame, a.pd);
    var e2 := Slot(m, e3.frame, a.pt);
    var e1 := Slot(m, e2.frame, a.page);
    && !e4.flags.size
    && (e4.flags.present ==> !e3.flags.size)
    && Walk(m, root, a) ==
       if !e4.flags.present || !e3.flags.present || !e2.flags.present then None
       else if e2.flags.size then Some(e2.frame + a.page)
       else if e1.flags.present then Some(e1.frame) else None
  }

  /** The check never misses a collision. */
  lemma NoAlarmNoCollision(m: Frames, t: Tables, o: Tables)
    requires Tree(m, t) && Tree(m, o)
    ensures Root in t && Root in o
    ensures (forall a :: !Alarm(m, t[Root], o[Root], a)) ==>
              forall a :: !(Walk(m, t[Root], a).Some? && Walk(m, o[Root], a).Some?)
  {
    hide Walk, Tree, Slot;
    TreeParts(m, t);
    TreeParts(m, o);
    forall a | Walk(m, t[Root], a).Some? && Walk(m, o[Root], a).Some? ensures Alarm(m, t[Root], o[Root], a) {
      WalkUnfolded(m, o, a);
    }
  }

  /** Two small address spaces: the tables 0 to 3 map page 0 to frame 9, the tables 4 to 6 map nothing. */
  function ExampleMemory(): Frames {
    var up := (f: nat) => EmptyTable()[0 := Entry(f, NO_FLAGS.(present := true, stab := true))];
    map[0 := up(1), 1 := up(2), 2 := up(3), 3 := up(9), 4 := up(5), 5 := up(6), 6 := EmptyTable()]
  }

  const AT_ZERO := Address(0, 0, 0, 0)

  function ExampleTables(): Tables {
    map[Root := 0, TablePos(AT_ZERO, 1) := 1, TablePos(AT_ZERO, 2) := 2, TablePos(AT_ZERO, 3) := 3]
  }

  function EmptyTables(): Tables {
    map[Root := 4, TablePos(AT_ZERO, 1) := 5, TablePos(AT_ZERO, 2) := 6]
  }

  lemma ExampleSlots(f: nat, i: Index)
    requires f <= 6
    ensures Slot(ExampleMemory(), f, i) ==
            if i == 0 && f != 6 then Entry(if f == 3 then 9 else f + 1, NO_FLAGS.(present := true, stab := true))
              else ZERO
    ensures f in ExampleMemory() && |ExampleMemory()[f]| == 512
  {
    EmptyTableIsZero();
  }

  lemma ExampleTree(t: Tables)
    requires t == ExampleTables() || t == EmptyTables()
    ensures Tree(ExampleMemory(), t)
  {
    hide Slot, ExampleMemory, TablePos;
    TablePosAre(AT_ZERO);
    forall p | p in t ensures t[p] in ExampleMemory() && |ExampleMemory()[t[p]]| == 512 { ExampleSlots(t[p], 0); }
    forall p, i: Index | p in t && Level(p) < 3 ensures SlotOk(t, p, i, Slot(ExampleMemory(), t[p], i)) {
      ExampleSlots(t[p], i);
    }
  }

  /** The alarm can be false: the second address space maps nothing at all, but has the two upper tables
      for the region in which the first one maps a page. */
  lemma FalseAlarm()
    ensures Tree(ExampleMemory(), ExampleTables()) && Tree(ExampleMemory(), EmptyTables())
    ensures exists a :: Alarm(ExampleMemory(), ExampleTables()[Root], EmptyTables()[Root], a)
    ensures forall a :: Walk(ExampleMemory(), EmptyTables()[Root], a) == None
  {
    hide Slot, ExampleMemory, Tree;
    TablePosAre(AT_ZERO);
    assert ExampleTables()[Root] == 0 && EmptyTables()[Root] == 4;
    ExampleTree(ExampleTables());
    ExampleTree(EmptyTables());
    forall f: nat, i: Index | f <= 6
      ensures Slot(ExampleMemory(), f, i) ==
              if i == 0 && f != 6 then Entry(if f == 3 then 9 else f + 1, NO_FLAGS.(present := true, stab := true))
                else ZERO
    {
      ExampleSlots(f, i);
    }
    assert Alarm(ExampleMemory(), ExampleTables()[Root], EmptyTables()[Root], AT_ZERO);
  }

  // ----- bind_other

  /** Address `b` belongs to page number `Offset(b, vb)` of the other address space. */
  function Source(b: Address, vb: PageNumber): Address { FromPageNo(Offset(b, vb)) }

  /** How `b` translates once the pages of the other address space below number `c` have been taken over, `vb` pages
      further up: a page that is taken over is reached if every entry that was on its path is present. */
  ghost function BoundWalk(m: Frames, root: nat, other: nat, vb: PageNumber, c: nat, b: Address): Option<nat> {
    if Offset(b, vb) < c && Walk(m, other, Source(b, vb)).Some?
    then if PathOpen(m, root, b) then Walk(m, other, Source(b, vb)) else None
    else Walk(m, root, b)
  }

  ghost predicate BindEffect(s0: Space, s1: Space, root: nat, other: nat, vb: PageNumber, c: nat) {
    && Kept(s0, s1)
    && SameOpen(s0.mem, s1.mem, root)
    && forall b :: Walk(s1.mem, root, b) == BoundWalk(s0.mem, root, other, vb, c, b)
  }

  function LeafOf(m: Frames, root: nat, a: Address): Entry {
    Slot(m, Slot(m, Slot(m, Slot(m, root, a.pdp).frame, a.pd).frame, a.pt).frame, a.page)
  }

  function LowBits(f: Flags): Flags { f.(pat := false, high := 0) }

  /** A page that is taken over has the flags it had in the other address space, and all others keep their entries. */
  ghost predicate BoundLeaf(s0: Space, s1: Space, other: nat, vb: PageNumber, c: nat, b: Address) {
    var from := Source(b, vb);
    Leaf(s1, b) == if Offset(b, vb) < c && Walk(s0.mem, other, from).Some?
                   then Entry(Walk(s0.mem, other, from).value,
                              LeafOf(s0.mem, other, from).flags.(pat := false, high := 0))
                   else Leaf(s0, b)
  }

  ghost predicate BindLeaves(s0: Space, s1: Space, other: nat, vb: PageNumber, c: nat) {
    forall b :: BoundLeaf(s0, s1, other, vb, c, b)
  }

  lemma LeavesStart(s: Space, other: nat, vb: PageNumber)
    ensures BindLeaves(s, s, other, vb, 0)
  {
    hide Leaf, Walk, LeafOf, FromPageNo, Offset;
  }

  lemma BindLeavesPage(s0: Space, s1: Space, s2: Space, other: nat, vb: PageNumber, c: PageNumber, at: Address,
                       frame: nat)
    requires BindLeaves(s0, s1, other, vb, c) && Offset(at, vb) == c
    requires Walk(s0.mem, other, FromPageNo(c)) == Some(frame)
    requires !Rejected(LowBits(LeafOf(s0.mem, other, FromPageNo(c)).flags))
    requires Leaves4Kb(s1, s2, at, frame, LowBits(LeafOf(s0.mem, other, FromPageNo(c)).flags))
    ensures BindLeaves(s0, s2, other, vb, c + 1)
  {
    hide Leaf, Walk, LeafOf, FromPageNo, Offset, Granted;
    var next := c + 1;
    forall b ensures BoundLeaf(s0, s2, other, vb, next, b) {
      if Offset(b, vb) == c { OffsetInjective(b, at, vb); }
      assert BoundLeaf(s0, s1, other, vb, c, b);
    }
  }

  lemma BindLeavesSkip(s0: Space, s1: Space, other: nat, vb: PageNumber, c: nat, d: nat)
    requires BindLeaves(s0, s1, other, vb, c) && c <= d <= SPACE_PAGES
    requires forall a :: c <= PageNo(a) < d ==> Walk(s0.mem, other, a) == None
    ensures BindLeaves(s0, s1, other, vb, d)
  {
    hide Leaf, Walk, LeafOf, PageNo, FromPageNo, Offset;
    forall b ensures BoundLeaf(s0, s1, other, vb, d, b) {
      assert PageNo(Source(b, vb)) == Offset(b, vb);
      assert BoundLeaf(s0, s1, other, vb, c, b);
    }
  }

  lemma BindLeavesAttempt(s0: Space, s1: Space, s2: Space, other: nat, vb: PageNumber, c: nat)
    requires BindLeaves(s0, s1, other, vb, c) && SameLeaves(s1, s2)
    ensures BindLeaves(s0, s2, other, vb, c)
  {
    hide Leaf, Walk, LeafOf, FromPageNo, Offset;
    forall b ensures BoundLeaf(s0, s2, other, vb, c, b) { assert BoundLeaf(s0, s1, other, vb, c, b); }
  }

  /** Only small pages, with flags `page_4_kb` accepts. */
  ghost predicate Acceptable(m: Frames, t: Tables) {
    Root in t && forall a :: Walk(m, t[Root], a).Some? ==> AcceptablePage(m, t, a)
  }

  ghost predicate AcceptablePage(m: Frames, t: Tables, a: Address) {
    Root in t && !HugeAt(m, t, a) && !Rejected(LowBits(LeafOf(m, t[Root], a).flags))
  }

  /** The pages that are mapped for the pages of the other address space below number `c`. */
  ghost function BindPlan(m: Frames, other: nat, base: nat, c: nat): seq<PageStep>
    requires c <= SPACE_PAGES
  {
    if c == 0 then []
    else
      BindPlan(m, other, base, c - 1)
      + if Walk(m, other, FromPageNo(c - 1)).Some? then [Small(Translate(base + (c - 1) * 0x1000))] else []
  }

  lemma {:induction false} BindPlanGrows(m: Frames, other: nat, base: nat, c: nat, d: nat)
    requires c <= d <= SPACE_PAGES
    ensures BindPlan(m, other, base, c) <= BindPlan(m, other, base, d)
    decreases d - c
  {
    hide Walk, FromPageNo, Translate;
    if c < d {
      BindPlanGrows(m, other, base, c, d - 1);
    }
  }

  lemma {:induction false} BindPlanSkips(m: Frames, other: nat, base: nat, c: nat, d: nat)
    requires c <= d <= SPACE_PAGES && forall a :: c <= PageNo(a) < d ==> Walk(m, other, a) == None
    ensures BindPlan(m, other, base, d) == BindPlan(m, other, base, c)
    decreases d - c
  {
    hide Walk, FromPageNo, Translate, PageNo;
    if c < d {
      BindPlanSkips(m, other, base, c, d - 1);
      assert PageNo(FromPageNo(d - 1)) == d - 1;
    }
  }

  lemma BindStart(s: Space, root: nat, other: nat, vb: PageNumber)
    requires Tree(s.mem, s.tables) && s.tables.Values <= s.used <= s.range
    ensures BindEffect(s, s, root, other, vb, 0)
  {
    hide Walk, Tree, PathOpen, UpperOpen, FromPageNo, Offset;
    TreeParts(s.mem, s.tables);
  }

  lemma BindPage(s0: Space, s1: Space, s2: Space, root: nat, other: nat,
                 vb: PageNumber, c: PageNumber, at: Address, frame: nat)
    requires BindEffect(s0, s1, root, other, vb, c)
    requires Mapped(s1, s2, root, at, frame, true) && Offset(at, vb) == c
    requires Walk(s0.mem, other, FromPageNo(c)) == Some(frame)
    ensures BindEffect(s0, s2, root, other, vb, c + 1)
  {
    hide Kept, Walk, PathOpen, UpperOpen, HugeAt, Offset, FromPageNo, Extends, NoNewHuge;
    KeptTransitive(s0, s1, s2);
    SameOpenTransitive(s0.mem, s1.mem, s2.mem, root);
    forall b ensures Walk(s2.mem, root, b) == BoundWalk(s0.mem, root, other, vb, c + 1, b) {
      if Offset(b, vb) == c { OffsetInjective(b, at, vb); }
      assert Walk(s1.mem, root, b) == BoundWalk(s0.mem, root, other, vb, c, b);
    }
  }

  /** Pages the other address space does not map are passed over. */
  lemma BindSkip(s0: Space, s1: Space, root: nat, other: nat, vb: PageNumber, c: nat, d: nat)
    requires BindEffect(s0, s1, root, other, vb, c) && c <= d <= SPACE_PAGES
    requires forall a :: c <= PageNo(a) < d ==> Walk(s0.mem, other, a) == None
    ensures BindEffect(s0, s1, root, other, vb, d)
  {
    hide Kept, Walk, PathOpen, Offset, SameOpen, PageNo, FromPageNo;
    forall b ensures Walk(s1.mem, root, b) == BoundWalk(s0.mem, root, other, vb, d, b) {
      assert PageNo(Source(b, vb)) == Offset(b, vb);
      assert Walk(s1.mem, root, b) == BoundWalk(s0.mem, root, other, vb, c, b);
    }
  }

  lemma BindAttempt(s0: Space, s1: Space, s2: Space, root: nat, other: nat, vb: PageNumber, c: nat)
    requires BindEffect(s0, s1, root, other, vb, c) && Prepared(s1, s2, root, true)
    ensures BindEffect(s0, s2, root, other, vb, c)
  {
    hide Kept, Walk, PathOpen, UpperOpen, HugeAt, Offset, FromPageNo, Extends, NoNewHuge;
    KeptTransitive(s0, s1, s2);
    SameOpenTransitive(s0.mem, s1.mem, s2.mem, root);
    forall b ensures Walk(s2.mem, root, b) == BoundWalk(s0.mem, root, other, vb, c, b) {
      assert Walk(s1.mem, root, b) == BoundWalk(s0.mem, root, other, vb, c, b);
    }
  }

  /** With no alarm and no offset nothing that was mapped changes, and the result is the disjoint union of the two
      address spaces exactly when every page that is taken over has an open path. */
  lemma BoundIsDisjointUnion(s0: Space, s1: Space, root: nat, o: Tables)
    requires Tree(s0.mem, s0.tables) && Tree(s0.mem, o) && Root in s0.tables && Root in o && s0.tables[Root] == root
    requires forall a :: !Alarm(s0.mem, root, o[Root], a)
    requires BindEffect(s0, s1, root, o[Root], 0, SPACE_PAGES)
    ensures forall a :: Walk(s0.mem, root, a).Some? ==> Walk(s1.mem, root, a) == Walk(s0.mem, root, a)
    ensures forall a :: Walk(s0.mem, o[Root], a).Some? ==>
              Walk(s1.mem, root, a) == if PathOpen(s0.mem, root, a) then Walk(s0.mem, o[Root], a) else None
    ensures (forall a :: Walk(s1.mem, root, a).Some? <==> Walk(s0.mem, root, a).Some? != Walk(s0.mem, o[Root], a).Some?)
            <==> (forall a :: Walk(s0.mem, o[Root], a).Some? ==> PathOpen(s0.mem, root, a))
  {
    hide Walk, Tree, Kept, Alarm, SameOpen, Offset, PathOpen, FromPageNo;
    NoAlarmNoCollision(s0.mem, s0.tables, o);
    forall a
      ensures Walk(s1.mem, root, a) ==
              if Walk(s0.mem, o[Root], a).None? then Walk(s0.mem, root, a)
              else if PathOpen(s0.mem, root, a) then Walk(s0.mem, o[Root], a) else None
    {
      OffsetFromZero(a);
      PageNoInjective(Source(a, 0), a);
      assert Walk(s1.mem, root, a) == BoundWalk(s0.mem, root, o[Root], 0, SPACE_PAGES, a);
    }
  }

  lemma OffsetFromZero(a: Address)
    ensures Offset(a, 0) == PageNo(a)
  {
  }

  /** The number of a page from its four indices; an index may be 512, one past the end. */
  function Count(pdp: nat, pd: nat, pt: nat, page: nat): nat { page + 512 * (pt + 512 * (pd + 512 * pdp)) }

  // ----- what the loops of `bind_other` maintain

  /** The pages below `c` are taken over, all of them were accepted, and the other address space is as it was. */
  ghost predicate Binding(s0: Space, s1: Space, root: nat, o: Tables, base: nat, c: nat) {
    && Root in o && Tree(s0.mem, o) && Alien(s0, o) && c <= SPACE_PAGES
    && BindEffect(s0, s1, root, o[Root], VirtualPage(base), c) && BindLeaves(s0, s1, o[Root], VirtualPage(base), c)
    && forall a :: PageNo(a) < c && Walk(s0.mem, o[Root], a).Some? ==> base % PAGE == 0 && AcceptablePage(s0.mem, o, a)
  }

  /** And the frames taken are those of the plan. */
  ghost predicate Going(pager: Pager, a: Allocator, s0: Space, was: Supply, o: Tables, base: nat, c: nat)
    reads pager, pager.memory, a, a.bitmap
  {
    && pager.Uses(a) && Binding(s0, pager.Now(a), pager.cr3, o, base, c)
    && pager.TakenAll(s0.tables.Keys, was, BindPlan(s0.mem, o[Root], base, c), a)
    && Enough(s0.tables.Keys, was.free, BindPlan(s0.mem, o[Root], base, c))
    && Covers(was, s0.tables.Keys, BindPlan(s0.mem, o[Root], base, SPACE_PAGES))
  }

  /** Everything `bind_other` can trip over is absent. */
  ghost predicate Bindable(m: Frames, o: Tables, base: nat, t: set<Pos>, free: int) {
    && Root in o && Enough(t, free, BindPlan(m, o[Root], base, SPACE_PAGES))
    && forall a :: Walk(m, o[Root], a).Some? ==> base % PAGE == 0 && AcceptablePage(m, o, a)
  }

  /** Why binding can stop. */
  ghost predicate BindFailure(e: MemoryResult, m: Frames, o: Tables, base: nat, t: set<Pos>, free: int) {
    && Root in o && !Bindable(m, o, base, t, free)
    && if base % PAGE != 0 then e == InvalidAddress
       else (e == InvalidFlags && !Acceptable(m, o))
            || (e == Nospace && !Enough(t, free, BindPlan(m, o[Root], base, SPACE_PAGES)))
  }

  ghost predicate Stopped(pager: Pager, a: Allocator, s0: Space, was: Supply,
                          o: Tables, base: nat, c: nat, e: MemoryResult)
    reads pager, pager.memory, a, a.bitmap
  {
    && pager.Uses(a) && Binding(s0, pager.Now(a), pager.cr3, o, base, c)
    && BindFailure(e, s0.mem, o, base, s0.tables.Keys, was.free)
  }

  lemma PageAccepted(m: Frames, o: Tables, a: Address)
    requires AcceptablePage(m, o, a)
    ensures Root in o && !Rejected(LowBits(LeafOf(m, o[Root], a).flags))
  {
  }

  lemma BindingPage(s0: Space, s1: Space, s2: Space, root: nat, o: Tables, base: nat, a: Address, at: Address)
    requires Binding(s0, s1, root, o, base, PageNo(a)) && base % PAGE == 0 && AcceptablePage(s0.mem, o, a)
    requires Walk(s0.mem, o[Root], a).Some? && Offset(at, VirtualPage(base)) == PageNo(a)
    requires Mapped(s1, s2, root, at, Walk(s0.mem, o[Root], a).value, true)
    requires Leaves4Kb(s1, s2, at, Walk(s0.mem, o[Root], a).value, LowBits(LeafOf(s0.mem, o[Root], a).flags))
    ensures Binding(s0, s2, root, o, base, PageNo(a) + 1)
  {
    hide Walk, Tree, AcceptablePage, Mapped, BindEffect, BindLeaves, Leaves4Kb, LeafOf, Rejected, Offset, PageNo,
         VirtualPage;
    PageNoBound(a);
    PageNoInjective(FromPageNo(PageNo(a)), a);
    BindPage(s0, s1, s2, root, o[Root], VirtualPage(base), PageNo(a), at, Walk(s0.mem, o[Root], a).value);
    assert !Rejected(LowBits(LeafOf(s0.mem, o[Root], a).flags)) by { PageAccepted(s0.mem, o, a); }
    BindLeavesPage(s0, s1, s2, o[Root], VirtualPage(base), PageNo(a), at, Walk(s0.mem, o[Root], a).value);
    forall b | PageNo(b) < PageNo(a) + 1 && Walk(s0.mem, o[Root], b).Some? ensures AcceptablePage(s0.mem, o, b) {
      if PageNo(b) == PageNo(a) { PageNoInjective(a, b); }
    }
  }

  lemma BindingSkip(s0: Space, s1: Space, root: nat, o: Tables, base: nat, c: nat, d: nat)
    requires Binding(s0, s1, root, o, base, c) && c <= d <= SPACE_PAGES
    requires forall a :: c <= PageNo(a) < d ==> Walk(s0.mem, o[Root], a) == None
    ensures Binding(s0, s1, root, o, base, d)
  {
    hide Walk, Tree, AcceptablePage, BindEffect, BindLeaves, PageNo, VirtualPage;
    BindSkip(s0, s1, root, o[Root], VirtualPage(base), c, d);
    BindLeavesSkip(s0, s1, o[Root], VirtualPage(base), c, d);
  }

  lemma BindingAttempt(s0: Space, s1: Space, s2: Space, root: nat, o: Tables, base: nat, c: nat, write: bool)
    requires Binding(s0, s1, root, o, base, c) && Prepared(s1, s2, root, true) && Untouched(s1, s2, write)
    ensures Binding(s0, s2, root, o, base, c)
  {
    hide Walk, Tree, AcceptablePage, BindEffect, BindLeaves, SameLeaves, RightsKept, PageNo, Prepared, VirtualPage;
    BindLeavesAttempt(s0, s1, s2, o[Root], VirtualPage(base), c);
    BindAttempt(s0, s1, s2, root, o[Root], VirtualPage(base), c);
  }

  /** While binding goes on, the slots of the other pager read as they did at the start. */
  lemma BindingReads(s0: Space, s1: Space, root: nat, o: Tables, base: nat, c: nat, p: Pos, i: Index)
    requires Binding(s0, s1, root, o, base, c) && p in o
    ensures Slot(s1.mem, o[p], i) == Slot(s0.mem, o[p], i)
  {
    hide Tree, Slot, BindLeaves, Walk, AcceptablePage, Alien, Kept;
    AlienUntouched(s0, s1, o);
  }

  lemma GoingSkip(pager: Pager, a: Allocator, s0: Space, was: Supply, o: Tables, base: nat, c: nat, d: nat)
    requires Going(pager, a, s0, was, o, base, c) && c <= d <= SPACE_PAGES
    requires forall b :: c <= PageNo(b) < d ==> Walk(s0.mem, o[Root], b) == None
    ensures Going(pager, a, s0, was, o, base, d)
  {
    hide pager.Uses, Binding, Enough, Covers, AfterAll, CostAll, Walk, PageNo;
    assert Root in o by { BindingHas(s0, pager.Now(a), pager.cr3, o, base, c); }
    BindingSkip(s0, pager.Now(a), pager.cr3, o, base, c, d);
    BindPlanSkips(s0.mem, o[Root], base, c, d);
  }

  lemma BindingHas(s0: Space, s1: Space, root: nat, o: Tables, base: nat, c: nat)
    requires Binding(s0, s1, root, o, base, c)
    ensures Root in o && c <= SPACE_PAGES && Tree(s0.mem, o)
  {
  }

  // ----- where the loops are in the other tree

  ghost predicate InPdpt(m: Frames, o: Tables, at: Address) {
    && Root in o && TablePos(at, 1) in o
    && var e := Slot(m, o[Root], at.pdp); e.flags.present && !e.flags.size && o[TablePos(at, 1)] == e.frame
  }

  ghost predicate InDirectory(m: Frames, o: Tables, at: Address) {
    && InPdpt(m, o, at) && TablePos(at, 2) in o
    && var e := Slot(m, o[TablePos(at, 1)], at.pd); e.flags.present && !e.flags.size && o[TablePos(at, 2)] == e.frame
  }

  ghost predicate InTable(m: Frames, o: Tables, at: Address) {
    && InDirectory(m, o, at) && TablePos(at, 3) in o
    && var e := Slot(m, o[TablePos(at, 2)], at.pt); e.flags.present && !e.flags.size && o[TablePos(at, 3)] == e.frame
  }

  lemma StepDown(m: Frames, o: Tables, at: Address)
    requires Tree(m, o)
    ensures Root in o
    ensures Slot(m, o[Root], at.pdp).flags.present ==> InPdpt(m, o, at)
    ensures InPdpt(m, o, at) && Slot(m, o[TablePos(at, 1)], at.pd).flags.present ==> InDirectory(m, o, at)
    ensures InDirectory(m, o, at) ==>
        var e := Slot(m, o[TablePos(at, 2)], at.pt);
        && (e.flags.present && !e.flags.size ==> InTable(m, o, at))
        && (e.flags.size ==> e.frame % 512 == 0)
  {
    hide Slot;
    TreeParts(m, o);
    TablePosAre(at);
    SlotFacts(m, o, Root, at.pdp);
    if TablePos(at, 1) in o { SlotFacts(m, o, TablePos(at, 1), at.pd); }
    if TablePos(at, 2) in o { SlotFacts(m, o, TablePos(at, 2), at.pt); }
  }

  /** The walk of an address, from where the loops are. */
  lemma WalkHere(m: Frames, o: Tables, a: Address)
    requires Tree(m, o) && Root in o
    ensures !Slot(m, o[Root], a.pdp).flags.present ==> Walk(m, o[Root], a) == None
    ensures InPdpt(m, o, a) && !Slot(m, o[TablePos(a, 1)], a.pd).flags.present ==> Walk(m, o[Root], a) == None
    ensures InDirectory(m, o, a) ==>
              var e2 := Slot(m, o[TablePos(a, 2)], a.pt);
              && (!e2.flags.present ==> Walk(m, o[Root], a) == None)
              && (e2.flags.present && e2.flags.size ==> Walk(m, o[Root], a).Some? && HugeAt(m, o, a))
              && (!e2.flags.size ==> !HugeAt(m, o, a))
    ensures InTable(m, o, a) ==>
              var e1 := Slot(m, o[TablePos(a, 3)], a.page);
              && LeafOf(m, o[Root], a) == e1 && Walk(m, o[Root], a) == if e1.flags.present then Some(e1.frame) else None
  {
    hide Slot, TablePos, Walk;
    WalkUnfolded(m, o, a);
  }

  lemma SamePdp(a: Address, i: nat)
    requires Count(i, 0, 0, 0) <= PageNo(a) < Count(i + 1, 0, 0, 0)
    ensures a.pdp == i
  {
  }

  lemma SamePd(a: Address, i: nat, j: nat)
    requires i < 512 && j < 512 && Count(i, j, 0, 0) <= PageNo(a) < Count(i, j + 1, 0, 0)
    ensures a.pdp == i && a.pd == j
  {
  }

  lemma SamePt(a: Address, i: nat, j: nat, k: nat)
    requires i < 512 && j < 512 && k < 512 && Count(i, j, k, 0) <= PageNo(a) < Count(i, j, k + 1, 0)
    ensures a.pdp == i && a.pd == j && a.pt == k
  {
    assert i * 512 + j <= PageNo(a) / 512 / 512 < i * 512 + j + 1;
  }

  // ----- the loops

  lemma LowBitsPresent(f: Flags)
    ensures LowBits(f).present == f.present && LowBits(f).rw == f.rw && LowBits(f).(pat := false) == LowBits(f)
  {
  }

  lemma IntoAddressPages(base: nat, a: Address)
    ensures IntoAddress(a) == PageNo(a) * 0x1000
    ensures (base + IntoAddress(a)) % PAGE == base % PAGE
    ensures Offset(Translate(base + IntoAddress(a)), VirtualPage(base)) == PageNo(a)
  {
    hide Offset, Translate, IntoAddress, PageNo, VirtualPage;
    PageNoBound(a);
    IntoAddressIsPage(a);
    PagesAbove(base, PageNo(a));
    OffsetOfTranslate(base, PageNo(a));
  }

  lemma IntoAddressIsPage(a: Address)
    ensures IntoAddress(a) == PageNo(a) * 0x1000
  {
  }

  lemma PlanAt(m: Frames, other: nat, base: nat, from: Address)
    requires Walk(m, other, from).Some?
    ensures PageNo(from) + 1 <= SPACE_PAGES
    ensures var p, c, full :=
        Small(Translate(base + IntoAddress(from))), PageNo(from), BindPlan(m, other, base, SPACE_PAGES);
            var part, next := BindPlan(m, other, base, c), BindPlan(m, other, base, c + 1);
            && next == part + [p] && |part| < |full| && full[..|part|] == part && full[|part|] == p
              && full[..|part| + 1] == next
  {
    hide Walk, PageNo, Translate, IntoAddress;
    PageNoBound(from);
    var c := PageNo(from);
    PageNoInjective(FromPageNo(c), from);
    IntoAddressIsPage(from);
    BindPlanGrows(m, other, base, c, SPACE_PAGES);
    BindPlanGrows(m, other, base, c + 1, SPACE_PAGES);
    var part, next, full :=
      BindPlan(m, other, base, c), BindPlan(m, other, base, c + 1), BindPlan(m, other, base, SPACE_PAGES);
    assert next == part + [Small(Translate(base + IntoAddress(from)))];
    assert full[|part|] == next[|part|];
  }

  /** The next page of the plan is that of `from`. */
  lemma NextInPlan(pager: Pager, a: Allocator, s0: Space, was: Supply, o: Tables, base: nat, from: Address)
    requires Going(pager, a, s0, was, o, base, PageNo(from)) && Root in o && Walk(s0.mem, o[Root], from).Some?
    ensures PageNo(from) + 1 <= SPACE_PAGES
    ensures var p, next :=
        Small(Translate(base + IntoAddress(from))), BindPlan(s0.mem, o[Root], base, PageNo(from) + 1);
            && next == BindPlan(s0.mem, o[Root], base, PageNo(from)) + [p]
            && a.Supplies(Missing(pager.tables.Keys, p))
            && (Missing(pager.tables.Keys, p) <= a.FreeFrames() <==> Enough(s0.tables.Keys, was.free, next))
            && (Enough(s0.tables.Keys, was.free, BindPlan(s0.mem, o[Root], base, SPACE_PAGES)) ==>
                  Enough(s0.tables.Keys, was.free, next))
  {
    hide pager.Uses, pager.TakenAll, Binding, Enough, Covers, AfterAll,
         CostAll, Walk, PageNo, Translate, IntoAddress, Missing, BindPlan;
    PlanAt(s0.mem, o[Root], base, from);
    var full, part := BindPlan(s0.mem, o[Root], base, SPACE_PAGES), BindPlan(s0.mem, o[Root], base, PageNo(from));
    pager.PlanGoesOn(a, s0.tables.Keys, was, full, |part|);
  }

  /** One entry of a table of the other pager. */
  method BindEntry(pager: Pager, base: nat, ghost o: Tables, a: Allocator, raw: Entry, from: Address,
                   ghost s0: Space, ghost was: Supply) returns (r: Option<MemoryResult>)
    requires Going(pager, a, s0, was, o, base, PageNo(from)) && Root in o
    requires LeafOf(s0.mem, o[Root], from) == raw && !HugeAt(s0.mem, o, from)
    requires Walk(s0.mem, o[Root], from) == if raw.flags.present then Some(raw.frame) else None
    modifies pager`tables, pager.memory, a`current, a.bitmap
    ensures r.None? ==> Going(pager, a, s0, was, o, base, PageNo(from) + 1)
    ensures r.Some? ==> Stopped(pager, a, s0, was, o, base, PageNo(from), r.value)
  {
    hide pager.Uses, Binding, Mapped, Prepared, Leaves4Kb, Untouched, Allowed, Upper, Used, Unused, FrameRange,
         HugeAt, LeafOf, Rejected, VirtualPage, Offset, Walk, Translate, IntoAddress, PageNo, BindPlan, Enough,
         Covers, AfterAll, CostAll, Missing, Cost, After;
    ghost var s1, now := pager.Now(a), a.Stock();
    if raw.flags.present {
      NextInPlan(pager, a, s0, was, o, base, from);
      IntoAddressPages(base, from);
      LowBitsPresent(raw.flags);
      var p := pager.Page4Kb(base + IntoAddress(from), raw.frame * PAGE, LowBits(raw.flags), a);
      if p.Err? {
        BindingAttempt(s0, s1, pager.Now(a), pager.cr3, o, base, PageNo(from), raw.flags.rw);
        return Some(p.error);
      }
      BindingPage(s0, s1, pager.Now(a), pager.cr3, o, base, from, Translate(base + IntoAddress(from)));
      ghost var next := BindPlan(s0.mem, o[Root], base, PageNo(from) + 1);
      assert next[..|next| - 1] == BindPlan(s0.mem, o[Root], base, PageNo(from)) && next[..|next|] == next;
      pager.PlanTaken(a, s0.tables.Keys, was, next, |next| - 1, now);
    } else {
      forall b | PageNo(from) <= PageNo(b) < PageNo(from) + 1
        ensures Walk(s0.mem, o[Root], b) == None { PageNoInjective(b, from); }
      PageNoBound(from);
      GoingSkip(pager, a, s0, was, o, base, PageNo(from), PageNo(from) + 1);
    }
    return None;
  }

  /** The loop over the pages of one table of the other pager. */
  method BindTable(pager: Pager, base: nat, other: Pager, a: Allocator, table: nat, at: Address,
                   ghost s0: Space, ghost was: Supply) returns (r: Option<MemoryResult>, ghost done: nat)
    requires pager != other && Going(pager, a, s0, was, other.tables, base, Count(at.pdp, at.pd, at.pt, 0))
    requires InTable(s0.mem, other.tables, at) && table == other.tables[TablePos(at, 3)]
    modifies pager`tables, pager.memory, a`current, a.bitmap
    ensures r.None? ==> done == Count(at.pdp, at.pd, at.pt, 512) && Going(pager, a, s0, was, other.tables, base, done)
    ensures r.Some? ==> Stopped(pager, a, s0, was, other.tables, base, done, r.value)
  {
    hide pager.Uses, Binding, Used, Unused, FrameRange, Slot, TablePos, HugeAt, LeafOf,
         BindFailure, InTable, VirtualPage, Walk, BindPlan, Enough, Covers, AfterAll, CostAll;
    ghost var o := other.tables;
    done := Count(at.pdp, at.pd, at.pt, 0);
    for pi := 0 to 512
      invariant done == Count(at.pdp, at.pd, at.pt, pi) && Going(pager, a, s0, was, o, base, done)
    {
      PageHere(s0, pager.Now(a), pager.cr3, o, base, at, pi);
      var raw := Slot(pager.memory.frames, table, pi);
      var e := BindEntry(pager, base, o, a, raw, Address(at.pdp, at.pd, at.pt, pi), s0, was);
      if e.Some? {
        return e, done;
      }
      done := done + 1;
    }
    return None, done;
  }

  /** What the loop reads is the entry of the walk, as it was at the start. */
  lemma PageHere(s0: Space, s1: Space, root: nat, o: Tables, base: nat, at: Address, pi: Index)
    requires Binding(s0, s1, root, o, base, Count(at.pdp, at.pd, at.pt, pi)) && InTable(s0.mem, o, at)
    ensures Root in o && TablePos(at, 3) in o
    ensures var a := Address(at.pdp, at.pd, at.pt, pi); var e1 := Slot(s1.mem, o[TablePos(at, 3)], pi);
            && PageNo(a) == Count(at.pdp, at.pd, at.pt, pi)
            && LeafOf(s0.mem, o[Root], a) == e1 && !HugeAt(s0.mem, o, a)
            && Walk(s0.mem, o[Root], a) == if e1.flags.present then Some(e1.frame) else None
  {
    hide Slot, Walk, Tree, HugeAt, AcceptablePage, BindLeaves;
    var a := Address(at.pdp, at.pd, at.pt, pi);
    TablePosAre(at);
    TablePosAre(a);
    BindingReads(s0, s1, root, o, base, Count(at.pdp, at.pd, at.pt, pi), TablePos(at, 3), pi);
    assert InTable(s0.mem, o, a);
    WalkHere(s0.mem, o, a);
  }

  lemma BindRegionAttempt(s0: Space, s1: Space, s2: Space, root: nat, other: nat, vb: PageNumber, c: nat, r: Region)
    requires BindEffect(s0, s1, root, other, vb, c)
    requires RegionEffect(s1, s2, root, r) && r.present && r.pages == 0 && r.lo >= r.hi
    ensures BindEffect(s0, s2, root, other, vb, c)
  {
    hide Kept, Walk, PathOpen, UpperOpen, HugeAt, Offset, FromPageNo, SameHugeAt;
    KeptTransitive(s0, s1, s2);
    forall a ensures (PathOpen(s2.mem, root, a) <==> PathOpen(s1.mem, root, a))
      && (UpperOpen(s2.mem, root, a) <==> UpperOpen(s1.mem, root, a)) {
      assert SameOpenAt(s1.mem, s2.mem, root, r, a);
    }
    SameOpenTransitive(s0.mem, s1.mem, s2.mem, root);
    forall b ensures Walk(s2.mem, root, b) == BoundWalk(s0.mem, root, other, vb, c, b) {
      assert Walk(s1.mem, root, b) == BoundWalk(s0.mem, root, other, vb, c, b);
      assert Walk(s2.mem, root, b) == RegionWalk(s1.mem, root, r, b);
    }
  }

  lemma BindingRegionAttempt(s0: Space, s1: Space, s2: Space, root: nat, o: Tables, base: nat, c: nat, r: Region,
                             flags: Flags)
    requires Binding(s0, s1, root, o, base, c) && RegionLeaves(s1, s2, r, flags)
    requires RegionEffect(s1, s2, root, r) && r.present && r.pages == 0 && r.lo >= r.hi
    ensures Binding(s0, s2, root, o, base, c)
  {
    hide Walk, Tree, AcceptablePage, BindEffect, BindLeaves, SameLeaves, RegionLeaves, PageNo, RegionEffect,
         VirtualPage;
    NoLeavesTouched(s1, s2, r, flags);
    BindLeavesAttempt(s0, s1, s2, o[Root], VirtualPage(base), c);
    BindRegionAttempt(s0, s1, s2, root, o[Root], VirtualPage(base), c, r);
  }

  lemma LargeFails(m: Frames, o: Tables, base: nat, t: set<Pos>, free: int, at: Address)
    requires Root in o && Walk(m, o[Root], at).Some? && HugeAt(m, o, at)
    ensures BindFailure(if base % PAGE != 0 then InvalidAddress else InvalidFlags, m, o, base, t, free)
  {
    hide Walk, HugeAt, Enough, BindPlan, LeafOf;
    assert !AcceptablePage(m, o, at);
  }

  /** A present 2 MiB page of the other pager: the page-size bit is passed on with the flags, and every mapping function
      rejects it before anything is allocated. */
  method BindLarge(pager: Pager, base: nat, ghost o: Tables, a: Allocator, large: Entry, at: Address,
                   ghost s0: Space, ghost was: Supply) returns (r: MemoryResult)
    requires Going(pager, a, s0, was, o, base, PageNo(at)) && Root in o && at.page == 0
    requires large.flags.present && large.flags.size && large.frame % 512 == 0
    requires Walk(s0.mem, o[Root], at).Some? && HugeAt(s0.mem, o, at)
    modifies pager`tables, pager.memory, a`current, a.bitmap
    ensures r == if base % PAGE != 0 then InvalidAddress else InvalidFlags
    ensures Stopped(pager, a, s0, was, o, base, PageNo(at), r)
  {
    hide pager.Uses, Prepared, RegionEffect, RegionLeaves, Untouched, Allowed, Leaves2Mb, Upper, Binding, OnlyBytes,
         BytesMapped, BindFailure, Bindable, Used, Unused, FrameRange, HugeAt, LeafOf, VirtualPage, Offset, Walk,
         Translate, IntoAddress, PageNo, Tree, Slot, BindPlan, Enough, Covers, AfterAll, CostAll, Missing, Attempted,
         MiddleFits, Stores2Mb, MappedHuge;
    ghost var s1 := pager.Now(a);
    var vaddr := base + IntoAddress(at);
    IntoAddressPages(base, at);
    LargeAligned(base, at, large.frame);
    LargeFails(s0.mem, o, base, s0.tables.Keys, was.free, at);
    if vaddr % PAGER_2MIB == 0 {
      AlignedBy1Mb(vaddr);
      AlignedToPages(vaddr);
      var p := pager.Page2Mb(vaddr, large.frame * PAGE, LowBits(large.flags), a);
      BindingAttempt(s0, s1, pager.Now(a), pager.cr3, o, base, PageNo(at), large.flags.rw);
      return p.error;
    } else {
      var e, d := MapEfficient(MemoryBlock(large.frame * PAGE, PAGER_2MIB), pager, a, vaddr, LowBits(large.flags));
      BindingRegionAttempt(s0, s1, pager.Now(a), pager.cr3, o, base, PageNo(at),
                           EfficientRegion(vaddr, large.frame * PAGE, PagesOf(PAGER_2MIB), true, d),
                           LowBits(large.flags));
      return e.value;
    }
  }

  lemma AlignedBy1Mb(x: nat)
    requires x % PAGER_2MIB == 0
    ensures x % 0x10_0000 == 0
  {
    MultipleOf1Mb(2 * (x / PAGER_2MIB));
  }

  lemma LargeAligned(base: nat, at: Address, frame: nat)
    requires frame % 512 == 0
    ensures frame * PAGE % PAGER_2MIB == 0 && frame * PAGE % 0x10_0000 == 0
  {
    MultipleOf2Mb(frame / 512);
    MultipleOf1Mb(2 * (frame / 512));
  }

  lemma AlignedToPages(x: nat)
    requires x % PAGER_2MIB == 0
    ensures x % PAGE == 0
  {
    assert x == x / PAGER_2MIB * 512 * PAGE;
  }

  /** The loop over one directory of the other pager. */
  method BindDirectory(pager: Pager, base: nat, other: Pager, a: Allocator, pdt: PointerTable, dir: Address,
                       ghost s0: Space, ghost was: Supply) returns (r: Option<MemoryResult>, ghost done: nat)
    requires pager != other && pager.memory == other.memory
    requires Going(pager, a, s0, was, other.tables, base, Count(dir.pdp, dir.pd, 0, 0))
    requires InDirectory(s0.mem, other.tables, dir) && pdt.address == other.tables[TablePos(dir, 2)]
        && pdt.increment == PAGER_1GIB
    requires pdt.table == other.tables[TablePos(dir, 1)] && pdt.index == dir.pd
    modifies pager`tables, pager.memory, a`current, a.bitmap
    ensures r.None? ==> done == Count(dir.pdp, dir.pd, 512, 0) && Going(pager, a, s0, was, other.tables, base, done)
    ensures r.Some? ==> Stopped(pager, a, s0, was, other.tables, base, done, r.value)
  {
    hide pager.Uses, Binding, Used, Unused, FrameRange, Slot, TablePos, HugeAt, LeafOf, BindFailure,
         InDirectory, InTable, VirtualPage, Walk, Tree, PageNo, BindPlan, Enough, Covers, AfterAll, CostAll;
    ghost var o := other.tables;
    done := Count(dir.pdp, dir.pd, 0, 0);
    for pti := 0 to 512
      invariant done == Count(dir.pdp, dir.pd, pti, 0) && Going(pager, a, s0, was, o, base, done)
    {
      var at := Address(dir.pdp, dir.pd, pti, 0);
      SlotHere(s0, pager.Now(a), pager.cr3, o, base, dir, pti);
      var pt := other.Instantiate(pdt, pti).value;
      var e := other.Read(pt);
      if !e.flags.present {
        GoingSkip(pager, a, s0, was, o, base, done, Count(dir.pdp, dir.pd, pti + 1, 0));
        done := Count(dir.pdp, dir.pd, pti + 1, 0);
        continue;
      }
      if e.flags.size {
        var error := BindLarge(pager, base, o, a, e, at, s0, was);
        return Some(error), done;
      }
      r, done := BindTable(pager, base, other, a, pt.address, at, s0, was);
      if r.Some? {
        return;
      }
    }
    return None, done;
  }

  lemma SlotHere(s0: Space, s1: Space, root: nat, o: Tables, base: nat, dir: Address, pti: Index)
    requires Binding(s0, s1, root, o, base, Count(dir.pdp, dir.pd, pti, 0)) && InDirectory(s0.mem, o, dir)
    ensures Root in o && TablePos(dir, 2) in o && TablePos(dir, 1) in o
    ensures !Slot(s1.mem, o[TablePos(dir, 1)], dir.pd).flags.size
    ensures var at := Address(dir.pdp, dir.pd, pti, 0); var e2 := Slot(s1.mem, o[TablePos(dir, 2)], pti);
            && PageNo(at) == Count(dir.pdp, dir.pd, pti, 0)
            && Count(dir.pdp, dir.pd, pti + 1, 0) <= SPACE_PAGES
            && (!e2.flags.present ==>
                  forall a :: Count(dir.pdp, dir.pd, pti, 0) <= PageNo(a) < Count(dir.pdp, dir.pd, pti + 1, 0) ==>
                    Walk(s0.mem, o[Root], a) == None)
            && (e2.flags.present && e2.flags.size ==>
              e2.frame % 512 == 0 && Walk(s0.mem, o[Root], at).Some? && HugeAt(s0.mem, o, at))
            && (e2.flags.present && !e2.flags.size ==> InTable(s0.mem, o, at) && e2.frame == o[TablePos(at, 3)])
  {
    hide Slot, Walk, Tree, HugeAt, PageNo, AcceptablePage, BindLeaves;
    var at := Address(dir.pdp, dir.pd, pti, 0);
    TablePosAre(at);
    TablePosAre(dir);
    CountOf(at);
    var c := Count(dir.pdp, dir.pd, pti, 0);
    BindingReads(s0, s1, root, o, base, c, TablePos(dir, 2), pti);
    BindingReads(s0, s1, root, o, base, c, TablePos(dir, 1), dir.pd);
    assert InDirectory(s0.mem, o, at);
    StepDown(s0.mem, o, at);
    WalkHere(s0.mem, o, at);
    forall a | c <= PageNo(a) < Count(dir.pdp, dir.pd, pti + 1, 0)
      && !Slot(s0.mem, o[TablePos(dir, 2)], pti).flags.present
      ensures Walk(s0.mem, o[Root], a) == None
    {
      SamePt(a, dir.pdp, dir.pd, pti);
      TablePosAre(a);
      assert InDirectory(s0.mem, o, a);
      WalkHere(s0.mem, o, a);
    }
  }

  lemma CountOf(a: Address)
    ensures PageNo(a) == Count(a.pdp, a.pd, a.pt, a.page)
    ensures Count(a.pdp, a.pd, a.pt + 1, 0) <= Count(a.pdp, a.pd + 1, 0, 0) <= Count(a.pdp + 1, 0, 0, 0) <= SPACE_PAGES
  {
  }

  lemma PdHere(s0: Space, s1: Space, root: nat, o: Tables, base: nat, dir: Address, pdi: Index)
    requires Binding(s0, s1, root, o, base, Count(dir.pdp, pdi, 0, 0)) && InPdpt(s0.mem, o, dir)
    ensures Root in o && TablePos(dir, 1) in o
    ensures !Slot(s1.mem, o[Root], dir.pdp).flags.size
    ensures var at := Address(dir.pdp, pdi, 0, 0); var e3 := Slot(s1.mem, o[TablePos(dir, 1)], pdi);
            && Count(dir.pdp, pdi + 1, 0, 0) <= SPACE_PAGES && TablePos(at, 1) == TablePos(dir, 1)
            && (!e3.flags.present ==>
                  forall a :: Count(dir.pdp, pdi, 0, 0) <= PageNo(a) < Count(dir.pdp, pdi + 1, 0, 0) ==>
                    Walk(s0.mem, o[Root], a) == None)
            && (e3.flags.present ==> InDirectory(s0.mem, o, at) && e3.frame == o[TablePos(at, 2)])
  {
    hide Slot, Walk, Tree, HugeAt, PageNo, AcceptablePage, BindLeaves;
    var at := Address(dir.pdp, pdi, 0, 0);
    TablePosAre(at);
    TablePosAre(dir);
    CountOf(at);
    var c := Count(dir.pdp, pdi, 0, 0);
    BindingReads(s0, s1, root, o, base, c, TablePos(dir, 1), pdi);
    BindingReads(s0, s1, root, o, base, c, Root, dir.pdp);
    assert InPdpt(s0.mem, o, at);
    StepDown(s0.mem, o, at);
    forall a | c <= PageNo(a) < Count(dir.pdp, pdi + 1, 0, 0) && !Slot(s0.mem, o[TablePos(dir, 1)], pdi).flags.present
      ensures Walk(s0.mem, o[Root], a) == None
    {
      SamePd(a, dir.pdp, pdi);
      TablePosAre(a);
      assert InPdpt(s0.mem, o, a);
      WalkHere(s0.mem, o, a);
    }
  }

  lemma PdpHere(s0: Space, s1: Space, root: nat, o: Tables, base: nat, pdpi: Index)
    requires Binding(s0, s1, root, o, base, Count(pdpi, 0, 0, 0))
    ensures Root in o
    ensures var at := Address(pdpi, 0, 0, 0); var e4 := Slot(s1.mem, o[Root], pdpi);
            && Count(pdpi + 1, 0, 0, 0) <= SPACE_PAGES
            && (!e4.flags.present ==>
                  forall a :: Count(pdpi, 0, 0, 0) <= PageNo(a) < Count(pdpi + 1, 0, 0, 0) ==>
                    Walk(s0.mem, o[Root], a) == None)
            && (e4.flags.present ==> InPdpt(s0.mem, o, at) && e4.frame == o[TablePos(at, 1)])
  {
    hide Slot, Walk, Tree, HugeAt, PageNo, AcceptablePage, BindLeaves;
    var at := Address(pdpi, 0, 0, 0);
    CountOf(at);
    var c := Count(pdpi, 0, 0, 0);
    BindingReads(s0, s1, root, o, base, c, Root, pdpi);
    StepDown(s0.mem, o, at);
    forall a | c <= PageNo(a) < Count(pdpi + 1, 0, 0, 0) && !Slot(s0.mem, o[Root], pdpi).flags.present
      ensures Walk(s0.mem, o[Root], a) == None
    {
      SamePdp(a, pdpi);
      WalkHere(s0.mem, o, a);
    }
  }

  /** The loop over one table of the second level of the other pager. */
  method BindPdpt(pager: Pager, base: nat, other: Pager, a: Allocator, pdpt: PointerTable, at: Address,
                  ghost s0: Space, ghost was: Supply) returns (r: Option<MemoryResult>, ghost done: nat)
    requires pager != other && pager.memory == other.memory
    requires Going(pager, a, s0, was, other.tables, base, Count(at.pdp, 0, 0, 0))
    requires InPdpt(s0.mem, other.tables, at) && pdpt.address == other.tables[TablePos(at, 1)] && pdpt.increment == 0
    requires pdpt.table == other.tables[Root] && pdpt.index == at.pdp
    modifies pager`tables, pager.memory, a`current, a.bitmap
    ensures r.None? ==> done == Count(at.pdp, 512, 0, 0) && Going(pager, a, s0, was, other.tables, base, done)
    ensures r.Some? ==> Stopped(pager, a, s0, was, other.tables, base, done, r.value)
  {
    hide pager.Uses, Binding, Used, Unused, FrameRange, Slot, TablePos, HugeAt, LeafOf, BindFailure,
         InPdpt, InDirectory, VirtualPage, Walk, Tree, PageNo, BindPlan, Enough, Covers, AfterAll, CostAll;
    ghost var o := other.tables;
    done := Count(at.pdp, 0, 0, 0);
    for pdi := 0 to 512
      invariant done == Count(at.pdp, pdi, 0, 0) && Going(pager, a, s0, was, o, base, done)
    {
      PdHere(s0, pager.Now(a), pager.cr3, o, base, at, pdi);
      var pdt := other.Instantiate(pdpt, pdi).value;
      if !other.Read(pdt).flags.present {
        GoingSkip(pager, a, s0, was, o, base, done, Count(at.pdp, pdi + 1, 0, 0));
        done := Count(at.pdp, pdi + 1, 0, 0);
        continue;
      }
      r, done := BindDirectory(pager, base, other, a, pdt, Address(at.pdp, pdi, 0, 0), s0, was);
      if r.Some? {
        return;
      }
    }
    return None, done;
  }

  lemma CountStart()
    ensures Count(0, 0, 0, 0) == 0
  {
  }

  lemma CountEnd()
    ensures Count(512, 0, 0, 0) == SPACE_PAGES
  {
  }

  lemma CountNext(i: nat)
    ensures Count(i, 512, 0, 0) == Count(i + 1, 0, 0, 0)
  {
  }

  lemma CountGrows(i: nat)
    ensures Count(i, 0, 0, 0) <= Count(i + 1, 0, 0, 0)
  {
  }

  /** The outermost loop. */
  method BindTop(pager: Pager, base: nat, other: Pager, a: Allocator, ghost s0: Space, ghost was: Supply)
    returns (r: Option<MemoryResult>, ghost done: nat)
    requires pager != other && pager.memory == other.memory && Root in other.tables && other.tables[Root] == other.cr3
    requires Going(pager, a, s0, was, other.tables, base, 0)
    modifies pager`tables, pager.memory, a`current, a.bitmap
    ensures r.None? ==> done == SPACE_PAGES && Going(pager, a, s0, was, other.tables, base, done)
    ensures r.Some? ==> Stopped(pager, a, s0, was, other.tables, base, done, r.value)
  {
    hide pager.Uses, Binding, Used, Unused, FrameRange, Slot, TablePos, HugeAt, LeafOf, BindFailure,
         InPdpt, VirtualPage, Walk, Tree, PageNo, Count, BindPlan, Enough, Covers, AfterAll, CostAll;
    ghost var o := other.tables;
    done := 0;
    CountStart();
    CountEnd();
    for pdpi := 0 to 512
      invariant done == Count(pdpi, 0, 0, 0) && Going(pager, a, s0, was, o, base, done)
    {
      PdpHere(s0, pager.Now(a), pager.cr3, o, base, pdpi);
      CountNext(pdpi);
      CountGrows(pdpi);
      var pdpt := other.Top(pdpi, NO_FLAGS);
      if !other.Read(pdpt).flags.present {
        GoingSkip(pager, a, s0, was, o, base, done, Count(pdpi + 1, 0, 0, 0));
        done := Count(pdpi + 1, 0, 0, 0);
        continue;
      }
      r, done := BindPdpt(pager, base, other, a, pdpt, Address(pdpi, 0, 0, 0), s0, was);
      if r.Some? {
        return;
      }
    }
    return None, done;
  }

  /** Takes the mappings of another pager over, `base` bytes further up. */
  method BindOther(pager: Pager, base: nat, other: Pager, a: Allocator)
    returns (r: Option<MemoryResult>, ghost done: nat)
    requires pager.Uses(a) && other.Valid() && pager != other && pager.memory == other.memory
    requires Alien(pager.Now(a), other.tables)
    requires pager.Affords(BindPlan(pager.memory.frames, other.cr3, base, SPACE_PAGES), a)
    modifies pager`tables, pager.memory, a`current, a.bitmap
    ensures pager.Uses(a) && other.Valid() && Alien(pager.Now(a), other.tables)
    ensures SameWalk(old(pager.memory.frames), pager.memory.frames, other.cr3)
    ensures done <= SPACE_PAGES
    ensures BindEffect(old(pager.Now(a)), pager.Now(a), pager.cr3, other.cr3, VirtualPage(base), done)
    ensures BindLeaves(old(pager.Now(a)), pager.Now(a), other.cr3, VirtualPage(base), done)
    ensures r.None? <==> old(Bindable(other.memory.frames, other.tables, base, pager.tables.Keys, a.FreeFrames()))
    ensures r.None? ==>
              && done == SPACE_PAGES
              && pager.TakenAll(old(pager.tables.Keys), old(a.Stock()),
                                BindPlan(old(pager.memory.frames), other.cr3, base, SPACE_PAGES), a)
    ensures r.Some? ==>
        old(BindFailure(r.value, other.memory.frames, other.tables, base, pager.tables.Keys, a.FreeFrames()))
  {
    hide Binding, Used, Unused, FrameRange, Slot, Bindable, BindFailure, VirtualPage,
         Walk, Tree, BindEffect, BindLeaves, SameWalk, BindPlan, Enough, Covers, AfterAll, CostAll;
    ghost var s0, was, o := pager.Now(a), a.Stock(), other.tables;
    TreeParts(s0.mem, o);
    BindingStart(s0, pager.cr3, o, base);
    StartGoing(pager, a, o, base);
    r, done := BindTop(pager, base, other, a, s0, was);
    BindingEnd(s0, pager.Now(a), pager.cr3, o, base, done);
    if r.Some? {
      FailureExcludes(r.value, s0.mem, o, base, s0.tables.Keys, was.free);
    } else {
      AllAccepted(s0, pager.Now(a), pager.cr3, o, base, was.free);
    }
  }

  lemma BindingStart(s: Space, root: nat, o: Tables, base: nat)
    requires Tree(s.mem, s.tables) && s.tables.Values <= s.used <= s.range
    requires Root in o && Tree(s.mem, o) && Alien(s, o)
    ensures Binding(s, s, root, o, base, 0)
  {
    LeavesStart(s, o[Root], VirtualPage(base));
    BindStart(s, root, o[Root], VirtualPage(base));
  }

  lemma StartGoing(pager: Pager, a: Allocator, o: Tables, base: nat)
    requires pager.Uses(a) && Root in o && Binding(pager.Now(a), pager.Now(a), pager.cr3, o, base, 0)
    requires pager.Affords(BindPlan(pager.memory.frames, o[Root], base, SPACE_PAGES), a)
    ensures Going(pager, a, pager.Now(a), a.Stock(), o, base, 0)
  {
    hide pager.Uses, Binding;
    EmptyPlan(pager.tables.Keys, a.FreeFrames());
  }

  lemma FailureExcludes(e: MemoryResult, m: Frames, o: Tables, base: nat, t: set<Pos>, free: int)
    requires BindFailure(e, m, o, base, t, free)
    ensures !Bindable(m, o, base, t, free)
  {
  }

  lemma AllAccepted(s0: Space, s1: Space, root: nat, o: Tables, base: nat, free: int)
    requires Binding(s0, s1, root, o, base, SPACE_PAGES)
    requires Root in o && Enough(s0.tables.Keys, free, BindPlan(s0.mem, o[Root], base, SPACE_PAGES))
    ensures Bindable(s0.mem, o, base, s0.tables.Keys, free)
  {
    hide Walk, AcceptablePage, Enough, BindPlan, BindEffect, BindLeaves, Tree, PageNo;
    forall a ensures PageNo(a) < SPACE_PAGES { PageNoBound(a); }
  }

  lemma BindingEnd(s0: Space, s1: Space, root: nat, o: Tables, base: nat, c: nat)
    requires Binding(s0, s1, root, o, base, c)
    ensures Root in o && c <= SPACE_PAGES && BindEffect(s0, s1, root, o[Root], VirtualPage(base), c)
    ensures BindLeaves(s0, s1, o[Root], VirtualPage(base), c)
    ensures Tree(s1.mem, o) && Alien(s1, o) && SameWalk(s0.mem, s1.mem, o[Root])
  {
    hide Walk, Tree, AcceptablePage, PageNo, Slot, BindLeaves, Alien, Kept;
    AlienUntouched(s0, s1, o);
  }
}
